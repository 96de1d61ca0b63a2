/** The score timeline of a session replay (api/routers/replay.py), over exact rationals. */
module Replay {
  import opened Numbers

  /** The events that bear a signal, with the payload flags that are looked at. */
  datatype Kind =
    | SshAuthAttempt
    | HttpRequest(cve: bool, sqli: bool, traversal: bool, scanner: bool)
    | FtpCommand(pass: bool)
    | RdpConnect
    | TlsClientHello
    | SshCommand
    | OtherKind

  /** `ts` is in microseconds. */
  datatype Event = Event(kind: Kind, ts: int)

  datatype Frame = Frame(tMs: int, delta: int, running: int)

  // ---- specification -------------------------------------------------------

  /** The raw weight of an event; 0 when it is not a signal. */
  function Weight(k: Kind): nat {
    match k
    case SshAuthAttempt => 6
    case HttpRequest(cve, sqli, traversal, scanner) =>
      if cve then 18 else if sqli then 14 else if traversal then 10 else if scanner then 8 else 3
    case FtpCommand(pass) => if pass then 5 else 0
    case RdpConnect => 6
    case TlsClientHello => 4
    case SshCommand => 12
    case OtherKind => 0
  }

  function Signals(events: seq<Event>): (r: seq<Event>)
    ensures |r| <= |events|
    ensures forall i :: 0 <= i < |r| ==> Weight(r[i].kind) > 0 && r[i] in events
  {
    if events == [] then []
    else
      var before, e := Signals(events[..|events| - 1]), events[|events| - 1];
      if Weight(e.kind) > 0 then before + [e] else before
  }

  function TotalWeight(signals: seq<Event>): nat {
    if signals == [] then 0 else TotalWeight(signals[..|signals| - 1]) + Weight(signals[|signals| - 1].kind)
  }

  /** `round(n / d)`: to the nearest integer, halves to even. */
  function RoundHalfEven(n: nat, d: nat): nat
    requires d > 0
  {
    var q, r := n / d, n % d;
    if 2 * r < d || (2 * r == d && q % 2 == 0) then q else q + 1
  }

  /** The contribution of one signal when all of them weigh `total`. */
  function Delta(raw: nat, total: nat, final: int): int
    requires total > 0
  {
    if final <= 0 then raw
    else
      var rounded := RoundHalfEven(raw * final, total);
      if rounded > 1 then rounded else 1
  }

  function Advance(running: int, delta: int, final: int): int {
    if final != 0 && final < running + delta then final else running + delta
  }

  /** Milliseconds since the start, truncated toward zero. */
  function Offset(ts: int, started: int): int {
    var us := ts - started;
    if us >= 0 then us / 1000 else -((-us) / 1000)
  }

  function Frames(signals: seq<Event>, total: nat, started: int, final: int): (r: seq<Frame>)
    requires total > 0
    ensures |r| == |signals|
  {
    if signals == [] then []
    else
      var before, e := Frames(signals[..|signals| - 1], total, started, final), signals[|signals| - 1];
      var delta := Delta(Weight(e.kind), total, final);
      before + [Frame(Offset(e.ts, started), delta, Advance(Reached(before), delta, final))]
  }

  /** The running score after the frames. */
  function Reached(frames: seq<Frame>): int {
    if frames == [] then 0 else frames[|frames| - 1].running
  }

  /** The last frame is moved onto the final score. */
  function Pin(frames: seq<Frame>, final: int): (r: seq<Frame>)
    ensures |r| == |frames|
  {
    if frames == [] || Reached(frames) == final then frames
    else
      var last := frames[|frames| - 1];
      frames[|frames| - 1 := Frame(last.tMs, last.delta + (final - last.running), final)]
  }

  /** `sum(...) or 1` */
  function Divisor(signals: seq<Event>): (d: nat)
    ensures d > 0
  {
    if TotalWeight(signals) == 0 then 1 else TotalWeight(signals)
  }

  function Unpinned(events: seq<Event>, final: int): seq<Frame> {
    if events == [] then []
    else Frames(Signals(events), Divisor(Signals(events)), events[0].ts, final)
  }

  function Timeline(events: seq<Event>, final: int): seq<Frame> {
    Pin(Unpinned(events, final), final)
  }

  // ---- the builder as written --------------------------------------------------

  method BuildScoreTimeline(events: seq<Event>, final: int) returns (frames: seq<Frame>)
    ensures frames == Timeline(events, final)
  {
    hide Weight, RoundHalfEven, Offset, Delta, Advance, Signals, TotalWeight;
    frames := [];
    if events == [] { return; }
    var started := events[0].ts;
    var signals, total := CollectSignals(events);
    if total == 0 { total := 1; }
    var running := 0;
    var k := 0;
    while k < |signals|
      invariant 0 <= k <= |signals|
      invariant frames == Frames(signals[..k], total, started, final) && running == Reached(frames)
    {
      assert signals[..k + 1][..k] == signals[..k];
      var e := signals[k];
      var delta := Delta(Weight(e.kind), total, final);
      running := Advance(running, delta, final);
      frames := frames + [Frame(Offset(e.ts, started), delta, running)];
      k := k + 1;
    }
    assert signals[..k] == signals;
    if frames != [] && frames[|frames| - 1].running != final {
      var last := frames[|frames| - 1];
      frames := frames[|frames| - 1 := Frame(last.tMs, last.delta + (final - last.running), final)];
    }
  }

  /** The first loop, with the sum of the collected weights. */
  method CollectSignals(events: seq<Event>) returns (signals: seq<Event>, total: nat)
    ensures signals == Signals(events) && total == TotalWeight(signals)
  {
    hide Weight, Signals, TotalWeight;
    NoSignals();
    signals, total := [], 0;
    var i := 0;
    while i < |events|
      invariant 0 <= i <= |events|
      invariant signals == Signals(events[..i]) && total == TotalWeight(signals)
    {
      var e := events[i];
      SignalsStep(events, i);
      WeightStep(signals, e);
      if Weight(e.kind) > 0 {
        signals := signals + [e];
        total := total + Weight(e.kind);
      }
      i := i + 1;
    }
    assert events[..i] == events;
  }

  lemma NoSignals()
    ensures Signals([]) == [] && TotalWeight([]) == 0
  {
  }

  lemma SignalsStep(events: seq<Event>, i: nat)
    requires i < |events|
    ensures Signals(events[..i + 1]) ==
      if Weight(events[i].kind) > 0 then Signals(events[..i]) + [events[i]] else Signals(events[..i])
  {
    hide Weight;
    assert events[..i + 1][..i] == events[..i];
  }

  lemma WeightStep(signals: seq<Event>, e: Event)
    ensures TotalWeight(signals + [e]) == TotalWeight(signals) + Weight(e.kind)
  {
    hide Weight;
    assert (signals + [e])[..|signals|] == signals;
  }

  // ---- the running score -----------------------------------------------------------

  function DeltaSum(frames: seq<Frame>): int {
    if frames == [] then 0 else DeltaSum(frames[..|frames| - 1]) + frames[|frames| - 1].delta
  }

  lemma {:induction false} FramesPrefix(signals: seq<Event>, total: nat, started: int, final: int, k: nat)
    requires total > 0 && k <= |signals|
    ensures Frames(signals, total, started, final)[..k] == Frames(signals[..k], total, started, final)
  {
    if k == |signals| {
      assert signals[..k] == signals;
    } else {
      var init := signals[..|signals| - 1];
      FramesPrefix(init, total, started, final, k);
      assert init[..k] == signals[..k];
    }
  }

  lemma {:induction false} ReachedIsSaturatedSum(signals: seq<Event>, total: nat, started: int, final: int)
    requires total > 0 && final > 0
    ensures var frames := Frames(signals, total, started, final);
      && Reached(frames) == Min(final, DeltaSum(frames)) && DeltaSum(frames) >= |frames|
  {
    hide Weight, RoundHalfEven, Offset;
    if signals == [] {
    } else {
      var init := signals[..|signals| - 1];
      ReachedIsSaturatedSum(init, total, started, final);
      assert Frames(signals, total, started, final)[..|init|] == Frames(init, total, started, final);
    }
  }

  /** Before the pin, the running score after k signals is min(final, the sum of k contributions). */
  lemma RunningIsSaturatedSum(events: seq<Event>, final: int, k: nat)
    requires final > 0 && k < |Unpinned(events, final)|
    ensures var frames := Unpinned(events, final);
      frames[k].running == Min(final, DeltaSum(frames[..k + 1]))
  {
    hide Frames;
    var signals := Signals(events);
    FramesPrefix(signals, Divisor(signals), events[0].ts, final, k + 1);
    ReachedIsSaturatedSum(signals[..k + 1], Divisor(signals), events[0].ts, final);
  }

  predicate Rising(frames: seq<Frame>) {
    forall i, j :: 0 <= i < j < |frames| ==> frames[i].running <= frames[j].running
  }

  lemma RisingAdd(frames: seq<Frame>, f: Frame)
    requires Rising(frames) && (frames != [] ==> frames[|frames| - 1].running <= f.running)
    ensures Rising(frames + [f])
  {
  }

  lemma {:induction false} FramesRise(signals: seq<Event>, total: nat, started: int, final: int)
    requires total > 0 && final > 0
    ensures var frames := Frames(signals, total, started, final);
      Rising(frames) && forall i :: 0 <= i < |frames| ==> 0 < frames[i].running <= final
  {
    hide Weight, RoundHalfEven, Offset, Rising;
    if signals == [] {
      NothingRises();
    } else {
      var init := signals[..|signals| - 1];
      FramesRise(init, total, started, final);
      RisingAdd(Frames(init, total, started, final), Frames(signals, total, started, final)[|init|]);
    }
  }

  lemma NothingRises()
    ensures Rising([])
  {
  }

  /** For a positive final score the bar only climbs, never passes the score, and lands on it. */
  lemma TimelineClimbs(events: seq<Event>, final: int)
    requires final > 0
    ensures var frames := Timeline(events, final);
      && Rising(frames) && (forall i :: 0 <= i < |frames| ==> 0 < frames[i].running <= final)
      && (frames != [] ==> Reached(frames) == final)
  {
    hide Frames;
    if events != [] {
      FramesRise(Signals(events), Divisor(Signals(events)), events[0].ts, final);
    }
  }

  /** A score of 0 is shown by a bar that first rises: with two signals or more, the running score
      stays within the final score exactly when that is positive. */
  lemma WithinFinalIff(events: seq<Event>, final: int)
    requires final >= 0 && |Timeline(events, final)| >= 2
    ensures (forall i :: 0 <= i < |Timeline(events, final)| ==> Timeline(events, final)[i].running <= final) <==> final > 0
  {
    if final > 0 {
      TimelineClimbs(events, final);
    } else {
      FirstFrame(events);
    }
  }

  lemma FirstFrame(events: seq<Event>)
    requires |Timeline(events, 0)| >= 2
    ensures Timeline(events, 0)[0].running > 0
  {
    hide Weight, Offset;
    var signals := Signals(events);
    FramesPrefix(signals, Divisor(signals), events[0].ts, 0, 1);
    assert signals[..1][..0] == [];
    assert Frames(signals[..1], Divisor(signals), events[0].ts, 0)[0].running == Weight(signals[0].kind);
  }

  // ---- offsets ---------------------------------------------------------------------------

  predicate Ordered(events: seq<Event>) {
    forall i, j :: 0 <= i < j < |events| ==> events[i].ts <= events[j].ts
  }

  lemma {:induction false} SignalsOrdered(events: seq<Event>)
    requires Ordered(events)
    ensures Ordered(Signals(events))
  {
    hide Weight;
    if events == [] {
    } else {
      var init := events[..|events| - 1];
      SignalsOrdered(init);
      assert forall e :: e in init ==> e.ts <= events[|events| - 1].ts;
    }
  }

  lemma {:induction false} FrameOffset(signals: seq<Event>, total: nat, started: int, final: int, k: nat)
    requires total > 0 && k < |signals|
    ensures Frames(signals, total, started, final)[k].tMs == Offset(signals[k].ts, started)
  {
    hide Weight, RoundHalfEven, Offset;
    if k < |signals| - 1 {
      FrameOffset(signals[..|signals| - 1], total, started, final, k);
    }
  }

  lemma OffsetMonotone(a: int, b: int, started: int)
    requires a <= b
    ensures Offset(a, started) <= Offset(b, started)
  {
  }

  /** Time-ordered events give non-decreasing, non-negative offsets. */
  lemma OffsetsRise(events: seq<Event>, final: int, j: nat, k: nat)
    requires Ordered(events) && j <= k < |Timeline(events, final)|
    ensures 0 <= Timeline(events, final)[j].tMs <= Timeline(events, final)[k].tMs
  {
    hide Timeline, Offset, Signals;
    var signals := Signals(events);
    SignalsOrdered(events);
    TimelineOffset(events, final, j);
    TimelineOffset(events, final, k);
    OffsetMonotone(signals[j].ts, signals[k].ts, events[0].ts);
    assert signals[j] in events;
    OffsetMonotone(events[0].ts, signals[j].ts, events[0].ts);
    OffsetZero(events[0].ts);
  }

  lemma TimelineOffset(events: seq<Event>, final: int, i: nat)
    requires i < |Timeline(events, final)|
    ensures events != [] && i < |Signals(events)|
    ensures Timeline(events, final)[i].tMs == Offset(Signals(events)[i].ts, events[0].ts)
  {
    hide Frames, Offset, Signals, Divisor, Pin;
    var signals := Signals(events);
    FrameOffset(signals, Divisor(signals), events[0].ts, final, i);
    PinKeepsTime(Unpinned(events, final), final, i);
  }

  lemma PinKeepsTime(frames: seq<Frame>, final: int, i: nat)
    requires i < |frames|
    ensures Pin(frames, final)[i].tMs == frames[i].tMs
  {
  }

  lemma OffsetZero(started: int)
    ensures Offset(started, started) == 0
  {
  }

  // ---- the pin is small ---------------------------------------------------------------------

  /** Rounding loses at most half a unit. */
  lemma RoundingLoss(n: nat, d: nat)
    requires d > 0
    ensures 2 * d * RoundHalfEven(n, d) >= 2 * n - d
  {
    var q, r := n / d, n % d;
    assert n == q * d + r;
    assert 2 * d * q == 2 * (q * d);
    assert 2 * d * (q + 1) == 2 * (q * d) + 2 * d;
  }

  lemma DeltaLoss(raw: nat, total: nat, final: int)
    requires total > 0 && final > 0
    ensures 2 * total * Delta(raw, total, final) >= 2 * (raw * final) - total
  {
    RoundingLoss(raw * final, total);
    var rounded := RoundHalfEven(raw * final, total);
    if rounded < 1 {
      assert 2 * total * 1 >= 2 * total * rounded;
    }
  }

  lemma {:induction false} SumLoss(signals: seq<Event>, total: nat, started: int, final: int)
    requires total > 0 && final > 0
    ensures 2 * total * DeltaSum(Frames(signals, total, started, final))
         >= 2 * (TotalWeight(signals) * final) - total * |signals|
  {
    hide Weight, RoundHalfEven, Offset, Delta;
    if signals == [] {
    } else {
      var init, w := signals[..|signals| - 1], Weight(signals[|signals| - 1].kind);
      SumLoss(init, total, started, final);
      DeltaLoss(w, total, final);
      var frames := Frames(signals, total, started, final);
      assert frames[..|init|] == Frames(init, total, started, final);
      Distribute(total, DeltaSum(frames[..|init|]), Delta(w, total, final), TotalWeight(init), w, final, |init|);
    }
  }

  lemma Distribute(total: nat, s: int, d: int, t: nat, w: nat, final: int, n: nat)
    ensures 2 * total * (s + d) == 2 * total * s + 2 * total * d
    ensures (t + w) * final == t * final + w * final
    ensures total * (n + 1) == total * n + total
  {
  }

  lemma Cancel(total: nat, s: int, final: int, n: nat)
    requires total > 0 && 2 * total * s >= 2 * (total * final) - total * n
    ensures 2 * s >= 2 * final - n
  {
    var x := 2 * s - 2 * final + n;
    assert total * x == 2 * total * s - 2 * (total * final) + total * n;
    NonNegativeFactor(total, x);
  }

  lemma NonNegativeFactor(total: nat, x: int)
    requires total > 0 && total * x >= 0
    ensures x >= 0
  {
  }

  lemma {:induction false} SignalsWeigh(events: seq<Event>)
    ensures TotalWeight(Signals(events)) == 0 ==> Signals(events) == []
  {
    var signals := Signals(events);
    if signals == [] {
    } else {
      assert Weight(signals[|signals| - 1].kind) > 0;
    }
  }

  /** The pin adds at most half a point for each frame. */
  lemma PinIsSmall(events: seq<Event>, final: int)
    requires final > 0 && Unpinned(events, final) != []
    ensures var frames := Unpinned(events, final);
      0 <= 2 * (final - Reached(frames)) <= |frames|
  {
    hide Frames, Weight;
    var signals := Signals(events);
    var total := Divisor(signals);
    SignalsWeigh(events);
    SumLoss(signals, total, events[0].ts, final);
    ReachedIsSaturatedSum(signals, total, events[0].ts, final);
    Cancel(total, DeltaSum(Unpinned(events, final)), final, |signals|);
  }

  // ---- the share of each signal ---------------------------------------------------------------

  /** `r` is the integer nearest to `n / d`; of two equally near ones it is the even one. */
  predicate IsRounded(r: int, n: int, d: int) {
    var error := 2 * (d * r - n);
    -d <= error <= d && (error == -d || error == d ==> r % 2 == 0)
  }

  lemma RoundedUnique(r: int, r': int, n: int, d: int)
    requires d > 0 && IsRounded(r, n, d) && IsRounded(r', n, d)
    ensures r == r'
  {
    var e, e', x := 2 * (d * r - n), 2 * (d * r' - n), r - r';
    assert e - e' == 2 * (d * x);
    StepsApart(d, x);
    hide IsRounded;
    if x == 1 || x == -1 {
      Neighbours(r, r', n, d);
    }
  }

  lemma StepsApart(d: int, x: int)
    requires d > 0
    ensures x >= 2 ==> d * x >= 2 * d
    ensures x <= -2 ==> d * x <= -2 * d
  {
  }

  lemma Neighbours(r: int, r': int, n: int, d: int)
    requires d > 0 && (r == r' + 1 || r' == r + 1)
    ensures !(IsRounded(r, n, d) && IsRounded(r', n, d))
  {
    assert d * (r' + 1) == d * r' + d && d * (r + 1) == d * r + d;
  }

  lemma RoundsToNearest(n: nat, d: nat)
    requires d > 0
    ensures IsRounded(RoundHalfEven(n, d), n, d)
  {
    var q, r := n / d, n % d;
    assert n == d * q + r;
    assert d * (q + 1) == d * q + d;
  }

  /** The points that a signal of weight `w` contributes: its share of the final score, rounded, but at
      least one; without a positive final score its weight. */
  ghost predicate IsShare(delta: int, w: nat, total: nat, final: int) {
    if final <= 0 then delta == w
    else exists r :: IsRounded(r, w * final, total) && delta == if r < 1 then 1 else r
  }

  lemma DeltaIsShare(w: nat, total: nat, final: int)
    requires total > 0
    ensures IsShare(Delta(w, total, final), w, total, final)
  {
    if final > 0 {
      RoundsToNearest(w * final, total);
      assert IsRounded(RoundHalfEven(w * final, total), w * final, total);
    }
  }

  /** A weight for each kind of event; the first flag of a request that is set decides. */
  lemma KindWeights(cve: bool, sqli: bool, traversal: bool, scanner: bool)
    ensures Weight(SshAuthAttempt) == Weight(RdpConnect) == 6 && Weight(SshCommand) == 12 && Weight(TlsClientHello) == 4
    ensures Weight(FtpCommand(true)) == 5 && Weight(FtpCommand(false)) == Weight(OtherKind) == 0
    ensures Weight(HttpRequest(true, sqli, traversal, scanner)) == 18
    ensures Weight(HttpRequest(false, true, traversal, scanner)) == 14
    ensures Weight(HttpRequest(false, false, true, scanner)) == 10
    ensures Weight(HttpRequest(false, false, false, true)) == 8
    ensures Weight(HttpRequest(false, false, false, false)) == 3
  {
  }

  /** `at` holds the positions of the events that weigh something. */
  predicate AreSignals(at: seq<nat>, events: seq<Event>) {
    && (forall i, j :: 0 <= i < j < |at| ==> at[i] < at[j])
    && (forall i :: 0 <= i < |at| ==> at[i] < |events|)
    && (forall k :: 0 <= k < |events| ==> (k in at <==> Weight(events[k].kind) > 0))
  }

  predicate Selects(at: seq<nat>, events: seq<Event>, signals: seq<Event>) {
    && AreSignals(at, events) && |at| == |signals|
    && forall i :: 0 <= i < |at| ==> at[i] < |events| && signals[i] == events[at[i]]
  }

  lemma {:induction false} SignalPositions(events: seq<Event>) returns (at: seq<nat>)
    ensures Selects(at, events, Signals(events))
  {
    hide Weight, Selects;
    if events == [] {
      at := [];
      assert Selects([], [], []) by { NoPositions(); }
    } else {
      var init, last := events[..|events| - 1], events[|events| - 1];
      at := SignalPositions(init);
      assert events == init + [last];
      if Weight(last.kind) > 0 {
        OneMoreSignal(at, init, Signals(init), last);
        at := at + [|init|];
      } else {
        NoMoreSignal(at, init, Signals(init), last);
      }
    }
  }

  lemma NoPositions()
    ensures Selects([], [], [])
  {
  }

  lemma OneMoreSignal(at: seq<nat>, init: seq<Event>, signals: seq<Event>, e: Event)
    requires Selects(at, init, signals) && Weight(e.kind) > 0
    ensures Selects(at + [|init|], init + [e], signals + [e])
  {
    hide Weight;
    forall k | 0 <= k < |init + [e]| ensures k in at + [|init|] <==> Weight((init + [e])[k].kind) > 0 {
      if k < |init| {
        assert (init + [e])[k] == init[k];
      }
    }
  }

  lemma NoMoreSignal(at: seq<nat>, init: seq<Event>, signals: seq<Event>, e: Event)
    requires Selects(at, init, signals) && Weight(e.kind) == 0
    ensures Selects(at, init + [e], signals)
  {
    hide Weight;
    forall k | 0 <= k < |init + [e]| ensures k in at <==> Weight((init + [e])[k].kind) > 0 {
      if k < |init| {
        assert (init + [e])[k] == init[k];
      } else {
        assert k !in at;
      }
    }
  }

  /** The sum of the weights of all events. */
  function WeightOf(events: seq<Event>): nat {
    if events == [] then 0 else WeightOf(events[..|events| - 1]) + Weight(events[|events| - 1].kind)
  }

  lemma {:induction false} SignalsWeighAll(events: seq<Event>)
    ensures TotalWeight(Signals(events)) == WeightOf(events)
  {
    hide Weight;
    if events == [] {
    } else {
      SignalsWeighAll(events[..|events| - 1]);
      WeightStep(Signals(events[..|events| - 1]), events[|events| - 1]);
    }
  }

  lemma {:induction false} FrameShare(signals: seq<Event>, total: nat, started: int, final: int, k: nat)
    requires total > 0 && k < |signals|
    ensures IsShare(Frames(signals, total, started, final)[k].delta, Weight(signals[k].kind), total, final)
  {
    hide Weight, Offset, Delta, IsShare, Advance;
    if k < |signals| - 1 {
      FrameShare(signals[..|signals| - 1], total, started, final, k);
    } else {
      DeltaIsShare(Weight(signals[k].kind), total, final);
    }
  }

  /** `t` milliseconds are `us` microseconds, truncated toward zero. */
  predicate IsMillis(t: int, us: int) {
    if us >= 0 then 1000 * t <= us < 1000 * (t + 1) else 1000 * (t - 1) < us <= 1000 * t
  }

  lemma OffsetIsMillis(ts: int, started: int)
    ensures IsMillis(Offset(ts, started), ts - started)
  {
  }

  /** Frame by frame: there is a frame for each event that weighs something, at its offset, and before the
      pin it adds its share. */
  lemma FrameByFrame(events: seq<Event>, final: int) returns (at: seq<nat>)
    ensures var frames := Unpinned(events, final);
      && AreSignals(at, events) && |at| == |frames| && (forall i :: 0 <= i < |at| ==> at[i] < |events|)
      && forall i :: 0 <= i < |at| ==>
           && IsMillis(frames[i].tMs, events[at[i]].ts - events[0].ts)
           && IsShare(frames[i].delta, Weight(events[at[i]].kind), WeightOf(events), final)
  {
    at := SignalPositions(events);
    SignalsWeighAll(events);
    NoneAtAll();
    hide Weight, Frames, IsShare, IsMillis, Offset, AreSignals, Signals, WeightOf;
    var signals := Signals(events);
    forall i | 0 <= i < |at|
      ensures IsMillis(Unpinned(events, final)[i].tMs, events[at[i]].ts - events[0].ts)
      ensures IsShare(Unpinned(events, final)[i].delta, Weight(events[at[i]].kind), WeightOf(events), final)
    {
      SignalsWeigh(events);
      FrameOffset(signals, Divisor(signals), events[0].ts, final, i);
      OffsetIsMillis(signals[i].ts, events[0].ts);
      FrameShare(signals, Divisor(signals), events[0].ts, final, i);
    }
  }

  lemma NoneAtAll()
    ensures Signals([]) == []
  {
  }

  /** The pin changes the last frame only: it raises or lowers its score and its contribution alike. */
  lemma PinShifts(events: seq<Event>, final: int)
    requires Unpinned(events, final) != []
    ensures var (frames, pinned, last) := (Unpinned(events, final), Timeline(events, final), |Unpinned(events, final)| - 1);
      && |pinned| == |frames| && (forall i :: 0 <= i < last ==> pinned[i] == frames[i])
      && pinned[last].tMs == frames[last].tMs && pinned[last].running == final
      && pinned[last].delta - frames[last].delta == final - frames[last].running
  {
    hide Frames;
  }

  lemma {:induction false} ReachedUnclamped(signals: seq<Event>, total: nat, started: int, final: int)
    requires total > 0 && final <= 0 && forall e :: e in signals ==> Weight(e.kind) > 0
    ensures var frames := Frames(signals, total, started, final);
      Reached(frames) == if final == 0 || frames == [] then DeltaSum(frames) else final
  {
    hide Weight, Offset, RoundHalfEven;
    if signals == [] {
    } else {
      var init, e := signals[..|signals| - 1], signals[|signals| - 1];
      assert e in signals;
      ReachedUnclamped(init, total, started, final);
      LastFrame(signals, total, started, final);
      hide Frames;
      SumOfFrames(Frames(init, total, started, final), Frames(signals, total, started, final)[|init|]);
    }
  }

  lemma LastFrame(signals: seq<Event>, total: nat, started: int, final: int)
    requires total > 0 && signals != []
    ensures var (init, e) := (signals[..|signals| - 1], signals[|signals| - 1]);
      var (before, delta) := (Frames(init, total, started, final), Delta(Weight(e.kind), total, final));
      Frames(signals, total, started, final)
        == before + [Frame(Offset(e.ts, started), delta, Advance(Reached(before), delta, final))]
  {
    hide Weight, Offset, Delta, Advance, Reached;
  }

  lemma SumOfFrames(frames: seq<Frame>, f: Frame)
    ensures DeltaSum(frames + [f]) == DeltaSum(frames) + f.delta
  {
    assert (frames + [f])[..|frames|] == frames;
  }

  /** Before the pin, the bar for a final score of 0 is the plain sum, and a negative one is shown at once. */
  lemma RunningUnclamped(events: seq<Event>, final: int, k: nat)
    requires final <= 0 && k < |Unpinned(events, final)|
    ensures var frames := Unpinned(events, final);
      frames[k].running == if final == 0 then DeltaSum(frames[..k + 1]) else final
  {
    hide Frames, Weight;
    var signals := Signals(events);
    FramesPrefix(signals, Divisor(signals), events[0].ts, final, k + 1);
    ReachedUnclamped(signals[..k + 1], Divisor(signals), events[0].ts, final);
  }
}
