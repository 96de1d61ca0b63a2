/** What holds over every run of the session aggregator. */
module AggregatorRuns {
  import opened Aggregator

  /** The events of one session, buffer after buffer. */
  function EventsOf(bs: seq<SessionBuffer>, sid: Sid): seq<Envelope> {
    if bs == [] then []
    else
      var last := bs[|bs| - 1];
      EventsOf(bs[..|bs| - 1], sid) + if last.sid == sid then last.events else []
  }

  /** The events of one session that were given to `ingest`, in order. */
  function Ingested(ops: seq<Op>, sid: Sid): seq<Envelope> {
    if ops == [] then []
    else
      var op := ops[|ops| - 1];
      Ingested(ops[..|ops| - 1], sid) + if op.Ingest? && op.env.sid == sid then [op.env] else []
  }

  /** The session's events that have left, followed by those still buffered. */
  function Accounted(s: State, sid: Sid): seq<Envelope> {
    EventsOf(s.out, sid) + EventsOf(s.buffers, sid)
  }

  lemma {:induction false} EventsOfConcat(a: seq<SessionBuffer>, b: seq<SessionBuffer>, sid: Sid)
    ensures EventsOf(a + b, sid) == EventsOf(a, sid) + EventsOf(b, sid)
    decreases |b|
  {
    if b == [] {
      assert a + b == a;
    } else {
      assert (a + b)[..|a + b| - 1] == a + b[..|b| - 1];
      EventsOfConcat(a, b[..|b| - 1], sid);
    }
  }

  lemma EventsOfOne(b: SessionBuffer, sid: Sid)
    ensures EventsOf([b], sid) == if b.sid == sid then b.events else []
  {
    assert EventsOf([b][..0], sid) == [];
  }

  lemma {:induction false} EventsOfAbsent(bs: seq<SessionBuffer>, sid: Sid)
    requires forall b :: b in bs ==> b.sid != sid
    ensures EventsOf(bs, sid) == []
  {
    if bs == [] {
    } else {
      assert bs[|bs| - 1] in bs;
      EventsOfAbsent(bs[..|bs| - 1], sid);
    }
  }

  lemma WithoutKeepsEvents(bs: Buffers, i: nat, sid: Sid)
    requires i < |bs|
    ensures bs[i].sid != sid ==> EventsOf(Without(bs, i), sid) == EventsOf(bs, sid)
    ensures bs[i].sid == sid && Distinct(bs) ==> EventsOf(Without(bs, i), sid) == [] && EventsOf(bs, sid) == bs[i].events
  {
    hide EventsOf;
    assert bs == bs[..i] + [bs[i]] + bs[i + 1..];
    EventsOfConcat(bs[..i] + [bs[i]], bs[i + 1..], sid);
    EventsOfConcat(bs[..i], [bs[i]], sid);
    EventsOfConcat(bs[..i], bs[i + 1..], sid);
    EventsOfOne(bs[i], sid);
    if bs[i].sid == sid && Distinct(bs) {
      EventsOfAbsent(bs[..i], sid);
      EventsOfAbsent(bs[i + 1..], sid);
    }
  }

  /** Taking a session's buffer out, or opening a new one, leaves every session's events alone. */
  lemma TouchKeepsEvents(bs: Buffers, env: Envelope, now: real, sid: Sid)
    requires Distinct(bs)
    ensures var (others, buf) := Touched(bs, env, now);
      && buf.sid == env.sid
      && EventsOf(bs, sid) == EventsOf(others, sid) + (if sid == env.sid then buf.events else [])
      && (sid == env.sid ==> EventsOf(others, sid) == [])
  {
    hide EventsOf, Without, Distinct;
    var i := IndexOf(bs, env.sid);
    if i >= 0 {
      WithoutKeepsEvents(bs, i, sid);
    } else if sid == env.sid {
      EventsOfAbsent(bs, sid);
    }
  }

  lemma IngestConserves(cfg: Config, s: State, env: Envelope, now: real, sid: Sid)
    requires cfg.maxSessions >= 1 && Distinct(s.buffers)
    ensures Accounted(IngestStep(cfg, s, env, now), sid)
         == Accounted(s, sid) + if env.sid == sid then [env] else []
  {
    hide Touched, IndexOf, EventsOf, Ready, Overflow, Distinct;
    TouchKeepsEvents(s.buffers, env, now, sid);
    OverflowLeavesRoom(cfg, s.buffers, env, now);
    var (others, buf) := Touched(s.buffers, env, now);
    var n := Overflow(cfg, s.buffers, env.sid);
    var full := buf.(events := buf.events + [env]);
    var gone, kept, added := others[..n], others[n..], if sid == env.sid then full.events else [];
    EventsOfOne(full, sid);
    assert EventsOf([full], sid) == added;
    assert EventsOf(others, sid) == EventsOf(gone, sid) + EventsOf(kept, sid) by {
      assert others == gone + kept;
      EventsOfConcat(gone, kept, sid);
    }
    assert EventsOf(s.out + gone, sid) == EventsOf(s.out, sid) + EventsOf(gone, sid) by {
      EventsOfConcat(s.out, gone, sid);
    }
    if sid == env.sid {
      assert EventsOf(gone, sid) == [] && EventsOf(kept, sid) == [];
    }
    if Ready(cfg, full) {
      EventsOfConcat(s.out + gone, [full], sid);
    } else {
      EventsOfConcat(kept, [full], sid);
    }
  }

  lemma OverflowLeavesRoom(cfg: Config, bs: Buffers, env: Envelope, now: real)
    requires cfg.maxSessions >= 1
    ensures Overflow(cfg, bs, env.sid) <= |Touched(bs, env, now).0|
  {
  }

  lemma StepDistinct(cfg: Config, s: State, op: Op)
    requires Distinct(s.buffers)
    ensures Distinct(Step(cfg, s, op).buffers)
  {
    hide Touched, IndexOf, Ready, Distinct;
    match op {
      case Ingest(env, now) =>
        DistinctAfterTouch(s.buffers, env, now);
        var (others, buf) := Touched(s.buffers, env, now);
        var n := Overflow(cfg, s.buffers, env.sid);
        if n <= |others| {
          DistinctTail(others, buf, buf.(events := buf.events + [env]), n);
        } else {
          DistinctSlice(s.buffers, 0, 0);
        }
      case DrainIdle(now) =>
        var n := StaleCount(cfg, s.buffers, now);
        DistinctSlice(s.buffers, n, |s.buffers|);
        assert s.buffers[n..|s.buffers|] == s.buffers[n..];
      case DrainAll =>
        DistinctSlice(s.buffers, 0, 0);
    }
  }

  lemma {:induction false} RunDistinct(cfg: Config, ops: seq<Op>)
    ensures Distinct(Run(cfg, ops).buffers)
  {
    if ops == [] {
    } else {
      RunDistinct(cfg, ops[..|ops| - 1]);
      StepDistinct(cfg, Run(cfg, ops[..|ops| - 1]), ops[|ops| - 1]);
    }
  }

  lemma StepConserves(cfg: Config, s: State, op: Op, sid: Sid)
    requires cfg.maxSessions >= 1 && Distinct(s.buffers)
    ensures Accounted(Step(cfg, s, op), sid)
         == Accounted(s, sid) + if op.Ingest? && op.env.sid == sid then [op.env] else []
  {
    hide IngestStep, EventsOf, Distinct;
    match op {
      case Ingest(env, now) => IngestConserves(cfg, s, env, now, sid);
      case DrainIdle(now) =>
        var n := StaleCount(cfg, s.buffers, now);
        assert s.buffers == s.buffers[..n] + s.buffers[n..];
        EventsOfConcat(s.buffers[..n], s.buffers[n..], sid);
        EventsOfConcat(s.out, s.buffers[..n], sid);
      case DrainAll =>
        EventsOfConcat(s.out, s.buffers, sid);
        EventsOfAbsent([], sid);
    }
  }

  /** Nothing is lost, duplicated, reordered or mixed between sessions. */
  lemma {:induction false} Conservation(cfg: Config, ops: seq<Op>, sid: Sid)
    requires cfg.maxSessions >= 1
    ensures Accounted(Run(cfg, ops), sid) == Ingested(ops, sid)
  {
    hide Step, EventsOf;
    if ops == [] {
      EventsOfAbsent([], sid);
    } else {
      hide Accounted, Distinct;
      var init := ops[..|ops| - 1];
      Conservation(cfg, init, sid);
      RunDistinct(cfg, init);
      StepConserves(cfg, Run(cfg, init), ops[|ops| - 1], sid);
    }
  }

  /** The session cap must be positive, and that is all it takes: with a cap of 0 a new session's
      buffer is evicted before its event is stored in it. */
  lemma ConservationIff(cfg: Config)
    ensures (forall ops, sid :: Accounted(Run(cfg, ops), sid) == Ingested(ops, sid)) <==> cfg.maxSessions >= 1
  {
    if cfg.maxSessions >= 1 {
      forall ops, sid ensures Accounted(Run(cfg, ops), sid) == Ingested(ops, sid) {
        Conservation(cfg, ops, sid);
      }
    } else {
      FirstEventLost(cfg);
    }
  }

  lemma FirstEventLost(cfg: Config)
    requires cfg.maxSessions == 0
    ensures exists ops, sid :: Accounted(Run(cfg, ops), sid) != Ingested(ops, sid)
  {
    var env := Envelope(SessionClose, "s", "ssh", "192.0.2.1", 22, "e");
    var ops: seq<Op> := [Ingest(env, 0.0)];
    assert ops[..0] == [];
    assert Run(cfg, ops) == IngestStep(cfg, State([], []), env, 0.0);
    var buf := SessionBuffer("s", "ssh", "192.0.2.1", 22, 0.0, 0.0, []);
    assert Run(cfg, ops) == State([], [buf]);
    EventsOfOne(buf, "s");
    assert Ingested(ops, "s") == [env];
  }

  // ---- the live buffers ------------------------------------------------------------

  predicate Unmixed(b: SessionBuffer) {
    b.events != [] && forall e :: e in b.events ==> e.sid == b.sid
  }

  predicate LiveBuffer(cfg: Config, b: SessionBuffer) {
    Unmixed(b) && |b.events| < cfg.maxEvents && forall e :: e in b.events ==> e.eventType != SessionClose
  }

  predicate Healthy(cfg: Config, s: State) {
    && |s.buffers| <= cfg.maxSessions
    && (forall b :: b in s.buffers ==> LiveBuffer(cfg, b))
    && (forall b :: b in s.out ==> Unmixed(b))
  }

  lemma TouchedIsLive(cfg: Config, bs: Buffers, env: Envelope, now: real)
    requires forall b :: b in bs ==> LiveBuffer(cfg, b)
    ensures var (others, buf) := Touched(bs, env, now);
      var full := buf.(events := buf.events + [env]);
      && (forall b :: b in others ==> b in bs)
      && Unmixed(full) && (!Ready(cfg, full) ==> LiveBuffer(cfg, full))
  {
    hide LiveBuffer;
    var (others, buf) := Touched(bs, env, now);
    var i := IndexOf(bs, env.sid);
    if i >= 0 {
      assert LiveBuffer(cfg, bs[i]);
      AddedIsLive(cfg, bs[i], buf, env);
    } else {
      var full := buf.(events := [] + [env]);
      assert Unmixed(full);
      FirstIsLive(cfg, full, env);
    }
  }

  lemma FirstIsLive(cfg: Config, full: SessionBuffer, env: Envelope)
    requires full.events == [env] && full.sid == env.sid
    ensures !Ready(cfg, full) ==> LiveBuffer(cfg, full)
  {
    assert full.events[0] == env;
  }

  lemma AddedIsLive(cfg: Config, b: SessionBuffer, buf: SessionBuffer, env: Envelope)
    requires LiveBuffer(cfg, b) && b.sid == env.sid == buf.sid && buf.events == b.events
    ensures var full := buf.(events := buf.events + [env]);
      Unmixed(full) && (!Ready(cfg, full) ==> LiveBuffer(cfg, full))
  {
    var full := buf.(events := buf.events + [env]);
    assert full.events[|full.events| - 1] == env;
    assert forall e :: e in full.events ==> e == env || e in b.events;
  }

  lemma IngestHealthy(cfg: Config, s: State, env: Envelope, now: real)
    requires cfg.maxSessions >= 1 && Healthy(cfg, s)
    ensures Healthy(cfg, IngestStep(cfg, s, env, now))
  {
    hide Unmixed, LiveBuffer, Touched, Ready, IndexOf, Overflow;
    OverflowLeavesRoom(cfg, s.buffers, env, now);
    TouchedIsLive(cfg, s.buffers, env, now);
    TouchedFits(cfg, s.buffers, env, now);
    var (others, buf) := Touched(s.buffers, env, now);
    var n := Overflow(cfg, s.buffers, env.sid);
    forall b | b in others[..n] ensures Unmixed(b) {
      LiveIsUnmixed(cfg, b);
    }
  }

  lemma TouchedFits(cfg: Config, bs: Buffers, env: Envelope, now: real)
    requires |bs| <= cfg.maxSessions
    ensures |Touched(bs, env, now).0| - Overflow(cfg, bs, env.sid) + 1 <= cfg.maxSessions
  {
    TouchedSize(bs, env, now);
    hide Touched, IndexOf;
    IndexIsNeeded(bs, env.sid);
  }

  lemma IndexIsNeeded(bs: Buffers, sid: Sid)
    ensures IndexOf(bs, sid) != -1 ==> |bs| >= 1
  {
  }

  lemma TouchedSize(bs: Buffers, env: Envelope, now: real)
    ensures |Touched(bs, env, now).0| == if IndexOf(bs, env.sid) == -1 then |bs| else |bs| - 1
  {
  }

  lemma LiveIsUnmixed(cfg: Config, b: SessionBuffer)
    requires LiveBuffer(cfg, b)
    ensures Unmixed(b)
  {
  }

  /** Between events no buffer is empty, mixed, closed or at its cap, and there are at most
      `maxSessions` of them; no empty or mixed buffer ever leaves. */
  lemma {:induction false} RunHealthy(cfg: Config, ops: seq<Op>)
    requires cfg.maxSessions >= 1
    ensures Healthy(cfg, Run(cfg, ops)) && Distinct(Run(cfg, ops).buffers)
  {
    RunDistinct(cfg, ops);
    hide IngestStep, LiveBuffer, Unmixed, Distinct;
    if ops == [] {
    } else {
      RunHealthy(cfg, ops[..|ops| - 1]);
      var s, op := Run(cfg, ops[..|ops| - 1]), ops[|ops| - 1];
      if op.Ingest? {
        IngestHealthy(cfg, s, op.env, op.now);
      } else {
        forall b | b in s.buffers ensures Unmixed(b) {
          LiveIsUnmixed(cfg, b);
        }
      }
    }
  }

  // ---- the idle drain ----------------------------------------------------------------

  /** The clock never runs backwards, and has not passed `t`. */
  predicate OrderedUpTo(ops: seq<Op>, t: real) {
    ops == [] ||
    match ops[|ops| - 1]
    case Ingest(_, now) => now <= t && OrderedUpTo(ops[..|ops| - 1], now)
    case DrainIdle(now) => now <= t && OrderedUpTo(ops[..|ops| - 1], now)
    case DrainAll => OrderedUpTo(ops[..|ops| - 1], t)
  }

  predicate ByRecency(bs: Buffers, t: real) {
    && (forall i, j :: 0 <= i < j < |bs| ==> bs[i].lastEvent <= bs[j].lastEvent)
    && (forall i :: 0 <= i < |bs| ==> bs[i].lastEvent <= t)
  }

  lemma RecencyWithout(bs: Buffers, i: nat, t: real)
    requires i < |bs| && ByRecency(bs, t)
    ensures ByRecency(Without(bs, i), t)
  {
    var rest := Without(bs, i);
    forall j, k | 0 <= j < k < |rest| ensures rest[j].lastEvent <= rest[k].lastEvent {
      assert rest[j] == bs[if j < i then j else j + 1] && rest[k] == bs[if k < i then k else k + 1];
    }
  }

  lemma RecencyFrom(bs: Buffers, n: nat, t: real)
    requires n <= |bs| && ByRecency(bs, t)
    ensures ByRecency(bs[n..], t)
  {
  }

  lemma RecencyAppend(bs: Buffers, b: SessionBuffer, t: real, now: real)
    requires ByRecency(bs, t) && t <= now == b.lastEvent
    ensures ByRecency(bs, now) && ByRecency(bs + [b], now)
  {
  }

  lemma TouchedRecency(bs: Buffers, env: Envelope, t: real, now: real)
    requires ByRecency(bs, t) && t <= now
    ensures var (others, buf) := Touched(bs, env, now); ByRecency(others, t) && buf.lastEvent == now
  {
    hide ByRecency, Without;
    if IndexOf(bs, env.sid) >= 0 {
      RecencyWithout(bs, IndexOf(bs, env.sid), t);
    }
  }

  lemma IngestKeepsRecency(cfg: Config, s: State, env: Envelope, now: real, t: real)
    requires ByRecency(s.buffers, t) && t <= now
    ensures ByRecency(IngestStep(cfg, s, env, now).buffers, now)
  {
    hide Ready, ByRecency, Touched, Overflow;
    TouchedRecency(s.buffers, env, t, now);
    NoneByRecency(now);
    var (others, buf) := Touched(s.buffers, env, now);
    var n := Overflow(cfg, s.buffers, env.sid);
    if n <= |others| {
      RecencyFrom(others, n, t);
      RecencyAppend(others[n..], buf.(events := buf.events + [env]), t, now);
    }
  }

  lemma NoneByRecency(now: real)
    ensures ByRecency([], now)
  {
  }

  lemma {:induction false} RunByRecency(cfg: Config, ops: seq<Op>, t: real)
    requires OrderedUpTo(ops, t)
    ensures ByRecency(Run(cfg, ops).buffers, t)
  {
    hide IngestStep;
    if ops == [] {
    } else {
      var s, op := Run(cfg, ops[..|ops| - 1]), ops[|ops| - 1];
      match op {
        case Ingest(env, now) =>
          RunByRecency(cfg, ops[..|ops| - 1], now);
          IngestKeepsRecency(cfg, s, env, now, now);
        case DrainIdle(now) => RunByRecency(cfg, ops[..|ops| - 1], now);
        case DrainAll =>
      }
    }
  }

  /** The buffers that a scan of the whole dictionary finds stale, or finds fresh. */
  function Scan(cfg: Config, bs: Buffers, now: real, stale: bool): Buffers {
    if bs == [] then []
    else (if Stale(cfg, bs[0], now) == stale then [bs[0]] else []) + Scan(cfg, bs[1..], now, stale)
  }

  lemma {:induction false} ScanUniform(cfg: Config, bs: Buffers, now: real, stale: bool)
    requires forall i :: 0 <= i < |bs| ==> Stale(cfg, bs[i], now) == stale
    ensures Scan(cfg, bs, now, stale) == bs && Scan(cfg, bs, now, !stale) == []
  {
    hide Stale;
    if bs == [] {
    } else {
      ScanUniform(cfg, bs[1..], now, stale);
    }
  }

  lemma {:induction false} ScanConcat(cfg: Config, a: Buffers, b: Buffers, now: real, stale: bool)
    ensures Scan(cfg, a + b, now, stale) == Scan(cfg, a, now, stale) + Scan(cfg, b, now, stale)
  {
    hide Stale;
    if a == [] {
      assert a + b == b;
    } else {
      assert (a + b)[1..] == a[1..] + b;
      ScanConcat(cfg, a[1..], b, now, stale);
    }
  }

  /** Behind a fresh buffer all are fresh. */
  lemma FreshBehind(cfg: Config, bs: Buffers, n: nat, now: real)
    requires n <= |bs| && ByRecency(bs, now) && (n < |bs| ==> !Stale(cfg, bs[n], now))
    ensures forall i :: 0 <= i < |bs[n..]| ==> !Stale(cfg, bs[n..][i], now)
  {
    forall i | 0 <= i < |bs[n..]| ensures !Stale(cfg, bs[n..][i], now) {
      assert bs[n].lastEvent <= bs[n + i].lastEvent;
    }
  }

  /** Stopping at the first fresh buffer drains exactly what a full scan would, in every run. */
  lemma EarlyBreakIsFullScan(cfg: Config, ops: seq<Op>, now: real)
    requires OrderedUpTo(ops, now)
    ensures var bs := Run(cfg, ops).buffers;
      var n := StaleCount(cfg, bs, now);
      && bs[..n] == Scan(cfg, bs, now, true)
      && bs[n..] == Scan(cfg, bs, now, false)
  {
    hide Run, StaleCount, Stale, ByRecency, Scan;
    RunByRecency(cfg, ops, now);
    var bs := Run(cfg, ops).buffers;
    var n := StaleCount(cfg, bs, now);
    FreshBehind(cfg, bs, n, now);
    assert bs == bs[..n] + bs[n..];
    ScanConcat(cfg, bs[..n], bs[n..], now, true);
    ScanConcat(cfg, bs[..n], bs[n..], now, false);
    ScanUniform(cfg, bs[..n], now, true);
    ScanUniform(cfg, bs[n..], now, false);
  }
}
