/** The open arena (api/routers/arena.py): one shared window, atomic steps. */
module Arena {
  import opened Bytes
  import opened Utf8
  import Duels

  type User = string
  type Time = int
  type Catalogue = map<string, seq<bytes>>

  const WAVE_POINTS := 10
  const MAX_WAVES := 60

  datatype Wave = Wave(
    id: string, scenario: string, expected: seq<bytes>, firedBy: User, firedAt: Time,
    resolved: bool, blockedBy: Option<User>, timedOut: bool)

  datatype State = State(open: bool, endsAt: Option<Time>, waves: seq<Wave>, scores: map<User, int>)

  datatype Reply = Ok | Wrong | Correct | AlreadyResolved | Fail(code: int)

  datatype Op =
    | OpenWindow(duration: int, now: Time)
    | CloseWindow(now: Time)
    | Fire(user: User, scenario: string, waveId: string, now: Time)
    | Label(user: User, waveId: string, technique: bytes, now: Time)
    | View(now: Time)

  const CLOSED := State(false, None, [], map[])

  // ---- specification -------------------------------------------------------

  function Points(scores: map<User, int>, u: User): int {
    if u in scores then scores[u] else 0
  }

  function Score(scores: map<User, int>, u: User): map<User, int> {
    scores[u := Points(scores, u) + WAVE_POINTS]
  }

  /** Each wave that is still unresolved times out and scores its firer. */
  function TimeOut(waves: seq<Wave>, scores: map<User, int>): (r: (seq<Wave>, map<User, int>))
    ensures |r.0| == |waves|
  {
    if waves == [] then ([], scores)
    else
      var ((ws, sc), w) := (TimeOut(waves[..|waves| - 1], scores), waves[|waves| - 1]);
      if w.resolved then (ws + [w], sc)
      else (ws + [w.(resolved := true, timedOut := true)], Score(sc, w.firedBy))
  }

  function Close(s: State): State {
    if !s.open then s
    else
      var (ws, sc) := TimeOut(s.waves, s.scores);
      s.(open := false, waves := ws, scores := sc)
  }

  predicate Over(s: State, now: Time) {
    s.endsAt.Some? && s.endsAt.value != 0 && now >= s.endsAt.value
  }

  /** `_is_open`, which closes an expired window. */
  function Expire(s: State, now: Time): State {
    if s.open && Over(s, now) then Close(s) else s
  }

  function FindWave(waves: seq<Wave>, id: string): (j: nat)
    ensures j <= |waves| && (j < |waves| ==> waves[j].id == id)
    ensures forall k :: 0 <= k < j ==> waves[k].id != id
  {
    if waves == [] || waves[0].id == id then 0 else 1 + FindWave(waves[1..], id)
  }

  function StepFire(cat: Catalogue, s: State, user: User, scenario: string, waveId: string, now: Time): (State, Reply) {
    var s := Expire(s, now);
    if !s.open then (s, Fail(409))
    else if scenario !in cat then (s, Fail(400))
    else if |s.waves| >= MAX_WAVES then (s, Fail(429))
    else
      var w := Wave(waveId, scenario, Duels.UpperAll(cat[scenario]), user, now, false, None, false);
      (s.(waves := s.waves + [w]), Ok)
  }

  function StepLabel(s: State, user: User, waveId: string, technique: bytes, now: Time): (State, Reply) {
    var s := Expire(s, now);
    if !s.open then (s, Fail(409))
    else
      var j := FindWave(s.waves, waveId);
      if j == |s.waves| then (s, Fail(404))
      else
        var w := s.waves[j];
        if w.resolved then (s, AlreadyResolved)
        else if user == w.firedBy then (s, Fail(403))
        else if Upper(Strip(technique)) !in w.expected then (s, Wrong)
        else
          (s.(waves := s.waves[j := w.(resolved := true, blockedBy := Some(user))], scores := Score(s.scores, user)), Correct)
  }

  function Step(cat: Catalogue, s: State, op: Op): (State, Reply) {
    match op
    case OpenWindow(duration, now) =>
      if !(60 <= duration <= 3600) then (s, Fail(422))
      else (Expire(State(true, Some(now + duration), [], map[]), now), Ok)
    case CloseWindow(now) => (Expire(Close(s), now), Ok)
    case Fire(user, scenario, waveId, now) => StepFire(cat, s, user, scenario, waveId, now)
    case Label(user, waveId, technique, now) => StepLabel(s, user, waveId, technique, now)
    case View(now) => (Expire(s, now), Ok)
  }

  function Run(cat: Catalogue, ops: seq<Op>): State {
    if ops == [] then CLOSED else Step(cat, Run(cat, ops[..|ops| - 1]), ops[|ops| - 1]).0
  }

  // ---- the handlers as written -------------------------------------------------

  class ArenaServer {
    const catalogue: Catalogue
    var open: bool
    var endsAt: Option<Time>
    var waves: seq<Wave>
    var scores: map<User, int>

    ghost function Current(): State
      reads this
    {
      State(open, endsAt, waves, scores)
    }

    constructor (catalogue: Catalogue)
      ensures this.catalogue == catalogue && Current() == Run(catalogue, [])
    {
      this.catalogue := catalogue;
      open, endsAt, waves, scores := false, None, [], map[];
    }

    method IsOpen(now: Time) returns (yes: bool)
      modifies this
      ensures Current() == Expire(old(Current()), now) && yes == open
    {
      if !open { return false; }
      if endsAt.Some? && endsAt.value != 0 && now >= endsAt.value {
        DoClose();
        return false;
      }
      return true;
    }

    method DoClose()
      modifies this
      ensures Current() == Close(old(Current())) && !open
    {
      if !open { return; }
      var k := 0;
      ghost var before, scores0 := waves, scores;
      while k < |waves|
        invariant 0 <= k <= |waves| == |before| && open && endsAt == old(endsAt)
        invariant forall i :: k <= i < |waves| ==> waves[i] == before[i]
        invariant (waves[..k], scores) == TimeOut(before[..k], scores0)
      {
        var w := waves[k];
        TimeOutStep(before, scores0, k);
        if !w.resolved {
          waves := waves[k := w.(resolved := true, timedOut := true)];
          scores := scores[w.firedBy := Points(scores, w.firedBy) + WAVE_POINTS];
        }
        assert waves[..k + 1] == waves[..k] + [waves[k]];
        k := k + 1;
      }
      assert waves[..k] == waves && before[..k] == before;
      open := false;
    }

    method OpenArena(duration: int, now: Time) returns (r: Reply)
      modifies this
      ensures (Current(), r) == Step(catalogue, old(Current()), OpenWindow(duration, now))
    {
      if !(60 <= duration <= 3600) { return Fail(422); }
      open, endsAt, waves, scores := true, Some(now + duration), [], map[];
      var _ := IsOpen(now);
      return Ok;
    }

    method CloseArena(now: Time) returns (r: Reply)
      modifies this
      ensures (Current(), r) == Step(catalogue, old(Current()), CloseWindow(now))
    {
      DoClose();
      var _ := IsOpen(now);
      return Ok;
    }

    /** `waveId` is the random id drawn for the wave; it need not be new. */
    method FireWave(user: User, scenario: string, waveId: string, now: Time) returns (r: Reply)
      modifies this
      ensures (Current(), r) == Step(catalogue, old(Current()), Fire(user, scenario, waveId, now))
    {
      hide Expire;
      var ok := IsOpen(now);
      if !ok { return Fail(409); }
      if scenario !in catalogue { return Fail(400); }
      if |waves| >= MAX_WAVES { return Fail(429); }
      var w := Wave(waveId, scenario, Duels.UpperAll(catalogue[scenario]), user, now, false, None, false);
      waves := waves + [w];
      return Ok;
    }

    method LabelWave(user: User, waveId: string, technique: bytes, now: Time) returns (r: Reply)
      modifies this
      ensures (Current(), r) == Step(catalogue, old(Current()), Label(user, waveId, technique, now))
    {
      hide Expire, Upper, Strip;
      var ok := IsOpen(now);
      if !ok { return Fail(409); }
      var guess := Upper(Strip(technique));
      var j := 0;
      while j < |waves| && waves[j].id != waveId
        invariant j <= |waves| && forall k :: 0 <= k < j ==> waves[k].id != waveId
      {
        j := j + 1;
      }
      if j == |waves| { return Fail(404); }
      var w := waves[j];
      if w.resolved { return AlreadyResolved; }
      if user == w.firedBy { return Fail(403); }
      if guess !in w.expected { return Wrong; }
      waves := waves[j := w.(resolved := true, blockedBy := Some(user))];
      scores := scores[user := Points(scores, user) + WAVE_POINTS];
      return Correct;
    }
  }

  lemma TimeOutStep(waves: seq<Wave>, scores: map<User, int>, k: nat)
    requires k < |waves|
    ensures var (ws, sc) := TimeOut(waves[..k], scores);
      TimeOut(waves[..k + 1], scores) ==
        if waves[k].resolved then (ws + [waves[k]], sc)
        else (ws + [waves[k].(resolved := true, timedOut := true)], Score(sc, waves[k].firedBy))
  {
    assert waves[..k + 1][..k] == waves[..k];
  }

  // ---- the ledger ------------------------------------------------------------------

  /** The one user whom a resolved wave scores: who blocked it, or who fired it if it timed out. */
  function Credit(w: Wave): User {
    if w.blockedBy.Some? then w.blockedBy.value else w.firedBy
  }

  function Credits(waves: seq<Wave>, u: User): nat {
    if waves == [] then 0
    else
      var w := waves[|waves| - 1];
      Credits(waves[..|waves| - 1], u) + if w.resolved && Credit(w) == u then 1 else 0
  }

  function ResolvedCount(waves: seq<Wave>): nat {
    if waves == [] then 0
    else ResolvedCount(waves[..|waves| - 1]) + if waves[|waves| - 1].resolved then 1 else 0
  }

  /** The sum of the scoreboard. */
  ghost function Total(scores: map<User, int>): int
    decreases |scores|
  {
    if scores == map[] then 0
    else
      var u :| u in scores;
      scores[u] + Total(scores - {u})
  }

  /** A resolved wave was blocked or timed out, not both, and nobody blocks their own wave. */
  predicate GoodWave(w: Wave) {
    && (w.resolved <==> w.blockedBy.Some? || w.timedOut)
    && (w.blockedBy.Some? ==> !w.timedOut && w.blockedBy.value != w.firedBy)
  }

  ghost predicate Inv(s: State) {
    && |s.waves| <= MAX_WAVES
    && (forall w :: w in s.waves ==> GoodWave(w))
    && (!s.open ==> forall w :: w in s.waves ==> w.resolved)
    && (forall u :: Points(s.scores, u) == WAVE_POINTS * Credits(s.waves, u))
    && Total(s.scores) == WAVE_POINTS * ResolvedCount(s.waves)
  }

  lemma {:induction false} TotalWithout(scores: map<User, int>, u: User)
    requires u in scores
    ensures Total(scores) == scores[u] + Total(scores - {u})
    decreases |scores|
  {
    var v :| v in scores && Total(scores) == scores[v] + Total(scores - {v});
    if v != u {
      TotalWithout(scores - {v}, u);
      TotalWithout(scores - {u}, v);
      assert scores - {v} - {u} == scores - {u} - {v};
    }
  }

  lemma TotalScore(scores: map<User, int>, u: User)
    ensures Total(Score(scores, u)) == Total(scores) + WAVE_POINTS
  {
    var after := Score(scores, u);
    TotalWithout(after, u);
    assert after - {u} == scores - {u};
    if u in scores {
      TotalWithout(scores, u);
    } else {
      assert scores - {u} == scores;
    }
  }

  lemma {:induction false} ResolveOne(waves: seq<Wave>, j: nat, w: Wave, u: User)
    requires j < |waves| && !waves[j].resolved && w.resolved
    ensures Credits(waves[j := w], u) == Credits(waves, u) + if Credit(w) == u then 1 else 0
    ensures ResolvedCount(waves[j := w]) == ResolvedCount(waves) + 1
  {
    var init := waves[..|waves| - 1];
    if j == |waves| - 1 {
      assert waves[j := w][..|waves| - 1] == init;
    } else {
      assert waves[j := w][..|waves| - 1] == init[j := w];
      ResolveOne(init, j, w, u);
    }
  }

  lemma AddOne(waves: seq<Wave>, w: Wave, u: User)
    ensures Credits(waves + [w], u) == Credits(waves, u) + if w.resolved && Credit(w) == u then 1 else 0
    ensures ResolvedCount(waves + [w]) == ResolvedCount(waves) + if w.resolved then 1 else 0
  {
    assert (waves + [w])[..|waves|] == waves;
  }

  /** What timing out does to the books: every open wave becomes a credit of its firer. */
  lemma {:induction false} TimeOutBooks(waves: seq<Wave>, scores: map<User, int>, u: User)
    requires forall w :: w in waves ==> GoodWave(w)
    ensures var (ws, sc) := TimeOut(waves, scores);
      && (forall w :: w in ws ==> GoodWave(w) && w.resolved)
      && Points(sc, u) - WAVE_POINTS * Credits(ws, u) == Points(scores, u) - WAVE_POINTS * Credits(waves, u)
      && Total(sc) - WAVE_POINTS * ResolvedCount(ws) == Total(scores) - WAVE_POINTS * ResolvedCount(waves)
  {
    hide Total;
    if waves == [] {
    } else {
      var init, w := waves[..|waves| - 1], waves[|waves| - 1];
      assert w in waves;
      TimeOutBooks(init, scores, u);
      var (ws, sc) := TimeOut(init, scores);
      AddOne(ws, w, u);
      AddOne(ws, w.(resolved := true, timedOut := true), u);
      TotalScore(sc, w.firedBy);
    }
  }

  lemma CloseInv(s: State)
    requires Inv(s)
    ensures Inv(Close(s))
  {
    if s.open {
      hide Total, TimeOut, GoodWave, Credits, ResolvedCount;
      var s' := Close(s);
      forall u ensures Points(s'.scores, u) == WAVE_POINTS * Credits(s'.waves, u) {
        TimeOutBooks(s.waves, s.scores, u);
      }
      TimeOutBooks(s.waves, s.scores, "");
    }
  }

  lemma ExpireInv(s: State, now: Time)
    requires Inv(s)
    ensures Inv(Expire(s, now))
  {
    hide Inv, Close;
    if s.open && Over(s, now) {
      CloseInv(s);
    }
  }

  lemma FireInv(cat: Catalogue, s: State, user: User, scenario: string, waveId: string, now: Time)
    requires Inv(s)
    ensures Inv(StepFire(cat, s, user, scenario, waveId, now).0)
  {
    hide Expire, Credits, ResolvedCount, Total, Duels.UpperAll;
    ExpireInv(s, now);
    var s1, s2 := Expire(s, now), StepFire(cat, s, user, scenario, waveId, now).0;
    if s2 != s1 {
      var w := s2.waves[|s1.waves|];
      forall u ensures Points(s2.scores, u) == WAVE_POINTS * Credits(s2.waves, u) {
        AddOne(s1.waves, w, u);
      }
      AddOne(s1.waves, w, user);
    }
  }

  lemma LabelInv(s: State, user: User, waveId: string, technique: bytes, now: Time)
    requires Inv(s)
    ensures Inv(StepLabel(s, user, waveId, technique, now).0)
  {
    hide Expire, Credits, ResolvedCount, Total, Upper, Strip, FindWave;
    ExpireInv(s, now);
    var s1, s2 := Expire(s, now), StepLabel(s, user, waveId, technique, now).0;
    var j := FindWave(s1.waves, waveId);
    if s2 != s1 {
      var w := s2.waves[j];
      assert s1.waves[j] in s1.waves;
      forall u ensures Points(s2.scores, u) == WAVE_POINTS * Credits(s2.waves, u) {
        ResolveOne(s1.waves, j, w, u);
      }
      ResolveOne(s1.waves, j, w, user);
      TotalScore(s1.scores, user);
    }
  }

  /** However firing, labelling, expiry and closing interleave: points match credits. */
  lemma {:induction false} RunInv(cat: Catalogue, ops: seq<Op>)
    ensures Inv(Run(cat, ops))
  {
    if ops == [] {
    } else {
      hide Inv, Expire, Close, StepFire, StepLabel;
      RunInv(cat, ops[..|ops| - 1]);
      var s := Run(cat, ops[..|ops| - 1]);
      match ops[|ops| - 1] {
        case OpenWindow(duration, now) =>
          EmptyInv(now + duration);
          ExpireInv(State(true, Some(now + duration), [], map[]), now);
        case CloseWindow(now) =>
          CloseInv(s);
          ExpireInv(Close(s), now);
        case Fire(user, scenario, waveId, now) => FireInv(cat, s, user, scenario, waveId, now);
        case Label(user, waveId, technique, now) => LabelInv(s, user, waveId, technique, now);
        case View(now) => ExpireInv(s, now);
      }
    }
  }

  lemma EmptyInv(endsAt: Time)
    ensures Inv(State(true, Some(endsAt), [], map[]))
  {
  }

  lemma {:induction false} AllResolved(waves: seq<Wave>)
    requires forall w :: w in waves ==> w.resolved
    ensures ResolvedCount(waves) == |waves|
  {
    if waves == [] {
    } else {
      assert waves[|waves| - 1] in waves;
      AllResolved(waves[..|waves| - 1]);
    }
  }

  /** A closed window has settled every wave, so the scoreboard adds up to all of them. */
  lemma ClosedTotals(cat: Catalogue, ops: seq<Op>)
    requires !Run(cat, ops).open
    ensures Total(Run(cat, ops).scores) == 10 * |Run(cat, ops).waves|
  {
    hide Run, Total;
    RunInv(cat, ops);
    AllResolved(Run(cat, ops).waves);
  }

  function BlockedBy(waves: seq<Wave>, u: User): nat {
    if waves == [] then 0
    else
      BlockedBy(waves[..|waves| - 1], u) + if waves[|waves| - 1].blockedBy == Some(u) then 1 else 0
  }

  function TimedOutFrom(waves: seq<Wave>, u: User): nat {
    if waves == [] then 0
    else
      var w := waves[|waves| - 1];
      TimedOutFrom(waves[..|waves| - 1], u) + if w.timedOut && w.firedBy == u then 1 else 0
  }

  lemma {:induction false} CreditsSplit(waves: seq<Wave>, u: User)
    requires forall w :: w in waves ==> GoodWave(w)
    ensures Credits(waves, u) == BlockedBy(waves, u) + TimedOutFrom(waves, u)
  {
    if waves == [] {
    } else {
      assert waves[|waves| - 1] in waves;
      CreditsSplit(waves[..|waves| - 1], u);
    }
  }

  /** In every reachable state a user's points are ten for each wave they blocked and for each of
      their own waves that nobody blocked in time. */
  lemma PointsSplit(cat: Catalogue, ops: seq<Op>, u: User)
    ensures var s := Run(cat, ops);
      Points(s.scores, u) == 10 * (BlockedBy(s.waves, u) + TimedOutFrom(s.waves, u))
  {
    hide Run, Total, Credits, BlockedBy, TimedOutFrom, GoodWave;
    RunInv(cat, ops);
    CreditsSplit(Run(cat, ops).waves, u);
  }

  // ---- what one step may do to a wave ------------------------------------------------

  /** Only the outcome of a wave changes, and only once. */
  predicate Evolves(w: Wave, w': Wave) {
    && w' == w.(resolved := w'.resolved, blockedBy := w'.blockedBy, timedOut := w'.timedOut)
    && (w.resolved ==> w' == w)
  }

  /** `op` is a correct label of `w` by someone else, in time. */
  predicate Catches(op: Op, s: State, w: Wave) {
    && op.Label? && op.waveId == w.id && op.user != w.firedBy
    && Upper(Strip(op.technique)) in w.expected
    && s.open && !Over(s, op.now)
  }

  predicate WaveStep(op: Op, s: State, w: Wave, w': Wave) {
    && Evolves(w, w')
    && (w'.blockedBy != w.blockedBy ==> Catches(op, s, w) && w'.blockedBy == Some(op.user))
  }

  predicate WavesStep(op: Op, s: State, ws: seq<Wave>) {
    |s.waves| <= |ws| && forall i :: 0 <= i < |s.waves| ==> WaveStep(op, s, s.waves[i], ws[i])
  }

  lemma {:induction false} TimeOutAt(waves: seq<Wave>, scores: map<User, int>, i: nat)
    requires i < |waves|
    ensures var (w, w') := (waves[i], TimeOut(waves, scores).0[i]);
      w' == if w.resolved then w else w.(resolved := true, timedOut := true)
  {
    if i < |waves| - 1 {
      TimeOutAt(waves[..|waves| - 1], scores, i);
    }
  }

  lemma CloseSteps(op: Op, s: State)
    ensures WavesStep(op, s, Close(s).waves)
  {
    hide TimeOut, Catches;
    if s.open {
      forall i | 0 <= i < |s.waves| ensures WaveStep(op, s, s.waves[i], Close(s).waves[i]) {
        TimeOutAt(s.waves, s.scores, i);
      }
    }
  }

  lemma ExpireSteps(op: Op, s: State, now: Time)
    ensures WavesStep(op, s, Expire(s, now).waves)
    ensures !s.open || !Over(s, now) ==> Expire(s, now) == s
    ensures s.open && Over(s, now) ==> !Expire(s, now).open
  {
    CloseSteps(op, s);
    hide Close, WaveStep;
    SameWaves(op, s);
    hide WavesStep;
    ClosedIsClosed(s);
  }

  lemma SameWaves(op: Op, s: State)
    ensures WavesStep(op, s, s.waves)
  {
  }

  lemma ClosedIsClosed(s: State)
    ensures !Close(s).open
  {
  }

  /** Until the next window opens, waves are only added; a wave keeps its identity, is resolved at
      most once, and is blocked only by another user's correct label while the window runs. */
  lemma StepEvolves(cat: Catalogue, s: State, op: Op)
    requires !op.OpenWindow?
    ensures WavesStep(op, s, Step(cat, s, op).0.waves)
  {
    hide Close, Expire, TimeOut, Over, FindWave, Upper, Strip;
    match op {
      case CloseWindow(now) =>
        CloseSteps(op, s);
        ClosedIsClosed(s);
        StayClosed(Close(s), now);
      case Fire(_, _, _, now) => ExpireSteps(op, s, now);
      case Label(_, _, _, now) => ExpireSteps(op, s, now);
      case View(now) => ExpireSteps(op, s, now);
    }
  }

  lemma StayClosed(s: State, now: Time)
    requires !s.open
    ensures Expire(s, now) == s
  {
  }
}
