/** What every duel operation brings about, in terms of the operations themselves. */
module DuelEffects {
  import opened Bytes
  import opened Utf8
  import opened Progression
  import opened Sets
  import opened Duels
  import opened DuelRuns
  import ProgressionHistory

  // ---- labelling ------------------------------------------------------------------

  /** A technique as it is typed, against the techniques of a wave: blanks around it and the case of
      both do not matter. */
  predicate Expects(w: Wave, technique: bytes) {
    exists e :: e in w.expected && Upper(e) == Upper(Strip(technique))
  }

  /** The waves that were blocked. */
  function BlockedWaves(waves: seq<Wave>): set<nat> {
    set k: nat | k < |waves| && waves[k].correct
  }

  lemma {:induction false} BlockedIsCount(waves: seq<Wave>)
    ensures Blocked(waves) == |BlockedWaves(waves)| && Through(waves) == |waves| - |BlockedWaves(waves)|
  {
    BlockedThrough(waves);
    if waves == [] {
    } else {
      var init, last := waves[..|waves| - 1], |waves| - 1;
      BlockedIsCount(init);
      OneMorePosition(BlockedWaves(init), BlockedWaves(waves), last);
    }
  }

  lemma MatchesIff(technique: bytes, w: Wave)
    ensures Upper(Strip(technique)) in UpperAll(w.expected) <==> Expects(w, technique)
  {
    hide Upper, Strip;
    var guess, all := Upper(Strip(technique)), UpperAll(w.expected);
    if guess in all {
      var k :| 0 <= k < |all| && all[k] == guess;
      assert w.expected[k] in w.expected;
    }
    if Expects(w, technique) {
      var e :| e in w.expected && Upper(e) == guess;
      var k :| 0 <= k < |w.expected| && w.expected[k] == e;
      assert all[k] == guess;
    }
  }

  /** The duel runs at `now`. */
  predicate Running(d: Duel, now: Time) {
    d.status == Active && (d.endsAt == None || now < d.endsAt.value)
  }

  /** `k` is the first wave with that id. */
  predicate IsFirst(waves: seq<Wave>, id: string, k: nat) {
    k < |waves| && waves[k].id == id && forall m :: 0 <= m < k ==> waves[m].id != id
  }

  /** Only row `i` of the duel table differs. */
  predicate OnlyRow(s: State, s': State, i: nat) {
    && s'.progress == s.progress && s'.awards == s.awards && |s'.duels| == |s.duels|
    && forall j :: 0 <= j < |s.duels| && j != i ==> s'.duels[j] == s.duels[j]
  }

  /** The defender's label decides: whatever was guessed before, a running duel's first wave of that id,
      if it is unresolved, is blocked exactly when the technique is expected. The scores are then ten
      points for each blocked wave to the defender and ten for each other wave to the attacker. */
  lemma LabelDecides(cat: Catalogue, s: State, user: User, i: nat, waveId: string, technique: bytes, now: Time, k: nat)
    requires i < |s.duels| && Running(s.duels[i], now) && s.duels[i].defender == user
    requires IsFirst(s.duels[i].waves, waveId, k) && !s.duels[i].waves[k].resolved && !s.duels[i].waves[k].correct
    ensures var (s', r) := Step(cat, s, Label(user, i, waveId, technique, now));
      && r == Ok && OnlyRow(s, s', i)
      && var (d, d') := (s.duels[i], s'.duels[i]);
      && var hit := Expects(d.waves[k], technique);
      && d' == d.(waves := d'.waves, attackerScore := d'.attackerScore, defenderScore := d'.defenderScore)
      && d'.waves == d.waves[k := d.waves[k].(labeled := Some(Upper(Strip(technique))), resolved := hit, correct := hit)]
      && |BlockedWaves(d'.waves)| == |BlockedWaves(d.waves)| + (if hit then 1 else 0)
      && d'.defenderScore == 10 * |BlockedWaves(d'.waves)|
      && d'.attackerScore == 10 * (|d.waves| - |BlockedWaves(d'.waves)|)
  {
    hide Upper, Strip, UpperAll, Expects, Finalize, Blocked, Through, BlockedWaves;
    var d := s.duels[i];
    var d' := Step(cat, s, Label(user, i, waveId, technique, now)).0.duels[i];
    assert FindWave(d.waves, waveId) == k;
    MatchesIff(technique, d.waves[k]);
    BlockedIsCount(d'.waves);
    OneMoreBlocked(d.waves, k, d'.waves[k]);
  }

  lemma OneMoreBlocked(waves: seq<Wave>, k: nat, w: Wave)
    requires k < |waves| && !waves[k].correct
    ensures |BlockedWaves(waves[k := w])| == |BlockedWaves(waves)| + if w.correct then 1 else 0
  {
    assert BlockedWaves(waves[k := w]) == BlockedWaves(waves) + if w.correct then {k} else {};
  }

  /** What a refused label leaves behind: nothing but the end of a duel that is due. */
  lemma LabelRefused(cat: Catalogue, s: State, user: User, i: nat, waveId: string, technique: bytes, now: Time)
    requires i < |s.duels|
    ensures var ((s', r), d) := (Step(cat, s, Label(user, i, waveId, technique, now)), s.duels[i]);
      && (r != Ok ==> s' == ExpireIfDue(s, i, now))
      && (!Running(d, now) ==> r == Fail(409))
      && (Running(d, now) && d.defender != user ==> r == Fail(403))
      && (Running(d, now) && d.defender == user && (forall w :: w in d.waves ==> w.id != waveId) ==> r == Fail(404))
      && (forall k: nat ::
            IsFirst(d.waves, waveId, k) && Running(d, now) && d.defender == user && d.waves[k].resolved ==> r == Fail(409))
  {
    hide Upper, Strip, UpperAll, Blocked, Through, Guessed, Finalize;
    var d, j := s.duels[i], FindWave(s.duels[i].waves, waveId);
    DueFinishes(s, i, now);
    if j < |d.waves| {
      assert d.waves[j] in d.waves;
    }
    forall k: nat | IsFirst(d.waves, waveId, k) ensures j == k {
    }
  }

  // ---- firing ----------------------------------------------------------------------

  /** The techniques of a scenario, in upper case. */
  predicate ExpectsScenario(w: Wave, techniques: seq<bytes>) {
    |w.expected| == |techniques| && forall e :: 0 <= e < |techniques| ==> w.expected[e] == Upper(techniques[e])
  }

  /** An accepted fire. */
  predicate Fires(cat: Catalogue, s: State, op: Op, i: nat) {
    && op.Fire? && op.id == i < |s.duels| && Running(s.duels[i], op.now) && s.duels[i].attacker == op.user
    && op.scenario in cat && |s.duels[i].waves| < 20
  }

  predicate IsWaveOf(cat: Catalogue, w: Wave, op: Op) {
    && op.Fire? && op.scenario in cat
    && w.id == op.waveId && w.scenario == op.scenario && w.firedAt == op.now && ExpectsScenario(w, cat[op.scenario])
  }

  /** An accepted fire adds one unresolved wave behind the others; any other adds none and says why. */
  lemma FireAdds(cat: Catalogue, s: State, user: User, i: nat, scenario: string, waveId: string, now: Time)
    requires i < |s.duels|
    ensures var (op, d) := (Fire(user, i, scenario, waveId, now), s.duels[i]);
      var (s', r) := Step(cat, s, op);
      if Fires(cat, s, op, i) then
        && r == Ok && OnlyRow(s, s', i) && |s'.duels[i].waves| == |d.waves| + 1
        && var w := s'.duels[i].waves[|d.waves|];
        && s'.duels[i] == d.(waves := d.waves + [w])
        && IsWaveOf(cat, w, op) && !w.resolved && !w.correct && w.labeled == None
      else
        && s' == ExpireIfDue(s, i, now)
        && r == Fail(if !Running(d, now) then 409 else if d.attacker != user then 403
                     else if scenario !in cat then 400 else 429)
  {
    hide Upper, Blocked, Through, Finalize;
    DueFinishes(s, i, now);
  }

  /** The accepted fires on duel `i`, in order. */
  function FiresOn(cat: Catalogue, p0: map<User, Progress>, ops: seq<Op>, i: nat): seq<Op> {
    if ops == [] then []
    else
      var init, op := ops[..|ops| - 1], ops[|ops| - 1];
      FiresOn(cat, p0, init, i) + if Fires(cat, Run(cat, p0, init), op, i) then [op] else []
  }

  lemma StepKeepsCount(cat: Catalogue, s: State, op: Op, i: nat)
    requires i < |s.duels| && !Fires(cat, s, op, i)
    ensures var s' := Step(cat, s, op).0; i < |s'.duels| && |s'.duels[i].waves| == |s.duels[i].waves|
  {
    hide StepLabel, ExpireMine, ExpireIfDue, Finalize, Fires;
    match op {
      case Label(user, j, waveId, technique, now) =>
        if j < |s.duels| { LabelKeepsCount(s, user, j, waveId, technique, now, i); }
      case Fire(user, j, scenario, waveId, now) =>
        if j < |s.duels| { FireKeepsCount(cat, s, user, j, scenario, waveId, now, i); }
      case Finish(user, j, now) => if j < |s.duels| { ExpireKeepsWaves(s, j, now); }
      case View(user, j, now) => if j < |s.duels| { ExpireKeepsWaves(s, j, now); }
      case Mine(user, now) => ExpireMineKeepsWaves(s, user, now, |s.duels|);
      case _ =>
    }
  }

  lemma LabelKeepsCount(s: State, user: User, j: nat, waveId: string, technique: bytes, now: Time, i: nat)
    requires j < |s.duels| && i < |s.duels|
    ensures var s' := StepLabel(s, user, j, waveId, technique, now).0;
      i < |s'.duels| && |s'.duels[i].waves| == |s.duels[i].waves|
  {
    hide ExpireIfDue, Guessed, Blocked, Through;
    ExpireKeepsWaves(s, j, now);
  }

  lemma FireKeepsCount(cat: Catalogue, s: State, user: User, j: nat, scenario: string, waveId: string, now: Time, i: nat)
    requires j < |s.duels| && i < |s.duels| && !Fires(cat, s, Fire(user, j, scenario, waveId, now), i)
    ensures var s' := Step(cat, s, Fire(user, j, scenario, waveId, now)).0;
      i < |s'.duels| && |s'.duels[i].waves| == |s.duels[i].waves|
  {
    hide ExpireIfDue, Fires, Finalize;
    FireAdds(cat, s, user, j, scenario, waveId, now);
    ExpireKeepsWaves(s, j, now);
  }

  predicate WavesOf(cat: Catalogue, waves: seq<Wave>, fires: seq<Op>) {
    |waves| == |fires| && forall k :: 0 <= k < |waves| ==> IsWaveOf(cat, waves[k], fires[k])
  }

  lemma StepWaves(cat: Catalogue, s: State, op: Op, i: nat, fires: seq<Op>)
    requires i < |s.duels| && WavesOf(cat, s.duels[i].waves, fires)
    ensures var s' := Step(cat, s, op).0;
      i < |s'.duels| && WavesOf(cat, s'.duels[i].waves, fires + if Fires(cat, s, op, i) then [op] else [])
  {
    hide Step, Fires, ExpectsScenario;
    var s' := Step(cat, s, op).0;
    StepEvolves(cat, s, op);
    assert Evolves(s.duels[i], s'.duels[i]);
    WavesKept(cat, s.duels[i].waves, s'.duels[i].waves, fires);
    if Fires(cat, s, op, i) {
      FiresHere(cat, s, op, i);
      FireAdds(cat, s, op.user, i, op.scenario, op.waveId, op.now);
    } else {
      StepKeepsCount(cat, s, op, i);
      assert fires + [] == fires;
    }
  }

  lemma FiresHere(cat: Catalogue, s: State, op: Op, i: nat)
    requires Fires(cat, s, op, i)
    ensures op.Fire? && op.id == i
  {
  }

  lemma WavesKept(cat: Catalogue, ws: seq<Wave>, ws': seq<Wave>, fires: seq<Op>)
    requires WavesOf(cat, ws, fires) && |ws| <= |ws'| && forall k :: 0 <= k < |ws| ==> WaveEvolves(ws[k], ws'[k])
    ensures forall k :: 0 <= k < |ws| ==> IsWaveOf(cat, ws'[k], fires[k])
  {
    hide Upper;
    forall k | 0 <= k < |ws| ensures IsWaveOf(cat, ws'[k], fires[k]) {
      assert IsWaveOf(cat, ws[k], fires[k]) && WaveEvolves(ws[k], ws'[k]);
    }
  }

  lemma NewRowIsEmpty(cat: Catalogue, s: State, op: Op, i: nat)
    requires |s.duels| <= i < |Step(cat, s, op).0.duels|
    ensures Step(cat, s, op).0.duels[i].waves == [] && !Fires(cat, s, op, i)
  {
    hide StepLabel, StepFire, ExpireMine, ExpireIfDue, Finalize;
    match op {
      case Label(user, j, waveId, technique, now) =>
        if j < |s.duels| { RowCount(cat, s, op, j, now); }
      case Fire(user, j, scenario, waveId, now) =>
        if j < |s.duels| { RowCount(cat, s, op, j, now); }
      case Finish(user, j, now) => if j < |s.duels| { FinalizeDuels(s, j, now); }
      case View(user, j, now) =>
      case Mine(user, now) => MineRowCount(s, user, now, |s.duels|);
      case _ =>
    }
  }

  lemma RowCount(cat: Catalogue, s: State, op: Op, j: nat, now: Time)
    requires j < |s.duels| && (op.Label? || op.Fire?) && op.id == j && op.now == now
    ensures |Step(cat, s, op).0.duels| == |s.duels|
  {
    hide ExpireIfDue, Guessed, UpperAll, Blocked, Through, FindWave;
  }

  lemma {:induction false} MineRowCount(s: State, u: User, now: Time, n: nat)
    requires n <= |s.duels|
    ensures |ExpireMine(s, u, now, n).duels| == |s.duels|
    decreases n
  {
    hide ExpireIfDue;
    if n == 0 {
    } else {
      MineRowCount(ExpireIfDue(s, n - 1, now), u, now, n - 1);
      MineRowCount(s, u, now, n - 1);
    }
  }

  lemma {:induction false} NoFiresBefore(cat: Catalogue, p0: map<User, Progress>, ops: seq<Op>, i: nat)
    requires i >= |Run(cat, p0, ops).duels|
    ensures FiresOn(cat, p0, ops, i) == []
  {
    hide Step, Fires;
    if ops == [] {
    } else {
      var init, op := ops[..|ops| - 1], ops[|ops| - 1];
      StepEvolves(cat, Run(cat, p0, init), op);
      NoFiresBefore(cat, p0, init, i);
      NoRowNoFire(cat, Run(cat, p0, init), op, i);
    }
  }

  lemma NoRowNoFire(cat: Catalogue, s: State, op: Op, i: nat)
    requires i >= |s.duels|
    ensures !Fires(cat, s, op, i)
  {
  }

  /** In every run the waves of a duel are its accepted fires, one for one and in order, each with the
      techniques of the scenario that was fired. */
  lemma {:induction false} WavesAreFires(cat: Catalogue, p0: map<User, Progress>, ops: seq<Op>, i: nat)
    requires i < |Run(cat, p0, ops).duels|
    ensures WavesOf(cat, Run(cat, p0, ops).duels[i].waves, FiresOn(cat, p0, ops, i))
  {
    if ops == [] {
    } else {
      hide Step, Fires, WavesOf;
      var init, op := ops[..|ops| - 1], ops[|ops| - 1];
      var s := Run(cat, p0, init);
      if i < |s.duels| {
        WavesAreFires(cat, p0, init, i);
        StepWaves(cat, s, op, i, FiresOn(cat, p0, init, i));
      } else {
        NewRowIsEmpty(cat, s, op, i);
        NoFiresBefore(cat, p0, init, i);
        NoWaves(cat);
      }
    }
  }

  lemma NoWaves(cat: Catalogue)
    ensures WavesOf(cat, [], [])
  {
  }

  // ---- the life of a duel ------------------------------------------------------------

  predicate Plays(d: Duel, u: User) {
    u in {d.attacker, d.defender}
  }

  predicate Accepts(op: Op, i: nat, d: Duel) {
    op.Accept? && op.id == i && op.user == d.defender && d.status == Pending
  }

  predicate Declines(op: Op, i: nat, d: Duel) {
    op.Decline? && op.id == i && op.user == d.defender && d.status == Pending
  }

  /** A player ends an open duel, or somebody looks at a running one whose time is up. */
  predicate Ends(op: Op, i: nat, d: Duel) {
    || (op.Finish? && op.id == i && Plays(d, op.user) && d.status in {Pending, Active})
    || (d.status == Active && d.endsAt.Some? && Looks(op, i, d) && op.now >= d.endsAt.value)
  }

  predicate Looks(op: Op, i: nat, d: Duel) {
    || (op.Fire? && op.id == i) || (op.Label? && op.id == i)
    || (op.View? && op.id == i && Plays(d, op.user)) || (op.Mine? && Plays(d, op.user))
  }

  /** What an operation does to a duel's status and times. */
  predicate Lives(op: Op, i: nat, d: Duel, d': Duel) {
    if Accepts(op, i, d) then
      && d'.status == Active && d'.startedAt == Some(op.now) && d'.endsAt == Some(op.now + d.duration)
      && d'.finishedAt == d.finishedAt
    else
      && d'.startedAt == d.startedAt && d'.endsAt == d.endsAt
      && d'.status == (if Declines(op, i, d) then Declined else if Ends(op, i, d) then Finished else d.status)
      && d'.finishedAt == if Ends(op, i, d) then Some(op.now) else d.finishedAt
  }

  predicate TableLives(op: Op, ds: seq<Duel>, ds': seq<Duel>) {
    |ds| <= |ds'| && forall i: nat :: i < |ds| ==> Lives(op, i, ds[i], ds'[i])
  }

  lemma ExpireOne(s: State, j: nat, now: Time)
    requires j < |s.duels|
    ensures ExpireIfDue(s, j, now).duels ==
      if !Running(s.duels[j], now) && s.duels[j].status == Active then s.duels[j := Closed(s.duels[j], now)] else s.duels
  {
    FinalizeDuels(s, j, now);
    hide Finalize, Closed;
  }

  lemma ClosedTimes(d: Duel, now: Time)
    ensures var d' := Closed(d, now);
      d'.status == Finished && d'.finishedAt == Some(now) && d'.startedAt == d.startedAt && d'.endsAt == d.endsAt
  {
    hide Blocked, Through;
  }

  lemma FireLives(cat: Catalogue, s: State, user: User, j: nat, scenario: string, waveId: string, now: Time)
    requires j < |s.duels|
    ensures TableLives(Fire(user, j, scenario, waveId, now), s.duels,
      StepFire(cat, s, user, j, scenario, waveId, now).0.duels)
  {
    ExpireOne(s, j, now);
    ClosedTimes(s.duels[j], now);
    hide ExpireIfDue, Closed, UpperAll;
  }

  lemma LabelLives(s: State, user: User, j: nat, waveId: string, technique: bytes, now: Time)
    requires j < |s.duels|
    ensures TableLives(Label(user, j, waveId, technique, now), s.duels,
      StepLabel(s, user, j, waveId, technique, now).0.duels)
  {
    ExpireOne(s, j, now);
    ClosedTimes(s.duels[j], now);
    hide ExpireIfDue, Closed, Guessed, Blocked, Through, FindWave;
  }

  lemma ViewLives(s: State, user: User, j: nat, now: Time)
    requires j < |s.duels|
    ensures TableLives(View(user, j, now), s.duels, StepView(s, user, j, now).0.duels)
  {
    ExpireOne(s, j, now);
    ClosedTimes(s.duels[j], now);
    hide ExpireIfDue, Closed;
  }

  lemma FinishLives(s: State, user: User, j: nat, now: Time)
    requires j < |s.duels|
    ensures TableLives(Finish(user, j, now), s.duels, StepFinish(s, user, j, now).0.duels)
  {
    FinalizeDuels(s, j, now);
    ClosedTimes(s.duels[j], now);
    hide Finalize, Closed;
  }

  /** The first `n` duels have been looked at. */
  predicate LivesBelow(op: Op, n: nat, ds: seq<Duel>, ds': seq<Duel>) {
    |ds'| == |ds| && forall i: nat :: i < |ds| ==> if i < n then Lives(op, i, ds[i], ds'[i]) else ds'[i] == ds[i]
  }

  lemma MineOne(s: State, u: User, now: Time, j: nat)
    requires j < |s.duels|
    ensures var (d, ds) := (s.duels[j], ExpireIfDue(s, j, now).duels);
      && |ds| == |s.duels| && (forall i: nat :: i < |ds| && i != j ==> ds[i] == s.duels[i])
      && (Party(d, u) && Open(d) ==> Lives(Mine(u, now), j, d, ds[j]))
      && (!(Party(d, u) && Open(d)) ==> Lives(Mine(u, now), j, d, d))
  {
    hide ExpireIfDue, Closed, Lives, Looks;
    ExpireOne(s, j, now);
    ClosedTimes(s.duels[j], now);
    var d := s.duels[j];
    if Party(d, u) {
      PlayerLooks(u, now, j, d);
      LookedAt(Mine(u, now), j, d, if Open(d) then ExpireIfDue(s, j, now).duels[j] else d);
    } else {
      OthersDoNot(u, now, j, d);
    }
  }

  lemma PlayerLooks(u: User, now: Time, j: nat, d: Duel)
    requires Party(d, u)
    ensures Looks(Mine(u, now), j, d)
  {
  }

  lemma OthersDoNot(u: User, now: Time, j: nat, d: Duel)
    requires !Party(d, u)
    ensures Lives(Mine(u, now), j, d, d)
  {
  }

  /** A duel that is looked at ends if it is active and its time is up. */
  lemma LookedAt(op: Op, i: nat, d: Duel, d': Duel)
    requires Looks(op, i, d) && d'.startedAt == d.startedAt && d'.endsAt == d.endsAt
    requires if d.status == Active && !Running(d, op.now)
      then d'.status == Finished && d'.finishedAt == Some(op.now)
      else d'.status == d.status && d'.finishedAt == d.finishedAt
    ensures Lives(op, i, d, d')
  {
  }

  lemma {:induction false} MineLives(s: State, u: User, now: Time, n: nat)
    requires n <= |s.duels|
    ensures LivesBelow(Mine(u, now), n, s.duels, ExpireMine(s, u, now, n).duels)
    decreases n
  {
    hide ExpireIfDue, Lives, Party, Open;
    if n == 0 {
    } else {
      MineOne(s, u, now, n - 1);
      MineLives(ExpireIfDue(s, n - 1, now), u, now, n - 1);
      MineLives(s, u, now, n - 1);
    }
  }

  /** Every operation moves every duel exactly as its players, its status and the time say. */
  lemma DuelsLive(cat: Catalogue, s: State, op: Op)
    ensures TableLives(op, s.duels, Step(cat, s, op).0.duels)
  {
    hide StepFire, StepLabel, StepView, StepFinish, ExpireMine;
    match op {
      case Fire(user, j, scenario, waveId, now) =>
        if j < |s.duels| { FireLives(cat, s, user, j, scenario, waveId, now); }
      case Label(user, j, waveId, technique, now) =>
        if j < |s.duels| { LabelLives(s, user, j, waveId, technique, now); }
      case Finish(user, j, now) => if j < |s.duels| { FinishLives(s, user, j, now); }
      case View(user, j, now) => if j < |s.duels| { ViewLives(s, user, j, now); }
      case Mine(user, now) => MineLives(s, user, now, |s.duels|);
      case _ =>
    }
  }

  /** What the operations on one duel, firing and labelling apart, reply. */
  lemma Replies(cat: Catalogue, s: State, op: Op)
    requires !op.Challenge? && !op.Mine?
    ensures var (r, missing) := (Step(cat, s, op).1, op.id >= |s.duels|);
      && (missing ==> r == Fail(404))
      && (!missing && (op.Accept? || op.Decline?) ==> var d := s.duels[op.id];
            r == if op.user != d.defender then Fail(403) else if d.status != Pending then Fail(409) else Ok)
      && (!missing && (op.Finish? || op.View?) ==> r == if Plays(s.duels[op.id], op.user) then Ok else Fail(403))
  {
    hide Finalize, ExpireIfDue, StepFire, StepLabel;
  }

  /** A challenge opens a duel exactly when its duration is between one and thirty minutes and the opponent
      exists, is somebody else, and has no open duel with the challenger. */
  lemma ChallengeOpens(cat: Catalogue, s: State, user: User, opponent: Option<User>, duration: int)
    ensures var (s', r) := Step(cat, s, Challenge(user, opponent, duration));
      if 60 <= duration <= 1800 && opponent.Some? && opponent.value != user
        && forall d :: d in s.duels && {d.attacker, d.defender} == {user, opponent.value} ==> d.status !in {Pending, Active}
      then r == Ok
        && s' == s.(duels := s.duels + [Duel(user, opponent.value, Pending, duration, 0, 0, [], None, None, None)])
      else s' == s && r == Fail(if !(60 <= duration <= 1800) then 422 else if opponent == None then 404
                                else if opponent == Some(user) then 422 else 409)
  {
    if opponent.Some? {
      forall d: Duel ensures {d.attacker, d.defender} == {user, opponent.value} <==> Between(d, user, opponent.value) {
        PairIff(d.attacker, d.defender, user, opponent.value);
      }
    }
  }

  lemma PairIff(a: User, b: User, c: User, d: User)
    ensures {a, b} == {c, d} <==> (a == c && b == d) || (a == d && b == c)
  {
    if {a, b} == {c, d} {
      assert a in {c, d} && b in {c, d} && c in {a, b} && d in {a, b};
    }
  }

  /** A finished duel gives ten points for each blocked wave to the defender and for each other one to the
      attacker, in every run. */
  lemma FinalScores(cat: Catalogue, p0: map<User, Progress>, ops: seq<Op>, i: nat)
    requires NonNegative(p0) && i < |Run(cat, p0, ops).duels| && Run(cat, p0, ops).duels[i].status == Finished
    ensures var d := Run(cat, p0, ops).duels[i];
      && d.defenderScore == 10 * |BlockedWaves(d.waves)|
      && d.attackerScore == 10 * (|d.waves| - |BlockedWaves(d.waves)|)
  {
    ReachableTable(cat, p0, ops);
    var d := Run(cat, p0, ops).duels[i];
    assert GoodDuel(d);
    BlockedIsCount(d.waves);
  }

  /** The end of a duel awards both players a game, and a win to whoever most waves speak for. */
  lemma EndAwards(s: State, i: nat, now: Time)
    requires i < |s.duels| && Open(s.duels[i])
    ensures var d := s.duels[i];
      var (blocked, through) := (|BlockedWaves(d.waves)|, |d.waves| - |BlockedWaves(d.waves)|);
      Finalize(s, i, now).awards == s.awards
        + [Award(d.attacker, DuelPlayed(through > blocked, d.defender)),
           Award(d.defender, DuelPlayed(blocked > through, d.attacker))]
        + (if through > blocked then [Award(d.attacker, DuelWin(d.defender))]
           else if blocked > through then [Award(d.defender, DuelWin(d.attacker))] else [])
  {
    hide Evaluate, Apply, Blocked, Through, BlockedWaves;
    BlockedIsCount(s.duels[i].waves);
  }

  /** An award is one progression event of one user, after which that user holds every badge that the new
      record earns; a new one is dated now. Nobody else's record changes. */
  lemma AwardEvaluates(s: State, u: User, a: Action, now: Time)
    ensures var s' := Awarded(s, u, a, now);
      var (p, p') := (ProgressOf(s.progress, u), ProgressOf(s'.progress, u));
      && s'.duels == s.duels && s'.awards == s.awards + [Award(u, a)]
      && (forall v :: v != u ==> ProgressOf(s'.progress, v) == ProgressOf(s.progress, v))
      && p' == Apply(p, a, now).(badges := p'.badges)
      && forall b :: (b in p'.badges <==> b in p.badges || Check(b, p', NO_CONTEXT))
           && (b in p'.badges ==> p'.badges[b] == if b in p.badges then p.badges[b] else now)
  {
    hide Check, Newly, Stamp;
    var p := Apply(ProgressOf(s.progress, u), a, now);
    ProgressionHistory.EvaluateExact(p, NO_CONTEXT, now);
    var p' := ProgressOf(Awarded(s, u, a, now).progress, u);
    forall b ensures Check(b, p', NO_CONTEXT) == Check(b, p, NO_CONTEXT) {
      CheckIgnoresBadges(b, p', p, NO_CONTEXT);
    }
    hide CountAction, Log;
    AppliedBadges(ProgressOf(s.progress, u), a, now);
  }

  lemma AppliedBadges(p: Progress, a: Action, now: Time)
    ensures Apply(p, a, now).badges == p.badges
  {
  }
}
