/** Invariants and accounting over every run of duel steps. */
module DuelRuns {
  import opened Bytes
  import opened Utf8
  import opened Progression
  import opened Duels

  // ---- invariants of one duel ------------------------------------------------------

  /** A wave is resolved exactly when it was labelled correctly. */
  predicate GoodWave(w: Wave) {
    w.resolved == w.correct
  }

  predicate GoodDuel(d: Duel) {
    && d.attacker != d.defender && |d.waves| <= MAX_WAVES
    && (forall w :: w in d.waves ==> GoodWave(w))
    && match d.status
       case Pending => d.waves == [] && d.endsAt == None && d.attackerScore == d.defenderScore == 0
       case Active =>
         && d.startedAt.Some? && d.endsAt == Some(d.startedAt.value + d.duration)
         && d.defenderScore == WAVE_POINTS * Blocked(d.waves)
       case Declined => d.waves == []
       case Finished =>
         && d.finishedAt.Some? && d.defenderScore == WAVE_POINTS * Blocked(d.waves)
         && d.attackerScore + d.defenderScore == WAVE_POINTS * |d.waves|
  }

  /** At most one open duel between any two players. */
  predicate OneOpen(ds: seq<Duel>) {
    forall i, j :: 0 <= i < j < |ds| && Open(ds[i]) && Open(ds[j]) ==> !SamePair(ds[i], ds[j])
  }

  predicate SamePair(a: Duel, b: Duel) {
    Between(a, b.attacker, b.defender)
  }

  predicate GoodTable(ds: seq<Duel>) {
    OneOpen(ds) && forall d :: d in ds ==> GoodDuel(d)
  }

  lemma {:induction false} BlockedThrough(waves: seq<Wave>)
    ensures Blocked(waves) + Through(waves) == |waves|
  {
    if waves == [] {
    } else {
      BlockedThrough(waves[..|waves| - 1]);
    }
  }

  lemma BlockedAdd(waves: seq<Wave>, w: Wave)
    ensures Blocked(waves + [w]) == Blocked(waves) + if w.correct then 1 else 0
  {
    assert (waves + [w])[..|waves|] == waves;
  }

  /** The finished form of an open duel. */
  function Closed(d: Duel, now: Time): Duel {
    Tally(d).(status := Finished, finishedAt := Some(now))
  }

  lemma ClosedIsGood(d: Duel, now: Time)
    requires GoodDuel(d) && Open(d)
    ensures GoodDuel(Closed(d, now))
  {
    BlockedThrough(d.waves);
  }

  lemma FiredIsGood(d: Duel, w: Wave)
    requires GoodDuel(d) && d.status == Active && |d.waves| < MAX_WAVES && !w.resolved && !w.correct
    ensures GoodDuel(d.(waves := d.waves + [w]))
  {
    BlockedAdd(d.waves, w);
  }

  lemma LabelledIsGood(d: Duel, j: nat, technique: bytes)
    requires GoodDuel(d) && d.status == Active && j < |d.waves|
    ensures GoodDuel(Tally(d.(waves := d.waves[j := Guessed(d.waves[j], technique)])))
  {
    hide Upper, Strip, UpperAll;
    var w := d.waves[j];
    assert GoodWave(w) && GoodWave(Guessed(w, technique));
    var waves := d.waves[j := Guessed(w, technique)];
    forall k | 0 <= k < |waves| ensures GoodWave(waves[k]) {
      assert d.waves[k] in d.waves;
    }
  }

  // ---- what a step may do to a duel --------------------------------------------------

  /** A duel's players never change, declined and finished duels never change at all, the status
      only moves forward, and waves are only added, a resolved one staying as it is. */
  predicate Evolves(d: Duel, d': Duel) {
    && d'.attacker == d.attacker && d'.defender == d.defender && d'.duration == d.duration
    && (!Open(d) ==> d' == d)
    && (d.status == Active ==> d'.status == Active || d'.status == Finished)
    && |d.waves| <= |d'.waves|
    && forall k :: 0 <= k < |d.waves| ==> WaveEvolves(d.waves[k], d'.waves[k])
  }

  predicate WaveEvolves(w: Wave, w': Wave) {
    && w'.id == w.id && w'.scenario == w.scenario && w'.expected == w.expected && w'.firedAt == w.firedAt
    && (w.resolved ==> w' == w)
  }

  predicate TableEvolves(ds: seq<Duel>, ds': seq<Duel>) {
    |ds| <= |ds'| && forall i :: 0 <= i < |ds| ==> Evolves(ds[i], ds'[i])
  }

  lemma EvolvesTransitive(a: Duel, b: Duel, c: Duel)
    requires Evolves(a, b) && Evolves(b, c)
    ensures Evolves(a, c)
  {
    forall k | 0 <= k < |a.waves| ensures WaveEvolves(a.waves[k], c.waves[k]) {
      assert WaveEvolves(a.waves[k], b.waves[k]) && WaveEvolves(b.waves[k], c.waves[k]);
    }
  }

  lemma TableTransitive(a: seq<Duel>, b: seq<Duel>, c: seq<Duel>)
    requires TableEvolves(a, b) && TableEvolves(b, c)
    ensures TableEvolves(a, c)
  {
    hide Evolves;
    forall i | 0 <= i < |a| ensures Evolves(a[i], c[i]) {
      assert Evolves(a[i], b[i]) && Evolves(b[i], c[i]);
      EvolvesTransitive(a[i], b[i], c[i]);
    }
  }

  lemma TableReflexive(ds: seq<Duel>)
    ensures TableEvolves(ds, ds)
  {
  }

  // ---- counting duels and awards ----------------------------------------------------------

  datatype Measure = All | Decisive | PlayedBy(u: User) | WonBy(u: User)

  /** Whether a duel is finished and of the kind that `m` counts. */
  predicate Hit(d: Duel, m: Measure) {
    d.status == Finished &&
    match m
    case All => true
    case Decisive => d.attackerScore != d.defenderScore
    case PlayedBy(u) => Party(d, u)
    case WonBy(u) =>
      (d.attacker == u && d.attackerScore > d.defenderScore) || (d.defender == u && d.defenderScore > d.attackerScore)
  }

  function Count(ds: seq<Duel>, m: Measure): nat {
    if ds == [] then 0 else Count(ds[..|ds| - 1], m) + if Hit(ds[|ds| - 1], m) then 1 else 0
  }

  /** Which awards are given for the duels that a measure counts. */
  predicate Pays(a: Award, m: Measure) {
    match m
    case All => a.action.DuelPlayed?
    case Decisive => a.action.DuelWin?
    case PlayedBy(u) => a.action.DuelPlayed? && a.user == u
    case WonBy(u) => a.action.DuelWin? && a.user == u
  }

  function CountAwards(awards: seq<Award>, m: Measure): nat {
    if awards == [] then 0
    else CountAwards(awards[..|awards| - 1], m) + if Pays(awards[|awards| - 1], m) then 1 else 0
  }

  function XpIssued(awards: seq<Award>): int {
    if awards == [] then 0 else XpIssued(awards[..|awards| - 1]) + Delta(awards[|awards| - 1].action)
  }

  lemma {:induction false} CountUpdate(ds: seq<Duel>, i: nat, d: Duel, m: Measure)
    requires i < |ds| && !Hit(ds[i], m)
    ensures Count(ds[i := d], m) == Count(ds, m) + if Hit(d, m) then 1 else 0
  {
    hide Hit;
    var init := ds[..|ds| - 1];
    if i == |ds| - 1 {
      assert ds[i := d][..|ds| - 1] == init;
    } else {
      assert ds[i := d][..|ds| - 1] == init[i := d];
      CountUpdate(init, i, d, m);
    }
  }

  lemma CountAdd(ds: seq<Duel>, d: Duel, m: Measure)
    requires d.status != Finished
    ensures Count(ds + [d], m) == Count(ds, m)
  {
    assert (ds + [d])[..|ds|] == ds;
  }

  lemma AwardAdd(awards: seq<Award>, a: Award, m: Measure)
    ensures CountAwards(awards + [a], m) == CountAwards(awards, m) + if Pays(a, m) then 1 else 0
    ensures XpIssued(awards + [a]) == XpIssued(awards) + Delta(a.action)
  {
    assert (awards + [a])[..|awards|] == awards;
  }

  /** How many awards a finished duel pays for a measure. */
  function Rate(m: Measure): nat {
    if m == All then 2 else 1
  }

  /** The awards so far match the duels so far. */
  ghost predicate Settled(s: State) {
    && (forall m :: CountAwards(s.awards, m) == Rate(m) * Count(s.duels, m))
    && XpIssued(s.awards) == 20 * Count(s.duels, All) + 25 * Count(s.duels, Decisive)
  }

  // ---- progress follows the awards -----------------------------------------------------------

  predicate Earned(p: Progress, p0: Progress, awards: seq<Award>, u: User) {
    && p.counts.duelsPlayed == p0.counts.duelsPlayed + CountAwards(awards, PlayedBy(u))
    && p.counts.duelsWon == p0.counts.duelsWon + CountAwards(awards, WonBy(u))
    && p.xp == p0.xp + 10 * CountAwards(awards, PlayedBy(u)) + 25 * CountAwards(awards, WonBy(u))
  }

  ghost predicate Tracks(s: State, p0: map<User, Progress>) {
    forall u :: Earned(ProgressOf(s.progress, u), ProgressOf(p0, u), s.awards, u)
  }

  predicate NonNegative(p0: map<User, Progress>) {
    forall u :: u in p0 ==> p0[u].xp >= 0
  }

  lemma AppliedEarns(p: Progress, p0: Progress, awards: seq<Award>, u: User, v: User, a: Action, now: Time)
    requires Earned(p, p0, awards, v) && p0.xp >= 0 && (a.DuelPlayed? || a.DuelWin?)
    ensures Earned(if u == v then Evaluate(Apply(p, a, now), NO_CONTEXT, now) else p, p0, awards + [Award(u, a)], v)
  {
    hide CountAwards, Newly, Log;
    AwardAdd(awards, Award(u, a), PlayedBy(v));
    AwardAdd(awards, Award(u, a), WonBy(v));
  }

  lemma AwardedTracks(s: State, p0: map<User, Progress>, u: User, a: Action, now: Time)
    requires NonNegative(p0) && Tracks(s, p0) && (a.DuelPlayed? || a.DuelWin?)
    ensures Tracks(Awarded(s, u, a, now), p0)
  {
    hide NonNegative, Earned;
    var s' := Awarded(s, u, a, now);
    forall v ensures Earned(ProgressOf(s'.progress, v), ProgressOf(p0, v), s'.awards, v) {
      assert Earned(ProgressOf(s.progress, v), ProgressOf(p0, v), s.awards, v);
      StartsNonNegative(p0, v);
      AppliedEarns(ProgressOf(s.progress, v), ProgressOf(p0, v), s.awards, u, v, a, now);
    }
  }

  lemma StartsNonNegative(p0: map<User, Progress>, u: User)
    requires NonNegative(p0)
    ensures ProgressOf(p0, u).xp >= 0
  {
  }

  // ---- the steps ---------------------------------------------------------------------------------

  ghost predicate Inv(s: State, p0: map<User, Progress>) {
    GoodTable(s.duels) && Settled(s) && Tracks(s, p0)
  }

  lemma TableUpdate(ds: seq<Duel>, i: nat, d: Duel)
    requires i < |ds| && GoodTable(ds) && GoodDuel(d)
    requires d.attacker == ds[i].attacker && d.defender == ds[i].defender && (Open(d) ==> Open(ds[i]))
    ensures GoodTable(ds[i := d])
  {
    hide GoodDuel;
    var ds' := ds[i := d];
    forall j, k | 0 <= j < k < |ds'| && Open(ds'[j]) && Open(ds'[k]) ensures !SamePair(ds'[j], ds'[k]) {
      assert !SamePair(ds[j], ds[k]);
    }
  }

  /** An update that does not finish a duel keeps the books as they are. */
  lemma QuietUpdate(s: State, p0: map<User, Progress>, i: nat, d: Duel)
    requires i < |s.duels| && Inv(s, p0) && GoodDuel(d)
    requires d.attacker == s.duels[i].attacker && d.defender == s.duels[i].defender && (Open(d) ==> Open(s.duels[i]))
    requires s.duels[i].status != Finished && d.status != Finished
    ensures Inv(s.(duels := s.duels[i := d]), p0)
  {
    TableUpdate(s.duels, i, d);
    hide GoodTable, GoodDuel, Count, CountAwards, Earned;
    forall m ensures Count(s.duels[i := d], m) == Count(s.duels, m) {
      CountUpdate(s.duels, i, d, m);
    }
  }

  lemma AwardedCounts(s: State, u: User, a: Action, now: Time, m: Measure)
    ensures var s' := Awarded(s, u, a, now);
      && CountAwards(s'.awards, m) == CountAwards(s.awards, m) + (if Pays(Award(u, a), m) then 1 else 0)
      && XpIssued(s'.awards) == XpIssued(s.awards) + Delta(a) && s'.duels == s.duels
  {
    AwardAdd(s.awards, Award(u, a), m);
  }

  lemma FinalizePays(s: State, i: nat, now: Time, m: Measure)
    requires i < |s.duels| && Open(s.duels[i]) && s.duels[i].attacker != s.duels[i].defender
    ensures var (s', d) := (Finalize(s, i, now), Closed(s.duels[i], now));
      && s'.duels == s.duels[i := d]
      && CountAwards(s'.awards, m) == CountAwards(s.awards, m) + (if Hit(d, m) then Rate(m) else 0)
      && XpIssued(s'.awards) == XpIssued(s.awards) + 20 + (if Hit(d, Decisive) then 25 else 0)
  {
    hide Awarded, CountAwards, XpIssued, Blocked, Through;
    var d := Closed(s.duels[i], now);
    var aWin, dWin := d.attackerScore > d.defenderScore, d.defenderScore > d.attackerScore;
    var s0 := s.(duels := s.duels[i := d]);
    var s1 := Awarded(s0, d.attacker, DuelPlayed(aWin, d.defender), now);
    var s2 := Awarded(s1, d.defender, DuelPlayed(dWin, d.attacker), now);
    AwardedCounts(s0, d.attacker, DuelPlayed(aWin, d.defender), now, m);
    AwardedCounts(s1, d.defender, DuelPlayed(dWin, d.attacker), now, m);
    AwardedCounts(s2, d.attacker, DuelWin(d.defender), now, m);
    AwardedCounts(s2, d.defender, DuelWin(d.attacker), now, m);
  }

  lemma FinalizeTracks(s: State, p0: map<User, Progress>, i: nat, now: Time)
    requires i < |s.duels| && NonNegative(p0) && Tracks(s, p0)
    ensures Tracks(Finalize(s, i, now), p0)
  {
    if Open(s.duels[i]) {
      hide Awarded, Tally, Earned, NonNegative;
      var d := Closed(s.duels[i], now);
      var aWin, dWin := d.attackerScore > d.defenderScore, d.defenderScore > d.attackerScore;
      var s0 := s.(duels := s.duels[i := d]);
      var s1 := Awarded(s0, d.attacker, DuelPlayed(aWin, d.defender), now);
      var s2 := Awarded(s1, d.defender, DuelPlayed(dWin, d.attacker), now);
      AwardedTracks(s0, p0, d.attacker, DuelPlayed(aWin, d.defender), now);
      AwardedTracks(s1, p0, d.defender, DuelPlayed(dWin, d.attacker), now);
      AwardedTracks(s2, p0, d.attacker, DuelWin(d.defender), now);
      AwardedTracks(s2, p0, d.defender, DuelWin(d.attacker), now);
    }
  }

  lemma FinalizeInv(s: State, p0: map<User, Progress>, i: nat, now: Time)
    requires i < |s.duels| && NonNegative(p0) && Inv(s, p0)
    ensures Inv(Finalize(s, i, now), p0)
  {
    if Open(s.duels[i]) {
      var s', d := Finalize(s, i, now), Closed(s.duels[i], now);
      assert GoodDuel(s.duels[i]);
      ClosedIsGood(s.duels[i], now);
      TableUpdate(s.duels, i, d);
      FinalizeTracks(s, p0, i, now);
      hide GoodTable, GoodDuel, Settled, Tracks;
      FinalizeSettles(s, i, now);
    }
  }

  lemma FinalizeSettles(s: State, i: nat, now: Time)
    requires i < |s.duels| && Open(s.duels[i]) && s.duels[i].attacker != s.duels[i].defender && Settled(s)
    ensures Settled(Finalize(s, i, now))
  {
    hide Finalize, Count, CountAwards, XpIssued, Closed;
    var s', d := Finalize(s, i, now), Closed(s.duels[i], now);
    forall m ensures CountAwards(s'.awards, m) == Rate(m) * Count(s'.duels, m) {
      FinalizePays(s, i, now, m);
      CountUpdate(s.duels, i, d, m);
      if Hit(d, m) { assert Rate(m) * (Count(s.duels, m) + 1) == Rate(m) * Count(s.duels, m) + Rate(m); }
    }
    FinalizePays(s, i, now, All);
    CountUpdate(s.duels, i, d, All);
    CountUpdate(s.duels, i, d, Decisive);
    ClosedIsFinished(s.duels[i], now);
  }

  lemma ClosedIsFinished(d: Duel, now: Time)
    ensures Hit(Closed(d, now), All)
  {
  }

  lemma ExpireInv(s: State, p0: map<User, Progress>, i: nat, now: Time)
    requires i < |s.duels| && NonNegative(p0) && Inv(s, p0)
    ensures Inv(ExpireIfDue(s, i, now), p0)
  {
    hide Inv, Finalize;
    if Due(s.duels[i], now) {
      FinalizeInv(s, p0, i, now);
    }
  }

  lemma {:induction false} ExpireMineInv(s: State, p0: map<User, Progress>, u: User, now: Time, n: nat)
    requires n <= |s.duels| && NonNegative(p0) && Inv(s, p0)
    ensures Inv(ExpireMine(s, u, now, n), p0)
    decreases n
  {
    hide Inv, ExpireIfDue;
    if n == 0 {
    } else {
      ExpireInv(s, p0, n - 1, now);
      if Party(s.duels[n - 1], u) && Open(s.duels[n - 1]) {
        ExpireMineInv(ExpireIfDue(s, n - 1, now), p0, u, now, n - 1);
      } else {
        ExpireMineInv(s, p0, u, now, n - 1);
      }
    }
  }

  lemma ChallengeInv(s: State, p0: map<User, Progress>, user: User, opponent: Option<User>, duration: int)
    requires Inv(s, p0)
    ensures Inv(StepChallenge(s, user, opponent, duration).0, p0)
  {
    var s' := StepChallenge(s, user, opponent, duration).0;
    if s' != s {
      var d := NewDuel(user, opponent.value, duration);
      assert GoodTable(s'.duels) by {
        assert GoodDuel(d);
        hide GoodDuel;
        forall i | 0 <= i < |s.duels| && Open(s.duels[i]) ensures !SamePair(s.duels[i], d) {
          assert s.duels[i] in s.duels;
        }
      }
      hide GoodTable, Count, CountAwards, Earned, XpIssued;
      forall m ensures Count(s'.duels, m) == Count(s.duels, m) {
        CountAdd(s.duels, d, m);
      }
    }
  }

  lemma FireInv(cat: Catalogue, s: State, p0: map<User, Progress>, user: User, i: nat, scenario: string, waveId: string, now: Time)
    requires i < |s.duels| && NonNegative(p0) && Inv(s, p0)
    ensures Inv(StepFire(cat, s, user, i, scenario, waveId, now).0, p0)
  {
    ExpireInv(s, p0, i, now);
    var s1 := ExpireIfDue(s, i, now);
    var d := s1.duels[i];
    assert GoodDuel(d);
    hide Inv, GoodDuel, ExpireIfDue, UpperAll;
    if StepFire(cat, s, user, i, scenario, waveId, now).0 != s1 {
      var w := Wave(waveId, scenario, UpperAll(cat[scenario]), now, false, false, None);
      FiredIsGood(d, w);
      QuietUpdate(s1, p0, i, d.(waves := d.waves + [w]));
    }
  }

  lemma LabelInv(s: State, p0: map<User, Progress>, user: User, i: nat, waveId: string, technique: bytes, now: Time)
    requires i < |s.duels| && NonNegative(p0) && Inv(s, p0)
    ensures Inv(StepLabel(s, user, i, waveId, technique, now).0, p0)
  {
    ExpireInv(s, p0, i, now);
    var s1 := ExpireIfDue(s, i, now);
    var d := s1.duels[i];
    assert GoodDuel(d);
    hide Inv, GoodDuel, ExpireIfDue, Guessed, FindWave, Blocked, Through;
    var j := FindWave(d.waves, waveId);
    if d.status == Active && j < |d.waves| {
      LabelledIsGood(d, j, technique);
      QuietUpdate(s1, p0, i, Tally(d.(waves := d.waves[j := Guessed(d.waves[j], technique)])));
    }
  }

  lemma AnswerInv(s: State, p0: map<User, Progress>, user: User, i: nat, now: Time)
    requires i < |s.duels| && Inv(s, p0)
    ensures Inv(StepAccept(s, user, i, now).0, p0) && Inv(StepDecline(s, user, i).0, p0)
  {
    var d := s.duels[i];
    assert GoodDuel(d);
    hide Inv;
    if d.status == Pending {
      QuietUpdate(s, p0, i, d.(status := Declined));
      QuietUpdate(s, p0, i, d.(status := Active, startedAt := Some(now), endsAt := Some(now + d.duration)));
    }
  }

  lemma StepInv(cat: Catalogue, s: State, p0: map<User, Progress>, op: Op)
    requires NonNegative(p0) && Inv(s, p0)
    ensures Inv(Step(cat, s, op).0, p0)
  {
    hide Inv, StepChallenge, StepFire, StepLabel, StepAccept, StepDecline, Finalize, ExpireIfDue, ExpireMine;
    match op {
      case Challenge(user, opponent, duration) => ChallengeInv(s, p0, user, opponent, duration);
      case Accept(user, i, now) => if i < |s.duels| { AnswerInv(s, p0, user, i, now); }
      case Decline(user, i) => if i < |s.duels| { AnswerInv(s, p0, user, i, 0); }
      case Fire(user, i, scenario, waveId, now) =>
        if i < |s.duels| { FireInv(cat, s, p0, user, i, scenario, waveId, now); }
      case Label(user, i, waveId, technique, now) =>
        if i < |s.duels| { LabelInv(s, p0, user, i, waveId, technique, now); }
      case Finish(user, i, now) => if i < |s.duels| { FinalizeInv(s, p0, i, now); }
      case View(user, i, now) => if i < |s.duels| { ExpireInv(s, p0, i, now); }
      case Mine(user, now) => ExpireMineInv(s, p0, user, now, |s.duels|);
    }
  }

  lemma {:induction false} RunInv(cat: Catalogue, p0: map<User, Progress>, ops: seq<Op>)
    requires NonNegative(p0)
    ensures Inv(Run(cat, p0, ops), p0)
  {
    hide Step;
    if ops == [] {
    } else {
      hide Inv;
      RunInv(cat, p0, ops[..|ops| - 1]);
      StepInv(cat, Run(cat, p0, ops[..|ops| - 1]), p0, ops[|ops| - 1]);
    }
  }

  // ---- main results ----------------------------------------------------------------------------

  /** Duel accounting, over every run: two `duel_played` awards for each finished duel and one
      `duel_win` for each decisive one, each to the players concerned and to nobody else; the XP
      handed out is 20 a finished duel and 25 more a decisive one. */
  lemma DuelAccounting(cat: Catalogue, p0: map<User, Progress>, ops: seq<Op>, u: User)
    requires NonNegative(p0)
    ensures var s := Run(cat, p0, ops);
      var (p, q) := (ProgressOf(p0, u), ProgressOf(s.progress, u));
      && CountAwards(s.awards, All) == 2 * Count(s.duels, All)
      && CountAwards(s.awards, Decisive) == Count(s.duels, Decisive)
      && XpIssued(s.awards) == 20 * Count(s.duels, All) + 25 * Count(s.duels, Decisive)
      && q.counts.duelsPlayed == p.counts.duelsPlayed + Count(s.duels, PlayedBy(u))
      && q.counts.duelsWon == p.counts.duelsWon + Count(s.duels, WonBy(u))
      && q.xp == p.xp + 10 * Count(s.duels, PlayedBy(u)) + 25 * Count(s.duels, WonBy(u))
  {
    hide Run, GoodTable, Count, CountAwards, XpIssued;
    RunInv(cat, p0, ops);
    var s := Run(cat, p0, ops);
    assert Earned(ProgressOf(s.progress, u), ProgressOf(p0, u), s.awards, u);
    assert CountAwards(s.awards, PlayedBy(u)) == Rate(PlayedBy(u)) * Count(s.duels, PlayedBy(u));
    assert CountAwards(s.awards, WonBy(u)) == Rate(WonBy(u)) * Count(s.duels, WonBy(u));
    assert CountAwards(s.awards, Decisive) == Rate(Decisive) * Count(s.duels, Decisive);
  }

  /** Every reachable duel table. */
  lemma ReachableTable(cat: Catalogue, p0: map<User, Progress>, ops: seq<Op>)
    requires NonNegative(p0)
    ensures GoodTable(Run(cat, p0, ops).duels)
  {
    hide Run, GoodTable;
    RunInv(cat, p0, ops);
  }

  lemma FinalizeEvolves(s: State, i: nat, now: Time)
    requires i < |s.duels|
    ensures TableEvolves(s.duels, Finalize(s, i, now).duels)
  {
    TableReflexive(s.duels);
    FinalizeDuels(s, i, now);
    hide Finalize, TableEvolves, Blocked, Through;
    if Open(s.duels[i]) {
      UpdateEvolves(s.duels, i, Closed(s.duels[i], now));
    }
  }

  /** Finalising changes one row. */
  lemma FinalizeDuels(s: State, i: nat, now: Time)
    requires i < |s.duels|
    ensures Finalize(s, i, now).duels == if Open(s.duels[i]) then s.duels[i := Closed(s.duels[i], now)] else s.duels
  {
    hide Evaluate, Apply, Blocked, Through;
  }

  lemma ExpireEvolves(s: State, i: nat, now: Time)
    requires i < |s.duels|
    ensures TableEvolves(s.duels, ExpireIfDue(s, i, now).duels)
  {
    hide Finalize, Evolves;
    TableReflexive(s.duels);
    FinalizeEvolves(s, i, now);
  }

  lemma {:induction false} ExpireMineEvolves(s: State, u: User, now: Time, n: nat)
    requires n <= |s.duels|
    ensures TableEvolves(s.duels, ExpireMine(s, u, now, n).duels)
    decreases n
  {
    hide ExpireIfDue, TableEvolves;
    TableReflexive(s.duels);
    if n == 0 {
    } else {
      var s1 := ExpireIfDue(s, n - 1, now);
      ExpireEvolves(s, n - 1, now);
      ExpireMineEvolves(s1, u, now, n - 1);
      ExpireMineEvolves(s, u, now, n - 1);
      TableTransitive(s.duels, s1.duels, ExpireMine(s1, u, now, n - 1).duels);
    }
  }

  lemma UpdateEvolves(ds: seq<Duel>, i: nat, d: Duel)
    requires i < |ds| && Evolves(ds[i], d)
    ensures TableEvolves(ds, ds[i := d])
  {
    TableReflexive(ds);
    hide Evolves;
  }

  lemma FireEvolves(cat: Catalogue, s: State, user: User, i: nat, scenario: string, waveId: string, now: Time)
    requires i < |s.duels|
    ensures TableEvolves(s.duels, StepFire(cat, s, user, i, scenario, waveId, now).0.duels)
  {
    hide ExpireIfDue, TableEvolves, UpperAll;
    ExpireEvolves(s, i, now);
    var s1 := ExpireIfDue(s, i, now);
    var s2 := StepFire(cat, s, user, i, scenario, waveId, now).0;
    TableReflexive(s1.duels);
    if s2 != s1 {
      UpdateEvolves(s1.duels, i, s2.duels[i]);
    }
    TableTransitive(s.duels, s1.duels, s2.duels);
  }

  lemma LabelEvolves(s: State, user: User, i: nat, waveId: string, technique: bytes, now: Time)
    requires i < |s.duels|
    ensures TableEvolves(s.duels, StepLabel(s, user, i, waveId, technique, now).0.duels)
  {
    hide ExpireIfDue, TableEvolves, Upper, Strip, UpperAll, Blocked, Through;
    ExpireEvolves(s, i, now);
    var s1 := ExpireIfDue(s, i, now);
    var s2 := StepLabel(s, user, i, waveId, technique, now).0;
    TableReflexive(s1.duels);
    if s2 != s1 {
      UpdateEvolves(s1.duels, i, s2.duels[i]);
    }
    TableTransitive(s.duels, s1.duels, s2.duels);
  }

  /** Every step lets every duel evolve: in particular declined and finished duels are final,
      and no wave is resolved twice. */
  lemma StepEvolves(cat: Catalogue, s: State, op: Op)
    ensures TableEvolves(s.duels, Step(cat, s, op).0.duels)
  {
    hide StepFire, StepLabel, ExpireMine, ExpireIfDue, Finalize;
    TableReflexive(s.duels);
    match op {
      case Challenge(user, opponent, duration) =>
      case Accept(user, i, now) =>
      case Decline(user, i) =>
      case Fire(user, i, scenario, waveId, now) =>
        if i < |s.duels| { FireEvolves(cat, s, user, i, scenario, waveId, now); }
      case Label(user, i, waveId, technique, now) =>
        if i < |s.duels| { LabelEvolves(s, user, i, waveId, technique, now); }
      case Finish(user, i, now) => if i < |s.duels| { FinalizeEvolves(s, i, now); }
      case View(user, i, now) => if i < |s.duels| { ExpireEvolves(s, i, now); }
      case Mine(user, now) => ExpireMineEvolves(s, user, now, |s.duels|);
    }
  }

  lemma {:induction false} RunEvolves(cat: Catalogue, p0: map<User, Progress>, ops: seq<Op>, n: nat)
    requires n <= |ops|
    ensures TableEvolves(Run(cat, p0, ops[..n]).duels, Run(cat, p0, ops).duels)
    decreases |ops|
  {
    hide Step, TableEvolves;
    if n == |ops| {
      assert ops[..n] == ops;
      TableReflexive(Run(cat, p0, ops).duels);
    } else {
      var init := ops[..|ops| - 1];
      assert init[..n] == ops[..n];
      RunEvolves(cat, p0, init, n);
      StepEvolves(cat, Run(cat, p0, init), ops[|ops| - 1]);
      TableTransitive(Run(cat, p0, ops[..n]).duels, Run(cat, p0, init).duels, Run(cat, p0, ops).duels);
    }
  }

  // ---- who can block a wave -------------------------------------------------------------------

  predicate SameWaves(ds: seq<Duel>, ds': seq<Duel>) {
    |ds'| >= |ds| && forall i :: 0 <= i < |ds| ==> ds'[i].waves == ds[i].waves && ds'[i].defender == ds[i].defender
  }

  lemma ExpireKeepsWaves(s: State, i: nat, now: Time)
    requires i < |s.duels|
    ensures SameWaves(s.duels, Finalize(s, i, now).duels) && SameWaves(s.duels, ExpireIfDue(s, i, now).duels)
  {
    ClosedKeepsWaves(s.duels, i, now);
    FinalizeDuels(s, i, now);
    hide Finalize, SameWaves, Closed;
  }

  lemma ClosedKeepsWaves(ds: seq<Duel>, i: nat, now: Time)
    requires i < |ds|
    ensures SameWaves(ds, ds) && SameWaves(ds, ds[i := Closed(ds[i], now)])
  {
    hide Blocked, Through;
  }

  lemma DueFinishes(s: State, i: nat, now: Time)
    requires i < |s.duels|
    ensures Due(s.duels[i], now) ==> ExpireIfDue(s, i, now).duels[i].status == Finished
  {
    FinalizeDuels(s, i, now);
    hide Finalize, Blocked, Through;
  }

  lemma SameWavesTransitive(a: seq<Duel>, b: seq<Duel>, c: seq<Duel>)
    requires SameWaves(a, b) && SameWaves(b, c)
    ensures SameWaves(a, c)
  {
  }

  lemma SameWavesReflexive(ds: seq<Duel>)
    ensures SameWaves(ds, ds)
  {
  }

  lemma {:induction false} ExpireMineKeepsWaves(s: State, u: User, now: Time, n: nat)
    requires n <= |s.duels|
    ensures SameWaves(s.duels, ExpireMine(s, u, now, n).duels)
    decreases n
  {
    hide ExpireIfDue, SameWaves;
    assert SameWaves(s.duels, s.duels) by { SameWavesReflexive(s.duels); }
    if n == 0 {
    } else {
      var s1 := ExpireIfDue(s, n - 1, now);
      ExpireKeepsWaves(s, n - 1, now);
      ExpireMineKeepsWaves(s1, u, now, n - 1);
      ExpireMineKeepsWaves(s, u, now, n - 1);
      SameWavesTransitive(s.duels, s1.duels, ExpireMine(s1, u, now, n - 1).duels);
    }
  }

  /** The guess that `label` compares, and the techniques it accepts. */
  predicate Matches(technique: bytes, w: Wave) {
    Upper(Strip(technique)) in UpperAll(w.expected)
  }

  lemma LabelBlocks(s: State, user: User, i: nat, waveId: string, technique: bytes, now: Time, j: nat, k: nat)
    requires i < |s.duels| && j < |s.duels| && k < |s.duels[j].waves| && !s.duels[j].waves[k].resolved
    requires var s' := StepLabel(s, user, i, waveId, technique, now).0;
      j < |s'.duels| && k < |s'.duels[j].waves| && s'.duels[j].waves[k].resolved
    ensures j == i && user == s.duels[j].defender && s.duels[j].status == Active && !Due(s.duels[j], now)
    ensures s.duels[j].waves[k].id == waveId && Matches(technique, s.duels[j].waves[k])
  {
    ExpireKeepsWaves(s, i, now);
    DueFinishes(s, i, now);
    hide Upper, Strip, UpperAll, Blocked, Through, Finalize;
  }

  /** A wave is blocked only by the duel's defender, before the duel's end, with a technique that
      the wave expects. */
  lemma BlockedOnlyByDefender(cat: Catalogue, s: State, op: Op, j: nat, k: nat)
    requires j < |s.duels| && k < |s.duels[j].waves| && !s.duels[j].waves[k].resolved
    requires var s' := Step(cat, s, op).0; j < |s'.duels| && k < |s'.duels[j].waves| && s'.duels[j].waves[k].resolved
    ensures op.Label? && op.id == j && op.user == s.duels[j].defender
    ensures s.duels[j].status == Active && !Due(s.duels[j], op.now)
    ensures s.duels[j].waves[k].id == op.waveId && Matches(op.technique, s.duels[j].waves[k])
  {
    hide StepLabel, ExpireMine, ExpireIfDue, Finalize, Matches;
    match op {
      case Label(user, i, waveId, technique, now) =>
        if i < |s.duels| { LabelBlocks(s, user, i, waveId, technique, now, j, k); }
      case Fire(user, i, scenario, waveId, now) => if i < |s.duels| { ExpireKeepsWaves(s, i, now); }
      case Finish(user, i, now) => if i < |s.duels| { ExpireKeepsWaves(s, i, now); }
      case View(user, i, now) => if i < |s.duels| { ExpireKeepsWaves(s, i, now); }
      case Mine(user, now) => ExpireMineKeepsWaves(s, user, now, |s.duels|);
      case _ =>
    }
  }
}
