/** Member-versus-member duels (api/routers/duels.py). Every handler is one atomic step. */
module Duels {
  import opened Bytes
  import opened Utf8
  import opened Progression

  type User = string
  type DuelId = nat

  datatype Wave = Wave(
    id: string, scenario: string, expected: seq<bytes>, firedAt: Time,
    resolved: bool, correct: bool, labeled: Option<bytes>)

  datatype Status = Pending | Active | Declined | Finished

  datatype Duel = Duel(
    attacker: User, defender: User, status: Status, duration: int,
    attackerScore: int, defenderScore: int, waves: seq<Wave>,
    startedAt: Option<Time>, endsAt: Option<Time>, finishedAt: Option<Time>)

  /** One progression event given to one user. */
  datatype Award = Award(user: User, action: Action)

  /** The duel table (a row's key is its index), the progress table, and a record of all awards. */
  datatype State = State(duels: seq<Duel>, progress: map<User, Progress>, awards: seq<Award>)

  datatype Reply = Ok | Fail(code: int)

  datatype Op =
    | Challenge(user: User, opponent: Option<User>, duration: int)
    | Accept(user: User, id: DuelId, now: Time)
    | Decline(user: User, id: DuelId)
    | Fire(user: User, id: DuelId, scenario: string, waveId: string, now: Time)
    | Label(user: User, id: DuelId, waveId: string, technique: bytes, now: Time)
    | Finish(user: User, id: DuelId, now: Time)
    | View(user: User, id: DuelId, now: Time)
    | Mine(user: User, now: Time)

  const WAVE_POINTS := 10
  const MAX_WAVES := 20

  /** The duel scenarios and their expected techniques. */
  type Catalogue = map<string, seq<bytes>>

  // ---- specification -------------------------------------------------------

  predicate Open(d: Duel) {
    d.status == Pending || d.status == Active
  }

  predicate Between(d: Duel, a: User, b: User) {
    (d.attacker == a && d.defender == b) || (d.attacker == b && d.defender == a)
  }

  predicate Party(d: Duel, u: User) {
    d.attacker == u || d.defender == u
  }

  function Blocked(waves: seq<Wave>): nat {
    if waves == [] then 0 else Blocked(waves[..|waves| - 1]) + if waves[|waves| - 1].correct then 1 else 0
  }

  function Through(waves: seq<Wave>): nat {
    if waves == [] then 0 else Through(waves[..|waves| - 1]) + if waves[|waves| - 1].correct then 0 else 1
  }

  function Tally(d: Duel): Duel {
    d.(defenderScore := Blocked(d.waves) * WAVE_POINTS, attackerScore := Through(d.waves) * WAVE_POINTS)
  }

  function ProgressOf(progress: map<User, Progress>, u: User): Progress {
    if u in progress then progress[u] else NEW_PROGRESS
  }

  function Awarded(s: State, u: User, a: Action, now: Time): State {
    s.(progress := s.progress[u := Evaluate(Apply(ProgressOf(s.progress, u), a, now), NO_CONTEXT, now)],
       awards := s.awards + [Award(u, a)])
  }

  function Finalize(s: State, i: DuelId, now: Time): State
    requires i < |s.duels|
  {
    if !Open(s.duels[i]) then s
    else
      var d := Tally(s.duels[i]).(status := Finished, finishedAt := Some(now));
      var aWin, dWin := d.attackerScore > d.defenderScore, d.defenderScore > d.attackerScore;
      var s1 := Awarded(s.(duels := s.duels[i := d]), d.attacker, DuelPlayed(aWin, d.defender), now);
      var s2 := Awarded(s1, d.defender, DuelPlayed(dWin, d.attacker), now);
      if aWin then Awarded(s2, d.attacker, DuelWin(d.defender), now)
      else if dWin then Awarded(s2, d.defender, DuelWin(d.attacker), now)
      else s2
  }

  predicate Due(d: Duel, now: Time) {
    d.status == Active && d.endsAt.Some? && now >= d.endsAt.value
  }

  function ExpireIfDue(s: State, i: DuelId, now: Time): (s': State)
    requires i < |s.duels|
    ensures |s'.duels| == |s.duels|
  {
    if Due(s.duels[i], now) then Finalize(s, i, now) else s
  }

  /** `mine`: expire all open duels of the user among the first `n` rows, newest first. */
  function ExpireMine(s: State, u: User, now: Time, n: nat): State
    requires n <= |s.duels|
    decreases n
  {
    if n == 0 then s
    else if Party(s.duels[n - 1], u) && Open(s.duels[n - 1]) then
      ExpireMine(ExpireIfDue(s, n - 1, now), u, now, n - 1)
    else ExpireMine(s, u, now, n - 1)
  }

  function NewDuel(a: User, b: User, duration: int): Duel {
    Duel(a, b, Pending, duration, 0, 0, [], None, None, None)
  }

  /** The first wave with that id, or the number of waves. */
  function FindWave(waves: seq<Wave>, id: string): (j: nat)
    ensures j <= |waves| && (j < |waves| ==> waves[j].id == id)
    ensures forall k :: 0 <= k < j ==> waves[k].id != id
  {
    if waves == [] || waves[0].id == id then 0 else 1 + FindWave(waves[1..], id)
  }

  function UpperAll(ss: seq<bytes>): seq<bytes> {
    seq(|ss|, i requires 0 <= i < |ss| => Upper(ss[i]))
  }

  /** A wave after a guess. */
  function Guessed(w: Wave, technique: bytes): Wave {
    var guess := Upper(Strip(technique));
    var correct := guess in UpperAll(w.expected);
    w.(labeled := Some(guess), resolved := correct || w.resolved, correct := correct || w.correct)
  }

  function StepChallenge(s: State, user: User, opponent: Option<User>, duration: int): (State, Reply) {
    if !(60 <= duration <= 1800) then (s, Fail(422))
    else if opponent == None then (s, Fail(404))
    else if opponent.value == user then (s, Fail(422))
    else if exists d :: d in s.duels && Open(d) && Between(d, user, opponent.value) then (s, Fail(409))
    else (s.(duels := s.duels + [NewDuel(user, opponent.value, duration)]), Ok)
  }

  function StepFire(cat: Catalogue, s: State, user: User, i: DuelId, scenario: string, waveId: string, now: Time): (State, Reply)
    requires i < |s.duels|
  {
    var s := ExpireIfDue(s, i, now);
    var d := s.duels[i];
    if d.status != Active then (s, Fail(409))
    else if d.attacker != user then (s, Fail(403))
    else if scenario !in cat then (s, Fail(400))
    else if |d.waves| >= MAX_WAVES then (s, Fail(429))
    else
      var wave := Wave(waveId, scenario, UpperAll(cat[scenario]), now, false, false, None);
      (s.(duels := s.duels[i := d.(waves := d.waves + [wave])]), Ok)
  }

  function StepLabel(s: State, user: User, i: DuelId, waveId: string, technique: bytes, now: Time): (State, Reply)
    requires i < |s.duels|
  {
    var s := ExpireIfDue(s, i, now);
    var d := s.duels[i];
    if d.status != Active then (s, Fail(409))
    else if d.defender != user then (s, Fail(403))
    else
      var j := FindWave(d.waves, waveId);
      if j == |d.waves| then (s, Fail(404))
      else if d.waves[j].resolved then (s, Fail(409))
      else (s.(duels := s.duels[i := Tally(d.(waves := d.waves[j := Guessed(d.waves[j], technique)]))]), Ok)
  }

  function StepAccept(s: State, user: User, i: DuelId, now: Time): (State, Reply)
    requires i < |s.duels|
  {
    var d := s.duels[i];
    if d.defender != user then (s, Fail(403))
    else if d.status != Pending then (s, Fail(409))
    else (s.(duels := s.duels[i := d.(status := Active, startedAt := Some(now), endsAt := Some(now + d.duration))]), Ok)
  }

  function StepDecline(s: State, user: User, i: DuelId): (State, Reply)
    requires i < |s.duels|
  {
    var d := s.duels[i];
    if d.defender != user then (s, Fail(403))
    else if d.status != Pending then (s, Fail(409))
    else (s.(duels := s.duels[i := d.(status := Declined)]), Ok)
  }

  function StepFinish(s: State, user: User, i: DuelId, now: Time): (State, Reply)
    requires i < |s.duels|
  {
    if !Party(s.duels[i], user) then (s, Fail(403)) else (Finalize(s, i, now), Ok)
  }

  function StepView(s: State, user: User, i: DuelId, now: Time): (State, Reply)
    requires i < |s.duels|
  {
    if !Party(s.duels[i], user) then (s, Fail(403)) else (ExpireIfDue(s, i, now), Ok)
  }

  function Step(cat: Catalogue, s: State, op: Op): (State, Reply) {
    match op
    case Challenge(user, opponent, duration) => StepChallenge(s, user, opponent, duration)
    case Accept(user, i, now) => if i < |s.duels| then StepAccept(s, user, i, now) else (s, Fail(404))
    case Decline(user, i) => if i < |s.duels| then StepDecline(s, user, i) else (s, Fail(404))
    case Fire(user, i, scenario, waveId, now) =>
      if i < |s.duels| then StepFire(cat, s, user, i, scenario, waveId, now) else (s, Fail(404))
    case Label(user, i, waveId, technique, now) =>
      if i < |s.duels| then StepLabel(s, user, i, waveId, technique, now) else (s, Fail(404))
    case Finish(user, i, now) => if i < |s.duels| then StepFinish(s, user, i, now) else (s, Fail(404))
    case View(user, i, now) => if i < |s.duels| then StepView(s, user, i, now) else (s, Fail(404))
    case Mine(user, now) => (ExpireMine(s, user, now, |s.duels|), Ok)
  }

  /** A run from an empty duel table; `p0` is the progress table at the start. */
  function Run(cat: Catalogue, p0: map<User, Progress>, ops: seq<Op>): State {
    if ops == [] then State([], p0, []) else Step(cat, Run(cat, p0, ops[..|ops| - 1]), ops[|ops| - 1]).0
  }

  // ---- the handlers as written -------------------------------------------------

  class DuelServer {
    const catalogue: Catalogue
    var duels: seq<Duel>
    var progress: map<User, Progress>
    ghost var awards: seq<Award>

    ghost function Current(): State
      reads this
    {
      State(duels, progress, awards)
    }

    constructor (catalogue: Catalogue, progress: map<User, Progress>)
      ensures this.catalogue == catalogue && Current() == Run(catalogue, progress, [])
    {
      this.catalogue := catalogue;
      this.progress := progress;
      duels, awards := [], [];
    }

    /** `_award`: load the progress row, apply the event, evaluate the badges, write it back. */
    method GiveAward(u: User, a: Action, now: Time)
      modifies this`progress, this`awards
      ensures Current() == Awarded(old(Current()), u, a, now)
    {
      var row := new ProgressRecord(ProgressOf(progress, u));
      row.ApplyEvent(a, now);
      var _ := row.EvaluateBadges(NO_CONTEXT, now);
      progress := progress[u := row.Current()];
      awards := awards + [Award(u, a)];
    }

    method DoFinalize(i: DuelId, now: Time)
      requires i < |duels|
      modifies this
      ensures Current() == Finalize(old(Current()), i, now)
    {
      hide Awarded, Tally;
      if !Open(duels[i]) { return; }
      var d := Tally(duels[i]).(status := Finished, finishedAt := Some(now));
      duels := duels[i := d];
      var aWin, dWin := d.attackerScore > d.defenderScore, d.defenderScore > d.attackerScore;
      GiveAward(d.attacker, DuelPlayed(aWin, d.defender), now);
      GiveAward(d.defender, DuelPlayed(dWin, d.attacker), now);
      if aWin {
        GiveAward(d.attacker, DuelWin(d.defender), now);
      } else if dWin {
        GiveAward(d.defender, DuelWin(d.attacker), now);
      }
    }

    method DoExpireIfDue(i: DuelId, now: Time)
      requires i < |duels|
      modifies this
      ensures Current() == ExpireIfDue(old(Current()), i, now)
    {
      if Due(duels[i], now) { DoFinalize(i, now); }
    }

    /** `opponent` is the active user of the requested name, if there is one. */
    method ChallengePlayer(user: User, opponent: Option<User>, duration: int) returns (r: Reply)
      modifies this
      ensures (Current(), r) == Step(catalogue, old(Current()), Challenge(user, opponent, duration))
    {
      if !(60 <= duration <= 1800) { return Fail(422); }
      if opponent == None { return Fail(404); }
      if opponent.value == user { return Fail(422); }
      var k := 0;
      while k < |duels|
        invariant 0 <= k <= |duels|
        invariant forall j :: 0 <= j < k ==> !(Open(duels[j]) && Between(duels[j], user, opponent.value))
      {
        if Open(duels[k]) && Between(duels[k], user, opponent.value) {
          assert duels[k] in duels;
          return Fail(409);
        }
        k := k + 1;
      }
      duels := duels + [NewDuel(user, opponent.value, duration)];
      return Ok;
    }

    method AcceptDuel(user: User, i: DuelId, now: Time) returns (r: Reply)
      modifies this
      ensures (Current(), r) == Step(catalogue, old(Current()), Accept(user, i, now))
    {
      if i >= |duels| { return Fail(404); }
      var d := duels[i];
      if d.defender != user { return Fail(403); }
      if d.status != Pending { return Fail(409); }
      d := d.(status := Active, startedAt := Some(now));
      d := d.(endsAt := Some(d.startedAt.value + d.duration));
      duels := duels[i := d];
      return Ok;
    }

    method DeclineDuel(user: User, i: DuelId) returns (r: Reply)
      modifies this
      ensures (Current(), r) == Step(catalogue, old(Current()), Decline(user, i))
    {
      if i >= |duels| { return Fail(404); }
      var d := duels[i];
      if d.defender != user { return Fail(403); }
      if d.status != Pending { return Fail(409); }
      duels := duels[i := d.(status := Declined)];
      return Ok;
    }

    /** `waveId` is the random id drawn for the wave; it need not be new. */
    method FireWave(user: User, i: DuelId, scenario: string, waveId: string, now: Time) returns (r: Reply)
      modifies this
      ensures (Current(), r) == Step(catalogue, old(Current()), Fire(user, i, scenario, waveId, now))
    {
      hide Finalize;
      if i >= |duels| { return Fail(404); }
      DoExpireIfDue(i, now);
      var d := duels[i];
      if d.status != Active { return Fail(409); }
      if d.attacker != user { return Fail(403); }
      if scenario !in catalogue { return Fail(400); }
      if |d.waves| >= MAX_WAVES { return Fail(429); }
      var wave := Wave(waveId, scenario, UpperAll(catalogue[scenario]), now, false, false, None);
      duels := duels[i := d.(waves := d.waves + [wave])];
      return Ok;
    }

    method LabelWave(user: User, i: DuelId, waveId: string, technique: bytes, now: Time) returns (r: Reply)
      modifies this
      ensures (Current(), r) == Step(catalogue, old(Current()), Label(user, i, waveId, technique, now))
    {
      hide Finalize, Tally;
      if i >= |duels| { return Fail(404); }
      DoExpireIfDue(i, now);
      var d := duels[i];
      if d.status != Active { return Fail(409); }
      if d.defender != user { return Fail(403); }
      var guess := Upper(Strip(technique));
      var j := 0;
      while j < |d.waves| && d.waves[j].id != waveId
        invariant j <= |d.waves| && forall k :: 0 <= k < j ==> d.waves[k].id != waveId
      {
        j := j + 1;
      }
      if j == |d.waves| { return Fail(404); }
      var found := d.waves[j];
      if found.resolved { return Fail(409); }
      var correct := guess in UpperAll(found.expected);
      found := found.(labeled := Some(guess));
      if correct { found := found.(resolved := true, correct := true); }
      assert found == Guessed(d.waves[j], technique);
      duels := duels[i := Tally(d.(waves := d.waves[j := found]))];
      return Ok;
    }

    method FinishDuel(user: User, i: DuelId, now: Time) returns (r: Reply)
      modifies this
      ensures (Current(), r) == Step(catalogue, old(Current()), Finish(user, i, now))
    {
      if i >= |duels| { return Fail(404); }
      if !Party(duels[i], user) { return Fail(403); }
      if duels[i].status == Active || duels[i].status == Pending { DoFinalize(i, now); }
      return Ok;
    }

    method ViewDuel(user: User, i: DuelId, now: Time) returns (r: Reply)
      modifies this
      ensures (Current(), r) == Step(catalogue, old(Current()), View(user, i, now))
    {
      if i >= |duels| { return Fail(404); }
      if !Party(duels[i], user) { return Fail(403); }
      DoExpireIfDue(i, now);
      return Ok;
    }

    method MyDuels(user: User, now: Time) returns (r: Reply)
      modifies this
      ensures (Current(), r) == Step(catalogue, old(Current()), Mine(user, now))
    {
      hide ExpireIfDue;
      ghost var s := Current();
      var rows := duels;
      var k := |rows|;
      while k > 0
        invariant 0 <= k <= |rows| == |duels| && forall j :: 0 <= j < k ==> duels[j] == rows[j]
        invariant ExpireMine(Current(), user, now, k) == ExpireMine(s, user, now, |rows|)
      {
        k := k - 1;
        if Party(rows[k], user) && Open(rows[k]) {
          ExpireTouchesOne(Current(), k, now);
          DoExpireIfDue(k, now);
        }
      }
      return Ok;
    }
  }

  lemma ExpireTouchesOne(s: State, i: DuelId, now: Time)
    requires i < |s.duels|
    ensures forall j :: 0 <= j < |s.duels| && j != i ==> ExpireIfDue(s, i, now).duels[j] == s.duels[j]
  {
  }
}
