/** What every arena operation brings about, in terms of the operations themselves. */
module ArenaEffects {
  import opened Bytes
  import opened Utf8
  import opened Arena
  import opened Sets

  /** The window runs at `now`. */
  predicate Running(s: State, now: Time) {
    s.open && (s.endsAt == None || s.endsAt == Some(0) || now < s.endsAt.value)
  }

  lemma RunningIff(s: State, now: Time)
    ensures Running(s, now) ==> Expire(s, now) == s
    ensures !Running(s, now) ==> Expire(s, now) == Close(s) && !Close(s).open
  {
    ClosedIsClosed(s);
    hide Close;
    if !s.open {
      assert Close(s) == s by { CloseOnce(s); }
    }
  }

  lemma CloseOnce(s: State)
    requires !s.open
    ensures Close(s) == s
  {
  }

  /** `k` is the first wave with that id. */
  predicate IsFirst(waves: seq<Wave>, id: string, k: nat) {
    k < |waves| && waves[k].id == id && forall m :: 0 <= m < k ==> waves[m].id != id
  }

  // ---- labelling ------------------------------------------------------------------

  /** In a running window, anybody but its firer scores ten points for an unresolved wave exactly when the
      technique, stripped and in upper case, is one of those it expects; any other guess changes
      nothing, so that it does not matter what was guessed before. */
  lemma LabelDecides(cat: Catalogue, s: State, user: User, waveId: string, technique: bytes, now: Time, k: nat)
    requires Running(s, now) && IsFirst(s.waves, waveId, k) && !s.waves[k].resolved && user != s.waves[k].firedBy
    ensures var (s', r) := Step(cat, s, Label(user, waveId, technique, now));
      if Upper(Strip(technique)) in s.waves[k].expected then
        && r == Correct
        && s' == s.(waves := s.waves[k := s.waves[k].(resolved := true, blockedBy := Some(user))], scores := s'.scores)
        && forall u :: Points(s'.scores, u) == Points(s.scores, u) + if u == user then 10 else 0
      else s' == s && r == Wrong
  {
    hide Upper, Strip;
    RunningIff(s, now);
    assert FindWave(s.waves, waveId) == k;
  }

  /** Why a label is refused; a refusal changes nothing in a running window. */
  lemma LabelRefused(cat: Catalogue, s: State, user: User, waveId: string, technique: bytes, now: Time)
    ensures var (s', r) := Step(cat, s, Label(user, waveId, technique, now));
      && (!Running(s, now) ==> r == Fail(409) && !s'.open)
      && (Running(s, now) && (forall w :: w in s.waves ==> w.id != waveId) ==> r == Fail(404) && s' == s)
      && (forall k: nat :: Running(s, now) && IsFirst(s.waves, waveId, k) ==>
            && (s.waves[k].resolved ==> r == AlreadyResolved && s' == s)
            && (!s.waves[k].resolved && s.waves[k].firedBy == user ==> r == Fail(403) && s' == s))
  {
    hide Upper, Strip;
    RunningIff(s, now);
    var j := FindWave(s.waves, waveId);
    if j < |s.waves| {
      assert s.waves[j] in s.waves;
    }
    forall k: nat | IsFirst(s.waves, waveId, k) ensures j == k {
    }
    hide Close;
  }

  // ---- firing ----------------------------------------------------------------------

  /** An accepted fire. */
  predicate Fires(cat: Catalogue, s: State, op: Op) {
    op.Fire? && Running(s, op.now) && op.scenario in cat && |s.waves| < 60
  }

  /** A wave carries the name of the user who fired it and the techniques of the scenario in upper case. */
  predicate IsWaveOf(cat: Catalogue, w: Wave, op: Op) {
    && op.Fire? && op.scenario in cat
    && w.id == op.waveId && w.scenario == op.scenario && w.firedBy == op.user && w.firedAt == op.now
    && |w.expected| == |cat[op.scenario]|
    && forall e :: 0 <= e < |w.expected| ==> w.expected[e] == Upper(cat[op.scenario][e])
  }

  /** An accepted fire adds one unresolved wave behind the others; any other says why. */
  lemma FireAdds(cat: Catalogue, s: State, user: User, scenario: string, waveId: string, now: Time)
    ensures var op := Fire(user, scenario, waveId, now);
      var (s', r) := Step(cat, s, op);
      if Fires(cat, s, op) then
        && r == Ok && |s'.waves| == |s.waves| + 1
        && var w := s'.waves[|s.waves|];
        && s' == s.(waves := s.waves + [w])
        && IsWaveOf(cat, w, op) && !w.resolved && w.blockedBy == None && !w.timedOut
      else
        && |s'.waves| == |s.waves|
        && r == Fail(if !Running(s, now) then 409 else if scenario !in cat then 400 else 429)
  {
    hide Upper;
    RunningIff(s, now);
    hide Close;
    CloseKeepsCount(s);
  }

  lemma CloseKeepsCount(s: State)
    ensures |Close(s).waves| == |s.waves|
  {
  }

  // ---- the window ---------------------------------------------------------------------

  predicate Opens(op: Op) {
    op.OpenWindow? && 60 <= op.duration <= 3600
  }

  /** The accepted fires since the window was opened, in order. */
  function FiresOf(cat: Catalogue, ops: seq<Op>): seq<Op> {
    if ops == [] || Opens(ops[|ops| - 1]) then []
    else
      var init, op := ops[..|ops| - 1], ops[|ops| - 1];
      FiresOf(cat, init) + if Fires(cat, Run(cat, init), op) then [op] else []
  }

  predicate WavesOf(cat: Catalogue, waves: seq<Wave>, fires: seq<Op>) {
    |waves| == |fires| && forall k :: 0 <= k < |waves| ==> IsWaveOf(cat, waves[k], fires[k])
  }

  lemma WavesKept(cat: Catalogue, op: Op, s: State, ws: seq<Wave>, fires: seq<Op>)
    requires WavesOf(cat, s.waves, fires) && WavesStep(op, s, ws)
    ensures forall k :: 0 <= k < |s.waves| ==> IsWaveOf(cat, ws[k], fires[k])
  {
    hide Upper, Catches;
    forall k | 0 <= k < |s.waves| ensures IsWaveOf(cat, ws[k], fires[k]) {
      assert IsWaveOf(cat, s.waves[k], fires[k]) && WaveStep(op, s, s.waves[k], ws[k]);
    }
  }

  lemma KeepsCount(cat: Catalogue, s: State, op: Op)
    requires !Opens(op) && !Fires(cat, s, op)
    ensures |Step(cat, s, op).0.waves| == |s.waves|
  {
    hide Close, Upper, Strip, FindWave, Fires, Over;
    CloseKeepsCount(s);
    match op {
      case Fire(user, scenario, waveId, now) => FireAdds(cat, s, user, scenario, waveId, now);
      case CloseWindow(now) =>
        ClosedIsClosed(s);
        StayClosed(Close(s), now);
      case _ =>
    }
  }

  lemma StepWaves(cat: Catalogue, s: State, op: Op, fires: seq<Op>)
    requires WavesOf(cat, s.waves, fires) && !Opens(op)
    ensures WavesOf(cat, Step(cat, s, op).0.waves, fires + if Fires(cat, s, op) then [op] else [])
  {
    var s' := Step(cat, s, op).0;
    if op.OpenWindow? {
      assert fires + [] == fires && !Fires(cat, s, op);
    } else {
      StepEvolves(cat, s, op);
      hide Step, IsWaveOf;
      WavesKept(cat, op, s, s'.waves, fires);
      if Fires(cat, s, op) {
        FireAdds(cat, s, op.user, op.scenario, op.waveId, op.now);
        hide WavesStep;
        LastWave(s.waves, s'.waves);
      } else {
        hide Fires;
        KeepsCount(cat, s, op);
        assert fires + [] == fires;
      }
    }
  }

  lemma LastWave(ws: seq<Wave>, ws': seq<Wave>)
    requires |ws'| == |ws| + 1
    ensures ws' == ws'[..|ws|] + [ws'[|ws|]]
  {
  }

  /** Opening for one minute to one hour clears the waves and the scores, sets the end, and lets the window
      run; for any other time it is refused. */
  lemma OpenClears(cat: Catalogue, s: State, duration: int, now: Time)
    ensures Step(cat, s, OpenWindow(duration, now)) ==
      if 60 <= duration <= 3600 then (State(true, Some(now + duration), [], map[]), Ok) else (s, Fail(422))
  {
  }

  /** In every run the waves are the accepted fires since the last opening, one for one and in order. */
  lemma {:induction false} WavesAreFires(cat: Catalogue, ops: seq<Op>)
    ensures WavesOf(cat, Run(cat, ops).waves, FiresOf(cat, ops))
  {
    hide Step, Fires, IsWaveOf;
    if ops == [] {
    } else {
      var init, op := ops[..|ops| - 1], ops[|ops| - 1];
      if Opens(op) {
        OpenClears(cat, Run(cat, init), op.duration, op.now);
      } else {
        hide WavesOf;
        WavesAreFires(cat, init);
        StepWaves(cat, Run(cat, init), op, FiresOf(cat, init));
      }
    }
  }

  /** Whether an operation ends the window: by order, or because somebody looks after its time is up. */
  predicate Closes(s: State, op: Op) {
    s.open && (op.CloseWindow? || (!op.OpenWindow? && !Running(s, op.now)))
  }

  function Settled(w: Wave): Wave {
    if w.resolved then w else w.(resolved := true, timedOut := true)
  }

  /** The window ends exactly then; every unresolved wave has timed out, and no other wave has changed. */
  lemma WindowEnds(cat: Catalogue, s: State, op: Op)
    requires !Opens(op)
    ensures var s' := Step(cat, s, op).0;
      && s'.open == (s.open && !Closes(s, op)) && s'.endsAt == s.endsAt
      && (Closes(s, op) ==>
            |s'.waves| == |s.waves| && forall k :: 0 <= k < |s.waves| ==> s'.waves[k] == Settled(s.waves[k]))
  {
    if !op.OpenWindow? {
      RunningIff(s, op.now);
      RunningIff(Close(s), op.now);
      CloseOnce(Close(s));
    }
    Closing(s);
    hide Close, Upper, Strip, FindWave;
  }

  lemma Closing(s: State)
    ensures var s' := Close(s);
      && !s'.open && s'.endsAt == s.endsAt
      && (s.open ==> |s'.waves| == |s.waves| && forall k :: 0 <= k < |s.waves| ==> s'.waves[k] == Settled(s.waves[k]))
  {
    hide TimeOut;
    if s.open {
      forall k | 0 <= k < |s.waves| ensures Close(s).waves[k] == Settled(s.waves[k]) {
        TimeOutAt(s.waves, s.scores, k);
      }
    }
  }

  // ---- points by the operations ----------------------------------------------------------

  /** The waves that a user blocked. */
  function BlockedWaves(waves: seq<Wave>, u: User): set<nat> {
    set k: nat | k < |waves| && waves[k].blockedBy == Some(u)
  }

  /** The waves of a user that timed out. */
  function TimedOutWaves(waves: seq<Wave>, u: User): set<nat> {
    set k: nat | k < |waves| && waves[k].timedOut && waves[k].firedBy == u
  }

  lemma {:induction false} BlockedIsCount(waves: seq<Wave>, u: User)
    ensures BlockedBy(waves, u) == |BlockedWaves(waves, u)|
  {
    if waves == [] {
    } else {
      var init, last := waves[..|waves| - 1], |waves| - 1;
      BlockedIsCount(init, u);
      OneMorePosition(BlockedWaves(init, u), BlockedWaves(waves, u), last);
    }
  }

  lemma {:induction false} TimedOutIsCount(waves: seq<Wave>, u: User)
    ensures TimedOutFrom(waves, u) == |TimedOutWaves(waves, u)|
  {
    if waves == [] {
    } else {
      var init, last := waves[..|waves| - 1], |waves| - 1;
      TimedOutIsCount(init, u);
      OneMorePosition(TimedOutWaves(init, u), TimedOutWaves(waves, u), last);
    }
  }

  /** In every run a user has ten points for each wave they blocked and for each of their own accepted
      fires whose wave timed out. */
  lemma PointsByFires(cat: Catalogue, ops: seq<Op>, u: User)
    ensures var (s, fires) := (Run(cat, ops), FiresOf(cat, ops));
      && |s.waves| == |fires| && (forall k :: 0 <= k < |fires| ==> fires[k].Fire?)
      && Points(s.scores, u) ==
           10 * (|BlockedWaves(s.waves, u)| + |set k: nat | k < |fires| && s.waves[k].timedOut && fires[k].user == u|)
  {
    hide Run, FiresOf, BlockedBy, TimedOutFrom;
    var (s, fires) := (Run(cat, ops), FiresOf(cat, ops));
    WavesAreFires(cat, ops);
    PointsSplit(cat, ops, u);
    BlockedIsCount(s.waves, u);
    TimedOutIsCount(s.waves, u);
    assert forall k :: 0 <= k < |fires| ==> IsWaveOf(cat, s.waves[k], fires[k]);
    assert (set k: nat | k < |fires| && s.waves[k].timedOut && fires[k].user == u) == TimedOutWaves(s.waves, u);
  }
}
