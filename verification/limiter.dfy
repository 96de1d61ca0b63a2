/** The launch limiter and task registry of the play endpoints (api/routers/play.py).
    There is no await between check and update, so every handler is one step. */
module Limiter {
  import opened Bytes
  import opened Sets

  type TaskId = string

  const MAX_CONCURRENT := 3
  const MAX_PER_WINDOW := 12
  const WINDOW := 60.0
  const TASK_TTL := 600.0

  datatype Status = Running | Done | Failed
  datatype Task = Task(status: Status, finishedAt: Option<real>)

  /** `admitted` is the history of all launches let through, pruned or not. */
  datatype State = State(tasks: map<TaskId, Task>, launchTimes: seq<real>, admitted: seq<real>)

  datatype Reply = Ok | TooMany | RateExceeded(retryAfter: int) | UnknownScenario

  /** `known` says whether the requested scenario or campaign exists. */
  datatype Op =
    | Launch(id: TaskId, known: bool, now: real)
    | Finish(id: TaskId, ok: bool, now: real)
    | List(now: real)

  // ---- specification -------------------------------------------------------

  predicate IsStale(t: Task, now: real) {
    t.finishedAt.Some? && t.finishedAt.value != 0.0 && now - t.finishedAt.value > TASK_TTL
  }

  function Gc(tasks: map<TaskId, Task>, now: real): map<TaskId, Task> {
    map id | id in tasks && !IsStale(tasks[id], now) :: tasks[id]
  }

  function RunningIds(tasks: map<TaskId, Task>): set<TaskId> {
    set id | id in tasks && tasks[id].status == Running
  }

  /** The launches inside the window that ends now. */
  function Recent(times: seq<real>, cutoff: real): seq<real> {
    if times == [] then []
    else
      var before, t := Recent(times[..|times| - 1], cutoff), times[|times| - 1];
      if t > cutoff then before + [t] else before
  }

  /** Python's `int(x)` truncates toward zero. */
  function Truncate(x: real): int {
    if x >= 0.0 then x.Floor else -((-x).Floor)
  }

  function RetryAfter(oldest: real, now: real): int {
    Truncate(WINDOW - (now - oldest)) + 1
  }

  function StepLaunch(s: State, id: TaskId, known: bool, now: real): (State, Reply) {
    var tasks := Gc(s.tasks, now);
    if |RunningIds(tasks)| >= MAX_CONCURRENT then (s.(tasks := tasks), TooMany)
    else
      var recent := Recent(s.launchTimes, now - WINDOW);
      if |recent| >= MAX_PER_WINDOW then
        (s.(tasks := tasks, launchTimes := recent), RateExceeded(RetryAfter(recent[0], now)))
      else
        var tasks' := if known then tasks[id := Task(Running, None)] else tasks;
        (State(tasks', recent + [now], s.admitted + [now]), if known then Ok else UnknownScenario)
  }

  function Step(s: State, op: Op): (State, Reply) {
    match op
    case Launch(id, known, now) => StepLaunch(s, id, known, now)
    case Finish(id, ok, now) =>
      if id in s.tasks && s.tasks[id].status == Running then
        (s.(tasks := s.tasks[id := Task(if ok then Done else Failed, Some(now))]), Ok)
      else (s, Ok)
    case List(now) => (s.(tasks := Gc(s.tasks, now)), Ok)
  }

  function Run(ops: seq<Op>): State {
    if ops == [] then State(map[], [], []) else Step(Run(ops[..|ops| - 1]), ops[|ops| - 1]).0
  }

  // ---- the handlers as written -------------------------------------------------

  class PlayServer {
    var tasks: map<TaskId, Task>
    var launchTimes: seq<real>
    ghost var admitted: seq<real>

    ghost function Current(): State
      reads this
    {
      State(tasks, launchTimes, admitted)
    }

    constructor ()
      ensures Current() == Run([])
    {
      tasks, launchTimes, admitted := map[], [], [];
    }

    method GcOldTasks(now: real)
      modifies this`tasks
      ensures tasks == Gc(old(tasks), now)
    {
      var stale := set id | id in tasks && IsStale(tasks[id], now);
      tasks := tasks - stale;
    }

    /** `_enforce_rate_limit`; any reply but Ok is the 429 it raises. */
    method EnforceRateLimit(now: real) returns (r: Reply)
      modifies this`launchTimes, this`admitted
      ensures r == if |RunningIds(tasks)| >= MAX_CONCURRENT then TooMany
        else
          var recent := Recent(old(launchTimes), now - WINDOW);
          if |recent| >= MAX_PER_WINDOW then RateExceeded(RetryAfter(recent[0], now)) else Ok
      ensures launchTimes == if r == TooMany then old(launchTimes)
        else if r.RateExceeded? then Recent(old(launchTimes), now - WINDOW)
        else Recent(old(launchTimes), now - WINDOW) + [now]
      ensures admitted == if r == Ok then old(admitted) + [now] else old(admitted)
    {
      var running := |RunningIds(tasks)|;
      if running >= MAX_CONCURRENT { return TooMany; }
      var cutoff := now - WINDOW;
      var kept: seq<real> := [];
      var i := 0;
      while i < |launchTimes|
        invariant 0 <= i <= |launchTimes| && launchTimes == old(launchTimes) && admitted == old(admitted)
        invariant kept == Recent(launchTimes[..i], cutoff)
      {
        assert launchTimes[..i + 1][..i] == launchTimes[..i];
        if launchTimes[i] > cutoff { kept := kept + [launchTimes[i]]; }
        i := i + 1;
      }
      assert launchTimes[..i] == launchTimes;
      launchTimes := kept;
      if |launchTimes| >= MAX_PER_WINDOW {
        return RateExceeded(Truncate(WINDOW - (now - launchTimes[0])) + 1);
      }
      launchTimes := launchTimes + [now];
      admitted := admitted + [now];
      return Ok;
    }

    /** `launch_attack` and `launch_campaign`; `id` is the drawn task id. */
    method LaunchTask(id: TaskId, known: bool, now: real) returns (r: Reply)
      modifies this
      ensures (Current(), r) == Step(old(Current()), Launch(id, known, now))
    {
      hide Gc, Recent, RetryAfter, RunningIds;
      GcOldTasks(now);
      r := EnforceRateLimit(now);
      if r != Ok { return; }
      if !known { return UnknownScenario; }
      tasks := tasks[id := Task(Running, None)];
      return Ok;
    }

    /** The end of `_run_task`. */
    method FinishTask(id: TaskId, ok: bool, now: real)
      modifies this
      ensures Current() == Step(old(Current()), Finish(id, ok, now)).0
    {
      if id in tasks && tasks[id].status == Running {
        tasks := tasks[id := Task(if ok then Done else Failed, Some(now))];
      }
    }

    method ListTasks(now: real)
      modifies this
      ensures Current() == Step(old(Current()), List(now)).0
    {
      GcOldTasks(now);
    }
  }

  // ---- the window ----------------------------------------------------------------

  predicate Sorted(ts: seq<real>) {
    forall i, j :: 0 <= i < j < |ts| ==> ts[i] <= ts[j]
  }

  /** Of any 13 consecutive launches, the last comes at least a window after the first. */
  predicate Spaced(ts: seq<real>) {
    forall i :: 0 <= i && i + MAX_PER_WINDOW < |ts| ==> ts[i] + WINDOW <= ts[i + MAX_PER_WINDOW]
  }

  /** Whether a launch now would find room in the window. */
  predicate HasRoom(admitted: seq<real>, now: real) {
    |admitted| < MAX_PER_WINDOW || admitted[|admitted| - MAX_PER_WINDOW] <= now - WINDOW
  }

  /** `launchTimes` is what is left of the history; what was pruned lies a window back. */
  predicate Kept(s: State, clock: real) {
    && Sorted(s.admitted) && Spaced(s.admitted) && (forall i :: 0 <= i < |s.admitted| ==> s.admitted[i] <= clock)
    && |s.launchTimes| <= |s.admitted|
    && s.launchTimes == s.admitted[|s.admitted| - |s.launchTimes|..]
    && forall i :: 0 <= i < |s.admitted| - |s.launchTimes| ==> s.admitted[i] <= clock - WINDOW
  }

  predicate OrderedUpTo(ops: seq<Op>, clock: real) {
    ops == [] || (ops[|ops| - 1].now <= clock && OrderedUpTo(ops[..|ops| - 1], ops[|ops| - 1].now))
  }

  lemma SortedInit(ts: seq<real>)
    requires ts != [] && Sorted(ts)
    ensures Sorted(ts[..|ts| - 1])
  {
  }

  lemma LastIsMax(ts: seq<real>, i: nat)
    requires i < |ts| && Sorted(ts)
    ensures ts[i] <= ts[|ts| - 1]
  {
  }

  /** `r` is the end of `ts` that lies behind the cutoff. */
  predicate IsTail(ts: seq<real>, r: seq<real>, cutoff: real) {
    && |r| <= |ts| && r == ts[|ts| - |r|..]
    && (forall i :: 0 <= i < |ts| - |r| ==> ts[i] <= cutoff)
    && (forall i :: 0 <= i < |r| ==> r[i] > cutoff)
  }

  lemma KeepLast(init: seq<real>, t: real, r: seq<real>, cutoff: real)
    requires IsTail(init, r, cutoff) && t > cutoff
    ensures IsTail(init + [t], r + [t], cutoff)
  {
    assert (init + [t])[|init| - |r|..] == init[|init| - |r|..] + [t];
  }

  lemma DropLast(init: seq<real>, t: real, r: seq<real>, cutoff: real)
    requires IsTail(init, r, cutoff) && t <= cutoff && Sorted(init + [t])
    ensures IsTail(init + [t], r, cutoff)
  {
    var n := |init| - |r|;
    LastIsMax(init + [t], n);
    TailHead(init, t, r);
  }

  lemma TailHead(init: seq<real>, t: real, r: seq<real>)
    requires |r| <= |init| && r == init[|init| - |r|..]
    ensures r != [] ==> r[0] == (init + [t])[|init| - |r|]
  {
  }

  /** Filtering a sorted history keeps a suffix of it. */
  lemma {:induction false} RecentOfSorted(ts: seq<real>, cutoff: real)
    requires Sorted(ts)
    ensures IsTail(ts, Recent(ts, cutoff), cutoff)
  {
    if ts == [] {
    } else {
      var init, t := ts[..|ts| - 1], ts[|ts| - 1];
      SortedInit(ts);
      hide Sorted, IsTail;
      assert init + [t] == ts;
      RecentOfSorted(init, cutoff);
      var r := Recent(init, cutoff);
      if t > cutoff {
        KeepLast(init, t, r, cutoff);
      } else {
        DropLast(init, t, r, cutoff);
      }
    }
  }

  /** A suffix of a suffix, and what lies in front of it. */
  lemma SuffixOfSuffix(all: seq<real>, ts: seq<real>, r: seq<real>, cutoff: real)
    requires |r| <= |ts| <= |all| && ts == all[|all| - |ts|..] && r == ts[|ts| - |r|..]
    requires forall i :: 0 <= i < |all| - |ts| ==> all[i] <= cutoff
    requires forall i :: 0 <= i < |ts| - |r| ==> ts[i] <= cutoff
    ensures r == all[|all| - |r|..] && forall i :: 0 <= i < |all| - |r| ==> all[i] <= cutoff
  {
    forall i | 0 <= i < |all| - |r| ensures all[i] <= cutoff {
      if i >= |all| - |ts| {
        assert all[i] == ts[i - (|all| - |ts|)];
      }
    }
  }

  lemma SortedSuffix(all: seq<real>, n: nat)
    requires n <= |all| && Sorted(all)
    ensures Sorted(all[n..])
  {
  }

  lemma RecentIsSuffix(s: State, clock: real, now: real)
    requires Kept(s, clock) && clock <= now
    ensures var r := Recent(s.launchTimes, now - WINDOW);
      && |r| <= |s.admitted| && r == s.admitted[|s.admitted| - |r|..]
      && (forall i :: 0 <= i < |s.admitted| - |r| ==> s.admitted[i] <= now - WINDOW)
      && (forall i :: 0 <= i < |r| ==> r[i] > now - WINDOW)
  {
    hide Recent, Sorted, Kept, IsTail;
    KeptIsSuffix(s, clock, now);
    RecentOfSuffix(s.admitted, s.launchTimes, now - WINDOW);
  }

  lemma RecentOfSuffix(all: seq<real>, ts: seq<real>, cutoff: real)
    requires Sorted(ts) && |ts| <= |all| && ts == all[|all| - |ts|..]
    requires forall i :: 0 <= i < |all| - |ts| ==> all[i] <= cutoff
    ensures var r := Recent(ts, cutoff);
      && |r| <= |all| && r == all[|all| - |r|..]
      && (forall i :: 0 <= i < |all| - |r| ==> all[i] <= cutoff)
      && (forall i :: 0 <= i < |r| ==> r[i] > cutoff)
  {
    hide Recent, Sorted, IsTail;
    var r := Recent(ts, cutoff);
    RecentOfSorted(ts, cutoff);
    TailIsSuffix(ts, r, cutoff);
    SuffixOfSuffix(all, ts, r, cutoff);
  }

  lemma KeptIsSuffix(s: State, clock: real, now: real)
    requires Kept(s, clock) && clock <= now
    ensures var (all, ts) := (s.admitted, s.launchTimes);
      && Sorted(ts) && |ts| <= |all| && ts == all[|all| - |ts|..]
      && forall i :: 0 <= i < |all| - |ts| ==> all[i] <= now - WINDOW
  {
    hide Sorted, Spaced;
    SortedSuffix(s.admitted, |s.admitted| - |s.launchTimes|);
  }

  lemma TailIsSuffix(ts: seq<real>, r: seq<real>, cutoff: real)
    requires IsTail(ts, r, cutoff)
    ensures |r| <= |ts| && r == ts[|ts| - |r|..]
    ensures forall i :: 0 <= i < |ts| - |r| ==> ts[i] <= cutoff
    ensures forall i :: 0 <= i < |r| ==> r[i] > cutoff
  {
  }

  lemma RecentIsWindow(s: State, clock: real, now: real)
    requires Kept(s, clock) && clock <= now
    ensures |Recent(s.launchTimes, now - WINDOW)| < MAX_PER_WINDOW <==> HasRoom(s.admitted, now)
  {
    hide Recent, Kept;
    RecentIsSuffix(s, clock, now);
    var all, r := s.admitted, Recent(s.launchTimes, now - WINDOW);
    if |r| >= MAX_PER_WINDOW {
      assert all[|all| - MAX_PER_WINDOW] == r[|r| - MAX_PER_WINDOW];
    }
  }

  lemma AddLaunch(all: seq<real>, now: real)
    requires Sorted(all) && Spaced(all) && HasRoom(all, now) && forall i :: 0 <= i < |all| ==> all[i] <= now
    ensures Sorted(all + [now]) && Spaced(all + [now])
  {
  }

  lemma PruneKept(s: State, clock: real, now: real)
    requires Kept(s, clock) && clock <= now
    ensures Kept(s.(launchTimes := Recent(s.launchTimes, now - WINDOW)), now) && Kept(s, now)
  {
    hide Recent, Sorted, Spaced;
    RecentIsSuffix(s, clock, now);
  }

  lemma AdmitKept(s: State, now: real)
    requires Kept(s, now) && HasRoom(s.admitted, now)
    ensures Kept(s.(launchTimes := s.launchTimes + [now], admitted := s.admitted + [now]), now)
  {
    hide Sorted, Spaced, HasRoom;
    AddLaunch(s.admitted, now);
    var n := |s.admitted| - |s.launchTimes|;
    assert (s.admitted + [now])[n..] == s.admitted[n..] + [now];
  }

  lemma LaunchKept(s: State, clock: real, id: TaskId, known: bool, now: real)
    requires Kept(s, clock) && clock <= now
    ensures Kept(StepLaunch(s, id, known, now).0, now)
  {
    hide Recent, Gc, RunningIds, RetryAfter, Kept, HasRoom;
    RecentIsWindow(s, clock, now);
    PruneKept(s, clock, now);
    var pruned := s.(launchTimes := Recent(s.launchTimes, now - WINDOW));
    var s' := StepLaunch(s, id, known, now).0;
    KeptFrame(s', s, now, now);
    KeptFrame(s', pruned, now, now);
    if s'.admitted != s.admitted {
      AdmitKept(pruned, now);
      KeptFrame(s', pruned.(launchTimes := pruned.launchTimes + [now], admitted := pruned.admitted + [now]), now, now);
    }
  }

  lemma {:induction false} RunKept(ops: seq<Op>, clock: real)
    requires OrderedUpTo(ops, clock)
    ensures Kept(Run(ops), clock)
  {
    if ops == [] {
    } else {
      hide Kept, StepLaunch, Gc;
      var init, op := ops[..|ops| - 1], ops[|ops| - 1];
      RunKept(init, op.now);
      if op.Launch? {
        LaunchKept(Run(init), op.now, op.id, op.known, op.now);
      }
      KeptFrame(Step(Run(init), op).0, Run(init), op.now, op.now);
      KeptFrame(Step(Run(init), op).0, Step(Run(init), op).0, op.now, clock);
    }
  }

  lemma KeptFrame(s: State, s': State, clock: real, clock': real)
    requires clock <= clock'
    ensures s.admitted == s'.admitted && s.launchTimes == s'.launchTimes && Kept(s', clock) ==> Kept(s, clock')
  {
  }

  /** How many launches fall below `x`. */
  function Below(ts: seq<real>, x: real): (n: nat)
    ensures n <= |ts|
  {
    if ts == [] then 0 else Below(ts[..|ts| - 1], x) + if ts[|ts| - 1] < x then 1 else 0
  }

  /** How many launches fall into the window from `t` up to but excluding `t + WINDOW`. */
  function CountWithin(ts: seq<real>, t: real): int {
    if ts == [] then 0
    else CountWithin(ts[..|ts| - 1], t) + if t <= ts[|ts| - 1] < t + WINDOW then 1 else 0
  }

  lemma {:induction false} CountIsDifference(ts: seq<real>, t: real)
    ensures CountWithin(ts, t) == Below(ts, t + WINDOW) - Below(ts, t)
  {
    if ts == [] {
    } else {
      CountIsDifference(ts[..|ts| - 1], t);
    }
  }

  lemma {:induction false} BelowSplits(ts: seq<real>, x: real)
    requires Sorted(ts)
    ensures forall i :: 0 <= i < Below(ts, x) ==> ts[i] < x
    ensures forall i :: Below(ts, x) <= i < |ts| ==> ts[i] >= x
  {
    if ts == [] {
    } else {
      var init, n := ts[..|ts| - 1], Below(ts[..|ts| - 1], x);
      BelowSplits(init, x);
      assert n < |init| ==> ts[n] >= x;
    }
  }

  /** Over any run with a clock that never goes back, no window of 60 seconds, wherever it starts,
      holds more than 12 admitted launches. */
  lemma WindowBound(ops: seq<Op>, clock: real, t: real)
    requires OrderedUpTo(ops, clock)
    ensures CountWithin(Run(ops).admitted, t) <= MAX_PER_WINDOW
  {
    RunKept(ops, clock);
    hide Run;
    var ts := Run(ops).admitted;
    CountIsDifference(ts, t);
    BelowSplits(ts, t);
    BelowSplits(ts, t + WINDOW);
    AtMostTwelve(ts, Below(ts, t), Below(ts, t + WINDOW), t);
  }

  lemma AtMostTwelve(ts: seq<real>, lo: nat, hi: nat, t: real)
    requires Spaced(ts) && hi <= |ts| && forall i :: lo <= i < hi ==> t <= ts[i] < t + WINDOW
    ensures hi - lo <= MAX_PER_WINDOW
  {
    Gap(ts, lo);
  }

  lemma Gap(ts: seq<real>, i: nat)
    requires Spaced(ts)
    ensures i + MAX_PER_WINDOW < |ts| ==> ts[i] + WINDOW <= ts[i + MAX_PER_WINDOW]
  {
  }

  // ---- refusals ----------------------------------------------------------------------

  /** A launch that is not refused for concurrency is admitted exactly when fewer than 12 launches
      were admitted in the last 60 seconds; so admission depends on the history alone. */
  lemma AdmittedIff(ops: seq<Op>, clock: real, id: TaskId, known: bool, now: real)
    requires OrderedUpTo(ops, clock) && clock <= now
    requires Step(Run(ops), Launch(id, known, now)).1 != TooMany
    ensures Step(Run(ops), Launch(id, known, now)).1.RateExceeded? <==> !HasRoom(Run(ops).admitted, now)
  {
    hide Run, Recent, Gc, RunningIds, RetryAfter;
    RunKept(ops, clock);
    RecentIsWindow(Run(ops), clock, now);
  }

  /** `retry_after` is the true wait, rounded up to a whole second above it: from then on, with no
      admission in between, there is room, and before the true wait there is none. */
  lemma RetryAfterIsRight(ops: seq<Op>, clock: real, id: TaskId, known: bool, now: real, later: real)
    requires OrderedUpTo(ops, clock) && clock <= now <= later
    requires Step(Run(ops), Launch(id, known, now)).1.RateExceeded?
    ensures var (s, reply) := Step(Run(ops), Launch(id, known, now));
      && s.admitted == Run(ops).admitted && 0 < |s.launchTimes| <= |s.admitted|
      && var wait := s.admitted[|s.admitted| - |s.launchTimes|] + WINDOW - now;
      && wait > 0.0 && wait < reply.retryAfter as real <= wait + 1.0
      && (HasRoom(s.admitted, later) <==> later >= now + wait)
  {
    hide Run, Gc, RunningIds;
    RunKept(ops, clock);
    var s0 := Run(ops);
    RecentIsSuffix(s0, clock, now);
    hide Recent;
    var r := Recent(s0.launchTimes, now - WINDOW);
    var n := |s0.admitted|;
    assert r[0] == s0.admitted[n - |r|];
    FullWindow(s0.admitted, |r|, now);
  }

  /** A full window holds exactly 12 launches. */
  lemma FullWindow(admitted: seq<real>, k: nat, now: real)
    requires Spaced(admitted) && (forall i :: 0 <= i < |admitted| ==> admitted[i] <= now)
    requires MAX_PER_WINDOW <= k <= |admitted| && admitted[|admitted| - k] > now - WINDOW
    ensures k == MAX_PER_WINDOW
  {
    Gap(admitted, |admitted| - k);
  }

  // ---- running tasks -------------------------------------------------------------------

  /** A task has an end time exactly when it is no longer running. */
  predicate Healthy(s: State) {
    && (forall id :: id in s.tasks ==> (s.tasks[id].status == Running <==> s.tasks[id].finishedAt == None))
    && |RunningIds(s.tasks)| <= MAX_CONCURRENT
  }

  /** Garbage collection never drops a running task. */
  lemma GcKeepsRunning(s: State, now: real)
    requires Healthy(s)
    ensures RunningIds(Gc(s.tasks, now)) == RunningIds(s.tasks)
  {
  }

  lemma StepHealthy(s: State, op: Op)
    requires Healthy(s)
    ensures Healthy(Step(s, op).0)
  {
    hide Recent, RetryAfter;
    var s' := Step(s, op).0;
    match op {
      case Launch(id, known, now) =>
        GcKeepsRunning(s, now);
        SubsetSize(RunningIds(s'.tasks), RunningIds(s.tasks) + {id});
        SubsetSize(RunningIds(s.tasks) - {id}, RunningIds(s.tasks));
      case Finish(id, ok, now) => SubsetSize(RunningIds(s'.tasks), RunningIds(s.tasks));
      case List(now) => GcKeepsRunning(s, now);
    }
  }

  /** At most three tasks run at any moment, and none of them is ever collected. */
  lemma {:induction false} RunHealthy(ops: seq<Op>)
    ensures Healthy(Run(ops))
  {
    if ops == [] {
    } else {
      hide Healthy, Step;
      RunHealthy(ops[..|ops| - 1]);
      StepHealthy(Run(ops[..|ops| - 1]), ops[|ops| - 1]);
    }
  }

  // ---- what each operation does to the tasks ---------------------------------------------------

  /** The tasks that a collection at `now` leaves: those that have not ended more than ten minutes ago. */
  ghost predicate Collected(tasks: map<TaskId, Task>, tasks': map<TaskId, Task>, now: real) {
    && (forall id :: id in tasks' ==> id in tasks && tasks'[id] == tasks[id])
    && (forall id :: id in tasks ==>
         (id in tasks' <==> match tasks[id].finishedAt
                            case None => true
                            case Some(ended) => ended == 0.0 || now - ended <= 600.0))
  }

  lemma GcCollects(tasks: map<TaskId, Task>, now: real)
    ensures Collected(tasks, Gc(tasks, now), now)
  {
  }

  /** The launches let through in the last 60 seconds, the one exactly 60 seconds ago excluded. */
  function InWindow(admitted: seq<real>, now: real): set<nat> {
    set i: nat | i < |admitted| && admitted[i] > now - 60.0
  }

  lemma RoomIff(admitted: seq<real>, now: real)
    requires Sorted(admitted)
    ensures HasRoom(admitted, now) <==> |InWindow(admitted, now)| < 12
  {
    var n, w := |admitted|, InWindow(admitted, now);
    if n < 12 {
      assert w <= Range(0, n);
      hide InWindow, Sorted;
      SubsetSize(w, Range(0, n));
    } else if admitted[n - 12] > now - 60.0 {
      assert forall i: nat :: n - 12 <= i < n ==> admitted[i] >= admitted[n - 12];
      assert Range(n - 12, 12) <= w;
      hide InWindow, Sorted;
      SubsetSize(Range(n - 12, 12), w);
    } else {
      assert forall i: nat :: i <= n - 12 ==> admitted[i] <= admitted[n - 12];
      assert w <= Range(n - 11, 11);
      hide InWindow, Sorted;
      SubsetSize(w, Range(n - 11, 11));
    }
  }

  /** What a launch does in every run with an ordered clock: it collects, and unless three tasks run or
      twelve launches were let through in the last 60 seconds, it counts as let through, even when the
      scenario is unknown; only a known one becomes a running task. */
  lemma LaunchDecides(ops: seq<Op>, clock: real, id: TaskId, known: bool, now: real)
    requires OrderedUpTo(ops, clock) && clock <= now
    ensures var (s, (s', r)) := (Run(ops), Step(Run(ops), Launch(id, known, now)));
      var busy := |RunningIds(s.tasks)| >= 3;
      var full := |InWindow(s.admitted, now)| >= 12;
      && (r == TooMany <==> busy) && (r.RateExceeded? <==> !busy && full)
      && (r == Ok <==> !busy && !full && known) && (r == UnknownScenario <==> !busy && !full && !known)
      && s'.admitted == (if busy || full then s.admitted else s.admitted + [now])
      && exists kept :: Collected(s.tasks, kept, now) && s'.tasks == if r == Ok then kept[id := Task(Running, None)] else kept
  {
    var s := Run(ops);
    RunKept(ops, clock);
    RunHealthy(ops);
    RecentIsWindow(s, clock, now);
    RoomIff(s.admitted, now);
    GcKeepsRunning(s, now);
    GcCollects(s.tasks, now);
    hide Run, Gc, Recent, RunningIds, RetryAfter, HasRoom, InWindow, Collected, Kept, Healthy;
  }

  function Ended(t: Task, ok: bool, now: real): Task {
    match t.status
    case Running => Task(if ok then Done else Failed, Some(now))
    case _ => t
  }

  /** The end of a run marks its task, once, and touches no other; looking at the tasks only collects. */
  lemma FinishMarks(s: State, id: TaskId, ok: bool, now: real)
    ensures var s' := Step(s, Finish(id, ok, now)).0;
      && s'.launchTimes == s.launchTimes && s'.admitted == s.admitted
      && s'.tasks == if id in s.tasks then s.tasks[id := Ended(s.tasks[id], ok, now)] else s.tasks
    ensures var s' := Step(s, List(now)).0;
      s'.launchTimes == s.launchTimes && s'.admitted == s.admitted && Collected(s.tasks, s'.tasks, now)
  {
    GcCollects(s.tasks, now);
  }

  /** The launches from `t` up to but excluding `t` and 60 seconds. */
  function LetThrough(ts: seq<real>, t: real): set<nat> {
    set i: nat | i < |ts| && t <= ts[i] < t + 60.0
  }

  /** The two bounds in numbers: in every run at most three tasks run, and no 60 seconds, wherever they start,
      hold more than twelve launches that were let through. */
  lemma LimitsHold(ops: seq<Op>, clock: real, t: real)
    requires OrderedUpTo(ops, clock)
    ensures |RunningIds(Run(ops).tasks)| <= 3
    ensures |LetThrough(Run(ops).admitted, t)| <= 12
  {
    hide Run, RunningIds, CountWithin, LetThrough;
    RunHealthy(ops);
    WindowBound(ops, clock, t);
    CountWithinIsCount(Run(ops).admitted, t);
  }

  lemma {:induction false} CountWithinIsCount(ts: seq<real>, t: real)
    ensures CountWithin(ts, t) == |LetThrough(ts, t)|
  {
    if ts == [] {
    } else {
      var init, last := ts[..|ts| - 1], |ts| - 1;
      CountWithinIsCount(init, t);
      OneMorePosition(LetThrough(init, t), LetThrough(ts, t), last);
    }
  }
}
