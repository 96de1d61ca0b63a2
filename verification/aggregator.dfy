/** The per-session event buffers of the intel worker (workers/intel/aggregator.py). */
module Aggregator {
  import opened Bytes

  type Sid = string

  datatype EventType = SessionClose | Other(name: string)

  datatype Envelope = Envelope(eventType: EventType, sid: Sid, service: string, srcIp: string, srcPort: int, id: string)

  datatype SessionBuffer = SessionBuffer(
    sid: Sid, service: string, srcIp: string, srcPort: int,
    startedAt: real, lastEvent: real, events: seq<Envelope>)

  /** An OrderedDict from session id to buffer, oldest entry first. */
  type Buffers = seq<SessionBuffer>

  datatype Config = Config(idleTimeout: real, maxEvents: int, maxSessions: nat)

  // ---- specification -------------------------------------------------------

  /** The position of a session's buffer, or -1. */
  function IndexOf(bs: Buffers, sid: Sid): (i: int)
    ensures -1 <= i < |bs|
    ensures i >= 0 ==> bs[i].sid == sid
    ensures i == -1 ==> forall b :: b in bs ==> b.sid != sid
  {
    if bs == [] then -1
    else if bs[|bs| - 1].sid == sid then |bs| - 1
    else IndexOf(bs[..|bs| - 1], sid)
  }

  function Without(bs: Buffers, i: nat): Buffers
    requires i < |bs|
  {
    bs[..i] + bs[i + 1..]
  }

  /** The number of stale buffers in front of the first fresh one. */
  function StaleCount(cfg: Config, bs: Buffers, now: real): (n: nat)
    ensures n <= |bs|
    ensures forall i :: 0 <= i < n ==> Stale(cfg, bs[i], now)
    ensures n < |bs| ==> !Stale(cfg, bs[n], now)
  {
    if bs == [] || !Stale(cfg, bs[0], now) then 0 else 1 + StaleCount(cfg, bs[1..], now)
  }

  predicate Stale(cfg: Config, b: SessionBuffer, now: real) {
    now - b.lastEvent > cfg.idleTimeout
  }

  datatype Op = Ingest(env: Envelope, now: real) | DrainIdle(now: real) | DrainAll

  /** `out` holds the buffers that have left, in the order in which they left. */
  datatype State = State(buffers: Buffers, out: seq<SessionBuffer>)

  /** The buffer of the event's session after the event, and the other buffers around it:
      the session is now the most recent one, and the oldest ones are evicted beyond the cap. */
  function Touched(bs: Buffers, env: Envelope, now: real): (r: (Buffers, SessionBuffer))
  {
    var i := IndexOf(bs, env.sid);
    if i == -1 then
      (bs, SessionBuffer(env.sid, env.service, env.srcIp, env.srcPort, now, now, []))
    else
      (Without(bs, i), bs[i].(lastEvent := now))
  }

  /** How many of the oldest buffers a new session pushes out. */
  function Overflow(cfg: Config, bs: Buffers, sid: Sid): (n: nat)
    ensures n <= |bs| + 1
  {
    if IndexOf(bs, sid) == -1 && |bs| + 1 > cfg.maxSessions then |bs| + 1 - cfg.maxSessions else 0
  }

  predicate Ready(cfg: Config, buf: SessionBuffer) {
    (buf.events != [] && buf.events[|buf.events| - 1].eventType == SessionClose) || |buf.events| >= cfg.maxEvents
  }

  /** The buffer that `ingest` returns. */
  function IngestResult(cfg: Config, bs: Buffers, env: Envelope, now: real): Option<SessionBuffer> {
    var (others, buf) := Touched(bs, env, now);
    var full := buf.(events := buf.events + [env]);
    if Overflow(cfg, bs, env.sid) <= |others| && Ready(cfg, full) then Some(full) else None
  }

  function IngestStep(cfg: Config, s: State, env: Envelope, now: real): State {
    var (others, buf) := Touched(s.buffers, env, now);
    var n := Overflow(cfg, s.buffers, env.sid);
    var full := buf.(events := buf.events + [env]);
    if n > |others| then
      State([], s.out + others + [buf])    // the new session itself is evicted, before its event is stored
    else if Ready(cfg, full) then
      State(others[n..], s.out + others[..n] + [full])
    else
      State(others[n..] + [full], s.out + others[..n])
  }

  function Step(cfg: Config, s: State, op: Op): State {
    match op
    case Ingest(env, now) => IngestStep(cfg, s, env, now)
    case DrainIdle(now) =>
      var n := StaleCount(cfg, s.buffers, now);
      State(s.buffers[n..], s.out + s.buffers[..n])
    case DrainAll => State([], s.out + s.buffers)
  }

  function Run(cfg: Config, ops: seq<Op>): State {
    if ops == [] then State([], []) else Step(cfg, Run(cfg, ops[..|ops| - 1]), ops[|ops| - 1])
  }

  // ---- the aggregator as written ---------------------------------------------

  class SessionAggregator {
    const config: Config
    var buffers: Buffers
    ghost var out: seq<SessionBuffer>

    ghost predicate Valid()
      reads this
    {
      Distinct(buffers)
    }

    ghost function Current(): State
      reads this
    {
      State(buffers, out)
    }

    constructor (config: Config)
      ensures this.config == config && Valid() && Current() == Run(config, [])
    {
      this.config := config;
      buffers, out := [], [];
    }

    /** `now` is the reading of the monotonic clock. */
    method IngestEvent(env: Envelope, now: real) returns (ready: Option<SessionBuffer>)
      requires Valid()
      modifies this
      ensures Valid() && Current() == Step(config, old(Current()), Ingest(env, now))
      ensures ready == IngestResult(config, old(buffers), env, now)
    {
      hide Touched, Overflow, IndexOf, Distinct;
      ghost var (others, touched) := Touched(buffers, env, now);
      ghost var n := Overflow(config, buffers, env.sid);
      FindOrOpen(env, now);
      SplitAtLast(others, touched, n);
      // The session's buffer is the last one, unless it was evicted just now.
      var last := |buffers| - 1;
      if last < 0 { return None; }
      var full := buffers[last].(events := buffers[last].events + [env]);
      DistinctWithLast(buffers, full);
      buffers := buffers[..last] + [full];
      if env.eventType == SessionClose || |full.events| >= config.maxEvents {
        buffers := buffers[..last];
        out := out + [full];
        return Some(full);
      }
      return None;
    }

    /** The first half of `ingest`: the session's buffer, new or refreshed, moves to the recent end. */
    method FindOrOpen(env: Envelope, now: real)
      requires Valid()
      modifies this
      ensures var (others, touched) := Touched(old(buffers), env, now);
        var n := Overflow(config, old(buffers), env.sid);
        && Valid() && n <= |others| + 1 && buffers == (others + [touched])[n..]
        && out == old(out) + (others + [touched])[..n]
    {
      DistinctAfterTouch(buffers, env, now);
      var i := IndexOf(buffers, env.sid);
      if i == -1 {
        var buf := SessionBuffer(env.sid, env.service, env.srcIp, env.srcPort, now, now, []);
        buffers := buffers + [buf];
        EvictIfFull();
      } else {
        var buf := buffers[i].(lastEvent := now);
        buffers := Without(buffers, i) + [buf];
      }
    }

    method EvictIfFull()
      modifies this
      ensures var n := if |old(buffers)| > config.maxSessions then |old(buffers)| - config.maxSessions else 0;
        buffers == old(buffers)[n..] && out == old(out) + old(buffers)[..n]
    {
      ghost var n := 0;
      while |buffers| > config.maxSessions
        invariant n <= |old(buffers)| && buffers == old(buffers)[n..] && out == old(out) + old(buffers)[..n]
        invariant n > 0 ==> |buffers| >= config.maxSessions
      {
        out := out + [buffers[0]];
        buffers := buffers[1..];
        n := n + 1;
      }
    }

    method DrainIdleBuffers(now: real) returns (result: seq<SessionBuffer>)
      requires Valid()
      modifies this
      ensures Valid() && Current() == Step(config, old(Current()), DrainIdle(now))
      ensures result == old(buffers)[..StaleCount(config, old(buffers), now)]
    {
      ghost var before, n := buffers, StaleCount(config, buffers, now);
      var k := 0;
      while k < |buffers|
        invariant 0 <= k <= n
      {
        if !Stale(config, buffers[k], now) { break; }
        k := k + 1;
      }
      result := [];
      var dropped := 0;
      while dropped < k
        invariant 0 <= dropped <= k && out == old(out) && buffers == before[dropped..] && result == before[..dropped]
      {
        result := result + [buffers[0]];
        buffers := buffers[1..];
        dropped := dropped + 1;
      }
      out := out + result;
      assert k == n;
      DistinctSlice(before, n, |before|);
    }

    method DrainAllBuffers() returns (result: seq<SessionBuffer>)
      requires Valid()
      modifies this
      ensures Valid() && Current() == Step(config, old(Current()), DrainAll)
      ensures result == old(buffers)
    {
      result := [];
      ghost var before := buffers;
      while buffers != []
        invariant before == result + buffers && out == old(out) + result
        decreases |buffers|
      {
        result := result + [buffers[0]];
        out := out + [buffers[0]];
        buffers := buffers[1..];
      }
    }
  }

  // ---- at most one buffer a session ---------------------------------------------

  predicate Distinct(bs: Buffers) {
    forall i, j :: 0 <= i < j < |bs| ==> bs[i].sid != bs[j].sid
  }

  lemma DistinctAfterTouch(bs: Buffers, env: Envelope, now: real)
    requires Distinct(bs)
    ensures var (others, buf) := Touched(bs, env, now);
      && Distinct(others + [buf]) && buf.sid == env.sid
      && (forall b :: b in others ==> b.sid != env.sid)
  {
    hide Distinct, Without;
    var i := IndexOf(bs, env.sid);
    var (others, buf) := Touched(bs, env, now);
    if i >= 0 {
      DistinctWithout(bs, i);
    }
    DistinctAppend(others, buf);
  }

  lemma DistinctWithout(bs: Buffers, i: nat)
    requires i < |bs| && Distinct(bs)
    ensures Distinct(Without(bs, i)) && forall b :: b in Without(bs, i) ==> b.sid != bs[i].sid
  {
  }

  lemma DistinctAppend(others: Buffers, buf: SessionBuffer)
    requires Distinct(others) && forall b :: b in others ==> b.sid != buf.sid
    ensures Distinct(others + [buf])
  {
  }

  lemma DistinctSlice(bs: Buffers, lo: nat, hi: nat)
    requires lo <= hi <= |bs| && Distinct(bs)
    ensures Distinct(bs[lo..hi])
  {
  }

  lemma DistinctWithLast(bs: Buffers, buf: SessionBuffer)
    requires bs != [] && Distinct(bs) && buf.sid == bs[|bs| - 1].sid
    ensures Distinct(bs[..|bs| - 1]) && Distinct(bs[..|bs| - 1] + [buf])
  {
  }

  lemma DistinctTail(others: Buffers, buf: SessionBuffer, full: SessionBuffer, n: nat)
    requires n <= |others| && Distinct(others + [buf]) && full.sid == buf.sid
    ensures Distinct(others[n..]) && Distinct(others[n..] + [full])
  {
    hide Distinct;
    var all := others + [buf];
    DistinctSlice(all, n, |all|);
    assert all[n..|all|] == others[n..] + [buf];
    DistinctWithLast(others[n..] + [buf], full);
    assert (others[n..] + [buf])[..|others| - n] == others[n..];
  }

  lemma SplitAtLast(others: Buffers, buf: SessionBuffer, n: nat)
    requires n <= |others| + 1
    ensures n <= |others| ==>
      (others + [buf])[n..] == others[n..] + [buf] && (others + [buf])[..n] == others[..n]
    ensures n > |others| ==> (others + [buf])[n..] == [] && (others + [buf])[..n] == others + [buf]
  {
  }
}
