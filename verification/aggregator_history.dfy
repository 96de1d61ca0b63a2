/** What a run of the session aggregator does, in terms of the events it was given. */
module AggregatorHistory {
  import opened Bytes
  import opened Aggregator
  import opened AggregatorRuns

  lemma {:induction false} EventsOfBuffer(bs: Buffers, b: SessionBuffer)
    requires Distinct(bs) && b in bs
    ensures EventsOf(bs, b.sid) == b.events
  {
    var i :| 0 <= i < |bs| && bs[i] == b;
    WithoutKeepsEvents(bs, i, b.sid);
  }

  /** The buffer of the event's session holds that session's buffered events. */
  lemma TouchedEvents(bs: Buffers, env: Envelope, now: real)
    requires Distinct(bs)
    ensures Touched(bs, env, now).1.events == EventsOf(bs, env.sid)
    ensures Touched(bs, env, now).1.sid == env.sid
  {
    hide EventsOf, Without, Distinct;
    TouchKeepsEvents(bs, env, now, env.sid);
    assert [] + Touched(bs, env, now).1.events == Touched(bs, env, now).1.events;
  }

  // ---- when a buffer is handed over ------------------------------------------------

  /** In every run, `ingest` hands a buffer over exactly when the event closes its session or fills the
      buffer; the buffer then holds the session's buffered events and this one. */
  lemma ReturnedIff(cfg: Config, ops: seq<Op>, env: Envelope, now: real)
    requires cfg.maxSessions >= 1
    ensures var (bs, r) := (Run(cfg, ops).buffers, IngestResult(cfg, Run(cfg, ops).buffers, env, now));
      && (r.Some? <==> env.eventType == SessionClose || |EventsOf(bs, env.sid)| + 1 >= cfg.maxEvents)
      && (r.Some? ==> r.value.sid == env.sid && r.value.events == EventsOf(bs, env.sid) + [env])
  {
    RunDistinct(cfg, ops);
    var bs := Run(cfg, ops).buffers;
    TouchedEvents(bs, env, now);
    OverflowLeavesRoom(cfg, bs, env, now);
    hide Run, Touched, Overflow, EventsOf, Distinct;
    var events := EventsOf(bs, env.sid) + [env];
    assert events[|events| - 1] == env;
  }

  // ---- what a new session pushes out -------------------------------------------------

  predicate Buffered(bs: Buffers, sid: Sid) {
    exists b :: b in bs && b.sid == sid
  }

  lemma BufferedIndex(bs: Buffers, sid: Sid)
    ensures Buffered(bs, sid) <==> IndexOf(bs, sid) != -1
  {
    var i := IndexOf(bs, sid);
    if i != -1 {
      assert bs[i] in bs;
    }
  }

  /** In every run: only a session that has no buffer pushes one out, only when the buffers are at their
      cap, and it is the one at the front. */
  lemma EvictsTheOldest(cfg: Config, ops: seq<Op>, env: Envelope, now: real)
    requires cfg.maxSessions >= 1
    ensures var (s, s') := (Run(cfg, ops), Run(cfg, ops + [Ingest(env, now)]));
      var r := IngestResult(cfg, s.buffers, env, now);
      var full := !Buffered(s.buffers, env.sid) && |s.buffers| == cfg.maxSessions;
      s'.out == s.out + (if full then [s.buffers[0]] else []) + (if r.Some? then [r.value] else [])
  {
    var s := Run(cfg, ops);
    assert (ops + [Ingest(env, now)])[..|ops|] == ops;
    RunHealthy(cfg, ops);
    BufferedIndex(s.buffers, env.sid);
    TouchedFront(s.buffers, env, now);
    hide Touched, IndexOf, Ready, LiveBuffer, Unmixed, Distinct;
    var n := Overflow(cfg, s.buffers, env.sid);
    var others := Touched(s.buffers, env, now).0;
    assert n <= 1 && n <= |others|;
    assert others[..n] == if n == 1 then [others[0]] else [];
  }

  lemma TouchedFront(bs: Buffers, env: Envelope, now: real)
    ensures IndexOf(bs, env.sid) == -1 ==> Touched(bs, env, now).0 == bs
  {
  }

  // ---- time and origin -------------------------------------------------------------

  /** When the session's last event was given to `ingest`. */
  function LastSeen(ops: seq<Op>, sid: Sid): Option<real> {
    if ops == [] then None
    else
      var op := ops[|ops| - 1];
      if op.Ingest? && op.env.sid == sid then Some(op.now) else LastSeen(ops[..|ops| - 1], sid)
  }

  predicate Seen(ops: seq<Op>, bs: Buffers) {
    forall b :: b in bs ==> LastSeen(ops, b.sid) == Some(b.lastEvent)
  }

  lemma TouchedOthers(bs: Buffers, env: Envelope, now: real)
    requires Distinct(bs)
    ensures var (others, buf) := Touched(bs, env, now);
      && buf.lastEvent == now && buf.sid == env.sid
      && forall b :: b in others ==> b in bs && b.sid != env.sid
  {
    var i := IndexOf(bs, env.sid);
    if i >= 0 {
      forall b | b in Without(bs, i) ensures b in bs && b.sid != env.sid {
        assert b in bs[..i] || b in bs[i + 1..];
      }
    }
  }

  lemma IngestSeen(cfg: Config, s: State, ops: seq<Op>, env: Envelope, now: real)
    requires Distinct(s.buffers) && Seen(ops, s.buffers)
    ensures Seen(ops + [Ingest(env, now)], IngestStep(cfg, s, env, now).buffers)
  {
    var ops' := ops + [Ingest(env, now)];
    assert ops'[..|ops|] == ops;
    TouchedOthers(s.buffers, env, now);
    var (others, buf) := Touched(s.buffers, env, now);
    hide Touched, Ready, Distinct;
    var n := Overflow(cfg, s.buffers, env.sid);
    if n <= |others| {
      forall b | b in others[n..] ensures LastSeen(ops', b.sid) == Some(b.lastEvent) {
        assert b in others;
      }
    }
  }

  lemma {:induction false} RunSeen(cfg: Config, ops: seq<Op>)
    ensures Seen(ops, Run(cfg, ops).buffers)
  {
    hide IngestStep, Distinct, Seen, StaleCount;
    if ops == [] {
      NoneSeen();
    } else {
      var init, op := ops[..|ops| - 1], ops[|ops| - 1];
      RunSeen(cfg, init);
      RunDistinct(cfg, init);
      assert ops == init + [op];
      if op.Ingest? {
        IngestSeen(cfg, Run(cfg, init), init, op.env, op.now);
      } else {
        DrainSeen(init, op, Run(cfg, init).buffers, Run(cfg, ops).buffers);
      }
    }
  }

  lemma NoneSeen()
    ensures Seen([], [])
  {
  }

  lemma DrainSeen(ops: seq<Op>, op: Op, bs: Buffers, bs': Buffers)
    requires Seen(ops, bs) && !op.Ingest? && forall b :: b in bs' ==> b in bs
    ensures Seen(ops + [op], bs')
  {
    assert (ops + [op])[..|ops|] == ops;
  }

  /** With a clock that never runs backwards, an idle drain hands over exactly the sessions whose last
      event lies more than the timeout back. */
  lemma DrainedIff(cfg: Config, ops: seq<Op>, now: real, i: nat)
    requires OrderedUpTo(ops, now) && i < |Run(cfg, ops).buffers|
    ensures var bs := Run(cfg, ops).buffers;
      && LastSeen(ops, bs[i].sid).Some?
      && (i < StaleCount(cfg, bs, now) <==> now - LastSeen(ops, bs[i].sid).value > cfg.idleTimeout)
  {
    hide Run, Seen, ByRecency, LastSeen, StaleCount;
    RunSeen(cfg, ops);
    RunByRecency(cfg, ops, now);
    SeenAt(ops, Run(cfg, ops).buffers, i);
    StaleIff(cfg, Run(cfg, ops).buffers, now, i);
  }

  lemma SeenAt(ops: seq<Op>, bs: Buffers, i: nat)
    requires Seen(ops, bs) && i < |bs|
    ensures LastSeen(ops, bs[i].sid) == Some(bs[i].lastEvent)
  {
    hide LastSeen;
    assert bs[i] in bs;
  }

  /** In buffers ordered by their last event, the stale ones are those in front. */
  lemma StaleIff(cfg: Config, bs: Buffers, now: real, i: nat)
    requires ByRecency(bs, now) && i < |bs|
    ensures i < StaleCount(cfg, bs, now) <==> now - bs[i].lastEvent > cfg.idleTimeout
  {
    var n := StaleCount(cfg, bs, now);
    hide StaleCount;
    if n <= i {
      assert bs[n].lastEvent <= bs[i].lastEvent;
    }
  }

  /** A buffer's header is that of its first event, and it was opened when that event came. */
  predicate Opened(ops: seq<Op>, b: SessionBuffer) {
    && b.events != []
    && b.service == b.events[0].service && b.srcIp == b.events[0].srcIp && b.srcPort == b.events[0].srcPort
    && exists k :: 0 <= k < |ops| && ops[k] == Ingest(b.events[0], b.startedAt)
  }

  lemma OpenedLater(ops: seq<Op>, op: Op, b: SessionBuffer)
    requires Opened(ops, b)
    ensures Opened(ops + [op], b)
  {
    var k :| 0 <= k < |ops| && ops[k] == Ingest(b.events[0], b.startedAt);
    assert (ops + [op])[k] == ops[k];
  }

  lemma TouchedOpened(bs: Buffers, ops: seq<Op>, env: Envelope, now: real)
    requires forall b :: b in bs ==> Opened(ops, b)
    ensures var (others, buf) := Touched(bs, env, now);
      && (forall b :: b in others ==> b in bs)
      && Opened(ops + [Ingest(env, now)], buf.(events := buf.events + [env]))
  {
    var i, op := IndexOf(bs, env.sid), Ingest(env, now);
    var buf := Touched(bs, env, now).1;
    var full := buf.(events := buf.events + [env]);
    if i >= 0 {
      OpenedLater(ops, op, bs[i]);
      var k :| 0 <= k < |ops + [op]| && (ops + [op])[k] == Ingest(bs[i].events[0], bs[i].startedAt);
      assert full.events[0] == bs[i].events[0];
    } else {
      assert (ops + [op])[|ops|] == Ingest(full.events[0], full.startedAt);
    }
  }

  lemma IngestOpened(cfg: Config, s: State, ops: seq<Op>, env: Envelope, now: real)
    requires cfg.maxSessions >= 1 && forall b :: b in s.buffers + s.out ==> Opened(ops, b)
    ensures var s' := IngestStep(cfg, s, env, now);
      forall b :: b in s'.buffers + s'.out ==> Opened(ops + [Ingest(env, now)], b)
  {
    hide Opened, Touched, Overflow, Ready;
    forall b | b in s.buffers ensures Opened(ops, b) { assert b in s.buffers + s.out; }
    forall b | b in s.out ensures Opened(ops, b) { assert b in s.buffers + s.out; }
    TouchedOpened(s.buffers, ops, env, now);
    OverflowLeavesRoom(cfg, s.buffers, env, now);
    var s', op := IngestStep(cfg, s, env, now), Ingest(env, now);
    var (others, buf) := Touched(s.buffers, env, now);
    forall b | b in s'.buffers + s'.out ensures Opened(ops + [op], b) {
      if b != buf.(events := buf.events + [env]) {
        assert b in others || b in s.out;
        OpenedLater(ops, op, b);
      }
    }
  }

  /** In every run, every buffer, live or gone, carries the service and source of its first event and
      the time at which that event came. */
  lemma {:induction false} RunOpened(cfg: Config, ops: seq<Op>)
    requires cfg.maxSessions >= 1
    ensures var s := Run(cfg, ops); forall b :: b in s.buffers + s.out ==> Opened(ops, b)
  {
    hide IngestStep, Opened;
    if ops == [] {
    } else {
      var init, op := ops[..|ops| - 1], ops[|ops| - 1];
      var s := Run(cfg, init);
      RunOpened(cfg, init);
      assert ops == init + [op];
      if op.Ingest? {
        IngestOpened(cfg, s, init, op.env, op.now);
      } else {
        forall b | b in Run(cfg, ops).buffers + Run(cfg, ops).out ensures Opened(ops, b) {
          assert b in s.buffers + s.out;
          OpenedLater(init, op, b);
        }
      }
    }
  }
}
