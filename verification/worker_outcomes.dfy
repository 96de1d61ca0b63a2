/** What each step of the worker's main loop does, in terms of how its database and Redis calls end. */
module WorkerOutcomes {
  import opened Bytes
  import opened Aggregator
  import opened AggregatorRuns
  import opened AggregatorHistory
  import opened Worker

  // ---- what the aggregator is given --------------------------------------------------

  /** The calls of the aggregator in a run of the worker: malformed entries cause none. */
  function Calls(ops: seq<WOp>): seq<Op> {
    if ops == [] then []
    else
      var before := Calls(ops[..|ops| - 1]);
      match ops[|ops| - 1]
      case Entry(_, env, now, _) => if env.Some? then before + [Ingest(env.value, now)] else before
      case Idle(now, _) => before + [DrainIdle(now)]
      case Shutdown(_) => before + [DrainAll]
  }

  lemma {:induction false} FlushAllKeepsAgg(ws: WState, bufs: seq<SessionBuffer>, fates: Sid -> Fate)
    ensures FlushAll(ws, bufs, fates).agg == ws.agg
    decreases |bufs|
  {
    if bufs == [] {
    } else {
      FlushAllKeepsAgg(FlushStep(ws, bufs[0], fates(bufs[0].sid)), bufs[1..], fates);
    }
  }

  lemma RunMore(cfg: Config, ops: seq<Op>, op: Op)
    ensures Run(cfg, ops + [op]) == Step(cfg, Run(cfg, ops), op)
  {
    assert (ops + [op])[..|ops|] == ops;
  }

  lemma WStepFeeds(cfg: Config, ws: WState, op: WOp)
    ensures WStep(cfg, ws, op).agg == match op
      case Entry(_, env, now, _) => (if env.Some? then Step(cfg, ws.agg, Ingest(env.value, now)) else ws.agg)
      case Idle(now, _) => Step(cfg, ws.agg, DrainIdle(now))
      case Shutdown(_) => Step(cfg, ws.agg, DrainAll)
  {
    hide IngestStep, FlushAll, Touched, Overflow, IngestResult, StaleCount, EvictAll;
    match op {
      case Entry(_, _, _, _) =>
      case Idle(now, fates) =>
        var n := StaleCount(cfg, ws.agg.buffers, now);
        FlushAllKeepsAgg(ws.(agg := Step(cfg, ws.agg, DrainIdle(now))), ws.agg.buffers[..n], fates);
      case Shutdown(fates) =>
        FlushAllKeepsAgg(ws.(agg := Step(cfg, ws.agg, DrainAll)), ws.agg.buffers, fates);
    }
  }

  /** In every run of the worker its aggregator is in the state that those calls lead to, so that all that is
      proved of aggregator runs holds of it. */
  lemma {:induction false} FeedsAggregator(cfg: Config, ops: seq<WOp>)
    ensures WRun(cfg, ops).agg == Run(cfg, Calls(ops))
  {
    hide WStep, Step;
    if ops == [] {
    } else {
      var init, op := ops[..|ops| - 1], ops[|ops| - 1];
      FeedsAggregator(cfg, init);
      WStepFeeds(cfg, WRun(cfg, init), op);
      match op {
        case Entry(_, env, now, _) => if env.Some? { RunMore(cfg, Calls(init), Ingest(env.value, now)); }
        case Idle(now, _) => RunMore(cfg, Calls(init), DrainIdle(now));
        case Shutdown(_) => RunMore(cfg, Calls(init), DrainAll);
      }
    }
  }

  // ---- one entry ----------------------------------------------------------------------

  /** A malformed entry is acknowledged at once unless XACK fails, and leaves everything else alone. */
  lemma MalformedDecides(cfg: Config, ws: WState, id: EntryId, now: real, fate: Fate)
    ensures var ws' := WStep(cfg, ws, Entry(id, None, now, fate));
      && ws'.agg == ws.agg && ws'.pending == ws.pending && ws'.persisted == ws.persisted
      && ws'.acked == if fate == AckError then ws.acked else ws.acked + [id]
  {
  }

  /** The database holds one more buffer with these events of the session, or nothing more if there are none. */
  predicate Saved(db: seq<SessionBuffer>, db': seq<SessionBuffer>, sid: Sid, events: seq<Envelope>) {
    if events == [] then db' == db
    else |db'| == |db| + 1 && db'[..|db|] == db && db'[|db|].sid == sid && db'[|db|].events == events
  }

  /** A decoded entry is tracked. Only when its event closes its session or fills the buffer does the session
      leave the tracking; then its buffered events are in the database unless the persist raised, and its
      ids, this one included, are acknowledged exactly when neither call failed. */
  lemma EntryDecides(cfg: Config, ops: seq<WOp>, id: EntryId, env: Envelope, now: real, fate: Fate)
    requires cfg.maxSessions >= 1
    ensures var (ws, ws') := (WRun(cfg, ops), WRun(cfg, ops + [Entry(id, Some(env), now, fate)]));
      var (ids, events) := (PendingOf(ws.pending, env.sid) + [id], EventsOf(ws.agg.buffers, env.sid) + [env]);
      && (forall sid :: sid != env.sid ==> PendingOf(ws'.pending, sid) == PendingOf(ws.pending, sid))
      && if env.eventType == SessionClose || |events| >= cfg.maxEvents then
           && PendingOf(ws'.pending, env.sid) == []
           && ws'.acked == (if fate == Acked then ws.acked + ids else ws.acked)
           && Saved(ws.persisted, ws'.persisted, env.sid, if fate == PersistError then [] else events)
         else PendingOf(ws'.pending, env.sid) == ids && ws'.acked == ws.acked && ws'.persisted == ws.persisted
  {
    hide Run, WRun, WStep, IngestResult, EventsOf, PendingOf, Saved;
    FeedsAggregator(cfg, ops);
    ReturnedIff(cfg, Calls(ops), env, now);
    WRunMore(cfg, ops, Entry(id, Some(env), now, fate));
    EntryStep(cfg, WRun(cfg, ops), id, env, now, fate);
  }

  lemma WRunMore(cfg: Config, ops: seq<WOp>, op: WOp)
    ensures WRun(cfg, ops + [op]) == WStep(cfg, WRun(cfg, ops), op)
  {
    assert (ops + [op])[..|ops|] == ops;
  }

  /** The step by what the aggregator hands over. */
  lemma EntryStep(cfg: Config, ws: WState, id: EntryId, env: Envelope, now: real, fate: Fate)
    requires var r := IngestResult(cfg, ws.agg.buffers, env, now); r.Some? ==> r.value.sid == env.sid && r.value.events != []
    ensures var (ws', r) := (WStep(cfg, ws, Entry(id, Some(env), now, fate)), IngestResult(cfg, ws.agg.buffers, env, now));
      var ids := PendingOf(ws.pending, env.sid) + [id];
      && (forall sid :: sid != env.sid ==> PendingOf(ws'.pending, sid) == PendingOf(ws.pending, sid))
      && if r.Some? then
           && PendingOf(ws'.pending, env.sid) == []
           && ws'.acked == (if fate == Acked then ws.acked + ids else ws.acked)
           && Saved(ws.persisted, ws'.persisted, env.sid, if fate == PersistError then [] else r.value.events)
         else PendingOf(ws'.pending, env.sid) == ids && ws'.acked == ws.acked && ws'.persisted == ws.persisted
  {
    hide IngestResult, IngestStep, Touched, Overflow, EvictAll, Settle;
  }

  // ---- a drain ---------------------------------------------------------------------------

  predicate DistinctSids(bufs: seq<SessionBuffer>) {
    forall i, j :: 0 <= i < j < |bufs| ==> bufs[i].sid != bufs[j].sid
  }

  predicate Flushes(bufs: seq<SessionBuffer>, sid: Sid) {
    exists b :: b in bufs && b.sid == sid
  }

  /** What flushing some buffers leaves: their sessions are not tracked any more; of each, the ids are
      acknowledged exactly when both of its calls succeed, and the buffer is in the database unless its
      persist raises. */
  ghost predicate FlushedAll(ws: WState, ws': WState, bufs: seq<SessionBuffer>, fates: Sid -> Fate) {
    && (forall sid :: PendingOf(ws'.pending, sid) == if Flushes(bufs, sid) then [] else PendingOf(ws.pending, sid))
    && (forall id :: id in ws'.acked <==>
          id in ws.acked || exists b :: b in bufs && fates(b.sid) == Acked && id in PendingOf(ws.pending, b.sid))
    && (forall b :: b in ws'.persisted <==> b in ws.persisted || (b in bufs && fates(b.sid) != PersistError))
  }

  lemma FlushFirst(ws: WState, mid: WState, ws': WState, bufs: seq<SessionBuffer>, fates: Sid -> Fate)
    requires bufs != [] && bufs[0].events != [] && DistinctSids(bufs)
    requires mid == FlushStep(ws, bufs[0], fates(bufs[0].sid)) && FlushedAll(mid, ws', bufs[1..], fates)
    ensures FlushedAll(ws, ws', bufs, fates)
  {
    hide Settle;
    var b0 := bufs[0];
    assert forall b :: b in bufs <==> b == b0 || b in bufs[1..];
    forall b | b in bufs[1..] ensures b.sid != b0.sid && PendingOf(mid.pending, b.sid) == PendingOf(ws.pending, b.sid) {
    }
    forall sid ensures Flushes(bufs, sid) <==> sid == b0.sid || Flushes(bufs[1..], sid) {
    }
  }

  lemma {:induction false} FlushAllDecides(ws: WState, bufs: seq<SessionBuffer>, fates: Sid -> Fate)
    requires DistinctSids(bufs) && forall b :: b in bufs ==> b.events != []
    ensures FlushedAll(ws, FlushAll(ws, bufs, fates), bufs, fates)
    decreases |bufs|
  {
    hide FlushedAll, FlushStep;
    if bufs == [] {
      NoneFlushed(ws, fates);
    } else {
      var mid := FlushStep(ws, bufs[0], fates(bufs[0].sid));
      FlushAllDecides(mid, bufs[1..], fates);
      FlushFirst(ws, mid, FlushAll(mid, bufs[1..], fates), bufs, fates);
    }
  }

  lemma NoneFlushed(ws: WState, fates: Sid -> Fate)
    ensures FlushedAll(ws, ws, [], fates)
  {
  }

  lemma FlushedFrame(ws: WState, agg: State, ws': WState, bufs: seq<SessionBuffer>, fates: Sid -> Fate)
    requires FlushedAll(ws.(agg := agg), ws', bufs, fates)
    ensures FlushedAll(ws, ws', bufs, fates)
  {
  }

  /** In every run, an idle drain flushes the stale buffers in front and the shutdown all of them. */
  lemma DrainDecides(cfg: Config, ops: seq<WOp>, now: real, fates: Sid -> Fate)
    requires cfg.maxSessions >= 1
    ensures var (ws, n) := (WRun(cfg, ops), StaleCount(cfg, WRun(cfg, ops).agg.buffers, now));
      && FlushedAll(ws, WStep(cfg, ws, Idle(now, fates)), ws.agg.buffers[..n], fates)
      && FlushedAll(ws, WStep(cfg, ws, Shutdown(fates)), ws.agg.buffers, fates)
  {
    hide Run, WRun, StaleCount, FlushAll, FlushedAll, Flushable, Step;
    FeedsAggregator(cfg, ops);
    LiveFlushable(cfg, Calls(ops));
    var (ws, bs) := (WRun(cfg, ops), WRun(cfg, ops).agg.buffers);
    var n := StaleCount(cfg, bs, now);
    FrontFlushable(bs, n);
    FlushSome(ws, Step(cfg, ws.agg, DrainIdle(now)), bs[..n], fates);
    FlushSome(ws, Step(cfg, ws.agg, DrainAll), bs, fates);
  }

  predicate Flushable(bufs: seq<SessionBuffer>) {
    DistinctSids(bufs) && forall b :: b in bufs ==> b.events != []
  }

  lemma LiveFlushable(cfg: Config, ops: seq<Op>)
    requires cfg.maxSessions >= 1
    ensures Flushable(Run(cfg, ops).buffers)
  {
    RunHealthy(cfg, ops);
    var bs := Run(cfg, ops).buffers;
    hide Run;
    forall b | b in bs ensures b.events != [] {
      assert LiveBuffer(cfg, b);
    }
  }

  lemma FrontFlushable(bs: seq<SessionBuffer>, n: nat)
    requires Flushable(bs) && n <= |bs|
    ensures Flushable(bs[..n])
  {
    assert forall b :: b in bs[..n] ==> b in bs;
  }

  lemma FlushSome(ws: WState, agg: State, bufs: seq<SessionBuffer>, fates: Sid -> Fate)
    requires Flushable(bufs)
    ensures FlushedAll(ws, FlushAll(ws.(agg := agg), bufs, fates), bufs, fates)
  {
    hide FlushAll, FlushedAll;
    FlushAllDecides(ws.(agg := agg), bufs, fates);
    FlushedFrame(ws, agg, FlushAll(ws.(agg := agg), bufs, fates), bufs, fates);
  }
}
