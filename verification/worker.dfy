/** The intel worker around the aggregator (workers/intel/fingerprint.py): which stream entries it
    tracks, persists and acknowledges. Persistence and XACK are oracles that succeed or fail. */
module Worker {
  import opened Bytes
  import opened Aggregator

  type EntryId = string

  /** How one flush ends: both calls succeed, the persist raises, or only the XACK fails. */
  datatype Fate = Acked | PersistError | AckError

  // ---- the abstract ledger: one record a delivered entry ----------------------------

  datatype Status = Tracked | Settled(fate: Fate)

  /** Where the entry's event is: buffered, handed over in a flush, evicted, or never decoded. */
  datatype Place = Live | Flushed(fate: Fate) | Evicted | Malformed

  datatype Record = Record(id: EntryId, env: Option<Envelope>, status: Status, place: Place)

  predicate Of(r: Record, sid: Sid) {
    r.env.Some? && r.env.value.sid == sid
  }

  function Settle(ledger: seq<Record>, sid: Sid, fate: Fate): (r: seq<Record>)
    ensures |r| == |ledger|
  {
    seq(|ledger|, i requires 0 <= i < |ledger| => SettleOne(ledger[i], sid, fate))
  }

  function SettleOne(r: Record, sid: Sid, fate: Fate): Record {
    if !Of(r, sid) then r
    else r.(status := if r.status == Tracked then Settled(fate) else r.status,
            place := if r.place == Live then Flushed(fate) else r.place)
  }

  function Evict(ledger: seq<Record>, sid: Sid): (r: seq<Record>)
    ensures |r| == |ledger|
  {
    seq(|ledger|, i requires 0 <= i < |ledger| => EvictOne(ledger[i], sid))
  }

  function EvictOne(r: Record, sid: Sid): Record {
    if Of(r, sid) && r.place == Live then r.(place := Evicted) else r
  }

  function EvictAll(ledger: seq<Record>, bufs: seq<SessionBuffer>): seq<Record>
    decreases |bufs|
  {
    if bufs == [] then ledger else EvictAll(Evict(ledger, bufs[0].sid), bufs[1..])
  }

  // ---- the worker's state and steps ----------------------------------------------------

  /** `acked` is what XACK has been told; `persisted` the buffers that reached the database. */
  datatype WState = WState(
    agg: State, pending: map<Sid, seq<EntryId>>,
    acked: seq<EntryId>, persisted: seq<SessionBuffer>, ledger: seq<Record>)

  /** One step of the main loop. `fates` says how the flush of each drained session will end. */
  datatype WOp =
    | Entry(id: EntryId, env: Option<Envelope>, now: real, fate: Fate)
    | Idle(now: real, fates: Sid -> Fate)
    | Shutdown(fates: Sid -> Fate)

  function PendingOf(pending: map<Sid, seq<EntryId>>, sid: Sid): seq<EntryId> {
    if sid in pending then pending[sid] else []
  }

  /** The fate of an acknowledgement that no persist precedes. */
  function AckOnly(fate: Fate): Fate {
    if fate == AckError then AckError else Acked
  }

  function AckStep(acked: seq<EntryId>, ids: seq<EntryId>, fate: Fate): seq<EntryId> {
    if fate == Acked then acked + ids else acked
  }

  function FlushFate(buf: SessionBuffer, fate: Fate): Fate {
    if buf.events == [] then AckOnly(fate) else fate
  }

  function FlushStep(ws: WState, buf: SessionBuffer, fate: Fate): WState {
    var f := FlushFate(buf, fate);
    ws.(pending := ws.pending - {buf.sid},
        acked := AckStep(ws.acked, PendingOf(ws.pending, buf.sid), f),
        persisted := if f == PersistError || buf.events == [] then ws.persisted else ws.persisted + [buf],
        ledger := Settle(ws.ledger, buf.sid, f))
  }

  function FlushAll(ws: WState, bufs: seq<SessionBuffer>, fates: Sid -> Fate): WState
    decreases |bufs|
  {
    if bufs == [] then ws
    else FlushAll(FlushStep(ws, bufs[0], fates(bufs[0].sid)), bufs[1..], fates)
  }

  /** Tracking a decoded entry and handing its event to the aggregator. */
  function DeliverStep(cfg: Config, ws: WState, id: EntryId, env: Envelope, now: real): WState {
    var (others, buf) := Touched(ws.agg.buffers, env, now);
    var evicted := (others + [buf])[..Overflow(cfg, ws.agg.buffers, env.sid)];
    ws.(agg := IngestStep(cfg, ws.agg, env, now),
        pending := ws.pending[env.sid := PendingOf(ws.pending, env.sid) + [id]],
        ledger := EvictAll(ws.ledger + [Record(id, Some(env), Tracked, Live)], evicted))
  }

  function WStep(cfg: Config, ws: WState, op: WOp): WState {
    match op
    case Entry(id, None, now, fate) =>
      ws.(acked := AckStep(ws.acked, [id], AckOnly(fate)),
          ledger := ws.ledger + [Record(id, None, Settled(AckOnly(fate)), Malformed)])
    case Entry(id, Some(env), now, fate) =>
      var delivered := DeliverStep(cfg, ws, id, env, now);
      (match IngestResult(cfg, ws.agg.buffers, env, now)
       case None => delivered
       case Some(buf) => FlushStep(delivered, buf, fate))
    case Idle(now, fates) =>
      var n := StaleCount(cfg, ws.agg.buffers, now);
      FlushAll(ws.(agg := Step(cfg, ws.agg, DrainIdle(now))), ws.agg.buffers[..n], fates)
    case Shutdown(fates) =>
      FlushAll(ws.(agg := Step(cfg, ws.agg, DrainAll)), ws.agg.buffers, fates)
  }

  function WRun(cfg: Config, ops: seq<WOp>): WState {
    if ops == [] then WState(State([], []), map[], [], [], [])
    else WStep(cfg, WRun(cfg, ops[..|ops| - 1]), ops[|ops| - 1])
  }

  const DEFAULTS := Config(90.0, 5000, 10_000)

  // ---- the worker as written -----------------------------------------------------------

  class FingerprintWorker {
    const aggregator: SessionAggregator
    var pending: map<Sid, seq<EntryId>>
    ghost var acked: seq<EntryId>
    ghost var persisted: seq<SessionBuffer>
    ghost var ledger: seq<Record>

    ghost predicate Valid()
      reads this, aggregator
    {
      aggregator.Valid()
    }

    ghost function Current(): WState
      reads this, aggregator
    {
      WState(aggregator.Current(), pending, acked, persisted, ledger)
    }

    /** `aggregator or SessionAggregator()`: an empty aggregator has length 0 and counts as absent, so
        that one with the default limits takes its place. */
    constructor (injected: SessionAggregator?)
      requires injected != null ==> injected.Valid()
      ensures Valid() && pending == map[] && acked == [] && persisted == [] && ledger == []
      ensures injected != null && injected.buffers != [] ==> aggregator == injected
      ensures injected == null || injected.buffers == [] ==>
        fresh(aggregator) && aggregator.config == Config(90.0, 5000, 10_000) && Current() == WRun(DEFAULTS, [])
    {
      var made := new SessionAggregator(DEFAULTS);
      aggregator := if injected != null && injected.buffers != [] then injected else made;
      pending, acked, persisted, ledger := map[], [], [], [];
    }

    /** `env` is the decoded entry, None when decoding raised. */
    method IngestEntry(id: EntryId, env: Option<Envelope>, now: real, fate: Fate)
      requires Valid()
      modifies this, aggregator
      ensures Valid() && Current() == WStep(aggregator.config, old(Current()), Entry(id, env, now, fate))
    {
      if env == None {
        Ack([id], AckOnly(fate));
        ledger := ledger + [Record(id, None, Settled(AckOnly(fate)), Malformed)];
        return;
      }
      var envelope := env.value;
      ghost var (others, touched) := Touched(aggregator.buffers, envelope, now);
      ghost var evicted := (others + [touched])[..Overflow(aggregator.config, aggregator.buffers, envelope.sid)];
      pending := pending[envelope.sid := PendingOf(pending, envelope.sid) + [id]];
      ledger := EvictAll(ledger + [Record(id, env, Tracked, Live)], evicted);
      var buf := aggregator.IngestEvent(envelope, now);
      if buf.Some? {
        Flush(buf.value, fate);
      }
    }

    method DrainIdle(now: real, fates: Sid -> Fate)
      requires Valid()
      modifies this, aggregator
      ensures Valid() && Current() == WStep(aggregator.config, old(Current()), Idle(now, fates))
    {
      var bufs := aggregator.DrainIdleBuffers(now);
      FlushEach(bufs, fates);
    }

    method DrainOnShutdown(fates: Sid -> Fate)
      requires Valid()
      modifies this, aggregator
      ensures Valid() && Current() == WStep(aggregator.config, old(Current()), Shutdown(fates))
    {
      var bufs := aggregator.DrainAllBuffers();
      FlushEach(bufs, fates);
    }

    /** The `for buf in ...: await self._flush(buf)` of both drains. */
    method FlushEach(bufs: seq<SessionBuffer>, fates: Sid -> Fate)
      modifies this
      ensures Current() == FlushAll(old(Current()), bufs, fates)
    {
      ghost var before := Current();
      var i := 0;
      while i < |bufs|
        invariant 0 <= i <= |bufs|
        invariant FlushAll(Current(), bufs[i..], fates) == FlushAll(before, bufs, fates)
      {
        Flush(bufs[i], fates(bufs[i].sid));
        assert bufs[i..][1..] == bufs[i + 1..];
        i := i + 1;
      }
    }

    method Flush(buf: SessionBuffer, fate: Fate)
      modifies this
      ensures Current() == FlushStep(old(Current()), buf, fate)
    {
      var ids := PendingOf(pending, buf.sid);
      pending := pending - {buf.sid};
      ledger := Settle(ledger, buf.sid, FlushFate(buf, fate));
      if buf.events == [] {
        Ack(ids, AckOnly(fate));
        return;
      }
      if fate == PersistError { return; }
      persisted := persisted + [buf];
      Ack(ids, fate);
    }

    method Ack(ids: seq<EntryId>, fate: Fate)
      modifies this`acked
      ensures acked == AckStep(old(acked), ids, fate)
    {
      if ids == [] || fate != Acked { return; }
      acked := acked + ids;
    }
  }
}
