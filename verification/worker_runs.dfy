/** The worker's bookkeeping agrees with the ledger of entries in every run. */
module WorkerRuns {
  import opened Bytes
  import opened Aggregator
  import opened AggregatorRuns
  import opened Worker

  datatype Kind = InTracking | InBuffer | InDatabase | InEither

  predicate Is(r: Record, k: Kind)
    decreases k.InEither?
  {
    match k
    case InTracking => r.status == Tracked
    case InBuffer => r.place == Live
    case InDatabase => r.place == Flushed(Acked) || r.place == Flushed(AckError)
    case InEither => Is(r, InBuffer) || Is(r, InDatabase)
  }

  /** The decoded entries of a session that are of kind `k`, in order of delivery. */
  function Pick(ledger: seq<Record>, sid: Sid, k: Kind): seq<(EntryId, Envelope)> {
    if ledger == [] then []
    else
      var r := ledger[|ledger| - 1];
      var before := Pick(ledger[..|ledger| - 1], sid, k);
      if Of(r, sid) && Is(r, k) then before + [(r.id, r.env.value)] else before
  }

  function Ids(ps: seq<(EntryId, Envelope)>): seq<EntryId> {
    seq(|ps|, i requires 0 <= i < |ps| => ps[i].0)
  }

  function Envs(ps: seq<(EntryId, Envelope)>): seq<Envelope> {
    seq(|ps|, i requires 0 <= i < |ps| => ps[i].1)
  }

  function AckedIds(ledger: seq<Record>): seq<EntryId> {
    if ledger == [] then []
    else
      var r := ledger[|ledger| - 1];
      var before := AckedIds(ledger[..|ledger| - 1]);
      if r.status == Settled(Acked) then before + [r.id] else before
  }

  /** Which combinations of bookkeeping and whereabouts can occur. */
  predicate Coherent(r: Record) {
    match r.place
    case Live => r.env.Some? && r.status == Tracked
    case Flushed(fate) => r.env.Some? && r.status == Settled(fate)
    case Evicted => r.env.Some?
    case Malformed => r.env.None? && r.status.Settled?
  }

  /** Within a session, nothing that is still buffered was delivered before something that is not. */
  predicate LiveLast(ledger: seq<Record>) {
    ledger == [] ||
    var (r, init) := (ledger[|ledger| - 1], ledger[..|ledger| - 1]);
    LiveLast(init) && (r.env.Some? && r.place != Live ==> Pick(init, r.env.value.sid, InBuffer) == [])
  }

  /** The worker's state matches the ledger; `held` are the buffers not yet flushed or evicted. */
  predicate AgreesOn(ws: WState, held: Buffers, sid: Sid) {
    && PendingOf(ws.pending, sid) == Ids(Pick(ws.ledger, sid, InTracking))
    && EventsOf(held, sid) == Envs(Pick(ws.ledger, sid, InBuffer))
    && EventsOf(ws.persisted, sid) == Envs(Pick(ws.ledger, sid, InDatabase))
  }

  ghost predicate Agree(ws: WState, held: Buffers) {
    && Distinct(held)
    && (forall sid :: AgreesOn(ws, held, sid))
    && (forall r :: r in ws.ledger ==> Coherent(r))
    && LiveLast(ws.ledger)
    && (forall id :: Count(ws.acked, id) == Count(AckedIds(ws.ledger), id))
  }

  // ---- one change of the ledger at a time -----------------------------------------------

  lemma PickAdd(ledger: seq<Record>, r: Record, sid: Sid, k: Kind)
    ensures Pick(ledger + [r], sid, k)
         == Pick(ledger, sid, k) + if Of(r, sid) && Is(r, k) then [(r.id, r.env.value)] else []
  {
    assert (ledger + [r])[..|ledger|] == ledger;
  }

  lemma {:induction false} PickSettleOther(ledger: seq<Record>, s: Sid, fate: Fate, sid: Sid, k: Kind)
    requires sid != s
    ensures Pick(Settle(ledger, s, fate), sid, k) == Pick(ledger, sid, k)
  {
    if ledger == [] {
    } else {
      var init, r := ledger[..|ledger| - 1], ledger[|ledger| - 1];
      var after := Settle(ledger, s, fate);
      assert after[..|after| - 1] == Settle(init, s, fate);
      PickSettleOther(init, s, fate, sid, k);
    }
  }

  lemma SettleLast(ledger: seq<Record>, s: Sid, fate: Fate)
    requires ledger != []
    ensures var after := Settle(ledger, s, fate);
      && after[..|after| - 1] == Settle(ledger[..|ledger| - 1], s, fate)
      && after[|after| - 1] == SettleOne(ledger[|ledger| - 1], s, fate)
  {
  }

  lemma {:induction false} PickSettleDone(ledger: seq<Record>, sid: Sid, fate: Fate)
    ensures Pick(Settle(ledger, sid, fate), sid, InTracking) == []
    ensures Pick(Settle(ledger, sid, fate), sid, InBuffer) == []
  {
    if ledger == [] {
    } else {
      SettleLast(ledger, sid, fate);
      hide Settle;
      PickSettleDone(ledger[..|ledger| - 1], sid, fate);
    }
  }

  lemma {:induction false} PickSettleSaved(ledger: seq<Record>, sid: Sid, fate: Fate)
    ensures Pick(Settle(ledger, sid, fate), sid, InDatabase)
         == Pick(ledger, sid, if fate == PersistError then InDatabase else InEither)
  {
    if ledger == [] {
    } else {
      SettleLast(ledger, sid, fate);
      hide Settle;
      PickSettleSaved(ledger[..|ledger| - 1], sid, fate);
    }
  }

  lemma {:induction false} PickEither(ledger: seq<Record>, sid: Sid)
    requires LiveLast(ledger)
    ensures Pick(ledger, sid, InEither) == Pick(ledger, sid, InDatabase) + Pick(ledger, sid, InBuffer)
  {
    if ledger == [] {
    } else {
      PickEither(ledger[..|ledger| - 1], sid);
    }
  }

  lemma {:induction false} PickEvict(ledger: seq<Record>, s: Sid, sid: Sid)
    ensures var after := Evict(ledger, s);
      && Pick(after, sid, InTracking) == Pick(ledger, sid, InTracking)
      && Pick(after, sid, InDatabase) == Pick(ledger, sid, InDatabase)
      && Pick(after, sid, InBuffer) == if sid == s then [] else Pick(ledger, sid, InBuffer)
  {
    if ledger == [] {
    } else {
      var init, r := ledger[..|ledger| - 1], ledger[|ledger| - 1];
      var after := Evict(ledger, s);
      assert after[..|after| - 1] == Evict(init, s);
      PickEvict(init, s, sid);
    }
  }

  lemma {:induction false} LiveLastSettle(ledger: seq<Record>, s: Sid, fate: Fate)
    requires LiveLast(ledger)
    ensures LiveLast(Settle(ledger, s, fate))
  {
    if ledger == [] {
    } else {
      var init, r := ledger[..|ledger| - 1], ledger[|ledger| - 1];
      var after := Settle(ledger, s, fate);
      assert after[..|after| - 1] == Settle(init, s, fate);
      LiveLastSettle(init, s, fate);
      if r.env.Some? {
        if r.env.value.sid == s {
          PickSettleDone(init, s, fate);
        } else {
          PickSettleOther(init, s, fate, r.env.value.sid, InBuffer);
        }
      }
    }
  }

  lemma {:induction false} LiveLastEvict(ledger: seq<Record>, s: Sid)
    requires LiveLast(ledger)
    ensures LiveLast(Evict(ledger, s))
  {
    if ledger == [] {
    } else {
      var init, r := ledger[..|ledger| - 1], ledger[|ledger| - 1];
      var after := Evict(ledger, s);
      assert after[..|after| - 1] == Evict(init, s);
      LiveLastEvict(init, s);
      if r.env.Some? {
        PickEvict(init, s, r.env.value.sid);
      }
    }
  }

  lemma IdsAdd(ps: seq<(EntryId, Envelope)>, p: (EntryId, Envelope))
    ensures Ids(ps + [p]) == Ids(ps) + [p.0] && Envs(ps + [p]) == Envs(ps) + [p.1]
  {
  }

  function Count(ids: seq<EntryId>, id: EntryId): nat {
    if ids == [] then 0 else Count(ids[..|ids| - 1], id) + if ids[|ids| - 1] == id then 1 else 0
  }

  lemma {:induction false} CountConcat(a: seq<EntryId>, b: seq<EntryId>, id: EntryId)
    ensures Count(a + b, id) == Count(a, id) + Count(b, id)
    decreases |b|
  {
    if b == [] {
      assert a + b == a;
    } else {
      assert (a + b)[..|a + b| - 1] == a + b[..|b| - 1];
      CountConcat(a, b[..|b| - 1], id);
    }
  }

  lemma {:induction false} AckedIdsSettle(ledger: seq<Record>, s: Sid, fate: Fate, id: EntryId)
    ensures Count(AckedIds(Settle(ledger, s, fate)), id)
         == Count(AckedIds(ledger), id) + if fate == Acked then Count(Ids(Pick(ledger, s, InTracking)), id) else 0
  {
    hide Ids, Settle, Count;
    if ledger == [] {
      SettleNothing(s, fate, id);
    } else {
      var init, r := ledger[..|ledger| - 1], ledger[|ledger| - 1];
      SettleLast(ledger, s, fate);
      AckedIdsSettle(init, s, fate, id);
      CountConcat(AckedIds(Settle(init, s, fate)), [r.id], id);
      CountConcat(AckedIds(init), [r.id], id);
      if Of(r, s) && r.status == Tracked {
        IdsAdd(Pick(init, s, InTracking), (r.id, r.env.value));
        CountConcat(Ids(Pick(init, s, InTracking)), [r.id], id);
      }
    }
  }

  lemma SettleNothing(s: Sid, fate: Fate, id: EntryId)
    ensures Settle([], s, fate) == [] && Ids(Pick([], s, InTracking)) == [] && Count([], id) == 0
  {
  }

  lemma {:induction false} AckedIdsEvict(ledger: seq<Record>, s: Sid)
    ensures AckedIds(Evict(ledger, s)) == AckedIds(ledger)
  {
    if ledger == [] {
    } else {
      var init := ledger[..|ledger| - 1];
      var after := Evict(ledger, s);
      assert after[..|after| - 1] == Evict(init, s);
      AckedIdsEvict(init, s);
    }
  }

  // ---- every step keeps the agreement ---------------------------------------------------

  lemma FlushAgreesOn(ws: WState, held: Buffers, i: nat, fate: Fate, sid: Sid)
    requires Agree(ws, held) && i < |held|
    ensures AgreesOn(FlushStep(ws, held[i], fate), Without(held, i), sid)
  {
    hide Settle, EventsOf, Pick, LiveLast, Coherent, Without;
    var buf := held[i];
    var f := FlushFate(buf, fate);
    assert AgreesOn(ws, held, sid);
    WithoutKeepsEvents(held, i, sid);
    EventsOfConcat(ws.persisted, [buf], sid);
    EventsOfOne(buf, sid);
    if sid == buf.sid {
      PickSettleDone(ws.ledger, sid, f);
      PickSettleSaved(ws.ledger, sid, f);
      PickEither(ws.ledger, sid);
      EnvsConcat(Pick(ws.ledger, sid, InDatabase), Pick(ws.ledger, sid, InBuffer));
    } else {
      PickSettleOther(ws.ledger, buf.sid, f, sid, InTracking);
      PickSettleOther(ws.ledger, buf.sid, f, sid, InBuffer);
      PickSettleOther(ws.ledger, buf.sid, f, sid, InDatabase);
    }
  }

  lemma EnvsConcat(a: seq<(EntryId, Envelope)>, b: seq<(EntryId, Envelope)>)
    ensures Envs(a + b) == Envs(a) + Envs(b)
  {
  }

  lemma SettleCoherent(ledger: seq<Record>, s: Sid, fate: Fate)
    requires forall r :: r in ledger ==> Coherent(r)
    ensures forall r :: r in Settle(ledger, s, fate) ==> Coherent(r)
  {
    hide Coherent;
    forall i | 0 <= i < |ledger| ensures Coherent(Settle(ledger, s, fate)[i]) {
      assert ledger[i] in ledger;
      SettleOneCoherent(ledger[i], s, fate);
    }
  }

  lemma SettleOneCoherent(r: Record, s: Sid, fate: Fate)
    requires Coherent(r)
    ensures Coherent(SettleOne(r, s, fate))
  {
  }

  lemma EvictCoherent(ledger: seq<Record>, s: Sid)
    requires forall r :: r in ledger ==> Coherent(r)
    ensures forall r :: r in Evict(ledger, s) ==> Coherent(r)
  {
    forall i | 0 <= i < |ledger| ensures Coherent(Evict(ledger, s)[i]) {
      assert ledger[i] in ledger;
    }
  }

  lemma FlushAgrees(ws: WState, held: Buffers, i: nat, fate: Fate)
    requires Agree(ws, held) && i < |held|
    ensures Agree(FlushStep(ws, held[i], fate), Without(held, i))
  {
    var f, sid0, after := FlushFate(held[i], fate), held[i].sid, FlushStep(ws, held[i], fate);
    forall sid ensures AgreesOn(after, Without(held, i), sid) {
      FlushAgreesOn(ws, held, i, fate, sid);
    }
    assert AgreesOn(ws, held, sid0);
    hide AgreesOn, Settle, Coherent, LiveLast, Without, Distinct, Count, AckedIds, Pick;
    DistinctWithout(held, i);
    SettleCoherent(ws.ledger, sid0, f);
    LiveLastSettle(ws.ledger, sid0, f);
    forall id ensures Count(after.acked, id) == Count(AckedIds(after.ledger), id) {
      AckedIdsSettle(ws.ledger, sid0, f, id);
      CountConcat(ws.acked, PendingOf(ws.pending, sid0), id);
    }
  }

  lemma EvictAgrees(ws: WState, held: Buffers, i: nat)
    requires Agree(ws, held) && i < |held|
    ensures Agree(ws.(ledger := Evict(ws.ledger, held[i].sid)), Without(held, i))
  {
    hide Evict, Coherent, LiveLast, Without, Distinct, Count, AckedIds, Pick, EventsOf;
    var s := held[i].sid;
    var after := ws.(ledger := Evict(ws.ledger, s));
    forall sid ensures AgreesOn(after, Without(held, i), sid) {
      assert AgreesOn(ws, held, sid);
      WithoutKeepsEvents(held, i, sid);
      PickEvict(ws.ledger, s, sid);
    }
    DistinctWithout(held, i);
    EvictCoherent(ws.ledger, s);
    LiveLastEvict(ws.ledger, s);
    AckedIdsEvict(ws.ledger, s);
  }

  lemma {:induction false} EvictAllAgrees(ws: WState, bufs: Buffers, rest: Buffers)
    requires Agree(ws, bufs + rest)
    ensures Agree(ws.(ledger := EvictAll(ws.ledger, bufs)), rest)
    decreases |bufs|
  {
    hide Agree, Evict;
    if bufs == [] {
      assert bufs + rest == rest && ws.(ledger := ws.ledger) == ws;
    } else {
      var next := ws.(ledger := Evict(ws.ledger, bufs[0].sid));
      EvictAgrees(ws, bufs + rest, 0);
      assert Without(bufs + rest, 0) == bufs[1..] + rest;
      EvictAllAgrees(next, bufs[1..], rest);
    }
  }

  lemma {:induction false} FlushAllAgrees(ws: WState, bufs: Buffers, rest: Buffers, fates: Sid -> Fate)
    requires Agree(ws, bufs + rest)
    ensures Agree(FlushAll(ws, bufs, fates), rest) && FlushAll(ws, bufs, fates).agg == ws.agg
    decreases |bufs|
  {
    hide Agree, Settle;
    if bufs == [] {
      assert bufs + rest == rest;
    } else {
      FlushAgrees(ws, bufs + rest, 0, fates(bufs[0].sid));
      assert Without(bufs + rest, 0) == bufs[1..] + rest;
      FlushAllAgrees(FlushStep(ws, bufs[0], fates(bufs[0].sid)), bufs[1..], rest, fates);
    }
  }

  function Track(ws: WState, id: EntryId, env: Envelope): WState {
    ws.(pending := ws.pending[env.sid := PendingOf(ws.pending, env.sid) + [id]],
        ledger := ws.ledger + [Record(id, Some(env), Tracked, Live)])
  }

  lemma TrackAgreesOn(ws: WState, id: EntryId, env: Envelope, now: real, sid: Sid)
    requires Distinct(ws.agg.buffers) && AgreesOn(ws, ws.agg.buffers, sid)
    ensures var (others, buf) := Touched(ws.agg.buffers, env, now);
      AgreesOn(Track(ws, id, env), others + [buf.(events := buf.events + [env])], sid)
  {
    hide Touched, Distinct, Pick, EventsOf;
    var (others, buf) := Touched(ws.agg.buffers, env, now);
    var full := buf.(events := buf.events + [env]);
    var r := Record(id, Some(env), Tracked, Live);
    TouchKeepsEvents(ws.agg.buffers, env, now, sid);
    EventsOfConcat(others, [full], sid);
    EventsOfOne(full, sid);
    PickAdd(ws.ledger, r, sid, InTracking);
    PickAdd(ws.ledger, r, sid, InBuffer);
    PickAdd(ws.ledger, r, sid, InDatabase);
    IdsAdd(Pick(ws.ledger, sid, InTracking), (id, env));
    IdsAdd(Pick(ws.ledger, sid, InBuffer), (id, env));
  }

  /** A new entry, before any eviction or flush that it causes. */
  lemma TrackAgrees(ws: WState, id: EntryId, env: Envelope, now: real)
    requires Agree(ws, ws.agg.buffers)
    ensures var (others, buf) := Touched(ws.agg.buffers, env, now);
      Agree(Track(ws, id, env), others + [buf.(events := buf.events + [env])])
  {
    hide Touched, Distinct, LiveLast, AckedIds, AgreesOn, Count;
    var (others, buf) := Touched(ws.agg.buffers, env, now);
    var full, after := buf.(events := buf.events + [env]), Track(ws, id, env);
    var held := others + [full];
    DistinctAfterTouch(ws.agg.buffers, env, now);
    DistinctWithLast(others + [buf], full);
    assert (others + [buf])[..|others|] == others;
    TrackedRecord(ws.ledger, Record(id, Some(env), Tracked, Live));
    forall sid ensures AgreesOn(after, held, sid) {
      assert AgreesOn(ws, ws.agg.buffers, sid);
      TrackAgreesOn(ws, id, env, now, sid);
    }
  }

  lemma TrackedRecord(ledger: seq<Record>, r: Record)
    requires LiveLast(ledger) && r.place == Live && r.status == Tracked
    ensures LiveLast(ledger + [r]) && AckedIds(ledger + [r]) == AckedIds(ledger)
  {
    assert (ledger + [r])[..|ledger|] == ledger;
  }

  lemma AgreeFrame(ws: WState, agg: State, held: Buffers)
    ensures Agree(ws, held) == Agree(ws.(agg := agg), held)
  {
    forall sid ensures AgreesOn(ws, held, sid) == AgreesOn(ws.(agg := agg), held, sid) {}
  }

  lemma {:induction false} EvictAllSnoc(ledger: seq<Record>, bufs: Buffers, b: SessionBuffer)
    ensures EvictAll(ledger, bufs + [b]) == Evict(EvictAll(ledger, bufs), b.sid)
    decreases |bufs|
  {
    hide Evict;
    if bufs == [] {
      assert (bufs + [b])[1..] == [];
    } else {
      assert (bufs + [b])[1..] == bufs[1..] + [b];
      EvictAllSnoc(Evict(ledger, bufs[0].sid), bufs[1..], b);
    }
  }

  lemma DeliverAgrees(cfg: Config, ws: WState, id: EntryId, env: Envelope, now: real)
    requires Agree(ws, ws.agg.buffers)
    ensures var ready := IngestResult(cfg, ws.agg.buffers, env, now);
      var after := DeliverStep(cfg, ws, id, env, now);
      Agree(after, after.agg.buffers + if ready.Some? then [ready.value] else [])
  {
    hide Agree, Touched, Overflow, EvictAll, Evict, Ready;
    TrackAgrees(ws, id, env, now);
    var (others, buf) := Touched(ws.agg.buffers, env, now);
    var n := Overflow(cfg, ws.agg.buffers, env.sid);
    var full := buf.(events := buf.events + [env]);
    var t, after := Track(ws, id, env), DeliverStep(cfg, ws, id, env, now);
    if n <= |others| {
      assert others + [full] == others[..n] + (others[n..] + [full]);
      assert (others + [buf])[..n] == others[..n];
      EvictAllAgrees(t, others[..n], others[n..] + [full]);
      AgreeFrame(t.(ledger := after.ledger), after.agg, others[n..] + [full]);
      assert others[n..] + [full] + [] == others[n..] + [full];
    } else {
      OverflowIsAll(cfg, ws.agg.buffers, env, now);
      EvictAllAgrees(t, others, [full]);
      EvictAllSnoc(t.ledger, others, buf);
      TouchedSid(ws.agg.buffers, env, now);
      EvictAgrees(t.(ledger := EvictAll(t.ledger, others)), [full], 0);
      assert Without([full], 0) == [];
      assert (others + [buf])[..n] == others + [buf];
      AgreeFrame(t.(ledger := after.ledger), after.agg, []);
      assert after.agg.buffers + [] == [];
    }
  }

  lemma OverflowIsAll(cfg: Config, bs: Buffers, env: Envelope, now: real)
    ensures var (others, n) := (Touched(bs, env, now).0, Overflow(cfg, bs, env.sid));
      n > |others| ==> n == |others| + 1
  {
  }

  lemma TouchedSid(bs: Buffers, env: Envelope, now: real)
    ensures Touched(bs, env, now).1.sid == env.sid
  {
  }

  lemma MalformedAgrees(ws: WState, id: EntryId, f: Fate, acked: seq<EntryId>)
    requires Agree(ws, ws.agg.buffers) && acked == AckStep(ws.acked, [id], f)
    ensures Agree(ws.(acked := acked, ledger := ws.ledger + [Record(id, None, Settled(f), Malformed)]), ws.agg.buffers)
  {
    var r := Record(id, None, Settled(f), Malformed);
    var after := ws.(acked := acked, ledger := ws.ledger + [r]);
    assert after.ledger[..|ws.ledger|] == ws.ledger;
    assert LiveLast(after.ledger);
    assert AckedIds(after.ledger) == if f == Acked then AckedIds(ws.ledger) + [id] else AckedIds(ws.ledger);
    hide LiveLast, AckedIds, Pick, EventsOf, Count, Distinct;
    forall sid ensures AgreesOn(after, ws.agg.buffers, sid) {
      assert AgreesOn(ws, ws.agg.buffers, sid);
      PickAdd(ws.ledger, r, sid, InTracking);
      PickAdd(ws.ledger, r, sid, InBuffer);
      PickAdd(ws.ledger, r, sid, InDatabase);
    }
    forall x ensures Count(acked, x) == Count(AckedIds(after.ledger), x) {
      CountConcat(ws.acked, [id], x);
      CountConcat(AckedIds(ws.ledger), [id], x);
    }
  }

  lemma EntryAgrees(cfg: Config, ws: WState, id: EntryId, env: Envelope, now: real, fate: Fate)
    requires Agree(ws, ws.agg.buffers)
    ensures var after := WStep(cfg, ws, Entry(id, Some(env), now, fate)); Agree(after, after.agg.buffers)
  {
    hide Agree, DeliverStep, IngestResult;
    DeliverAgrees(cfg, ws, id, env, now);
    var after, ready := DeliverStep(cfg, ws, id, env, now), IngestResult(cfg, ws.agg.buffers, env, now);
    if ready.Some? {
      var held := after.agg.buffers + [ready.value];
      FlushAgrees(after, held, |after.agg.buffers|, fate);
      assert Without(held, |after.agg.buffers|) == after.agg.buffers;
    } else {
      assert after.agg.buffers + [] == after.agg.buffers;
    }
  }

  lemma WStepAgrees(cfg: Config, ws: WState, op: WOp)
    requires Agree(ws, ws.agg.buffers)
    ensures Agree(WStep(cfg, ws, op), WStep(cfg, ws, op).agg.buffers)
  {
    hide Agree, DeliverStep, IngestResult, FlushAll, FlushStep;
    var bs := ws.agg.buffers;
    match op {
      case Entry(id, None, now, fate) =>
        MalformedAgrees(ws, id, AckOnly(fate), AckStep(ws.acked, [id], AckOnly(fate)));
      case Entry(id, Some(env), now, fate) =>
        EntryAgrees(cfg, ws, id, env, now, fate);
      case Idle(now, fates) =>
        var n := StaleCount(cfg, bs, now);
        assert bs == bs[..n] + bs[n..];
        AgreeFrame(ws, Step(cfg, ws.agg, DrainIdle(now)), bs);
        FlushAllAgrees(ws.(agg := Step(cfg, ws.agg, DrainIdle(now))), bs[..n], bs[n..], fates);
      case Shutdown(fates) =>
        assert bs == bs + [];
        AgreeFrame(ws, Step(cfg, ws.agg, DrainAll), bs);
        FlushAllAgrees(ws.(agg := Step(cfg, ws.agg, DrainAll)), bs, [], fates);
    }
  }

  /** In every run, whatever the oracles answer, the worker's state matches the ledger of entries. */
  lemma {:induction false} WRunAgrees(cfg: Config, ops: seq<WOp>)
    ensures Agree(WRun(cfg, ops), WRun(cfg, ops).agg.buffers)
  {
    if ops == [] {
      var ws := WRun(cfg, ops);
      forall sid ensures AgreesOn(ws, [], sid) {
        assert Pick([], sid, InTracking) == [] && EventsOf([], sid) == [];
      }
    } else {
      hide Agree, WStep;
      WRunAgrees(cfg, ops[..|ops| - 1]);
      WStepAgrees(cfg, WRun(cfg, ops[..|ops| - 1]), ops[|ops| - 1]);
    }
  }
}
