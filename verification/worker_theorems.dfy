/** Main results on the worker's acknowledgements. */
module WorkerTheorems {
  import opened Bytes
  import opened Sets
  import opened Aggregator
  import opened AggregatorRuns
  import opened Worker
  import opened WorkerRuns

  // ---- each entry is settled at most once ------------------------------------------------

  /** A record keeps its entry; once settled it stays so, and an event leaves its buffer once. */
  predicate Evolves(r: Record, r': Record) {
    && r'.id == r.id && r'.env == r.env
    && (r.status == Tracked || r'.status == r.status)
    && (r.place == Live || r'.place == r.place)
  }

  predicate LedgerEvolves(l: seq<Record>, l': seq<Record>) {
    |l| <= |l'| && forall i :: 0 <= i < |l| ==> Evolves(l[i], l'[i])
  }

  lemma EvolvesTransitive(a: seq<Record>, b: seq<Record>, c: seq<Record>)
    requires LedgerEvolves(a, b) && LedgerEvolves(b, c)
    ensures LedgerEvolves(a, c)
  {
    forall i | 0 <= i < |a| ensures Evolves(a[i], c[i]) {
      assert Evolves(a[i], b[i]) && Evolves(b[i], c[i]);
    }
  }

  lemma {:induction false} EvictAllEvolves(ledger: seq<Record>, bufs: seq<SessionBuffer>)
    ensures LedgerEvolves(ledger, EvictAll(ledger, bufs)) && |EvictAll(ledger, bufs)| == |ledger|
    decreases |bufs|
  {
    if bufs == [] {
    } else {
      var next := Evict(ledger, bufs[0].sid);
      EvictAllEvolves(next, bufs[1..]);
      EvolvesTransitive(ledger, next, EvictAll(next, bufs[1..]));
    }
  }

  lemma {:induction false} FlushAllEvolves(ws: WState, bufs: seq<SessionBuffer>, fates: Sid -> Fate)
    ensures LedgerEvolves(ws.ledger, FlushAll(ws, bufs, fates).ledger)
    ensures |FlushAll(ws, bufs, fates).ledger| == |ws.ledger|
    decreases |bufs|
  {
    if bufs == [] {
    } else {
      var next := FlushStep(ws, bufs[0], fates(bufs[0].sid));
      FlushAllEvolves(next, bufs[1..], fates);
      EvolvesTransitive(ws.ledger, next.ledger, FlushAll(next, bufs[1..], fates).ledger);
    }
  }

  /** The entry that a step adds to the ledger, if it is a delivery. */
  function Added(op: WOp): seq<(EntryId, Option<Envelope>)> {
    if op.Entry? then [(op.id, op.env)] else []
  }

  lemma WStepEvolves(cfg: Config, ws: WState, op: WOp)
    ensures var l' := WStep(cfg, ws, op).ledger;
      && LedgerEvolves(ws.ledger, l') && |l'| == |ws.ledger| + |Added(op)|
      && (op.Entry? ==> l'[|ws.ledger|].id == op.id && l'[|ws.ledger|].env == op.env)
  {
    hide EvictAll, FlushAll, IngestStep, Touched, Overflow, IngestResult, StaleCount;
    match op {
      case Entry(id, None, now, fate) =>
      case Entry(id, Some(env), now, fate) =>
        OverflowIsAll(cfg, ws.agg.buffers, env, now);
        var (others, buf) := Touched(ws.agg.buffers, env, now);
        var tracked := ws.ledger + [Record(id, Some(env), Tracked, Live)];
        var evicted := (others + [buf])[..Overflow(cfg, ws.agg.buffers, env.sid)];
        EvictAllEvolves(tracked, evicted);
        assert Evolves(tracked[|ws.ledger|], EvictAll(tracked, evicted)[|ws.ledger|]);
        assert LedgerEvolves(ws.ledger, tracked);
        EvolvesTransitive(ws.ledger, tracked, EvictAll(tracked, evicted));
        assert DeliverStep(cfg, ws, id, env, now).ledger == EvictAll(tracked, evicted);
        var ready := IngestResult(cfg, ws.agg.buffers, env, now);
        if ready.Some? {
          var l := EvictAll(tracked, evicted);
          var l' := Settle(l, ready.value.sid, FlushFate(ready.value, fate));
          assert LedgerEvolves(l, l');
          EvolvesTransitive(ws.ledger, l, l');
          assert Evolves(l[|ws.ledger|], l'[|ws.ledger|]);
        }
      case Idle(now, fates) =>
        var n := StaleCount(cfg, ws.agg.buffers, now);
        FlushAllEvolves(ws.(agg := Step(cfg, ws.agg, DrainIdle(now))), ws.agg.buffers[..n], fates);
      case Shutdown(fates) =>
        FlushAllEvolves(ws.(agg := Step(cfg, ws.agg, DrainAll)), ws.agg.buffers, fates);
    }
  }

  function Delivered(ops: seq<WOp>): seq<(EntryId, Option<Envelope>)> {
    if ops == [] then [] else Delivered(ops[..|ops| - 1]) + Added(ops[|ops| - 1])
  }

  /** The ledger lists the delivered entries in order. */
  lemma {:induction false} LedgerLists(cfg: Config, ops: seq<WOp>)
    ensures var l := WRun(cfg, ops).ledger;
      && |l| == |Delivered(ops)|
      && forall i :: 0 <= i < |l| ==> (l[i].id, l[i].env) == Delivered(ops)[i]
  {
    if ops == [] {
    } else {
      hide WStep, Evolves;
      var ws, op := WRun(cfg, ops[..|ops| - 1]), ops[|ops| - 1];
      LedgerLists(cfg, ops[..|ops| - 1]);
      WStepEvolves(cfg, ws, op);
      ListExtends(ws.ledger, WStep(cfg, ws, op).ledger, Delivered(ops[..|ops| - 1]), op);
    }
  }

  lemma ListExtends(l: seq<Record>, l': seq<Record>, before: seq<(EntryId, Option<Envelope>)>, op: WOp)
    requires LedgerEvolves(l, l') && |l'| == |l| + |Added(op)| && |before| == |l|
    requires op.Entry? ==> l'[|l|].id == op.id && l'[|l|].env == op.env
    requires forall i :: 0 <= i < |l| ==> (l[i].id, l[i].env) == before[i]
    ensures forall i :: 0 <= i < |l'| ==> (l'[i].id, l'[i].env) == (before + Added(op))[i]
  {
    forall i | 0 <= i < |l'| ensures (l'[i].id, l'[i].env) == (before + Added(op))[i] {
      if i < |l| {
        assert Evolves(l[i], l'[i]);
        assert (l[i].id, l[i].env) == before[i];
      }
    }
  }

  // ---- exactly one of tracked, acknowledged, released ---------------------------------------

  predicate DistinctIds(ledger: seq<Record>) {
    forall i, j :: 0 <= i < j < |ledger| ==> ledger[i].id != ledger[j].id
  }

  lemma {:induction false} PickHas(ledger: seq<Record>, sid: Sid, k: Kind, i: nat)
    requires i < |ledger| && Of(ledger[i], sid) && Is(ledger[i], k)
    ensures (ledger[i].id, ledger[i].env.value) in Pick(ledger, sid, k)
  {
    if i < |ledger| - 1 {
      PickHas(ledger[..|ledger| - 1], sid, k, i);
    }
  }

  lemma {:induction false} PickFrom(ledger: seq<Record>, sid: Sid, k: Kind, p: (EntryId, Envelope)) returns (i: nat)
    requires p in Pick(ledger, sid, k)
    ensures i < |ledger| && Of(ledger[i], sid) && Is(ledger[i], k) && p == (ledger[i].id, ledger[i].env.value)
  {
    var r := ledger[|ledger| - 1];
    if Of(r, sid) && Is(r, k) && p == (r.id, r.env.value) {
      i := |ledger| - 1;
    } else {
      i := PickFrom(ledger[..|ledger| - 1], sid, k, p);
    }
  }

  lemma {:induction false} AckedCount(ledger: seq<Record>, id: EntryId)
    requires DistinctIds(ledger)
    ensures Count(AckedIds(ledger), id) <= 1
    ensures Count(AckedIds(ledger), id) == 1 <==> exists r :: r in ledger && r.id == id && r.status == Settled(Acked)
  {
    if ledger == [] {
    } else {
      var init, r := ledger[..|ledger| - 1], ledger[|ledger| - 1];
      assert ledger == init + [r];
      AckedCount(init, id);
      CountConcat(AckedIds(init), [r.id], id);
      assert Count([r.id], id) == if r.id == id then 1 else 0 by { assert Count([r.id][..0], id) == 0; }
    }
  }

  lemma {:induction false} CountIn(ids: seq<EntryId>, id: EntryId)
    ensures Count(ids, id) > 0 <==> id in ids
  {
    if ids == [] {
    } else {
      assert ids == ids[..|ids| - 1] + [ids[|ids| - 1]];
      CountIn(ids[..|ids| - 1], id);
    }
  }

  lemma TrackedIffPending(ws: WState, i: nat)
    requires Agree(ws, ws.agg.buffers) && DistinctIds(ws.ledger) && i < |ws.ledger|
    ensures (exists sid :: ws.ledger[i].id in PendingOf(ws.pending, sid)) <==> ws.ledger[i].status == Tracked
  {
    hide Pick;
    var r := ws.ledger[i];
    if r.status == Tracked {
      assert Coherent(r);
      var sid := r.env.value.sid;
      assert AgreesOn(ws, ws.agg.buffers, sid);
      PickHas(ws.ledger, sid, InTracking, i);
      var p := Pick(ws.ledger, sid, InTracking);
      var j :| 0 <= j < |p| && p[j] == (r.id, r.env.value);
      assert Ids(p)[j] == r.id;
      assert r.id in PendingOf(ws.pending, sid);
    }
    if sid :| r.id in PendingOf(ws.pending, sid) {
      assert AgreesOn(ws, ws.agg.buffers, sid);
      var p := Pick(ws.ledger, sid, InTracking);
      var j :| 0 <= j < |Ids(p)| && Ids(p)[j] == r.id;
      var k := PickFrom(ws.ledger, sid, InTracking, p[j]);
      assert ws.ledger[k].id == r.id;
    }
  }

  /** Whenever the stream delivers distinct ids, each entry is in exactly one of three places: in
      the tracking map, among the acknowledged ids (once), or settled without acknowledgement. */
  lemma ExactlyOnePlace(cfg: Config, ops: seq<WOp>, i: nat)
    requires forall j, k :: 0 <= j < k < |Delivered(ops)| ==> Delivered(ops)[j].0 != Delivered(ops)[k].0
    requires i < |Delivered(ops)|
    ensures var ws := WRun(cfg, ops);
      var id := Delivered(ops)[i].0;
      && |ws.ledger| == |Delivered(ops)| && ws.ledger[i].id == id
      && ((exists sid :: id in PendingOf(ws.pending, sid)) <==> ws.ledger[i].status == Tracked)
      && (id in ws.acked <==> ws.ledger[i].status == Settled(Acked))
      && Count(ws.acked, id) <= 1
  {
    hide WRun, Agree, Count, AckedIds, Pick;
    var ws := WRun(cfg, ops);
    var id := Delivered(ops)[i].0;
    LedgerLists(cfg, ops);
    WRunAgrees(cfg, ops);
    assert DistinctIds(ws.ledger) by {
      forall j, k | 0 <= j < k < |ws.ledger| ensures ws.ledger[j].id != ws.ledger[k].id {
        assert (ws.ledger[j].id, ws.ledger[j].env) == Delivered(ops)[j];
        assert (ws.ledger[k].id, ws.ledger[k].env) == Delivered(ops)[k];
      }
    }
    assert (ws.ledger[i].id, ws.ledger[i].env) == Delivered(ops)[i];
    TrackedIffPending(ws, i);
    AckedIffSettled(ws, i);
  }

  lemma AckedIffSettled(ws: WState, i: nat)
    requires Agree(ws, ws.agg.buffers) && DistinctIds(ws.ledger) && i < |ws.ledger|
    ensures ws.ledger[i].id in ws.acked <==> ws.ledger[i].status == Settled(Acked)
    ensures Count(ws.acked, ws.ledger[i].id) <= 1
  {
    var id := ws.ledger[i].id;
    assert Count(ws.acked, id) == Count(AckedIds(ws.ledger), id);
    hide Agree, AckedIds, Count;
    AckedCount(ws.ledger, id);
    CountIn(ws.acked, id);
  }

  // ---- acknowledged means persisted, eviction apart ------------------------------------------

  /** In every run: a decoded entry is acknowledged only after the buffer holding its event was
      persisted, or its event had been evicted. */
  lemma AckedWasPersisted(cfg: Config, ops: seq<WOp>, i: nat)
    requires i < |WRun(cfg, ops).ledger|
    requires var r := WRun(cfg, ops).ledger[i]; r.env.Some? && r.status == Settled(Acked)
    ensures var ws := WRun(cfg, ops);
      var r := ws.ledger[i];
      || r.place == Evicted
      || (r.place == Flushed(Acked) && r.env.value in EventsOf(ws.persisted, r.env.value.sid))
  {
    hide WRun, Pick, EventsOf;
    WRunAgrees(cfg, ops);
    var ws := WRun(cfg, ops);
    var r := ws.ledger[i];
    assert Coherent(r);
    if r.place == Flushed(Acked) {
      var sid := r.env.value.sid;
      assert AgreesOn(ws, ws.agg.buffers, sid);
      PickHas(ws.ledger, sid, InDatabase, i);
      var p := Pick(ws.ledger, sid, InDatabase);
      var j :| 0 <= j < |p| && p[j] == (r.id, r.env.value);
      assert Envs(p)[j] == r.env.value;
    }
  }

  /** No two decoded entries hold the same event. */
  predicate DistinctEvents(delivered: seq<(EntryId, Option<Envelope>)>) {
    forall j, k :: 0 <= j < k < |delivered| && delivered[j].1.Some? ==> delivered[j].1 != delivered[k].1
  }

  /** With distinct events: the event of an acknowledged entry was persisted if and only if it had not
      been evicted. */
  lemma AckedPersistedIff(cfg: Config, ops: seq<WOp>, i: nat)
    requires DistinctEvents(Delivered(ops)) && i < |WRun(cfg, ops).ledger|
    requires var r := WRun(cfg, ops).ledger[i]; r.env.Some? && r.status == Settled(Acked)
    ensures var ws := WRun(cfg, ops);
      var r := ws.ledger[i];
      r.env.value in EventsOf(ws.persisted, r.env.value.sid) <==> r.place != Evicted
  {
    hide WRun, Pick, EventsOf, Delivered;
    AckedWasPersisted(cfg, ops, i);
    WRunAgrees(cfg, ops);
    LedgerLists(cfg, ops);
    var ws := WRun(cfg, ops);
    var env := ws.ledger[i].env.value;
    assert AgreesOn(ws, ws.agg.buffers, env.sid);
    if env in EventsOf(ws.persisted, env.sid) {
      var p := Pick(ws.ledger, env.sid, InDatabase);
      var j :| 0 <= j < |Envs(p)| && Envs(p)[j] == env;
      var k := PickFrom(ws.ledger, env.sid, InDatabase, p[j]);
      SameRecord(ws.ledger, Delivered(ops), i, k);
    }
  }

  lemma SameRecord(ledger: seq<Record>, delivered: seq<(EntryId, Option<Envelope>)>, i: nat, k: nat)
    requires DistinctEvents(delivered) && |ledger| == |delivered| && i < |ledger| && k < |ledger|
    requires forall j :: 0 <= j < |ledger| ==> (ledger[j].id, ledger[j].env) == delivered[j]
    requires ledger[i].env.Some? && ledger[i].env == ledger[k].env
    ensures i == k
  {
    assert (ledger[i].id, ledger[i].env) == delivered[i] && (ledger[k].id, ledger[k].env) == delivered[k];
  }

  predicate NoEviction(ledger: seq<Record>) {
    forall r :: r in ledger ==> r.place != Evicted
  }

  lemma {:induction false} TrackedIsBuffered(ledger: seq<Record>, sid: Sid)
    requires NoEviction(ledger) && forall r :: r in ledger ==> Coherent(r)
    ensures Pick(ledger, sid, InTracking) == Pick(ledger, sid, InBuffer)
  {
    if ledger == [] {
    } else {
      assert Coherent(ledger[|ledger| - 1]) && ledger[|ledger| - 1] in ledger;
      TrackedIsBuffered(ledger[..|ledger| - 1], sid);
    }
  }

  /** Without an eviction, the tracked ids of every session are, one to one and in order, the ids
      of the entries whose events its live buffer holds. */
  lemma TrackedIdsAlign(cfg: Config, ops: seq<WOp>, sid: Sid)
    requires NoEviction(WRun(cfg, ops).ledger)
    ensures var ws := WRun(cfg, ops);
      var entries := Pick(ws.ledger, sid, InTracking);
      PendingOf(ws.pending, sid) == Ids(entries) && EventsOf(ws.agg.buffers, sid) == Envs(entries)
  {
    hide WRun, Pick, EventsOf;
    WRunAgrees(cfg, ops);
    var ws := WRun(cfg, ops);
    assert AgreesOn(ws, ws.agg.buffers, sid);
    TrackedIsBuffered(ws.ledger, sid);
  }

  // ---- when evictions cannot happen ------------------------------------------------------------

  function Sessions(ops: seq<WOp>): set<Sid> {
    if ops == [] then {}
    else
      var op := ops[|ops| - 1];
      Sessions(ops[..|ops| - 1]) + if op.Entry? && op.env.Some? then {op.env.value.sid} else {}
  }

  function Sids(bs: Buffers): set<Sid> {
    set b | b in bs :: b.sid
  }

  lemma {:induction false} DistinctCount(bs: Buffers)
    requires Distinct(bs)
    ensures |Sids(bs)| == |bs|
  {
    if bs == [] {
    } else {
      var init, b := bs[..|bs| - 1], bs[|bs| - 1];
      DistinctCount(init);
      assert bs == init + [b];
      assert b.sid !in Sids(init);
      assert Sids(bs) == Sids(init) + {b.sid};
    }
  }

  /** The step opens a session for which there is no room. */
  predicate Overflows(cfg: Config, bs: Buffers, op: WOp) {
    op.Entry? && op.env.Some? && IndexOf(bs, op.env.value.sid) == -1 && |bs| >= cfg.maxSessions
  }

  lemma OverflowIff(cfg: Config, bs: Buffers, op: WOp)
    requires op.Entry? && op.env.Some?
    ensures Overflow(cfg, bs, op.env.value.sid) > 0 <==> Overflows(cfg, bs, op)
  {
  }

  lemma SettleNoEviction(ledger: seq<Record>, s: Sid, fate: Fate)
    requires NoEviction(ledger)
    ensures NoEviction(Settle(ledger, s, fate))
  {
    forall i | 0 <= i < |ledger| ensures Settle(ledger, s, fate)[i].place != Evicted {
      assert ledger[i] in ledger;
    }
  }

  lemma {:induction false} FlushAllNoEviction(ws: WState, bufs: seq<SessionBuffer>, fates: Sid -> Fate)
    requires NoEviction(ws.ledger)
    ensures NoEviction(FlushAll(ws, bufs, fates).ledger)
    decreases |bufs|
  {
    hide NoEviction, Settle;
    if bufs == [] {
    } else {
      SettleNoEviction(ws.ledger, bufs[0].sid, FlushFate(bufs[0], fates(bufs[0].sid)));
      FlushAllNoEviction(FlushStep(ws, bufs[0], fates(bufs[0].sid)), bufs[1..], fates);
    }
  }

  /** A step that needs no room evicts nothing. */
  lemma QuietStep(cfg: Config, ws: WState, op: WOp)
    requires NoEviction(ws.ledger) && !Overflows(cfg, ws.agg.buffers, op)
    ensures NoEviction(WStep(cfg, ws, op).ledger)
  {
    hide Touched, Ready, Overflow, StaleCount, Overflows, IndexOf;
    match op {
      case Entry(id, None, now, fate) =>
      case Entry(id, Some(env), now, fate) =>
        OverflowIff(cfg, ws.agg.buffers, op);
        var (others, buf) := Touched(ws.agg.buffers, env, now);
        assert (others + [buf])[..0] == [];
        var tracked := ws.ledger + [Record(id, Some(env), Tracked, Live)];
        assert DeliverStep(cfg, ws, id, env, now).ledger == tracked;
        var ready := IngestResult(cfg, ws.agg.buffers, env, now);
        if ready.Some? {
          SettleNoEviction(tracked, ready.value.sid, FlushFate(ready.value, fate));
        }
      case Idle(now, fates) =>
        var n := StaleCount(cfg, ws.agg.buffers, now);
        FlushAllNoEviction(ws.(agg := Step(cfg, ws.agg, DrainIdle(now))), ws.agg.buffers[..n], fates);
      case Shutdown(fates) =>
        FlushAllNoEviction(ws.(agg := Step(cfg, ws.agg, DrainAll)), ws.agg.buffers, fates);
    }
  }

  /** An eviction stays on record. */
  lemma EvictionStays(l: seq<Record>, l': seq<Record>)
    requires LedgerEvolves(l, l') && NoEviction(l')
    ensures NoEviction(l)
  {
    forall r | r in l ensures r.place != Evicted {
      var i :| 0 <= i < |l| && l[i] == r;
      assert Evolves(l[i], l'[i]) && l'[i] in l';
    }
  }

  predicate HasLive(ledger: seq<Record>, sid: Sid) {
    exists r :: r in ledger && Of(r, sid) && r.place == Live
  }

  lemma EvictMarks(ledger: seq<Record>, bufs: seq<SessionBuffer>)
    requires bufs != [] && HasLive(ledger, bufs[0].sid)
    ensures !NoEviction(EvictAll(ledger, bufs))
  {
    var next := Evict(ledger, bufs[0].sid);
    var r :| r in ledger && Of(r, bufs[0].sid) && r.place == Live;
    var i :| 0 <= i < |ledger| && ledger[i] == r;
    assert next[i].place == Evicted && next[i] in next;
    EvictAllEvolves(next, bufs[1..]);
    EvictedIsEviction(next, i);
    hide Evict, EvictAll, NoEviction;
    if NoEviction(EvictAll(next, bufs[1..])) {
      EvictionStays(next, EvictAll(next, bufs[1..]));
    }
    assert EvictAll(ledger, bufs) == EvictAll(next, bufs[1..]) by { EvictAllStep(ledger, bufs); }
  }

  lemma EvictedIsEviction(ledger: seq<Record>, i: nat)
    requires i < |ledger| && ledger[i].place == Evicted
    ensures !NoEviction(ledger)
  {
    assert ledger[i] in ledger;
  }

  lemma EvictAllStep(ledger: seq<Record>, bufs: seq<SessionBuffer>)
    requires bufs != []
    ensures EvictAll(ledger, bufs) == EvictAll(Evict(ledger, bufs[0].sid), bufs[1..])
  {
  }

  predicate AllFilled(bs: Buffers) {
    forall b :: b in bs ==> b.events != []
  }

  lemma {:induction false} EventsOfMember(bs: Buffers, b: SessionBuffer)
    requires b in bs && b.events != []
    ensures EventsOf(bs, b.sid) != []
  {
    if bs == [] {
    } else if bs[|bs| - 1] == b {
    } else {
      assert bs == bs[..|bs| - 1] + [bs[|bs| - 1]];
      EventsOfMember(bs[..|bs| - 1], b);
    }
  }

  /** The event in a live buffer belongs to a live record. */
  lemma BufferedIsLive(ws: WState, b: SessionBuffer)
    requires Agree(ws, ws.agg.buffers) && b in ws.agg.buffers && b.events != []
    ensures HasLive(ws.ledger, b.sid)
  {
    hide Pick, EventsOf;
    assert AgreesOn(ws, ws.agg.buffers, b.sid);
    EventsOfMember(ws.agg.buffers, b);
    var p := Pick(ws.ledger, b.sid, InBuffer);
    assert |Envs(p)| > 0;
    var k := PickFrom(ws.ledger, b.sid, InBuffer, p[0]);
    assert ws.ledger[k] in ws.ledger;
  }

  /** A step that finds no room for its session evicts an event. */
  lemma OverflowEvicts(cfg: Config, ws: WState, op: WOp)
    requires Agree(ws, ws.agg.buffers) && AllFilled(ws.agg.buffers) && Overflows(cfg, ws.agg.buffers, op)
    ensures !NoEviction(WStep(cfg, ws, op).ledger)
  {
    var env, bs := op.env.value, ws.agg.buffers;
    var tracked := ws.ledger + [Record(op.id, op.env, Tracked, Live)];
    var (others, buf) := Touched(bs, env, op.now);
    assert others == bs && buf.sid == env.sid;
    var evicted := (others + [buf])[..Overflow(cfg, bs, env.sid)];
    assert evicted != [] && evicted[0] == (others + [buf])[0];
    hide Agree, Touched, Overflow, Overflows, IndexOf;
    if others == [] {
      assert tracked[|ws.ledger|] in tracked && Of(tracked[|ws.ledger|], env.sid);
    } else {
      BufferedIsLive(ws, bs[0]);
      LiveStays(ws.ledger, tracked, bs[0].sid);
    }
    EvictMarks(tracked, evicted);
    var delivered := DeliverStep(cfg, ws, op.id, env, op.now);
    assert delivered.ledger == EvictAll(tracked, evicted);
    hide NoEviction, EvictAll, DeliverStep, Settle, IngestResult;
    var ready := IngestResult(cfg, bs, env, op.now);
    if ready.Some? {
      SettleEvolves(delivered.ledger, ready.value.sid, FlushFate(ready.value, op.fate));
      var after := Settle(delivered.ledger, ready.value.sid, FlushFate(ready.value, op.fate));
      if NoEviction(after) {
        EvictionStays(delivered.ledger, after);
      }
    }
  }

  lemma LiveStays(ledger: seq<Record>, more: seq<Record>, sid: Sid)
    requires HasLive(ledger, sid) && ledger <= more
    ensures HasLive(more, sid)
  {
    var r :| r in ledger && Of(r, sid) && r.place == Live;
    assert r in more;
  }

  lemma SettleEvolves(ledger: seq<Record>, sid: Sid, fate: Fate)
    ensures LedgerEvolves(ledger, Settle(ledger, sid, fate))
  {
  }

  lemma StepFilled(cfg: Config, ws: WState, op: WOp)
    requires AllFilled(ws.agg.buffers)
    ensures AllFilled(WStep(cfg, ws, op).agg.buffers)
  {
    hide Ready, IndexOf, StaleCount, FlushAll, EvictAll;
    match op {
      case Entry(id, None, now, fate) =>
      case Entry(id, Some(env), now, fate) => IngestFilled(cfg, ws.agg, env, now);
      case Idle(now, fates) =>
        var n := StaleCount(cfg, ws.agg.buffers, now);
        FlushAllKeepsAgg(ws.(agg := Step(cfg, ws.agg, DrainIdle(now))), ws.agg.buffers[..n], fates);
      case Shutdown(fates) =>
        FlushAllKeepsAgg(ws.(agg := Step(cfg, ws.agg, DrainAll)), ws.agg.buffers, fates);
    }
  }

  lemma IngestFilled(cfg: Config, s: State, env: Envelope, now: real)
    requires AllFilled(s.buffers)
    ensures AllFilled(IngestStep(cfg, s, env, now).buffers)
  {
    hide Ready, IndexOf, Overflow;
  }

  lemma {:induction false} FlushAllKeepsAgg(ws: WState, bufs: seq<SessionBuffer>, fates: Sid -> Fate)
    ensures FlushAll(ws, bufs, fates).agg == ws.agg
    decreases |bufs|
  {
    hide FlushFate, Settle;
    if bufs == [] {
    } else {
      FlushAllKeepsAgg(FlushStep(ws, bufs[0], fates(bufs[0].sid)), bufs[1..], fates);
    }
  }

  /** No session ever has to be opened while the buffers are at their cap. */
  predicate AlwaysRoom(cfg: Config, ops: seq<WOp>) {
    forall n :: 0 <= n < |ops| ==> !Overflows(cfg, WRun(cfg, ops[..n]).agg.buffers, ops[n])
  }

  lemma AlwaysRoomStep(cfg: Config, ops: seq<WOp>)
    requires ops != []
    ensures var init := ops[..|ops| - 1];
      AlwaysRoom(cfg, ops) <==>
        AlwaysRoom(cfg, init) && !Overflows(cfg, WRun(cfg, init).agg.buffers, ops[|ops| - 1])
  {
    hide WRun, Overflows;
    var init := ops[..|ops| - 1];
    forall n | 0 <= n < |init| ensures init[..n] == ops[..n] && init[n] == ops[n] {
    }
  }

  lemma {:induction false} RunFilled(cfg: Config, ops: seq<WOp>)
    ensures AllFilled(WRun(cfg, ops).agg.buffers)
  {
    hide WStep;
    if ops == [] {
    } else {
      hide AllFilled;
      RunFilled(cfg, ops[..|ops| - 1]);
      StepFilled(cfg, WRun(cfg, ops[..|ops| - 1]), ops[|ops| - 1]);
    }
  }

  /** Exactly the runs that always have room evict no event. */
  lemma {:induction false} NoEvictionIff(cfg: Config, ops: seq<WOp>)
    ensures NoEviction(WRun(cfg, ops).ledger) <==> AlwaysRoom(cfg, ops)
  {
    hide WStep;
    if ops == [] {
    } else {
      hide NoEviction, AlwaysRoom, Overflows, Agree, AllFilled, LedgerEvolves;
      var init, op := ops[..|ops| - 1], ops[|ops| - 1];
      var ws := WRun(cfg, init);
      NoEvictionIff(cfg, init);
      AlwaysRoomStep(cfg, ops);
      WRunAgrees(cfg, init);
      RunFilled(cfg, init);
      if Overflows(cfg, ws.agg.buffers, op) {
        OverflowEvicts(cfg, ws, op);
      } else if NoEviction(ws.ledger) {
        QuietStep(cfg, ws, op);
      } else {
        WStepEvolves(cfg, ws, op);
        if NoEviction(WStep(cfg, ws, op).ledger) {
          EvictionStays(ws.ledger, WStep(cfg, ws, op).ledger);
        }
      }
    }
  }

  /** In a run that always has room, every acknowledged decoded entry was persisted. */
  lemma AckedImpliesPersisted(cfg: Config, ops: seq<WOp>, i: nat)
    requires AlwaysRoom(cfg, ops) && i < |WRun(cfg, ops).ledger|
    requires var r := WRun(cfg, ops).ledger[i]; r.env.Some? && r.status == Settled(Acked)
    ensures var ws := WRun(cfg, ops);
      ws.ledger[i].env.value in EventsOf(ws.persisted, ws.ledger[i].env.value.sid)
  {
    hide WRun, AlwaysRoom;
    NoEvictionIff(cfg, ops);
    assert WRun(cfg, ops).ledger[i] in WRun(cfg, ops).ledger;
    AckedWasPersisted(cfg, ops, i);
  }

  // ---- a run with few sessions always has room -----------------------------------------------------

  /** A new session fits when all sessions together do. */
  lemma AllFit(cfg: Config, bs: Buffers, op: WOp, all: set<Sid>)
    requires Distinct(bs) && Sids(bs) <= all && |all| <= cfg.maxSessions
    requires op.Entry? && op.env.Some? ==> op.env.value.sid in all
    ensures !Overflows(cfg, bs, op)
  {
    if op.Entry? && op.env.Some? && IndexOf(bs, op.env.value.sid) == -1 {
      DistinctCount(bs);
      assert op.env.value.sid !in Sids(bs);
      SubsetSize(Sids(bs) + {op.env.value.sid}, all);
    }
  }

  lemma StepSids(cfg: Config, ws: WState, op: WOp, all: set<Sid>)
    requires Sids(ws.agg.buffers) <= all && (op.Entry? && op.env.Some? ==> op.env.value.sid in all)
    ensures Sids(WStep(cfg, ws, op).agg.buffers) <= all
  {
    hide Sids, IngestStep, IngestResult, Overflow, Touched, StaleCount, FlushAll, EvictAll, Settle;
    match op {
      case Entry(id, None, now, fate) =>
      case Entry(id, Some(env), now, fate) => IngestSids(cfg, ws.agg, env, now, all);
      case Idle(now, fates) =>
        var n := StaleCount(cfg, ws.agg.buffers, now);
        FlushAllKeepsAgg(ws.(agg := Step(cfg, ws.agg, DrainIdle(now))), ws.agg.buffers[..n], fates);
        FewerSids(ws.agg.buffers[n..], ws.agg.buffers);
      case Shutdown(fates) =>
        FlushAllKeepsAgg(ws.(agg := Step(cfg, ws.agg, DrainAll)), ws.agg.buffers, fates);
        FewerSids([], ws.agg.buffers);
    }
  }

  lemma FewerSids(bs: Buffers, all: Buffers)
    requires forall b :: b in bs ==> b in all
    ensures Sids(bs) <= Sids(all)
  {
  }

  lemma IngestSids(cfg: Config, s: State, env: Envelope, now: real, all: set<Sid>)
    requires Sids(s.buffers) <= all && env.sid in all
    ensures Sids(IngestStep(cfg, s, env, now).buffers) <= all
  {
    hide Ready, Overflow, IndexOf;
    TouchedSids(s.buffers, env, now);
    hide Touched;
  }

  lemma TouchedSids(bs: Buffers, env: Envelope, now: real)
    ensures var (others, buf) := Touched(bs, env, now); buf.sid == env.sid && forall b :: b in others ==> b in bs
  {
  }

  lemma {:induction false} FewSessionsFit(cfg: Config, ops: seq<WOp>, all: set<Sid>)
    requires Sessions(ops) <= all && |all| <= cfg.maxSessions
    ensures AlwaysRoom(cfg, ops) && Sids(WRun(cfg, ops).agg.buffers) <= all
  {
    hide WStep;
    if ops == [] {
    } else {
      hide AlwaysRoom, Overflows, Sids;
      var init, op := ops[..|ops| - 1], ops[|ops| - 1];
      FewSessionsFit(cfg, init, all);
      AlwaysRoomStep(cfg, ops);
      WRunAgrees(cfg, init);
      AllFit(cfg, WRun(cfg, init).agg.buffers, op, all);
      StepSids(cfg, WRun(cfg, init), op, all);
    }
  }

  lemma {:induction false} RunEvolves(cfg: Config, ops: seq<WOp>, n: nat)
    requires n <= |ops|
    ensures LedgerEvolves(WRun(cfg, ops[..n]).ledger, WRun(cfg, ops).ledger)
    decreases |ops|
  {
    if n == |ops| {
      assert ops[..n] == ops;
    } else {
      hide WStep, LedgerEvolves;
      var init := ops[..|ops| - 1];
      assert init[..n] == ops[..n];
      RunEvolves(cfg, init, n);
      WStepEvolves(cfg, WRun(cfg, init), ops[|ops| - 1]);
      EvolvesTransitive(WRun(cfg, ops[..n]).ledger, WRun(cfg, init).ledger, WRun(cfg, ops).ledger);
    }
  }

  // ---- and with an eviction -----------------------------------------------------------------------

  function Fresh(env: Envelope, now: real): SessionBuffer {
    SessionBuffer(env.sid, env.service, env.srcIp, env.srcPort, now, now, [env])
  }

  datatype Arrival = Arrival(id: EntryId, env: Envelope, now: real)

  /** Deliveries whose flushes, if any, succeed. */
  function Entries(arrivals: seq<Arrival>): seq<WOp> {
    seq(|arrivals|, i requires 0 <= i < |arrivals| =>
      Entry(arrivals[i].id, Some(arrivals[i].env), arrivals[i].now, Acked))
  }

  function Opened(arrivals: seq<Arrival>): Buffers {
    seq(|arrivals|, i requires 0 <= i < |arrivals| => Fresh(arrivals[i].env, arrivals[i].now))
  }

  lemma EntriesAdd(arrivals: seq<Arrival>, a: Arrival)
    ensures Entries(arrivals + [a]) == Entries(arrivals) + [Entry(a.id, Some(a.env), a.now, Acked)]
    ensures Opened(arrivals + [a]) == Opened(arrivals) + [Fresh(a.env, a.now)]
  {
  }

  lemma WRunAdd(cfg: Config, ops: seq<WOp>, op: WOp)
    ensures WRun(cfg, ops + [op]) == WStep(cfg, WRun(cfg, ops), op)
  {
    hide WStep;
    assert (ops + [op])[..|ops|] == ops;
  }

  lemma FreshTouch(cfg: Config, bs: Buffers, env: Envelope, now: real)
    requires forall b :: b in bs ==> b.sid != env.sid
    ensures Touched(bs, env, now) == (bs, Fresh(env, now).(events := []))
    ensures Overflow(cfg, bs, env.sid) == if |bs| >= cfg.maxSessions then |bs| + 1 - cfg.maxSessions else 0
  {
    MemberAt(bs, IndexOf(bs, env.sid));
  }

  lemma MemberAt(bs: Buffers, i: int)
    ensures 0 <= i < |bs| ==> bs[i] in bs
  {
  }

  lemma FreshIngest(cfg: Config, s: State, env: Envelope, now: real)
    requires cfg.maxSessions >= 1 && forall b :: b in s.buffers ==> b.sid != env.sid
    ensures Overflow(cfg, s.buffers, env.sid) <= |s.buffers|
    ensures var first := Fresh(env, now);
      var kept := s.buffers[Overflow(cfg, s.buffers, env.sid)..];
      && IngestStep(cfg, s, env, now).buffers == (if Ready(cfg, first) then kept else kept + [first])
      && IngestResult(cfg, s.buffers, env, now) == (if Ready(cfg, first) then Some(first) else None)
  {
    FreshTouch(cfg, s.buffers, env, now);
    hide Ready, Touched, Overflow;
    assert [] + [env] == [env];
  }

  /** The step of a session that is new, or not buffered any more: the oldest buffers make room. */
  lemma FreshStep(cfg: Config, ws: WState, a: Arrival)
    requires cfg.maxSessions >= 1 && forall b :: b in ws.agg.buffers ==> b.sid != a.env.sid
    ensures var after := WStep(cfg, ws, Entry(a.id, Some(a.env), a.now, Acked));
      var ids := PendingOf(ws.pending, a.env.sid) + [a.id];
      var kept := ws.agg.buffers[Overflow(cfg, ws.agg.buffers, a.env.sid)..];
      var first := Fresh(a.env, a.now);
      if Ready(cfg, first) then
        after.agg.buffers == kept && after.acked == ws.acked + ids && after.persisted == ws.persisted + [first]
      else
        && after.agg.buffers == kept + [first] && after.pending == ws.pending[a.env.sid := ids]
        && after.acked == ws.acked && after.persisted == ws.persisted
  {
    hide Ready, EvictAll, Touched, Overflow, Settle, IngestStep, IngestResult;
    FreshIngest(cfg, ws.agg, a.env, a.now);
  }

  /** One event each of different sessions that stay open. */
  predicate OpenSessions(cfg: Config, arrivals: seq<Arrival>) {
    && cfg.maxEvents > 1
    && (forall i, j :: 0 <= i < j < |arrivals| ==> arrivals[i].env.sid != arrivals[j].env.sid)
    && (forall a :: a in arrivals ==> a.env.eventType != SessionClose)
  }

  /** The sessions that arrived are open, but for the first if there is one more than fits; its id is
      tracked either way. */
  predicate FilledUp(cfg: Config, arrivals: seq<Arrival>, ws: WState) {
    && |arrivals| <= cfg.maxSessions + 1
    && ws.agg.buffers == (if |arrivals| <= cfg.maxSessions then Opened(arrivals) else Opened(arrivals)[1..])
    && ws.acked == [] && ws.persisted == []
    && if arrivals == [] then ws.pending == map[]
       else PendingOf(ws.pending, arrivals[0].env.sid) == [arrivals[0].id]
  }

  lemma FillOne(cfg: Config, init: seq<Arrival>, a: Arrival, ws: WState)
    requires cfg.maxSessions >= 1 && |init| <= cfg.maxSessions && OpenSessions(cfg, init + [a])
    requires FilledUp(cfg, init, ws)
    ensures FilledUp(cfg, init + [a], WStep(cfg, ws, Entry(a.id, Some(a.env), a.now, Acked)))
  {
    hide WStep, Ready, Opened, OpenSessions;
    var all := init + [a];
    NotYetOpened(cfg, init, a);
    FreshStep(cfg, ws, a);
    FreshTouch(cfg, ws.agg.buffers, a.env, a.now);
    EntriesAdd(init, a);
    assert |Opened(init)| == |init| by { OpenedLength(init); }
    if init == [] {
    } else {
      assert all[0] == init[0] && init[0] in init;
    }
  }

  lemma OpenedLength(arrivals: seq<Arrival>)
    ensures |Opened(arrivals)| == |arrivals|
  {
  }

  lemma {:induction false} FillUp(cfg: Config, arrivals: seq<Arrival>)
    requires cfg.maxSessions >= 1 && |arrivals| <= cfg.maxSessions + 1 && OpenSessions(cfg, arrivals)
    ensures FilledUp(cfg, arrivals, WRun(cfg, Entries(arrivals)))
  {
    hide WStep, Ready;
    if arrivals == [] {
    } else {
      var init, a := arrivals[..|arrivals| - 1], arrivals[|arrivals| - 1];
      assert arrivals == init + [a];
      assert forall b :: b in init ==> b in arrivals;
      assert OpenSessions(cfg, init);
      hide WRun, FilledUp, OpenSessions;
      FillUp(cfg, init);
      EntriesAdd(init, a);
      WRunAdd(cfg, Entries(init), Entry(a.id, Some(a.env), a.now, Acked));
      FillOne(cfg, init, a, WRun(cfg, Entries(init)));
    }
  }

  lemma NotYetOpened(cfg: Config, init: seq<Arrival>, a: Arrival)
    requires OpenSessions(cfg, init + [a])
    ensures forall b :: b in Opened(init) ==> b.sid != a.env.sid
    ensures forall b :: b in init ==> b.env.sid != a.env.sid
    ensures !Ready(cfg, Fresh(a.env, a.now))
  {
    ReadyFresh(cfg, a);
    hide Ready;
    assert a in init + [a];
    forall i | 0 <= i < |init| ensures init[i].env.sid != a.env.sid {
      assert (init + [a])[i] == init[i] && (init + [a])[|init|] == a;
    }
  }

  /** With any limits, the defaults included: one session, then as many others as there is room for, then
      the first one comes back to be closed. Its tracking list has survived the eviction, so its first
      entry is acknowledged along with the second, although its event never reached the database. */
  lemma EvictedYetAcked(cfg: Config, first: Arrival, others: seq<Arrival>, last: Arrival)
    requires cfg.maxSessions >= 1 && |others| == cfg.maxSessions && OpenSessions(cfg, [first] + others)
    requires last.env.sid == first.env.sid && last.env.eventType == SessionClose
    ensures var ws := WRun(cfg, Entries([first] + others + [last]));
      && ws.acked == [first.id, last.id] && ws.persisted == [Fresh(last.env, last.now)]
      && first.env !in EventsOf(ws.persisted, first.env.sid)
  {
    hide WRun, WStep, EventsOf, Entries, Opened;
    var arrivals := [first] + others;
    assert arrivals[0] == first;
    FillUp(cfg, arrivals);
    EntriesAdd(arrivals, last);
    WRunAdd(cfg, Entries(arrivals), Entry(last.id, Some(last.env), last.now, Acked));
    OthersDiffer(cfg, first, others);
    var ws := WRun(cfg, Entries(arrivals));
    FreshStep(cfg, ws, last);
    EventsOfOne(Fresh(last.env, last.now), first.env.sid);
    ReadyFresh(cfg, last);
    assert arrivals[0] in arrivals;
  }

  lemma ReadyFresh(cfg: Config, a: Arrival)
    requires cfg.maxEvents > 1
    ensures Ready(cfg, Fresh(a.env, a.now)) <==> a.env.eventType == SessionClose
  {
  }

  lemma OthersDiffer(cfg: Config, first: Arrival, others: seq<Arrival>)
    requires OpenSessions(cfg, [first] + others)
    ensures forall b :: b in Opened([first] + others)[1..] ==> b.sid != first.env.sid
  {
    hide Ready;
    var all := [first] + others;
    forall i | 0 <= i < |others| ensures Opened(all)[1..][i].sid != first.env.sid {
      assert all[0] == first && all[i + 1].env.sid != all[0].env.sid;
    }
  }
}
