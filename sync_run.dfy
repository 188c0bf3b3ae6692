/** ProductSyncService: staging the supplier payload, and one sync run over
    the decoded products inside one transaction, followed by the batch of
    follow-up jobs and the reaper. */
module SyncRun {
  import opened Common
  import opened Dto
  import opened Tables
  import opened Database
  import opened RelationSync
  import opened SyncProps
  import opened Normalizer
  import opened Reaper

  // ------------------------------------------------------------- staging

  /** storeDataIntoStagingTable: a staging row with the migration's
      defaults, status "pending" and async_processed_in 0. The returned id
      is the one handed to ProcessProductJob. */
  function StoreStaging(db: Db, payload: string): (r: (Db, nat))
    requires db.Valid()
    ensures r.0.Valid()
    ensures r.1 !in db.staging.rows && r.1 in r.0.staging.rows
    ensures r.0.staging.rows[r.1] == StagingRow(payload, "pending", 0)
    ensures r.0.staging.rows.Keys == db.staging.rows.Keys + {r.1}
    ensures forall id :: id in db.staging.rows ==> r.0.staging.rows[id] == db.staging.rows[id]
    ensures r.0 == db.(staging := r.0.staging)
  {
    var (t, id) := Insert(db.staging, StagingRow(payload, "pending", 0));
    (db.(staging := t), id)
  }

  /** The batch's then-callback: the staging row found at the start of the
      run records the duration and becomes "done". When no row was found the
      callback raises inside the batch and nothing is written. */
  function BatchFinished(db: Db, staging: Option<nat>, duration: int): (r: Db)
    ensures r == db.(staging := r.staging) && r.staging.next == db.staging.next
    ensures r.staging.rows.Keys == db.staging.rows.Keys
    ensures forall id :: id in db.staging.rows && Some(id) != staging ==> r.staging.rows[id] == db.staging.rows[id]
    ensures staging.Some? && staging.value in db.staging.rows ==>
      r.staging.rows[staging.value] == db.staging.rows[staging.value].(status := "done", asyncProcessedIn := duration)
  {
    if staging.Some? && staging.value in db.staging.rows then
      var id := staging.value;
      db.(staging := db.staging.(rows := db.staging.rows[id := db.staging.rows[id].(status := "done", asyncProcessedIn := duration)]))
    else db
  }

  /** `StagingProduct::query()->find(id)`. */
  function FindStaging(db: Db, id: nat): Option<nat> {
    if id in db.staging.rows then Some(id) else None
  }

  // ------------------------------------------------------------ the loop

  /** The row `Product::updateOrCreate` leaves for a product: every column
      of toDatabaseRow, created_at and updated_at set to the run's start. The
      text stored for the variations is a parameter. */
  function SyncedRow(d: ProductDto, start: int, encodeV: VariationsData -> string): ProductRow {
    ProductRow(Some(d.name), Some(d.sku), d.price, Some(Currency), Some(encodeV(d.variations)), Some(d.status),
               start, start, None)
  }

  /** `Product::updateOrCreate(['id' => id], row)`. The lookup sees live
      rows only: a live row is overwritten; a soft-deleted row with that id
      makes the insert collide with it and the statement raises (None); an
      insert with a new id moves the auto-increment counter past it. */
  function UpdateOrCreate(db: Db, d: ProductDto, start: int, encodeV: VariationsData -> string): (r: Option<Db>)
    ensures r.None? <==> d.id in db.products && !db.products[d.id].Live()
    ensures r.Some? ==> r.value == db.(products := r.value.products, productCounter := r.value.productCounter)
    ensures r.Some? ==> r.value.products == db.products[d.id := SyncedRow(d, start, encodeV)]
    ensures r.Some? ==> db.productCounter <= r.value.productCounter && (d.id < r.value.productCounter || d.id in db.products)
  {
    if d.id in db.products && !db.products[d.id].Live() then None
    else
      Some(db.(products := db.products[d.id := SyncedRow(d, start, encodeV)],
               productCounter := if d.id in db.products || d.id < db.productCounter then db.productCounter else d.id + 1))
  }

  /** One iteration with the relation sync the service defines
      (syncProductRelations): normalise, write the row, find it, sync its
      relations. The id it yields is the one appended to the synced ids. */
  function SyncOne(db: Db, raw: RawProduct, start: int, encodeV: VariationsData -> string): (r: Option<(Db, int)>)
    requires db.Valid()
    ensures r.Some? ==> r.value.0.Valid() && r.value.1 == raw.id
  {
    match Normalize(raw)
    case None => None
    case Some(d) =>
      NormalizeStatus(raw);
      match UpdateOrCreate(db, d, start, encodeV)
      case None => None
      case Some(db1) =>
        match SyncRelations(db1, d.id, d.variations, d.warehouses)
        case None => None
        case Some(db2) => Some((db2, d.id))
  }

  /** The loop inside the transaction: None when some iteration raises. */
  function SyncLoop(db: Db, raws: seq<RawProduct>, start: int, encodeV: VariationsData -> string): (r: Option<(Db, seq<int>)>)
    requires db.Valid()
    ensures r.Some? ==> r.value.0.Valid()
    decreases |raws|
  {
    if raws == [] then Some((db, []))
    else
      match SyncOne(db, raws[0], start, encodeV)
      case None => None
      case Some((db1, id)) =>
        match SyncLoop(db1, raws[1..], start, encodeV)
        case None => None
        case Some((db2, ids)) => Some((db2, [id] + ids))
  }

  /** The array syncFromExternalApi returns. */
  datatype SyncResponse = Succeeded(synced: nat) | Failed

  /** What a run leaves behind: the database, the response, and the ids
      handed to the queued RemoveOutdatedProducts job, if it was queued. */
  datatype SyncEffect = SyncEffect(db: Db, response: SyncResponse, reaper: Option<seq<int>>)

  /** syncFromExternalApi with the relation sync the service defines and a
      batch that does not need a product: a raise anywhere rolls the whole
      loop back. */
  function SyncFromExternalApi(db: Db, raws: seq<RawProduct>, start: int, encodeV: VariationsData -> string): (r: SyncEffect)
    requires db.Valid()
    ensures r.db.Valid()
    ensures r.response.Failed? <==> r.reaper.None?
    ensures r.response.Failed? ==> r.db == db
  {
    match SyncLoop(db, raws, start, encodeV)
    case None => SyncEffect(db, Failed, None)
    case Some((db1, ids)) => SyncEffect(db1, Succeeded(|ids|), Some(ids))
  }

  /** syncFromExternalApi as written. Line 71 calls `sync` on the relation
      service, which has no such method: the first iteration that gets that
      far raises and the loop is rolled back. With no products, the batch is
      named after `$product`, which was never assigned: that raises after the
      (empty) commit. No run succeeds. */
  function SyncFromExternalApiAsWritten(db: Db, raws: seq<RawProduct>, start: int,
                                        encodeV: VariationsData -> string): (r: SyncEffect)
    ensures r == SyncEffect(db, Failed, None)
  {
    if raws == [] then SyncEffect(db, Failed, None)
    else
      match Normalize(raws[0])
      case None => SyncEffect(db, Failed, None)
      case Some(d) =>
        match UpdateOrCreate(db, d, start, encodeV)
        case None => SyncEffect(db, Failed, None)
        case Some(_) => SyncEffect(db, Failed, None)
  }

  // ---------------------------------------------------------- properties

  /** Product `id` is soft-deleted in `db`. */
  predicate SoftDeleted(db: Db, id: int) {
    id in db.products && !db.products[id].Live()
  }

  /** A record the loop raises on: no variations, a variation without a
      colour or a material, or the id of a soft-deleted product. */
  predicate Rejected(db: Db, raw: RawProduct) {
    !Normalizable(raw) || SoftDeleted(db, raw.id)
  }

  /** The ids of the records. */
  function Ids(raws: seq<RawProduct>): (ids: set<int>)
    ensures forall k :: 0 <= k < |raws| ==> raws[k].id in ids
    ensures forall id :: id in ids ==> exists k :: 0 <= k < |raws| && raws[k].id == id
    decreases |raws|
  {
    if raws == [] then {}
    else
      var rest := Ids(raws[1..]);
      assert forall k :: 1 <= k < |raws| ==> raws[k] == raws[1..][k - 1];
      {raws[0].id} + rest
  }

  /** What a successful run over `raws` leaves in the products table: each
      named product is live with the run's start as created_at and
      updated_at, no product disappears, no other id appears, no other row
      changes, and the staging table is untouched. */
  ghost predicate Synced(db: Db, r: Db, raws: seq<RawProduct>, start: int) {
    && (forall raw :: raw in raws ==>
          raw.id in r.products && r.products[raw.id].Live()
          && r.products[raw.id].createdAt == start && r.products[raw.id].updatedAt == start)
    && (forall id :: id in r.products <==> id in db.products || id in Ids(raws))
    && (forall id :: id in db.products && id !in Ids(raws) ==> r.products[id] == db.products[id])
    && r.staging == db.staging
  }

  /** One iteration raises exactly on a rejected record; otherwise it
      leaves the product synced and changes no other product row. */
  lemma SyncOneSpec(db: Db, raw: RawProduct, start: int, encodeV: VariationsData -> string)
    requires db.Valid()
    ensures var r := SyncOne(db, raw, start, encodeV);
      && (r.None? <==> Rejected(db, raw))
      && (r.Some? ==> var p := r.value.0.products;
            && raw.id in p && p[raw.id].Live() && p[raw.id].createdAt == start && p[raw.id].updatedAt == start
            && p.Keys == db.products.Keys + {raw.id}
            && (forall id :: id in db.products && id != raw.id ==> p[id] == db.products[id])
            && r.value.0.staging == db.staging)
  {
    NormalizeFails(raw);
    match Normalize(raw)
    case None =>
    case Some(d) =>
      NormalizeStatus(raw);
      match UpdateOrCreate(db, d, start, encodeV)
      case None =>
      case Some(db1) =>
        assert d.warehouses == Some([]);
        SyncRelationsWithoutWarehouses(db1, d.id, d.variations, d.warehouses);
        SyncRelationsVariations(db1, d.id, d.variations, d.warehouses);
  }

  /** A single product written live at `start`, nothing else changed, is
      that product synced. */
  lemma SyncedSingle(db: Db, r: Db, raw: RawProduct, start: int)
    requires raw.id in r.products && r.products[raw.id].Live()
    requires r.products[raw.id].createdAt == start && r.products[raw.id].updatedAt == start
    requires r.products.Keys == db.products.Keys + {raw.id}
    requires forall id :: id in db.products && id != raw.id ==> r.products[id] == db.products[id]
    requires r.staging == db.staging
    ensures Synced(db, r, [raw], start)
  {
    assert Ids([raw]) == {raw.id} by {
      assert [raw][1..] == [];
    }
  }

  /** One iteration in terms of Synced. */
  lemma SyncOneSynced(db: Db, raw: RawProduct, start: int, encodeV: VariationsData -> string)
    requires db.Valid() && SyncOne(db, raw, start, encodeV).Some?
    ensures Synced(db, SyncOne(db, raw, start, encodeV).value.0, [raw], start)
  {
    SyncOneSpec(db, raw, start, encodeV);
    SyncedSingle(db, SyncOne(db, raw, start, encodeV).value.0, raw, start);
  }

  /** A record is rejected after a successful iteration exactly when it was
      rejected before: the loop only writes live rows. */
  lemma RejectedStable(db: Db, raw: RawProduct, start: int, encodeV: VariationsData -> string, other: RawProduct)
    requires db.Valid() && SyncOne(db, raw, start, encodeV).Some?
    ensures Rejected(SyncOne(db, raw, start, encodeV).value.0, other) <==> Rejected(db, other)
  {
    SyncOneSpec(db, raw, start, encodeV);
    LiveWriteKeepsRejected(db, SyncOne(db, raw, start, encodeV).value.0, raw.id, other);
  }

  /** Writing one live row over a row that was not soft-deleted, and
      keeping every other row, neither causes nor cures a rejection. */
  lemma LiveWriteKeepsRejected(db: Db, r: Db, id: int, other: RawProduct)
    requires !SoftDeleted(db, id) && id in r.products && r.products[id].Live()
    requires r.products.Keys == db.products.Keys + {id}
    requires forall x :: x in db.products && x != id ==> r.products[x] == db.products[x]
    ensures Rejected(r, other) <==> Rejected(db, other)
  {
  }

  /** One iteration raises exactly on a rejected record. */
  lemma SyncOneRejected(db: Db, raw: RawProduct, start: int, encodeV: VariationsData -> string)
    requires db.Valid()
    ensures SyncOne(db, raw, start, encodeV).None? <==> Rejected(db, raw)
  {
    SyncOneSpec(db, raw, start, encodeV);
  }

  /** The run raises exactly when some record has no variations or names a
      soft-deleted product. */
  lemma {:induction false} SyncLoopFails(db: Db, raws: seq<RawProduct>, start: int, encodeV: VariationsData -> string)
    requires db.Valid()
    ensures SyncLoop(db, raws, start, encodeV).None? <==> exists k :: 0 <= k < |raws| && Rejected(db, raws[k])
    decreases |raws|
  {
    if raws != [] {
      SyncOneRejected(db, raws[0], start, encodeV);
      if SyncOne(db, raws[0], start, encodeV).Some? {
        SyncLoopFails(SyncOne(db, raws[0], start, encodeV).value.0, raws[1..], start, encodeV);
        if SyncLoop(db, raws, start, encodeV).None? {
          RejectedLater(db, raws, start, encodeV);
        } else {
          NoneRejectedLater(db, raws, start, encodeV);
        }
      }
    }
  }

  /** A record rejected by the rest of the run was already rejected. */
  lemma RejectedLater(db: Db, raws: seq<RawProduct>, start: int, encodeV: VariationsData -> string)
    requires db.Valid() && raws != [] && SyncOne(db, raws[0], start, encodeV).Some?
    requires var db1 := SyncOne(db, raws[0], start, encodeV).value.0;
      exists k :: 0 <= k < |raws[1..]| && Rejected(db1, raws[1..][k])
    ensures exists k :: 0 <= k < |raws| && Rejected(db, raws[k])
  {
    var db1 := SyncOne(db, raws[0], start, encodeV).value.0;
    var tail := raws[1..];
    var k :| 0 <= k < |tail| && Rejected(db1, tail[k]);
    RejectedStable(db, raws[0], start, encodeV, tail[k]);
    assert raws[k + 1] == tail[k];
  }

  /** A run whose first record and tail pass rejects none of its records. */
  lemma NoneRejectedLater(db: Db, raws: seq<RawProduct>, start: int, encodeV: VariationsData -> string)
    requires db.Valid() && raws != [] && SyncOne(db, raws[0], start, encodeV).Some?
    requires var db1 := SyncOne(db, raws[0], start, encodeV).value.0;
      !exists k :: 0 <= k < |raws[1..]| && Rejected(db1, raws[1..][k])
    ensures !exists k :: 0 <= k < |raws| && Rejected(db, raws[k])
  {
    var tail := raws[1..];
    SyncOneRejected(db, raws[0], start, encodeV);
    forall k | 0 <= k < |raws| ensures !Rejected(db, raws[k]) {
      if k > 0 {
        assert raws[k] == tail[k - 1];
        RejectedStable(db, raws[0], start, encodeV, raws[k]);
      }
    }
  }

  /** On success the synced ids are the records' ids, in input order. */
  lemma {:induction false} SyncLoopIds(db: Db, raws: seq<RawProduct>, start: int, encodeV: VariationsData -> string)
    requires db.Valid() && SyncLoop(db, raws, start, encodeV).Some?
    ensures var ids := SyncLoop(db, raws, start, encodeV).value.1;
      |ids| == |raws| && forall k :: 0 <= k < |raws| ==> ids[k] == raws[k].id
    decreases |raws|
  {
    if raws != [] {
      var one := SyncOne(db, raws[0], start, encodeV);
      assert one.Some?;
      var rest := SyncLoop(one.value.0, raws[1..], start, encodeV);
      assert rest.Some? && SyncLoop(db, raws, start, encodeV).value.1 == [raws[0].id] + rest.value.1;
      SyncLoopIds(one.value.0, raws[1..], start, encodeV);
    }
  }

  /** A synced product stays synced when later records sync theirs. */
  lemma SyncedTrans(db: Db, mid: Db, r: Db, raw: RawProduct, rest: seq<RawProduct>, start: int)
    requires Synced(db, mid, [raw], start) && Synced(mid, r, rest, start)
    ensures Synced(db, r, [raw] + rest, start)
  {
    var raws := [raw] + rest;
    assert raws[1..] == rest && [raw][1..] == [];
    assert Ids(raws) == {raw.id} + Ids(rest);
    assert Ids([raw]) == {raw.id};
    forall x | x in raws
      ensures x.id in r.products && r.products[x.id].Live()
              && r.products[x.id].createdAt == start && r.products[x.id].updatedAt == start
    {
      if x != raw {
        assert x in rest;
      } else if raw.id in Ids(rest) {
        var k :| 0 <= k < |rest| && rest[k].id == raw.id;
        assert rest[k] in rest;
      }
    }
  }

  /** On success every record's product is live with the run's start as
      created_at and updated_at, and every other product row is as it was. */
  lemma {:induction false} SyncLoopRows(db: Db, raws: seq<RawProduct>, start: int, encodeV: VariationsData -> string)
    requires db.Valid() && SyncLoop(db, raws, start, encodeV).Some?
    ensures Synced(db, SyncLoop(db, raws, start, encodeV).value.0, raws, start)
    decreases |raws|
  {
    if raws != [] {
      SyncOneSynced(db, raws[0], start, encodeV);
      var db1 := SyncOne(db, raws[0], start, encodeV).value.0;
      SyncLoopRows(db1, raws[1..], start, encodeV);
      assert raws == [raws[0]] + raws[1..];
      SyncedTrans(db, db1, SyncLoop(db, raws, start, encodeV).value.0, raws[0], raws[1..], start);
    }
  }

  /** On success the response counts the input products and the reaper
      gets their ids in input order; after the reaper has run, the live
      products are exactly the ones the run named. */
  lemma SyncThenReap(db: Db, raws: seq<RawProduct>, start: int, encodeV: VariationsData -> string, now: int)
    requires db.Valid()
    ensures var e := SyncFromExternalApi(db, raws, start, encodeV);
      e.response.Succeeded? ==>
        && e.response.synced == |raws|
        && e.reaper.value == seq(|raws|, k requires 0 <= k < |raws| => raws[k].id)
        && var r := Reap(e.db, e.reaper.value, now);
           forall id :: id in r.products ==> (r.products[id].Live() <==> id in Ids(raws))
  {
    var e := SyncFromExternalApi(db, raws, start, encodeV);
    if e.response.Succeeded? {
      SyncLoopIds(db, raws, start, encodeV);
      SyncLoopRows(db, raws, start, encodeV);
      ReapSynced(db, e.db, raws, start, e.reaper.value, now);
    }
  }

  /** After a successful run, the reaper given the records' ids leaves live
      exactly the products the records name. */
  lemma ReapSynced(db: Db, r0: Db, raws: seq<RawProduct>, start: int, ids: seq<int>, now: int)
    requires Synced(db, r0, raws, start)
    requires |ids| == |raws| && forall k :: 0 <= k < |raws| ==> ids[k] == raws[k].id
    ensures var r := Reap(r0, ids, now);
      forall id :: id in r.products ==> (r.products[id].Live() <==> id in Ids(raws))
  {
    var r := Reap(r0, ids, now);
    forall id | id in r.products ensures r.products[id].Live() <==> id in Ids(raws) {
      if id in Ids(raws) {
        var k :| 0 <= k < |raws| && raws[k].id == id;
        assert ids[k] == id && raws[k] in raws;
        ReapLive(r0, ids, now, id);
      }
      if r.products[id].Live() {
        var k :| 0 <= k < |ids| && ids[k] == id;
        assert raws[k].id == id;
      }
    }
  }

  /** The empty payload: as written the run fails on the unassigned
      `$product`; as intended it succeeds with nothing synced and writes
      nothing, and the reaper is queued with no ids, so it soft-deletes
      every product: the catalogue is emptied. */
  lemma EmptyPayloadFinding(db: Db, start: int, encodeV: VariationsData -> string, now: int)
    requires db.Valid()
    ensures SyncFromExternalApiAsWritten(db, [], start, encodeV).response == Failed
    ensures SyncFromExternalApi(db, [], start, encodeV) == SyncEffect(db, Succeeded(0), Some([]))
    ensures var e := SyncFromExternalApi(db, [], start, encodeV);
      forall id :: id in Reap(e.db, e.reaper.value, now).products ==> !Reap(e.db, e.reaper.value, now).products[id].Live()
  {
    ReapDefault(db, now);
  }

  /** One well-formed product whose id is not soft-deleted: as written the
      run fails at the call to `sync`; as intended it syncs that product. */
  lemma SyncMethodFinding(db: Db, raw: RawProduct, start: int, encodeV: VariationsData -> string)
    requires db.Valid() && Normalizable(raw) && !SoftDeleted(db, raw.id)
    ensures SyncFromExternalApiAsWritten(db, [raw], start, encodeV).response == Failed
    ensures SyncFromExternalApi(db, [raw], start, encodeV).response == Succeeded(1)
  {
    SyncLoopFails(db, [raw], start, encodeV);
    SyncLoopIds(db, [raw], start, encodeV);
  }

  // ------------------------------------------------------------- methods

  /** One iteration on the store; when it raises the store may hold a
      partial write, which the caller rolls back. */
  method SyncOneStep(store: Store, raw: RawProduct, start: int, encodeV: VariationsData -> string) returns (ok: bool)
    requires store.Valid()
    modifies store
    ensures store.Valid()
    ensures ok == SyncOne(old(store.State()), raw, start, encodeV).Some?
    ensures ok ==> store.State() == SyncOne(old(store.State()), raw, start, encodeV).value.0
  {
    var dto := NormalizeExternalProduct(raw);
    if dto.None? {
      return false;
    }
    var d := dto.value;
    NormalizeStatus(raw);
    var written := UpdateOrCreate(store.State(), d, start, encodeV);
    if written.None? {
      return false;
    }
    store.products, store.productCounter := written.value.products, written.value.productCounter;
    ok := SyncProductRelations(store, d.id, d.variations, d.warehouses);
  }

  /** The remaining iterations' result with the ids collected so far in front. */
  function Prefixed(ids: seq<int>, r: Option<(Db, seq<int>)>): Option<(Db, seq<int>)> {
    match r
    case None => None
    case Some((d, rest)) => Some((d, ids + rest))
  }

  /** One iteration of the loop seen from the whole run. */
  lemma PrefixedStep(ids: seq<int>, db: Db, raws: seq<RawProduct>, i: int, start: int, encodeV: VariationsData -> string)
    requires db.Valid() && 0 <= i < |raws|
    ensures var one := SyncOne(db, raws[i], start, encodeV);
      Prefixed(ids, SyncLoop(db, raws[i..], start, encodeV)) ==
        if one.None? then None else Prefixed(ids + [raws[i].id], SyncLoop(one.value.0, raws[i + 1..], start, encodeV))
  {
    assert raws[i..][0] == raws[i] && raws[i..][1..] == raws[i + 1..];
    var one := SyncOne(db, raws[i], start, encodeV);
    if one.Some? {
      match SyncLoop(one.value.0, raws[i + 1..], start, encodeV)
      case None =>
      case Some((d, rest)) =>
        assert ids + ([raws[i].id] + rest) == (ids + [raws[i].id]) + rest;
    }
  }

  /** Before the first iteration nothing has been collected. */
  lemma PrefixedStart(db: Db, raws: seq<RawProduct>, start: int, encodeV: VariationsData -> string)
    requires db.Valid()
    ensures Prefixed([], SyncLoop(db, raws[0..], start, encodeV)) == SyncLoop(db, raws, start, encodeV)
  {
    assert raws[0..] == raws;
    match SyncLoop(db, raws, start, encodeV)
    case None =>
    case Some((d, rest)) =>
      assert [] + rest == rest;
  }

  /** After the last iteration the whole run's result is the ids collected. */
  lemma PrefixedEnd(ids: seq<int>, db: Db, raws: seq<RawProduct>, start: int, encodeV: VariationsData -> string)
    requires db.Valid()
    ensures Prefixed(ids, SyncLoop(db, raws[|raws|..], start, encodeV)) == Some((db, ids))
  {
    assert raws[|raws|..] == [];
    assert ids + [] == ids;
  }

  /** syncFromExternalApi on the store, with the relation sync the service
      defines. The run does not write the staging table: its row is only
      handed to the batch callback, modelled by BatchFinished. */
  method SyncFromExternalApiRun(store: Store, raws: seq<RawProduct>, start: int, encodeV: VariationsData -> string)
    returns (response: SyncResponse, reaper: Option<seq<int>>)
    requires store.Valid()
    modifies store
    ensures store.Valid()
    ensures SyncEffect(store.State(), response, reaper) == SyncFromExternalApi(old(store.State()), raws, start, encodeV)
  {
    var saved := store.State();
    var syncedIds: seq<int> := [];
    var i := 0;
    PrefixedStart(saved, raws, start, encodeV);
    while i < |raws|
      invariant 0 <= i <= |raws| && store.Valid()
      invariant SyncLoop(saved, raws, start, encodeV) == Prefixed(syncedIds, SyncLoop(store.State(), raws[i..], start, encodeV))
    {
      ghost var before := store.State();
      ghost var whole := SyncLoop(saved, raws, start, encodeV);
      PrefixedStep(syncedIds, before, raws, i, start, encodeV);
      var ok := SyncOneStep(store, raws[i], start, encodeV);
      if !ok {
        assert whole.None?;
        store.Restore(saved);
        return Failed, None;
      }
      ghost var after := store.State();
      assert after == SyncOne(before, raws[i], start, encodeV).value.0;
      assert whole == Prefixed(syncedIds + [raws[i].id], SyncLoop(after, raws[i + 1..], start, encodeV));
      syncedIds := syncedIds + [raws[i].id];
      i := i + 1;
    }
    PrefixedEnd(syncedIds, store.State(), raws, start, encodeV);
    return Succeeded(|syncedIds|), Some(syncedIds);
  }
}
