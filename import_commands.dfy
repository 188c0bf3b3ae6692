/** The import commands. ImportProducts::handle reads the CSV with its own
    reader, upserts each chunk and syncs its relations with its own copy of
    the relation sync, then deletes the products the run did not touch.
    ImportProductsOldStructure::handle does the same with the service's
    reader and without the relation sync. */
module ImportCommands {
  import opened Common
  import opened Dto
  import opened Tables
  import opened Database
  import opened RelationSync
  import opened WarehouseProps
  import opened SyncProps
  import opened ImportRecords
  import opened ImportService
  import opened Chunking

  // ----------------------------------------------------------- the reader

  /** The columns the command's reader looks up in the header map. The
      `??` fallbacks on price and warehouses guard only the row lookup: the
      header lookup inside it raises like the others. */
  const RequiredHeaders: seq<string> := ["id", "name", "sku", "status", "price", "currency", "variations", "warehouses"]

  predicate HasRequiredHeaders(headers: seq<string>) {
    forall f :: f in RequiredHeaders ==> f in headers
  }

  /** The command's record for a row of the header's width; None when a
      header lookup raises. */
  function CommandShape(headers: seq<string>, row: seq<string>): Option<CsvRecord>
    requires |row| == |headers|
  {
    match (Column(headers, row, "id"), Column(headers, row, "name"), Column(headers, row, "sku"),
           Column(headers, row, "status"), Column(headers, row, "price"), Column(headers, row, "currency"),
           Column(headers, row, "variations"), Column(headers, row, "warehouses"))
    case (Some(id), Some(name), Some(sku), Some(status), Some(price), Some(currency), Some(variations), Some(warehouses)) =>
      Some(CsvRecord(Some(id), Some(name), Some(sku), Some(status), CastToNumber(price),
                     Some(currency), Some(variations), Some(warehouses)))
    case _ => None
  }

  /** The command's getRecords: rows of another width are skipped; a row
      that raises ends the run (None). */
  function CommandRecords(headers: seq<string>, rows: seq<seq<string>>): Option<seq<CsvRecord>>
    decreases |rows|
  {
    if rows == [] then Some([])
    else
      match CommandRecords(headers, rows[..|rows| - 1])
      case None => None
      case Some(rs) =>
        var last := rows[|rows| - 1];
        if |last| != |headers| then Some(rs)
        else
          match CommandShape(headers, last)
          case None => None
          case Some(r) => Some(rs + [r])
  }

  /** With every required header the command's record is the service's;
      without one, every row of the right width raises. */
  lemma CommandShapeAgrees(headers: seq<string>, row: seq<string>)
    requires |row| == |headers|
    ensures CommandShape(headers, row) == if HasRequiredHeaders(headers) then Some(Shape(headers, row)) else None
  {
    if HasRequiredHeaders(headers) {
      assert RequiredHeaders[0] in headers && RequiredHeaders[1] in headers && RequiredHeaders[2] in headers
        && RequiredHeaders[3] in headers && RequiredHeaders[4] in headers && RequiredHeaders[5] in headers
        && RequiredHeaders[6] in headers && RequiredHeaders[7] in headers;
    } else {
      var f :| f in RequiredHeaders && f !in headers;
      assert Column(headers, row, f).None?;
    }
  }

  /** The command reads the same records as the service's reader, except
      that without a required header the first row of the right width
      raises; no record is yielded before it, so no chunk is written. */
  lemma {:induction false} CommandRecordsAgree(headers: seq<string>, rows: seq<seq<string>>)
    ensures CommandRecords(headers, rows) ==
      if HasRequiredHeaders(headers) || WellFormed(headers, rows) == [] then Some(Records(headers, rows)) else None
    decreases |rows|
  {
    if rows != [] {
      var p := rows[..|rows| - 1];
      var last := rows[|rows| - 1];
      CommandRecordsAgree(headers, p);
      assert WellFormed(headers, rows) == WellFormed(headers, p) + (if |last| == |headers| then [last] else []);
      assert Records(headers, rows) == Records(headers, p) + (if |last| == |headers| then [Shape(headers, last)] else []);
      if |last| == |headers| {
        CommandShapeAgrees(headers, last);
        assert WellFormed(headers, rows) != [];
        if HasRequiredHeaders(headers) {
          assert CommandRecords(headers, p) == Some(Records(headers, p));
          assert CommandShape(headers, last) == Some(Shape(headers, last));
          assert CommandRecords(headers, rows) == Some(Records(headers, p) + [Shape(headers, last)]);
        } else if WellFormed(headers, p) == [] {
          assert CommandRecords(headers, p).Some?;
          assert CommandShape(headers, last) == None;
          assert CommandRecords(headers, rows) == None;
        } else {
          assert CommandRecords(headers, p) == None;
          assert CommandRecords(headers, rows) == None;
        }
      } else {
        assert WellFormed(headers, rows) == WellFormed(headers, p);
        assert Records(headers, rows) == Records(headers, p);
      }
    }
  }

  // --------------------------------------------- the command's relation sync

  /** What ImportProducts::syncProductRelations makes of a product's stored
      variations: skip the product, raise, or sync this document. */
  datatype VariationsRead = Skip | Raise | Document(data: VariationsData)

  /** Line 124 as written: the model's `array` cast has already decoded the
      column once, and this is a second json_decode of what the cast gave.
      An array (empty, unreadable or a document) is a type error. Null
      (deprecated, not an error) and a bool or number scalar, turned back
      into its text, decode to a value of the same truthiness: a falsy one
      is skipped, a truthy one reaches the array reads and raises. Only a
      string is decoded again and read as a stored text would be: a product
      is synced only when its column holds a document encoded twice. */
  function ReadVariationsAsWritten(stored: Option<string>, decodeV: string -> Decoded<VariationsData>): (r: VariationsRead)
    ensures r.Document? <==>
      stored.Some? && decodeV(stored.value).Text? && decodeV(decodeV(stored.value).text).Value?
    ensures r.Document? ==> decodeV(decodeV(stored.value).text) == Value(r.data)
    ensures stored.Some? ==> var doc := decodeV(stored.value);
      (doc.EmptyArray? || doc.Malformed? || doc.Value?) ==> r == Raise
  {
    if stored.None? then Skip
    else
      match decodeV(stored.value)
      case Null => Skip
      case Scalar(truthy) => if truthy then Raise else Skip
      case Text(t) => ReadVariations(Some(t), decodeV)
      case _ => Raise
  }

  /** Lines 124 and 127-129 as intended: the stored document, decoded once;
      a falsy result (null, false, 0, "", "0", the empty array) skips the
      product, a truthy scalar or string or an unreadable array raises at
      the first read. */
  function ReadVariations(stored: Option<string>, decodeV: string -> Decoded<VariationsData>): VariationsRead {
    if stored.None? then Skip
    else
      match decodeV(stored.value)
      case Null => Skip
      case Scalar(truthy) => if truthy then Raise else Skip
      case Text(t) => if StringTruthy(t) then Raise else Skip
      case EmptyArray => Skip
      case Malformed => Raise
      case Value(d) => Document(d)
  }

  /** A stored document of the expected shape: as written the command
      raises, as intended it syncs that document. A document encoded twice
      is the other way round: as written it is synced, as intended the
      decoded string is a truthy string and raises (JSON text that decodes
      to an array is never "" or "0"). */
  lemma ReadVariationsFinding(t: string, decodeV: string -> Decoded<VariationsData>, d: VariationsData)
    requires decodeV(t) == Value(d)
    ensures ReadVariationsAsWritten(Some(t), decodeV) == Raise
    ensures ReadVariations(Some(t), decodeV) == Document(d)
    ensures StringTruthy(t) ==> forall u :: decodeV(u) == Text(t) ==>
      ReadVariationsAsWritten(Some(u), decodeV) == Document(d) && ReadVariations(Some(u), decodeV) == Raise
  {
  }

  /** `json_decode($warehouseJson, true)` read through `$warehouseData &&
      isset($warehouseData['warehouses'])`: a null text, null, scalars and
      the empty array mean no warehouses; an array whose entries cannot be
      read raises (None). */
  function CommandWarehouses(text: Option<string>, decodeW: string -> Decoded<WarehousePayload>): Option<WarehousePayload> {
    if text.None? then Some(None)
    else
      match decodeW(text.value)
      case Malformed => None
      case Value(p) => Some(p)
      case _ => Some(None)
  }

  /** One record of the command's syncAllProductsRelations. */
  function CommandSyncRecord(db: Db, rec: CsvRecord, decodeV: string -> Decoded<VariationsData>,
                             decodeW: string -> Decoded<WarehousePayload>): (r: Option<Db>)
    requires db.Valid()
    ensures r.Some? ==> r.value.Valid()
  {
    match Find(db, rec.id)
    case None => Some(db)
    case Some(p) =>
      match ReadVariations(db.products[p].variations, decodeV)
      case Skip => Some(db)
      case Raise => None
      case Document(d) =>
        match CommandWarehouses(rec.warehouses, decodeW)
        case None => None
        case Some(wh) => SyncRelations(db, p, d, wh)
  }

  /** The command's syncAllProductsRelations: stops at the first error. */
  function CommandSyncAll(db: Db, recs: seq<StampedRecord>, decodeV: string -> Decoded<VariationsData>,
                          decodeW: string -> Decoded<WarehousePayload>): (r: (Db, bool))
    requires db.Valid()
    ensures r.0.Valid()
    decreases |recs|
  {
    if recs == [] then (db, true)
    else
      match CommandSyncRecord(db, recs[0].record, decodeV, decodeW)
      case None => (db, false)
      case Some(db1) => CommandSyncAll(db1, recs[1..], decodeV, decodeW)
  }

  /** A product whose stored variations are missing or decode to null,
      false, 0, "", "0" or the empty array is left as it is. */
  lemma CommandSkipsEmptyVariations(db: Db, rec: CsvRecord, decodeV: string -> Decoded<VariationsData>,
                                    decodeW: string -> Decoded<WarehousePayload>, p: int)
    requires db.Valid() && Find(db, rec.id) == Some(p)
    requires var stored := db.products[p].variations;
      stored.None? || decodeV(stored.value) == Null || decodeV(stored.value) == EmptyArray
      || decodeV(stored.value) == Scalar(false) || decodeV(stored.value) == Text("")
      || decodeV(stored.value) == Text("0")
    ensures CommandSyncRecord(db, rec, decodeV, decodeW) == Some(db)
  {
  }

  /** A record fails exactly when it names a live product whose stored
      document cannot be read (a truthy scalar or string, or an unreadable
      array), or whose document is readable while the warehouses text decodes to
      unreadable entries or to a list with an entry the relation sync
      rejects. Unlike the service, null and scalar warehouse texts do not
      raise. */
  lemma CommandSyncRecordFails(db: Db, rec: CsvRecord, decodeV: string -> Decoded<VariationsData>,
                               decodeW: string -> Decoded<WarehousePayload>)
    requires db.Valid()
    ensures CommandSyncRecord(db, rec, decodeV, decodeW).None? <==>
      (exists p :: p in db.products && db.products[p].Live() && rec.id.Some? && ParseInt(rec.id.value) == Some(p)
        && db.products[p].variations.Some?
        && var doc := decodeV(db.products[p].variations.value);
        (doc == Scalar(true) || (doc.Text? && StringTruthy(doc.text)) || doc == Malformed
         || (doc.Value? && rec.warehouses.Some?
             && (decodeW(rec.warehouses.value) == Malformed
                 || (decodeW(rec.warehouses.value).Value? && decodeW(rec.warehouses.value).value.Some?
                     && exists w :: w in decodeW(rec.warehouses.value).value.value
                                    && EntryFails(w, Skus(doc.value.variations)))))))
  {
    match Find(db, rec.id)
    case None =>
    case Some(p) =>
      assert forall q :: rec.id.Some? && ParseInt(rec.id.value) == Some(q) ==> q == p;
      match ReadVariations(db.products[p].variations, decodeV)
      case Skip =>
      case Raise =>
      case Document(d) =>
        match CommandWarehouses(rec.warehouses, decodeW)
        case None =>
        case Some(wh) =>
          SyncRelationsFails(db, p, d, wh);
  }

  lemma {:induction false} CommandSyncAllKeepsProducts(db: Db, recs: seq<StampedRecord>,
                                                       decodeV: string -> Decoded<VariationsData>,
                                                       decodeW: string -> Decoded<WarehousePayload>)
    requires db.Valid()
    ensures var r := CommandSyncAll(db, recs, decodeV, decodeW).0;
      r.products == db.products && r.productCounter == db.productCounter && r.staging == db.staging
    decreases |recs|
  {
    if recs != [] {
      var rec := recs[0].record;
      var r := CommandSyncRecord(db, rec, decodeV, decodeW);
      if r.Some? {
        var p := Find(db, rec.id);
        if p.Some? {
          var read := ReadVariations(db.products[p.value].variations, decodeV);
          if read.Document? {
            SyncRelationsVariations(db, p.value, read.data, CommandWarehouses(rec.warehouses, decodeW).value);
          }
        }
        CommandSyncAllKeepsProducts(r.value, recs[1..], decodeV, decodeW);
      }
    }
  }

  lemma {:induction false} CommandSyncAllDictionaries(db: Db, recs: seq<StampedRecord>,
                                                      decodeV: string -> Decoded<VariationsData>,
                                                      decodeW: string -> Decoded<WarehousePayload>)
    requires db.Valid() && Dictionaries(db)
    ensures Dictionaries(CommandSyncAll(db, recs, decodeV, decodeW).0)
    decreases |recs|
  {
    if recs != [] {
      var rec := recs[0].record;
      var r := CommandSyncRecord(db, rec, decodeV, decodeW);
      if r.Some? {
        var p := Find(db, rec.id);
        if p.Some? {
          var read := ReadVariations(db.products[p.value].variations, decodeV);
          if read.Document? {
            SyncRelationsDictionaries(db, p.value, read.data, CommandWarehouses(rec.warehouses, decodeW).value);
          }
        }
        CommandSyncAllDictionaries(r.value, recs[1..], decodeV, decodeW);
      }
    }
  }

  /** One iteration of the command's syncAllProductsRelations. */
  method CommandSyncRecordStep(store: Store, rec: CsvRecord, decodeV: string -> Decoded<VariationsData>,
                               decodeW: string -> Decoded<WarehousePayload>) returns (ok: bool)
    requires store.Valid()
    modifies store
    ensures store.Valid()
    ensures ok == CommandSyncRecord(old(store.State()), rec, decodeV, decodeW).Some?
    ensures ok ==> store.State() == CommandSyncRecord(old(store.State()), rec, decodeV, decodeW).value
    ensures !ok ==> store.State() == old(store.State())
  {
    var product := Find(store.State(), rec.id);
    if product.None? {
      return true;
    }
    var variationsData := ReadVariations(store.products[product.value].variations, decodeV);
    var warehouseData := CommandWarehouses(rec.warehouses, decodeW);
    if variationsData.Skip? {
      return true;
    }
    if variationsData.Raise? || warehouseData.None? {
      return false;
    }
    ok := SyncProductRelations(store, product.value, variationsData.data, warehouseData.value);
  }

  /** The command's syncAllProductsRelations. */
  method CommandSyncAllRelations(store: Store, recs: seq<StampedRecord>, decodeV: string -> Decoded<VariationsData>,
                                 decodeW: string -> Decoded<WarehousePayload>) returns (ok: bool)
    requires store.Valid()
    modifies store
    ensures store.Valid()
    ensures (store.State(), ok) == CommandSyncAll(old(store.State()), recs, decodeV, decodeW)
  {
    var i := 0;
    while i < |recs|
      invariant 0 <= i <= |recs| && store.Valid()
      invariant CommandSyncAll(store.State(), recs[i..], decodeV, decodeW) == CommandSyncAll(old(store.State()), recs, decodeV, decodeW)
    {
      assert recs[i..][0] == recs[i] && recs[i..][1..] == recs[i + 1..];
      ok := CommandSyncRecordStep(store, recs[i].record, decodeV, decodeW);
      if !ok {
        return;
      }
      i := i + 1;
    }
    ok := true;
  }

  // -------------------------------------------------------------- the run

  /** The chunk size in effect: `count($chunk) >= $chunkSize` holds for
      every non-empty chunk when the option is below 1, so every record is
      flushed on its own. */
  function ChunkSize(option: int): nat {
    if option < 1 then 1 else option
  }

  /** Every record of the run gets created_at = updated_at = the run's start. */
  function Stamp(records: seq<CsvRecord>, start: int): (s: seq<StampedRecord>)
    ensures |s| == |records|
    ensures forall i :: 0 <= i < |s| ==> s[i] == StampedRecord(records[i], start, start)
  {
    seq(|records|, i requires 0 <= i < |records| => StampedRecord(records[i], start, start))
  }

  predicate StampedAt(recs: seq<StampedRecord>, start: int) {
    forall s :: s in recs ==> s.createdAt == start && s.updatedAt == start
  }

  /** A record of `recs` names product `id` by an integer id text. */
  ghost predicate Names(recs: seq<StampedRecord>, id: int) {
    exists s :: s in recs && TargetOf(StripWarehouses(s)) == Explicit(id)
  }

  /** insertProducts on one chunk, followed by syncAllProductsRelations
      when the command syncs relations. */
  function FlushChunk(db: Db, chunk: seq<StampedRecord>, relations: bool, decodeV: string -> Decoded<VariationsData>,
                      decodeW: string -> Decoded<WarehousePayload>): (r: (Db, bool))
    requires db.Valid()
    ensures r.0.Valid()
  {
    match UpsertProducts(db, StripAll(chunk))
    case None => (db, false)
    case Some(db1) => if relations then CommandSyncAll(db1, chunk, decodeV, decodeW) else (db1, true)
  }

  /** The chunks flushed one after the other; a raise ends the run. */
  function RunChunks(db: Db, cs: seq<seq<StampedRecord>>, relations: bool, decodeV: string -> Decoded<VariationsData>,
                     decodeW: string -> Decoded<WarehousePayload>): (r: (Db, bool))
    requires db.Valid()
    ensures r.0.Valid()
    decreases |cs|
  {
    if cs == [] then (db, true)
    else
      var before := RunChunks(db, cs[..|cs| - 1], relations, decodeV, decodeW);
      if !before.1 then before else FlushChunk(before.0, cs[|cs| - 1], relations, decodeV, decodeW)
  }

  /** The cleanup delete's condition: neither updated nor created by this run. */
  predicate Stale(row: ProductRow, start: int) {
    row.updatedAt < start && row.createdAt < start
  }

  function StaleIds(db: Db, start: int): set<int> {
    set id | id in db.products && Stale(db.products[id], start)
  }

  /** The cleanup delete. It is a query-builder delete, so soft-deleted rows
      go too; the variations and options of a deleted product go with it,
      and so do the option links and inventory rows that reference those.
      Every other row of every table is kept as it was. */
  function Cleanup(db: Db, start: int): (r: Db)
    requires db.Valid()
    ensures r.Valid()
    ensures forall id :: id in r.products <==> id in db.products && !Stale(db.products[id], start)
    ensures forall id :: id in r.products ==> r.products[id] == db.products[id]
    ensures forall vid :: vid in r.variations.rows ==>
      vid in db.variations.rows && r.variations.rows[vid] == db.variations.rows[vid]
      && r.variations.rows[vid].productId !in StaleIds(db, start)
    ensures forall vid :: vid in db.variations.rows && db.variations.rows[vid].productId !in StaleIds(db, start) ==>
      vid in r.variations.rows
    ensures forall oid :: oid in r.options.rows ==>
      oid in db.options.rows && r.options.rows[oid] == db.options.rows[oid]
      && r.options.rows[oid].productId !in StaleIds(db, start)
    ensures forall oid :: oid in db.options.rows && db.options.rows[oid].productId !in StaleIds(db, start) ==>
      oid in r.options.rows
    ensures forall lid :: lid in r.links.rows <==>
      lid in db.links.rows && !VariationOf(db, StaleIds(db, start), db.links.rows[lid].variationId)
      && !OptionOf(db, StaleIds(db, start), db.links.rows[lid].optionId)
    ensures forall lid :: lid in r.links.rows ==> r.links.rows[lid] == db.links.rows[lid]
    ensures forall iid :: iid in r.inventories.rows <==>
      iid in db.inventories.rows && !VariationOf(db, StaleIds(db, start), db.inventories.rows[iid].variationId)
    ensures forall iid :: iid in r.inventories.rows ==> r.inventories.rows[iid] == db.inventories.rows[iid]
    ensures r.attributes == db.attributes && r.attributeValues == db.attributeValues && r.warehouses == db.warehouses
    ensures r.productCounter == db.productCounter && r.staging == db.staging
    ensures Dictionaries(db) ==> Dictionaries(r)
  {
    var gone := StaleIds(db, start);
    ClearRelations(db, gone).(products := map id | id in db.products && id !in gone :: db.products[id])
  }

  /** handle() once the records are read: chunking, flushing, and the
      cleanup when nothing raised. */
  function Import(db: Db, records: seq<CsvRecord>, start: int, option: int,
                  relations: bool, decodeV: string -> Decoded<VariationsData>, decodeW: string -> Decoded<WarehousePayload>): (r: (Db, bool))
    requires db.Valid()
    ensures r.0.Valid()
  {
    var run := RunChunks(db, Chunks(Stamp(records, start), ChunkSize(option)), relations, decodeV, decodeW);
    if run.1 then (Cleanup(run.0, start), true) else run
  }

  /** The CSV file: its header line and the lines after it. */
  datatype CsvFile = CsvFile(headers: seq<string>, rows: seq<seq<string>>)

  /** handle(): a missing file fails with no writes; a reader that raises
      does so at the first row it would yield, before any write. */
  function ImportFile(db: Db, file: Option<CsvFile>, start: int, option: int,
                      decodeV: string -> Decoded<VariationsData>, decodeW: string -> Decoded<WarehousePayload>): (r: (Db, bool))
    requires db.Valid()
    ensures r.0.Valid()
  {
    if file.None? then (db, false)
    else
      match CommandRecords(file.value.headers, file.value.rows)
      case None => (db, false)
      case Some(records) => Import(db, records, start, option, true, decodeV, decodeW)
  }

  // --------------------------------------------------------- run properties

  /** Every row the upsert writes carries the rows' updated_at, and no
      product disappears. */
  lemma {:induction false} UpsertStamps(db: Db, rows: seq<ProductColumns>, start: int)
    requires forall k :: 0 <= k < |rows| ==> rows[k].updatedAt == start
    requires UpsertProducts(db, rows).Some?
    ensures var r := UpsertProducts(db, rows).value;
      && (forall id :: id in db.products ==> id in r.products)
      && (forall id :: id in r.products ==>
            (id in db.products && r.products[id] == db.products[id]) || r.products[id].updatedAt == start)
    decreases |rows|
  {
    if rows != [] {
      var db1 := UpsertOne(db, rows[0]).value;
      UpsertStamps(db1, rows[1..], start);
    }
  }

  /** The upsert rows of a chunk name exactly the ids its records name. */
  lemma NamesTargeted(chunk: seq<StampedRecord>, id: int)
    ensures id in Targeted(StripAll(chunk)) <==> Names(chunk, id)
  {
    var rows := StripAll(chunk);
    if id in Targeted(rows) {
      var k :| 0 <= k < |rows| && TargetOf(rows[k]) == Explicit(id);
      assert rows[k] == StripWarehouses(chunk[k]);
    }
    if Names(chunk, id) {
      var s :| s in chunk && TargetOf(StripWarehouses(s)) == Explicit(id);
      var k :| 0 <= k < |chunk| && chunk[k] == s;
      assert rows[k] == StripWarehouses(chunk[k]);
    }
  }

  /** What a run over the records `recs` guarantees of the products table,
      from `db` to `r`: the counter stays ahead, no product disappears,
      every row is either as it was or stamped with the run's start, a
      product no record names is untouched, and when nothing raised every
      product a record names carries the run's start. */
  ghost predicate Advanced(db: Db, r: Db, recs: seq<StampedRecord>, start: int, ok: bool) {
    && CounterAhead(r)
    && (forall id :: id in db.products ==> id in r.products)
    && (forall id :: id in r.products ==>
          (id in db.products && r.products[id] == db.products[id]) || r.products[id].updatedAt == start)
    && (forall id :: id in db.products && !Names(recs, id) ==> r.products[id] == db.products[id])
    && (ok ==> forall id :: Names(recs, id) ==> id in r.products && r.products[id].updatedAt == start)
  }

  /** The upsert of one stamped chunk advances the products table. */
  lemma UpsertChunkSpec(db: Db, chunk: seq<StampedRecord>, start: int)
    requires CounterAhead(db) && StampedAt(chunk, start)
    ensures var u := UpsertProducts(db, StripAll(chunk));
      u.Some? ==> Advanced(db, u.value, chunk, start, true)
  {
    var rows := StripAll(chunk);
    match UpsertProducts(db, rows)
    case None =>
    case Some(db1) =>
      assert forall k :: 0 <= k < |rows| ==> rows[k] == StripWarehouses(chunk[k]);
      UpsertStamps(db, rows, start);
      UpsertFrame(db, rows);
      UpsertUntouched(db, rows);
      forall id | Names(chunk, id) ensures id in db1.products && db1.products[id].updatedAt == start {
        NamesTargeted(chunk, id);
        UpsertLastWins(db, rows, id);
      }
      forall id | id in db.products && !Names(chunk, id) ensures db1.products[id] == db.products[id] {
        NamesTargeted(chunk, id);
      }
  }

  /** Advancing over `a` and then over `b` is advancing over `a + b`. */
  lemma AdvancedTrans(db: Db, mid: Db, r: Db, a: seq<StampedRecord>, b: seq<StampedRecord>, start: int, ok: bool)
    requires Advanced(db, mid, a, start, true) && Advanced(mid, r, b, start, ok)
    ensures Advanced(db, r, a + b, start, ok)
  {
  }

  /** One flush advances the products table, whether it raises or not. */
  lemma FlushSpec(db: Db, chunk: seq<StampedRecord>, start: int, relations: bool, decodeV: string -> Decoded<VariationsData>,
                  decodeW: string -> Decoded<WarehousePayload>)
    requires db.Valid() && CounterAhead(db) && StampedAt(chunk, start)
    ensures var (r, ok) := FlushChunk(db, chunk, relations, decodeV, decodeW);
      Advanced(db, r, chunk, start, ok)
  {
    UpsertChunkSpec(db, chunk, start);
    match UpsertProducts(db, StripAll(chunk))
    case None =>
    case Some(db1) =>
      CommandSyncAllKeepsProducts(db1, chunk, decodeV, decodeW);
  }

  /** The same for the whole sequence of chunks. */
  lemma {:induction false} RunSpec(db: Db, cs: seq<seq<StampedRecord>>, start: int,
                                   relations: bool, decodeV: string -> Decoded<VariationsData>, decodeW: string -> Decoded<WarehousePayload>)
    requires db.Valid() && CounterAhead(db) && StampedAt(Flatten(cs), start)
    ensures var (r, ok) := RunChunks(db, cs, relations, decodeV, decodeW);
      Advanced(db, r, Flatten(cs), start, ok)
    decreases |cs|
  {
    if cs == [] {
    } else {
      var prefix, last := cs[..|cs| - 1], cs[|cs| - 1];
      assert cs == prefix + [last];
      FlattenSnoc(prefix, last);
      RunSpec(db, prefix, start, relations, decodeV, decodeW);
      var before := RunChunks(db, prefix, relations, decodeV, decodeW);
      if before.1 {
        FlushSpec(before.0, last, start, relations, decodeV, decodeW);
        var after := FlushChunk(before.0, last, relations, decodeV, decodeW);
        AdvancedTrans(db, before.0, after.0, Flatten(prefix), last, start, after.1);
      }
    }
  }

  /** A successful import leaves every product a record names, stamped with
      the run's start; it deletes every older product no record names; and
      every product it leaves was written by the run or is an untouched one
      that is not older than the run. A failed import deletes nothing. */
  lemma ImportOutcome(db: Db, records: seq<CsvRecord>, start: int, option: int,
                      relations: bool, decodeV: string -> Decoded<VariationsData>, decodeW: string -> Decoded<WarehousePayload>)
    requires db.Valid() && CounterAhead(db)
    ensures var (r, ok) := Import(db, records, start, option, relations, decodeV, decodeW);
      var stamped := Stamp(records, start);
      && (!ok ==> forall id :: id in db.products ==> id in r.products)
      && (ok ==> forall id :: Names(stamped, id) ==> id in r.products && r.products[id].updatedAt == start)
      && (ok ==> forall id :: id in db.products && Stale(db.products[id], start) && !Names(stamped, id) ==>
                   id !in r.products)
      && (ok ==> forall id :: id in r.products ==>
                   r.products[id].updatedAt == start
                   || (id in db.products && r.products[id] == db.products[id] && !Stale(db.products[id], start)))
  {
    var stamped := Stamp(records, start);
    var cs := Chunks(stamped, ChunkSize(option));
    ChunksFlatten(stamped, ChunkSize(option));
    RunSpec(db, cs, start, relations, decodeV, decodeW);
  }

  /** When every stored product predates the run, a successful import keeps
      exactly the stored products that some record names. */
  lemma ImportReplacesCatalogue(db: Db, records: seq<CsvRecord>, start: int, option: int,
                                relations: bool, decodeV: string -> Decoded<VariationsData>, decodeW: string -> Decoded<WarehousePayload>)
    requires db.Valid() && CounterAhead(db)
    requires forall id :: id in db.products ==> Stale(db.products[id], start)
    ensures var (r, ok) := Import(db, records, start, option, relations, decodeV, decodeW);
      ok ==> forall id :: id in db.products ==> (id in r.products <==> Names(Stamp(records, start), id))
  {
    ImportOutcome(db, records, start, option, relations, decodeV, decodeW);
  }

  lemma {:induction false} RunChunksDictionaries(db: Db, cs: seq<seq<StampedRecord>>,
                                                 relations: bool, decodeV: string -> Decoded<VariationsData>,
                                                 decodeW: string -> Decoded<WarehousePayload>)
    requires db.Valid() && Dictionaries(db)
    ensures Dictionaries(RunChunks(db, cs, relations, decodeV, decodeW).0)
    decreases |cs|
  {
    if cs != [] {
      RunChunksDictionaries(db, cs[..|cs| - 1], relations, decodeV, decodeW);
      var before := RunChunks(db, cs[..|cs| - 1], relations, decodeV, decodeW);
      if before.1 {
        match UpsertProducts(before.0, StripAll(cs[|cs| - 1]))
        case None =>
        case Some(db1) =>
          CommandSyncAllDictionaries(db1, cs[|cs| - 1], decodeV, decodeW);
      }
    }
  }

  /** The import keeps the dictionary tables free of duplicates, whether it
      succeeds or not. */
  lemma ImportDictionaries(db: Db, records: seq<CsvRecord>, start: int, option: int,
                           relations: bool, decodeV: string -> Decoded<VariationsData>, decodeW: string -> Decoded<WarehousePayload>)
    requires db.Valid() && Dictionaries(db)
    ensures Dictionaries(Import(db, records, start, option, relations, decodeV, decodeW).0)
  {
    RunChunksDictionaries(db, Chunks(Stamp(records, start), ChunkSize(option)), relations, decodeV, decodeW);
  }

  /** Once a chunk has raised, later chunks change nothing. */
  lemma {:induction false} RunChunksFailed(db: Db, a: seq<seq<StampedRecord>>, b: seq<seq<StampedRecord>>,
                                           relations: bool, decodeV: string -> Decoded<VariationsData>,
                                           decodeW: string -> Decoded<WarehousePayload>)
    requires db.Valid() && !RunChunks(db, a, relations, decodeV, decodeW).1
    ensures RunChunks(db, a + b, relations, decodeV, decodeW) == RunChunks(db, a, relations, decodeV, decodeW)
    decreases |b|
  {
    if b == [] {
      assert a + b == a;
    } else {
      var b' := b[..|b| - 1];
      RunChunksFailed(db, a, b', relations, decodeV, decodeW);
      assert (a + b)[..|a + b| - 1] == a + b';
    }
  }

  // ---------------------------------------------------------- the methods

  /** insertProducts, then syncAllProductsRelations when `relations`, on one chunk. */
  method FlushStep(store: Store, chunk: seq<StampedRecord>, relations: bool, decodeV: string -> Decoded<VariationsData>,
                   decodeW: string -> Decoded<WarehousePayload>) returns (ok: bool)
    requires store.Valid()
    modifies store
    ensures store.Valid()
    ensures (store.State(), ok) == FlushChunk(old(store.State()), chunk, relations, decodeV, decodeW)
  {
    ok := InsertProducts(store, chunk);
    if ok && relations {
      ok := CommandSyncAllRelations(store, chunk, decodeV, decodeW);
    }
  }

  /** The cleanup delete on the store. */
  method DeleteStale(store: Store, start: int)
    requires store.Valid()
    modifies store
    ensures store.Valid()
    ensures store.State() == Cleanup(old(store.State()), start)
  {
    var gone := StaleIds(store.State(), start);
    store.DeleteRelations(gone);
    store.products := map id | id in store.products && id !in gone :: store.products[id];
  }

  lemma RunChunksSnoc(db: Db, done: seq<seq<StampedRecord>>, c: seq<StampedRecord>,
                      relations: bool, decodeV: string -> Decoded<VariationsData>, decodeW: string -> Decoded<WarehousePayload>)
    requires db.Valid() && RunChunks(db, done, relations, decodeV, decodeW).1
    ensures RunChunks(db, done + [c], relations, decodeV, decodeW) == FlushChunk(RunChunks(db, done, relations, decodeV, decodeW).0, c, relations, decodeV, decodeW)
  {
    assert (done + [c])[..|done|] == done;
  }

  /** A chunk that raises ends the whole run, whatever records follow. */
  lemma RunStopsAtFailedChunk(db: Db, done: seq<seq<StampedRecord>>, rest: seq<StampedRecord>, n: nat,
                              relations: bool, decodeV: string -> Decoded<VariationsData>, decodeW: string -> Decoded<WarehousePayload>)
    requires n >= 1 && forall k :: 0 <= k < |done| ==> |done[k]| == n
    requires db.Valid() && !RunChunks(db, done, relations, decodeV, decodeW).1
    ensures RunChunks(db, Chunks(Flatten(done) + rest, n), relations, decodeV, decodeW) == RunChunks(db, done, relations, decodeV, decodeW)
  {
    ChunksAfterFull(done, rest, n);
    RunChunksFailed(db, done, Chunks(rest, n), relations, decodeV, decodeW);
  }

  /** The loop's bookkeeping after `i` records: the flushed chunks, all
      full, followed by the open chunk, are the first `i` records. */
  ghost predicate Collected<T>(done: seq<seq<T>>, chunk: seq<T>, xs: seq<T>, i: nat, n: nat) {
    && i <= |xs|
    && Flatten(done) + chunk == xs[..i]
    && (forall k :: 0 <= k < |done| ==> |done[k]| == n)
    && |chunk| < n
  }

  /** Taking record `i` into the open chunk, and flushing it once
      `count >= option`: a flushed chunk is always full. */
  lemma CollectStep<T>(done: seq<seq<T>>, chunk: seq<T>, xs: seq<T>, i: nat, option: int)
    requires Collected(done, chunk, xs, i, ChunkSize(option)) && i < |xs|
    ensures var c := chunk + [xs[i]];
      if |c| >= option then
        && Collected(done + [c], [], xs, i + 1, ChunkSize(option))
        && Flatten(done + [c]) + xs[i + 1..] == xs
      else Collected(done, c, xs, i + 1, ChunkSize(option))
  {
    var c := chunk + [xs[i]];
    assert xs[..i + 1] == xs[..i] + [xs[i]];
    FlattenSnoc(done, c);
    assert xs == xs[..i + 1] + xs[i + 1..];
  }

  /** At the end of the loop the run's chunks are the flushed ones and then
      the open one, if any. */
  lemma CollectEnd<T>(done: seq<seq<T>>, chunk: seq<T>, xs: seq<T>, n: nat)
    requires n >= 1 && Collected(done, chunk, xs, |xs|, n)
    ensures Chunks(xs, n) == if chunk == [] then done else done + [chunk]
  {
    assert xs[..|xs|] == xs;
    ChunksAfterFull(done, chunk, n);
    if chunk == [] {
      assert done + Chunks(chunk, n) == done;
    } else {
      assert Chunks(chunk, n) == [chunk];
    }
  }

  /** The loop of both handle() methods: stamp, collect, flush full chunks,
      then flush what is left. `total` counts the records taken and
      `flushed` the chunks flushed. */
  method RunRecords(store: Store, records: seq<CsvRecord>, start: int, option: int,
                    relations: bool, decodeV: string -> Decoded<VariationsData>, decodeW: string -> Decoded<WarehousePayload>)
    returns (ok: bool, total: nat, flushed: nat)
    requires store.Valid()
    modifies store
    ensures store.Valid()
    ensures (store.State(), ok) == RunChunks(old(store.State()), Chunks(Stamp(records, start), ChunkSize(option)), relations, decodeV, decodeW)
    ensures ok ==> total == |records| && flushed == |Chunks(Stamp(records, start), ChunkSize(option))|
  {
    ghost var db0 := store.State();
    ghost var n := ChunkSize(option);
    ghost var stamped := Stamp(records, start);
    ghost var done: seq<seq<StampedRecord>> := [];
    var chunk: seq<StampedRecord> := [];
    total, flushed := 0, 0;
    var i := 0;
    while i < |records|
      invariant 0 <= i <= |records| && total == i && flushed == |done| && store.Valid()
      invariant Collected(done, chunk, stamped, i, n)
      invariant RunChunks(db0, done, relations, decodeV, decodeW) == (store.State(), true)
    {
      CollectStep(done, chunk, stamped, i, option);
      total := total + 1;
      chunk := chunk + [StampedRecord(records[i], start, start)];
      if |chunk| >= option {
        RunChunksSnoc(db0, done, chunk, relations, decodeV, decodeW);
        ok := FlushStep(store, chunk, relations, decodeV, decodeW);
        flushed := flushed + 1;
        done := done + [chunk];
        chunk := [];
        if !ok {
          RunStopsAtFailedChunk(db0, done, stamped[i + 1..], n, relations, decodeV, decodeW);
          return;
        }
      }
      i := i + 1;
    }
    CollectEnd(done, chunk, stamped, n);
    if chunk != [] {
      RunChunksSnoc(db0, done, chunk, relations, decodeV, decodeW);
      ok := FlushStep(store, chunk, relations, decodeV, decodeW);
      flushed := flushed + 1;
    } else {
      ok := true;
    }
  }

  /** ImportProducts::handle. `total` counts the records read. */
  method Handle(store: Store, file: Option<CsvFile>, start: int, option: int,
                decodeV: string -> Decoded<VariationsData>, decodeW: string -> Decoded<WarehousePayload>)
    returns (success: bool, total: nat)
    requires store.Valid()
    modifies store
    ensures store.Valid()
    ensures (store.State(), success) == ImportFile(old(store.State()), file, start, option, decodeV, decodeW)
    ensures success ==> total == |CommandRecords(file.value.headers, file.value.rows).value|
  {
    if file.None? {
      return false, 0;
    }
    var read := CommandRecords(file.value.headers, file.value.rows);
    if read.None? {
      return false, 0;
    }
    var flushed;
    success, total, flushed := RunRecords(store, read.value, start, option, true, decodeV, decodeW);
    if success {
      DeleteStale(store, start);
    }
  }

  // -------------------------------------------------- the old-structure command

  /** Stand-ins for the decoders the old-structure command never calls. */
  function NoVariations(t: string): Decoded<VariationsData> { Null }
  function NoWarehouses(t: string): Decoded<WarehousePayload> { Null }

  /** ImportProductsOldStructure::handle: the service's reader and
      insertProducts, no relation sync, the same cleanup. */
  function OldImportFile(db: Db, file: Option<CsvFile>, start: int, option: int): (r: (Db, bool))
    requires db.Valid()
    ensures r.0.Valid()
  {
    if file.None? then (db, false)
    else Import(db, Records(file.value.headers, file.value.rows), start, option, false, NoVariations, NoWarehouses)
  }

  /** Without the relation sync a run writes the products table only. */
  lemma {:induction false} RunWithoutRelations(db: Db, cs: seq<seq<StampedRecord>>,
                                               decodeV: string -> Decoded<VariationsData>,
                                               decodeW: string -> Decoded<WarehousePayload>)
    requires db.Valid()
    ensures var r := RunChunks(db, cs, false, decodeV, decodeW).0;
      r == db.(products := r.products, productCounter := r.productCounter)
    decreases |cs|
  {
    if cs != [] {
      RunWithoutRelations(db, cs[..|cs| - 1], decodeV, decodeW);
    }
  }

  /** The old-structure command never creates a relation row: attributes,
      attribute values, warehouses and the staging table are as they were,
      and the variation, option, link and inventory tables only lose rows
      (to the cleanup's cascade) with their counters unchanged. */
  lemma OldImportCreatesNoRelations(db: Db, file: Option<CsvFile>, start: int, option: int)
    requires db.Valid()
    ensures var r := OldImportFile(db, file, start, option).0;
      && r.attributes == db.attributes && r.attributeValues == db.attributeValues
      && r.warehouses == db.warehouses && r.staging == db.staging
      && r.variations.next == db.variations.next && r.options.next == db.options.next
      && r.links.next == db.links.next && r.inventories.next == db.inventories.next
      && (forall vid :: vid in r.variations.rows ==> vid in db.variations.rows && r.variations.rows[vid] == db.variations.rows[vid])
      && (forall oid :: oid in r.options.rows ==> oid in db.options.rows && r.options.rows[oid] == db.options.rows[oid])
      && (forall lid :: lid in r.links.rows ==> lid in db.links.rows && r.links.rows[lid] == db.links.rows[lid])
      && (forall iid :: iid in r.inventories.rows ==> iid in db.inventories.rows && r.inventories.rows[iid] == db.inventories.rows[iid])
  {
    if file.Some? {
      var records := Records(file.value.headers, file.value.rows);
      RunWithoutRelations(db, Chunks(Stamp(records, start), ChunkSize(option)), NoVariations, NoWarehouses);
    }
  }

  /** ImportProductsOldStructure::handle. `chunkCount` counts the chunks
      flushed: ceil(total / chunk size) after a successful run. */
  method HandleOld(store: Store, file: Option<CsvFile>, start: int, option: int)
    returns (success: bool, total: nat, chunkCount: nat)
    requires store.Valid()
    modifies store
    ensures store.Valid()
    ensures (store.State(), success) == OldImportFile(old(store.State()), file, start, option)
    ensures success ==> total == |Records(file.value.headers, file.value.rows)|
    ensures success ==> chunkCount == (total + ChunkSize(option) - 1) / ChunkSize(option)
  {
    if file.None? {
      return false, 0, 0;
    }
    var records := GetRecords(file.value.headers, file.value.rows);
    success, total, chunkCount := RunRecords(store, records, start, option, false, NoVariations, NoWarehouses);
    if success {
      ChunksCount(Stamp(records, start), ChunkSize(option));
      DeleteStale(store, start);
    }
  }
}
