/** ImportProductService: the products upsert of one chunk (insertProducts)
    and the relation sync of its records (syncAllProductsRelations). The
    CSV reader of the same class is ImportRecords. */
module ImportService {
  import opened Common
  import opened Dto
  import opened Tables
  import opened Database
  import opened RelationSync
  import opened WarehouseProps
  import opened SyncProps
  import opened ImportRecords

  // ------------------------------------------------------------ the chunk

  /** A record as the import command hands it on: the CSV record stamped
      with the run's start as created_at and updated_at. */
  datatype StampedRecord = StampedRecord(record: CsvRecord, createdAt: int, updatedAt: int)

  /** The columns written to the products table: a stamped record without
      its `warehouses` key. */
  datatype ProductColumns = ProductColumns(
    id: Option<string>, name: Option<string>, sku: Option<string>, status: Option<string>,
    price: real, currency: Option<string>, variations: Option<string>,
    createdAt: int, updatedAt: int)

  /** Putting a `warehouses` entry back into upsert columns. */
  function WithWarehouses(c: ProductColumns, warehouses: Option<string>): StampedRecord {
    StampedRecord(CsvRecord(c.id, c.name, c.sku, c.status, c.price, c.currency, c.variations, warehouses),
                  c.createdAt, c.updatedAt)
  }

  /** `unset($record['warehouses'])`: only that key goes, so putting it back
      gives the record again. */
  function StripWarehouses(s: StampedRecord): (c: ProductColumns)
    ensures WithWarehouses(c, s.record.warehouses) == s
  {
    var r := s.record;
    ProductColumns(r.id, r.name, r.sku, r.status, r.price, r.currency, r.variations, s.createdAt, s.updatedAt)
  }

  /** The array_map over the chunk. */
  function StripAll(chunk: seq<StampedRecord>): (rows: seq<ProductColumns>)
    ensures |rows| == |chunk|
    ensures forall i :: 0 <= i < |chunk| ==> WithWarehouses(rows[i], chunk[i].record.warehouses) == chunk[i]
    decreases |chunk|
  {
    if chunk == [] then [] else [StripWarehouses(chunk[0])] + StripAll(chunk[1..])
  }

  // ----------------------------------------------------------- the upsert

  /** The product an upsert row is about: a null id lets the database
      assign the next auto-increment id; an integer text names that id; any
      other text makes the statement fail. */
  datatype Target = Auto | Explicit(id: int) | Invalid

  function TargetOf(c: ProductColumns): Target {
    match c.id
    case None => Auto
    case Some(t) =>
      match ParseInt(t)
      case None => Invalid
      case Some(i) => Explicit(i)
  }

  /** The row inserted for an id the table does not hold. */
  function NewProduct(c: ProductColumns): ProductRow {
    ProductRow(c.name, c.sku, c.price, c.currency, c.variations, c.status, c.createdAt, c.updatedAt, None)
  }

  /** The update of an existing row: name, sku, price, currency, variations,
      status and updated_at are overwritten. */
  function UpdateProduct(row: ProductRow, c: ProductColumns): ProductRow {
    row.(name := c.name, sku := c.sku, price := c.price, currency := c.currency,
         variations := c.variations, status := c.status, updatedAt := c.updatedAt)
  }

  /** One row of the statement. The query builder does not look at
      deleted_at, so a soft-deleted row is updated like any other. */
  function UpsertOne(db: Db, c: ProductColumns): Option<Db> {
    match TargetOf(c)
    case Invalid => None
    case Auto =>
      Some(db.(products := db.products[db.productCounter := NewProduct(c)],
               productCounter := db.productCounter + 1))
    case Explicit(id) =>
      Some(db.(products := db.products[id := if id in db.products then UpdateProduct(db.products[id], c)
                                             else NewProduct(c)],
               productCounter := if id < db.productCounter then db.productCounter else id + 1))
  }

  /** `DB::table('products')->upsert(rows, ['id'], [...])`: one statement,
      so one bad id leaves the table as it was. */
  function UpsertProducts(db: Db, rows: seq<ProductColumns>): (r: Option<Db>)
    ensures r.Some? ==> r.value == db.(products := r.value.products, productCounter := r.value.productCounter)
    decreases |rows|
  {
    if rows == [] then Some(db)
    else
      match UpsertOne(db, rows[0])
      case None => None
      case Some(db1) => UpsertProducts(db1, rows[1..])
  }

  /** The auto-increment counter is above every product id. */
  predicate CounterAhead(db: Db) {
    forall id :: id in db.products ==> id < db.productCounter
  }

  /** The ids the rows name explicitly. */
  function Targeted(rows: seq<ProductColumns>): (ids: set<int>)
    ensures forall id :: id in ids <==> exists k :: 0 <= k < |rows| && TargetOf(rows[k]) == Explicit(id)
    decreases |rows|
  {
    if rows == [] then {}
    else
      var rest := Targeted(rows[1..]);
      assert forall k :: 1 <= k < |rows| ==> rows[1..][k - 1] == rows[k];
      if TargetOf(rows[0]).Explicit? then {TargetOf(rows[0]).id} + rest else rest
  }

  /** The last row naming `id`. */
  function LastFor(rows: seq<ProductColumns>, id: int): (r: Option<ProductColumns>)
    ensures r.None? <==> id !in Targeted(rows)
    ensures r.Some? ==> exists k :: (0 <= k < |rows| && rows[k] == r.value && TargetOf(rows[k]) == Explicit(id)
      && forall j :: k < j < |rows| ==> TargetOf(rows[j]) != Explicit(id))
    decreases |rows|
  {
    if rows == [] then None
    else
      var rest := LastFor(rows[1..], id);
      if rest.Some? then
        var k :| 0 <= k < |rows[1..]| && rows[1..][k] == rest.value && TargetOf(rows[1..][k]) == Explicit(id)
          && forall j :: k < j < |rows[1..]| ==> TargetOf(rows[1..][j]) != Explicit(id);
        assert rows[k + 1] == rest.value;
        assert forall j :: k + 1 < j < |rows| ==> rows[j] == rows[1..][j - 1];
        rest
      else if TargetOf(rows[0]) == Explicit(id) then
        assert forall j :: 0 < j < |rows| ==> rows[j] == rows[1..][j - 1];
        Some(rows[0])
      else None
  }

  // ------------------------------------------------------ upsert properties

  /** The statement fails exactly when some row's id is neither null nor
      an integer text. */
  lemma {:induction false} UpsertFails(db: Db, rows: seq<ProductColumns>)
    ensures UpsertProducts(db, rows).None? <==> exists c :: c in rows && TargetOf(c).Invalid?
    decreases |rows|
  {
    if rows != [] {
      match UpsertOne(db, rows[0])
      case None =>
      case Some(db1) =>
        UpsertFails(db1, rows[1..]);
        assert forall c :: c in rows <==> c == rows[0] || c in rows[1..];
    }
  }

  /** The counter stays above every id and never goes down. */
  lemma {:induction false} UpsertFrame(db: Db, rows: seq<ProductColumns>)
    requires UpsertProducts(db, rows).Some?
    ensures var r := UpsertProducts(db, rows).value;
      && db.productCounter <= r.productCounter
      && (CounterAhead(db) ==> CounterAhead(r))
    decreases |rows|
  {
    if rows != [] {
      var db1 := UpsertOne(db, rows[0]).value;
      UpsertFrame(db1, rows[1..]);
    }
  }

  /** A product no row names is left as it was. */
  lemma {:induction false} UpsertUntouched(db: Db, rows: seq<ProductColumns>)
    requires CounterAhead(db) && UpsertProducts(db, rows).Some?
    ensures var r := UpsertProducts(db, rows).value;
      forall id :: id in db.products && id !in Targeted(rows) ==> id in r.products && r.products[id] == db.products[id]
    decreases |rows|
  {
    if rows != [] {
      var db1 := UpsertOne(db, rows[0]).value;
      UpsertFrame(db, [rows[0]]);
      assert UpsertProducts(db1, []) == Some(db1);
      UpsertUntouched(db1, rows[1..]);
    }
  }

  /** After the statement every named id has a row, and every other new row
      took an id from the counter. */
  lemma {:induction false} UpsertKeys(db: Db, rows: seq<ProductColumns>)
    requires CounterAhead(db) && UpsertProducts(db, rows).Some?
    ensures var r := UpsertProducts(db, rows).value;
      && (forall id :: id in db.products || id in Targeted(rows) ==> id in r.products)
      && (forall id :: id in r.products ==>
            id in db.products || id in Targeted(rows) || db.productCounter <= id < r.productCounter)
    decreases |rows|
  {
    if rows != [] {
      var db1 := UpsertOne(db, rows[0]).value;
      UpsertFrame(db, [rows[0]]);
      assert UpsertProducts(db1, []) == Some(db1);
      UpsertKeys(db1, rows[1..]);
      UpsertFrame(db1, rows[1..]);
    }
  }

  /** A named product ends with the updated columns of the last row naming
      it. A product that existed keeps its created_at and deleted_at (a
      soft-deleted product stays soft-deleted); a new one is live and has
      the created_at of one of the rows. */
  lemma {:induction false} UpsertLastWins(db: Db, rows: seq<ProductColumns>, id: int)
    requires CounterAhead(db) && UpsertProducts(db, rows).Some? && id in Targeted(rows)
    ensures var r := UpsertProducts(db, rows).value;
      var c := LastFor(rows, id).value;
      && id in r.products
      && r.products[id].name == c.name && r.products[id].sku == c.sku && r.products[id].price == c.price
      && r.products[id].currency == c.currency && r.products[id].variations == c.variations
      && r.products[id].status == c.status && r.products[id].updatedAt == c.updatedAt
      && (id in db.products ==> r.products[id].createdAt == db.products[id].createdAt
                                && r.products[id].deletedAt == db.products[id].deletedAt)
      && (id !in db.products ==> r.products[id].deletedAt.None?
                                 && exists k :: 0 <= k < |rows| && r.products[id].createdAt == rows[k].createdAt)
    decreases |rows|
  {
    var db1 := UpsertOne(db, rows[0]).value;
    var r := UpsertProducts(db, rows).value;
    assert r == UpsertProducts(db1, rows[1..]).value;
    UpsertFrame(db, [rows[0]]);
    assert UpsertProducts(db1, []) == Some(db1);
    if id in Targeted(rows[1..]) {
      UpsertLastWins(db1, rows[1..], id);
      assert LastFor(rows, id) == LastFor(rows[1..], id);
      if id !in db1.products {
        var k :| 0 <= k < |rows[1..]| && r.products[id].createdAt == rows[1..][k].createdAt;
        assert rows[k + 1] == rows[1..][k];
      } else if id !in db.products {
        assert db1.products[id].createdAt == rows[0].createdAt;
      }
    } else {
      assert TargetOf(rows[0]) == Explicit(id);
      UpsertUntouched(db1, rows[1..]);
    }
  }

  /** The service's unit test: the second upsert of id 100 overwrites the
      name, price and status and keeps the first row's created_at. */
  lemma UpsertExample(db: Db, t0: int, t1: int)
    requires CounterAhead(db) && 100 !in db.products
    ensures var first := ProductColumns(Some("100"), Some("First Name"), Some("SKU-100"), Some("active"),
                                        10.5, Some("USD"), Some("[]"), t0, t0);
      var second := ProductColumns(Some("100"), Some("Updated Name"), Some("SKU-100"), Some("inactive"),
                                   12.75, Some("USD"), Some("{\"test\":true}"), t1, t1);
      && UpsertProducts(db, [first]).Some?
      && var db1 := UpsertProducts(db, [first]).value;
      && 100 in db1.products && db1.products[100].name == Some("First Name")
      && UpsertProducts(db1, [second]).Some? && 100 in UpsertProducts(db1, [second]).value.products
      && var p := UpsertProducts(db1, [second]).value.products[100];
      && p.name == Some("Updated Name") && p.price == 12.75 && p.status == Some("inactive")
      && p.createdAt == t0 && p.updatedAt == t1
  {
    assert ParseInt("100") == Some(100) by {
      assert DigitsValue("100") == 100 by {
        assert "100"[..2] == "10" && "10"[..1] == "1";
      }
    }
  }

  /** insertProducts: the array_map, then the one upsert statement; when
      it raises, the table is as it was. */
  method InsertProducts(store: Store, chunk: seq<StampedRecord>) returns (ok: bool)
    requires store.Valid()
    modifies store
    ensures store.Valid()
    ensures ok == UpsertProducts(old(store.State()), StripAll(chunk)).Some?
    ensures ok ==> store.State() == UpsertProducts(old(store.State()), StripAll(chunk)).value
    ensures !ok ==> store.State() == old(store.State())
  {
    var upsertData := StripAll(chunk);
    var r := UpsertProducts(store.State(), upsertData);
    if r.None? {
      return false;
    }
    store.products, store.productCounter := r.value.products, r.value.productCounter;
    ok := true;
  }

  // ---------------------------------------------------- the relation sync

  /** `Product::find($record['id'])`: the id of a live product the record
      names, if any. */
  function Find(db: Db, id: Option<string>): Option<int> {
    if id.None? then None
    else
      match ParseInt(id.value)
      case None => None
      case Some(i) => if i in db.products && db.products[i].Live() then Some(i) else None
  }

  /** The stored variations column, cast to an array, handed to the
      relation sync's array parameter: only a document of the expected
      shape gets through; null and scalars are type errors, and reading the
      keys of any other array raises. */
  function VariationsArgument(stored: Option<string>, decodeV: string -> Decoded<VariationsData>): Option<VariationsData> {
    if stored.None? then None
    else
      match decodeV(stored.value)
      case Value(d) => Some(d)
      case _ => None
  }

  /** `$record['warehouses'] ? json_decode(...) : []` handed to the array
      parameter; the outer None is a raised error. */
  function WarehouseArgument(text: Option<string>, decodeW: string -> Decoded<WarehousePayload>): Option<WarehousePayload> {
    if text.None? || !StringTruthy(text.value) then Some(None)
    else
      match decodeW(text.value)
      case EmptyArray => Some(None)
      case Value(p) => Some(p)
      case _ => None
  }

  /** The loop body for one record: None when it raises. A record whose
      product is not found is skipped. */
  function SyncRecord(db: Db, rec: CsvRecord, decodeV: string -> Decoded<VariationsData>,
                      decodeW: string -> Decoded<WarehousePayload>): (r: Option<Db>)
    requires db.Valid()
    ensures r.Some? ==> r.value.Valid()
  {
    match Find(db, rec.id)
    case None => Some(db)
    case Some(p) =>
      match VariationsArgument(db.products[p].variations, decodeV)
      case None => None
      case Some(data) =>
        match WarehouseArgument(rec.warehouses, decodeW)
        case None => None
        case Some(wh) => SyncRelations(db, p, data, wh)
  }

  /** syncAllProductsRelations: the records in order; each product's sync
      commits on its own, and the first error ends the loop (false) with
      the earlier products' relations committed. */
  function SyncAll(db: Db, recs: seq<StampedRecord>, decodeV: string -> Decoded<VariationsData>,
                   decodeW: string -> Decoded<WarehousePayload>): (r: (Db, bool))
    requires db.Valid()
    ensures r.0.Valid()
    decreases |recs|
  {
    if recs == [] then (db, true)
    else
      match SyncRecord(db, recs[0].record, decodeV, decodeW)
      case None => (db, false)
      case Some(db1) => SyncAll(db1, recs[1..], decodeV, decodeW)
  }

  /** The stored variations column is not a document of the expected shape. */
  predicate VariationsUnreadable(stored: Option<string>, decodeV: string -> Decoded<VariationsData>) {
    stored.None? || !decodeV(stored.value).Value?
  }

  /** The warehouses text is truthy and decodes to null, a scalar, a string
      or an array whose entries cannot be read. */
  predicate WarehouseTextRejected(text: Option<string>, decodeW: string -> Decoded<WarehousePayload>) {
    text.Some? && StringTruthy(text.value)
    && (decodeW(text.value).Null? || decodeW(text.value).Scalar? || decodeW(text.value).Text?
        || decodeW(text.value).Malformed?)
  }

  /** The warehouses text decodes to a list with an entry the relation sync
      rejects for the variations `vs`. */
  predicate WarehouseEntriesRejected(text: Option<string>, decodeW: string -> Decoded<WarehousePayload>,
                                     vs: seq<Variation>) {
    text.Some? && StringTruthy(text.value) && decodeW(text.value).Value? && decodeW(text.value).value.Some?
    && exists w :: w in decodeW(text.value).value.value && EntryFails(w, Skus(vs))
  }

  // ------------------------------------------------ relation sync properties

  /** A record fails exactly when it names a live product and the stored
      variations are unreadable, or the warehouses text is rejected, or one
      of its warehouse entries is. Any other record, in particular one
      without an id or naming a missing or soft-deleted product, goes
      through. */
  lemma SyncRecordFails(db: Db, rec: CsvRecord, decodeV: string -> Decoded<VariationsData>,
                        decodeW: string -> Decoded<WarehousePayload>)
    requires db.Valid()
    ensures SyncRecord(db, rec, decodeV, decodeW).None? <==>
      (exists p :: p in db.products && db.products[p].Live() && rec.id.Some? && ParseInt(rec.id.value) == Some(p)
        && (VariationsUnreadable(db.products[p].variations, decodeV)
            || WarehouseTextRejected(rec.warehouses, decodeW)
            || WarehouseEntriesRejected(rec.warehouses, decodeW, decodeV(db.products[p].variations.value).value.variations)))
  {
    match Find(db, rec.id)
    case None =>
      assert SyncRecord(db, rec, decodeV, decodeW) == Some(db);
    case Some(p) =>
      assert rec.id.Some? && ParseInt(rec.id.value) == Some(p) && p in db.products && db.products[p].Live();
      assert forall q :: rec.id.Some? && ParseInt(rec.id.value) == Some(q) ==> q == p;
      match VariationsArgument(db.products[p].variations, decodeV)
      case None =>
        assert VariationsUnreadable(db.products[p].variations, decodeV);
      case Some(data) =>
        assert !VariationsUnreadable(db.products[p].variations, decodeV);
        assert data.variations == decodeV(db.products[p].variations.value).value.variations;
        match WarehouseArgument(rec.warehouses, decodeW)
        case None =>
          assert WarehouseTextRejected(rec.warehouses, decodeW);
        case Some(wh) =>
          assert !WarehouseTextRejected(rec.warehouses, decodeW);
          SyncRelationsFails(db, p, data, wh);
          assert SyncRecord(db, rec, decodeV, decodeW) == SyncRelations(db, p, data, wh);
          assert (wh.Some? && exists w :: w in wh.value && EntryFails(w, Skus(data.variations)))
            <==> WarehouseEntriesRejected(rec.warehouses, decodeW, data.variations);
  }

  /** The loop over a concatenation is the loop over the first part, then,
      when that ended without an error, the loop over the second. */
  lemma {:induction false} SyncAllConcat(db: Db, a: seq<StampedRecord>, b: seq<StampedRecord>,
                                         decodeV: string -> Decoded<VariationsData>,
                                         decodeW: string -> Decoded<WarehousePayload>)
    requires db.Valid()
    ensures var ra := SyncAll(db, a, decodeV, decodeW);
      SyncAll(db, a + b, decodeV, decodeW) == if ra.1 then SyncAll(ra.0, b, decodeV, decodeW) else ra
    decreases |a|
  {
    if a == [] {
      assert a + b == b;
    } else {
      assert (a + b)[0] == a[0] && (a + b)[1..] == a[1..] + b;
      match SyncRecord(db, a[0].record, decodeV, decodeW)
      case None =>
      case Some(db1) => SyncAllConcat(db1, a[1..], b, decodeV, decodeW);
    }
  }

  /** The loop never touches the products table, its counter or the
      staging table. */
  lemma {:induction false} SyncAllKeepsProducts(db: Db, recs: seq<StampedRecord>,
                                                decodeV: string -> Decoded<VariationsData>,
                                                decodeW: string -> Decoded<WarehousePayload>)
    requires db.Valid()
    ensures var r := SyncAll(db, recs, decodeV, decodeW).0;
      r.products == db.products && r.productCounter == db.productCounter && r.staging == db.staging
    decreases |recs|
  {
    if recs != [] {
      var rec := recs[0].record;
      match Find(db, rec.id)
      case None =>
        SyncAllKeepsProducts(db, recs[1..], decodeV, decodeW);
      case Some(p) =>
        match SyncRecord(db, rec, decodeV, decodeW)
        case None =>
        case Some(db1) =>
          var data := VariationsArgument(db.products[p].variations, decodeV).value;
          var wh := WarehouseArgument(rec.warehouses, decodeW).value;
          SyncRelationsVariations(db, p, data, wh);
          SyncAllKeepsProducts(db1, recs[1..], decodeV, decodeW);
    }
  }

  /** The loop keeps the dictionaries unique (see Tables.Dictionaries). */
  lemma {:induction false} SyncAllDictionaries(db: Db, recs: seq<StampedRecord>,
                                               decodeV: string -> Decoded<VariationsData>,
                                               decodeW: string -> Decoded<WarehousePayload>)
    requires db.Valid() && Dictionaries(db)
    ensures Dictionaries(SyncAll(db, recs, decodeV, decodeW).0)
    decreases |recs|
  {
    if recs != [] {
      var rec := recs[0].record;
      match Find(db, rec.id)
      case None =>
        SyncAllDictionaries(db, recs[1..], decodeV, decodeW);
      case Some(p) =>
        match SyncRecord(db, rec, decodeV, decodeW)
        case None =>
        case Some(db1) =>
          var data := VariationsArgument(db.products[p].variations, decodeV).value;
          var wh := WarehouseArgument(rec.warehouses, decodeW).value;
          SyncRelationsDictionaries(db, p, data, wh);
          SyncAllDictionaries(db1, recs[1..], decodeV, decodeW);
    }
  }

  /** Record `k` raised, every record before it went through, and the
      loop's state is the one after them. */
  predicate FailsAt(db: Db, recs: seq<StampedRecord>, k: int, decodeV: string -> Decoded<VariationsData>,
                    decodeW: string -> Decoded<WarehousePayload>)
    requires db.Valid()
  {
    && 0 <= k < |recs|
    && SyncAll(db, recs[..k], decodeV, decodeW).1
    && SyncRecord(SyncAll(db, recs[..k], decodeV, decodeW).0, recs[k].record, decodeV, decodeW).None?
    && SyncAll(db, recs, decodeV, decodeW).0 == SyncAll(db, recs[..k], decodeV, decodeW).0
  }

  /** When the loop reports an error, some record failed after all the
      records before it went through. */
  lemma {:induction false} SyncAllStopsAtFirstFailure(db: Db, recs: seq<StampedRecord>,
                                                      decodeV: string -> Decoded<VariationsData>,
                                                      decodeW: string -> Decoded<WarehousePayload>)
    requires db.Valid() && !SyncAll(db, recs, decodeV, decodeW).1
    ensures exists k :: FailsAt(db, recs, k, decodeV, decodeW)
    decreases |recs|
  {
    assert recs[..0] == [];
    match SyncRecord(db, recs[0].record, decodeV, decodeW)
    case None =>
      assert FailsAt(db, recs, 0, decodeV, decodeW);
    case Some(db1) =>
      var rest := recs[1..];
      SyncAllStopsAtFirstFailure(db1, rest, decodeV, decodeW);
      var k :| FailsAt(db1, rest, k, decodeV, decodeW);
      var pre := recs[..k + 1];
      assert pre[0] == recs[0] && pre[1..] == rest[..k];
      assert SyncAll(db, pre, decodeV, decodeW) == SyncAll(db1, rest[..k], decodeV, decodeW);
      assert SyncAll(db, recs, decodeV, decodeW) == SyncAll(db1, rest, decodeV, decodeW);
      assert recs[k + 1] == rest[k];
      assert FailsAt(db, recs, k + 1, decodeV, decodeW);
  }

  // ------------------------------------------------------------ the loops

  /** One iteration of syncAllProductsRelations. */
  method SyncRecordStep(store: Store, rec: CsvRecord, decodeV: string -> Decoded<VariationsData>,
                        decodeW: string -> Decoded<WarehousePayload>) returns (ok: bool)
    requires store.Valid()
    modifies store
    ensures store.Valid()
    ensures ok == SyncRecord(old(store.State()), rec, decodeV, decodeW).Some?
    ensures ok ==> store.State() == SyncRecord(old(store.State()), rec, decodeV, decodeW).value
    ensures !ok ==> store.State() == old(store.State())
  {
    var product := Find(store.State(), rec.id);
    if product.None? {
      return true;
    }
    var variationsData := VariationsArgument(store.products[product.value].variations, decodeV);
    if variationsData.None? {
      return false;
    }
    var warehouseData := WarehouseArgument(rec.warehouses, decodeW);
    if warehouseData.None? {
      return false;
    }
    ok := SyncProductRelations(store, product.value, variationsData.value, warehouseData.value);
  }

  /** syncAllProductsRelations. */
  method SyncAllProductsRelations(store: Store, recs: seq<StampedRecord>, decodeV: string -> Decoded<VariationsData>,
                                  decodeW: string -> Decoded<WarehousePayload>) returns (ok: bool)
    requires store.Valid()
    modifies store
    ensures store.Valid()
    ensures (store.State(), ok) == SyncAll(old(store.State()), recs, decodeV, decodeW)
  {
    var i := 0;
    while i < |recs|
      invariant 0 <= i <= |recs| && store.Valid()
      invariant SyncAll(store.State(), recs[i..], decodeV, decodeW) == SyncAll(old(store.State()), recs, decodeV, decodeW)
    {
      assert recs[i..][0] == recs[i] && recs[i..][1..] == recs[i + 1..];
      ok := SyncRecordStep(store, recs[i].record, decodeV, decodeW);
      if !ok {
        return;
      }
      i := i + 1;
    }
    ok := true;
  }
}
