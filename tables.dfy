/** The relational store as values: one table per model, each keyed by an
    auto-increment id, and the Eloquent primitives the sync code calls on
    them: firstOrCreate, updateOrCreate and create. */
module Tables {
  import opened Common

  /** A table with its own auto-increment counter. */
  datatype Table<R> = Table(rows: map<nat, R>, next: nat)
  {
    /** Every row id was handed out by the counter. */
    predicate Valid() {
      forall id :: id in rows ==> id < next
    }
  }

  /** `create`: the row is stored under the next id. */
  function Insert<R>(t: Table<R>, r: R): (res: (Table<R>, nat))
    ensures t.Valid() ==> res.0.Valid() && res.1 !in t.rows
    ensures res.1 in res.0.rows && res.0.rows[res.1] == r
    ensures res.0.rows.Keys == t.rows.Keys + {res.1}
    ensures forall id :: id in t.rows && id != res.1 ==> res.0.rows[id] == t.rows[id]
  {
    (Table(t.rows[t.next := r], t.next + 1), t.next)
  }

  /** Rows created one after the other with `create`. */
  function AppendRows<R>(t: Table<R>, rs: seq<R>): (r: Table<R>)
    decreases |rs|
  {
    if rs == [] then t else AppendRows(Insert(t, rs[0]).0, rs[1..])
  }

  /** The rows appended take the ids next, next + 1, ... in order; nothing
      else changes. */
  lemma {:induction false} AppendRowsSpec<R>(t: Table<R>, rs: seq<R>)
    requires t.Valid()
    ensures var r := AppendRows(t, rs);
      && r.Valid() && r.next == t.next + |rs|
      && (forall k :: k in r.rows <==> k in t.rows || t.next <= k < t.next + |rs|)
      && (forall k :: k in t.rows ==> r.rows[k] == t.rows[k])
      && (forall k :: t.next <= k < t.next + |rs| ==> r.rows[k] == rs[k - t.next])
    decreases |rs|
  {
    if rs != [] {
      var t1 := Insert(t, rs[0]).0;
      AppendRowsSpec(t1, rs[1..]);
      var r := AppendRows(t, rs);
      forall k | t.next <= k < t.next + |rs| ensures r.rows[k] == rs[k - t.next] {
        if k > t.next {
          assert rs[1..][k - t1.next] == rs[k - t.next];
        }
      }
    }
  }

  lemma {:induction false} AppendRowsConcat<R>(t: Table<R>, a: seq<R>, b: seq<R>)
    ensures AppendRows(AppendRows(t, a), b) == AppendRows(t, a + b)
    decreases |a|
  {
    if a != [] {
      AppendRowsConcat(Insert(t, a[0]).0, a[1..], b);
      assert (a + b)[0] == a[0] && (a + b)[1..] == a[1..] + b;
    } else {
      assert a + b == b;
    }
  }

  /** `where(...)->first()`: the lowest id below `bound` whose row satisfies `p`. */
  function FirstWhere<R>(rows: map<nat, R>, p: R -> bool, bound: nat): (r: Option<nat>)
    ensures r.Some? ==> r.value < bound && r.value in rows && p(rows[r.value])
    ensures r.Some? ==> forall id :: id < r.value && id in rows ==> !p(rows[id])
    ensures r.None? ==> forall id :: id < bound && id in rows ==> !p(rows[id])
  {
    if bound == 0 then None
    else
      match FirstWhere(rows, p, bound - 1)
      case Some(id) => Some(id)
      case None => if bound - 1 in rows && p(rows[bound - 1]) then Some(bound - 1) else None
  }

  /** No two rows of the table are equal. */
  predicate Unique<R(==)>(t: Table<R>) {
    forall i, j :: i in t.rows && j in t.rows && t.rows[i] == t.rows[j] ==> i == j
  }

  /** `firstOrCreate(columns)` on a table whose rows are exactly those
      columns: the first equal row, or a new one. */
  function FirstOrCreate<R(==)>(t: Table<R>, r: R): (res: (Table<R>, nat))
    requires t.Valid()
    ensures res.0.Valid()
    ensures res.1 in res.0.rows && res.0.rows[res.1] == r
    ensures r in t.rows.Values ==> res.0 == t
    ensures r !in t.rows.Values ==> res.0.rows == t.rows[res.1 := r] && res.1 !in t.rows
    ensures Unique(t) ==> Unique(res.0)
  {
    match FirstWhere(t.rows, x => x == r, t.next)
    case Some(id) => (t, id)
    case None =>
      assert r !in t.rows.Values;
      Insert(t, r)
  }

  // ------------------------------------------------------------- the rows

  datatype ProductRow = ProductRow(
    name: Option<string>, sku: Option<string>, price: real, currency: Option<string>,
    variations: Option<string>, status: Option<string>,
    createdAt: int, updatedAt: int, deletedAt: Option<int>)
  {
    /** Not soft-deleted: Eloquent queries only see such rows. */
    predicate Live() { deletedAt.None? }
  }

  datatype AttributeValueRow = AttributeValueRow(attributeId: nat, value: string)
  datatype OptionRow = OptionRow(productId: int, attributeId: nat, value: string)
  datatype VariationRow = VariationRow(productId: int, sku: string, price: real, active: bool)
  datatype LinkRow = LinkRow(optionId: nat, variationId: nat)
  datatype WarehouseRow = WarehouseRow(name: string, location: Option<string>)
  datatype InventoryRow = InventoryRow(warehouseId: nat, variationId: nat, quantity: int)
  datatype StagingRow = StagingRow(productsJson: string, status: string, asyncProcessedIn: int)

  /** `updateOrCreate([warehouse, variation], [quantity])` on the inventory table. */
  function UpsertInventory(t: Table<InventoryRow>, w: nat, v: nat, q: int): (res: Table<InventoryRow>)
    requires t.Valid()
    ensures res.Valid()
    ensures exists id :: id in res.rows && res.rows[id] == InventoryRow(w, v, q)
    ensures forall id :: id in res.rows && (res.rows[id].warehouseId, res.rows[id].variationId) != (w, v) ==>
      id in t.rows && res.rows[id] == t.rows[id]
    ensures forall id :: id in t.rows && (t.rows[id].warehouseId, t.rows[id].variationId) != (w, v) ==>
      id in res.rows && res.rows[id] == t.rows[id]
    ensures forall id :: id in t.rows ==>
      (id in res.rows && res.rows[id].warehouseId == t.rows[id].warehouseId
       && res.rows[id].variationId == t.rows[id].variationId)
    ensures InventoryKeysUnique(t) ==> InventoryKeysUnique(res)
  {
    match FirstWhere(t.rows, (r: InventoryRow) => r.warehouseId == w && r.variationId == v, t.next)
    case Some(id) =>
      var res := Table(t.rows[id := InventoryRow(w, v, q)], t.next);
      assert res.rows[id] == InventoryRow(w, v, q);
      res
    case None =>
      var (res, id) := Insert(t, InventoryRow(w, v, q));
      assert res.rows[id] == InventoryRow(w, v, q);
      res
  }

  /** At most one inventory row per (warehouse, variation). */
  predicate InventoryKeysUnique(t: Table<InventoryRow>) {
    forall i, j ::
      (i in t.rows && j in t.rows && t.rows[i].warehouseId == t.rows[j].warehouseId
       && t.rows[i].variationId == t.rows[j].variationId) ==> i == j
  }

  // ------------------------------------------------------------- the store

  /** Every table the core touches. `productCounter` is the products
      table's auto-increment counter; product ids are given explicitly. */
  datatype Db = Db(
    products: map<int, ProductRow>, productCounter: int,
    attributes: Table<string>, attributeValues: Table<AttributeValueRow>,
    options: Table<OptionRow>, variations: Table<VariationRow>, links: Table<LinkRow>,
    warehouses: Table<WarehouseRow>, inventories: Table<InventoryRow>,
    staging: Table<StagingRow>)
  {
    predicate Valid() {
      attributes.Valid() && attributeValues.Valid() && options.Valid() && variations.Valid()
      && links.Valid() && warehouses.Valid() && inventories.Valid() && staging.Valid()
    }
  }

  /** The invariants the get-or-create and upsert calls keep: attributes are
      unique by name, attribute values by (attribute, value), options by
      (product, attribute, value), warehouses by (name, location), and
      inventories by (warehouse, variation). */
  predicate Dictionaries(db: Db) {
    Unique(db.attributes) && Unique(db.attributeValues) && Unique(db.options)
    && Unique(db.warehouses) && InventoryKeysUnique(db.inventories)
  }

  /** A variation row that belongs to one of the products `ps`. */
  predicate VariationOf(db: Db, ps: set<int>, vid: nat) {
    vid in db.variations.rows && db.variations.rows[vid].productId in ps
  }

  predicate OptionOf(db: Db, ps: set<int>, oid: nat) {
    oid in db.options.rows && db.options.rows[oid].productId in ps
  }

  /** Deleting the variations and options of the products `ps`; the
      option-variation links and inventories that reference a deleted row
      go with it (cascading foreign keys). */
  function ClearRelations(db: Db, ps: set<int>): (r: Db)
    requires db.Valid()
    ensures r.Valid()
    ensures forall vid :: vid in r.variations.rows <==> vid in db.variations.rows && !VariationOf(db, ps, vid)
    ensures forall oid :: oid in r.options.rows <==> oid in db.options.rows && !OptionOf(db, ps, oid)
    ensures forall lid :: lid in r.links.rows <==>
      (lid in db.links.rows && !VariationOf(db, ps, db.links.rows[lid].variationId)
       && !OptionOf(db, ps, db.links.rows[lid].optionId))
    ensures forall iid :: iid in r.inventories.rows <==>
      (iid in db.inventories.rows && !VariationOf(db, ps, db.inventories.rows[iid].variationId))
    ensures r == db.(variations := r.variations, options := r.options, links := r.links, inventories := r.inventories)
    ensures r.variations.next == db.variations.next && r.options.next == db.options.next
    ensures r.links.next == db.links.next && r.inventories.next == db.inventories.next
    ensures forall vid :: vid in r.variations.rows ==> r.variations.rows[vid] == db.variations.rows[vid]
    ensures forall oid :: oid in r.options.rows ==> r.options.rows[oid] == db.options.rows[oid]
    ensures forall lid :: lid in r.links.rows ==> r.links.rows[lid] == db.links.rows[lid]
    ensures forall iid :: iid in r.inventories.rows ==> r.inventories.rows[iid] == db.inventories.rows[iid]
    ensures Dictionaries(db) ==> Dictionaries(r)
  {
    db.(
      variations := Table(map vid | vid in db.variations.rows && !VariationOf(db, ps, vid) :: db.variations.rows[vid],
                          db.variations.next),
      options := Table(map oid | oid in db.options.rows && !OptionOf(db, ps, oid) :: db.options.rows[oid],
                       db.options.next),
      links := Table(map lid | lid in db.links.rows && !VariationOf(db, ps, db.links.rows[lid].variationId)
                                && !OptionOf(db, ps, db.links.rows[lid].optionId) :: db.links.rows[lid],
                     db.links.next),
      inventories := Table(map iid | iid in db.inventories.rows
                                     && !VariationOf(db, ps, db.inventories.rows[iid].variationId) :: db.inventories.rows[iid],
                           db.inventories.next))
  }
}
