/** ProductRelationSyncService::syncProductRelations: inside one transaction,
    delete the product's variations and options, get-or-create the global
    attributes and attribute values, get-or-create the product's options,
    create one variation per entry with its option links, then
    get-or-create the warehouses and upsert the inventories. The functions
    below give the state each phase leaves; the methods are the source's
    loops, proved to produce exactly that state. */
module RelationSync {
  import opened Common
  import opened Dto
  import opened Tables
  import opened Database

  // ------------------------------------------------- phase 1: attributes

  /** The inner loop of phase 1: one firstOrCreate per value. */
  function RegisterValues(t: Table<AttributeValueRow>, aid: nat, values: seq<string>): (r: Table<AttributeValueRow>)
    requires t.Valid()
    ensures r.Valid()
    decreases |values|
  {
    if values == [] then t
    else RegisterValues(FirstOrCreate(t, AttributeValueRow(aid, values[0])).0, aid, values[1..])
  }

  /** Phase 1: every attribute by name, then its values; `attrIds` is the
      name => attribute id map the source builds. */
  function RegisterAttributes(db: Db, attrs: seq<AttributeDef>, attrIds: map<string, nat>): (r: (Db, map<string, nat>))
    requires db.Valid()
    ensures r.0.Valid()
    ensures r.0 == db.(attributes := r.0.attributes, attributeValues := r.0.attributeValues)
    ensures attrIds.Keys <= r.1.Keys
    ensures forall a :: a in attrs ==> a.name in r.1
    decreases |attrs|
  {
    if attrs == [] then (db, attrIds)
    else
      var (at, aid) := FirstOrCreate(db.attributes, attrs[0].name);
      var db1 := db.(attributes := at, attributeValues := RegisterValues(db.attributeValues, aid, attrs[0].values));
      RegisterAttributes(db1, attrs[1..], attrIds[attrs[0].name := aid])
  }

  // ---------------------------------------------------- phase 2: options

  /** The inner loop of phase 2: one option per value of one attribute;
      `optIds` is the "name:value" => option id map. */
  function RegisterOptionValues(t: Table<OptionRow>, p: int, name: string, aid: nat, values: seq<string>,
                                optIds: map<(string, string), nat>): (r: (Table<OptionRow>, map<(string, string), nat>))
    requires t.Valid()
    ensures r.0.Valid()
    decreases |values|
  {
    if values == [] then (t, optIds)
    else
      var (t1, oid) := FirstOrCreate(t, OptionRow(p, aid, values[0]));
      RegisterOptionValues(t1, p, name, aid, values[1..], optIds[(name, values[0]) := oid])
  }

  /** Phase 2: the options of product `p`, attribute by attribute. */
  function RegisterOptions(t: Table<OptionRow>, p: int, attrs: seq<AttributeDef>, attrIds: map<string, nat>,
                           optIds: map<(string, string), nat>): (r: (Table<OptionRow>, map<(string, string), nat>))
    requires t.Valid()
    requires forall a :: a in attrs ==> a.name in attrIds
    ensures r.0.Valid()
    decreases |attrs|
  {
    if attrs == [] then (t, optIds)
    else
      var (t1, o1) := RegisterOptionValues(t, p, attrs[0].name, attrIds[attrs[0].name], attrs[0].values, optIds);
      RegisterOptions(t1, p, attrs[1..], attrIds, o1)
  }

  // ------------------------------------------------- phase 3: variations

  /** The link loop: one link per option entry whose key was registered. */
  function LinkOptions(t: Table<LinkRow>, vid: nat, entries: seq<(string, string)>,
                       optIds: map<(string, string), nat>): (r: Table<LinkRow>)
    requires t.Valid()
    ensures r.Valid()
    decreases |entries|
  {
    if entries == [] then t
    else
      var t1 := if entries[0] in optIds then Insert(t, LinkRow(optIds[entries[0]], vid)).0 else t;
      LinkOptions(t1, vid, entries[1..], optIds)
  }

  /** The row created for one variation entry: `active` defaults to true. */
  function VariationRowOf(p: int, v: Variation): VariationRow {
    VariationRow(p, v.sku, v.price, v.active.GetOr(true))
  }

  /** Phase 3: one new variation per entry, with its links; `varIds` is the
      sku => variation id map, where a repeated sku keeps the last id. */
  function CreateVariations(db: Db, p: int, vs: seq<Variation>, optIds: map<(string, string), nat>,
                            varIds: map<string, nat>): (r: (Db, map<string, nat>))
    requires db.Valid()
    ensures r.0.Valid()
    ensures r.0 == db.(variations := r.0.variations, links := r.0.links)
    decreases |vs|
  {
    if vs == [] then (db, varIds)
    else
      var (vt, vid) := Insert(db.variations, VariationRowOf(p, vs[0]));
      var db1 := db.(variations := vt, links := LinkOptions(db.links, vid, vs[0].options, optIds));
      CreateVariations(db1, p, vs[1..], optIds, varIds[vs[0].sku := vid])
  }

  // ------------------------------------------------- phase 4: warehouses

  /** The inventory loop of one warehouse. None: an entry without a
      variation_sku, or a known sku without a quantity (undefined array
      key, an ErrorException). */
  function SyncInventories(t: Table<InventoryRow>, wid: nat, invs: seq<RawInventory>,
                           varIds: map<string, nat>): (r: Option<Table<InventoryRow>>)
    requires t.Valid()
    ensures r.Some? ==> r.value.Valid()
    decreases |invs|
  {
    if invs == [] then Some(t)
    else
      var inv := invs[0];
      if inv.variationSku.None? then None
      else if inv.variationSku.value !in varIds then SyncInventories(t, wid, invs[1..], varIds)
      else if inv.quantity.None? then None
      else SyncInventories(UpsertInventory(t, wid, varIds[inv.variationSku.value], inv.quantity.value),
                           wid, invs[1..], varIds)
  }

  /** One warehouse entry: firstOrCreate by (name, location ?? null), then
      its inventory loop when it has an inventories list. None: the entry
      has no name, or its inventory loop fails. */
  function SyncWarehouse(wt: Table<WarehouseRow>, it: Table<InventoryRow>, w: RawWarehouse,
                         varIds: map<string, nat>): (r: Option<(Table<WarehouseRow>, Table<InventoryRow>)>)
    requires wt.Valid() && it.Valid()
    ensures r.Some? ==> r.value.0.Valid() && r.value.1.Valid()
  {
    if w.name.None? then None
    else
      var (wt1, wid) := FirstOrCreate(wt, WarehouseRow(w.name.value, w.location));
      if w.inventories.None? then Some((wt1, it))
      else
        match SyncInventories(it, wid, w.inventories.value, varIds)
        case None => None
        case Some(it1) => Some((wt1, it1))
  }

  /** Phase 4 over the warehouses list, on the warehouses and inventories
      tables; None as soon as one entry fails. */
  function SyncWarehouses(wt: Table<WarehouseRow>, it: Table<InventoryRow>, ws: seq<RawWarehouse>,
                          varIds: map<string, nat>): (r: Option<(Table<WarehouseRow>, Table<InventoryRow>)>)
    requires wt.Valid() && it.Valid()
    ensures r.Some? ==> r.value.0.Valid() && r.value.1.Valid()
    decreases |ws|
  {
    if ws == [] then Some((wt, it))
    else
      match SyncWarehouse(wt, it, ws[0], varIds)
      case None => None
      case Some((wt1, it1)) => SyncWarehouses(wt1, it1, ws[1..], varIds)
  }

  // ------------------------------------------------------------ the whole

  /** The phases in order up to the variations: the state before phase 4
      and the sku => id map phase 4 reads. */
  function Prepare(db: Db, p: int, data: VariationsData): (r: (Db, map<string, nat>))
    requires db.Valid()
    ensures r.0.Valid()
  {
    var db0 := ClearRelations(db, {p});
    var (db1, attrIds) := RegisterAttributes(db0, data.attributes, map[]);
    var (ot, optIds) := RegisterOptions(db1.options, p, data.attributes, attrIds, map[]);
    CreateVariations(db1.(options := ot), p, data.variations, optIds, map[])
  }

  /** The committed state, or None when the transaction rolls back. A
      payload without warehouses leaves phase 4 out. */
  function SyncRelations(db: Db, p: int, data: VariationsData, wh: WarehousePayload): (r: Option<Db>)
    requires db.Valid()
    ensures r.Some? ==> r.value.Valid()
  {
    var (db3, varIds) := Prepare(db, p, data);
    if wh.None? then Some(db3)
    else
      match SyncWarehouses(db3.warehouses, db3.inventories, wh.value, varIds)
      case None => None
      case Some((wt, it)) => Some(db3.(warehouses := wt, inventories := it))
  }

  // ---------------------------------------------------------- the loops

  /** syncProductRelations: the transaction. On an error every table is
      back to what it was. */
  method SyncProductRelations(store: Store, p: int, data: VariationsData, wh: WarehousePayload) returns (ok: bool)
    requires store.Valid()
    modifies store
    ensures ok == SyncRelations(old(store.State()), p, data, wh).Some?
    ensures ok ==> store.State() == SyncRelations(old(store.State()), p, data, wh).value
    ensures !ok ==> store.State() == old(store.State())
  {
    var saved := store.State();
    store.DeleteRelations({p});
    var attrIds := RegisterAttributesLoop(store, data.attributes);
    var optIds := RegisterOptionsLoop(store, p, data.attributes, attrIds);
    var varIds := CreateVariationsLoop(store, p, data.variations, optIds);
    if wh.None? {
      ok := true;
    } else {
      ok := SyncWarehousesLoop(store, wh.value, varIds);
      if !ok {
        store.Restore(saved);
      }
    }
  }

  method RegisterAttributesLoop(store: Store, attrs: seq<AttributeDef>) returns (attrIds: map<string, nat>)
    requires store.Valid()
    modifies store
    ensures (store.State(), attrIds) == RegisterAttributes(old(store.State()), attrs, map[])
  {
    attrIds := map[];
    var i := 0;
    while i < |attrs|
      invariant 0 <= i <= |attrs|
      invariant store.Valid()
      invariant RegisterAttributes(store.State(), attrs[i..], attrIds) == RegisterAttributes(old(store.State()), attrs, map[])
    {
      var attr := attrs[i];
      var aid := store.FirstOrCreateAttribute(attr.name);
      attrIds := attrIds[attr.name := aid];
      ghost var s1 := store.State();
      var j := 0;
      while j < |attr.values|
        invariant 0 <= j <= |attr.values|
        invariant store.Valid()
        invariant store.State() == s1.(attributeValues := store.attributeValues)
        invariant RegisterValues(store.attributeValues, aid, attr.values[j..]) == RegisterValues(s1.attributeValues, aid, attr.values)
      {
        store.FirstOrCreateAttributeValue(aid, attr.values[j]);
        assert attr.values[j..][1..] == attr.values[j + 1..];
        j := j + 1;
      }
      assert attrs[i..][1..] == attrs[i + 1..];
      i := i + 1;
    }
  }

  method RegisterOptionsLoop(store: Store, p: int, attrs: seq<AttributeDef>, attrIds: map<string, nat>)
    returns (optIds: map<(string, string), nat>)
    requires store.Valid()
    requires forall a :: a in attrs ==> a.name in attrIds
    modifies store
    ensures store.State() == old(store.State()).(options := RegisterOptions(old(store.State()).options, p, attrs, attrIds, map[]).0)
    ensures optIds == RegisterOptions(old(store.State()).options, p, attrs, attrIds, map[]).1
  {
    optIds := map[];
    var i := 0;
    while i < |attrs|
      invariant 0 <= i <= |attrs|
      invariant store.Valid()
      invariant store.State() == old(store.State()).(options := store.options)
      invariant RegisterOptions(store.options, p, attrs[i..], attrIds, optIds) == RegisterOptions(old(store.State()).options, p, attrs, attrIds, map[])
    {
      var attr := attrs[i];
      var aid := attrIds[attr.name];
      ghost var t1 := store.options;
      ghost var o1 := optIds;
      var j := 0;
      while j < |attr.values|
        invariant 0 <= j <= |attr.values|
        invariant store.Valid()
        invariant store.State() == old(store.State()).(options := store.options)
        invariant RegisterOptionValues(store.options, p, attr.name, aid, attr.values[j..], optIds)
               == RegisterOptionValues(t1, p, attr.name, aid, attr.values, o1)
      {
        var value := attr.values[j];
        var oid := store.UpsertOption(p, aid, value);
        optIds := optIds[(attr.name, value) := oid];
        assert attr.values[j..][1..] == attr.values[j + 1..];
        j := j + 1;
      }
      assert attrs[i..][1..] == attrs[i + 1..];
      i := i + 1;
    }
  }

  method CreateVariationsLoop(store: Store, p: int, vs: seq<Variation>, optIds: map<(string, string), nat>)
    returns (varIds: map<string, nat>)
    requires store.Valid()
    modifies store
    ensures (store.State(), varIds) == CreateVariations(old(store.State()), p, vs, optIds, map[])
  {
    varIds := map[];
    var i := 0;
    while i < |vs|
      invariant 0 <= i <= |vs|
      invariant store.Valid()
      invariant CreateVariations(store.State(), p, vs[i..], optIds, varIds) == CreateVariations(old(store.State()), p, vs, optIds, map[])
    {
      var v := vs[i];
      var vid := store.CreateVariation(VariationRowOf(p, v));
      varIds := varIds[v.sku := vid];
      LinkOptionsLoop(store, vid, v.options, optIds);
      assert vs[i..][1..] == vs[i + 1..];
      i := i + 1;
    }
  }

  /** Phase 4; false when an entry raises an error, and then the state is
      whatever the loop had written before it (the caller rolls back). */
  method SyncWarehousesLoop(store: Store, ws: seq<RawWarehouse>, varIds: map<string, nat>) returns (ok: bool)
    requires store.Valid()
    modifies store
    ensures var r := SyncWarehouses(old(store.warehouses), old(store.inventories), ws, varIds);
      && ok == r.Some?
      && (ok ==> store.State() == old(store.State()).(warehouses := r.value.0, inventories := r.value.1))
  {
    var i := 0;
    while i < |ws|
      invariant 0 <= i <= |ws|
      invariant store.Valid()
      invariant store.State() == old(store.State()).(warehouses := store.warehouses, inventories := store.inventories)
      invariant SyncWarehouses(store.warehouses, store.inventories, ws[i..], varIds)
             == SyncWarehouses(old(store.warehouses), old(store.inventories), ws, varIds)
    {
      SyncWarehousesStep(store.warehouses, store.inventories, ws, i, varIds);
      ok := SyncWarehouseEntry(store, ws[i], varIds);
      if !ok {
        return;
      }
      i := i + 1;
    }
    ok := true;
  }

  /** One entry of the warehouses loop seen from the whole loop. */
  lemma SyncWarehousesStep(wt: Table<WarehouseRow>, it: Table<InventoryRow>, ws: seq<RawWarehouse>, i: int,
                           varIds: map<string, nat>)
    requires wt.Valid() && it.Valid() && 0 <= i < |ws|
    ensures var r := SyncWarehouse(wt, it, ws[i], varIds);
      SyncWarehouses(wt, it, ws[i..], varIds) ==
        if r.None? then None else SyncWarehouses(r.value.0, r.value.1, ws[i + 1..], varIds)
  {
    assert ws[i..][0] == ws[i] && ws[i..][1..] == ws[i + 1..];
  }

  /** The body of the warehouses loop. */
  method SyncWarehouseEntry(store: Store, w: RawWarehouse, varIds: map<string, nat>) returns (ok: bool)
    requires store.Valid()
    modifies store
    ensures var r := SyncWarehouse(old(store.warehouses), old(store.inventories), w, varIds);
      && ok == r.Some?
      && (ok ==> store.State() == old(store.State()).(warehouses := r.value.0, inventories := r.value.1))
  {
    if w.name.None? {
      return false;
    }
    var wid := store.FirstOrCreateWarehouse(WarehouseRow(w.name.value, w.location));
    ok := true;
    if w.inventories.Some? {
      ok := SyncInventoriesLoop(store, wid, w.inventories.value, varIds);
    }
  }

  /** The link loop of one variation. */
  method LinkOptionsLoop(store: Store, vid: nat, entries: seq<(string, string)>, optIds: map<(string, string), nat>)
    requires store.Valid()
    modifies store
    ensures store.State() == old(store.State()).(links := LinkOptions(old(store.State()).links, vid, entries, optIds))
  {
    var j := 0;
    while j < |entries|
      invariant 0 <= j <= |entries|
      invariant store.Valid()
      invariant store.State() == old(store.State()).(links := store.links)
      invariant LinkOptions(store.links, vid, entries[j..], optIds) == LinkOptions(old(store.State()).links, vid, entries, optIds)
    {
      var entry := entries[j];
      if entry in optIds {
        store.CreateLink(LinkRow(optIds[entry], vid));
      }
      assert entries[j..][1..] == entries[j + 1..];
      j := j + 1;
    }
  }

  /** The inventory loop of one warehouse; false when an entry raises an error. */
  method SyncInventoriesLoop(store: Store, wid: nat, invs: seq<RawInventory>, varIds: map<string, nat>) returns (ok: bool)
    requires store.Valid()
    modifies store
    ensures ok == SyncInventories(old(store.State()).inventories, wid, invs, varIds).Some?
    ensures ok ==> store.State() == old(store.State()).(inventories := SyncInventories(old(store.State()).inventories, wid, invs, varIds).value)
  {
    var j := 0;
    while j < |invs|
      invariant 0 <= j <= |invs|
      invariant store.Valid()
      invariant store.State() == old(store.State()).(inventories := store.inventories)
      invariant SyncInventories(store.inventories, wid, invs[j..], varIds) == SyncInventories(old(store.State()).inventories, wid, invs, varIds)
    {
      var inv := invs[j];
      if inv.variationSku.None? {
        return false;
      }
      if inv.variationSku.value in varIds {
        if inv.quantity.None? {
          return false;
        }
        store.UpsertInventory(wid, varIds[inv.variationSku.value], inv.quantity.value);
      }
      assert invs[j..][1..] == invs[j + 1..];
      j := j + 1;
    }
    ok := true;
  }
}
