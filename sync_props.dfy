/** syncProductRelations as a whole: when the transaction commits, and what
    the committed state holds for the product. */
module SyncProps {
  import opened Common
  import opened Dto
  import opened Tables
  import opened RelationSync
  import opened RelationSyncProps
  import opened WarehouseProps

  /** The skus of the variation entries. */
  function Skus(vs: seq<Variation>): set<string> {
    set v | v in vs :: v.sku
  }

  /** The sku => id map phase 4 reads holds every sku of the document, each
      with the id of the last variation created for it. */
  lemma PrepareIds(db: Db, p: int, data: VariationsData)
    requires db.Valid()
    ensures var varIds := Prepare(db, p, data).1;
      && varIds.Keys == Skus(data.variations)
      && forall s :: s in varIds ==>
           LastWithSku(data.variations, s).Some?
           && varIds[s] == db.variations.next + LastWithSku(data.variations, s).value
  {
    var vs := data.variations;
    var db0 := ClearRelations(db, {p});
    var (db1, attrIds) := RegisterAttributes(db0, data.attributes, map[]);
    var (ot, optIds) := RegisterOptions(db1.options, p, data.attributes, attrIds, map[]);
    var db2 := db1.(options := ot);
    CreateVariationsIds(db2, p, vs, optIds, map[]);
    SkuMapLastWins(db.variations.next, vs, map[]);
    var varIds := Prepare(db, p, data).1;
    forall s ensures s in varIds <==> s in Skus(vs) {
      if s in Skus(vs) {
        var v :| v in vs && v.sku == s;
        var k :| 0 <= k < |vs| && vs[k] == v;
      }
    }
  }

  /** The transaction rolls back exactly when the payload has a warehouses
      list and one of its entries has no name, or an inventory entry with
      no variation_sku, or one whose sku is the document's without a
      quantity. */
  lemma SyncRelationsFails(db: Db, p: int, data: VariationsData, wh: WarehousePayload)
    requires db.Valid()
    ensures SyncRelations(db, p, data, wh).None? <==>
      wh.Some? && exists w :: w in wh.value && EntryFails(w, Skus(data.variations))
  {
    var (db3, varIds) := Prepare(db, p, data);
    PrepareIds(db, p, data);
    if wh.Some? {
      SyncWarehousesFails(db3.warehouses, db3.inventories, wh.value, varIds);
    }
  }

  /** Without a warehouses list, or with an empty one, the transaction
      commits and leaves warehouses alone; the inventories are those left
      after the product's variations were deleted. */
  lemma SyncRelationsWithoutWarehouses(db: Db, p: int, data: VariationsData, wh: WarehousePayload)
    requires db.Valid() && (wh.None? || wh == Some([]))
    ensures SyncRelations(db, p, data, wh).Some?
    ensures SyncRelations(db, p, data, wh).value.warehouses == db.warehouses
    ensures SyncRelations(db, p, data, wh).value.inventories == ClearRelations(db, {p}).inventories
  {
  }

  /** A committed sync keeps every table free of duplicates. */
  lemma SyncRelationsDictionaries(db: Db, p: int, data: VariationsData, wh: WarehousePayload)
    requires db.Valid() && Dictionaries(db) && SyncRelations(db, p, data, wh).Some?
    ensures Dictionaries(SyncRelations(db, p, data, wh).value)
  {
    var db0 := ClearRelations(db, {p});
    var (db1, attrIds) := RegisterAttributes(db0, data.attributes, map[]);
    RegisterAttributesResolves(db0, data.attributes, map[]);
    var (ot, optIds) := RegisterOptions(db1.options, p, data.attributes, attrIds, map[]);
    RegisterOptionsResolves(db1.options, p, data.attributes, attrIds, map[]);
    var db2 := db1.(options := ot);
    var (db3, varIds) := CreateVariations(db2, p, data.variations, optIds, map[]);
    assert Dictionaries(db3);
    if wh.Some? {
      SyncWarehousesKeeps(db3.warehouses, db3.inventories, wh.value, varIds);
      SyncWarehousesInventoryNew(db3.warehouses, db3.inventories, wh.value, varIds);
    }
  }

  /** After a commit the product's variations are exactly the new rows
      next, next + 1, ..., one per entry in document order; the variations
      of other products, the products and the staging rows are untouched. */
  lemma SyncRelationsVariations(db: Db, p: int, data: VariationsData, wh: WarehousePayload)
    requires db.Valid() && SyncRelations(db, p, data, wh).Some?
    ensures var r := SyncRelations(db, p, data, wh).value;
      var base := db.variations.next;
      var vs := data.variations;
      && (forall vid :: vid in r.variations.rows && r.variations.rows[vid].productId == p <==> base <= vid < base + |vs|)
      && (forall k :: 0 <= k < |vs| ==> r.variations.rows[base + k] == VariationRowOf(p, vs[k]))
      && (forall vid :: vid in db.variations.rows && db.variations.rows[vid].productId != p ==>
            vid in r.variations.rows && r.variations.rows[vid] == db.variations.rows[vid])
      && (forall vid :: vid in r.variations.rows && vid < base ==> vid in db.variations.rows)
      && r.products == db.products && r.productCounter == db.productCounter && r.staging == db.staging
  {
    var vs := data.variations;
    var db0 := ClearRelations(db, {p});
    var (db1, attrIds) := RegisterAttributes(db0, data.attributes, map[]);
    var (ot, optIds) := RegisterOptions(db1.options, p, data.attributes, attrIds, map[]);
    var db2 := db1.(options := ot);
    var (db3, varIds) := CreateVariations(db2, p, vs, optIds, map[]);
    CreateVariationsRows(db2, p, vs, optIds, map[]);
    AppendRowsSpec(db0.variations, VariationPlan(p, vs));
    var r := SyncRelations(db, p, data, wh).value;
    assert r.variations == db3.variations;
  }

  /** An option row of product `p` for the attribute named `name` and the
      value `value`. */
  predicate OptionFor(db: Db, oid: nat, p: int, name: string, value: string) {
    && oid in db.options.rows && db.options.rows[oid].productId == p && db.options.rows[oid].value == value
    && db.options.rows[oid].attributeId in db.attributes.rows
    && db.attributes.rows[db.options.rows[oid].attributeId] == name
  }

  /** The state before phase 4 has an option of the product for every
      (attribute, value) pair of the document. */
  lemma PrepareOptionsCover(db: Db, p: int, data: VariationsData)
    requires db.Valid()
    ensures var r := Prepare(db, p, data).0;
      forall a, v :: a in data.attributes && v in a.values ==> exists oid :: OptionFor(r, oid, p, a.name, v)
  {
    var attrs := data.attributes;
    var db0 := ClearRelations(db, {p});
    var (db1, attrIds) := RegisterAttributes(db0, attrs, map[]);
    RegisterAttributesResolves(db0, attrs, map[]);
    var (ot, optIds) := RegisterOptions(db1.options, p, attrs, attrIds, map[]);
    RegisterOptionsResolves(db1.options, p, attrs, attrIds, map[]);
    var r := Prepare(db, p, data).0;
    assert r.options == ot && r.attributes == db1.attributes;
    forall a, v | a in attrs && v in a.values ensures exists oid :: OptionFor(r, oid, p, a.name, v) {
      assert (a.name, v) in optIds;
      assert OptionFor(r, optIds[(a.name, v)], p, a.name, v);
    }
  }

  /** The state before phase 4 has no option of the product beyond those
      pairs, and the options of other products are untouched. */
  lemma PrepareOptionsOnly(db: Db, p: int, data: VariationsData)
    requires db.Valid()
    ensures var r := Prepare(db, p, data).0;
      && (forall oid :: oid in r.options.rows && r.options.rows[oid].productId == p ==>
            exists a :: a in data.attributes && r.options.rows[oid].value in a.values
                        && OptionFor(r, oid, p, a.name, r.options.rows[oid].value))
      && (forall oid :: oid in db.options.rows && db.options.rows[oid].productId != p ==>
            oid in r.options.rows && r.options.rows[oid] == db.options.rows[oid])
  {
    var attrs := data.attributes;
    var db0 := ClearRelations(db, {p});
    var (db1, attrIds) := RegisterAttributes(db0, attrs, map[]);
    RegisterAttributesResolves(db0, attrs, map[]);
    var (ot, optIds) := RegisterOptions(db1.options, p, attrs, attrIds, map[]);
    RegisterOptionsKeeps(db1.options, p, attrs, attrIds, map[]);
    var r := Prepare(db, p, data).0;
    assert r.options == ot && r.attributes == db1.attributes;
    forall oid | oid in r.options.rows && r.options.rows[oid].productId == p
      ensures exists a :: a in attrs && r.options.rows[oid].value in a.values
                          && OptionFor(r, oid, p, a.name, r.options.rows[oid].value)
    {
      assert oid !in db1.options.rows;
      var a :| a in attrs && attrIds[a.name] == r.options.rows[oid].attributeId && r.options.rows[oid].value in a.values;
      assert OptionFor(r, oid, p, a.name, r.options.rows[oid].value);
    }
  }

  /** After a commit the product has an option for every (attribute,
      value) pair of the document and no other option; the options of other
      products are untouched. */
  lemma SyncRelationsOptions(db: Db, p: int, data: VariationsData, wh: WarehousePayload)
    requires db.Valid() && SyncRelations(db, p, data, wh).Some?
    ensures var r := SyncRelations(db, p, data, wh).value;
      && (forall a, v :: a in data.attributes && v in a.values ==> exists oid :: OptionFor(r, oid, p, a.name, v))
      && (forall oid :: oid in r.options.rows && r.options.rows[oid].productId == p ==>
            exists a :: a in data.attributes && r.options.rows[oid].value in a.values
                        && OptionFor(r, oid, p, a.name, r.options.rows[oid].value))
      && (forall oid :: oid in db.options.rows && db.options.rows[oid].productId != p ==>
            oid in r.options.rows && r.options.rows[oid] == db.options.rows[oid])
  {
    PrepareOptionsCover(db, p, data);
    PrepareOptionsOnly(db, p, data);
    var r := SyncRelations(db, p, data, wh).value;
    var r3 := Prepare(db, p, data).0;
    assert r.options == r3.options && r.attributes == r3.attributes;
    forall oid, name, value | OptionFor(r3, oid, p, name, value) ensures OptionFor(r, oid, p, name, value) { }
  }

  /** After a commit with a warehouses list, in a database without
      duplicates: every inventory row is one left after the product's
      variations were deleted, unchanged, or holds the quantity the list
      plans for its (warehouse, variation), and every planned pair has its
      row. The variation ids of the plan are those of PrepareIds. */
  lemma SyncRelationsInventories(db: Db, p: int, data: VariationsData, ws: seq<RawWarehouse>)
    requires db.Valid() && Dictionaries(db) && SyncRelations(db, p, data, Some(ws)).Some?
    ensures var r := SyncRelations(db, p, data, Some(ws)).value;
      var cleared := ClearRelations(db, {p}).inventories;
      var plan := WhPlan(ws, Prepare(db, p, data).1);
      && (forall id :: id in r.inventories.rows ==>
            (id in cleared.rows && r.inventories.rows[id] == cleared.rows[id])
            || (Planned(r.warehouses, r.inventories.rows[id], plan)
                && r.inventories.rows[id].quantity ==
                   plan[(r.warehouses.rows[r.inventories.rows[id].warehouseId], r.inventories.rows[id].variationId)]))
      && (forall wid, v :: wid in r.warehouses.rows && (r.warehouses.rows[wid], v) in plan ==>
            InventoryRow(wid, v, plan[(r.warehouses.rows[wid], v)]) in r.inventories.rows.Values)
  {
    var (db3, varIds) := Prepare(db, p, data);
    assert db3.inventories == ClearRelations(db, {p}).inventories;
    assert db3.warehouses == db.warehouses;
    SyncWarehousesInventory(db3.warehouses, db3.inventories, ws, varIds);
  }
}
