/** What phase 4 of syncProductRelations (warehouses and their inventories)
    does: when it fails, and on success which inventory rows it writes. */
module WarehouseProps {
  import opened Common
  import opened Dto
  import opened Tables
  import opened RelationSync

  // ------------------------------------------------- one inventory list

  /** An inventory entry that makes the loop throw: no variation_sku, or a
      known sku without a quantity. */
  predicate InventoryFails(inv: RawInventory, known: set<string>) {
    inv.variationSku.None? || (inv.variationSku.value in known && inv.quantity.None?)
  }

  /** The quantities one inventory list writes, by variation id: entries
      with an unknown sku are skipped, and a later entry for the same
      variation overrides an earlier one. */
  function InvPlan(invs: seq<RawInventory>, varIds: map<string, nat>): map<nat, int>
    decreases |invs|
  {
    if invs == [] then map[]
    else
      var inv := invs[0];
      var first: map<nat, int> :=
        if inv.variationSku.Some? && inv.variationSku.value in varIds && inv.quantity.Some?
        then map[varIds[inv.variationSku.value] := inv.quantity.value] else map[];
      first + InvPlan(invs[1..], varIds)
  }

  /** The loop fails exactly when one of its entries does. */
  lemma {:induction false} SyncInventoriesFails(t: Table<InventoryRow>, wid: nat, invs: seq<RawInventory>,
                                                varIds: map<string, nat>)
    requires t.Valid()
    ensures SyncInventories(t, wid, invs, varIds).None? <==> exists inv :: inv in invs && InventoryFails(inv, varIds.Keys)
    decreases |invs|
  {
    if invs != [] {
      var inv := invs[0];
      if !InventoryFails(inv, varIds.Keys) {
        var t1 := if inv.variationSku.value !in varIds then t
                  else UpsertInventory(t, wid, varIds[inv.variationSku.value], inv.quantity.value);
        SyncInventoriesFails(t1, wid, invs[1..], varIds);
        if exists x :: x in invs && InventoryFails(x, varIds.Keys) {
          var x :| x in invs && InventoryFails(x, varIds.Keys);
          assert x in invs[1..];
        }
        if exists x :: x in invs[1..] && InventoryFails(x, varIds.Keys) {
          var x :| x in invs[1..] && InventoryFails(x, varIds.Keys);
          assert x in invs;
        }
      }
    }
  }

  /** On success every planned (warehouse, variation) pair holds its
      planned quantity. */
  lemma {:induction false} SyncInventoriesWrites(t: Table<InventoryRow>, wid: nat, invs: seq<RawInventory>,
                                                 varIds: map<string, nat>)
    requires t.Valid() && SyncInventories(t, wid, invs, varIds).Some?
    ensures var r := SyncInventories(t, wid, invs, varIds).value;
      forall v :: v in InvPlan(invs, varIds) ==> InventoryRow(wid, v, InvPlan(invs, varIds)[v]) in r.rows.Values
    decreases |invs|
  {
    if invs != [] {
      var inv := invs[0];
      var rest := InvPlan(invs[1..], varIds);
      if inv.variationSku.value !in varIds {
        SyncInventoriesWrites(t, wid, invs[1..], varIds);
      } else {
        var v0 := varIds[inv.variationSku.value];
        var t1 := UpsertInventory(t, wid, v0, inv.quantity.value);
        SyncInventoriesWrites(t1, wid, invs[1..], varIds);
        SyncInventoriesKeeps(t1, wid, invs[1..], varIds);
        var r := SyncInventories(t, wid, invs, varIds).value;
        if v0 !in rest {
          var id :| id in t1.rows && t1.rows[id] == InventoryRow(wid, v0, inv.quantity.value);
          assert r.rows[id] == t1.rows[id];
        }
      }
    }
  }

  /** On success a row of another warehouse, or of a variation the list
      does not write, is left as it was. */
  lemma {:induction false} SyncInventoriesKeeps(t: Table<InventoryRow>, wid: nat, invs: seq<RawInventory>,
                                                varIds: map<string, nat>)
    requires t.Valid() && SyncInventories(t, wid, invs, varIds).Some?
    ensures var r := SyncInventories(t, wid, invs, varIds).value;
      && (forall id :: id in t.rows && (t.rows[id].warehouseId != wid || t.rows[id].variationId !in InvPlan(invs, varIds)) ==>
            id in r.rows && r.rows[id] == t.rows[id])
      && (forall id :: id in t.rows ==>
            (id in r.rows && r.rows[id].warehouseId == t.rows[id].warehouseId
             && r.rows[id].variationId == t.rows[id].variationId))
    decreases |invs|
  {
    if invs != [] {
      var inv := invs[0];
      if inv.variationSku.value !in varIds {
        SyncInventoriesKeeps(t, wid, invs[1..], varIds);
      } else {
        var t1 := UpsertInventory(t, wid, varIds[inv.variationSku.value], inv.quantity.value);
        SyncInventoriesKeeps(t1, wid, invs[1..], varIds);
      }
    }
  }

  /** On success the only rows not already in the table are planned
      (warehouse, variation) pairs, and no pair gets a second row. */
  lemma {:induction false} SyncInventoriesNew(t: Table<InventoryRow>, wid: nat, invs: seq<RawInventory>,
                                              varIds: map<string, nat>)
    requires t.Valid() && SyncInventories(t, wid, invs, varIds).Some?
    ensures var r := SyncInventories(t, wid, invs, varIds).value;
      && (forall id :: id in r.rows ==>
            id in t.rows || (r.rows[id].warehouseId == wid && r.rows[id].variationId in InvPlan(invs, varIds)))
      && (InventoryKeysUnique(t) ==> InventoryKeysUnique(r))
    decreases |invs|
  {
    if invs != [] {
      var inv := invs[0];
      if inv.variationSku.value !in varIds {
        SyncInventoriesNew(t, wid, invs[1..], varIds);
      } else {
        var v0 := varIds[inv.variationSku.value];
        var t1 := UpsertInventory(t, wid, v0, inv.quantity.value);
        SyncInventoriesNew(t1, wid, invs[1..], varIds);
        var r := SyncInventories(t, wid, invs, varIds).value;
        var plan := InvPlan(invs, varIds);
        forall id | id in r.rows
          ensures id in t.rows || (r.rows[id].warehouseId == wid && r.rows[id].variationId in plan)
        {
          if id !in t.rows && id in t1.rows {
            assert (t1.rows[id].warehouseId, t1.rows[id].variationId) == (wid, v0);
            SyncInventoriesKeeps(t1, wid, invs[1..], varIds);
          }
        }
      }
    }
  }

  /** On success, in a table without duplicate (warehouse, variation)
      pairs, every row is an old row left as it was or holds its planned
      quantity. */
  lemma SyncInventoriesOnly(t: Table<InventoryRow>, wid: nat, invs: seq<RawInventory>, varIds: map<string, nat>)
    requires t.Valid() && InventoryKeysUnique(t) && SyncInventories(t, wid, invs, varIds).Some?
    ensures var r := SyncInventories(t, wid, invs, varIds).value;
      forall id :: id in r.rows ==>
        (id in t.rows && r.rows[id] == t.rows[id])
        || (r.rows[id].warehouseId == wid && r.rows[id].variationId in InvPlan(invs, varIds)
            && r.rows[id].quantity == InvPlan(invs, varIds)[r.rows[id].variationId])
  {
    var r := SyncInventories(t, wid, invs, varIds).value;
    var plan := InvPlan(invs, varIds);
    SyncInventoriesWrites(t, wid, invs, varIds);
    SyncInventoriesKeeps(t, wid, invs, varIds);
    SyncInventoriesNew(t, wid, invs, varIds);
    forall id | id in r.rows
      ensures (id in t.rows && r.rows[id] == t.rows[id])
        || (r.rows[id].warehouseId == wid && r.rows[id].variationId in plan
            && r.rows[id].quantity == plan[r.rows[id].variationId])
    {
      var v := r.rows[id].variationId;
      if r.rows[id].warehouseId == wid && v in plan {
        var id' :| id' in r.rows && r.rows[id'] == InventoryRow(wid, v, plan[v]);
        assert id == id';
      }
    }
  }

  // --------------------------------------------------- the warehouses list

  /** A warehouse entry that makes phase 4 throw: no name, or an inventory
      entry that fails. */
  predicate EntryFails(w: RawWarehouse, known: set<string>) {
    w.name.None? || (w.inventories.Some? && exists inv :: inv in w.inventories.value && InventoryFails(inv, known))
  }

  /** The quantities one warehouse entry writes, keyed by the warehouse row
      it names and the variation id. */
  function EntryPlan(w: RawWarehouse, varIds: map<string, nat>): map<(WarehouseRow, nat), int> {
    if w.name.None? || w.inventories.None? then map[]
    else
      var plan := InvPlan(w.inventories.value, varIds);
      map v | v in plan :: (WarehouseRow(w.name.value, w.location), v) := plan[v]
  }

  /** The quantities the whole list writes: a later entry for the same
      warehouse and variation overrides an earlier one. */
  function WhPlan(ws: seq<RawWarehouse>, varIds: map<string, nat>): map<(WarehouseRow, nat), int>
    decreases |ws|
  {
    if ws == [] then map[] else EntryPlan(ws[0], varIds) + WhPlan(ws[1..], varIds)
  }

  /** Phase 4 fails exactly when one of the warehouse entries does. */
  lemma {:induction false} SyncWarehousesFails(wt: Table<WarehouseRow>, it: Table<InventoryRow>,
                                               ws: seq<RawWarehouse>, varIds: map<string, nat>)
    requires wt.Valid() && it.Valid()
    ensures SyncWarehouses(wt, it, ws, varIds).None? <==> exists w :: w in ws && EntryFails(w, varIds.Keys)
    decreases |ws|
  {
    if ws != [] {
      var w0 := ws[0];
      assert w0 in ws;
      if w0.name.Some? {
        var (wt1, wid) := FirstOrCreate(wt, WarehouseRow(w0.name.value, w0.location));
        if w0.inventories.Some? {
          SyncInventoriesFails(it, wid, w0.inventories.value, varIds);
        }
      }
      var one := SyncWarehouse(wt, it, w0, varIds);
      assert one.None? <==> EntryFails(w0, varIds.Keys);
      if one.Some? {
        SyncWarehousesFails(one.value.0, one.value.1, ws[1..], varIds);
        if exists x :: x in ws && EntryFails(x, varIds.Keys) {
          var x :| x in ws && EntryFails(x, varIds.Keys);
          assert x in ws[1..];
        }
        if exists x :: x in ws[1..] && EntryFails(x, varIds.Keys) {
          var x :| x in ws[1..] && EntryFails(x, varIds.Keys);
          assert x in ws;
        }
      }
    }
  }

  /** The warehouse row an entry names. */
  function EntryRow(w: RawWarehouse): WarehouseRow
    requires w.name.Some?
  {
    WarehouseRow(w.name.value, w.location)
  }

  /** On success every existing warehouse is kept and no warehouse is
      duplicated. */
  lemma {:induction false} SyncWarehousesKeeps(wt: Table<WarehouseRow>, it: Table<InventoryRow>,
                                               ws: seq<RawWarehouse>, varIds: map<string, nat>)
    requires wt.Valid() && it.Valid() && SyncWarehouses(wt, it, ws, varIds).Some?
    ensures var r := SyncWarehouses(wt, it, ws, varIds).value.0;
      && (forall id :: id in wt.rows ==> id in r.rows && r.rows[id] == wt.rows[id])
      && (Unique(wt) ==> Unique(r))
    decreases |ws|
  {
    if ws != [] {
      var (wt1, it1) := SyncWarehouse(wt, it, ws[0], varIds).value;
      SyncWarehousesKeeps(wt1, it1, ws[1..], varIds);
    }
  }

  /** On success every entry's (name, location) has its warehouse, and the
      only new warehouses are entries of the list. */
  lemma {:induction false} SyncWarehousesNamed(wt: Table<WarehouseRow>, it: Table<InventoryRow>,
                                               ws: seq<RawWarehouse>, varIds: map<string, nat>)
    requires wt.Valid() && it.Valid() && SyncWarehouses(wt, it, ws, varIds).Some?
    ensures var r := SyncWarehouses(wt, it, ws, varIds).value.0;
      && (forall w :: w in ws ==> w.name.Some? && EntryRow(w) in r.rows.Values)
      && (forall id :: id in r.rows && id !in wt.rows ==> exists w :: w in ws && w.name.Some? && r.rows[id] == EntryRow(w))
    decreases |ws|
  {
    if ws != [] {
      var w0 := ws[0];
      var (wt1, it1) := SyncWarehouse(wt, it, w0, varIds).value;
      var (wt1', id0) := FirstOrCreate(wt, EntryRow(w0));
      assert wt1 == wt1';
      SyncWarehousesNamed(wt1, it1, ws[1..], varIds);
      SyncWarehousesKeeps(wt1, it1, ws[1..], varIds);
      var r := SyncWarehouses(wt, it, ws, varIds).value.0;
      assert r.rows[id0] == EntryRow(w0);
      forall w | w in ws ensures w.name.Some? && EntryRow(w) in r.rows.Values {
        if w != w0 {
          assert w in ws[1..];
        }
      }
      forall id | id in r.rows && id !in wt.rows
        ensures exists w :: w in ws && w.name.Some? && r.rows[id] == EntryRow(w)
      {
        if id in wt1.rows {
          assert r.rows[id] == EntryRow(w0);
        } else {
          var w :| w in ws[1..] && w.name.Some? && r.rows[id] == EntryRow(w);
          assert w in ws;
        }
      }
    }
  }

  /** The inventory row `id` of `it` is one the plan writes, judged by the
      warehouse row its warehouse id names in `wt`. */
  predicate Planned(wt: Table<WarehouseRow>, row: InventoryRow, plan: map<(WarehouseRow, nat), int>) {
    row.warehouseId in wt.rows && (wt.rows[row.warehouseId], row.variationId) in plan
  }

  /** On success no inventory row disappears or changes its warehouse or
      variation. */
  lemma {:induction false} SyncWarehousesInventoryKeys(wt: Table<WarehouseRow>, it: Table<InventoryRow>,
                                                       ws: seq<RawWarehouse>, varIds: map<string, nat>)
    requires wt.Valid() && it.Valid() && SyncWarehouses(wt, it, ws, varIds).Some?
    ensures var r := SyncWarehouses(wt, it, ws, varIds).value;
      forall id :: id in it.rows ==>
        (id in r.1.rows && r.1.rows[id].warehouseId == it.rows[id].warehouseId
         && r.1.rows[id].variationId == it.rows[id].variationId)
    decreases |ws|
  {
    if ws != [] {
      var w0 := ws[0];
      var (wt1, it1) := SyncWarehouse(wt, it, w0, varIds).value;
      SyncWarehousesInventoryKeys(wt1, it1, ws[1..], varIds);
      if w0.inventories.Some? {
        var wid0 := FirstOrCreate(wt, EntryRow(w0)).1;
        SyncInventoriesKeeps(it, wid0, w0.inventories.value, varIds);
      }
    }
  }

  /** On success an inventory row whose (warehouse, variation) the list
      does not write is left as it was. */
  lemma {:induction false} SyncWarehousesInventoryKeeps(wt: Table<WarehouseRow>, it: Table<InventoryRow>,
                                                        ws: seq<RawWarehouse>, varIds: map<string, nat>)
    requires wt.Valid() && it.Valid() && SyncWarehouses(wt, it, ws, varIds).Some?
    ensures var r := SyncWarehouses(wt, it, ws, varIds).value;
      && (forall id :: id in it.rows && !Planned(r.0, it.rows[id], WhPlan(ws, varIds)) ==>
            id in r.1.rows && r.1.rows[id] == it.rows[id])
    decreases |ws|
  {
    if ws != [] {
      var w0 := ws[0];
      var (wt1, it1) := SyncWarehouse(wt, it, w0, varIds).value;
      var (wt1', wid0) := FirstOrCreate(wt, EntryRow(w0));
      assert wt1 == wt1';
      SyncWarehousesInventoryKeeps(wt1, it1, ws[1..], varIds);
      SyncWarehousesKeeps(wt1, it1, ws[1..], varIds);
      var r := SyncWarehouses(wt, it, ws, varIds).value;
      assert r == SyncWarehouses(wt1, it1, ws[1..], varIds).value;
      if w0.inventories.Some? {
        var invs := w0.inventories.value;
        assert it1 == SyncInventories(it, wid0, invs, varIds).value;
        SyncInventoriesKeeps(it, wid0, invs, varIds);
        assert r.0.rows[wid0] == EntryRow(w0);
        forall id | id in it.rows && !Planned(r.0, it.rows[id], WhPlan(ws, varIds))
          ensures id in r.1.rows && r.1.rows[id] == it.rows[id]
        {
          var row := it.rows[id];
          assert !(row.warehouseId == wid0 && row.variationId in InvPlan(invs, varIds));
          assert id in it1.rows && it1.rows[id] == row;
          assert !Planned(r.0, it1.rows[id], WhPlan(ws[1..], varIds));
        }
      }
    }
  }

  /** On success the only inventory rows not already there are planned
      ones, and no (warehouse, variation) pair gets a second row. */
  lemma {:induction false} SyncWarehousesInventoryNew(wt: Table<WarehouseRow>, it: Table<InventoryRow>,
                                                      ws: seq<RawWarehouse>, varIds: map<string, nat>)
    requires wt.Valid() && it.Valid() && SyncWarehouses(wt, it, ws, varIds).Some?
    ensures var r := SyncWarehouses(wt, it, ws, varIds).value;
      && (forall id :: id in r.1.rows ==> id in it.rows || Planned(r.0, r.1.rows[id], WhPlan(ws, varIds)))
      && (InventoryKeysUnique(it) ==> InventoryKeysUnique(r.1))
    decreases |ws|
  {
    if ws != [] {
      var w0 := ws[0];
      var (wt1, it1) := SyncWarehouse(wt, it, w0, varIds).value;
      var wid0 := FirstOrCreate(wt, EntryRow(w0)).1;
      assert wt1 == FirstOrCreate(wt, EntryRow(w0)).0;
      SyncWarehousesInventoryNew(wt1, it1, ws[1..], varIds);
      if w0.inventories.Some? {
        var invs := w0.inventories.value;
        assert it1 == SyncInventories(it, wid0, invs, varIds).value;
        SyncInventoriesNew(it, wid0, invs, varIds);
        SyncWarehousesKeeps(wt1, it1, ws[1..], varIds);
        SyncWarehousesInventoryKeys(wt1, it1, ws[1..], varIds);
        var r := SyncWarehouses(wt, it, ws, varIds).value;
        assert r == SyncWarehouses(wt1, it1, ws[1..], varIds).value;
        assert r.0.rows[wid0] == EntryRow(w0);
        forall id | id in r.1.rows && id !in it.rows
          ensures Planned(r.0, r.1.rows[id], WhPlan(ws, varIds))
        {
          if id in it1.rows && !Planned(r.0, r.1.rows[id], WhPlan(ws[1..], varIds)) {
            assert it1.rows[id].warehouseId == wid0 && it1.rows[id].variationId in InvPlan(invs, varIds);
            assert (EntryRow(w0), it1.rows[id].variationId) in EntryPlan(w0, varIds);
          }
        }
      }
    }
  }

  /** On success, in a table without duplicate warehouses, every planned
      (warehouse, variation) pair holds its planned quantity. */
  lemma {:induction false} SyncWarehousesInventoryWrites(wt: Table<WarehouseRow>, it: Table<InventoryRow>,
                                                         ws: seq<RawWarehouse>, varIds: map<string, nat>)
    requires wt.Valid() && it.Valid() && Unique(wt) && SyncWarehouses(wt, it, ws, varIds).Some?
    ensures var r := SyncWarehouses(wt, it, ws, varIds).value;
      forall wid, v :: wid in r.0.rows && (r.0.rows[wid], v) in WhPlan(ws, varIds) ==>
        InventoryRow(wid, v, WhPlan(ws, varIds)[(r.0.rows[wid], v)]) in r.1.rows.Values
    decreases |ws|
  {
    if ws != [] {
      var w0 := ws[0];
      var (wt1, it1) := SyncWarehouse(wt, it, w0, varIds).value;
      var wid0 := FirstOrCreate(wt, EntryRow(w0)).1;
      assert wt1 == FirstOrCreate(wt, EntryRow(w0)).0;
      SyncWarehousesInventoryWrites(wt1, it1, ws[1..], varIds);
      if w0.inventories.Some? {
        var invs := w0.inventories.value;
        var plan := InvPlan(invs, varIds);
        assert it1 == SyncInventories(it, wid0, invs, varIds).value;
        SyncInventoriesWrites(it, wid0, invs, varIds);
        SyncWarehousesKeeps(wt1, it1, ws[1..], varIds);
        SyncWarehousesInventoryKeeps(wt1, it1, ws[1..], varIds);
        var r := SyncWarehouses(wt, it, ws, varIds).value;
        assert r == SyncWarehouses(wt1, it1, ws[1..], varIds).value;
        var rest := WhPlan(ws[1..], varIds);
        forall wid, v | wid in r.0.rows && (r.0.rows[wid], v) in WhPlan(ws, varIds)
          ensures InventoryRow(wid, v, WhPlan(ws, varIds)[(r.0.rows[wid], v)]) in r.1.rows.Values
        {
          if (r.0.rows[wid], v) !in rest {
            assert (r.0.rows[wid], v) in EntryPlan(w0, varIds);
            assert r.0.rows[wid] == EntryRow(w0) == r.0.rows[wid0];
            assert wid == wid0;
            var id :| id in it1.rows && it1.rows[id] == InventoryRow(wid0, v, plan[v]);
            assert !Planned(r.0, it1.rows[id], rest);
            assert r.1.rows[id] == it1.rows[id];
          }
        }
      }
    }
  }

  /** Phase 4 on success, in tables without duplicates: every inventory
      row is an old row left as it was or holds the planned quantity of its
      (warehouse, variation), and every planned pair has such a row. */
  lemma SyncWarehousesInventory(wt: Table<WarehouseRow>, it: Table<InventoryRow>,
                                ws: seq<RawWarehouse>, varIds: map<string, nat>)
    requires wt.Valid() && it.Valid() && Unique(wt) && InventoryKeysUnique(it)
    requires SyncWarehouses(wt, it, ws, varIds).Some?
    ensures var r := SyncWarehouses(wt, it, ws, varIds).value;
      var plan := WhPlan(ws, varIds);
      && (forall id :: id in r.1.rows ==>
            (id in it.rows && r.1.rows[id] == it.rows[id])
            || (Planned(r.0, r.1.rows[id], plan)
                && r.1.rows[id].quantity == plan[(r.0.rows[r.1.rows[id].warehouseId], r.1.rows[id].variationId)]))
      && (forall wid, v :: wid in r.0.rows && (r.0.rows[wid], v) in plan ==>
            InventoryRow(wid, v, plan[(r.0.rows[wid], v)]) in r.1.rows.Values)
      && InventoryKeysUnique(r.1)
  {
    var r := SyncWarehouses(wt, it, ws, varIds).value;
    var plan := WhPlan(ws, varIds);
    SyncWarehousesInventoryWrites(wt, it, ws, varIds);
    SyncWarehousesInventoryNew(wt, it, ws, varIds);
    SyncWarehousesInventoryKeys(wt, it, ws, varIds);
    SyncWarehousesInventoryKeeps(wt, it, ws, varIds);
    forall id | id in r.1.rows
      ensures (id in it.rows && r.1.rows[id] == it.rows[id])
        || (Planned(r.0, r.1.rows[id], plan)
            && r.1.rows[id].quantity == plan[(r.0.rows[r.1.rows[id].warehouseId], r.1.rows[id].variationId)])
    {
      var row := r.1.rows[id];
      if Planned(r.0, row, plan) {
        var key := (r.0.rows[row.warehouseId], row.variationId);
        var id' :| id' in r.1.rows && r.1.rows[id'] == InventoryRow(row.warehouseId, row.variationId, plan[key]);
        assert id == id';
      } else {
        assert id in it.rows && !Planned(r.0, it.rows[id], plan);
      }
    }
  }
}
