/** The database the services write to, as one object whose tables the
    Eloquent and query-builder calls update in place. Every method states
    its new state as a function of the old one (see Tables). */
module Database {
  import opened Common
  import opened Tables

  class Store {
    var products: map<int, ProductRow>
    var productCounter: int
    var attributes: Table<string>
    var attributeValues: Table<AttributeValueRow>
    var options: Table<OptionRow>
    var variations: Table<VariationRow>
    var links: Table<LinkRow>
    var warehouses: Table<WarehouseRow>
    var inventories: Table<InventoryRow>
    var staging: Table<StagingRow>

    /** The whole store as a value. */
    function State(): Db
      reads this
    {
      Db(products, productCounter, attributes, attributeValues, options, variations, links,
         warehouses, inventories, staging)
    }

    predicate Valid()
      reads this
    {
      State().Valid()
    }

    /** An empty database. */
    constructor ()
      ensures Valid() && Dictionaries(State())
      ensures State().products == map[] && State().variations.rows == map[] && State().options.rows == map[]
    {
      products, productCounter := map[], 1;
      attributes, attributeValues := Table(map[], 1), Table(map[], 1);
      options, variations, links := Table(map[], 1), Table(map[], 1), Table(map[], 1);
      warehouses, inventories, staging := Table(map[], 1), Table(map[], 1), Table(map[], 1);
    }

    /** Rolling a transaction back: the state saved at its start comes back. */
    method Restore(saved: Db)
      modifies this
      ensures State() == saved
    {
      products, productCounter := saved.products, saved.productCounter;
      attributes, attributeValues := saved.attributes, saved.attributeValues;
      options, variations, links := saved.options, saved.variations, saved.links;
      warehouses, inventories, staging := saved.warehouses, saved.inventories, saved.staging;
    }

    /** `ProductVariation::where('product_id', ...)->delete()` and the same on
        ProductOption, for every product in `ps`. */
    method DeleteRelations(ps: set<int>)
      requires Valid()
      modifies this
      ensures State() == ClearRelations(old(State()), ps)
    {
      var r := ClearRelations(State(), ps);
      variations, options, links, inventories := r.variations, r.options, r.links, r.inventories;
    }

    /** `ProductAttribute::firstOrCreate(['name' => name])`. */
    method FirstOrCreateAttribute(name: string) returns (id: nat)
      requires Valid()
      modifies this
      ensures (State().attributes, id) == FirstOrCreate(old(State()).attributes, name)
      ensures State() == old(State()).(attributes := State().attributes)
    {
      var res := FirstOrCreate(attributes, name);
      attributes, id := res.0, res.1;
    }

    /** `ProductAttributeValue::firstOrCreate([attribute, value])`. */
    method FirstOrCreateAttributeValue(attributeId: nat, value: string)
      requires Valid()
      modifies this
      ensures State() == old(State()).(attributeValues :=
        FirstOrCreate(old(State()).attributeValues, AttributeValueRow(attributeId, value)).0)
    {
      attributeValues := FirstOrCreate(attributeValues, AttributeValueRow(attributeId, value)).0;
    }

    /** `ProductOption::updateOrCreate([product, attribute, value], [...])`:
        the update columns are key columns (or none), so it is a firstOrCreate. */
    method UpsertOption(productId: int, attributeId: nat, value: string) returns (id: nat)
      requires Valid()
      modifies this
      ensures (State().options, id) == FirstOrCreate(old(State()).options, OptionRow(productId, attributeId, value))
      ensures State() == old(State()).(options := State().options)
    {
      var res := FirstOrCreate(options, OptionRow(productId, attributeId, value));
      options, id := res.0, res.1;
    }

    /** `ProductVariation::create([...])`. */
    method CreateVariation(row: VariationRow) returns (id: nat)
      requires Valid()
      modifies this
      ensures (State().variations, id) == Insert(old(State()).variations, row)
      ensures State() == old(State()).(variations := State().variations)
    {
      var res := Insert(variations, row);
      variations, id := res.0, res.1;
    }

    /** `ProductOptionVariation::create([...])`. */
    method CreateLink(row: LinkRow)
      requires Valid()
      modifies this
      ensures State() == old(State()).(links := Insert(old(State()).links, row).0)
    {
      links := Insert(links, row).0;
    }

    /** `Warehouse::firstOrCreate(['name' => ..., 'location' => ...])`. */
    method FirstOrCreateWarehouse(row: WarehouseRow) returns (id: nat)
      requires Valid()
      modifies this
      ensures (State().warehouses, id) == FirstOrCreate(old(State()).warehouses, row)
      ensures State() == old(State()).(warehouses := State().warehouses)
    {
      var res := FirstOrCreate(warehouses, row);
      warehouses, id := res.0, res.1;
    }

    /** `WarehouseInventory::updateOrCreate([warehouse, variation], [quantity])`. */
    method UpsertInventory(warehouseId: nat, variationId: nat, quantity: int)
      requires Valid()
      modifies this
      ensures State() == old(State()).(inventories :=
        Tables.UpsertInventory(old(State()).inventories, warehouseId, variationId, quantity))
    {
      inventories := Tables.UpsertInventory(inventories, warehouseId, variationId, quantity);
    }
  }
}
