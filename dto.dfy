/** The canonical product (NormalizedProductDTO) and the payload shapes it
    carries: the variations document {attributes, variations} and the
    warehouses document {warehouses: [{name, location, inventories}]}. */
module Dto {
  import opened Common

  /** One canonical variation: `active` is absent when the document does not
      carry the key; `options` is the attribute-name => value dictionary as
      the ordered list of its entries. */
  datatype Variation = Variation(sku: string, price: real, active: Option<bool>, options: seq<(string, string)>)

  /** One attribute definition: a name and its values in document order. */
  datatype AttributeDef = AttributeDef(name: string, values: seq<string>)

  /** The variations document. */
  datatype VariationsData = VariationsData(attributes: seq<AttributeDef>, variations: seq<Variation>)

  /** One inventory entry of a warehouse; a key the document lacks is None. */
  datatype RawInventory = RawInventory(variationSku: Option<string>, quantity: Option<int>)

  /** One warehouse entry; `inventories` is None when the key is absent or null. */
  datatype RawWarehouse = RawWarehouse(name: Option<string>, location: Option<string>, inventories: Option<seq<RawInventory>>)

  /** The warehouses document as the relation sync reads it: None when the
      document is falsy or has no (non-null) `warehouses` entry, otherwise the
      list under that key. */
  type WarehousePayload = Option<seq<RawWarehouse>>

  /** The array handed to the DTO constructor; `warehouses` is None when the
      key is absent or null. */
  datatype ProductData = ProductData(
    id: int, name: string, price: real, sku: string, status: string,
    variations: VariationsData, warehouses: Option<WarehousePayload>)

  datatype ProductDto = ProductDto(
    id: int, name: string, price: real, sku: string, status: string,
    variations: VariationsData, warehouses: WarehousePayload)

  /** A projection of the DTO to a PHP array; `warehouses` is None exactly
      when the array has no such key. JSON encoding is a parameter. */
  datatype ProductArray = ProductArray(
    id: int, name: string, sku: string, price: real, currency: string, status: string,
    variations: string, warehouses: Option<string>)

  const Currency: string := "USD"

  /** The constructor: every field is copied; a missing warehouses entry
      becomes the empty array, which the relation sync reads as "no warehouses". */
  function NewDto(data: ProductData): (d: ProductDto)
    ensures d.id == data.id && d.name == data.name && d.price == data.price
    ensures d.sku == data.sku && d.status == data.status && d.variations == data.variations
    ensures data.warehouses.None? ==> d.warehouses == None
    ensures data.warehouses.Some? ==> d.warehouses == data.warehouses.value
  {
    ProductDto(data.id, data.name, data.price, data.sku, data.status, data.variations,
               data.warehouses.GetOr(None))
  }

  function ToImportArray(d: ProductDto, encodeV: VariationsData -> string, encodeW: WarehousePayload -> string): (a: ProductArray)
    ensures a.currency == "USD"
    ensures a.warehouses == Some(encodeW(d.warehouses))
    ensures a.variations == encodeV(d.variations)
    ensures a.id == d.id && a.name == d.name && a.sku == d.sku && a.price == d.price && a.status == d.status
  {
    ProductArray(d.id, d.name, d.sku, d.price, Currency, d.status, encodeV(d.variations), Some(encodeW(d.warehouses)))
  }

  /** The row written to the products table: the import array without its
      warehouses key, everything else identical. */
  function ToDatabaseRow(d: ProductDto, encodeV: VariationsData -> string): (a: ProductArray)
    ensures a.currency == "USD"
    ensures a.warehouses.None?
    ensures forall encodeW: WarehousePayload -> string ::
      a == ToImportArray(d, encodeV, encodeW).(warehouses := None)
  {
    ProductArray(d.id, d.name, d.sku, d.price, Currency, d.status, encodeV(d.variations), None)
  }
}
