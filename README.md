# product-import, modelled in Dafny

A Laravel application that keeps a product catalogue in a relational
database and fills it from two sources:

- a CSV file, read by the import commands (`app:import-products` and
  `app:import-products-old`). They upsert the products chunk by chunk.
  The new command also rebuilds each product's relations from its stored
  `variations` document and the row's `warehouses` document. Afterwards
  both commands delete every product the run did not touch.
- a supplier's JSON feed. `ProductSyncService::syncFromExternalApi`
  normalises each raw record into a canonical product
  (`NormalizedProductDTO`), updates or creates its row and syncs its
  relations, all in one transaction. It then queues the
  `RemoveOutdatedProducts` job, which soft-deletes every live product the
  feed did not name.

The relations of a product are rebuilt by
`ProductRelationSyncService::syncProductRelations` in four phases inside a
transaction:

1. global attributes and their values (get-or-create);
2. the product's options (one per attribute value);
3. one new variation per document entry, linked to its options;
4. global warehouses (get-or-create) and one inventory row per
   (warehouse, variation), updated in place.

A separate command, `generate:variation-seeders`, scans the stored
variation documents and aggregates attribute names, their values and the
attribute names of each product into seeder files.

The model keeps the database as values (`Tables.Db`: one auto-increment
table per model, products keyed by id) and as an object
(`Database.Store`, whose fields are those tables). Every operation has a
function giving the state it leaves, or `None` when it raises an error and
its transaction rolls back. Every loop of the source is a method proved to
leave exactly that state. Lemmas state what the services promise about
those functions: what each phase creates, keeps and resolves; when an
import or a sync fails; which products survive; and the round trips of
the text conversions.

JSON decoding, CSV parsing of a line and the clock are inputs: a decoded
document is a `Common.Decoded` value, a CSV file is its header plus its
rows of fields, and `json_encode` of a variations document is a parameter
`encodeV`.

Modules, one per file: `Common`, `Tables`, `Database`, `Dto`,
`Normalizer`, `RelationSync`, `RelationSyncProps`, `WarehouseProps`,
`SyncProps`, `ImportRecords`, `ImportService`, `Chunking`,
`ImportCommands`, `Reaper`, `SyncRun`, `Seeders`.

Where the system's design notes and its code differ, the model follows
the code:

- There are no staging items and no fan-out gate. The product row and its
  relations are written first and committed. The job batch is dispatched
  afterwards, and its callback only marks the staging row `done`.
- The reaper soft-deletes the products it targets (it sets `deleted_at`);
  it does not remove them. The CSV cleanup is a hard delete.
- The normaliser validates nothing. It reads the record's keys and raises
  when one it reads without a default is missing. The model represents a
  missing `variations` key and a variation without `color` or `material`.
  It takes `id`, `name` and `price` as present and well-typed (see
  "## Left out").
- Every variation the normaliser emits is inactive, because `! $status`
  negates a non-empty string (`Normalizer.NormalizeVariation`).

## Model

| member | source | states |
|---|---|---|
| Common.UpperChar | app/Services/ProductSyncService.php:131 | strtoupper on one character: a-z move down by 32, every other character is kept, and no lower-case ASCII letter comes out |
| Common.UpperAt | app/Services/ProductSyncService.php:148 | strtoupper keeps the length and upper-cases character by character |
| Common.ReplaceCharAt | app/Services/ProductSyncService.php:131 | str_replace(' ', '-', s) keeps the length and replaces exactly the spaces |
| Common.IntToText | app/Services/ProductSyncService.php:131 | the decimal text of an int is non-empty and starts with '-' exactly when the int is negative |
| Common.IntTextRoundTrip | app/Services/ProductSyncService.php:131 | the decimal text of an int (as concatenated into the SKU) reads back as that int, for negative ids too |
| Common.NatTextRoundTrip | app/Services/ProductSyncService.php:131 | the decimal text of a natural reads back as that natural |
| Common.NegTextRoundTrip | app/Services/ProductSyncService.php:131 | a minus sign before the text of a natural reads back as its negation |
| Common.DigitsValueOfNatToText | app/Services/ProductSyncService.php:131 | the digits written for a natural have that value |
| Common.Dedup | app/Services/ProductSyncService.php:142-143 | array_values(array_unique(s)) holds exactly the elements of s, each once |
| Common.DedupOrder | app/Services/ProductSyncService.php:142-143 | array_unique keeps first-occurrence order: an earlier entry of the result first occurs earlier in the input |
| Common.DedupAppend | app/Console/Commands/GenerateVariationSeeders.php:50-54 | appending one element unless in_array finds it is the de-duplication of the longer list |
| Common.DedupOfNoDup | app/Services/ProductSyncService.php:142-143 | a list without duplicates comes back unchanged |
| Tables.Insert | app/Services/ProductRelationSyncService.php:84-89 | `create` stores the row under a fresh id, keeps every other row and adds exactly that id |
| Tables.AppendRowsSpec | app/Services/ProductRelationSyncService.php:97-100 | rows created one after the other take the ids next, next + 1, … in order and change no existing row |
| Tables.AppendRowsConcat | app/Services/ProductRelationSyncService.php:94-102 | creating a then b is creating a + b |
| Tables.FirstWhere | app/Services/ProductRelationSyncService.php:42 | `where(...)->first()` finds the lowest id whose row matches, and no match means no row below the bound matches |
| Tables.FirstOrCreate | app/Services/ProductRelationSyncService.php:42 | firstOrCreate returns a row equal to the columns; it leaves the table as it is when such a row exists and otherwise adds exactly one row; it keeps the table free of duplicates |
| Tables.UpsertInventory | app/Services/ProductRelationSyncService.php:127-135 | updateOrCreate on (warehouse, variation): a row with that key and the new quantity exists afterwards, every row with another key is kept, no row is removed or re-keyed, and one row per key stays one row per key |
| Tables.ClearRelations | app/Services/ProductRelationSyncService.php:32-33 | deleting the product's variations and options removes exactly those rows, plus the links and inventories of the deleted variations and the links of the deleted options; every other row and every counter is kept |
| Dto.NewDto | app/DTOs/NormalizedProductDTO.php:21-30 | the constructor copies every field; a missing or null warehouses entry becomes the empty payload, which phase 4 skips |
| Dto.ToImportArray | app/DTOs/NormalizedProductDTO.php:32-44 | the import array copies the fields, fixes currency to USD and encodes variations and warehouses |
| Dto.ToDatabaseRow | app/DTOs/NormalizedProductDTO.php:46-57 | the database row is the import array without warehouses, whatever the warehouses encoder |
| Database.Store.Restore | app/Services/ProductSyncService.php:115 | rolling back restores the state saved when the transaction began |
| Database.Store.DeleteRelations | app/Services/ProductRelationSyncService.php:32-33 | the store afterwards is ClearRelations of the store before |
| Database.Store.FirstOrCreateAttribute | app/Services/ProductRelationSyncService.php:42 | firstOrCreate on the attributes table and nothing else |
| Database.Store.FirstOrCreateAttributeValue | app/Services/ProductRelationSyncService.php:46-49 | firstOrCreate on the attribute values table and nothing else |
| Database.Store.UpsertOption | app/Services/ProductRelationSyncService.php:62-71 | updateOrCreate of an option with no extra columns is firstOrCreate on the options table |
| Database.Store.CreateVariation | app/Services/ProductRelationSyncService.php:84-89 | one insert into the variations table, returning the new id |
| Database.Store.CreateLink | app/Services/ProductRelationSyncService.php:97-100 | one insert into the links table |
| Database.Store.FirstOrCreateWarehouse | app/Services/ProductRelationSyncService.php:113-116 | firstOrCreate on the warehouses table by (name, location) |
| Database.Store.UpsertInventory | app/Services/ProductRelationSyncService.php:127-135 | updateOrCreate on the inventories table and nothing else |
| Normalizer.Colors | app/Services/ProductSyncService.php:137-140 | the colours in input order, one per variation |
| Normalizer.Materials | app/Services/ProductSyncService.php:137-140 | the materials in input order, one per variation |
| Normalizer.NormalizeVariations | app/Services/ProductSyncService.php:147-159 | one canonical variation per raw variation, in input order |
| Normalizer.NormalizeExternalProduct | app/Services/ProductSyncService.php:124-180 | the normaliser with its two loops returns exactly Normalize(raw) |
| Normalizer.CollectAttributeValues | app/Services/ProductSyncService.php:137-140 | the first loop raises exactly when some variation lacks a colour or a material, and otherwise collects every colour and material in input order |
| Normalizer.BuildVariations | app/Services/ProductSyncService.php:146-159 | the second loop builds the canonical variations, one per raw variation |
| Normalizer.NormalizeFails | app/Services/ProductSyncService.php:137-139 | normalising fails exactly when the record has no variations key or one of its variations has no `color` or no `material` key |
| Normalizer.NormalizeStatus | app/Services/ProductSyncService.php:128 | status is "deleted" exactly when isDeleted is present and true, else "active"; id, name and price are copied |
| Normalizer.NormalizeSku | app/Services/ProductSyncService.php:131 | the SKU is the name with spaces turned into '-' and upper-cased, then '-' and the id in decimal |
| Normalizer.NormalizeVariationsSpec | app/Services/ProductSyncService.php:147-158 | each canonical variation has SKU base-COLOR-MATERIAL, the base price plus the additional price (0 when absent), the two options, and active = false whatever the status |
| Normalizer.ColorValues | app/Services/ProductSyncService.php:142 | the colour values are every colour seen, each once, in first-seen order |
| Normalizer.MaterialValues | app/Services/ProductSyncService.php:143 | the material values are every material seen, each once, in first-seen order |
| Normalizer.NormalizeAttributes | app/Services/ProductSyncService.php:161-179 | the attribute list is exactly [color, material] with their de-duplicated values, and the warehouses payload is always the empty list |
| RelationSync.RegisterValues | app/Services/ProductRelationSyncService.php:45-50 | the inner value loop keeps the table valid |
| RelationSync.RegisterAttributes | app/Services/ProductRelationSyncService.php:41-51 | phase 1 changes only the attribute and attribute value tables and maps every listed name |
| RelationSync.RegisterOptionValues | app/Services/ProductRelationSyncService.php:60-74 | the inner option loop keeps the table valid |
| RelationSync.RegisterOptions | app/Services/ProductRelationSyncService.php:59-75 | phase 2 keeps the options table valid |
| RelationSync.LinkOptions | app/Services/ProductRelationSyncService.php:94-102 | the link loop keeps the links table valid |
| RelationSync.CreateVariations | app/Services/ProductRelationSyncService.php:83-103 | phase 3 changes only the variations and links tables |
| RelationSync.SyncInventories | app/Services/ProductRelationSyncService.php:118-137 | the inventory loop of one warehouse keeps the table valid when it succeeds |
| RelationSync.SyncWarehouse | app/Services/ProductRelationSyncService.php:113-137 | one warehouse entry keeps both tables valid when it succeeds |
| RelationSync.SyncWarehouses | app/Services/ProductRelationSyncService.php:109-139 | phase 4 keeps both tables valid when it succeeds |
| RelationSync.Prepare | app/Services/ProductRelationSyncService.php:32-103 | the phases before the warehouses leave a valid store |
| RelationSync.SyncRelations | app/Services/ProductRelationSyncService.php:25-142 | the committed state is valid |
| RelationSync.SyncProductRelations | app/Services/ProductRelationSyncService.php:25-142 | the transaction succeeds exactly when SyncRelations does and then leaves its state; on failure the store is as before |
| RelationSync.RegisterAttributesLoop | app/Services/ProductRelationSyncService.php:39-51 | the nested loops of phase 1 leave exactly RegisterAttributes' state and name map |
| RelationSync.RegisterOptionsLoop | app/Services/ProductRelationSyncService.php:57-75 | the nested loops of phase 2 leave exactly RegisterOptions' table and key map and change nothing else |
| RelationSync.CreateVariationsLoop | app/Services/ProductRelationSyncService.php:81-103 | the loop of phase 3 leaves exactly CreateVariations' state and sku map |
| RelationSync.SyncWarehousesLoop | app/Services/ProductRelationSyncService.php:111-138 | the loop of phase 4 succeeds exactly when SyncWarehouses does and then leaves its two tables |
| RelationSync.SyncWarehousesStep | app/Services/ProductRelationSyncService.php:111-138 | one entry of the warehouses loop, seen from the whole loop |
| RelationSync.SyncWarehouseEntry | app/Services/ProductRelationSyncService.php:113-137 | one warehouse entry succeeds exactly when SyncWarehouse does and then leaves its two tables |
| RelationSync.LinkOptionsLoop | app/Services/ProductRelationSyncService.php:94-102 | the link loop leaves exactly LinkOptions' table and changes nothing else |
| RelationSync.SyncInventoriesLoop | app/Services/ProductRelationSyncService.php:119-136 | the inventory loop succeeds exactly when SyncInventories does and then leaves its table |
| RelationSyncProps.RegisterValuesSpec | app/Services/ProductRelationSyncService.php:45-50 | existing value rows are kept, every (attribute, value) pair is present afterwards, new rows are only such pairs, and no duplicate appears |
| RelationSyncProps.RegisterAttributesKeeps | app/Services/ProductRelationSyncService.php:41-51 | phase 1 keeps every existing attribute and attribute value |
| RelationSyncProps.RegisterAttributesResolves | app/Services/ProductRelationSyncService.php:42-43 | after phase 1 every name in the id map resolves to an attribute row of that name, and both tables stay free of duplicates |
| RelationSyncProps.RegisterAttributesOnlyListed | app/Services/ProductRelationSyncService.php:41-43 | phase 1 creates no attribute beyond the names the document lists |
| RelationSyncProps.RegisterAttributesCovers | app/Services/ProductRelationSyncService.php:45-50 | after phase 1 every (name, value) pair of the document has its value row under that name's attribute id |
| RelationSyncProps.RegisterOptionValuesKeeps | app/Services/ProductRelationSyncService.php:60-74 | the inner options loop keeps existing options and creates only options of the product for the listed values |
| RelationSyncProps.RegisterOptionValuesResolves | app/Services/ProductRelationSyncService.php:62-73 | the inner options loop adds exactly the keys name:value of its attribute, each resolving to its option row |
| RelationSyncProps.RegisterOptionsKeeps | app/Services/ProductRelationSyncService.php:59-75 | phase 2 keeps every existing option and creates only options of the product for listed (attribute, value) pairs |
| RelationSyncProps.RegisterOptionsResolves | app/Services/ProductRelationSyncService.php:59-75 | after phase 2 the key map holds exactly the document's (name, value) pairs, each resolving to its option row |
| RelationSyncProps.LinkPlan | app/Services/ProductRelationSyncService.php:94-102 | every planned link belongs to the variation |
| RelationSyncProps.LinkPlanMembers | app/Services/ProductRelationSyncService.php:94-102 | a link to an option is created exactly when one of the variation's entries is a registered key for that option |
| RelationSyncProps.LinkOptionsIsAppend | app/Services/ProductRelationSyncService.php:94-102 | the link loop appends exactly the planned links in entry order |
| RelationSyncProps.VariationPlan | app/Services/ProductRelationSyncService.php:84-89 | the variation rows carry the product, sku and price of each entry, and active defaults to true |
| RelationSyncProps.CreateVariationsRows | app/Services/ProductRelationSyncService.php:83-89 | phase 3 appends exactly the planned variation rows, in order |
| RelationSyncProps.CreateVariationsLinks | app/Services/ProductRelationSyncService.php:93-102 | phase 3 appends exactly the planned link rows, in order |
| RelationSyncProps.CreateVariationsIds | app/Services/ProductRelationSyncService.php:91 | phase 3's sku map gives the variations the ids next, next + 1, … |
| RelationSyncProps.LastWithSku | app/Services/ProductRelationSyncService.php:91 | the last variation with a given sku, or none when no variation has it |
| RelationSyncProps.SkuMapLastWins | app/Services/ProductRelationSyncService.php:91 | a repeated sku maps to the id of its last variation; exactly the skus seen are keys |
| WarehouseProps.SyncInventoriesFails | app/Services/ProductRelationSyncService.php:119-136 | the inventory loop raises exactly when some entry has no variation_sku, or has a known sku and no quantity |
| WarehouseProps.SyncInventoriesWrites | app/Services/ProductRelationSyncService.php:123-135 | on success every (warehouse, variation) the list writes holds the quantity of its last entry |
| WarehouseProps.SyncInventoriesKeeps | app/Services/ProductRelationSyncService.php:123-125 | on success a row of another warehouse, or of a variation the list does not write, is left as it was |
| WarehouseProps.SyncInventoriesNew | app/Services/ProductRelationSyncService.php:127-135 | on success the only new rows are for (warehouse, variation) pairs the list writes, and no pair gets a second row |
| WarehouseProps.SyncInventoriesOnly | app/Services/ProductRelationSyncService.php:119-136 | on success, in a table without duplicate keys, every row is an old row left as it was or holds its planned quantity |
| WarehouseProps.SyncWarehousesFails | app/Services/ProductRelationSyncService.php:111-138 | phase 4 raises exactly when some warehouse entry has no name or one of its inventory entries raises |
| WarehouseProps.SyncWarehousesKeeps | app/Services/ProductRelationSyncService.php:113-116 | on success every existing warehouse is kept and no warehouse is duplicated |
| WarehouseProps.SyncWarehousesNamed | app/Services/ProductRelationSyncService.php:113-116 | on success every entry's (name, location ?? null) has its warehouse, and the only new warehouses are entries of the list |
| WarehouseProps.SyncWarehousesInventoryKeys | app/Services/ProductRelationSyncService.php:127-135 | on success no inventory row disappears or changes its warehouse or variation |
| WarehouseProps.SyncWarehousesInventoryKeeps | app/Services/ProductRelationSyncService.php:118-137 | on success an inventory row whose (warehouse, variation) the list does not write is left as it was |
| WarehouseProps.SyncWarehousesInventoryNew | app/Services/ProductRelationSyncService.php:127-135 | on success the only new inventory rows are planned ones, and no pair gets a second row |
| WarehouseProps.SyncWarehousesInventoryWrites | app/Services/ProductRelationSyncService.php:111-138 | on success every planned (warehouse, variation) holds the quantity of the last entry for it |
| WarehouseProps.SyncWarehousesInventory | app/Services/ProductRelationSyncService.php:109-139 | phase 4 on success: every inventory row is an old row left as it was or holds its planned quantity, and every planned pair has such a row |
| SyncProps.PrepareIds | app/Services/ProductRelationSyncService.php:81-91 | the sku map phase 4 reads has exactly the document's skus as keys, each with the id of the last variation created for it |
| SyncProps.SyncRelationsFails | app/Services/ProductRelationSyncService.php:25-142 | the transaction rolls back exactly when the payload has a warehouses list and one of its entries has no name, or has an inventory entry with no variation_sku, or one whose sku is in the document but which has no quantity |
| SyncProps.SyncRelationsWithoutWarehouses | app/Services/ProductRelationSyncService.php:109 | without a warehouses list, or with an empty one, the transaction commits and leaves the warehouses alone; the inventories are those left after the product's variations were deleted |
| SyncProps.SyncRelationsDictionaries | app/Services/ProductRelationSyncService.php:25-142 | a committed sync keeps attributes, attribute values, options and warehouses free of duplicates |
| SyncProps.SyncRelationsVariations | app/Services/ProductRelationSyncService.php:32-103 | after a commit the product's variations are exactly the new rows next, next + 1, …, one per entry in document order with active defaulting to true; other products' variations, the products and the staging rows are untouched |
| SyncProps.PrepareOptionsCover | app/Services/ProductRelationSyncService.php:57-75 | before phase 4 the product has an option for every (attribute, value) pair of the document |
| SyncProps.PrepareOptionsOnly | app/Services/ProductRelationSyncService.php:32-75 | before phase 4 the product has no other option, and other products' options are untouched |
| SyncProps.SyncRelationsOptions | app/Services/ProductRelationSyncService.php:32-75 | after a commit the product has an option for every (attribute, value) pair of the document and no other; other products' options are untouched |
| SyncProps.SyncRelationsInventories | app/Services/ProductRelationSyncService.php:105-139 | after a commit with a warehouses list: every inventory row is one left after the clean-up, unchanged, or holds the quantity the list plans for it; every planned pair has its row |
| ImportRecords.DigitRun | app/Services/ImportProductService.php:75 | the length of the run of decimal digits that starts the text: all digits up to it, and a non-digit (or the end) at it |
| ImportRecords.SkipSpace | app/Services/ImportProductService.php:75 | the leading whitespace `(float)` skips: no whitespace is left at the front |
| ImportRecords.FracValue | app/Services/ImportProductService.php:75 | the digits after a decimal point have a value in [0, 1) |
| ImportRecords.CastDigits | app/Services/ImportProductService.php:75 | `(float)` of a text of digits is its decimal value |
| ImportRecords.CastIntText | app/Services/ImportProductService.php:75 | `(float)` of the decimal text of an int is that int |
| ImportRecords.CastNegativeDigits | app/Services/ImportProductService.php:75 | `(float)` of '-' followed by digits is the negated value |
| ImportRecords.UnsignedDecimalOf | app/Services/ImportProductService.php:75 | digits '.' digits read as the whole part plus the fraction |
| ImportRecords.CastDecimal | app/Services/ImportProductService.php:75 | `(float)` of digits '.' digits is the whole part plus the fraction |
| ImportRecords.DigitRunPrefix | app/Services/ImportProductService.php:75 | a run of digits followed by a non-digit is measured exactly |
| ImportRecords.LastIndex | app/Services/ImportProductService.php:61 | array_flip on the header: a name is present exactly when some column carries it, and then it gives the last such column |
| ImportRecords.Column | app/Services/ImportProductService.php:71-78 | a field is null exactly when its header is absent, and otherwise it is the row's value in the last column carrying that header |
| ImportRecords.WellFormed | app/Services/ImportProductService.php:65-68 | the kept rows all have the header's width |
| ImportRecords.GetRecords | app/Services/ImportProductService.php:55-83 | the read loop yields exactly Records(headers, rows) |
| ImportRecords.WellFormedMembers | app/Services/ImportProductService.php:65-68 | a row is kept exactly when it has as many fields as the header |
| ImportRecords.RowSnoc | app/Services/ImportProductService.php:63-80 | one more row is kept, and yields its record, exactly when it has the header's width |
| ImportRecords.WellFormedConcat | app/Services/ImportProductService.php:63-80 | keeping rows distributes over concatenation, so file order is kept |
| ImportRecords.RecordsAreShapes | app/Services/ImportProductService.php:63-80 | one record per kept row, in order, each built from its row |
| ImportRecords.MissingHeader | app/Services/ImportProductService.php:71-78 | a missing id or warehouses header gives null, a missing price header gives 0.0, and a present price header gives the cast of that column |
| ImportRecords.TestPrice | tests/Unit/ImportProductServiceTest.php:27 | `(float)` of "19.99" is 19.99 |
| ImportRecords.TestColumns | tests/Unit/ImportProductServiceTest.php:14 | the test header puts id, status and price in columns 0, 3 and 4 |
| ImportRecords.RecordsOfThree | tests/Unit/ImportProductServiceTest.php:13-18 | of three rows whose middle one is short, the records are those of the first and the third |
| ImportRecords.GetRecordsExample | tests/Unit/ImportProductServiceTest.php:10-31 | the unit test's file yields two records; the first has id "1" and price 19.99, the second status "deleted" |
| ImportService.StripWarehouses | app/Services/ImportProductService.php:17-21 | unset($record['warehouses']) drops only that key: putting it back gives the record |
| ImportService.StripAll | app/Services/ImportProductService.php:17-21 | the array_map strips every record of the chunk, one row per record, in order |
| ImportService.UpsertProducts | app/Services/ImportProductService.php:23-27 | the upsert statement changes only the products table and its counter |
| ImportService.Targeted | app/Services/ImportProductService.php:23-27 | the ids the rows name are exactly those of rows with an integer id |
| ImportService.LastFor | app/Services/ImportProductService.php:23-27 | the last row naming an id, and none exactly when no row names it |
| ImportService.UpsertFails | app/Services/ImportProductService.php:23-27 | the statement fails, changing nothing, exactly when some row's id is neither null nor integer text |
| ImportService.UpsertFrame | app/Services/ImportProductService.php:23-27 | the auto-increment counter never goes down and stays above every id |
| ImportService.UpsertUntouched | app/Services/ImportProductService.php:23-27 | a product no row names is left as it was |
| ImportService.UpsertKeys | app/Services/ImportProductService.php:23-27 | every existing or named id has a row afterwards, and every other new row took an id from the counter |
| ImportService.UpsertLastWins | app/Services/ImportProductService.php:26 | a named product ends with the update columns of the last row naming it; an existing one keeps created_at and deleted_at, a new one is live and has the created_at of one of the rows |
| ImportService.UpsertExample | tests/Unit/ImportProductServiceTest.php:35-81 | the unit test: a second upsert of id 100 overwrites name, price, status and variations and keeps the first created_at |
| ImportService.InsertProducts | app/Services/ImportProductService.php:14-28 | insertProducts succeeds exactly when UpsertProducts of the stripped chunk does and then leaves its state; otherwise nothing changes |
| ImportService.SyncRecord | app/Services/ImportProductService.php:38-47 | the loop body for one record leaves a valid store when it succeeds |
| ImportService.SyncAll | app/Services/ImportProductService.php:36-49 | the record loop leaves a valid store |
| ImportService.SyncRecordFails | app/Services/ImportProductService.php:38-47 | a record raises exactly when it names a live product and the stored variations are not a readable document, or its warehouses text is truthy and not a readable list, or one of its warehouse entries is rejected; a record without an id, or naming a missing or soft-deleted product, goes through |
| ImportService.SyncAllConcat | app/Services/ImportProductService.php:36-49 | the loop over a + b is the loop over a and then, if that went through, the loop over b |
| ImportService.SyncAllKeepsProducts | app/Services/ImportProductService.php:36-49 | the loop never changes the products, their counter or the staging rows |
| ImportService.SyncAllDictionaries | app/Services/ImportProductService.php:36-49 | the loop keeps the global tables free of duplicates |
| ImportService.SyncAllStopsAtFirstFailure | app/Services/ImportProductService.php:36-49 | when the loop reports an error, some record raised after every record before it went through, and the state is the one after those records |
| ImportService.SyncRecordStep | app/Services/ImportProductService.php:38-47 | one iteration succeeds exactly when SyncRecord does and then leaves its state; otherwise nothing changes |
| ImportService.SyncAllProductsRelations | app/Services/ImportProductService.php:33-50 | the loop leaves exactly SyncAll's state and outcome |
| ImportCommands.CommandShapeAgrees | app/Console/Commands/ImportProducts.php:263-276 | with every required header the command's record for a row is the service's record; without one the lookup raises |
| ImportCommands.CommandRecordsAgree | app/Console/Commands/ImportProducts.php:250-279 | the command's reader yields exactly the service reader's records, except that a missing required header raises at the first row of the header's width (and only then) |
| ImportCommands.ReadVariationsAsWritten | app/Console/Commands/ImportProducts.php:124-129 | as written, stored text that decodes to an array of any kind raises; a product is synced exactly when its text decodes to a string that itself decodes to a document, and then with that document |
| ImportCommands.ReadVariationsFinding | app/Console/Commands/ImportProducts.php:124-129 | for a well-formed stored document the code as written raises while the intended reading syncs that document; for the same document encoded twice it is the other way round |
| ImportCommands.CommandSyncRecord | app/Console/Commands/ImportProducts.php:121-245 | one record's relation sync keeps the store's invariants |
| ImportCommands.CommandSyncAll | app/Console/Commands/ImportProducts.php:104-116 | the loop over the records keeps the store's invariants |
| ImportCommands.CommandSkipsEmptyVariations | app/Console/Commands/ImportProducts.php:124-129 | a product whose stored variations are missing, null, false or empty is left as it is |
| ImportCommands.CommandSyncRecordFails | app/Console/Commands/ImportProducts.php:121-245 | a record raises exactly when it names a live product whose stored document is unreadable or a truthy scalar, or whose warehouses text is unreadable or holds an entry the relation sync rejects |
| ImportCommands.CommandSyncAllKeepsProducts | app/Console/Commands/ImportProducts.php:104-116 | the relation sync never changes the products, their counter or the staging rows |
| ImportCommands.CommandSyncAllDictionaries | app/Console/Commands/ImportProducts.php:104-116 | the relation sync keeps the dictionary tables free of duplicates |
| ImportCommands.CommandSyncRecordStep | app/Console/Commands/ImportProducts.php:106-114 | one iteration succeeds exactly when CommandSyncRecord does, and then leaves its state; otherwise the store is unchanged |
| ImportCommands.CommandSyncAllRelations | app/Console/Commands/ImportProducts.php:104-116 | the loop leaves exactly CommandSyncAll's state and outcome |
| ImportCommands.Stamp | app/Console/Commands/ImportProducts.php:45-47 | every record, in order, carries created_at = updated_at = the run's start |
| ImportCommands.FlushChunk | app/Console/Commands/ImportProducts.php:51-56 | a flush keeps the store's invariants |
| ImportCommands.RunChunks | app/Console/Commands/ImportProducts.php:43-62 | the chunk loop keeps the store's invariants |
| ImportCommands.Cleanup | app/Console/Commands/ImportProducts.php:66-69 | the cleanup removes exactly the products neither updated nor created by the run and keeps the others unchanged; a variation or option is dropped exactly when its product is removed, a link exactly when its variation or option is dropped, an inventory row exactly when its variation is dropped; every kept row and the dictionary tables are unchanged |
| ImportCommands.Import | app/Console/Commands/ImportProducts.php:43-69 | the run keeps the store's invariants |
| ImportCommands.ImportFile | app/Console/Commands/ImportProducts.php:25-80 | handle() keeps the store's invariants |
| ImportCommands.UpsertStamps | app/Console/Commands/ImportProducts.php:85-99 | every row the upsert writes carries the run's start, and no product disappears |
| ImportCommands.NamesTargeted | app/Console/Commands/ImportProducts.php:85-99 | the upsert rows of a chunk target exactly the ids its records name |
| ImportCommands.UpsertChunkSpec | app/Console/Commands/ImportProducts.php:85-99 | the upsert of one chunk keeps untouched products, stamps the ones it writes and the ones its records name |
| ImportCommands.FlushSpec | app/Console/Commands/ImportProducts.php:51-56 | a flush, whether it raises or not, stamps only what it writes and leaves unnamed products untouched |
| ImportCommands.RunSpec | app/Console/Commands/ImportProducts.php:43-62 | the same guarantee for the whole chunk sequence |
| ImportCommands.ImportOutcome | app/Console/Commands/ImportProducts.php:43-69 | after a successful run every named product carries the run's start, every older unnamed product is gone and every remaining product was written by the run or is not older than it; a failed run deletes nothing |
| ImportCommands.ImportReplacesCatalogue | app/Console/Commands/ImportProducts.php:43-69 | when every stored product predates the run, a successful import keeps exactly the products the file names |
| ImportCommands.RunChunksDictionaries | app/Console/Commands/ImportProducts.php:43-62 | the chunk loop keeps the dictionary tables free of duplicates |
| ImportCommands.ImportDictionaries | app/Console/Commands/ImportProducts.php:43-69 | the import keeps the dictionary tables free of duplicates, whether it succeeds or not |
| ImportCommands.RunChunksFailed | app/Console/Commands/ImportProducts.php:74-78 | once a chunk has raised, later chunks change nothing |
| ImportCommands.RunChunksSnoc | app/Console/Commands/ImportProducts.php:51-56 | a further chunk after a successful prefix is one more flush |
| ImportCommands.RunStopsAtFailedChunk | app/Console/Commands/ImportProducts.php:43-62 | a chunk that raises ends the run whatever records follow it |
| ImportCommands.CollectStep | app/Console/Commands/ImportProducts.php:43-56 | taking a record and flushing at the chunk size keeps the flushed chunks full and, with the open chunk, equal to the records read |
| ImportCommands.CollectEnd | app/Console/Commands/ImportProducts.php:59-62 | at the end the flushed chunks plus the non-empty last one are exactly the chunks of the records |
| ImportCommands.FlushStep | app/Console/Commands/ImportProducts.php:51-56 | insertProducts then the relation sync leave exactly FlushChunk's state and outcome |
| ImportCommands.DeleteStale | app/Console/Commands/ImportProducts.php:66-69 | the delete leaves exactly Cleanup's state |
| ImportCommands.RunRecords | app/Console/Commands/ImportProducts.php:43-62 | the loop leaves exactly the state of running the chunks of the stamped records; on success it counted every record and flushed one chunk per chunk |
| ImportCommands.Handle | app/Console/Commands/ImportProducts.php:25-80 | handle() leaves exactly ImportFile's state and outcome, and on success counted every record the reader yields |
| ImportCommands.OldImportFile | app/Console/Commands/ImportProductsOldStructure.php:25-91 | the old-structure handle() keeps the store's invariants |
| ImportCommands.RunWithoutRelations | app/Console/Commands/ImportProductsOldStructure.php:44-62 | without the relation sync a run writes the products table and its counter only |
| ImportCommands.OldImportCreatesNoRelations | app/Console/Commands/ImportProductsOldStructure.php:59-78 | the old-structure command creates no relation row and leaves the counters of the relation tables unchanged |
| ImportCommands.HandleOld | app/Console/Commands/ImportProductsOldStructure.php:25-91 | the old-structure handle() leaves exactly OldImportFile's state and outcome; on success it counted every record and ceil(total / chunk size) chunks |
| Chunking.ChunksFlatten | app/Console/Commands/ImportProducts.php:43-62 | every record read lands in exactly one flushed chunk, in input order |
| Chunking.ChunksShape | app/Console/Commands/ImportProducts.php:51-62 | every flushed chunk but the last holds exactly the chunk size; the last is non-empty and no larger |
| Chunking.ChunksCount | app/Console/Commands/ImportProducts.php:43-62 | a run flushes ceil(records / chunk size) chunks |
| Chunking.ChunksUnique | app/Console/Commands/ImportProducts.php:43-62 | any cut of the records with that shape is the one the loop makes |
| Chunking.ChunksAfterFull | app/Console/Commands/ImportProducts.php:51-56 | full chunks already flushed, followed by the chunks of the remaining records, are the chunks of the whole |
| Chunking.FlattenMember | app/Console/Commands/ImportProducts.php:43-62 | a record of the run sits in one of the flushed chunks |
| Reaper.Reap | app/Jobs/RemoveOutdatedProducts.php:24-28 | the delete keeps every row, leaves live only products whose id is in the list, keeps named and already-deleted rows unchanged, and soft-deletes every other live row at the current time, changing nothing else in it |
| Reaper.ReapLive | app/Jobs/RemoveOutdatedProducts.php:27 | a product stays live exactly when it was live and its id is in the list |
| Reaper.ReapDefault | app/Jobs/RemoveOutdatedProducts.php:16-28 | with the default empty list every product ends up deleted |
| Reaper.ReapIdempotent | app/Jobs/RemoveOutdatedProducts.php:24-28 | running the job again with the same ids, at any later time, changes nothing |
| Reaper.ReapDependsOnIdSet | app/Jobs/RemoveOutdatedProducts.php:27 | lists with the same ids reap the same products, whatever their order and repetitions |
| Reaper.RemoveOutdatedProducts | app/Jobs/RemoveOutdatedProducts.php:24-28 | the job leaves exactly Reap's state |
| SyncRun.StoreStaging | app/Services/ProductSyncService.php:29-37 | a new staging row holds the payload with status pending and no duration, under a fresh id; nothing else changes |
| SyncRun.BatchFinished | app/Services/ProductSyncService.php:86-93 | the staging row found at the start is marked done with the batch duration; no other row or table changes |
| SyncRun.UpdateOrCreate | app/Services/ProductSyncService.php:64-67 | the write raises exactly when the id belongs to a soft-deleted product; otherwise the id's row becomes the synced row and only the products table and its counter change, the counter staying ahead |
| SyncRun.SyncOne | app/Services/ProductSyncService.php:53-78 | one iteration keeps the store's invariants and reports the record's id |
| SyncRun.SyncLoop | app/Services/ProductSyncService.php:53-78 | the loop keeps the store's invariants |
| SyncRun.SyncFromExternalApi | app/Services/ProductSyncService.php:39-122 | a failed run reports no ids and rolls the database back; a successful one reports the ids to reap |
| SyncRun.SyncFromExternalApiAsWritten | app/Services/ProductSyncService.php:39-122 | as written every run fails, leaves the database as it was and dispatches no reaper |
| SyncRun.Ids | app/Services/ProductSyncService.php:57 | the id set holds exactly the records' ids |
| SyncRun.SyncOneSpec | app/Services/ProductSyncService.php:53-78 | one iteration raises exactly on a record without variations, with a variation lacking a colour or a material, or naming a soft-deleted product; otherwise that product is live with the run's start as created_at and updated_at and no other product row changes |
| SyncRun.SyncOneSynced | app/Services/ProductSyncService.php:53-78 | a successful iteration leaves its product synced and the rest untouched |
| SyncRun.RejectedStable | app/Services/ProductSyncService.php:53-78 | a successful iteration neither causes nor cures a later record's rejection |
| SyncRun.SyncOneRejected | app/Services/ProductSyncService.php:53-78 | one iteration raises exactly on a rejected record: one the normaliser cannot read or one naming a soft-deleted product |
| SyncRun.SyncLoopFails | app/Services/ProductSyncService.php:53-78 | the loop raises exactly when some record is rejected by the state before the run |
| SyncRun.SyncLoopIds | app/Services/ProductSyncService.php:57 | on success the collected ids are the records' ids, in input order, one per record |
| SyncRun.SyncedTrans | app/Services/ProductSyncService.php:53-78 | syncing one record and then the rest is syncing them all |
| SyncRun.SyncLoopRows | app/Services/ProductSyncService.php:53-78 | on success every record's product is live and stamped with the run's start, no other id appears, no other row changes and no product disappears |
| SyncRun.SyncThenReap | app/Services/ProductSyncService.php:102-112 | on success the response counts the input products, the reaper receives their ids in order, and after the reaper a product is live exactly when the payload named it |
| SyncRun.EmptyPayloadFinding | app/Services/ProductSyncService.php:84-85 | for an empty payload the code as written fails, while the intended run succeeds with zero products, writes nothing itself and queues the reaper with an empty id list, which soft-deletes every live product (Reaper.ReapDefault) |
| SyncRun.SyncMethodFinding | app/Services/ProductSyncService.php:71 | for one well-formed product the code as written fails while the intended run syncs it |
| SyncRun.SyncOneStep | app/Services/ProductSyncService.php:54-71 | one iteration on the store succeeds exactly when SyncOne does and then leaves its state |
| SyncRun.SyncFromExternalApiRun | app/Services/ProductSyncService.php:39-122 | the method leaves exactly SyncFromExternalApi's state, response and reaper ids |
| Seeders.LeadingBlanks | app/Console/Commands/GenerateVariationSeeders.php:34-35 | counts exactly the blanks trim() strips at the front |
| Seeders.TrailingBlanks | app/Console/Commands/GenerateVariationSeeders.php:34-35 | counts exactly the blanks trim() strips at the back |
| Seeders.TrimSpec | app/Console/Commands/GenerateVariationSeeders.php:34-37 | trim() keeps a middle slice of the text, drops only blanks, leaves no blank at either end, and gives the empty text exactly for all-blank text |
| Seeders.TrimIdempotent | app/Console/Commands/GenerateVariationSeeders.php:42 | trimming a trimmed text changes nothing |
| Seeders.Split | app/Console/Commands/GenerateVariationSeeders.php:42 | explode() gives at least one piece, and no piece holds the separator |
| Seeders.JoinSplit | app/Console/Commands/GenerateVariationSeeders.php:42 | gluing the pieces of explode() back together gives the original text |
| Seeders.SplitPrefix | app/Console/Commands/GenerateVariationSeeders.php:42 | a separator-free word in front of more text joins the first piece |
| Seeders.SplitJoin | app/Console/Commands/GenerateVariationSeeders.php:42 | separator-free pieces are what explode() gives back from their join |
| Seeders.QuotedNames | app/Console/Commands/GenerateVariationSeeders.php:160 | each attribute name of a product is written, in order, as a single-quoted literal with escapeStringForSeeder's escaping |
| Seeders.EscapeForSeederReadsBack | app/Console/Commands/GenerateVariationSeeders.php:77-81 | for text without backslashes, the escaped literal reads back as the text and ends at the closing quote |
| Seeders.EscapeForSeederBackslash | app/Console/Commands/GenerateVariationSeeders.php:77-81 | a name made of one backslash does not read back from its escaped literal |
| Seeders.EscapeLiteralReadsBack | app/Console/Commands/GenerateVariationSeeders.php:77-81 | with backslashes escaped as well, every text reads back from its literal |
| Seeders.EscapesAgreeWithoutBackslash | app/Console/Commands/GenerateVariationSeeders.php:77-81 | on text without backslashes the corrected escape writes the same literal as the original one |
| Seeders.TrimEach | app/Console/Commands/GenerateVariationSeeders.php:42 | each piece trimmed, in order |
| Seeders.Contributions | app/Console/Commands/GenerateVariationSeeders.php:32-64 | one contribution per entry |
| Seeders.AttributeNames | app/Console/Commands/GenerateVariationSeeders.php:45-47 | the accepted entries' names, in order |
| Seeders.ProductIds | app/Console/Commands/GenerateVariationSeeders.php:57-59 | the accepted entries' product ids, in order |
| Seeders.ValuesOfMembers | app/Console/Commands/GenerateVariationSeeders.php:50-54 | a value is given for an attribute exactly when some accepted entry with that name gives it |
| Seeders.NamesForMembers | app/Console/Commands/GenerateVariationSeeders.php:61-63 | a name is given for a product exactly when one of its accepted entries gives it |
| Seeders.AcceptSpec | app/Console/Commands/GenerateVariationSeeders.php:34-42 | an entry is kept exactly when its name and its value each hold a non-blank character; then the name is non-empty and trimmed, and every value piece is trimmed, comma-free and rejoins to the trimmed value |
| Seeders.DecodeOnce | app/Console/Commands/GenerateVariationSeeders.php:26-30 | as intended, one decode: a product raises exactly when its list has an unreadable entry, and its entries are read exactly when its text decodes to an array |
| Seeders.DecodeTwice | app/Console/Commands/GenerateVariationSeeders.php:26-30 | as written, json_decode of the cast value: a product raises exactly when its text decodes to an array, or to a string holding an unreadable list; entries are read only from a list encoded twice |
| Seeders.GenerateFails | app/Console/Commands/GenerateVariationSeeders.php:23-30 | the command writes no seeder exactly when some product raises, as intended and as written |
| Seeders.SeederDecodeFinding | app/Console/Commands/GenerateVariationSeeders.php:26 | for a column holding a list of entries, the code as written raises before any seeder is written, while as intended every accepted entry of that list is aggregated |
| Seeders.MentionsMembers | app/Console/Commands/GenerateVariationSeeders.php:24-39 | over the products as read, the accepted entries are exactly the entries of lists that Accept takes |
| Seeders.AggregateContents | app/Console/Commands/GenerateVariationSeeders.php:19-65 | the attribute dictionary lists exactly the accepted names, each with exactly the values given for it; the product map lists exactly the products with an accepted entry, each with exactly its names; no list repeats an element, and key lists and dictionaries agree |
| Seeders.AggregateOrder | app/Console/Commands/GenerateVariationSeeders.php:45-63 | attributes and products are listed in the order of their first accepted entry |
| Seeders.AggregateSnoc | app/Console/Commands/GenerateVariationSeeders.php:44-63 | one more accepted entry appends a new attribute or product key, and adds to its lists only what they lacked |
| Seeders.AddValues | app/Console/Commands/GenerateVariationSeeders.php:50-54 | the in_array loop appends to a duplicate-free list exactly the new values, first-seen order kept |
| Seeders.Register | app/Console/Commands/GenerateVariationSeeders.php:44-63 | registering one accepted entry gives the dictionaries of the entries so far plus that one |
| Seeders.RegisterEntry | app/Console/Commands/GenerateVariationSeeders.php:32-64 | one iteration skips a rejected entry and registers an accepted one |
| Seeders.AggregateVariations | app/Console/Commands/GenerateVariationSeeders.php:15-65 | handle(), as written or as intended, gives exactly Generate: no seeds when reading some product raises, otherwise the dictionaries of all accepted entries of all products read |

## Left out

- Reading the CSV file and tokenising its lines (`fopen`, `fgetcsv`): a file is given as its header and its rows of fields. Blank lines, which `fgetcsv` returns as a one-field row, and a file without a header line are not modelled.
- JSON decoding and encoding: a decoded document is a `Common.Decoded` value supplied by a parameter (`decodeV`, `decodeW`), and `json_encode` of a variations document is the parameter `encodeV`. `Json::decode` of the whole supplier payload, which runs before the transaction, is replaced by the list of raw records.
- What a decoded PHP scalar is: `Decoded.Scalar` keeps only whether a bool or number is truthy. A string keeps its text (`Decoded.Text`). Non-string scalars inside a seeder entry are left out.
- HTTP fetching, the supplier connectors, `FetchProductsCommand`, `FetchProductsJob`, `ProcessProductJob` and the `ProcessProductJob::dispatch` call: network and queue I/O. `StoreStaging` models only the staging row.
- The downstream jobs of the batch (`NotifyCustomerBackToStockJob`, the webhook jobs, the inventory-management job) and the queue itself: `BatchFinished` models only the batch's success callback on the staging row. The failure callback only logs.
- Log lines, console messages and the error message returned on failure: `SyncResponse.Failed` carries no message.
- The clock and durations: the run's start time, the reaper's time and the batch duration are integer parameters.
- Floating point: prices and additional prices are `real`, with no rounding to the `decimal` column. The float cast of a price text covers an optional sign, digits and an optional fraction. An exponent is not modelled.
- Database engine details: ids are unbounded integers, and id text that is not integer text makes the write fail. Any other type coercion by the engine is not modelled.
- The cascade delete of option links and inventory rows when variations or options are deleted. The migrations for those tables are not part of this model, so the cascade is an assumption of `Tables.ClearRelations`.
- ImportCommands.Cleanup: the hard delete of a product is taken to delete its options too. Only the cascade from products to variations is declared in the migrations this model covers (database/migrations/2025_11_22_091956_create_product_variations_table.php:21). If the options table had no cascading key, the delete would fail or leave orphaned options; the model does not represent either.
- Normalizer.NormalizeFails: a supplier record is taken to carry `id`, `name` and `price`, and `id` to be an integer. Reading a missing one raises in the source (an undefined key under the framework's error handler); the model has no record without them, so the lemma's "exactly" covers records that have them.
- SyncRun.SyncOneSpec: its "raises exactly" covers supplier records that carry `id`, `name` and `price`, as for Normalizer.NormalizeFails.
- SyncRun.SyncOneRejected: as for SyncRun.SyncOneSpec.
- SyncRun.SyncLoopFails: as for SyncRun.SyncOneSpec.
- A colour or material key that is present with the value null is not represented; it would reach strtoupper as null.
- Option keys: the source joins attribute and value as `"attr:value"`. The model keys options by the pair, so two pairs whose joined texts collide (a ':' inside a name) are not modelled.
- A key that is present with the value null is modelled like an absent key wherever PHP's `??` or `isset` treats the two alike.
- `ImportCommands.CommandRecords`: the command's reader is a generator, consumed lazily by the chunk loop. The model reads the whole file first. `ImportCommands.CommandRecordsAgree` shows this is harmless: a reader that raises does so before yielding any record.
- `ImportCommands.CommandShape`: the `??` fallbacks on price and warehouses never apply. A row always has the header's width, and a missing header raises before the fallback.
- The variations column of a CSV row is stored as text. In the supplier sync, the array cast of the `variations` attribute encodes the document once more before the write; that text is what `encodeV` stands for.
- The old-structure command's commented-out relation sync is left out, as the code leaves it out.
- `SyncRun.SyncOneStep`: when an iteration raises, the contract says nothing about the store. The caller rolls the transaction back, and `SyncRun.SyncFromExternalApiRun` restores the saved state.
- The staging-item table: no code shown populates it. The staging row's status never becomes `failed` in the code.
- The seeder generator's product query (`whereNotNull('variations')`, live rows, the engine's order) is an input: the list of products with their stored variations text, read through the decoder `decodeE`.
- Seeders: `in_array` compares loosely, so "1" equals "01"; the model uses exact equality.
- Seeders: the seeder template text and the `File::put` writes are left out. Only the escaping of the literals they contain is modelled.
- `Seeders.Register`: it updates each dictionary entry in one step, where the source first creates an empty entry and then appends to it. The result is the same.
- Concurrency: two runs syncing the same product at once, and the reaper running while queued work is still in flight.
- The unit test at tests/Unit/ImportProductServiceTest.php:83-150 (two variations, four option links, quantities 3 and 5) is not restated as a concrete example. The general lemmas on links and inventories cover it.
- The Eloquent models, controllers, views, routes and service-provider wiring: they declare relations and plumbing, not logic.

## Findings

| source | as written | input that shows it | evidently intended | confidence | as-written member | corrected member |
|---|---|---|---|---|---|---|
| app/Services/ProductSyncService.php:71 | calls `sync` on `ProductRelationSyncService`, which only defines `syncProductRelations`, so the first product that reaches this line raises and the run rolls back | one raw product with variations whose id is not soft-deleted | sync the product's relations and succeed with `synced = 1` | not executed | SyncRun.SyncFromExternalApiAsWritten, shown by SyncRun.SyncMethodFinding | SyncRun.SyncFromExternalApi, proved by SyncRun.SyncLoopFails and SyncRun.SyncThenReap |
| app/Services/ProductSyncService.php:84-85 | the batch is named after `$product`, which is only assigned inside the loop | an empty product list | succeed with `synced = 0`, write nothing in the transaction, and queue the reaper with an empty id list, which soft-deletes every live product | not executed | SyncRun.SyncFromExternalApiAsWritten, shown by SyncRun.EmptyPayloadFinding | SyncRun.SyncFromExternalApi, proved by SyncRun.EmptyPayloadFinding |
| app/Console/Commands/ImportProducts.php:124 | `json_decode` of the `variations` attribute, which the model's array cast has already decoded, so stored text that decodes to an array raises and never reaches the sync; only a document encoded twice is synced | a product whose stored variations decode to a well-formed document | decode once and sync that document, as the service does | not executed | ImportCommands.ReadVariationsAsWritten, shown by ImportCommands.ReadVariationsFinding | ImportCommands.ReadVariations, used by ImportCommands.CommandSyncRecord and proved by ImportCommands.CommandSyncRecordFails and ImportCommands.CommandSkipsEmptyVariations |
| app/Console/Commands/GenerateVariationSeeders.php:77-81 | `escapeStringForSeeder` escapes single quotes but not backslashes | an attribute name made of one backslash | escape backslashes too, so every name reads back from its literal | not executed | Seeders.EscapeForSeeder, shown by Seeders.EscapeForSeederBackslash | Seeders.EscapeLiteral, proved by Seeders.EscapeLiteralReadsBack |
| app/Console/Commands/GenerateVariationSeeders.php:26 | `json_decode` of the `variations` attribute, which the model's array cast has already decoded, so the command raises a type error before writing any seeder | one product whose variations column holds the text `[{"name":"color","value":"red"}]` | decode once and aggregate color with the value red | not executed | Seeders.DecodeTwice, shown by Seeders.SeederDecodeFinding | Seeders.DecodeOnce, used by Seeders.AggregateVariations and proved by Seeders.GenerateFails and Seeders.SeederDecodeFinding |
