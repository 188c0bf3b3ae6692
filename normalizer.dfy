/** ProductSyncService::normalizeExternalProduct: a raw supplier record
    becomes the canonical product. */
module Normalizer {
  import opened Common
  import opened Dto

  /** One raw supplier variation; a field is None when its key is absent.
      Reading an absent `color` or `material` raises an error. */
  datatype RawVariation = RawVariation(color: Option<string>, material: Option<string>, additionalPrice: Option<real>)

  /** The variation carries both keys the normaliser reads without a default. */
  predicate Tagged(v: RawVariation) {
    v.color.Some? && v.material.Some?
  }

  /** Every variation carries both keys. */
  predicate AllTagged(vs: seq<RawVariation>) {
    forall i :: 0 <= i < |vs| ==> vs[i].color.Some? && vs[i].material.Some?
  }

  /** The record can be normalised: it has a variations list, and every
      variation in it has a colour and a material. */
  predicate Normalizable(raw: RawProduct) {
    raw.variations.Some? && AllTagged(raw.variations.value)
  }

  /** One raw supplier record; `variations` is None when the key is absent
      (reading it then raises an error), `isDeleted` is None when absent. */
  datatype RawProduct = RawProduct(id: int, name: string, price: real,
                                   variations: Option<seq<RawVariation>>, isDeleted: Option<bool>)

  function Status(raw: RawProduct): string {
    if raw.isDeleted == Some(true) then "deleted" else "active"
  }

  function BaseSku(raw: RawProduct): string {
    Upper(ReplaceChar(raw.name, ' ', '-')) + "-" + IntToText(raw.id)
  }

  function VariationSku(base: string, v: RawVariation): string
    requires Tagged(v)
  {
    base + "-" + Upper(v.color.value) + "-" + Upper(v.material.value)
  }

  function Colors(vs: seq<RawVariation>): (r: seq<string>)
    requires AllTagged(vs)
    ensures |r| == |vs| && forall i :: 0 <= i < |vs| ==> r[i] == vs[i].color.value
  {
    if vs == [] then [] else [vs[0].color.value] + Colors(vs[1..])
  }

  function Materials(vs: seq<RawVariation>): (r: seq<string>)
    requires AllTagged(vs)
    ensures |r| == |vs| && forall i :: 0 <= i < |vs| ==> r[i] == vs[i].material.value
  {
    if vs == [] then [] else [vs[0].material.value] + Materials(vs[1..])
  }

  /** One canonical variation. `active` is PHP's `! $status`: the negation
      of the status string's truthiness. */
  function NormalizeVariation(base: string, price: real, status: string, v: RawVariation): Variation
    requires Tagged(v)
  {
    Variation(VariationSku(base, v), price + v.additionalPrice.GetOr(0.0),
              Some(!StringTruthy(status)), OptionsOf(v.color.value, v.material.value))
  }

  /** The options dictionary ['color' => color, 'material' => material]. */
  function OptionsOf(color: string, material: string): seq<(string, string)> {
    [("color", color), ("material", material)]
  }

  function NormalizeVariations(base: string, price: real, status: string, vs: seq<RawVariation>): (r: seq<Variation>)
    requires AllTagged(vs)
    ensures |r| == |vs|
    ensures forall i :: 0 <= i < |vs| ==> r[i] == NormalizeVariation(base, price, status, vs[i])
  {
    if vs == [] then [] else [NormalizeVariation(base, price, status, vs[0])] + NormalizeVariations(base, price, status, vs[1..])
  }

  /** The canonical product, or None when the record has no variations key
      or one of its variations lacks a colour or a material. */
  function Normalize(raw: RawProduct): Option<ProductDto> {
    if !Normalizable(raw) then None
    else
      var vs := raw.variations.value;
      var status := Status(raw);
      var base := BaseSku(raw);
      var doc := VariationsData(
        [AttributeDef("color", Dedup(Colors(vs))), AttributeDef("material", Dedup(Materials(vs)))],
        NormalizeVariations(base, raw.price, status, vs));
      Some(NewDto(ProductData(raw.id, raw.name, raw.price, base, status, doc, Some(Some([])))))
  }

  /** The normaliser itself: the first loop collects colours and materials,
      array_unique removes repeats, the second loop builds the variations. */
  method NormalizeExternalProduct(raw: RawProduct) returns (r: Option<ProductDto>)
    ensures r == Normalize(raw)
  {
    if raw.variations.None? {
      return None;
    }
    var vs := raw.variations.value;
    var status := if raw.isDeleted == Some(true) then "deleted" else "active";
    var skuBase := Upper(ReplaceChar(raw.name, ' ', '-')) + "-" + IntToText(raw.id);
    var tagged, colorValues, materialValues := CollectAttributeValues(vs);
    if !tagged {
      return None;
    }
    colorValues := Dedup(colorValues);
    materialValues := Dedup(materialValues);
    var normalized := BuildVariations(skuBase, raw.price, status, vs);
    var doc := VariationsData([AttributeDef("color", colorValues), AttributeDef("material", materialValues)], normalized);
    r := Some(NewDto(ProductData(raw.id, raw.name, raw.price, skuBase, status, doc, Some(Some([])))));
  }

  /** The first loop: every variation's colour and material, in input
      order. Reading a missing key raises (`tagged` false) and ends the
      loop. */
  method CollectAttributeValues(vs: seq<RawVariation>) returns (tagged: bool, colorValues: seq<string>, materialValues: seq<string>)
    ensures tagged <==> AllTagged(vs)
    ensures tagged ==> colorValues == Colors(vs) && materialValues == Materials(vs)
  {
    colorValues, materialValues := [], [];
    var i := 0;
    while i < |vs|
      invariant 0 <= i <= |vs|
      invariant forall k :: 0 <= k < i ==> vs[k].color.Some? && vs[k].material.Some?
      invariant |colorValues| == |materialValues| == i
      invariant forall k :: 0 <= k < i ==> colorValues[k] == vs[k].color.value && materialValues[k] == vs[k].material.value
    {
      if vs[i].color.None? || vs[i].material.None? {
        return false, colorValues, materialValues;
      }
      colorValues := colorValues + [vs[i].color.value];
      materialValues := materialValues + [vs[i].material.value];
      i := i + 1;
    }
    tagged := true;
  }

  /** The second loop: one canonical variation per raw variation. */
  method BuildVariations(skuBase: string, price: real, status: string, vs: seq<RawVariation>) returns (normalized: seq<Variation>)
    requires AllTagged(vs)
    ensures normalized == NormalizeVariations(skuBase, price, status, vs)
  {
    normalized := [];
    var i := 0;
    while i < |vs|
      invariant 0 <= i <= |vs|
      invariant |normalized| == i
      invariant forall k :: 0 <= k < i ==> normalized[k] == NormalizeVariation(skuBase, price, status, vs[k])
    {
      var v := vs[i];
      var variationSku := skuBase + "-" + Upper(v.color.value) + "-" + Upper(v.material.value);
      var variation := Variation(variationSku, price + v.additionalPrice.GetOr(0.0), Some(!StringTruthy(status)),
                                 OptionsOf(v.color.value, v.material.value));
      assert variation == NormalizeVariation(skuBase, price, status, v);
      normalized := normalized + [variation];
      i := i + 1;
    }
  }

  // ------------------------------------------------------------ properties

  /** A record without variations, or with a variation missing its colour
      or its material, cannot be normalised; every other one can. */
  lemma NormalizeFails(raw: RawProduct)
    ensures Normalize(raw).None? <==>
      raw.variations.None?
      || exists i :: 0 <= i < |raw.variations.value| && (raw.variations.value[i].color.None? || raw.variations.value[i].material.None?)
  {
  }

  /** The status is "deleted" exactly when isDeleted is present and true,
      and "active" otherwise; id, name and price are copied. */
  lemma NormalizeStatus(raw: RawProduct)
    requires Normalizable(raw)
    ensures Normalize(raw).value.status == (if raw.isDeleted == Some(true) then "deleted" else "active")
    ensures Normalize(raw).value.id == raw.id
    ensures Normalize(raw).value.name == raw.name
    ensures Normalize(raw).value.price == raw.price
  {
  }

  /** The product SKU: the name with each space turned into '-', upper-cased,
      then '-' and the id in decimal; it has one character per character of
      the name before the id part and contains no lower-case ASCII letter. */
  lemma NormalizeSku(raw: RawProduct)
    requires Normalizable(raw)
    ensures var sku := Normalize(raw).value.sku;
      && |sku| == |raw.name| + 1 + |IntToText(raw.id)|
      && sku[|raw.name|] == '-'
      && sku[|raw.name| + 1..] == IntToText(raw.id)
      && forall i :: 0 <= i < |raw.name| ==>
           sku[i] == (if raw.name[i] == ' ' then '-' else UpperChar(raw.name[i]))
  {
    var sku := Normalize(raw).value.sku;
    var r := ReplaceChar(raw.name, ' ', '-');
    var u := Upper(r);
    ReplaceCharAt(raw.name, ' ', '-');
    UpperAt(r);
    assert sku == u + "-" + IntToText(raw.id);
    forall i | 0 <= i < |raw.name|
      ensures sku[i] == (if raw.name[i] == ' ' then '-' else UpperChar(raw.name[i]))
    {
      assert sku[i] == u[i];
    }
  }

  /** One canonical variation per raw variation, in input order, with the
      composed SKU, the base price plus the additional price (0 when absent),
      the two options, and active = false whatever the status. */
  lemma NormalizeVariationsSpec(raw: RawProduct)
    requires Normalizable(raw)
    ensures var vs := raw.variations.value;
      var out := Normalize(raw).value;
      && |out.variations.variations| == |vs|
      && forall i :: 0 <= i < |vs| ==>
        var w := out.variations.variations[i];
        && w.sku == out.sku + "-" + Upper(vs[i].color.value) + "-" + Upper(vs[i].material.value)
        && w.price == raw.price + (if vs[i].additionalPrice.Some? then vs[i].additionalPrice.value else 0.0)
        && w.active == Some(false)
        && w.options == [("color", vs[i].color.value), ("material", vs[i].material.value)]
  {
    var vs := raw.variations.value;
    var out := Normalize(raw).value;
    var status := Status(raw);
    assert out.sku == BaseSku(raw) && out.status == status;
    assert out.variations.variations == NormalizeVariations(BaseSku(raw), raw.price, status, vs);
    assert StringTruthy(status);
  }

  /** The de-duplicated colours: every colour seen, once, in first-seen order. */
  lemma ColorValues(vs: seq<RawVariation>)
    requires AllTagged(vs)
    ensures var d := Dedup(Colors(vs));
      && NoDup(d)
      && (forall c :: c in d <==> exists i :: 0 <= i < |vs| && vs[i].color == Some(c))
      && (forall i, j, k :: 0 <= i < j < |d| && 0 <= k < |vs| && vs[k].color == Some(d[j]) ==>
            exists k' :: 0 <= k' < k && vs[k'].color == Some(d[i]))
  {
    var d := Dedup(Colors(vs));
    forall c ensures c in Colors(vs) <==> exists i :: 0 <= i < |vs| && vs[i].color == Some(c) {
      ColorsHas(vs, c);
    }
    forall i, j, k | 0 <= i < j < |d| && 0 <= k < |vs| && vs[k].color == Some(d[j])
      ensures exists k' :: 0 <= k' < k && vs[k'].color == Some(d[i])
    {
      ColorsOrderAt(vs, i, j, k);
    }
  }

  lemma ColorsHas(vs: seq<RawVariation>, c: string)
    requires AllTagged(vs)
    ensures c in Colors(vs) <==> exists i :: 0 <= i < |vs| && vs[i].color == Some(c)
  {
    var colors := Colors(vs);
    if c in colors {
      var k :| 0 <= k < |vs| && colors[k] == c;
      assert vs[k].color == Some(c);
    }
    if exists i :: 0 <= i < |vs| && vs[i].color == Some(c) {
      var k :| 0 <= k < |vs| && vs[k].color == Some(c);
      assert colors[k] == c;
    }
  }

  lemma ColorsOrderAt(vs: seq<RawVariation>, i: int, j: int, k: int)
    requires AllTagged(vs)
    requires 0 <= i < j < |Dedup(Colors(vs))| && 0 <= k < |vs| && vs[k].color == Some(Dedup(Colors(vs))[j])
    ensures exists k' :: 0 <= k' < k && vs[k'].color == Some(Dedup(Colors(vs))[i])
  {
    var colors := Colors(vs);
    var d := Dedup(colors);
    assert colors[k] == d[j];
    DedupOrderAt(colors, i, j, k);
    var k' :| 0 <= k' < k && colors[..k][k'] == d[i];
    assert vs[k'].color == Some(d[i]);
  }


  /** The de-duplicated materials: every material seen, once, in first-seen order. */
  lemma MaterialValues(vs: seq<RawVariation>)
    requires AllTagged(vs)
    ensures var d := Dedup(Materials(vs));
      && NoDup(d)
      && (forall m :: m in d <==> exists i :: 0 <= i < |vs| && vs[i].material == Some(m))
      && (forall i, j, k :: 0 <= i < j < |d| && 0 <= k < |vs| && vs[k].material == Some(d[j]) ==>
            exists k' :: 0 <= k' < k && vs[k'].material == Some(d[i]))
  {
    var d := Dedup(Materials(vs));
    forall m ensures m in Materials(vs) <==> exists i :: 0 <= i < |vs| && vs[i].material == Some(m) {
      MaterialsHas(vs, m);
    }
    forall i, j, k | 0 <= i < j < |d| && 0 <= k < |vs| && vs[k].material == Some(d[j])
      ensures exists k' :: 0 <= k' < k && vs[k'].material == Some(d[i])
    {
      MaterialsOrderAt(vs, i, j, k);
    }
  }

  lemma MaterialsHas(vs: seq<RawVariation>, m: string)
    requires AllTagged(vs)
    ensures m in Materials(vs) <==> exists i :: 0 <= i < |vs| && vs[i].material == Some(m)
  {
    var materials := Materials(vs);
    if m in materials {
      var k :| 0 <= k < |vs| && materials[k] == m;
      assert vs[k].material == Some(m);
    }
    if exists i :: 0 <= i < |vs| && vs[i].material == Some(m) {
      var k :| 0 <= k < |vs| && vs[k].material == Some(m);
      assert materials[k] == m;
    }
  }

  lemma MaterialsOrderAt(vs: seq<RawVariation>, i: int, j: int, k: int)
    requires AllTagged(vs)
    requires 0 <= i < j < |Dedup(Materials(vs))| && 0 <= k < |vs| && vs[k].material == Some(Dedup(Materials(vs))[j])
    ensures exists k' :: 0 <= k' < k && vs[k'].material == Some(Dedup(Materials(vs))[i])
  {
    var materials := Materials(vs);
    var d := Dedup(materials);
    assert materials[k] == d[j];
    DedupOrderAt(materials, i, j, k);
    var k' :| 0 <= k' < k && materials[..k][k'] == d[i];
    assert vs[k'].material == Some(d[i]);
  }


  /** The attribute list is exactly [color, material], carrying the
      de-duplicated colours and materials (see ColorValues and
      MaterialValues); the warehouses payload is always {warehouses: []},
      whatever the input. */
  lemma NormalizeAttributes(raw: RawProduct)
    requires Normalizable(raw)
    ensures var vs := raw.variations.value;
      var out := Normalize(raw).value;
      && out.variations.attributes == [AttributeDef("color", Dedup(Colors(vs))), AttributeDef("material", Dedup(Materials(vs)))]
      && out.warehouses == Some([])
  {
  }
}
