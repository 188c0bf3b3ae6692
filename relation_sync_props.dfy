/** What syncProductRelations leaves behind, phase by phase and as a whole. */
module RelationSyncProps {
  import opened Common
  import opened Dto
  import opened Tables
  import opened RelationSync

  // -------------------------------------------------- phase 1: attributes

  /** One firstOrCreate per value: existing rows stay as they are, every
      (attribute, value) pair is present afterwards, the only new rows are
      such pairs, and no duplicate pair appears. */
  lemma {:induction false} RegisterValuesSpec(t: Table<AttributeValueRow>, aid: nat, values: seq<string>)
    requires t.Valid()
    ensures var r := RegisterValues(t, aid, values);
      && (forall id :: id in t.rows ==> id in r.rows && r.rows[id] == t.rows[id])
      && (forall v :: v in values ==> AttributeValueRow(aid, v) in r.rows.Values)
      && (forall id :: id in r.rows && id !in t.rows ==> r.rows[id].attributeId == aid && r.rows[id].value in values)
      && (Unique(t) ==> Unique(r))
    decreases |values|
  {
    if values != [] {
      var (t1, id0) := FirstOrCreate(t, AttributeValueRow(aid, values[0]));
      RegisterValuesSpec(t1, aid, values[1..]);
      var r := RegisterValues(t, aid, values);
      assert r == RegisterValues(t1, aid, values[1..]);
      assert t1.rows[id0] == AttributeValueRow(aid, values[0]);
      assert AttributeValueRow(aid, values[0]) in r.rows.Values by {
        assert id0 in r.rows && r.rows[id0] == t1.rows[id0];
      }
      forall v | v in values ensures AttributeValueRow(aid, v) in r.rows.Values {
        if v != values[0] {
          assert v in values[1..];
        }
      }
    }
  }

  /** `attrIds` sends every name to an attribute row of that name. */
  predicate NamesResolved(t: Table<string>, attrIds: map<string, nat>) {
    forall n :: n in attrIds ==> attrIds[n] in t.rows && t.rows[attrIds[n]] == n
  }

  /** Phase 1 keeps every existing attribute and attribute value as it is. */
  lemma {:induction false} RegisterAttributesKeeps(db: Db, attrs: seq<AttributeDef>, attrIds: map<string, nat>)
    requires db.Valid()
    ensures var r := RegisterAttributes(db, attrs, attrIds);
      && (forall id :: id in db.attributes.rows ==> id in r.0.attributes.rows && r.0.attributes.rows[id] == db.attributes.rows[id])
      && (forall id :: id in db.attributeValues.rows ==>
            id in r.0.attributeValues.rows && r.0.attributeValues.rows[id] == db.attributeValues.rows[id])
    decreases |attrs|
  {
    if attrs != [] {
      var (at, aid) := FirstOrCreate(db.attributes, attrs[0].name);
      var db1 := db.(attributes := at, attributeValues := RegisterValues(db.attributeValues, aid, attrs[0].values));
      RegisterValuesSpec(db.attributeValues, aid, attrs[0].values);
      RegisterAttributesKeeps(db1, attrs[1..], attrIds[attrs[0].name := aid]);
    }
  }

  /** Phase 1 keeps both tables free of duplicates and leaves `attrIds`
      resolving every attribute name of the document to its row. */
  lemma {:induction false} RegisterAttributesResolves(db: Db, attrs: seq<AttributeDef>, attrIds: map<string, nat>)
    requires db.Valid() && NamesResolved(db.attributes, attrIds)
    ensures var r := RegisterAttributes(db, attrs, attrIds);
      && NamesResolved(r.0.attributes, r.1)
      && (Unique(db.attributes) ==> Unique(r.0.attributes))
      && (Unique(db.attributeValues) ==> Unique(r.0.attributeValues))
    decreases |attrs|
  {
    if attrs != [] {
      var (at, aid) := FirstOrCreate(db.attributes, attrs[0].name);
      var db1 := db.(attributes := at, attributeValues := RegisterValues(db.attributeValues, aid, attrs[0].values));
      RegisterValuesSpec(db.attributeValues, aid, attrs[0].values);
      var ids1 := attrIds[attrs[0].name := aid];
      assert NamesResolved(at, ids1) by {
        forall n | n in ids1 ensures ids1[n] in at.rows && at.rows[ids1[n]] == n {
          if n != attrs[0].name {
            assert attrIds[n] in db.attributes.rows;
          }
        }
      }
      RegisterAttributesResolves(db1, attrs[1..], ids1);
    }
  }

  /** Phase 1 creates no attribute beyond the names the document lists. */
  lemma {:induction false} RegisterAttributesOnlyListed(db: Db, attrs: seq<AttributeDef>, attrIds: map<string, nat>)
    requires db.Valid() && NamesResolved(db.attributes, attrIds)
    ensures var r := RegisterAttributes(db, attrs, attrIds);
      forall id :: id in r.0.attributes.rows && id !in db.attributes.rows ==>
        exists a :: a in attrs && a.name == r.0.attributes.rows[id]
    decreases |attrs|
  {
    if attrs != [] {
      var (at, aid) := FirstOrCreate(db.attributes, attrs[0].name);
      var db1 := db.(attributes := at, attributeValues := RegisterValues(db.attributeValues, aid, attrs[0].values));
      RegisterAttributesKeeps(db1, attrs[1..], attrIds[attrs[0].name := aid]);
      RegisterAttributesOnlyListed(db1, attrs[1..], attrIds[attrs[0].name := aid]);
      var r := RegisterAttributes(db, attrs, attrIds);
      forall id | id in r.0.attributes.rows && id !in db.attributes.rows
        ensures exists a :: a in attrs && a.name == r.0.attributes.rows[id]
      {
        if id !in at.rows {
          var a :| a in attrs[1..] && a.name == r.0.attributes.rows[id];
          assert a in attrs;
        } else {
          assert attrs[0] in attrs;
        }
      }
    }
  }

  /** After phase 1, every (name, value) pair of the document has its
      attribute value row, under the attribute id `attrIds` gives the name. */
  lemma {:induction false} RegisterAttributesCovers(db: Db, attrs: seq<AttributeDef>, attrIds: map<string, nat>)
    requires db.Valid() && NamesResolved(db.attributes, attrIds) && Unique(db.attributes)
    ensures var r := RegisterAttributes(db, attrs, attrIds);
      forall a, v :: a in attrs && v in a.values ==> AttributeValueRow(r.1[a.name], v) in r.0.attributeValues.rows.Values
    decreases |attrs|
  {
    if attrs != [] {
      var (at, aid) := FirstOrCreate(db.attributes, attrs[0].name);
      var vt := RegisterValues(db.attributeValues, aid, attrs[0].values);
      var db1 := db.(attributes := at, attributeValues := vt);
      RegisterValuesSpec(db.attributeValues, aid, attrs[0].values);
      RegisterAttributesCovers(db1, attrs[1..], attrIds[attrs[0].name := aid]);
      RegisterAttributesKeeps(db1, attrs[1..], attrIds[attrs[0].name := aid]);
      RegisterAttributesResolves(db1, attrs[1..], attrIds[attrs[0].name := aid]);
      var r := RegisterAttributes(db, attrs, attrIds);
      forall a, v | a in attrs && v in a.values
        ensures AttributeValueRow(r.1[a.name], v) in r.0.attributeValues.rows.Values
      {
        if a !in attrs[1..] {
          assert a == attrs[0];
          assert r.1[a.name] == aid;
          var id :| id in vt.rows && vt.rows[id] == AttributeValueRow(aid, v);
          assert r.0.attributeValues.rows[id] == vt.rows[id];
        }
      }
    }
  }

  // ----------------------------------------------------- phase 2: options

  /** `optIds` sends every "name:value" key to an option row of product `p`
      with that value, under the attribute `attrIds` gives the name. */
  predicate OptionsResolved(t: Table<OptionRow>, p: int, attrIds: map<string, nat>, optIds: map<(string, string), nat>) {
    forall k :: k in optIds ==>
      k.0 in attrIds && optIds[k] in t.rows && t.rows[optIds[k]] == OptionRow(p, attrIds[k.0], k.1)
  }

  /** The inner options loop keeps every existing option and creates only
      options of `p` for this attribute and its values. */
  lemma {:induction false} RegisterOptionValuesKeeps(t: Table<OptionRow>, p: int, name: string, aid: nat,
                                                     values: seq<string>, optIds: map<(string, string), nat>)
    requires t.Valid()
    ensures var r := RegisterOptionValues(t, p, name, aid, values, optIds);
      && (forall id :: id in t.rows ==> id in r.0.rows && r.0.rows[id] == t.rows[id])
      && (forall id :: id in r.0.rows && id !in t.rows ==>
            r.0.rows[id].productId == p && r.0.rows[id].attributeId == aid && r.0.rows[id].value in values)
    decreases |values|
  {
    if values != [] {
      var (t1, oid) := FirstOrCreate(t, OptionRow(p, aid, values[0]));
      RegisterOptionValuesKeeps(t1, p, name, aid, values[1..], optIds[(name, values[0]) := oid]);
    }
  }

  /** The inner options loop registers one key per value of the attribute,
      each resolving to its option row, and keeps the table free of
      duplicates. */
  lemma {:induction false} RegisterOptionValuesResolves(t: Table<OptionRow>, p: int, name: string, aid: nat,
                                                        values: seq<string>, optIds: map<(string, string), nat>,
                                                        attrIds: map<string, nat>)
    requires t.Valid() && name in attrIds && attrIds[name] == aid && OptionsResolved(t, p, attrIds, optIds)
    ensures var r := RegisterOptionValues(t, p, name, aid, values, optIds);
      && (forall k :: k in r.1 <==> k in optIds || (k.0 == name && k.1 in values))
      && OptionsResolved(r.0, p, attrIds, r.1)
      && (Unique(t) ==> Unique(r.0))
    decreases |values|
  {
    if values != [] {
      var (t1, oid) := FirstOrCreate(t, OptionRow(p, aid, values[0]));
      var o1 := optIds[(name, values[0]) := oid];
      assert OptionsResolved(t1, p, attrIds, o1) by {
        forall k | k in o1 ensures k.0 in attrIds && o1[k] in t1.rows && t1.rows[o1[k]] == OptionRow(p, attrIds[k.0], k.1) {
          if k != (name, values[0]) {
            assert optIds[k] in t.rows;
          }
        }
      }
      RegisterOptionValuesResolves(t1, p, name, aid, values[1..], o1, attrIds);
      var r := RegisterOptionValues(t, p, name, aid, values, optIds);
      forall k ensures k in r.1 <==> k in optIds || (k.0 == name && k.1 in values) {
        if k.0 == name && k.1 in values && k.1 != values[0] {
          assert k.1 in values[1..];
        }
      }
    }
  }

  /** Phase 2 keeps every existing option and creates only options of `p`,
      each for a value the document lists under that attribute. */
  lemma {:induction false} RegisterOptionsKeeps(t: Table<OptionRow>, p: int, attrs: seq<AttributeDef>,
                                                attrIds: map<string, nat>, optIds: map<(string, string), nat>)
    requires t.Valid() && forall a :: a in attrs ==> a.name in attrIds
    ensures var r := RegisterOptions(t, p, attrs, attrIds, optIds);
      && (forall id :: id in t.rows ==> id in r.0.rows && r.0.rows[id] == t.rows[id])
      && (forall id :: id in r.0.rows && id !in t.rows ==>
            r.0.rows[id].productId == p
            && exists a :: a in attrs && attrIds[a.name] == r.0.rows[id].attributeId && r.0.rows[id].value in a.values)
    decreases |attrs|
  {
    if attrs != [] {
      var a0 := attrs[0];
      var (t1, o1) := RegisterOptionValues(t, p, a0.name, attrIds[a0.name], a0.values, optIds);
      RegisterOptionValuesKeeps(t, p, a0.name, attrIds[a0.name], a0.values, optIds);
      RegisterOptionsKeeps(t1, p, attrs[1..], attrIds, o1);
      var r := RegisterOptions(t, p, attrs, attrIds, optIds);
      forall id | id in r.0.rows && id !in t.rows
        ensures exists a :: a in attrs && attrIds[a.name] == r.0.rows[id].attributeId && r.0.rows[id].value in a.values
      {
        if id in t1.rows {
          assert a0 in attrs;
        } else {
          var a :| a in attrs[1..] && attrIds[a.name] == r.0.rows[id].attributeId && r.0.rows[id].value in a.values;
          assert a in attrs;
        }
      }
    }
  }

  /** Phase 2 registers one key per (attribute name, value) of the
      document, each resolving to its option row, and keeps the table free
      of duplicates. */
  lemma {:induction false} RegisterOptionsResolves(t: Table<OptionRow>, p: int, attrs: seq<AttributeDef>,
                                                   attrIds: map<string, nat>, optIds: map<(string, string), nat>)
    requires t.Valid() && (forall a :: a in attrs ==> a.name in attrIds) && OptionsResolved(t, p, attrIds, optIds)
    ensures var r := RegisterOptions(t, p, attrs, attrIds, optIds);
      && (forall k :: k in r.1 <==> k in optIds || exists a :: a in attrs && a.name == k.0 && k.1 in a.values)
      && OptionsResolved(r.0, p, attrIds, r.1)
      && (Unique(t) ==> Unique(r.0))
    decreases |attrs|
  {
    if attrs != [] {
      var a0 := attrs[0];
      var (t1, o1) := RegisterOptionValues(t, p, a0.name, attrIds[a0.name], a0.values, optIds);
      RegisterOptionValuesResolves(t, p, a0.name, attrIds[a0.name], a0.values, optIds, attrIds);
      RegisterOptionsResolves(t1, p, attrs[1..], attrIds, o1);
      var r := RegisterOptions(t, p, attrs, attrIds, optIds);
      forall k ensures k in r.1 <==> k in optIds || exists a :: a in attrs && a.name == k.0 && k.1 in a.values {
        if exists a :: a in attrs && a.name == k.0 && k.1 in a.values {
          var a :| a in attrs && a.name == k.0 && k.1 in a.values;
          if a != a0 {
            assert a in attrs[1..];
          }
        }
        if exists a :: a in attrs[1..] && a.name == k.0 && k.1 in a.values {
          var a :| a in attrs[1..] && a.name == k.0 && k.1 in a.values;
          assert a in attrs;
        }
      }
    }
  }

  // ------------------------------------------- phase 3: variations, links

  /** The links one variation receives, in the order they are created: one
      per option entry whose "name:value" key was registered in phase 2. */
  function LinkPlan(vid: nat, entries: seq<(string, string)>, optIds: map<(string, string), nat>): (ls: seq<LinkRow>)
    ensures forall l :: l in ls ==> l.variationId == vid
    decreases |entries|
  {
    if entries == [] then []
    else (if entries[0] in optIds then [LinkRow(optIds[entries[0]], vid)] else []) + LinkPlan(vid, entries[1..], optIds)
  }

  /** A link is planned exactly for a registered entry of the variation. */
  lemma {:induction false} LinkPlanMembers(vid: nat, entries: seq<(string, string)>, optIds: map<(string, string), nat>)
    ensures forall oid :: LinkRow(oid, vid) in LinkPlan(vid, entries, optIds) <==>
      exists e :: e in entries && e in optIds && optIds[e] == oid
    decreases |entries|
  {
    if entries != [] {
      LinkPlanMembers(vid, entries[1..], optIds);
      forall oid ensures LinkRow(oid, vid) in LinkPlan(vid, entries, optIds) <==>
        exists e :: e in entries && e in optIds && optIds[e] == oid
      {
        if exists e :: e in entries && e in optIds && optIds[e] == oid {
          var e :| e in entries && e in optIds && optIds[e] == oid;
          if e != entries[0] {
            assert e in entries[1..];
          }
        }
      }
    }
  }

  lemma {:induction false} LinkOptionsIsAppend(t: Table<LinkRow>, vid: nat, entries: seq<(string, string)>,
                                               optIds: map<(string, string), nat>)
    requires t.Valid()
    ensures LinkOptions(t, vid, entries, optIds) == AppendRows(t, LinkPlan(vid, entries, optIds))
    decreases |entries|
  {
    if entries != [] {
      var t1 := if entries[0] in optIds then Insert(t, LinkRow(optIds[entries[0]], vid)).0 else t;
      LinkOptionsIsAppend(t1, vid, entries[1..], optIds);
      var head := if entries[0] in optIds then [LinkRow(optIds[entries[0]], vid)] else [];
      AppendRowsConcat(t, head, LinkPlan(vid, entries[1..], optIds));
      assert AppendRows(t, head) == t1;
    }
  }

  /** The variation rows phase 3 creates, in order. */
  function VariationPlan(p: int, vs: seq<Variation>): (rows: seq<VariationRow>)
    ensures |rows| == |vs|
    ensures forall i :: 0 <= i < |vs| ==> rows[i] == VariationRow(p, vs[i].sku, vs[i].price, vs[i].active.GetOr(true))
    decreases |vs|
  {
    if vs == [] then [] else [VariationRowOf(p, vs[0])] + VariationPlan(p, vs[1..])
  }

  /** The links phase 3 creates, in order: the plan of the variation with id
      `base`, then of `base + 1`, and so on. */
  function LinksPlan(base: nat, vs: seq<Variation>, optIds: map<(string, string), nat>): seq<LinkRow>
    decreases |vs|
  {
    if vs == [] then [] else LinkPlan(base, vs[0].options, optIds) + LinksPlan(base + 1, vs[1..], optIds)
  }

  /** The sku => id map when the variations get the ids base, base + 1, ... */
  function SkuMap(base: nat, vs: seq<Variation>, varIds: map<string, nat>): map<string, nat>
    decreases |vs|
  {
    if vs == [] then varIds else SkuMap(base + 1, vs[1..], varIds[vs[0].sku := base])
  }

  /** Phase 3 appends exactly the planned variation rows. */
  lemma {:induction false} CreateVariationsRows(db: Db, p: int, vs: seq<Variation>,
                                                optIds: map<(string, string), nat>, varIds: map<string, nat>)
    requires db.Valid()
    ensures CreateVariations(db, p, vs, optIds, varIds).0.variations == AppendRows(db.variations, VariationPlan(p, vs))
    decreases |vs|
  {
    if vs != [] {
      var (vt, vid) := Insert(db.variations, VariationRowOf(p, vs[0]));
      var db1 := db.(variations := vt, links := LinkOptions(db.links, vid, vs[0].options, optIds));
      CreateVariationsRows(db1, p, vs[1..], optIds, varIds[vs[0].sku := vid]);
      AppendRowsConcat(db.variations, [VariationRowOf(p, vs[0])], VariationPlan(p, vs[1..]));
    }
  }

  /** Phase 3 appends exactly the planned link rows. */
  lemma {:induction false} CreateVariationsLinks(db: Db, p: int, vs: seq<Variation>,
                                                 optIds: map<(string, string), nat>, varIds: map<string, nat>)
    requires db.Valid()
    ensures CreateVariations(db, p, vs, optIds, varIds).0.links == AppendRows(db.links, LinksPlan(db.variations.next, vs, optIds))
    decreases |vs|
  {
    if vs != [] {
      var (vt, vid) := Insert(db.variations, VariationRowOf(p, vs[0]));
      var db1 := db.(variations := vt, links := LinkOptions(db.links, vid, vs[0].options, optIds));
      CreateVariationsLinks(db1, p, vs[1..], optIds, varIds[vs[0].sku := vid]);
      LinkOptionsIsAppend(db.links, vid, vs[0].options, optIds);
      AppendRowsConcat(db.links, LinkPlan(vid, vs[0].options, optIds), LinksPlan(vid + 1, vs[1..], optIds));
    }
  }

  /** Phase 3's sku => id map: the variations get the ids next, next + 1, ... */
  lemma {:induction false} CreateVariationsIds(db: Db, p: int, vs: seq<Variation>,
                                               optIds: map<(string, string), nat>, varIds: map<string, nat>)
    requires db.Valid()
    ensures CreateVariations(db, p, vs, optIds, varIds).1 == SkuMap(db.variations.next, vs, varIds)
    decreases |vs|
  {
    if vs != [] {
      var (vt, vid) := Insert(db.variations, VariationRowOf(p, vs[0]));
      var db1 := db.(variations := vt, links := LinkOptions(db.links, vid, vs[0].options, optIds));
      CreateVariationsIds(db1, p, vs[1..], optIds, varIds[vs[0].sku := vid]);
    }
  }

  /** The index of the last variation carrying the sku `s`, if any. */
  function LastWithSku(vs: seq<Variation>, s: string): (r: Option<nat>)
    ensures r.Some? ==> r.value < |vs| && vs[r.value].sku == s && forall j :: r.value < j < |vs| ==> vs[j].sku != s
    ensures r.None? ==> forall j :: 0 <= j < |vs| ==> vs[j].sku != s
    decreases |vs|
  {
    if vs == [] then None
    else
      match LastWithSku(vs[1..], s)
      case Some(k) => Some(k + 1)
      case None => if vs[0].sku == s then Some(0) else None
  }

  /** A repeated sku keeps the id of its last variation: the map sends a
      sku to base + k for the last index k carrying it. */
  lemma {:induction false} SkuMapLastWins(base: nat, vs: seq<Variation>, varIds: map<string, nat>)
    ensures forall s :: s in SkuMap(base, vs, varIds) <==> s in varIds || LastWithSku(vs, s).Some?
    ensures forall s :: s in SkuMap(base, vs, varIds) ==>
      SkuMap(base, vs, varIds)[s] == match LastWithSku(vs, s) case Some(k) => base + k case None => varIds[s]
    decreases |vs|
  {
    if vs != [] {
      SkuMapLastWins(base + 1, vs[1..], varIds[vs[0].sku := base]);
    }
  }
}
