/** The generate:variation-seeders command: it reads the variations of every
    stored product, collects the attribute names with their values and the
    attribute names each product uses, and writes them into seeder files as
    single-quoted PHP literals. */
module Seeders {
  import opened Common

  // ------------------------------------------------------------ PHP text

  /** The characters PHP's trim() strips by default: space, tab, newline,
      carriage return, NUL and vertical tab. */
  predicate IsBlank(c: char) {
    c == ' ' || c == '\t' || c == '\n' || c == '\r' || c == 0 as char || c == 11 as char
  }

  /** The number of blanks at the front of `s`. */
  function LeadingBlanks(s: string): (n: nat)
    ensures n <= |s|
    ensures forall k :: 0 <= k < n ==> IsBlank(s[k])
    ensures n < |s| ==> !IsBlank(s[n])
    decreases |s|
  {
    if s != [] && IsBlank(s[0]) then 1 + LeadingBlanks(s[1..]) else 0
  }

  /** The number of blanks at the back of `s`. */
  function TrailingBlanks(s: string): (n: nat)
    ensures n <= |s|
    ensures forall k :: |s| - n <= k < |s| ==> IsBlank(s[k])
    ensures n < |s| ==> !IsBlank(s[|s| - 1 - n])
    decreases |s|
  {
    if s != [] && IsBlank(s[|s| - 1]) then 1 + TrailingBlanks(s[..|s| - 1]) else 0
  }

  /** PHP's trim(): the blanks at both ends removed. */
  function Trim(s: string): string {
    var t := s[LeadingBlanks(s)..];
    t[..|t| - TrailingBlanks(t)]
  }

  /** Trim keeps the middle of `s`, drops only blanks, and leaves no blank
      at either end; it yields "" exactly for an all-blank string. */
  lemma TrimSpec(s: string)
    ensures var r := Trim(s); var i := LeadingBlanks(s);
      && i + |r| <= |s| && r == s[i..i + |r|]
      && (forall k :: 0 <= k < i || i + |r| <= k < |s| ==> IsBlank(s[k]))
      && (r != [] ==> !IsBlank(r[0]) && !IsBlank(r[|r| - 1]))
    ensures Trim(s) == [] <==> forall k :: 0 <= k < |s| ==> IsBlank(s[k])
  {
    var i := LeadingBlanks(s);
    var t := s[i..];
    var n := TrailingBlanks(t);
    var r := t[..|t| - n];
    assert Trim(s) == r;
    assert r == s[i..i + |r|];
    assert forall k :: i + |r| <= k < |s| ==> IsBlank(s[k]) by {
      forall k | i + |r| <= k < |s| ensures IsBlank(s[k]) {
        assert s[k] == t[k - i];
      }
    }
    if r != [] {
      assert r[0] == s[i] && r[|r| - 1] == t[|t| - 1 - n];
    } else {
      assert i == |s|;
    }
  }

  /** Trimming twice is trimming once. */
  lemma TrimIdempotent(s: string)
    ensures Trim(Trim(s)) == Trim(s)
  {
    var r := Trim(s);
    TrimSpec(s);
    if r != [] {
      assert LeadingBlanks(r) == 0;
      assert TrailingBlanks(r) == 0;
      assert r[0..] == r && r[..|r|] == r;
    }
  }

  /** PHP's explode() with a one-character separator: the pieces between
      the separators, left to right; always at least one piece. */
  function Split(s: string, sep: char): (parts: seq<string>)
    ensures |parts| >= 1
    ensures forall k :: 0 <= k < |parts| ==> sep !in parts[k]
    decreases |s|
  {
    if s == [] then [[]]
    else
      var rest := Split(s[1..], sep);
      if s[0] == sep then [[]] + rest
      else [[s[0]] + rest[0]] + rest[1..]
  }

  /** PHP's implode() with a one-character glue. */
  function Join(parts: seq<string>, sep: char): string
    requires |parts| >= 1
    decreases |parts|
  {
    if |parts| == 1 then parts[0] else parts[0] + [sep] + Join(parts[1..], sep)
  }

  /** Gluing the pieces back together gives the original text. */
  lemma {:induction false} JoinSplit(s: string, sep: char)
    ensures Join(Split(s, sep), sep) == s
    decreases |s|
  {
    if s != [] {
      var rest := Split(s[1..], sep);
      JoinSplit(s[1..], sep);
      if s[0] == sep {
        assert ([[]] + rest)[1..] == rest;
      } else {
        var parts := [[s[0]] + rest[0]] + rest[1..];
        if |rest| == 1 {
          assert Join(parts, sep) == [s[0]] + rest[0];
        } else {
          assert parts[1..] == rest[1..];
          assert Join(rest, sep) == rest[0] + [sep] + Join(rest[1..], sep);
        }
      }
    }
  }

  /** Splitting a word free of the separator, followed by more text, puts
      the word in front of the first piece. */
  lemma {:induction false} SplitPrefix(w: string, t: string, sep: char)
    requires sep !in w
    ensures Split(w + t, sep) == [w + Split(t, sep)[0]] + Split(t, sep)[1..]
    decreases |w|
  {
    if w != [] {
      assert (w + t)[0] == w[0] && (w + t)[1..] == w[1..] + t;
      SplitPrefix(w[1..], t, sep);
      assert [w[0]] + (w[1..] + Split(t, sep)[0]) == w + Split(t, sep)[0];
    } else {
      var parts := Split(t, sep);
      assert w + t == t;
      assert [] + parts[0] == parts[0];
      assert parts == [parts[0]] + parts[1..];
    }
  }

  /** Pieces free of the separator are what splitting their join gives back. */
  lemma {:induction false} SplitJoin(parts: seq<string>, sep: char)
    requires |parts| >= 1 && forall k :: 0 <= k < |parts| ==> sep !in parts[k]
    ensures Split(Join(parts, sep), sep) == parts
    decreases |parts|
  {
    if |parts| == 1 {
      SplitPrefix(parts[0], [], sep);
      assert parts[0] + [] == parts[0];
    } else {
      var rest := Join(parts[1..], sep);
      SplitJoin(parts[1..], sep);
      assert ([sep] + rest)[1..] == rest;
      SplitPrefix(parts[0], [sep] + rest, sep);
      assert parts[0] + [sep] + rest == parts[0] + ([sep] + rest);
      assert Split([sep] + rest, sep) == [[]] + parts[1..];
      assert parts[0] + [] == parts[0];
      assert parts == [parts[0]] + parts[1..];
    }
  }

  /** PHP's str_replace with a one-character needle. */
  function Replace(s: string, needle: char, with: string): string
    decreases |s|
  {
    if s == [] then []
    else (if s[0] == needle then with else [s[0]]) + Replace(s[1..], needle, with)
  }

  /** escapeStringForSeeder: every single quote preceded by a backslash. */
  function EscapeForSeeder(s: string): string {
    Replace(s, '\'', "\\'")
  }

  /** The attribute names of one product as line 160 writes them: each
      between single quotes, with str_replace inlined. */
  function QuotedNames(names: seq<string>): (r: seq<string>)
    ensures |r| == |names|
    ensures forall k :: 0 <= k < |names| ==> r[k] == "'" + EscapeForSeeder(names[k]) + "'"
  {
    seq(|names|, k requires 0 <= k < |names| => "'" + Replace(names[k], '\'', "\\'") + "'")
  }

  /** How PHP reads the body of a single-quoted literal: `\\` stands for a
      backslash, `\'` for a quote, any other backslash is kept, and the
      first bare quote closes the literal. The result is the value and the
      text after the closing quote; None when the literal never closes. */
  function ReadQuoted(t: string): Option<(string, string)>
    decreases |t|
  {
    if t == [] then None
    else if t[0] == '\'' then Some(([], t[1..]))
    else if t[0] == '\\' && |t| >= 2 && (t[1] == '\\' || t[1] == '\'') then
      var r := ReadQuoted(t[2..]);
      if r.None? then None else Some(([t[1]] + r.value.0, r.value.1))
    else
      var r := ReadQuoted(t[1..]);
      if r.None? then None else Some(([t[0]] + r.value.0, r.value.1))
  }

  /** Reading a backslash followed by `c`, and then the rest of the literal. */
  lemma ReadEscaped(c: char, tail: string)
    requires c == '\\' || c == '\''
    ensures ReadQuoted(['\\', c] + tail) ==
      if ReadQuoted(tail).None? then None else Some(([c] + ReadQuoted(tail).value.0, ReadQuoted(tail).value.1))
  {
    assert (['\\', c] + tail)[2..] == tail;
  }

  /** Reading a plain character and then the rest of the literal. */
  lemma ReadPlain(c: char, tail: string)
    requires c != '\\' && c != '\''
    ensures ReadQuoted([c] + tail) ==
      if ReadQuoted(tail).None? then None else Some(([c] + ReadQuoted(tail).value.0, ReadQuoted(tail).value.1))
  {
    assert ([c] + tail)[1..] == tail;
  }

  /** For text without backslashes the escape works: the literal reads back
      as the text, and whatever follows the closing quote is left alone. */
  lemma {:induction false} EscapeForSeederReadsBack(s: string, rest: string)
    requires '\\' !in s
    ensures ReadQuoted(EscapeForSeeder(s) + "'" + rest) == Some((s, rest))
    decreases |s|
  {
    if s == [] {
      assert EscapeForSeeder(s) + "'" + rest == "'" + rest;
    } else {
      var tail := EscapeForSeeder(s[1..]) + "'" + rest;
      EscapeForSeederReadsBack(s[1..], rest);
      if s[0] == '\'' {
        assert EscapeForSeeder(s) + "'" + rest == ['\\', s[0]] + tail;
        ReadEscaped(s[0], tail);
      } else {
        assert EscapeForSeeder(s) + "'" + rest == [s[0]] + tail;
        ReadPlain(s[0], tail);
      }
      assert [s[0]] + s[1..] == s;
    }
  }

  /** A backslash is not escaped: a name made of one backslash is written
      as a literal whose closing quote is taken for an escaped quote, so
      the literal does not read back as the name, whatever follows it. */
  lemma EscapeForSeederBackslash(rest: string)
    ensures ReadQuoted(EscapeForSeeder("\\") + "'" + rest) != Some(("\\", rest))
  {
    var t := EscapeForSeeder("\\") + "'" + rest;
    assert EscapeForSeeder("\\") == "\\";
    assert t == "\\'" + rest;
    assert t[2..] == rest;
    var r := ReadQuoted(rest);
    if r.Some? {
      assert ReadQuoted(t) == Some(("'" + r.value.0, r.value.1));
    }
  }

  /** The escape a single-quoted literal needs: backslashes and quotes
      both preceded by a backslash. */
  function EscapeLiteral(s: string): string
    decreases |s|
  {
    if s == [] then []
    else (if s[0] == '\\' || s[0] == '\'' then ['\\', s[0]] else [s[0]]) + EscapeLiteral(s[1..])
  }

  /** Every text reads back from its escaped literal. */
  lemma {:induction false} EscapeLiteralReadsBack(s: string, rest: string)
    ensures ReadQuoted(EscapeLiteral(s) + "'" + rest) == Some((s, rest))
    decreases |s|
  {
    if s == [] {
      assert EscapeLiteral(s) + "'" + rest == "'" + rest;
    } else {
      var escaped := s[0] == '\\' || s[0] == '\'';
      var head := if escaped then ['\\', s[0]] else [s[0]];
      var tail := EscapeLiteral(s[1..]) + "'" + rest;
      EscapeLiteralReadsBack(s[1..], rest);
      assert EscapeLiteral(s) + "'" + rest == head + tail by {
        assert EscapeLiteral(s) == head + EscapeLiteral(s[1..]);
      }
      if escaped {
        ReadEscaped(s[0], tail);
      } else {
        ReadPlain(s[0], tail);
      }
      assert [s[0]] + s[1..] == s;
    }
  }

  /** On text without backslashes both escapes write the same literal. */
  lemma {:induction false} EscapesAgreeWithoutBackslash(s: string)
    requires '\\' !in s
    ensures EscapeLiteral(s) == EscapeForSeeder(s)
    decreases |s|
  {
    if s != [] {
      EscapesAgreeWithoutBackslash(s[1..]);
    }
  }

  // ----------------------------------------------------------- the input

  /** One entry of a product's decoded variations: its "name" and "value"
      keys, None when the key is missing or null. */
  datatype Entry = Entry(name: Option<string>, value: Option<string>)

  /** A product with its variations read; `variations` is None when they
      are not an array, which the is_array test skips. */
  datatype SeederProduct = SeederProduct(id: int, variations: Option<seq<Entry>>)

  /** A row of the command's query: a product whose variations column is
      not null, with the text stored in it. */
  datatype StoredProduct = StoredProduct(id: int, variations: string)

  /** An accepted entry: the product, the trimmed attribute name and the
      trimmed comma-separated values. */
  datatype Mention = Mention(id: int, name: string, values: seq<string>)

  function TrimEach(parts: seq<string>): (r: seq<string>)
    ensures |r| == |parts| && forall k :: 0 <= k < |parts| ==> r[k] == Trim(parts[k])
  {
    seq(|parts|, k requires 0 <= k < |parts| => Trim(parts[k]))
  }

  /** What one entry contributes: nothing when its trimmed name or trimmed
      value is empty (a missing key reads as ""), otherwise the name and the
      value split on ',' with every piece trimmed. */
  function Accept(id: int, e: Entry): Option<Mention> {
    var name := Trim(e.name.GetOr(""));
    var raw := Trim(e.value.GetOr(""));
    if name == "" || raw == "" then None else Some(Mention(id, name, TrimEach(Split(raw, ','))))
  }

  /** The values present in `os`, in order. */
  function Somes<T>(os: seq<Option<T>>): seq<T>
    decreases |os|
  {
    if os == [] then []
    else
      var o := os[|os| - 1];
      Somes(os[..|os| - 1]) + (if o.Some? then [o.value] else [])
  }

  /** What each entry of one product contributes. */
  function Contributions(id: int, es: seq<Entry>): (r: seq<Option<Mention>>)
    ensures |r| == |es|
    decreases |es|
  {
    if es == [] then [] else Contributions(id, es[..|es| - 1]) + [Accept(id, es[|es| - 1])]
  }

  lemma {:induction false} ContributionsAt(id: int, es: seq<Entry>, j: int)
    requires 0 <= j < |es|
    ensures Contributions(id, es)[j] == Accept(id, es[j])
    decreases |es|
  {
    if j < |es| - 1 {
      ContributionsAt(id, es[..|es| - 1], j);
    }
  }

  /** The accepted entries of one product, in order. */
  function EntryMentions(id: int, es: seq<Entry>): seq<Mention> {
    Somes(Contributions(id, es))
  }

  function ProductMentions(p: SeederProduct): seq<Mention> {
    if p.variations.None? then [] else EntryMentions(p.id, p.variations.value)
  }

  /** The accepted entries of all products, in order. */
  function Mentions(ps: seq<SeederProduct>): seq<Mention>
    decreases |ps|
  {
    if ps == [] then [] else Mentions(ps[..|ps| - 1]) + ProductMentions(ps[|ps| - 1])
  }

  // ------------------------------------------------- reading the column

  /** Line 26 as intended: the stored text decoded once. A list of entries
      is read (the empty array has none); any other value fails is_array
      and the product is skipped. An array whose entries cannot be read
      (an entry whose name or value is itself an array, which trim()
      refuses) raises: None. */
  function DecodeOnce(p: StoredProduct, decodeE: string -> Decoded<seq<Entry>>): (r: Option<SeederProduct>)
    ensures r.None? <==> decodeE(p.variations).Malformed?
    ensures r.Some? ==> r.value.id == p.id
    ensures r.Some? ==> (r.value.variations.Some? <==> decodeE(p.variations).Value? || decodeE(p.variations).EmptyArray?)
  {
    match decodeE(p.variations)
    case Value(es) => Some(SeederProduct(p.id, Some(es)))
    case EmptyArray => Some(SeederProduct(p.id, Some([])))
    case Malformed => None
    case _ => Some(SeederProduct(p.id, None))
  }

  /** Line 26 as written: the `array` cast of the model has already decoded
      the column, and json_decode runs on what the cast gave. An array of
      any kind is a type error. Null (deprecated, not an error) and a bool
      or number scalar, turned back into its text, decode to a non-array
      and the product is skipped. Only a string is decoded a second time:
      the entries of a product are read only when its column holds a list
      encoded twice. */
  function DecodeTwice(p: StoredProduct, decodeE: string -> Decoded<seq<Entry>>): (r: Option<SeederProduct>)
    ensures r.None? <==>
      var doc := decodeE(p.variations);
      doc.EmptyArray? || doc.Malformed? || doc.Value? || (doc.Text? && decodeE(doc.text).Malformed?)
    ensures r.Some? ==> r.value.id == p.id
    ensures r.Some? && r.value.variations.Some? ==>
      decodeE(p.variations).Text? && (decodeE(decodeE(p.variations).text).Value? || decodeE(decodeE(p.variations).text).EmptyArray?)
  {
    match decodeE(p.variations)
    case Text(t) => DecodeOnce(StoredProduct(p.id, t), decodeE)
    case Null => Some(SeederProduct(p.id, None))
    case Scalar(_) => Some(SeederProduct(p.id, None))
    case _ => None
  }

  /** One product read by the command: as written (`asWritten`) or as
      intended. */
  function ReadStored(p: StoredProduct, decodeE: string -> Decoded<seq<Entry>>, asWritten: bool): Option<SeederProduct> {
    if asWritten then DecodeTwice(p, decodeE) else DecodeOnce(p, decodeE)
  }

  /** No product's read raises. */
  predicate AllRead(ps: seq<StoredProduct>, decodeE: string -> Decoded<seq<Entry>>, asWritten: bool) {
    forall i :: 0 <= i < |ps| ==> ReadStored(ps[i], decodeE, asWritten).Some?
  }

  /** Every product as read, in the query's order. */
  function ReadAll(ps: seq<StoredProduct>, decodeE: string -> Decoded<seq<Entry>>, asWritten: bool): (r: seq<SeederProduct>)
    requires AllRead(ps, decodeE, asWritten)
    ensures |r| == |ps| && forall i :: 0 <= i < |ps| ==> Some(r[i]) == ReadStored(ps[i], decodeE, asWritten)
  {
    seq(|ps|, i requires 0 <= i < |ps| => ReadStored(ps[i], decodeE, asWritten).value)
  }

  // --------------------------------------------------- the aggregation

  function AttributeNames(ms: seq<Mention>): (r: seq<string>)
    ensures |r| == |ms| && forall k :: 0 <= k < |ms| ==> r[k] == ms[k].name
  {
    seq(|ms|, k requires 0 <= k < |ms| => ms[k].name)
  }

  function ProductIds(ms: seq<Mention>): (r: seq<int>)
    ensures |r| == |ms| && forall k :: 0 <= k < |ms| ==> r[k] == ms[k].id
  {
    seq(|ms|, k requires 0 <= k < |ms| => ms[k].id)
  }

  /** All values given for attribute `a`, in order, repeats included. */
  function ValuesOf(ms: seq<Mention>, a: string): seq<string>
    decreases |ms|
  {
    if ms == [] then []
    else
      var m := ms[|ms| - 1];
      ValuesOf(ms[..|ms| - 1], a) + (if m.name == a then m.values else [])
  }

  /** All attribute names product `id` mentions, in order, repeats included. */
  function NamesFor(ms: seq<Mention>, id: int): seq<string>
    decreases |ms|
  {
    if ms == [] then []
    else
      var m := ms[|ms| - 1];
      NamesFor(ms[..|ms| - 1], id) + (if m.id == id then [m.name] else [])
  }

  /** The command's two dictionaries, with their key order: attribute name
      to values, and product id to attribute names. */
  datatype Seeds = Seeds(attributeNames: seq<string>, attributeValues: map<string, seq<string>>,
                         productIds: seq<int>, productNames: map<int, seq<string>>)

  /** The dictionaries the accepted entries `ms` determine: every name,
      value and id once, in first-seen order. */
  function Aggregate(ms: seq<Mention>): Seeds {
    Seeds(Dedup(AttributeNames(ms)), ValueMap(ms), Dedup(ProductIds(ms)), NameMap(ms))
  }

  /** Attribute name to its values, each once. */
  function ValueMap(ms: seq<Mention>): map<string, seq<string>> {
    map a | a in AttributeNames(ms) :: Dedup(ValuesOf(ms, a))
  }

  /** Product id to its attribute names, each once. */
  function NameMap(ms: seq<Mention>): map<int, seq<string>> {
    map id | id in ProductIds(ms) :: Dedup(NamesFor(ms, id))
  }

  lemma {:induction false} ValuesOfMembers(ms: seq<Mention>, a: string, v: string)
    ensures v in ValuesOf(ms, a) <==> exists k :: 0 <= k < |ms| && ms[k].name == a && v in ms[k].values
    decreases |ms|
  {
    if ms != [] {
      var p := ms[..|ms| - 1];
      ValuesOfMembers(p, a, v);
      if v in ValuesOf(p, a) {
        var k :| 0 <= k < |p| && p[k].name == a && v in p[k].values;
        assert ms[k] == p[k];
      }
      if exists k :: 0 <= k < |ms| && ms[k].name == a && v in ms[k].values {
        var k :| 0 <= k < |ms| && ms[k].name == a && v in ms[k].values;
        if k < |p| {
          assert p[k] == ms[k];
        }
      }
    }
  }

  lemma {:induction false} NamesForMembers(ms: seq<Mention>, id: int, a: string)
    ensures a in NamesFor(ms, id) <==> exists k :: 0 <= k < |ms| && ms[k].id == id && ms[k].name == a
    decreases |ms|
  {
    if ms != [] {
      var p := ms[..|ms| - 1];
      NamesForMembers(p, id, a);
      if a in NamesFor(p, id) {
        var k :| 0 <= k < |p| && p[k].id == id && p[k].name == a;
        assert ms[k] == p[k];
      }
      if exists k :: 0 <= k < |ms| && ms[k].id == id && ms[k].name == a {
        var k :| 0 <= k < |ms| && ms[k].id == id && ms[k].name == a;
        if k < |p| {
          assert p[k] == ms[k];
        }
      }
    }
  }

  /** What the dictionaries hold: an attribute is listed exactly when some
      accepted entry names it, a value is listed under it exactly when such
      an entry gives it, a product is listed exactly when it has an accepted
      entry, and a name is listed under it exactly when one of its entries
      gives that name. Key lists and dictionaries agree, and no list holds
      an element twice. */
  lemma AggregateContents(ms: seq<Mention>)
    ensures var s := Aggregate(ms);
      && NoDup(s.attributeNames) && NoDup(s.productIds)
      && (forall a :: a in s.attributeValues ==> NoDup(s.attributeValues[a]))
      && (forall id :: id in s.productNames ==> NoDup(s.productNames[id]))
      && (forall a :: a in s.attributeNames <==> a in s.attributeValues)
      && (forall a :: a in s.attributeValues <==> exists k :: 0 <= k < |ms| && ms[k].name == a)
      && (forall a, v :: a in s.attributeValues ==>
            (v in s.attributeValues[a] <==> exists k :: 0 <= k < |ms| && ms[k].name == a && v in ms[k].values))
      && (forall id :: id in s.productIds <==> id in s.productNames)
      && (forall id :: id in s.productNames <==> exists k :: 0 <= k < |ms| && ms[k].id == id)
      && (forall id, a :: id in s.productNames ==>
            (a in s.productNames[id] <==> exists k :: 0 <= k < |ms| && ms[k].id == id && ms[k].name == a))
  {
    var s := Aggregate(ms);
    forall a | a in s.attributeValues ensures exists k :: 0 <= k < |ms| && ms[k].name == a {
      var k :| 0 <= k < |ms| && AttributeNames(ms)[k] == a;
    }
    forall a, v | a in s.attributeValues
      ensures v in s.attributeValues[a] <==> exists k :: 0 <= k < |ms| && ms[k].name == a && v in ms[k].values
    {
      ValuesOfMembers(ms, a, v);
    }
    forall id | id in s.productNames ensures exists k :: 0 <= k < |ms| && ms[k].id == id {
      var k :| 0 <= k < |ms| && ProductIds(ms)[k] == id;
    }
    forall id, a | id in s.productNames
      ensures a in s.productNames[id] <==> exists k :: 0 <= k < |ms| && ms[k].id == id && ms[k].name == a
    {
      NamesForMembers(ms, id, a);
    }
  }

  /** The witness of DedupOrder for one pair of listed elements. */
  lemma DedupFirstSeen<T(!new)>(s: seq<T>, i: int, j: int, k: int) returns (k': int)
    requires 0 <= i < j < |Dedup(s)| && 0 <= k < |s| && s[k] == Dedup(s)[j]
    ensures 0 <= k' < k && s[k'] == Dedup(s)[i]
  {
    DedupOrderAt(s, i, j, k);
    var q := s[..k];
    k' :| 0 <= k' < |q| && q[k'] == Dedup(s)[i];
  }

  /** Attributes and products are listed in the order of their first
      accepted entry. */
  lemma AggregateOrder(ms: seq<Mention>)
    ensures var s := Aggregate(ms);
      && (forall i, j, k :: 0 <= i < j < |s.attributeNames| && 0 <= k < |ms| && ms[k].name == s.attributeNames[j] ==>
            exists k' :: 0 <= k' < k && ms[k'].name == s.attributeNames[i])
      && (forall i, j, k :: 0 <= i < j < |s.productIds| && 0 <= k < |ms| && ms[k].id == s.productIds[j] ==>
            exists k' :: 0 <= k' < k && ms[k'].id == s.productIds[i])
  {
    var s := Aggregate(ms);
    var names, ids := AttributeNames(ms), ProductIds(ms);
    var d, e := s.attributeNames, s.productIds;
    assert d == Dedup(names) && e == Dedup(ids);
    forall i, j, k | 0 <= i < j < |d| && 0 <= k < |ms| && ms[k].name == d[j]
      ensures exists k' :: 0 <= k' < k && ms[k'].name == d[i]
    {
      assert names[k] == ms[k].name;
      var k' := DedupFirstSeen(names, i, j, k);
      assert ms[k'].name == names[k'];
    }
    forall i, j, k | 0 <= i < j < |e| && 0 <= k < |ms| && ms[k].id == e[j]
      ensures exists k' :: 0 <= k' < k && ms[k'].id == e[i]
    {
      assert ids[k] == ms[k].id;
      var k' := DedupFirstSeen(ids, i, j, k);
      assert ms[k'].id == ids[k'];
    }
  }

  /** An entry is accepted exactly when its name and its value each hold a
      character that is not blank; then the name and every value piece are
      trimmed and no piece holds a comma, and the pieces joined with commas
      give back the trimmed value. */
  lemma AcceptSpec(id: int, e: Entry)
    ensures Accept(id, e).Some? <==>
      (exists k :: 0 <= k < |e.name.GetOr("")| && !IsBlank(e.name.GetOr("")[k]))
      && (exists k :: 0 <= k < |e.value.GetOr("")| && !IsBlank(e.value.GetOr("")[k]))
    ensures Accept(id, e).Some? ==> var m := Accept(id, e).value;
      && m.id == id && m.name != "" && Trim(m.name) == m.name
      && |m.values| >= 1
      && (forall k :: 0 <= k < |m.values| ==> Trim(m.values[k]) == m.values[k] && ',' !in m.values[k])
      && Join(Split(Trim(e.value.GetOr("")), ','), ',') == Trim(e.value.GetOr(""))
  {
    var name, raw := e.name.GetOr(""), e.value.GetOr("");
    TrimSpec(name);
    TrimSpec(raw);
    if Accept(id, e).Some? {
      var m := Accept(id, e).value;
      TrimIdempotent(name);
      var parts := Split(Trim(raw), ',');
      forall k | 0 <= k < |m.values| ensures Trim(m.values[k]) == m.values[k] && ',' !in m.values[k] {
        TrimIdempotent(parts[k]);
        TrimSpec(parts[k]);
      }
      JoinSplit(Trim(raw), ',');
    }
  }

  lemma {:induction false} SomesMembers<T>(os: seq<Option<T>>, x: T)
    ensures x in Somes(os) <==> exists j :: 0 <= j < |os| && os[j] == Some(x)
    decreases |os|
  {
    if os != [] {
      var p := os[..|os| - 1];
      SomesMembers(p, x);
      if x in Somes(p) {
        var j :| 0 <= j < |p| && p[j] == Some(x);
        assert os[j] == p[j];
      }
      if exists j :: 0 <= j < |os| && os[j] == Some(x) {
        var j :| 0 <= j < |os| && os[j] == Some(x);
        if j < |p| {
          assert p[j] == os[j];
        }
      }
    }
  }

  /** Entry `j` of product `i` is accepted and gives `m` (by
      ContributionsAt, `Accept(ps[i].id, ps[i].variations.value[j]) == Some(m)`). */
  predicate AcceptedAt(ps: seq<SeederProduct>, i: int, j: int, m: Mention) {
    && 0 <= i < |ps| && ps[i].variations.Some? && 0 <= j < |ps[i].variations.value|
    && Contributions(ps[i].id, ps[i].variations.value)[j] == Some(m)
  }

  lemma {:induction false} MentionsSound(ps: seq<SeederProduct>, m: Mention)
    requires m in Mentions(ps)
    ensures exists i, j :: AcceptedAt(ps, i, j, m)
    decreases |ps|
  {
    var n := |ps| - 1;
    var p, last := ps[..n], ps[n];
    if m in Mentions(p) {
      MentionsSound(p, m);
      var i, j :| AcceptedAt(p, i, j, m);
      assert ps[i] == p[i];
      assert AcceptedAt(ps, i, j, m);
    } else {
      var os := Contributions(last.id, last.variations.value);
      SomesMembers(os, m);
      var j :| 0 <= j < |os| && os[j] == Some(m);
      assert AcceptedAt(ps, n, j, m);
    }
  }

  lemma {:induction false} MentionsComplete(ps: seq<SeederProduct>, i: int, j: int, m: Mention)
    requires AcceptedAt(ps, i, j, m)
    ensures m in Mentions(ps)
    decreases |ps|
  {
    var n := |ps| - 1;
    var p, last := ps[..n], ps[n];
    if i < n {
      assert p[i] == ps[i];
      MentionsComplete(p, i, j, m);
    } else {
      SomesMembers(Contributions(last.id, last.variations.value), m);
    }
  }

  /** The accepted entries are exactly the entries of decodable products
      that Accept takes. */
  lemma MentionsMembers(ps: seq<SeederProduct>, m: Mention)
    ensures m in Mentions(ps) <==> exists i, j :: AcceptedAt(ps, i, j, m)
  {
    if m in Mentions(ps) {
      MentionsSound(ps, m);
    }
    if exists i, j :: AcceptedAt(ps, i, j, m) {
      var i, j :| AcceptedAt(ps, i, j, m);
      MentionsComplete(ps, i, j, m);
    }
  }

  // ---------------------------------------------------- the loop's steps

  lemma {:induction false} AggregateAbsent(ms: seq<Mention>, a: string, id: int)
    ensures a !in AttributeNames(ms) ==> ValuesOf(ms, a) == []
    ensures id !in ProductIds(ms) ==> NamesFor(ms, id) == []
    decreases |ms|
  {
    if ms != [] {
      var p := ms[..|ms| - 1];
      AggregateAbsent(p, a, id);
      assert forall x :: x in AttributeNames(p) ==> x in AttributeNames(ms);
      assert forall x :: x in ProductIds(p) ==> x in ProductIds(ms);
    }
  }

  lemma MentionSnoc(ms: seq<Mention>, m: Mention, x: string, id: int)
    ensures AttributeNames(ms + [m]) == AttributeNames(ms) + [m.name]
    ensures ProductIds(ms + [m]) == ProductIds(ms) + [m.id]
    ensures ValuesOf(ms + [m], x) == ValuesOf(ms, x) + (if m.name == x then m.values else [])
    ensures NamesFor(ms + [m], id) == NamesFor(ms, id) + (if m.id == id then [m.name] else [])
  {
    assert (ms + [m])[..|ms|] == ms;
  }

  lemma AttributeValuesSnoc(ms: seq<Mention>, m: Mention)
    ensures ValueMap(ms + [m]) == ValueMap(ms)[m.name := Dedup(ValuesOf(ms, m.name) + m.values)]
  {
    var ms' := ms + [m];
    var before, after := ValueMap(ms), ValueMap(ms');
    var rhs := before[m.name := Dedup(ValuesOf(ms, m.name) + m.values)];
    MentionSnoc(ms, m, m.name, m.id);
    assert after.Keys == rhs.Keys;
    forall x | x in after ensures after[x] == rhs[x] {
      MentionSnoc(ms, m, x, m.id);
      if x != m.name {
        assert ValuesOf(ms, x) + [] == ValuesOf(ms, x);
      }
    }
  }

  lemma ProductNamesSnoc(ms: seq<Mention>, m: Mention)
    ensures NameMap(ms + [m]) == NameMap(ms)[m.id := Dedup(NamesFor(ms, m.id) + [m.name])]
  {
    var ms' := ms + [m];
    var before, after := NameMap(ms), NameMap(ms');
    var rhs := before[m.id := Dedup(NamesFor(ms, m.id) + [m.name])];
    MentionSnoc(ms, m, m.name, m.id);
    assert after.Keys == rhs.Keys;
    forall x | x in after ensures after[x] == rhs[x] {
      MentionSnoc(ms, m, m.name, x);
      if x != m.id {
        assert NamesFor(ms, x) + [] == NamesFor(ms, x);
      }
    }
  }

  /** One more accepted entry, as the loop body records it. */
  lemma AggregateSnoc(ms: seq<Mention>, m: Mention)
    ensures var b := Aggregate(ms); var a := Aggregate(ms + [m]);
      && a.attributeNames == (if m.name in b.attributeValues then b.attributeNames else b.attributeNames + [m.name])
      && a.attributeValues == b.attributeValues[m.name := Dedup(ValuesOf(ms, m.name) + m.values)]
      && a.productIds == (if m.id in b.productNames then b.productIds else b.productIds + [m.id])
      && a.productNames == b.productNames[m.id := Dedup(NamesFor(ms, m.id) + [m.name])]
      && (m.name in b.attributeValues ==> b.attributeValues[m.name] == Dedup(ValuesOf(ms, m.name)))
      && (m.name !in b.attributeValues ==> ValuesOf(ms, m.name) == [])
      && (m.id in b.productNames ==> b.productNames[m.id] == Dedup(NamesFor(ms, m.id)))
      && (m.id !in b.productNames ==> NamesFor(ms, m.id) == [])
  {
    AggregateSnocLists(ms, m);
    AttributeValuesSnoc(ms, m);
    ProductNamesSnoc(ms, m);
    AggregateAbsent(ms, m.name, m.id);
  }

  /** The key lists of AggregateSnoc. */
  lemma AggregateSnocLists(ms: seq<Mention>, m: Mention)
    ensures var b := Aggregate(ms); var a := Aggregate(ms + [m]);
      && a.attributeNames == (if m.name in b.attributeValues then b.attributeNames else b.attributeNames + [m.name])
      && a.productIds == (if m.id in b.productNames then b.productIds else b.productIds + [m.id])
  {
    MentionSnoc(ms, m, m.name, m.id);
    DedupAppend(AttributeNames(ms), m.name);
    DedupAppend(ProductIds(ms), m.id);
  }

  lemma EntryMentionsSnoc(id: int, es: seq<Entry>, j: int)
    requires 0 <= j < |es|
    ensures var m := Accept(id, es[j]);
      EntryMentions(id, es[..j + 1]) == EntryMentions(id, es[..j]) + (if m.Some? then [m.value] else [])
  {
    var os := Contributions(id, es[..j + 1]);
    assert es[..j + 1][..j] == es[..j];
    assert os[..|os| - 1] == Contributions(id, es[..j]);
  }

  lemma MentionsAppend(ps: seq<SeederProduct>, p: SeederProduct)
    ensures Mentions(ps + [p]) == Mentions(ps) + ProductMentions(p)
  {
    assert (ps + [p])[..|ps|] == ps;
  }

  lemma ReadAllSnoc(ps: seq<StoredProduct>, decodeE: string -> Decoded<seq<Entry>>, asWritten: bool, i: int)
    requires 0 <= i < |ps| && AllRead(ps[..i], decodeE, asWritten) && ReadStored(ps[i], decodeE, asWritten).Some?
    ensures AllRead(ps[..i + 1], decodeE, asWritten)
    ensures ReadAll(ps[..i + 1], decodeE, asWritten) == ReadAll(ps[..i], decodeE, asWritten) + [ReadStored(ps[i], decodeE, asWritten).value]
  {
    assert forall k :: 0 <= k < i ==> ps[..i + 1][k] == ps[..i][k];
    var a, b := ReadAll(ps[..i + 1], decodeE, asWritten), ReadAll(ps[..i], decodeE, asWritten);
    assert forall k :: 0 <= k < i ==> a[k] == b[k];
  }

  /** `foreach ($values as $v) if (! in_array($v, $list)) $list[] = $v;`:
      on a list that already holds the de-duplicated `known` values, the
      result holds the de-duplicated `known + vs`. */
  method AddValues(list: seq<string>, vs: seq<string>, ghost known: seq<string>) returns (r: seq<string>)
    requires list == Dedup(known)
    ensures r == Dedup(known + vs)
  {
    r := list;
    assert known + vs[..0] == known;
    for k := 0 to |vs|
      invariant r == Dedup(known + vs[..k])
    {
      DedupAppend(known + vs[..k], vs[k]);
      assert known + vs[..k + 1] == (known + vs[..k]) + [vs[k]];
      if vs[k] !in r {
        r := r + [vs[k]];
      }
    }
    assert vs[..|vs|] == vs;
  }

  /** The loop body for one accepted entry: register the attribute, each
      of its values not yet listed under it, the product, and the attribute
      under the product. */
  method Register(seeds: Seeds, m: Mention, ghost ms: seq<Mention>) returns (r: Seeds)
    requires seeds == Aggregate(ms)
    ensures r == Aggregate(ms + [m])
  {
    AggregateSnoc(ms, m);
    ghost var after := Aggregate(ms + [m]);
    var names := seeds.attributeNames;
    var current: seq<string> := [];
    if m.name in seeds.attributeValues {
      current := seeds.attributeValues[m.name];
    } else {
      names := names + [m.name];
    }
    var list := AddValues(current, m.values, ValuesOf(ms, m.name));
    var values := seeds.attributeValues[m.name := list];
    assert names == after.attributeNames && values == after.attributeValues;
    var ids := seeds.productIds;
    var listed: seq<string> := [];
    if m.id in seeds.productNames {
      listed := seeds.productNames[m.id];
    } else {
      ids := ids + [m.id];
    }
    DedupAppend(NamesFor(ms, m.id), m.name);
    if m.name !in listed {
      listed := listed + [m.name];
    }
    var byProduct := seeds.productNames[m.id := listed];
    assert ids == after.productIds && byProduct == after.productNames;
    r := Seeds(names, values, ids, byProduct);
  }

  /** What one entry adds to the accepted entries. */
  function Contribution(id: int, e: Entry): seq<Mention> {
    var c := Accept(id, e);
    if c.Some? then [c.value] else []
  }

  lemma EntryStep(done: seq<Mention>, id: int, es: seq<Entry>, j: int)
    requires 0 <= j < |es|
    ensures done + EntryMentions(id, es[..j + 1]) == (done + EntryMentions(id, es[..j])) + Contribution(id, es[j])
  {
    EntryMentionsSnoc(id, es, j);
  }

  /** One iteration of the entry loop: an entry Accept rejects is skipped,
      an accepted one is registered. */
  method RegisterEntry(seeds: Seeds, id: int, e: Entry, ghost ms: seq<Mention>) returns (r: Seeds)
    requires seeds == Aggregate(ms)
    ensures r == Aggregate(ms + Contribution(id, e))
  {
    var c := Accept(id, e);
    if c.Some? {
      r := Register(seeds, c.value, ms);
    } else {
      r := seeds;
      assert ms + [] == ms;
    }
  }

  /** handle(): the dictionaries of every accepted entry of every product
      read, or None when reading some product raises; the seeder files are
      written only after the loop, so then none is written. */
  function Generate(ps: seq<StoredProduct>, decodeE: string -> Decoded<seq<Entry>>, asWritten: bool): Option<Seeds> {
    if AllRead(ps, decodeE, asWritten) then Some(Aggregate(Mentions(ReadAll(ps, decodeE, asWritten)))) else None
  }

  /** As intended, a run raises exactly when some stored list has an entry
      that cannot be read. As written, it raises exactly when some column
      decodes to an array (as any list stored once as JSON does), or to a
      string holding an unreadable list. */
  lemma GenerateFails(ps: seq<StoredProduct>, decodeE: string -> Decoded<seq<Entry>>)
    ensures Generate(ps, decodeE, false).None? <==>
      exists i :: 0 <= i < |ps| && decodeE(ps[i].variations).Malformed?
    ensures Generate(ps, decodeE, true).None? <==>
      exists i :: 0 <= i < |ps| &&
        var doc := decodeE(ps[i].variations);
        doc.EmptyArray? || doc.Malformed? || doc.Value? || (doc.Text? && decodeE(doc.text).Malformed?)
  {
    if Generate(ps, decodeE, false).None? {
      var i :| 0 <= i < |ps| && ReadStored(ps[i], decodeE, false).None?;
      assert decodeE(ps[i].variations).Malformed?;
    }
    if Generate(ps, decodeE, true).None? {
      var i :| 0 <= i < |ps| && ReadStored(ps[i], decodeE, true).None?;
      assert DecodeTwice(ps[i], decodeE).None?;
    }
  }

  /** A column whose text decodes to a list of entries: as written, the
      command raises before writing any seeder; as intended, every entry of
      that list that Accept takes is aggregated. */
  lemma SeederDecodeFinding(ps: seq<StoredProduct>, decodeE: string -> Decoded<seq<Entry>>, i: int, j: int)
    requires 0 <= i < |ps| && decodeE(ps[i].variations).Value?
    requires 0 <= j < |decodeE(ps[i].variations).value|
    ensures Generate(ps, decodeE, true) == None
    ensures var m := Accept(ps[i].id, decodeE(ps[i].variations).value[j]);
      AllRead(ps, decodeE, false) && m.Some? ==> m.value in Mentions(ReadAll(ps, decodeE, false))
  {
    assert ReadStored(ps[i], decodeE, true).None?;
    var m := Accept(ps[i].id, decodeE(ps[i].variations).value[j]);
    if AllRead(ps, decodeE, false) && m.Some? {
      var read := ReadAll(ps, decodeE, false);
      assert read[i] == SeederProduct(ps[i].id, Some(decodeE(ps[i].variations).value));
      ContributionsAt(ps[i].id, decodeE(ps[i].variations).value, j);
      assert AcceptedAt(read, i, j, m.value);
      MentionsComplete(read, i, j, m.value);
    }
  }

  /** The command's handle(): every product read in turn, every entry of
      its list registered when it is accepted; a read that raises ends the
      command. */
  method AggregateVariations(products: seq<StoredProduct>, decodeE: string -> Decoded<seq<Entry>>, asWritten: bool)
    returns (seeds: Option<Seeds>)
    ensures seeds == Generate(products, decodeE, asWritten)
  {
    var acc := Seeds([], map[], [], map[]);
    assert acc == Aggregate([]);
    for i := 0 to |products|
      invariant AllRead(products[..i], decodeE, asWritten)
      invariant acc == Aggregate(Mentions(ReadAll(products[..i], decodeE, asWritten)))
    {
      var read := ReadStored(products[i], decodeE, asWritten);
      if read.None? {
        return None;
      }
      var p := read.value;
      ghost var before := ReadAll(products[..i], decodeE, asWritten);
      ReadAllSnoc(products, decodeE, asWritten, i);
      MentionsAppend(before, p);
      ghost var done := Mentions(before);
      if p.variations.Some? {
        var es := p.variations.value;
        assert done + EntryMentions(p.id, es[..0]) == done;
        for j := 0 to |es|
          invariant acc == Aggregate(done + EntryMentions(p.id, es[..j]))
        {
          ghost var ms := done + EntryMentions(p.id, es[..j]);
          EntryStep(done, p.id, es, j);
          acc := RegisterEntry(acc, p.id, es[j], ms);
        }
        assert es[..|es|] == es;
      } else {
        assert done + [] == done;
      }
    }
    assert products[..|products|] == products;
    seeds := Some(acc);
  }
}
