/** ImportProductService::getRecords: CSV rows, already split into fields,
    become import records. Reading the file and splitting lines into fields
    (fgetcsv) happen before this model starts. */
module ImportRecords {
  import opened Common

  // --------------------------------------------------------- (float) cast

  /** The length of the run of decimal digits that starts the text. */
  function DigitRun(s: string): (n: nat)
    ensures n <= |s|
    ensures forall i :: 0 <= i < n ==> IsDigit(s[i])
    ensures n < |s| ==> !IsDigit(s[n])
  {
    if s == [] || !IsDigit(s[0]) then 0 else 1 + DigitRun(s[1..])
  }

  /** PHP's leading whitespace for numeric strings. */
  predicate IsSpace(c: char) {
    c == ' ' || c == '\t' || c == '\n' || c == '\r' || c == '\U{B}' || c == '\U{C}'
  }

  function SkipSpace(s: string): (t: string)
    ensures |t| <= |s|
    ensures t == [] || !IsSpace(t[0])
  {
    if s != [] && IsSpace(s[0]) then SkipSpace(s[1..]) else s
  }

  /** The value of the digits after a decimal point: "25" is 0.25. */
  function FracValue(f: string): (r: real)
    requires forall i :: 0 <= i < |f| ==> IsDigit(f[i])
    ensures 0.0 <= r < 1.0
  {
    if f == [] then 0.0
    else
      var d := f[0] as int - '0' as int;
      assert IsDigit(f[0]) && 0 <= d <= 9;
      (d as real + FracValue(f[1..])) / 10.0
  }

  /** Digits, then optionally '.' and more digits; reading stops at the
      first character that does not fit. */
  function UnsignedDecimal(s: string): real {
    var a := DigitRun(s);
    var whole := DigitsValue(s[..a]) as real;
    if a < |s| && s[a] == '.' then
      var f := s[a + 1..];
      whole + FracValue(f[..DigitRun(f)])
    else whole
  }

  /** PHP's `(float)` on a string: the longest numeric prefix after leading
      whitespace, 0 when there is none. */
  function CastToNumber(s: string): real {
    var t := SkipSpace(s);
    if t != [] && t[0] == '-' then 0.0 - UnsignedDecimal(t[1..])
    else if t != [] && t[0] == '+' then UnsignedDecimal(t[1..])
    else UnsignedDecimal(t)
  }

  /** A text of digits only reads as its decimal value. */
  lemma CastDigits(n: string)
    requires n != [] && forall i :: 0 <= i < |n| ==> IsDigit(n[i])
    ensures CastToNumber(n) == DigitsValue(n) as real
  {
    assert SkipSpace(n) == n by { assert !IsSpace(n[0]); }
    DigitRunPrefix(n, []);
    assert n + [] == n && n[..|n|] == n;
    assert UnsignedDecimal(n) == DigitsValue(n) as real;
  }

  /** The text of an int reads back as that number. */
  lemma CastIntText(i: int)
    ensures CastToNumber(IntToText(i)) == i as real
  {
    if i < 0 {
      DigitsValueOfNatToText(-i);
      CastNegativeDigits(NatToText(-i));
    } else {
      DigitsValueOfNatToText(i);
      CastDigits(NatToText(i));
    }
  }

  /** A minus sign followed by digits reads as the negated digits. */
  lemma CastNegativeDigits(n: string)
    requires n != [] && forall k :: 0 <= k < |n| ==> IsDigit(n[k])
    ensures CastToNumber("-" + n) == 0.0 - DigitsValue(n) as real
  {
    var s := "-" + n;
    assert s[1..] == n;
    assert SkipSpace(s) == s;
    DigitRunPrefix(n, []);
    assert n + [] == n && n[..|n|] == n;
    assert UnsignedDecimal(n) == DigitsValue(n) as real;
  }

  /** Digits '.' digits: the whole part plus the fraction. */
  lemma UnsignedDecimalOf(a: string, f: string)
    requires forall i :: 0 <= i < |a| ==> IsDigit(a[i])
    requires forall i :: 0 <= i < |f| ==> IsDigit(f[i])
    ensures UnsignedDecimal(a + "." + f) == DigitsValue(a) as real + FracValue(f)
  {
    var s := a + "." + f;
    DigitRunPrefix(a, "." + f);
    assert a + "." + f == a + ("." + f);
    assert s[..|a|] == a && s[|a|] == '.' && s[|a| + 1..] == f;
    DigitRunPrefix(f, []);
    assert f + [] == f && f[..|f|] == f;
  }

  /** Digits '.' digits reads as the whole part plus the fraction. */
  lemma CastDecimal(a: string, f: string)
    requires forall i :: 0 <= i < |a| ==> IsDigit(a[i])
    requires forall i :: 0 <= i < |f| ==> IsDigit(f[i])
    ensures CastToNumber(a + "." + f) == DigitsValue(a) as real + FracValue(f)
  {
    var s := a + "." + f;
    assert s[0] == (if a != [] then a[0] else '.');
    assert SkipSpace(s) == s;
    UnsignedDecimalOf(a, f);
  }

  /** A run of digits followed by a non-digit is measured exactly. */
  lemma {:induction false} DigitRunPrefix(a: string, rest: string)
    requires forall i :: 0 <= i < |a| ==> IsDigit(a[i])
    requires rest == [] || !IsDigit(rest[0])
    ensures DigitRun(a + rest) == |a|
    decreases |a|
  {
    if a != [] {
      assert (a + rest)[1..] == a[1..] + rest;
      DigitRunPrefix(a[1..], rest);
    } else {
      assert a + rest == rest;
    }
  }

  // ------------------------------------------------------------- records

  /** One record as getRecords yields it: each field None (null) when the
      header lacks its column; `price` 0.0 in that case. */
  datatype CsvRecord = CsvRecord(
    id: Option<string>, name: Option<string>, sku: Option<string>, status: Option<string>,
    price: real, currency: Option<string>, variations: Option<string>, warehouses: Option<string>)

  /** array_flip($headers)[f]: the last column carrying the header `f`. */
  function LastIndex(headers: seq<string>, f: string): (r: Option<nat>)
    ensures r.None? <==> f !in headers
    ensures r.Some? ==> r.value < |headers| && headers[r.value] == f
    ensures r.Some? ==> forall j :: r.value < j < |headers| ==> headers[j] != f
    decreases |headers|
  {
    if headers == [] then None
    else if headers[|headers| - 1] == f then Some(|headers| - 1)
    else LastIndex(headers[..|headers| - 1], f)
  }

  /** `array_key_exists(f, $map) ? $row[$map[f]] : null`. */
  function Column(headers: seq<string>, row: seq<string>, f: string): (r: Option<string>)
    requires |row| == |headers|
    ensures r.None? <==> f !in headers
    ensures r.Some? ==> exists k :: (0 <= k < |headers| && headers[k] == f && r.value == row[k]
      && forall j :: k < j < |headers| ==> headers[j] != f)
  {
    match LastIndex(headers, f)
    case None => None
    case Some(k) => Some(row[k])
  }

  /** The record built from one well-formed row. */
  function Shape(headers: seq<string>, row: seq<string>): CsvRecord
    requires |row| == |headers|
  {
    CsvRecord(Column(headers, row, "id"), Column(headers, row, "name"), Column(headers, row, "sku"),
              Column(headers, row, "status"),
              match Column(headers, row, "price") case None => 0.0 case Some(t) => CastToNumber(t),
              Column(headers, row, "currency"), Column(headers, row, "variations"),
              Column(headers, row, "warehouses"))
  }

  /** The rows getRecords keeps: those with as many fields as the header. */
  function WellFormed(headers: seq<string>, rows: seq<seq<string>>): (w: seq<seq<string>>)
    ensures forall r :: r in w ==> |r| == |headers|
    decreases |rows|
  {
    if rows == [] then []
    else WellFormed(headers, rows[..|rows| - 1]) + (if |rows[|rows| - 1]| == |headers| then [rows[|rows| - 1]] else [])
  }

  /** The records getRecords yields, in file order. */
  function Records(headers: seq<string>, rows: seq<seq<string>>): (rs: seq<CsvRecord>)
    decreases |rows|
  {
    if rows == [] then []
    else
      var last := rows[|rows| - 1];
      Records(headers, rows[..|rows| - 1]) + (if |last| == |headers| then [Shape(headers, last)] else [])
  }

  /** The read loop. */
  method GetRecords(headers: seq<string>, rows: seq<seq<string>>) returns (records: seq<CsvRecord>)
    ensures records == Records(headers, rows)
  {
    records := [];
    var i := 0;
    while i < |rows|
      invariant 0 <= i <= |rows|
      invariant records == Records(headers, rows[..i])
    {
      var row := rows[i];
      assert rows[..i + 1][..i] == rows[..i];
      if |row| != |headers| {
        i := i + 1;
        continue;
      }
      records := records + [Shape(headers, row)];
      i := i + 1;
    }
    assert rows[..|rows|] == rows;
  }

  // ---------------------------------------------------------- properties

  /** The kept rows are exactly the rows of the right width. */
  lemma {:induction false} WellFormedMembers(headers: seq<string>, rows: seq<seq<string>>)
    ensures forall r :: r in WellFormed(headers, rows) <==> r in rows && |r| == |headers|
    decreases |rows|
  {
    if rows != [] {
      var p := rows[..|rows| - 1];
      WellFormedMembers(headers, p);
      assert rows == p + [rows[|rows| - 1]];
    }
  }

  /** One more row: it is kept, and yields its record, exactly when it
      has the header's width. */
  lemma RowSnoc(headers: seq<string>, rows: seq<seq<string>>, x: seq<string>)
    ensures WellFormed(headers, rows + [x]) == WellFormed(headers, rows) + (if |x| == |headers| then [x] else [])
    ensures Records(headers, rows + [x]) == Records(headers, rows) + (if |x| == |headers| then [Shape(headers, x)] else [])
  {
    assert (rows + [x])[..|rows|] == rows;
  }

  /** Keeping rows distributes over concatenation, so file order is kept. */
  lemma {:induction false} WellFormedConcat(headers: seq<string>, a: seq<seq<string>>, b: seq<seq<string>>)
    ensures WellFormed(headers, a + b) == WellFormed(headers, a) + WellFormed(headers, b)
    decreases |b|
  {
    if b == [] {
      assert a + b == a;
    } else {
      var b' := b[..|b| - 1];
      var x := b[|b| - 1];
      assert b == b' + [x];
      assert a + b == (a + b') + [x];
      var e := if |x| == |headers| then [x] else [];
      calc {
        WellFormed(headers, a + b);
        { RowSnoc(headers, a + b', x); }
        WellFormed(headers, a + b') + e;
        { WellFormedConcat(headers, a, b'); }
        (WellFormed(headers, a) + WellFormed(headers, b')) + e;
        WellFormed(headers, a) + (WellFormed(headers, b') + e);
        { RowSnoc(headers, b', x); }
        WellFormed(headers, a) + WellFormed(headers, b);
      }
    }
  }

  /** getRecords yields one record per kept row, in order, built from it. */
  lemma {:induction false} RecordsAreShapes(headers: seq<string>, rows: seq<seq<string>>)
    ensures |Records(headers, rows)| == |WellFormed(headers, rows)|
    ensures forall k :: 0 <= k < |Records(headers, rows)| ==>
      Records(headers, rows)[k] == Shape(headers, WellFormed(headers, rows)[k])
    decreases |rows|
  {
    if rows != [] {
      var p := rows[..|rows| - 1];
      assert rows == p + [rows[|rows| - 1]];
      RecordsAreShapes(headers, p);
      RowSnoc(headers, p, rows[|rows| - 1]);
    }
  }

  /** A field whose header is absent is null in every record; a price
      column absent means price 0. */
  lemma MissingHeader(headers: seq<string>, row: seq<string>)
    requires |row| == |headers|
    ensures "id" !in headers ==> Shape(headers, row).id.None?
    ensures "warehouses" !in headers ==> Shape(headers, row).warehouses.None?
    ensures "price" !in headers ==> Shape(headers, row).price == 0.0
    ensures "price" in headers ==> exists k :: (0 <= k < |headers| && headers[k] == "price"
      && Shape(headers, row).price == CastToNumber(row[k]))
  {
  }

  const TestHeaders: seq<string> := ["id", "name", "sku", "status", "price", "currency", "variations", "warehouses"]

  /** The decimal text of the unit test's first price. */
  lemma TestPrice()
    ensures CastToNumber("19.99") == 19.99
  {
    CastDecimal("19", "99");
    assert "19" + "." + "99" == "19.99";
    assert DigitsValue("19") == 19 by {
      assert "19"[..1] == "1";
    }
    assert FracValue("99") == 0.99 by {
      assert "99"[1..] == "9" && "9"[1..] == [];
    }
  }

  /** The columns the unit test's header names. */
  lemma TestColumns()
    ensures LastIndex(TestHeaders, "id") == Some(0)
    ensures LastIndex(TestHeaders, "status") == Some(3)
    ensures LastIndex(TestHeaders, "price") == Some(4)
  {
  }

  const TestRow1: seq<string> := ["1", "Shirt", "SKU-1", "active", "19.99", "USD", "{\"attributes\":[],\"variations\":[]}", "[]"]
  const TestRow2: seq<string> := ["2", "Invalid Row"]
  const TestRow3: seq<string> := ["3", "Pants", "SKU-3", "deleted", "29.50", "USD", "", ""]

  /** Three rows of which the middle one is short. */
  lemma RecordsOfThree(headers: seq<string>, rows: seq<seq<string>>)
    requires |rows| == 3
    requires |rows[0]| == |headers| && |rows[1]| != |headers| && |rows[2]| == |headers|
    ensures Records(headers, rows) == [Shape(headers, rows[0]), Shape(headers, rows[2])]
  {
    var s1, s3 := Shape(headers, rows[0]), Shape(headers, rows[2]);
    var p1, p2 := rows[..1], rows[..2];
    assert p1[..0] == [] && p1[0] == rows[0];
    assert Records(headers, p1) == [s1];
    assert p2[..1] == p1 && p2[1] == rows[1];
    assert Records(headers, p2) == [s1];
    assert rows[..2] == p2;
  }

  /** The unit test's file: two of its three rows are kept; the first has
      id "1" and price 19.99, the second status "deleted". */
  lemma GetRecordsExample()
    ensures var rs := Records(TestHeaders, [TestRow1, TestRow2, TestRow3]);
      |rs| == 2 && rs[0].id == Some("1") && rs[0].price == 19.99 && rs[1].status == Some("deleted")
  {
    RecordsOfThree(TestHeaders, [TestRow1, TestRow2, TestRow3]);
    TestShapes();
  }

  /** The fields the unit test checks, read from its two kept rows. */
  lemma TestShapes()
    ensures Shape(TestHeaders, TestRow1).id == Some("1")
    ensures Shape(TestHeaders, TestRow1).price == 19.99
    ensures Shape(TestHeaders, TestRow3).status == Some("deleted")
  {
    TestColumns();
    TestPrice();
  }
}
