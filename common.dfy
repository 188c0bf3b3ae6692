/** Small value-level helpers shared by the whole model: an Option type,
    ASCII upper-casing (PHP's strtoupper), single-character replacement
    (str_replace with one-character needles), order-preserving
    de-duplication (array_values(array_unique(...))) and decimal text. */
module Common {

  datatype Option<+T> = None | Some(value: T) {
    function GetOr(default: T): T {
      match this
      case Some(v) => v
      case None => default
    }
  }

  /** What PHP's json_decode(text, true) yields, as the callers in this
      model tell the cases apart: `null` (invalid text or the literal null),
      a bool or number scalar with its truthiness, a string with its text,
      the empty array, a non-empty array that is not of the expected shape
      (reading it raises an error), or a document of the expected shape. */
  datatype Decoded<+T> = Null | Scalar(truthy: bool) | Text(text: string) | EmptyArray | Malformed | Value(value: T)

  // ---------------------------------------------------------------- text

  /** PHP truthiness of a string: everything except "" and "0" is true. */
  predicate StringTruthy(s: string) {
    s != "" && s != "0"
  }

  function UpperChar(c: char): (u: char)
    ensures 'a' <= c <= 'z' ==> u as int == c as int - 32
    ensures !('a' <= c <= 'z') ==> u == c
    ensures !('a' <= u <= 'z')
  {
    if 'a' <= c <= 'z' then (c as int - 32) as char else c
  }

  /** strtoupper: ASCII letters are upper-cased, every other character is kept. */
  function Upper(s: string): (r: string)
    ensures |r| == |s|
  {
    if s == [] then [] else [UpperChar(s[0])] + Upper(s[1..])
  }

  lemma {:induction false} UpperAt(s: string)
    ensures forall i :: 0 <= i < |s| ==> Upper(s)[i] == UpperChar(s[i])
  {
    if s != [] {
      UpperAt(s[1..]);
    }
  }

  /** str_replace(from, to, s) for one-character needle and replacement. */
  function ReplaceChar(s: string, from: char, to: char): (r: string)
    ensures |r| == |s|
  {
    if s == [] then [] else [if s[0] == from then to else s[0]] + ReplaceChar(s[1..], from, to)
  }

  lemma {:induction false} ReplaceCharAt(s: string, from: char, to: char)
    ensures forall i :: 0 <= i < |s| ==> ReplaceChar(s, from, to)[i] == (if s[i] == from then to else s[i])
  {
    if s != [] {
      ReplaceCharAt(s[1..], from, to);
    }
  }

  function DigitChar(d: nat): (c: char)
    requires d < 10
    ensures '0' <= c <= '9'
  {
    ('0' as int + d) as char
  }

  function NatToText(n: nat): (s: string)
    ensures |s| >= 1
    ensures forall i :: 0 <= i < |s| ==> '0' <= s[i] <= '9'
    decreases n
  {
    if n < 10 then [DigitChar(n)] else NatToText(n / 10) + [DigitChar(n % 10)]
  }

  /** PHP's conversion of an int to its decimal text. */
  function IntToText(i: int): (s: string)
    ensures |s| >= 1
    ensures i < 0 <==> s[0] == '-'
  {
    if i < 0 then "-" + NatToText(-i) else NatToText(i)
  }

  predicate IsDigit(c: char) { '0' <= c <= '9' }

  predicate AllDigits(s: string) { forall i :: 0 <= i < |s| ==> IsDigit(s[i]) }

  function DigitsValue(s: string): (n: nat)
    requires forall i :: 0 <= i < |s| ==> IsDigit(s[i])
  {
    if s == [] then 0
    else
      assert IsDigit(s[|s| - 1]);
      DigitsValue(s[..|s| - 1]) * 10 + (s[|s| - 1] as int - '0' as int)
  }

  /** Reading decimal text back: an optional '-' followed by at least one digit. */
  function ParseInt(s: string): (r: Option<int>)
    ensures r.Some? ==> |s| >= 1
  {
    if |s| >= 2 && s[0] == '-' && AllDigits(s[1..]) then
      Some(0 - DigitsValue(s[1..]) as int)
    else if |s| >= 1 && AllDigits(s) then
      Some(DigitsValue(s))
    else
      None
  }

  lemma {:induction false} DigitsValueOfNatToText(n: nat)
    ensures DigitsValue(NatToText(n)) == n
    decreases n
  {
    var s := NatToText(n);
    if n >= 10 {
      DigitsValueOfNatToText(n / 10);
      assert s[..|s| - 1] == NatToText(n / 10);
    }
  }

  /** The text of a natural reads back as that natural. */
  lemma NatTextRoundTrip(n: nat)
    ensures ParseInt(NatToText(n)) == Some(n)
  {
    var t := NatToText(n);
    DigitsValueOfNatToText(n);
    assert t[0] != '-' && AllDigits(t);
  }

  /** A minus sign before the text of a natural reads back as its negation. */
  lemma NegTextRoundTrip(n: nat)
    ensures ParseInt("-" + NatToText(n)) == Some(-(n as int))
  {
    var t := NatToText(n);
    DigitsValueOfNatToText(n);
    assert ("-" + t)[1..] == t && AllDigits(t);
  }

  /** Decimal text round trip: reading back the text of an int gives the int. */
  lemma IntTextRoundTrip(i: int)
    ensures ParseInt(IntToText(i)) == Some(i)
  {
    if i < 0 {
      NegTextRoundTrip(-i);
    } else {
      NatTextRoundTrip(i);
    }
  }

  // ------------------------------------------------------ de-duplication

  predicate NoDup<T(==)>(s: seq<T>) {
    forall i, j :: 0 <= i < j < |s| ==> s[i] != s[j]
  }

  /** array_values(array_unique(s)): each element once, at its first occurrence.
      Defined from the back so that appending one element is one step. */
  function Dedup<T(==,!new)>(s: seq<T>): (d: seq<T>)
    ensures forall x :: x in d <==> x in s
    ensures NoDup(d)
    decreases |s|
  {
    if s == [] then []
    else
      var d0 := Dedup(s[..|s| - 1]);
      if s[|s| - 1] in d0 then d0 else d0 + [s[|s| - 1]]
  }

  lemma DedupAppend<T(!new)>(s: seq<T>, x: T)
    ensures Dedup(s + [x]) == if x in Dedup(s) then Dedup(s) else Dedup(s) + [x]
  {
    assert (s + [x])[..|s + [x]| - 1] == s;
  }

  /** The de-duplicated list keeps first-occurrence order: an earlier element
      of the result occurs in the input before any occurrence of a later one. */
  lemma {:induction false} DedupOrder<T(!new)>(s: seq<T>)
    ensures forall i, j, k :: 0 <= i < j < |Dedup(s)| && 0 <= k < |s| && s[k] == Dedup(s)[j] ==>
      Dedup(s)[i] in s[..k]
  {
    forall i, j, k | 0 <= i < j < |Dedup(s)| && 0 <= k < |s| && s[k] == Dedup(s)[j]
      ensures Dedup(s)[i] in s[..k]
    {
      DedupOrderAt(s, i, j, k);
    }
  }

  /** DedupOrder for one pair of listed elements and one occurrence. */
  lemma {:induction false} DedupOrderAt<T(!new)>(s: seq<T>, i: int, j: int, k: int)
    requires 0 <= i < j < |Dedup(s)| && 0 <= k < |s| && s[k] == Dedup(s)[j]
    ensures Dedup(s)[i] in s[..k]
    decreases |s|
  {
    var p, x := s[..|s| - 1], s[|s| - 1];
    var d0 := Dedup(p);
    assert Dedup(s) == if x in d0 then d0 else d0 + [x];
    assert i < |d0| && Dedup(s)[i] == d0[i];
    if k < |p| {
      assert p[k] == s[k] && s[k] in p;
      assert j < |d0| && Dedup(s)[j] == d0[j];
      DedupOrderAt(p, i, j, k);
      assert p[..k] == s[..k];
    } else {
      assert s[..k] == p;
    }
  }

  /** Dedup keeps a list that is already duplicate-free. */
  lemma {:induction false} DedupOfNoDup<T(!new)>(s: seq<T>)
    requires NoDup(s)
    ensures Dedup(s) == s
    decreases |s|
  {
    if s != [] {
      var p := s[..|s| - 1];
      DedupOfNoDup(p);
      assert s[|s| - 1] !in p;
      assert p + [s[|s| - 1]] == s;
    }
  }
}
