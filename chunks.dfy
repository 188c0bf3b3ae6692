/** Cutting the record stream into chunks as the import commands do: a
    chunk is flushed as soon as it holds `n` records, and what is left is
    flushed at the end. */
module Chunking {
  /** The chunks one after the other. */
  function Flatten<T>(cs: seq<seq<T>>): (xs: seq<T>)
    decreases |cs|
  {
    if cs == [] then [] else cs[0] + Flatten(cs[1..])
  }

  /** The chunks of `xs` with `n` records each, the last one possibly shorter. */
  function Chunks<T>(xs: seq<T>, n: nat): seq<seq<T>>
    requires n >= 1
    decreases |xs|
  {
    if xs == [] then []
    else if |xs| <= n then [xs]
    else [xs[..n]] + Chunks(xs[n..], n)
  }

  /** Every chunk but the last holds exactly `n` records; the last holds
      between 1 and `n`. */
  predicate ChunkShape<T>(cs: seq<seq<T>>, n: nat) {
    && (forall k :: 0 <= k < |cs| - 1 ==> |cs[k]| == n)
    && (cs != [] ==> 1 <= |cs[|cs| - 1]| <= n)
  }

  lemma {:induction false} FlattenSnoc<T>(cs: seq<seq<T>>, c: seq<T>)
    ensures Flatten(cs + [c]) == Flatten(cs) + c
    decreases |cs|
  {
    if cs == [] {
      assert [c][1..] == [];
    } else {
      assert (cs + [c])[1..] == cs[1..] + [c];
      FlattenSnoc(cs[1..], c);
    }
  }

  /** A record of the flattened chunks sits in one of the chunks. */
  lemma {:induction false} FlattenMember<T>(cs: seq<seq<T>>, x: T)
    requires x in Flatten(cs)
    ensures exists k :: 0 <= k < |cs| && x in cs[k]
    decreases |cs|
  {
    if x !in cs[0] {
      FlattenMember(cs[1..], x);
      var k :| 0 <= k < |cs[1..]| && x in cs[1..][k];
      assert cs[k + 1] == cs[1..][k];
    }
  }

  /** Every record lands in the chunks exactly once, in input order. */
  lemma {:induction false} ChunksFlatten<T>(xs: seq<T>, n: nat)
    requires n >= 1
    ensures Flatten(Chunks(xs, n)) == xs
    decreases |xs|
  {
    if xs != [] {
      if |xs| <= n {
        assert Flatten(Chunks(xs, n)) == xs + Flatten([]);
      } else {
        ChunksFlatten(xs[n..], n);
        assert Chunks(xs, n)[1..] == Chunks(xs[n..], n);
        assert xs == xs[..n] + xs[n..];
      }
    }
  }

  /** Every chunk is full except the last, which is not empty. */
  lemma {:induction false} ChunksShape<T>(xs: seq<T>, n: nat)
    requires n >= 1
    ensures ChunkShape(Chunks(xs, n), n)
    decreases |xs|
  {
    if |xs| > n {
      var rest := Chunks(xs[n..], n);
      ChunksShape(xs[n..], n);
      assert Chunks(xs, n) == [xs[..n]] + rest;
      assert rest != [];
    }
  }

  /** A multiple of `n` smaller than `n` in magnitude is zero. */
  lemma MultipleBelow(k: int, n: int, d: int)
    requires n >= 1 && k * n == d && -n < d < n
    ensures k == 0
  {
  }

  /** (a + n) / n is one more than a / n. */
  lemma DivStep(a: nat, n: nat)
    requires n >= 1
    ensures (a + n) / n == a / n + 1
  {
    var q, r := a / n, a % n;
    var q', r' := (a + n) / n, (a + n) % n;
    assert a == q * n + r && 0 <= r < n;
    assert a + n == q' * n + r' && 0 <= r' < n;
    assert (q' - q - 1) * n == q' * n - q * n - n;
    MultipleBelow(q' - q - 1, n, r - r');
  }

  /** A natural below `n` is less than one `n`. */
  lemma DivSmall(a: nat, n: nat)
    requires n >= 1 && a < n
    ensures a / n == 0
  {
    var q, r := a / n, a % n;
    assert a == q * n + r && 0 <= r < n;
    MultipleBelow(q, n, a - r);
  }

  /** There are ceil(|xs| / n) chunks. */
  lemma {:induction false} ChunksCount<T>(xs: seq<T>, n: nat)
    requires n >= 1
    ensures |Chunks(xs, n)| == (|xs| + n - 1) / n
    decreases |xs|
  {
    var m := |xs|;
    if xs == [] {
      DivSmall(n - 1, n);
    } else if m <= n {
      assert |Chunks(xs, n)| == 1;
      DivSmall(m - 1, n);
      DivStep(m - 1, n);
      assert (m - 1) + n == m + n - 1;
    } else {
      var rest := xs[n..];
      ChunksCount(rest, n);
      assert |Chunks(xs, n)| == 1 + |Chunks(rest, n)|;
      assert |rest| + n - 1 == m - 1;
      DivStep(m - 1, n);
      assert (m - 1) + n == m + n - 1;
    }
  }

  lemma {:induction false} FlattenNonEmpty<T>(cs: seq<seq<T>>)
    requires cs != [] && cs[|cs| - 1] != []
    ensures |Flatten(cs)| >= 1
    decreases |cs|
  {
    if cs[0] == [] {
      FlattenNonEmpty(cs[1..]);
    }
  }

  /** Any cut of `xs` of that shape is the one above: chunking is
      determined by `n` alone. */
  lemma {:induction false} ChunksUnique<T>(cs: seq<seq<T>>, n: nat)
    requires n >= 1 && ChunkShape(cs, n)
    ensures cs == Chunks(Flatten(cs), n)
    decreases |cs|
  {
    if cs != [] {
      var xs := Flatten(cs);
      if |cs| == 1 {
        assert cs[1..] == [];
        assert xs == cs[0] + Flatten(cs[1..]) == cs[0];
        assert cs == [cs[0]];
      } else {
        var tail := cs[1..];
        assert |cs[0]| == n;
        assert tail[|tail| - 1] == cs[|cs| - 1];
        FlattenNonEmpty(tail);
        assert ChunkShape(tail, n) by {
          forall k | 0 <= k < |tail| - 1 ensures |tail[k]| == n {
            assert tail[k] == cs[k + 1];
          }
        }
        ChunksUnique(tail, n);
        assert xs[..n] == cs[0] && xs[n..] == Flatten(tail);
        assert cs == [cs[0]] + tail;
      }
    }
  }

  /** Full chunks followed by the chunks of the rest are the chunks of
      the whole. */
  lemma {:induction false} ChunksAfterFull<T>(done: seq<seq<T>>, rest: seq<T>, n: nat)
    requires n >= 1 && forall k :: 0 <= k < |done| ==> |done[k]| == n
    ensures Chunks(Flatten(done) + rest, n) == done + Chunks(rest, n)
    decreases |done|
  {
    if done == [] {
      assert Flatten(done) + rest == rest;
    } else {
      var xs := Flatten(done) + rest;
      var tail := Flatten(done[1..]) + rest;
      assert xs == done[0] + tail;
      ChunksAfterFull(done[1..], rest, n);
      if tail == [] {
        assert Chunks(rest, n) == [] && done[1..] == [];
        assert xs == done[0];
      } else {
        assert xs[..n] == done[0] && xs[n..] == tail;
      }
      assert done == [done[0]] + done[1..];
    }
  }
}
