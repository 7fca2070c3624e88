/** The iteration order of a JavaScript `Set` built from a sequence: each
    distinct value once, in the order of its first occurrence. Values are
    compared by SameValueZero, which for the values of this model is `==`. */
module JsSet {

  predicate NoDuplicates<T(==)>(s: seq<T>) {
    forall i, j | 0 <= i < j < |s| :: s[i] != s[j]
  }

  /** `Array.from(new Set(xs))`. */
  function Distinct<T(==)>(xs: seq<T>): (r: seq<T>)
    ensures forall x | x in xs :: x in r
    ensures forall x | x in r :: x in xs
    ensures NoDuplicates(r)
    ensures |r| <= |xs|
  {
    if xs == [] then []
    else
      var d := Distinct(xs[..|xs| - 1]);
      assert forall x | x in xs :: x in xs[..|xs| - 1] || x == xs[|xs| - 1];
      if xs[|xs| - 1] in d then d else d + [xs[|xs| - 1]]
  }

  /** The index of the first occurrence of `x` in `xs`. */
  function FirstIndex<T(==)>(xs: seq<T>, x: T): (k: nat)
    requires x in xs
    ensures k < |xs| && xs[k] == x
    ensures forall j | 0 <= j < k :: xs[j] != x
  {
    if xs[0] == x then 0 else 1 + FirstIndex(xs[1..], x)
  }

  /** Extending a sequence does not move the first occurrence of a value it
      already holds. */
  lemma {:induction false} FirstIndexOfPrefix<T>(xs: seq<T>, n: nat, x: T)
    requires n <= |xs| && x in xs[..n]
    ensures FirstIndex(xs, x) == FirstIndex(xs[..n], x)
  {
    assert xs[..n][0] == xs[0];
    if xs[0] != x {
      assert xs[..n][1..] == xs[1..][..n - 1];
      FirstIndexOfPrefix(xs[1..], n - 1, x);
    }
  }

  /** The Set iterates its values in order of their first occurrence in `xs`. */
  lemma {:induction false} DistinctInFirstOccurrenceOrder<T>(xs: seq<T>)
    ensures forall i, j | 0 <= i < j < |Distinct(xs)| ::
      FirstIndex(xs, Distinct(xs)[i]) < FirstIndex(xs, Distinct(xs)[j])
  {
    if xs != [] {
      var n := |xs| - 1;
      var p := xs[..n];
      var d := Distinct(p);
      DistinctInFirstOccurrenceOrder(p);
      assert xs[..n] == p;
      forall y | y in d ensures FirstIndex(xs, y) == FirstIndex(p, y) && FirstIndex(xs, y) < n {
        FirstIndexOfPrefix(xs, n, y);
      }
      if xs[n] !in d {
        assert FirstIndex(xs, xs[n]) == n;
      }
    }
  }

  /** A sequence without duplicates has as many elements as the set of them. */
  lemma {:induction false} NoDuplicatesCardinality<T>(s: seq<T>)
    requires NoDuplicates(s)
    ensures |set x | x in s| == |s|
  {
    if s != [] {
      var p := s[..|s| - 1];
      NoDuplicatesCardinality(p);
      assert (set x | x in s) == (set x | x in p) + {s[|s| - 1]};
      assert s[|s| - 1] !in p;
    }
  }

  /** `new Set(xs).size` is the number of distinct values in `xs`. */
  lemma DistinctSize<T>(xs: seq<T>)
    ensures |Distinct(xs)| == |set x | x in xs|
  {
    NoDuplicatesCardinality(Distinct(xs));
    assert (set x | x in Distinct(xs)) == (set x | x in xs);
  }
}
