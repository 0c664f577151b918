/**
  An insertion-ordered set without duplicates, kept as a sequence: the
  index of transformed entry names.
 */
module OrderedSets {

  predicate NoDuplicates<T(==)>(s: seq<T>) {
    forall i, j :: 0 <= i < j < |s| ==> s[i] != s[j]
  }

  /** Adding an element already present changes nothing; a new one goes at the end. */
  function Add<T(==,!new)>(s: seq<T>, x: T): (r: seq<T>)
    ensures NoDuplicates(s) ==> NoDuplicates(r)
    ensures x in s ==> r == s
    ensures x !in s ==> r == s + [x]
    ensures forall y :: y in r <==> y in s || y == x
  {
    if x in s then s else s + [x]
  }

  /** The ordered set built by adding the elements of `xs` one by one, in order. */
  function Dedup<T(==,!new)>(xs: seq<T>): (r: seq<T>)
    ensures NoDuplicates(r)
    ensures forall y :: y in r <==> y in xs
    ensures |r| <= |xs|
    decreases |xs|
  {
    if xs == [] then [] else Add(Dedup(xs[..|xs| - 1]), xs[|xs| - 1])
  }

  /**
    The elements of `r` stand in the order in which they first occur in `xs`:
    wherever a later element of `r` occurs in `xs`, an earlier one has
    already occurred before it.
   */
  ghost predicate InFirstOccurrenceOrder<T(!new)>(xs: seq<T>, r: seq<T>) {
    forall i, j, q :: 0 <= i < j < |r| && 0 <= q < |xs| && xs[q] == r[j] ==> r[i] in xs[..q]
  }

  lemma OrderAfterAdd<T(!new)>(init: seq<T>, y: T)
    requires InFirstOccurrenceOrder(init, Dedup(init))
    ensures InFirstOccurrenceOrder(init + [y], Dedup(init + [y]))
  {
    var xs, d := init + [y], Dedup(init);
    assert xs[..|init|] == init;
    assert Dedup(xs) == Add(d, y);
    var r := Dedup(xs);
    forall i, j, q | 0 <= i < j < |r| && 0 <= q < |xs| && xs[q] == r[j]
      ensures r[i] in xs[..q]
    {
      if q < |init| {
        assert xs[q] == init[q];
        assert xs[..q] == init[..q];
        assert r[i] == d[i] && r[j] == d[j];
      } else {
        assert r[i] in d;
      }
    }
  }

  /** The ordered set keeps its elements in the order of their first insertion. */
  lemma {:induction false} DedupKeepsFirstInsertionOrder<T(!new)>(xs: seq<T>)
    ensures InFirstOccurrenceOrder(xs, Dedup(xs))
    decreases |xs|
  {
    if xs != [] {
      var init := xs[..|xs| - 1];
      assert xs == init + [xs[|xs| - 1]];
      DedupKeepsFirstInsertionOrder(init);
      OrderAfterAdd(init, xs[|xs| - 1]);
    }
  }

  /** The ordered set is empty exactly when nothing was ever added. */
  lemma DedupEmpty<T(!new)>(xs: seq<T>)
    ensures Dedup(xs) == [] <==> xs == []
  {
    if xs != [] {
      assert xs[0] in xs;
    }
  }
}
