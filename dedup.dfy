/**
  Exact deduplication (`drop_duplicates` with its default keep-first policy):
  a row that equals an earlier row in every column is dropped.  It is generic
  in the element type, so the same definition serves for whole rows and for
  key columns.
 */
module Dedup {
  import opened Table

  /** The first occurrence of every element, in the order of first occurrence. */
  function DropDuplicates<T(==,!new)>(t: seq<T>): (d: seq<T>)
    ensures Distinct(d)
    ensures forall x :: x in d <==> x in t
    decreases |t|
  {
    if |t| == 0 then []
    else
      var init := t[..|t| - 1];
      var last := t[|t| - 1];
      var p := DropDuplicates(init);
      assert forall x :: x in t <==> x in init || x == last by {
        assert t == init + [last];
      }
      if last in init then p else p + [last]
  }

  /** Position of the first occurrence of `x` in `s`. */
  function FirstIndex<T(==)>(s: seq<T>, x: T): (i: nat)
    requires x in s
    ensures i < |s| && s[i] == x && x !in s[..i]
  {
    if s[0] == x then 0
    else
      assert x in s[1..] by { assert s == [s[0]] + s[1..]; }
      var j := FirstIndex(s[1..], x);
      assert s[..j + 1] == [s[0]] + s[1..][..j];
      1 + j
  }

  lemma FirstIndexUnique<T>(s: seq<T>, x: T, i: nat)
    requires i < |s| && s[i] == x && x !in s[..i]
    ensures FirstIndex(s, x) == i
  {
  }

  lemma FirstIndexPrefix<T>(s: seq<T>, n: nat, x: T)
    requires n <= |s| && x in s[..n]
    ensures FirstIndex(s, x) == FirstIndex(s[..n], x)
  {
    var i := FirstIndex(s[..n], x);
    assert s[..n][..i] == s[..i];
    FirstIndexUnique(s, x, i);
  }

  /**
    The kept rows are the first occurrences, in their original order: kept
    row i stands before kept row j exactly when its first occurrence does.
   */
  lemma {:induction false} DropDuplicatesKeepsFirstInOrder<T(!new)>(t: seq<T>, i: nat, j: nat)
    requires i < j < |DropDuplicates(t)|
    ensures FirstIndex(t, DropDuplicates(t)[i]) < FirstIndex(t, DropDuplicates(t)[j])
    decreases |t|
  {
    var d := DropDuplicates(t);
    var n := |t|;
    var init := t[..n - 1];
    var last := t[n - 1];
    var p := DropDuplicates(init);
    assert init == t[..n - 1];
    if j < |p| {
      DropDuplicatesKeepsFirstInOrder(init, i, j);
      assert d[i] == p[i] && d[j] == p[j];
      FirstIndexPrefix(t, n - 1, p[i]);
      FirstIndexPrefix(t, n - 1, p[j]);
    } else {
      assert last !in init && d[j] == last && d[i] == p[i];
      FirstIndexUnique(t, last, n - 1);
      FirstIndexPrefix(t, n - 1, p[i]);
    }
  }

  /** Every row that occurs in the input occurs exactly once in the output. */
  lemma DropDuplicatesExactlyOnce<T(!new)>(t: seq<T>, x: T)
    requires x in t
    ensures Count(DropDuplicates(t), x) == 1
  {
    DistinctCountAtMostOne(DropDuplicates(t), x);
  }

  /** A frame without repeated rows is returned unchanged. */
  lemma {:induction false} DropDuplicatesOfDistinct<T(!new)>(t: seq<T>)
    requires Distinct(t)
    ensures DropDuplicates(t) == t
    decreases |t|
  {
    if |t| > 0 {
      var init := t[..|t| - 1];
      assert Distinct(init);
      DropDuplicatesOfDistinct(init);
      assert t[|t| - 1] !in init;
      assert t == init + [t[|t| - 1]];
    }
  }

  /** Deduplicating twice changes nothing. */
  lemma DropDuplicatesIdempotent<T(!new)>(t: seq<T>)
    ensures DropDuplicates(DropDuplicates(t)) == DropDuplicates(t)
  {
    DropDuplicatesOfDistinct(DropDuplicates(t));
  }

  /** As many rows are kept as there are distinct rows. */
  lemma DropDuplicatesSize<T(!new)>(t: seq<T>)
    ensures |DropDuplicates(t)| == |Elems(t)|
  {
    DistinctCard(DropDuplicates(t));
    assert Elems(DropDuplicates(t)) == Elems(t);
  }
}
