/**
  Median imputation: every column that holds at least one NaN has its NaN
  cells replaced by the column's median (`fillna(df[feature].median())`), one
  column after the other.  The median skips NaN, averages the two middle values
  of an even count, and is NaN for a column with no number at all.  A text
  column with NaN makes pandas' median raise, which aborts the stage.
  Only NaN/None counts as missing here: "-" and "--" are ordinary text.
 */
module Imputation {
  import opened Table

  predicate Sorted(s: seq<real>)
  {
    forall i, j :: 0 <= i < j < |s| ==> s[i] <= s[j]
  }

  function Insert(x: real, s: seq<real>): (r: seq<real>)
    requires Sorted(s)
    ensures Sorted(r) && multiset(r) == multiset(s) + multiset{x}
    ensures |r| == |s| + 1 && (r[0] == x || (|s| > 0 && r[0] == s[0]))
  {
    if |s| == 0 then [x]
    else if x <= s[0] then [x] + s
    else
      var rest := Insert(x, s[1..]);
      assert s == [s[0]] + s[1..];
      assert s[0] <= rest[0];
      var r := [s[0]] + rest;
      assert forall j :: 0 < j < |r| ==> r[j] == rest[j - 1] && rest[0] <= rest[j - 1];
      r
  }

  function Sort(s: seq<real>): (r: seq<real>)
    ensures Sorted(r) && multiset(r) == multiset(s)
  {
    if |s| == 0 then []
    else
      assert s == [s[0]] + s[1..];
      Insert(s[0], Sort(s[1..]))
  }

  /** Number of values strictly below `m`. */
  function CountBelow(s: seq<real>, m: real): nat
  {
    if |s| == 0 then 0 else (if s[0] < m then 1 else 0) + CountBelow(s[1..], m)
  }

  /** Number of values strictly above `m`. */
  function CountAbove(s: seq<real>, m: real): nat
  {
    if |s| == 0 then 0 else (if s[0] > m then 1 else 0) + CountAbove(s[1..], m)
  }

  lemma {:induction false} CountsInsert(x: real, s: seq<real>, m: real)
    requires Sorted(s)
    ensures CountBelow(Insert(x, s), m) == CountBelow([x], m) + CountBelow(s, m)
    ensures CountAbove(Insert(x, s), m) == CountAbove([x], m) + CountAbove(s, m)
  {
    if |s| > 0 {
      var rest := s[1..];
      if x > s[0] {
        assert Sorted(rest);
        CountsInsert(x, rest, m);
        assert Insert(x, s) == [s[0]] + Insert(x, rest);
        CountsCons(s[0], Insert(x, rest), m);
        assert s == [s[0]] + rest;
        CountsCons(s[0], rest, m);
      } else {
        assert Insert(x, s) == [x] + s;
        CountsCons(x, s, m);
      }
    }
  }

  lemma CountsCons(a: real, r: seq<real>, m: real)
    ensures CountBelow([a] + r, m) == CountBelow([a], m) + CountBelow(r, m)
    ensures CountAbove([a] + r, m) == CountAbove([a], m) + CountAbove(r, m)
  {
    assert ([a] + r)[1..] == r;
    assert [a][1..] == [];
  }

  lemma {:induction false} CountsSort(s: seq<real>, m: real)
    ensures CountBelow(Sort(s), m) == CountBelow(s, m)
    ensures CountAbove(Sort(s), m) == CountAbove(s, m)
  {
    if |s| > 0 {
      CountsSort(s[1..], m);
      CountsInsert(s[0], Sort(s[1..]), m);
    }
  }

  lemma {:induction false} CountBelowSorted(s: seq<real>, m: real, k: nat)
    requires Sorted(s) && k <= |s|
    requires forall i :: k <= i < |s| ==> s[i] >= m
    ensures CountBelow(s, m) <= k
  {
    if |s| > 0 {
      CountBelowSorted(s[1..], m, if k == 0 then 0 else k - 1);
    }
  }

  lemma {:induction false} CountAboveSorted(s: seq<real>, m: real, k: nat)
    requires Sorted(s) && k <= |s|
    requires forall i :: 0 <= i < k ==> s[i] <= m
    ensures CountAbove(s, m) <= |s| - k
  {
    if |s| > 0 {
      CountAboveSorted(s[1..], m, if k == 0 then 0 else k - 1);
    }
  }

  /** The middle value of a sorted sequence, or the mean of the two middle values. */
  function Middle(s: seq<real>): real
    requires |s| > 0
  {
    var n := |s|;
    if n % 2 == 1 then s[n / 2] else (s[n / 2 - 1] + s[n / 2]) / 2.0
  }

  lemma MiddleSplitsSorted(s: seq<real>)
    requires |s| > 0 && Sorted(s)
    ensures CountBelow(s, Middle(s)) <= |s| / 2 && CountAbove(s, Middle(s)) <= |s| / 2
  {
    var n := |s|;
    var m := Middle(s);
    if n % 2 == 1 {
      CountBelowSorted(s, m, n / 2);
      CountAboveSorted(s, m, n / 2 + 1);
    } else {
      CountBelowSorted(s, m, n / 2);
      CountAboveSorted(s, m, n / 2);
    }
  }

  /**
    `median` of the numbers: at most half of the values lie strictly below it
    and at most half strictly above.
   */
  function Median(xs: seq<real>): (m: real)
    requires |xs| > 0
    ensures CountBelow(xs, m) <= |xs| / 2 && CountAbove(xs, m) <= |xs| / 2
  {
    var s := Sort(xs);
    assert |s| == |xs| by { assert |multiset(s)| == |multiset(xs)|; }
    MiddleSplitsSorted(s);
    CountsSort(xs, Middle(s));
    Middle(s)
  }

  /** Two sorted orderings of the same values are the same sequence. */
  lemma {:induction false} SortedPermutationUnique(p: seq<real>, q: seq<real>)
    requires Sorted(p) && Sorted(q) && multiset(p) == multiset(q)
    ensures p == q
  {
    assert |p| == |multiset(p)| == |multiset(q)| == |q|;
    if |p| > 0 {
      SameLeast(p, q);
      SortedTail(p);
      SortedTail(q);
      SortedPermutationUnique(p[1..], q[1..]);
      assert p == [p[0]] + p[1..] && q == [q[0]] + q[1..];
    }
  }

  /** Two sorted orderings of the same values start alike, and so hold the same rest. */
  lemma SameLeast(p: seq<real>, q: seq<real>)
    requires Sorted(p) && Sorted(q) && multiset(p) == multiset(q) && |p| > 0 && |q| > 0
    ensures p[0] == q[0] && multiset(p[1..]) == multiset(q[1..])
  {
    assert p[0] in multiset(q) && q[0] in multiset(p);
    var j :| 0 <= j < |q| && q[j] == p[0];
    var k :| 0 <= k < |p| && p[k] == q[0];
    assert q[0] <= q[j] && p[0] <= p[k];
    TailMultiset(p);
    TailMultiset(q);
  }

  lemma TailMultiset(p: seq<real>)
    requires |p| > 0
    ensures multiset(p[1..]) == multiset(p) - multiset{p[0]}
  {
    assert p == [p[0]] + p[1..];
  }

  lemma SortedTail(p: seq<real>)
    requires Sorted(p) && |p| > 0
    ensures Sorted(p[1..])
  {
    forall i, j | 0 <= i < j < |p| - 1 ensures p[1..][i] <= p[1..][j] {
      assert p[1..][i] == p[i + 1] && p[1..][j] == p[j + 1];
    }
  }

  /**
    The median is the middle of any sorted ordering of the values: for an odd
    count the middle value, for an even count the mean of the two middle ones.
   */
  lemma MedianOfSortedPermutation(xs: seq<real>, p: seq<real>)
    requires |xs| > 0 && Sorted(p) && multiset(p) == multiset(xs)
    ensures |p| == |xs| && Median(xs) == Middle(p)
  {
    assert |p| == |multiset(p)| == |multiset(xs)| == |xs|;
    SortedPermutationUnique(Sort(xs), p);
  }

  /** The numbers of a column, NaN skipped. */
  function Numbers(cells: seq<Cell>): (xs: seq<real>)
    ensures forall x :: x in xs <==> Num(x) in cells
  {
    if |cells| == 0 then []
    else
      assert cells == [cells[0]] + cells[1..];
      (if cells[0].Num? then [cells[0].value] else []) + Numbers(cells[1..])
  }

  predicate HasNA(cells: seq<Cell>)
  {
    exists i :: 0 <= i < |cells| && IsNA(cells[i])
  }

  predicate HasText(cells: seq<Cell>)
  {
    exists i :: 0 <= i < |cells| && cells[i].Str?
  }

  /** `df[c].median()`: NaN when the column holds no number. */
  function ColumnMedian(t: seq<Row>, c: Column): Cell
  {
    var xs := Numbers(ColumnCells(t, c));
    if |xs| == 0 then Missing else Num(Median(xs))
  }

  /** `[feature for feature in df if df[feature].isna().sum() > 0]` */
  function NAColumns(columns: seq<Column>, t: seq<Row>): (r: seq<Column>)
    ensures forall c :: c in r <==> c in columns && HasNA(ColumnCells(t, c))
    ensures Distinct(columns) ==> Distinct(r)
  {
    if |columns| == 0 then []
    else
      var rest := NAColumns(columns[1..], t);
      assert forall c :: c in columns <==> c == columns[0] || c in columns[1..] by {
        assert columns == [columns[0]] + columns[1..];
      }
      if HasNA(ColumnCells(t, columns[0])) then
        assert Distinct(columns) ==> columns[0] !in columns[1..] && Distinct(columns[1..]) by {
          if Distinct(columns) {
            forall i, j | 0 <= i < j < |columns| - 1 ensures columns[1..][i] != columns[1..][j] {
              assert columns[1..][i] == columns[i + 1] && columns[1..][j] == columns[j + 1];
            }
          }
        }
        [columns[0]] + rest
      else
        assert Distinct(columns) ==> Distinct(columns[1..]) by {
          if Distinct(columns) {
            forall i, j | 0 <= i < j < |columns| - 1 ensures columns[1..][i] != columns[1..][j] {
              assert columns[1..][i] == columns[i + 1] && columns[1..][j] == columns[j + 1];
            }
          }
        }
        rest
  }

  /** `df[c].fillna(v)`: every NaN cell of column `c` becomes `v`. */
  function FillNA(t: seq<Row>, c: Column, v: Cell): (r: seq<Row>)
    ensures |r| == |t|
    ensures forall i, d :: 0 <= i < |t| ==>
      Get(r[i], d) == if d == c && IsNA(Get(t[i], c)) then v else Get(t[i], d)
    ensures forall i :: 0 <= i < |t| && c in t[i] ==> r[i].Keys == t[i].Keys
  {
    seq(|t|, i requires 0 <= i < |t| => if IsNA(Get(t[i], c)) then t[i][c := v] else t[i])
  }

  datatype ImputeError = MedianOfText(column: Column)

  /** The value the imputation gives to cell (i, c). */
  function Imputed(columns: seq<Column>, t: seq<Row>, i: nat, c: Column): Cell
    requires i < |t|
  {
    if c in columns && IsNA(Get(t[i], c)) then ColumnMedian(t, c) else Get(t[i], c)
  }

  /** `df` is `t` with the columns `done` imputed. */
  ghost predicate ImputedUpTo(t: seq<Row>, df: seq<Row>, done: seq<Column>)
  {
    && |df| == |t|
    && forall i, c :: 0 <= i < |t| ==>
         Get(df[i], c) == if c in done && IsNA(Get(t[i], c)) then ColumnMedian(t, c) else Get(t[i], c)
  }

  /** A column not yet imputed still holds its original cells. */
  lemma UntouchedColumn(t: seq<Row>, df: seq<Row>, done: seq<Column>, f: Column)
    requires ImputedUpTo(t, df, done) && f !in done
    ensures ColumnCells(df, f) == ColumnCells(t, f)
  {
  }

  /** Filling one more column with its median extends the imputed part by it. */
  lemma FillStep(t: seq<Row>, df: seq<Row>, done: seq<Column>, f: Column)
    requires ImputedUpTo(t, df, done)
    ensures ImputedUpTo(t, FillNA(df, f, ColumnMedian(t, f)), done + [f])
  {
    var df' := FillNA(df, f, ColumnMedian(t, f));
    forall i, c | 0 <= i < |t|
      ensures Get(df'[i], c) ==
        if c in done + [f] && IsNA(Get(t[i], c)) then ColumnMedian(t, c) else Get(t[i], c)
    {
      assert c in done + [f] <==> c in done || c == f;
    }
  }

  /** The frame after filling the columns `done`, one after the other, each with its median. */
  function FillAll(t: seq<Row>, done: seq<Column>): (r: seq<Row>)
    ensures |r| == |t|
  {
    if |done| == 0 then t
    else
      var f := done[|done| - 1];
      FillNA(FillAll(t, done[..|done| - 1]), f, ColumnMedian(t, f))
  }

  /** Filling the columns in turn imputes every one of them and nothing else. */
  lemma {:induction false} FillAllImputes(t: seq<Row>, done: seq<Column>)
    ensures ImputedUpTo(t, FillAll(t, done), done)
  {
    if |done| > 0 {
      var prefix := done[..|done| - 1];
      FillAllImputes(t, prefix);
      FillStep(t, FillAll(t, prefix), prefix, done[|done| - 1]);
      assert done == prefix + [done[|done| - 1]];
    }
  }

  /** While columns of a list without repeats are filled in turn, the next one is still as read. */
  lemma NextColumnUntouched(t: seq<Row>, features: seq<Column>, k: nat)
    requires Distinct(features) && k < |features|
    ensures ColumnCells(FillAll(t, features[..k]), features[k]) == ColumnCells(t, features[k])
  {
    assert features[k] !in features[..k];
    FillAllImputes(t, features[..k]);
    UntouchedColumn(t, FillAll(t, features[..k]), features[..k], features[k]);
  }

  /** Filling columns of the frame keeps its shape. */
  lemma {:induction false} FillAllKeepsSchema(t: seq<Row>, columns: seq<Column>, done: seq<Column>)
    requires Schema(t, columns) && forall c :: c in done ==> c in columns
    ensures Schema(FillAll(t, done), columns)
  {
    if |done| > 0 {
      var prefix := done[..|done| - 1];
      assert forall c :: c in prefix ==> c in done;
      FillAllKeepsSchema(t, columns, prefix);
      FillKeepsSchema(FillAll(t, prefix), columns, done[|done| - 1], ColumnMedian(t, done[|done| - 1]));
    }
  }

  /** Filling a column of the frame keeps its shape. */
  lemma FillKeepsSchema(df: seq<Row>, columns: seq<Column>, f: Column, v: Cell)
    requires Schema(df, columns) && f in columns
    ensures Schema(FillNA(df, f, v), columns)
  {
    assert f in ColumnSet(columns);
  }

  /** Once every column with NaN is done, every cell holds its imputed value. */
  lemma AllImputed(columns: seq<Column>, t: seq<Row>, df: seq<Row>)
    requires ImputedUpTo(t, df, NAColumns(columns, t))
    ensures forall i, c :: 0 <= i < |t| ==> Get(df[i], c) == Imputed(columns, t, i, c)
  {
    forall i, c | 0 <= i < |t| ensures Get(df[i], c) == Imputed(columns, t, i, c) {
      if c in columns && IsNA(Get(t[i], c)) {
        assert HasNA(ColumnCells(t, c)) by { assert ColumnCells(t, c)[i] == Get(t[i], c); }
      }
    }
  }

  /**
    Filling every column with NaN keeps the frame's shape and gives every
    cell its imputed value.
   */
  lemma FilledFrame(columns: seq<Column>, t: seq<Row>)
    requires Schema(t, columns)
    ensures Schema(FillAll(t, NAColumns(columns, t)), columns)
    ensures forall i, c :: 0 <= i < |t| ==>
      Get(FillAll(t, NAColumns(columns, t))[i], c) == Imputed(columns, t, i, c)
  {
    var features := NAColumns(columns, t);
    FillAllImputes(t, features);
    FillAllKeepsSchema(t, columns, features);
    AllImputed(columns, t, FillAll(t, features));
  }

  /**
    The imputation loop.  It fails exactly when a column with NaN holds text;
    otherwise every NaN cell of the listed columns becomes its column's median
    and every other cell, and every other column, is unchanged.
   */
  method ImputeMedians(columns: seq<Column>, t: seq<Row>) returns (r: Result<seq<Row>, ImputeError>)
    requires Distinct(columns) && Schema(t, columns)
    ensures r.Err? <==> exists c :: c in NAColumns(columns, t) && HasText(ColumnCells(t, c))
    ensures r.Err? ==> r.error.column in NAColumns(columns, t)
    ensures r.Ok? ==> r.value == FillAll(t, NAColumns(columns, t))
    ensures r.Ok? ==> |r.value| == |t| && Schema(r.value, columns)
    ensures r.Ok? ==> forall i, c :: 0 <= i < |t| ==> Get(r.value[i], c) == Imputed(columns, t, i, c)
  {
    var features := NAColumns(columns, t);
    var df := t;
    for k := 0 to |features|
      invariant df == FillAll(t, features[..k])
      invariant forall j :: 0 <= j < k ==> !HasText(ColumnCells(t, features[j]))
    {
      var f := features[k];
      NextColumnUntouched(t, features, k);
      if HasText(ColumnCells(df, f)) {
        return Err(MedianOfText(f));
      }
      df := FillNA(df, f, ColumnMedian(df, f));
      assert features[..k + 1][..k] == features[..k];
    }
    assert features[..|features|] == features;
    FilledFrame(columns, t);
    r := Ok(df);
  }

  /** The example of a column [1, NaN, 3]: the NaN becomes 2. */
  lemma MedianOfOneNaNThree()
    ensures ColumnMedian([map["x" := Num(1.0)], map["x" := Missing], map["x" := Num(3.0)]], "x")
         == Num(2.0)
  {
    var t := [map["x" := Num(1.0)], map["x" := Missing], map["x" := Num(3.0)]];
    var cells := ColumnCells(t, "x");
    assert cells == [Num(1.0), Missing, Num(3.0)];
    NumbersOfExample();
    MedianOfExample();
  }

  lemma MedianOfExample()
    ensures Median([1.0, 3.0]) == 2.0
  {
    SortOfExample();
    assert Middle([1.0, 3.0]) == 2.0;
  }

  lemma NumbersOfExample()
    ensures Numbers([Num(1.0), Missing, Num(3.0)]) == [1.0, 3.0]
  {
    var cells := [Num(1.0), Missing, Num(3.0)];
    assert cells[1..] == [Missing, Num(3.0)];
    assert cells[1..][1..] == [Num(3.0)];
    assert [Num(3.0)][1..] == [];
    assert Numbers([Num(3.0)]) == [3.0] + Numbers([]);
    assert Numbers([Missing, Num(3.0)]) == [] + Numbers([Num(3.0)]);
  }

  lemma SortOfExample()
    ensures Sort([1.0, 3.0]) == [1.0, 3.0]
  {
    assert [1.0, 3.0][1..] == [3.0];
    assert [3.0][1..] == [];
  }
}
