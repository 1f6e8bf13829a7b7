/**
  The data model shared by every stage of the cleaning pipeline: a table is a
  sequence of rows, a row maps column names to cells.  A cell absent from a row
  reads as missing, which is how pandas fills the gaps when two frames with
  different columns are concatenated.
 */
module Table {

  type Column = string

  /** A cell of a data frame.  `Missing` stands for both NaN and None. */
  datatype Cell = Missing | Str(text: string) | Num(value: real)

  type Row = map<Column, Cell>

  datatype Option<T> = None | Some(value: T)

  datatype Result<T, E> = Ok(value: T) | Err(error: E)

  /** The value of column `c` in row `r`; an absent column reads as NaN. */
  function Get(r: Row, c: Column): Cell
  {
    if c in r then r[c] else Missing
  }

  /** pandas' `isna`: true of NaN and None only. */
  predicate IsNA(c: Cell)
  {
    c.Missing?
  }

  /**
    The missing test of the row merge: NaN or None, or one of the sentinel
    strings "-" and "--".  The empty string is not missing.
   */
  predicate IsBlank(c: Cell)
  {
    c.Missing? || c == Str("-") || c == Str("--")
  }

  /** The cells of column `c`, top to bottom. */
  function ColumnCells(t: seq<Row>, c: Column): (cells: seq<Cell>)
    ensures |cells| == |t|
    ensures forall i :: 0 <= i < |t| ==> cells[i] == Get(t[i], c)
  {
    seq(|t|, i requires 0 <= i < |t| => Get(t[i], c))
  }

  function ColumnSet(columns: seq<Column>): set<Column>
  {
    set c | c in columns
  }

  /** Every row of `t` has exactly the columns `columns`: a rectangular frame. */
  predicate Schema(t: seq<Row>, columns: seq<Column>)
  {
    forall i :: 0 <= i < |t| ==> t[i].Keys == ColumnSet(columns)
  }

  predicate Distinct<T(==)>(s: seq<T>)
  {
    forall i, j :: 0 <= i < j < |s| ==> s[i] != s[j]
  }

  function Elems<T>(s: seq<T>): set<T>
  {
    set x | x in s
  }

  /** Number of occurrences of `x` in `s`. */
  function Count<T(==)>(s: seq<T>, x: T): (n: nat)
    ensures n <= |s|
    ensures n > 0 <==> x in s
  {
    if |s| == 0 then 0 else (if s[0] == x then 1 else 0) + Count(s[1..], x)
  }

  /** Number of set bits in a mask. */
  function CountTrue(mask: seq<bool>): (c: nat)
    ensures c <= |mask|
  {
    if |mask| == 0 then 0 else (if mask[0] then 1 else 0) + CountTrue(mask[1..])
  }

  lemma {:induction false} CountTrueAllFalse(mask: seq<bool>)
    requires forall i :: 0 <= i < |mask| ==> !mask[i]
    ensures CountTrue(mask) == 0
  {
    if |mask| > 0 {
      CountTrueAllFalse(mask[1..]);
    }
  }

  lemma {:induction false} CountAppend<T>(a: seq<T>, b: seq<T>, x: T)
    ensures Count(a + b, x) == Count(a, x) + Count(b, x)
  {
    if |a| == 0 {
      assert a + b == b;
    } else {
      assert (a + b)[1..] == a[1..] + b;
      CountAppend(a[1..], b, x);
    }
  }

  lemma {:induction false} CountIsMultiplicity<T>(s: seq<T>, x: T)
    ensures Count(s, x) == multiset(s)[x]
  {
    if |s| > 0 {
      CountIsMultiplicity(s[1..], x);
      assert s == [s[0]] + s[1..];
    }
  }

  /** Two equal entries at different positions make the count at least two. */
  lemma {:induction false} CountTwoPositions<T>(s: seq<T>, i: nat, j: nat)
    requires i < j < |s| && s[i] == s[j]
    ensures Count(s, s[i]) >= 2
  {
    if i == 0 {
      assert s[j] == s[1..][j - 1];
      assert s[i] in s[1..];
    } else {
      CountTwoPositions(s[1..], i - 1, j - 1);
    }
  }

  /** A sequence in which nothing occurs twice has no repeated entry. */
  lemma CountAtMostOneDistinct<T>(s: seq<T>)
    requires forall x :: Count(s, x) <= 1
    ensures Distinct(s)
  {
    forall i, j | 0 <= i < j < |s| ensures s[i] != s[j] {
      if s[i] == s[j] {
        CountTwoPositions(s, i, j);
      }
    }
  }

  lemma {:induction false} DistinctCountAtMostOne<T>(s: seq<T>, x: T)
    requires Distinct(s)
    ensures Count(s, x) <= 1
  {
    if |s| > 0 {
      assert Distinct(s[1..]) by {
        forall i, j | 0 <= i < j < |s| - 1 ensures s[1..][i] != s[1..][j] {
          assert s[1..][i] == s[i + 1] && s[1..][j] == s[j + 1];
        }
      }
      DistinctCountAtMostOne(s[1..], x);
      if s[0] == x {
        assert x !in s[1..] by {
          forall k | 0 <= k < |s| - 1 ensures s[1..][k] != x {
            assert s[1..][k] == s[k + 1];
          }
        }
      }
    }
  }

  /** A sequence without repetitions has as many entries as distinct elements. */
  lemma {:induction false} DistinctCard<T>(s: seq<T>)
    requires Distinct(s)
    ensures |Elems(s)| == |s|
  {
    if |s| > 0 {
      var p := s[..|s| - 1];
      assert Distinct(p);
      DistinctCard(p);
      assert s == p + [s[|s| - 1]];
      assert Elems(s) == Elems(p) + {s[|s| - 1]};
      assert s[|s| - 1] !in Elems(p);
    }
  }

  /**
    The entries of `s` whose membership in `ks` equals `keep`, in order: a
    boolean-mask selection in which the mask depends on the value only.
   */
  function Select<T(==,!new)>(s: seq<T>, ks: set<T>, keep: bool): (r: seq<T>)
    ensures |r| <= |s|
    ensures forall x :: x in r <==> x in s && (x in ks) == keep
  {
    if |s| == 0 then []
    else if (s[0] in ks) == keep then [s[0]] + Select(s[1..], ks, keep)
    else Select(s[1..], ks, keep)
  }

  lemma {:induction false} CountSelect<T(!new)>(s: seq<T>, ks: set<T>, keep: bool, x: T)
    ensures Count(Select(s, ks, keep), x) == if (x in ks) == keep then Count(s, x) else 0
  {
    if |s| > 0 {
      CountSelect(s[1..], ks, keep, x);
      if (s[0] in ks) == keep {
        assert ([s[0]] + Select(s[1..], ks, keep))[1..] == Select(s[1..], ks, keep);
      }
    }
  }

  lemma {:induction false} SelectSplit<T(!new)>(s: seq<T>, ks: set<T>)
    ensures multiset(Select(s, ks, true)) + multiset(Select(s, ks, false)) == multiset(s)
  {
    if |s| > 0 {
      SelectSplit(s[1..], ks);
      assert s == [s[0]] + s[1..];
    }
  }
}
