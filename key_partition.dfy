/**
  The key-based half of the air-quality cleanup: rows whose `data_ref` occurs
  more than once are set apart, grouped by `data_ref` and merged into one row
  per group; the rows with a unique `data_ref` pass through, and the two parts
  are concatenated.

  pandas semantics that the definitions follow:
  - `duplicated('data_ref', keep=False)` flags every row whose key occurs at
    least twice, and NaN keys count as equal to each other;
  - `isin` also matches NaN with NaN;
  - `groupby` drops NaN keys, so a NaN key that occurs twice loses its rows:
    they are neither in the unique part nor in any group;
  - with `include_groups=False` the merged rows no longer hold `data_ref`.
 */
module KeyPartition {
  import opened Table
  import opened Dedup
  import opened RowMerge

  const DataRef: Column := "data_ref"

  function Key(r: Row): Cell
  {
    Get(r, DataRef)
  }

  /** The `data_ref` column. */
  function Keys(t: seq<Row>): (ks: seq<Cell>)
    ensures |ks| == |t|
    ensures forall i :: 0 <= i < |t| ==> ks[i] == Key(t[i])
  {
    seq(|t|, i requires 0 <= i < |t| => Key(t[i]))
  }

  /** The rows whose key's membership in `ks` equals `keep`, in order. */
  function SelectByKey(t: seq<Row>, ks: set<Cell>, keep: bool): (r: seq<Row>)
    ensures |r| <= |t|
    ensures forall x :: x in r <==> x in t && (Key(x) in ks) == keep
  {
    if |t| == 0 then []
    else if (Key(t[0]) in ks) == keep then [t[0]] + SelectByKey(t[1..], ks, keep)
    else SelectByKey(t[1..], ks, keep)
  }

  lemma {:induction false} KeysSelectByKey(t: seq<Row>, ks: set<Cell>, keep: bool)
    ensures Keys(SelectByKey(t, ks, keep)) == Select(Keys(t), ks, keep)
  {
    if |t| > 0 {
      KeysSelectByKey(t[1..], ks, keep);
      assert Keys(t)[1..] == Keys(t[1..]);
      if (Key(t[0]) in ks) == keep {
        assert Keys([t[0]] + SelectByKey(t[1..], ks, keep)) ==
          [Key(t[0])] + Keys(SelectByKey(t[1..], ks, keep));
      }
    }
  }

  lemma {:induction false} SelectByKeySplit(t: seq<Row>, ks: set<Cell>)
    ensures multiset(SelectByKey(t, ks, true)) + multiset(SelectByKey(t, ks, false)) == multiset(t)
  {
    if |t| > 0 {
      SelectByKeySplit(t[1..], ks);
      assert t == [t[0]] + t[1..];
    }
  }

  /** The keys that `duplicated(keep=False)` flags: those occurring at least twice. */
  function DuplicatedKeys(t: seq<Row>): set<Cell>
  {
    set k | k in Keys(t) && Count(Keys(t), k) >= 2
  }

  /** `air_df[air_df.duplicated('data_ref', keep=False)]` */
  function Duplicates(t: seq<Row>): seq<Row>
  {
    SelectByKey(t, DuplicatedKeys(t), true)
  }

  /** `air_df[~air_df['data_ref'].isin(duplicates['data_ref'])]` */
  function NonDuplicates(t: seq<Row>): seq<Row>
  {
    SelectByKey(t, Elems(Keys(Duplicates(t))), false)
  }

  /** The keys present in the duplicated part are exactly the duplicated keys. */
  lemma DuplicatesKeys(t: seq<Row>)
    ensures Elems(Keys(Duplicates(t))) == DuplicatedKeys(t)
  {
    KeysSelectByKey(t, DuplicatedKeys(t), true);
  }

  /**
    The duplicated part holds exactly the rows whose key occurs at least twice,
    the rest holds exactly the rows whose key occurs once, and together they
    are the whole table.
   */
  lemma {:induction false} PartitionCovers(t: seq<Row>)
    ensures forall r :: r in Duplicates(t) <==> r in t && Count(Keys(t), Key(r)) >= 2
    ensures forall r :: r in NonDuplicates(t) <==> r in t && Count(Keys(t), Key(r)) == 1
    ensures multiset(Duplicates(t)) + multiset(NonDuplicates(t)) == multiset(t)
    ensures Elems(Keys(Duplicates(t))) !! Elems(Keys(NonDuplicates(t)))
  {
    DuplicatesKeys(t);
    var d := DuplicatedKeys(t);
    assert NonDuplicates(t) == SelectByKey(t, d, false);
    forall r | r in t ensures Key(r) in Keys(t) {
      var i :| 0 <= i < |t| && t[i] == r;
      assert Keys(t)[i] == Key(r);
    }
    SelectByKeySplit(t, d);
    KeysSelectByKey(t, d, false);
  }

  /** A row of the frame with its `data_ref` column removed. */
  function DropKey(r: Row): (s: Row)
    ensures s.Keys == r.Keys - {DataRef}
  {
    r - {DataRef}
  }

  /** The columns that `merge_rows` sees: all but `data_ref`. */
  function GroupColumns(columns: seq<Column>): seq<Column>
  {
    Select(columns, {DataRef}, false)
  }

  /** `groupby('data_ref')` on the duplicated part: its non-NaN keys, once each. */
  function GroupKeys(t: seq<Row>): seq<Cell>
  {
    Select(DropDuplicates(Keys(Duplicates(t))), {Missing}, false)
  }

  /** The rows of group `k` in their original order, without the key column. */
  function Group(d: seq<Row>, k: Cell): (g: seq<Row>)
    requires k in Keys(d)
    ensures |g| > 0
  {
    var rows := SelectByKey(d, {k}, true);
    assert |rows| > 0 by {
      var i :| 0 <= i < |d| && Keys(d)[i] == k;
      assert d[i] in rows;
    }
    seq(|rows|, i requires 0 <= i < |rows| => DropKey(rows[i]))
  }

  /** One merged row per group, in first-occurrence order of the keys. */
  function MergedRows(columns: seq<Column>, t: seq<Row>): (m: seq<Row>)
    ensures |m| == |GroupKeys(t)|
  {
    var d := Duplicates(t);
    var gk := GroupKeys(t);
    seq(|gk|, i requires 0 <= i < |gk| => MergeGroup(GroupColumns(columns), Group(d, gk[i])))
  }

  /** `pd.concat([non_duplicates, merged_rows], ignore_index=True)` */
  function FinalAir(columns: seq<Column>, t: seq<Row>): seq<Row>
  {
    NonDuplicates(t) + MergedRows(columns, t)
  }

  /**
    One merged row per duplicated key: the group keys are distinct and are
    exactly the duplicated keys other than NaN.
   */
  lemma GroupKeysOnePerKey(t: seq<Row>)
    ensures Distinct(GroupKeys(t))
    ensures Elems(GroupKeys(t)) == DuplicatedKeys(t) - {Missing}
  {
    var dd := DropDuplicates(Keys(Duplicates(t)));
    forall x ensures Count(GroupKeys(t), x) <= 1 {
      CountSelect(dd, {Missing}, false, x);
      DistinctCountAtMostOne(dd, x);
    }
    CountAtMostOneDistinct(GroupKeys(t));
    DuplicatesKeys(t);
  }

  /** Merged rows carry no `data_ref`: the key reads as NaN in them. */
  lemma MergedRowsLoseKey(columns: seq<Column>, t: seq<Row>, i: nat)
    requires i < |MergedRows(columns, t)|
    ensures Key(MergedRows(columns, t)[i]) == Missing
  {
    assert DataRef !in ColumnSet(GroupColumns(columns));
  }

  /** The unique part has one row per key that occurs once. */
  lemma NonDuplicatesSize(t: seq<Row>)
    ensures |NonDuplicates(t)| == |Elems(Keys(t)) - DuplicatedKeys(t)|
  {
    var d := DuplicatedKeys(t);
    DuplicatesKeys(t);
    var nk := Keys(NonDuplicates(t));
    KeysSelectByKey(t, d, false);
    forall x ensures Count(nk, x) <= 1 {
      CountSelect(Keys(t), d, false, x);
    }
    CountAtMostOneDistinct(nk);
    DistinctCard(nk);
    assert Elems(nk) == Elems(Keys(t)) - d;
  }

  /**
    The concatenated air table has one row per distinct `data_ref`, except that
    a NaN key occurring at least twice contributes no row at all.
   */
  lemma FinalAirSize(columns: seq<Column>, t: seq<Row>)
    ensures |FinalAir(columns, t)| + (if Count(Keys(t), Missing) >= 2 then 1 else 0)
         == |DropDuplicates(Keys(t))|
  {
    NonDuplicatesSize(t);
    GroupKeysSize(t);
    DistinctKeysSplit(t);
  }

  /** The groups are the duplicated keys, less one when NaN is among them. */
  lemma GroupKeysSize(t: seq<Row>)
    ensures |GroupKeys(t)| + (if Count(Keys(t), Missing) >= 2 then 1 else 0)
         == |DuplicatedKeys(t)|
  {
    var d := DuplicatedKeys(t);
    GroupKeysOnePerKey(t);
    DistinctCard(GroupKeys(t));
    if Count(Keys(t), Missing) >= 2 {
      assert Missing in d;
      assert d == (d - {Missing}) + {Missing};
    } else {
      assert d - {Missing} == d;
    }
  }

  lemma DistinctKeysSplit(t: seq<Row>)
    ensures |DropDuplicates(Keys(t))| == |Elems(Keys(t)) - DuplicatedKeys(t)| + |DuplicatedKeys(t)|
  {
    var all := Elems(Keys(t));
    var d := DuplicatedKeys(t);
    DropDuplicatesSize(Keys(t));
    assert d <= all;
    assert all == (all - d) + d;
  }
}
