/**
  The row merge of the air-quality table: several partial observations that
  share a `data_ref` are folded into one row by a left-biased coalesce.  For
  every column the first value, in group order, that is not blank wins; a
  column that is blank in every row keeps the first row's value.
 */
module RowMerge {
  import opened Table

  /** The first non-blank cell of `cells`, or `cells[0]` when all are blank. */
  function Coalesce(cells: seq<Cell>): (c: Cell)
    requires |cells| > 0
    ensures c in cells
    ensures !IsBlank(c) <==> exists i :: 0 <= i < |cells| && !IsBlank(cells[i])
  {
    if |cells| == 1 || !IsBlank(cells[0]) then cells[0]
    else
      var rest := Coalesce(cells[1..]);
      if IsBlank(rest) then cells[0] else rest
  }

  /** The coalesced value is the cell at the first non-blank position. */
  lemma {:induction false} CoalesceFirstPresent(cells: seq<Cell>, k: nat)
    requires k < |cells| && !IsBlank(cells[k])
    requires forall j :: 0 <= j < k ==> IsBlank(cells[j])
    ensures Coalesce(cells) == cells[k]
  {
    if k > 0 {
      CoalesceFirstPresent(cells[1..], k - 1);
    }
  }

  /** A column blank in every row keeps the first row's value. */
  lemma CoalesceAllBlank(cells: seq<Cell>)
    requires |cells| > 0
    requires forall j :: 0 <= j < |cells| ==> IsBlank(cells[j])
    ensures Coalesce(cells) == cells[0]
  {
  }

  /**
    One more row: its cell is adopted exactly when the running value is blank
    and the new cell is not.
   */
  lemma {:induction false} CoalesceAppend(cells: seq<Cell>, x: Cell)
    requires |cells| > 0
    ensures Coalesce(cells + [x]) ==
      if IsBlank(Coalesce(cells)) && !IsBlank(x) then x else Coalesce(cells)
  {
    var s := cells + [x];
    if |cells| == 1 {
      assert s[1..] == [x];
    } else if IsBlank(cells[0]) {
      assert s[1..] == cells[1..] + [x];
      CoalesceAppend(cells[1..], x);
    }
  }

  /** Once the running value is not blank, no later row overwrites it. */
  lemma {:induction false} CoalesceNeverOverwritten(cells: seq<Cell>, later: seq<Cell>)
    requires |cells| > 0 && !IsBlank(Coalesce(cells))
    ensures Coalesce(cells + later) == Coalesce(cells)
    decreases |later|
  {
    if |later| > 0 {
      var init := later[..|later| - 1];
      CoalesceNeverOverwritten(cells, init);
      assert cells + later == (cells + init) + [later[|later| - 1]];
      CoalesceAppend(cells + init, later[|later| - 1]);
    } else {
      assert cells + later == cells;
    }
  }

  /** The merged row of a non-empty group: every column coalesced. */
  function MergeGroup(columns: seq<Column>, group: seq<Row>): (r: Row)
    requires |group| > 0
    ensures r.Keys == ColumnSet(columns)
  {
    map c | c in columns :: Coalesce(ColumnCells(group, c))
  }

  /** A group of one row is returned unchanged. */
  lemma MergeSingleton(columns: seq<Column>, row: Row)
    requires Schema([row], columns)
    ensures MergeGroup(columns, [row]) == row
  {
    assert [row][0] == row;
    forall c | c in columns ensures MergeGroup(columns, [row])[c] == row[c] {
      assert ColumnCells([row], c) == [row[c]];
    }
  }

  /** The running row holds every column coalesced over the first `n` rows. */
  predicate MergedUpTo(merged: Row, columns: seq<Column>, group: seq<Row>, n: nat)
    requires 0 < n <= |group|
  {
    && merged.Keys == ColumnSet(columns)
    && forall k :: 0 <= k < |columns| ==>
         merged[columns[k]] == Coalesce(ColumnCells(group[..n], columns[k]))
  }

  /** The first row alone: its own cells. */
  lemma FirstRowCoalesced(columns: seq<Column>, group: seq<Row>)
    requires |group| > 0 && Schema(group, columns)
    ensures MergedUpTo(group[0], columns, group, 1)
  {
    forall k | 0 <= k < |columns|
      ensures group[0][columns[k]] == Coalesce(ColumnCells(group[..1], columns[k]))
    {
      assert ColumnCells(group[..1], columns[k]) == [group[0][columns[k]]];
    }
  }

  lemma MergedAll(merged: Row, columns: seq<Column>, group: seq<Row>)
    requires |group| > 0 && MergedUpTo(merged, columns, group, |group|)
    ensures merged == MergeGroup(columns, group)
  {
    assert group[..|group|] == group;
    forall c | c in columns ensures merged[c] == MergeGroup(columns, group)[c] {
      var k :| 0 <= k < |columns| && columns[k] == c;
    }
  }

  /** Extending the group by row `i` updates one column's coalesced value. */
  lemma RowStep(group: seq<Row>, i: nat, col: Column)
    requires 0 < i < |group|
    ensures Coalesce(ColumnCells(group[..i + 1], col)) ==
      var run := Coalesce(ColumnCells(group[..i], col));
      if IsBlank(run) && !IsBlank(Get(group[i], col)) then Get(group[i], col) else run
  {
    assert ColumnCells(group[..i + 1], col) == ColumnCells(group[..i], col) + [Get(group[i], col)];
    CoalesceAppend(ColumnCells(group[..i], col), Get(group[i], col));
  }

  /**
    The inner loop of the row merge: one later row is absorbed column by
    column; a blank running cell takes the row's cell when that is not blank.
   */
  method AbsorbRow(columns: seq<Column>, merged: Row, next: Row) returns (r: Row)
    requires Distinct(columns)
    requires merged.Keys == ColumnSet(columns) && next.Keys == ColumnSet(columns)
    ensures r.Keys == ColumnSet(columns)
    ensures forall k :: 0 <= k < |columns| ==>
      r[columns[k]] ==
        if IsBlank(merged[columns[k]]) && !IsBlank(next[columns[k]]) then next[columns[k]]
        else merged[columns[k]]
  {
    r := merged;
    for j := 0 to |columns|
      invariant r.Keys == ColumnSet(columns)
      invariant forall k :: 0 <= k < j ==>
        r[columns[k]] ==
          if IsBlank(merged[columns[k]]) && !IsBlank(next[columns[k]]) then next[columns[k]]
          else merged[columns[k]]
      invariant forall k :: j <= k < |columns| ==> r[columns[k]] == merged[columns[k]]
    {
      var col := columns[j];
      assert col in ColumnSet(columns);
      ghost var prev := r;
      if IsBlank(r[col]) {
        r := r[col := if !IsBlank(next[col]) then next[col] else r[col]];
      }
      forall k | 0 <= k < |columns| && k != j ensures r[columns[k]] == prev[columns[k]] {
        assert columns[k] != col;
      }
    }
  }

  /**
    The row merge as the source runs it: copy the first row, then for every
    later row and every column replace a blank running value by the row's
    value when that one is not blank.
   */
  method MergeRows(columns: seq<Column>, group: seq<Row>) returns (merged: Row)
    requires |group| > 0
    requires Distinct(columns) && Schema(group, columns)
    ensures merged == MergeGroup(columns, group)
    ensures |group| == 1 ==> merged == group[0]
  {
    merged := group[0];
    FirstRowCoalesced(columns, group);
    for i := 1 to |group|
      invariant MergedUpTo(merged, columns, group, i)
    {
      merged := AbsorbRow(columns, merged, group[i]);
      forall k | 0 <= k < |columns|
        ensures merged[columns[k]] == Coalesce(ColumnCells(group[..i + 1], columns[k]))
      {
        assert columns[k] in ColumnSet(columns);
        RowStep(group, i, columns[k]);
      }
    }
    MergedAll(merged, columns, group);
    if |group| == 1 {
      MergeSingleton(columns, group[0]);
      assert group == [group[0]];
    }
  }
}
