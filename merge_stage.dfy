/**
  The whole deduplicate-and-merge stage: both frames lose their exact
  duplicate rows, the air-quality frame has its rows with a repeated
  `data_ref` merged group by group, and the result is inner-joined with the
  weather frame on `date`.
 */
module MergeStage {
  import opened Table
  import opened Dedup
  import opened RowMerge
  import opened KeyPartition
  import opened InnerJoin

  /** The air-quality frame after deduplication and merging of repeated keys. */
  function FinalAirOf(airColumns: seq<Column>, air: seq<Row>): seq<Row>
  {
    FinalAir(airColumns, DropDuplicates(air))
  }

  /** `drop_duplicates_merge`, without the file I/O and the positional column drop. */
  function DropDuplicatesMerge(airColumns: seq<Column>, weather: seq<Row>, air: seq<Row>): seq<JoinedRow>
  {
    Join(DropDuplicates(weather), FinalAirOf(airColumns, air))
  }

  /**
    A pair is in the merged frame exactly when it joins a weather row and a
    cleaned air row on equal dates.
   */
  lemma MergedPairs(airColumns: seq<Column>, weather: seq<Row>, air: seq<Row>, w: Row, a: Row)
    ensures JoinedRow(w, a) in DropDuplicatesMerge(airColumns, weather, air) <==>
      w in weather && a in FinalAirOf(airColumns, air) && DateOf(w) == DateOf(a)
  {
    JoinMembership(DropDuplicates(weather), FinalAirOf(airColumns, air), w, a);
  }

  /**
    Repeating a weather row in the input never repeats it in the output: each
    weather row is paired with a matching air row as often as that air row
    occurs in the cleaned air frame.
   */
  lemma WeatherRowsCountOnce(airColumns: seq<Column>, weather: seq<Row>, air: seq<Row>, w: Row, a: Row)
    requires w in weather && DateOf(w) == DateOf(a)
    ensures multiset(DropDuplicatesMerge(airColumns, weather, air))[JoinedRow(w, a)]
         == multiset(FinalAirOf(airColumns, air))[a]
  {
    JoinMultiplicity(DropDuplicates(weather), FinalAirOf(airColumns, air), w, a);
    DropDuplicatesExactlyOnce(weather, w);
    CountIsMultiplicity(DropDuplicates(weather), w);
  }

  /**
    Every group handed to the row merge meets its precondition: the columns
    other than `data_ref` are distinct and every row of the group has exactly
    those columns.  So `MergeRows` computes each merged row of `FinalAir`.
   */
  lemma GroupFitsMergeRows(columns: seq<Column>, t: seq<Row>, k: Cell)
    requires Distinct(columns) && Schema(t, columns)
    requires k in GroupKeys(t)
    ensures Distinct(GroupColumns(columns))
    ensures k in Keys(Duplicates(t))
    ensures Schema(Group(Duplicates(t), k), GroupColumns(columns))
  {
    forall x ensures Count(GroupColumns(columns), x) <= 1 {
      CountSelect(columns, {DataRef}, false, x);
      DistinctCountAtMostOne(columns, x);
    }
    CountAtMostOneDistinct(GroupColumns(columns));
    var d := Duplicates(t);
    var rows := SelectByKey(d, {k}, true);
    var g := Group(d, k);
    assert ColumnSet(GroupColumns(columns)) == ColumnSet(columns) - {DataRef};
    forall i | 0 <= i < |g| ensures g[i].Keys == ColumnSet(GroupColumns(columns)) {
      assert rows[i] in rows;
      assert rows[i] in t;
      var j :| 0 <= j < |t| && t[j] == rows[i];
    }
  }
}
