/**
  Reconciliation of categorical spellings: the `Wind Direction` column is
  rewritten through a table of compass-direction synonyms and the
  `Dew Point Category` column through a table of dew-point level synonyms
  (`Series.replace(dict)`).  A text cell equal to a key of the table becomes
  the key's value; every other cell, including NaN and numbers, is kept.
 */
module Vocabulary {
  import opened Table

  const WindDirection: Column := "Wind Direction"
  const DewPointCategory: Column := "Dew Point Category"

  const DewMapping: map<string, string> := map[
    "High" := "High",
    "Very High" := "Very High",
    "Very Low" := "Very Low",
    "Moderate" := "Moderate",
    "Low" := "Low",
    "High Level" := "High",
    "H" := "High",
    "HIGH" := "High",
    "high" := "High",
    "very high" := "Very High",
    "Extreme" := "Extreme",
    "VERY HIGH" := "Very High",
    "VH" := "Very High",
    "M" := "Moderate",
    "MODERATE" := "Moderate",
    "LOW" := "Low",
    "Normal" := "Moderate",
    "Minimal" := "Very Low",
    "VL" := "Very Low",
    "very low" := "Very Low",
    "low" := "Low",
    "moderate" := "Moderate",
    "Below Average" := "Low",
    "L" := "Low",
    "VERY LOW" := "Very Low"
  ]

  const WindDirectionMapping: map<string, string> := map[
    "SW" := "Southwest",
    "SW." := "Southwest",
    "southwest" := "Southwest",
    "SOUTHEAST" := "Southeast",
    "southeast" := "Southeast",
    "SE" := "Southeast",
    "SE." := "Southeast",
    "NORTHEAST" := "Northeast",
    "northeast" := "Northeast",
    "NE" := "Northeast",
    "NE." := "Northeast",
    "NORTHWEST" := "Northwest",
    "northwest" := "Northwest",
    "NW" := "Northwest",
    "NW." := "Northwest",
    "Northward" := "North",
    "NORTH" := "North",
    "north" := "North",
    "N" := "North",
    "N." := "North",
    "Southward" := "South",
    "SOUTH" := "South",
    "south" := "South",
    "S" := "South",
    "S." := "South",
    "WEST" := "West",
    "west" := "West",
    "W" := "West",
    "W." := "West",
    "EAST" := "East",
    "east" := "East",
    "E" := "East",
    "E." := "East"
  ]

  const CompassNames: set<string> :=
    {"North", "Northeast", "East", "Southeast", "South", "Southwest", "West", "Northwest"}

  const DewLevels: set<string> :=
    {"Very Low", "Low", "Moderate", "High", "Very High", "Extreme"}

  /** A table is stable when each of its results is left alone by a second pass. */
  predicate Stable(m: map<string, string>)
  {
    forall s :: s in m ==> m[s] !in m || m[m[s]] == m[s]
  }

  /** Every wind synonym goes to one of the eight compass names. */
  lemma WindImage()
    ensures forall s :: s in WindDirectionMapping ==> WindDirectionMapping[s] in CompassNames
    ensures WindDirectionMapping.Values == CompassNames
  {
    assert WindDirectionMapping["N"] == "North" && WindDirectionMapping["NE"] == "Northeast";
    assert WindDirectionMapping["E"] == "East" && WindDirectionMapping["SE"] == "Southeast";
    assert WindDirectionMapping["S"] == "South" && WindDirectionMapping["SW"] == "Southwest";
    assert WindDirectionMapping["W"] == "West" && WindDirectionMapping["NW"] == "Northwest";
  }

  /** Every dew synonym goes to one of the six levels. */
  lemma DewImage()
    ensures forall s :: s in DewMapping ==> DewMapping[s] in DewLevels
    ensures DewMapping.Values == DewLevels
  {
    assert DewMapping["Low"] == "Low" && DewMapping["Very Low"] == "Very Low";
    assert DewMapping["Moderate"] == "Moderate" && DewMapping["High"] == "High";
    assert DewMapping["Very High"] == "Very High" && DewMapping["Extreme"] == "Extreme";
  }

  /** No compass name is itself a wind synonym: canonical directions pass through. */
  lemma CompassNamesNotWindKeys()
    ensures forall s :: s in CompassNames ==> s !in WindDirectionMapping
  {
    NorthNotWindKey();
    EastNotWindKey();
    SouthNotWindKey();
    WestNotWindKey();
  }

  lemma NorthNotWindKey()
    ensures "North" !in WindDirectionMapping && "Northeast" !in WindDirectionMapping
  {
  }

  lemma EastNotWindKey()
    ensures "East" !in WindDirectionMapping && "Northwest" !in WindDirectionMapping
  {
  }

  lemma SouthNotWindKey()
    ensures "South" !in WindDirectionMapping && "Southwest" !in WindDirectionMapping
  {
  }

  lemma WestNotWindKey()
    ensures "West" !in WindDirectionMapping && "Southeast" !in WindDirectionMapping
  {
  }

  /** Every dew level maps to itself. */
  lemma DewLevelsFixed()
    ensures forall s :: s in DewLevels ==> s in DewMapping && DewMapping[s] == s
  {
  }

  /** Because the canonical names are fixed points, both tables are stable. */
  lemma TablesStable()
    ensures Stable(WindDirectionMapping) && Stable(DewMapping)
  {
    WindImage();
    DewImage();
    CompassNamesNotWindKeys();
    DewLevelsFixed();
  }

  /** `replace` on one cell. */
  function ReplaceCell(m: map<string, string>, c: Cell): Cell
  {
    if c.Str? && c.text in m then Str(m[c.text]) else c
  }

  /** A second pass of a stable table changes nothing. */
  lemma ReplaceCellIdempotent(m: map<string, string>, c: Cell)
    requires Stable(m)
    ensures ReplaceCell(m, ReplaceCell(m, c)) == ReplaceCell(m, c)
  {
  }

  /** `df[col] = df[col].replace(m)` */
  function ReplaceColumn(t: seq<Row>, col: Column, m: map<string, string>): (r: seq<Row>)
    ensures |r| == |t|
    ensures forall i :: 0 <= i < |t| ==> r[i].Keys == t[i].Keys
    ensures forall i, c :: 0 <= i < |t| && c != col ==> Get(r[i], c) == Get(t[i], c)
    ensures forall i :: 0 <= i < |t| ==>
      Get(r[i], col) == if col in t[i] then ReplaceCell(m, t[i][col]) else Missing
  {
    seq(|t|, i requires 0 <= i < |t| =>
      if col in t[i] then t[i][col := ReplaceCell(m, t[i][col])] else t[i])
  }

  /** Both replacements, wind direction first. */
  function Reconcile(t: seq<Row>): seq<Row>
  {
    ReplaceColumn(ReplaceColumn(t, WindDirection, WindDirectionMapping), DewPointCategory, DewMapping)
  }

  /**
    After reconciliation a wind direction is a compass name unless it was text
    outside the table, which passes through; likewise for the dew level.
   */
  lemma ReconcileRanges(t: seq<Row>, i: nat)
    requires i < |t|
    ensures var r := Reconcile(t);
      && (Get(r[i], WindDirection).Str? ==>
            Get(r[i], WindDirection).text in CompassNames
            || (Get(t[i], WindDirection) == Get(r[i], WindDirection)
                && Get(t[i], WindDirection).text !in WindDirectionMapping))
      && (Get(r[i], DewPointCategory).Str? ==>
            Get(r[i], DewPointCategory).text in DewLevels
            || (Get(t[i], DewPointCategory) == Get(r[i], DewPointCategory)
                && Get(t[i], DewPointCategory).text !in DewMapping))
  {
    WindImage();
    DewImage();
  }

  /** Every other column is untouched. */
  lemma ReconcileKeepsOtherColumns(t: seq<Row>, i: nat, c: Column)
    requires i < |t| && c != WindDirection && c != DewPointCategory
    ensures Get(Reconcile(t)[i], c) == Get(t[i], c)
  {
  }

  /** Applying the replacement twice is the same as applying it once. */
  lemma ReplaceColumnIdempotent(t: seq<Row>, col: Column, m: map<string, string>)
    requires Stable(m)
    ensures ReplaceColumn(ReplaceColumn(t, col, m), col, m) == ReplaceColumn(t, col, m)
  {
    var once := ReplaceColumn(t, col, m);
    var twice := ReplaceColumn(once, col, m);
    forall i | 0 <= i < |t| ensures twice[i] == once[i] {
      if col in t[i] {
        ReplaceCellIdempotent(m, t[i][col]);
        assert once[i] == t[i][col := ReplaceCell(m, t[i][col])];
      }
    }
  }

  /** Replacements in two different columns can be applied in either order. */
  lemma ReplaceColumnsCommute(t: seq<Row>, c1: Column, m1: map<string, string>,
                              c2: Column, m2: map<string, string>)
    requires c1 != c2
    ensures ReplaceColumn(ReplaceColumn(t, c1, m1), c2, m2)
         == ReplaceColumn(ReplaceColumn(t, c2, m2), c1, m1)
  {
    var a := ReplaceColumn(ReplaceColumn(t, c1, m1), c2, m2);
    var b := ReplaceColumn(ReplaceColumn(t, c2, m2), c1, m1);
    forall i | 0 <= i < |t| ensures a[i] == b[i] {
      assert a[i].Keys == b[i].Keys;
      forall c | c in a[i] ensures a[i][c] == b[i][c] {
        assert Get(a[i], c) == Get(b[i], c);
      }
    }
  }

  /** Reconciling an already reconciled table changes nothing. */
  lemma ReconcileIdempotent(t: seq<Row>)
    ensures Reconcile(Reconcile(t)) == Reconcile(t)
  {
    TablesStable();
    var w := ReplaceColumn(t, WindDirection, WindDirectionMapping);
    var r := ReplaceColumn(w, DewPointCategory, DewMapping);
    ReplaceColumnIdempotent(t, WindDirection, WindDirectionMapping);
    ReplaceColumnsCommute(w, WindDirection, WindDirectionMapping, DewPointCategory, DewMapping);
    ReplaceColumnIdempotent(w, DewPointCategory, DewMapping);
  }

  /** An already canonical direction comes back unchanged. */
  lemma NorthStaysNorth()
    ensures ReplaceCell(WindDirectionMapping, Str("North")) == Str("North")
  {
    CompassNamesNotWindKeys();
  }
}
