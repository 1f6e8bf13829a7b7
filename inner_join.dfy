/**
  The inner join of the weather table with the air-quality table on `date`
  (`pd.merge(weather_df, final_air_df, on='date', how='inner')`).  Output rows
  follow the weather rows in order, and for each weather row its partners in
  air-table order.  A joined row keeps both source rows side by side.  As in
  pandas, a NaN date matches a NaN date.
 */
module InnerJoin {
  import opened Table

  const Date: Column := "date"

  datatype JoinedRow = JoinedRow(weather: Row, air: Row)

  function DateOf(r: Row): Cell
  {
    Get(r, Date)
  }

  function Dates(t: seq<Row>): (ds: seq<Cell>)
    ensures |ds| == |t|
    ensures forall i :: 0 <= i < |t| ==> ds[i] == DateOf(t[i])
  {
    seq(|t|, i requires 0 <= i < |t| => DateOf(t[i]))
  }

  /** The joined rows of one weather row: one per air row with the same date. */
  function Partners(w: Row, air: seq<Row>): seq<JoinedRow>
  {
    if |air| == 0 then []
    else if DateOf(air[0]) == DateOf(w) then [JoinedRow(w, air[0])] + Partners(w, air[1..])
    else Partners(w, air[1..])
  }

  function Join(weather: seq<Row>, air: seq<Row>): seq<JoinedRow>
  {
    if |weather| == 0 then []
    else Partners(weather[0], air) + Join(weather[1..], air)
  }

  lemma {:induction false} PartnersMultiplicity(w: Row, air: seq<Row>, j: JoinedRow)
    ensures multiset(Partners(w, air))[j] ==
      if j.weather == w && DateOf(j.air) == DateOf(w) then multiset(air)[j.air] else 0
  {
    if |air| > 0 {
      PartnersMultiplicity(w, air[1..], j);
      assert air == [air[0]] + air[1..];
    }
  }

  /**
    Each pair of a weather row and an air row with equal dates occurs as often
    as the product of their multiplicities; a pair with different dates never.
   */
  lemma {:induction false} JoinMultiplicity(weather: seq<Row>, air: seq<Row>, w: Row, a: Row)
    ensures multiset(Join(weather, air))[JoinedRow(w, a)] ==
      if DateOf(w) == DateOf(a) then multiset(weather)[w] * multiset(air)[a] else 0
  {
    if |weather| > 0 {
      var j := JoinedRow(w, a);
      JoinMultiplicity(weather[1..], air, w, a);
      PartnersMultiplicity(weather[0], air, j);
      JoinStep(weather, air, j);
      if DateOf(w) == DateOf(a) && weather[0] == w {
        MulSucc(multiset(weather[1..])[w], multiset(air)[a]);
      }
    }
  }

  /** The first weather row's partners come first. */
  lemma JoinStep(weather: seq<Row>, air: seq<Row>, j: JoinedRow)
    requires |weather| > 0
    ensures multiset(Join(weather, air))[j] ==
      multiset(Partners(weather[0], air))[j] + multiset(Join(weather[1..], air))[j]
    ensures multiset(weather)[j.weather] ==
      (if weather[0] == j.weather then 1 else 0) + multiset(weather[1..])[j.weather]
  {
    assert weather == [weather[0]] + weather[1..];
  }

  lemma MulSucc(m: nat, n: nat)
    ensures (m + 1) * n == m * n + n
  {
  }

  /** A joined row exists exactly for a weather row and an air row of equal date. */
  lemma JoinMembership(weather: seq<Row>, air: seq<Row>, w: Row, a: Row)
    ensures JoinedRow(w, a) in Join(weather, air) <==>
      w in weather && a in air && DateOf(w) == DateOf(a)
  {
    JoinMultiplicity(weather, air, w, a);
    var m := multiset(weather)[w];
    var n := multiset(air)[a];
    if m > 0 && n > 0 {
      MulSucc(m - 1, n);
    }
  }

  /** A date missing on either side contributes no rows. */
  lemma JoinDropsUnmatchedDates(weather: seq<Row>, air: seq<Row>, d: Cell)
    requires d !in Dates(weather) || d !in Dates(air)
    ensures forall j :: j in Join(weather, air) ==> DateOf(j.weather) != d
  {
    forall j | j in Join(weather, air) ensures DateOf(j.weather) != d {
      JoinMembership(weather, air, j.weather, j.air);
      var i :| 0 <= i < |weather| && weather[i] == j.weather;
      var k :| 0 <= k < |air| && air[k] == j.air;
      assert Dates(weather)[i] == d ==> d in Dates(weather);
      assert Dates(air)[k] == DateOf(j.air);
    }
  }

  /** Sum over the weather rows of the number of air rows with the same date. */
  function MatchCount(weather: seq<Row>, air: seq<Row>): nat
  {
    if |weather| == 0 then 0
    else Count(Dates(air), DateOf(weather[0])) + MatchCount(weather[1..], air)
  }

  lemma {:induction false} PartnersSize(w: Row, air: seq<Row>)
    ensures |Partners(w, air)| == Count(Dates(air), DateOf(w))
  {
    if |air| > 0 {
      PartnersSize(w, air[1..]);
      assert Dates(air)[1..] == Dates(air[1..]);
    }
  }

  /** The join has, per weather row, as many rows as there are air rows of its date. */
  lemma {:induction false} JoinSize(weather: seq<Row>, air: seq<Row>)
    ensures |Join(weather, air)| == MatchCount(weather, air)
  {
    if |weather| > 0 {
      PartnersSize(weather[0], air);
      JoinSize(weather[1..], air);
    }
  }

  /** Joining a date against a different date yields nothing. */
  lemma DisjointDatesJoinEmpty(w: Row, a: Row)
    requires DateOf(w) != DateOf(a)
    ensures Join([w], [a]) == []
  {
    assert Partners(w, [a]) == Partners(w, []);
  }
}
