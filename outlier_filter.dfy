/**
  Outlier removal: for each of the ten numeric features the absolute z-score
  of every row is compared with 3, and a row survives only when every feature
  is below the threshold.  The mask starts all true and is AND-ed with one
  feature mask at a time; the rows whose bit survives are selected.

  The z-scores are the library's (`stats.zscore`) and enter as data:
  `z[f][i]` is the z-score of row `i` in feature `NumFeatures[f]`, `None`
  standing for NaN.  NaN < 3 is false, so a NaN z-score rejects its row.
  What the library's score decides on the raw values is set out in module
  ZScore.
 */
module OutlierFilter {
  import opened Table

  /** The features that are screened, in the order the loop visits them. */
  const NumFeatures: seq<Column> := [
    "Air Pressure (hPa)", "Wet Bulb Temperature (deg F)", "average_wind_speed",
    "Daily Rainfall Total (mm)", "Sunshine Duration (hrs)", "Cloud Cover (%)",
    "Relative Humidity (%)", "average_temperature", "psi_average", "pm25_average"
  ]

  /** `np.abs(z) < 3` for one score; NaN fails every comparison. */
  predicate Passes(z: Option<real>)
  {
    z.Some? && -3.0 < z.value < 3.0
  }

  /** z-scores for every screened feature over a frame of `n` rows. */
  predicate WellShaped(z: seq<seq<Option<real>>>, n: nat)
  {
    |z| == |NumFeatures| && forall f :: 0 <= f < |z| ==> |z[f]| == n
  }

  /** The mask after the first `k` features have been AND-ed in. */
  function MaskAfter(z: seq<seq<Option<real>>>, n: nat, k: nat): (mask: seq<bool>)
    requires WellShaped(z, n) && k <= |NumFeatures|
    ensures |mask| == n
  {
    if k == 0 then seq(n, _ => true)
    else
      var prev := MaskAfter(z, n, k - 1);
      seq(n, i requires 0 <= i < n => prev[i] && Passes(z[k - 1][i]))
  }

  /** The mask once every feature has been AND-ed in. */
  function Mask(z: seq<seq<Option<real>>>, n: nat): (mask: seq<bool>)
    requires WellShaped(z, n)
    ensures |mask| == n
  {
    MaskAfter(z, n, |z|)
  }

  /** A row's bit after `k` features is set exactly when it passed each of them. */
  lemma {:induction false} MaskAfterMeaning(z: seq<seq<Option<real>>>, n: nat, k: nat, i: nat)
    requires WellShaped(z, n) && k <= |NumFeatures| && i < n
    ensures MaskAfter(z, n, k)[i] <==> forall f :: 0 <= f < k ==> Passes(z[f][i])
  {
    if k > 0 {
      MaskAfterMeaning(z, n, k - 1, i);
    }
  }

  /** When each feature's test at row `i` is known, so is the row's bit. */
  lemma MaskAgrees(z: seq<seq<Option<real>>>, n: nat, i: nat, ok: seq<bool>)
    requires WellShaped(z, n) && i < n && |ok| == |NumFeatures|
    requires forall f :: 0 <= f < |ok| ==> Passes(z[f][i]) == ok[f]
    ensures Mask(z, n)[i] <==> forall f :: 0 <= f < |ok| ==> ok[f]
  {
    MaskAfterMeaning(z, n, |z|, i);
  }

  /** The mask only ever loses rows: a feature can clear a bit, never set it. */
  lemma MaskShrinks(z: seq<seq<Option<real>>>, n: nat, k: nat, l: nat, i: nat)
    requires WellShaped(z, n) && k <= l <= |NumFeatures| && i < n
    ensures MaskAfter(z, n, l)[i] ==> MaskAfter(z, n, k)[i]
  {
    MaskAfterMeaning(z, n, k, i);
    MaskAfterMeaning(z, n, l, i);
  }

  /**
    The loop that builds the mask: start from `np.ones(len(df), dtype=bool)`
    and do `mask &= feature_mask` once per feature.
   */
  method OutlierMask(z: seq<seq<Option<real>>>, n: nat) returns (mask: seq<bool>)
    requires WellShaped(z, n)
    ensures |mask| == n
    ensures forall i :: 0 <= i < n ==>
      (mask[i] <==> forall f :: 0 <= f < |NumFeatures| ==> Passes(z[f][i]))
  {
    var m := new bool[n](_ => true);
    for f := 0 to |NumFeatures|
      invariant m[..] == MaskAfter(z, n, f)
    {
      ghost var before := m[..];
      for i := 0 to n
        invariant forall j :: 0 <= j < i ==> m[j] == (before[j] && Passes(z[f][j]))
        invariant forall j :: i <= j < n ==> m[j] == before[j]
      {
        m[i] := m[i] && Passes(z[f][i]);
      }
      assert m[..] == MaskAfter(z, n, f + 1);
    }
    mask := m[..];
    forall i | 0 <= i < n
      ensures mask[i] <==> forall f :: 0 <= f < |NumFeatures| ==> Passes(z[f][i])
    {
      MaskAfterMeaning(z, n, |z|, i);
    }
  }

  /** `df[mask]`: the rows whose bit is set, in their original order. */
  function FilterByMask(t: seq<Row>, mask: seq<bool>): (r: seq<Row>)
    requires |mask| == |t|
    ensures |r| == CountTrue(mask)
    ensures multiset(r) <= multiset(t)
    ensures forall i :: 0 <= i < |t| && mask[i] ==> t[i] in r
    ensures forall x :: x in r ==> exists i :: 0 <= i < |t| && mask[i] && t[i] == x
  {
    if |t| == 0 then []
    else
      var rest := FilterByMask(t[1..], mask[1..]);
      FilterCons(t, mask, rest);
      if mask[0] then [t[0]] + rest else rest
  }

  /** Putting the first row in front of the filtered rest, when its bit is set, filters the whole. */
  lemma FilterCons(t: seq<Row>, mask: seq<bool>, rest: seq<Row>)
    requires |mask| == |t| > 0
    requires |rest| == CountTrue(mask[1..]) && multiset(rest) <= multiset(t[1..])
    requires forall i :: 0 <= i < |t| - 1 && mask[1..][i] ==> t[1..][i] in rest
    requires forall x :: x in rest ==> exists i :: 0 <= i < |t| - 1 && mask[1..][i] && t[1..][i] == x
    ensures var r := if mask[0] then [t[0]] + rest else rest;
      && |r| == CountTrue(mask)
      && multiset(r) <= multiset(t)
      && (forall i :: 0 <= i < |t| && mask[i] ==> t[i] in r)
      && (forall x :: x in r ==> exists i :: 0 <= i < |t| && mask[i] && t[i] == x)
  {
    assert t == [t[0]] + t[1..];
    assert forall i :: 1 <= i < |t| ==> t[i] == t[1..][i - 1] && mask[i] == mask[1..][i - 1];
  }

  /** The positions from `i` on whose bit is set, in increasing order. */
  function Positions(mask: seq<bool>, i: nat): (p: seq<nat>)
    requires i <= |mask|
    ensures forall k :: 0 <= k < |p| ==> i <= p[k] < |mask|
    decreases |mask| - i
  {
    if i == |mask| then []
    else if mask[i] then [i] + Positions(mask, i + 1)
    else Positions(mask, i + 1)
  }

  /**
    The positions are increasing and are exactly the set positions from `i`
    on.
   */
  lemma {:induction false} PositionsMeaning(mask: seq<bool>, i: nat)
    requires i <= |mask|
    ensures var p := Positions(mask, i);
      && (forall k, l :: 0 <= k < l < |p| ==> p[k] < p[l])
      && (forall j :: i <= j < |mask| ==> (mask[j] <==> j in p))
    decreases |mask| - i
  {
    if i < |mask| {
      PositionsMeaning(mask, i + 1);
    }
  }

  /**
    `df[mask]` is exactly the rows at the set positions, in their order: its
    k-th row is the row at the k-th set position.
   */
  lemma FilterByMaskPositions(t: seq<Row>, mask: seq<bool>)
    requires |mask| == |t|
    ensures var p := Positions(mask, 0);
      FilterByMask(t, mask) == seq(|p|, k requires 0 <= k < |p| => t[p[k]])
  {
    assert t[0..] == t && mask[0..] == mask;
    FilterFromPositions(t, mask, 0);
    var p := Positions(mask, 0);
    assert FilterByMask(t, mask) == seq(|p|, k requires 0 <= k < |p| => t[p[k]]);
  }


  lemma {:induction false} FilterFromPositions(t: seq<Row>, mask: seq<bool>, i: nat)
    requires |mask| == |t| && i <= |t|
    ensures AtPositions(FilterByMask(t[i..], mask[i..]), t, mask, i)
    decreases |t| - i
  {
    if i < |t| {
      FilterFromPositions(t, mask, i + 1);
      FilterStep(t, mask, i);
      ConsPositions(t, mask, i, FilterByMask(t[i + 1..], mask[i + 1..]));
    }
  }

  /** `r` lists the rows of `t` at the set positions from `i` on, in order. */
  predicate AtPositions(r: seq<Row>, t: seq<Row>, mask: seq<bool>, i: nat)
    requires |mask| == |t| && i <= |t|
  {
    var p := Positions(mask, i);
    |r| == |p| && forall k :: 0 <= k < |p| ==> r[k] == t[p[k]]
  }

  lemma ConsPositions(t: seq<Row>, mask: seq<bool>, i: nat, r: seq<Row>)
    requires |mask| == |t| && i < |t| && AtPositions(r, t, mask, i + 1)
    ensures AtPositions((if mask[i] then [t[i]] else []) + r, t, mask, i)
  {
    var p := Positions(mask, i + 1);
    if mask[i] {
      assert Positions(mask, i) == [i] + p;
      forall k | 1 <= k <= |p| ensures ([t[i]] + r)[k] == t[([i] + p)[k]] {
        assert ([t[i]] + r)[k] == r[k - 1] && ([i] + p)[k] == p[k - 1];
      }
    } else {
      assert [] + r == r;
    }
  }

  /** One step of the filter from position `i`: the row there is kept exactly when its bit is set. */
  lemma FilterStep(t: seq<Row>, mask: seq<bool>, i: nat)
    requires |mask| == |t| && i < |t|
    ensures FilterByMask(t[i..], mask[i..]) ==
      (if mask[i] then [t[i]] else []) + FilterByMask(t[i + 1..], mask[i + 1..])
  {
    assert t[i..][1..] == t[i + 1..] && mask[i..][1..] == mask[i + 1..];
  }

  /** Filtering with an all-true mask keeps the frame as it is. */
  lemma {:induction false} FilterAllTrue(t: seq<Row>, mask: seq<bool>)
    requires |mask| == |t| && forall i :: 0 <= i < |mask| ==> mask[i]
    ensures FilterByMask(t, mask) == t
  {
    if |t| > 0 {
      FilterAllTrue(t[1..], mask[1..]);
    }
  }

  /** The frame written out after outlier removal (`df_filtered`). */
  function Filtered(t: seq<Row>, z: seq<seq<Option<real>>>): seq<Row>
    requires WellShaped(z, |t|)
  {
    FilterByMask(t, Mask(z, |t|))
  }

  /**
    A row survives when every feature passes, and every surviving row is a
    source row at which every feature passes.
   */
  lemma FilteredRows(t: seq<Row>, z: seq<seq<Option<real>>>, i: nat)
    requires WellShaped(z, |t|) && i < |t|
    ensures (forall f :: 0 <= f < |NumFeatures| ==> Passes(z[f][i])) ==> t[i] in Filtered(t, z)
    ensures forall x :: x in Filtered(t, z) ==>
              exists j :: 0 <= j < |t| && t[j] == x &&
                forall f :: 0 <= f < |NumFeatures| ==> Passes(z[f][j])
  {
    MaskAfterMeaning(z, |t|, |z|, i);
    forall x | x in Filtered(t, z)
      ensures exists j :: 0 <= j < |t| && t[j] == x &&
                forall f :: 0 <= f < |NumFeatures| ==> Passes(z[f][j])
    {
      var j :| 0 <= j < |t| && Mask(z, |t|)[j] && t[j] == x;
      MaskAfterMeaning(z, |t|, |z|, j);
    }
  }

  /**
    The written frame is the rows at positions `p`, in order, where `p` is
    increasing and holds a row's position exactly when every feature passes
    there.
   */
  lemma FilteredInOrder(t: seq<Row>, z: seq<seq<Option<real>>>)
    requires WellShaped(z, |t|)
    ensures var p := Positions(Mask(z, |t|), 0);
      && Filtered(t, z) == seq(|p|, k requires 0 <= k < |p| => t[p[k]])
      && (forall k, l :: 0 <= k < l < |p| ==> p[k] < p[l])
      && (forall i :: 0 <= i < |t| ==>
            (i in p <==> forall f :: 0 <= f < |NumFeatures| ==> Passes(z[f][i])))
  {
    var mask := Mask(z, |t|);
    FilterByMaskPositions(t, mask);
    PositionsMeaning(mask, 0);
    forall i | 0 <= i < |t|
      ensures mask[i] <==> forall f :: 0 <= f < |NumFeatures| ==> Passes(z[f][i])
    {
      MaskAfterMeaning(z, |t|, |z|, i);
    }
  }

  /** A z-score of 3.5 in one feature drops the row, whatever the others are. */
  lemma OneLargeScoreDrops(z: seq<seq<Option<real>>>, n: nat, i: nat, f: nat)
    requires WellShaped(z, n) && i < n && f < |NumFeatures|
    requires z[f][i] == Some(3.5)
    ensures !Mask(z, n)[i]
  {
    MaskAfterMeaning(z, n, |z|, i);
  }

  /** A row scoring 2.9 in all ten features is kept. */
  lemma AllBelowThreeKept(z: seq<seq<Option<real>>>, n: nat, i: nat)
    requires WellShaped(z, n) && i < n
    requires forall f :: 0 <= f < |NumFeatures| ==> z[f][i] == Some(2.9)
    ensures Mask(z, n)[i]
  {
    MaskAfterMeaning(z, n, |z|, i);
  }

  /** A score of exactly 3, on either side, is an outlier: the comparison is strict. */
  lemma ThresholdIsStrict()
    ensures !Passes(Some(3.0)) && !Passes(Some(-3.0)) && !Passes(None)
  {
  }
}
