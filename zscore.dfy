/**
  What the library's z-score test `np.abs(stats.zscore(col)) < 3` decides on
  the values of one feature column.  The score of a value x is
  (x - m) / s with m the mean and s the population standard deviation, so
  for s > 0 the test holds exactly when (x - m)^2 < 9 v with v = s^2; this
  form needs no square root.  A NaN anywhere in the column makes every score
  NaN, and s = 0 makes every score 0/0 = NaN; both reject every row, and with
  v = 0 the squared form fails on its own.
 */
module ZScore {
  import opened Table
  import OutlierFilter

  /** A feature column as numbers; anything but a number reads as NaN. */
  function FeatureValues(t: seq<Row>, f: Column): (col: seq<Option<real>>)
    ensures |col| == |t|
    ensures forall i :: 0 <= i < |t| ==>
      col[i] == if Get(t[i], f).Num? then Some(Get(t[i], f).value) else None
  {
    seq(|t|, i requires 0 <= i < |t| =>
      if Get(t[i], f).Num? then Some(Get(t[i], f).value) else None)
  }

  /** The values of a column, or `None` when one of them is NaN. */
  function AllNumbers(col: seq<Option<real>>): (r: Option<seq<real>>)
    ensures r.None? <==> None in col
    ensures r.Some? ==> |r.value| == |col|
    ensures r.Some? ==> forall i :: 0 <= i < |col| ==> col[i] == Some(r.value[i])
  {
    if |col| == 0 then Some([])
    else
      assert col == [col[0]] + col[1..];
      match (col[0], AllNumbers(col[1..]))
      case (Some(x), Some(rest)) => Some([x] + rest)
      case _ => None
  }

  function Square(d: real): (s: real)
    ensures s >= 0.0
  {
    d * d
  }

  function Sum(xs: seq<real>): real
  {
    if |xs| == 0 then 0.0 else xs[0] + Sum(xs[1..])
  }

  /** Sum of squared deviations from `m`. */
  function SqDev(xs: seq<real>, m: real): real
  {
    if |xs| == 0 then 0.0 else Square(xs[0] - m) + SqDev(xs[1..], m)
  }

  function Mean(xs: seq<real>): real
    requires |xs| > 0
  {
    Sum(xs) / (|xs| as real)
  }

  /** Population variance (no degrees-of-freedom correction). */
  function Variance(xs: seq<real>): real
    requires |xs| > 0
  {
    SqDev(xs, Mean(xs)) / (|xs| as real)
  }

  /** For each value, whether its squared deviation from `m` is below `b`. */
  function Near(xs: seq<real>, m: real, b: real): (near: seq<bool>)
    ensures |near| == |xs|
  {
    if |xs| == 0 then [] else [Square(xs[0] - m) < b] + Near(xs[1..], m, b)
  }

  lemma {:induction false} NearAt(xs: seq<real>, i: nat, m: real, b: real)
    requires i < |xs|
    ensures Near(xs, m, b)[i] == (Square(xs[i] - m) < b)
  {
    if i > 0 {
      NearAt(xs[1..], i - 1, m, b);
    }
  }

  /** For each value, whether it lies within three standard deviations of the mean. */
  function WithinThreeSigma(xs: seq<real>): (near: seq<bool>)
    requires |xs| > 0
    ensures |near| == |xs|
  {
    Near(xs, Mean(xs), 9.0 * Variance(xs))
  }

  /** `np.abs(stats.zscore(col)) < 3`, per row. */
  function ZBelowThree(col: seq<Option<real>>): (fm: seq<bool>)
    ensures |fm| == |col|
  {
    if None in col || |col| == 0 then seq(|col|, _ => false)
    else WithinThreeSigma(AllNumbers(col).value)
  }

  /**
    A value passes exactly when it lies strictly within three standard
    deviations of the mean: with `s` the standard deviation, when s > 0 and
    -3s < x - m < 3s.
   */
  lemma WithinThreeSigmaMeaning(xs: seq<real>, i: nat, s: real)
    requires i < |xs|
    requires s >= 0.0 && s * s == Variance(xs)
    ensures WithinThreeSigma(xs)[i] <==> s > 0.0 && -3.0 * s < xs[i] - Mean(xs) < 3.0 * s
  {
    var m := Mean(xs);
    var b := 9.0 * Variance(xs);
    NearAt(xs, i, m, b);
    SquareWithin(xs[i] - m, s, b);
  }

  /** For s >= 0 and b = 9 s^2, d^2 < b exactly when s > 0 and |d| < 3 s. */
  lemma SquareWithin(d: real, s: real, b: real)
    requires s >= 0.0 && b == 9.0 * (s * s)
    ensures Square(d) < b <==> s > 0.0 && -3.0 * s < d < 3.0 * s
  {
    var a := if d >= 0.0 then d else -d;
    assert Square(d) == a * a;
    if a < 3.0 * s {
      assert a * a <= a * (3.0 * s);
      assert a * (3.0 * s) < (3.0 * s) * (3.0 * s);
    } else {
      assert (3.0 * s) * (3.0 * s) <= a * (3.0 * s);
      assert a * (3.0 * s) <= a * a;
    }
  }

  /**
    The library's score agrees with the mask: a value's score (x - m) / s,
    for a positive standard deviation s, passes the threshold of the outlier
    loop exactly when the value is within three standard deviations.
   */
  lemma LibraryScoreAgrees(xs: seq<real>, i: nat, s: real)
    requires i < |xs|
    requires s > 0.0 && s * s == Variance(xs)
    ensures OutlierFilter.Passes(Some((xs[i] - Mean(xs)) / s)) <==> WithinThreeSigma(xs)[i]
  {
    WithinThreeSigmaMeaning(xs, i, s);
    ScaleWithin(xs[i] - Mean(xs), s);
  }

  /** For s > 0, -3 < d / s < 3 exactly when -3 s < d < 3 s. */
  lemma ScaleWithin(d: real, s: real)
    requires s > 0.0
    ensures -3.0 < d / s < 3.0 <==> -3.0 * s < d < 3.0 * s
  {
    var q := d / s;
    assert d == q * s;
    if q < 3.0 {
      assert q * s < 3.0 * s;
    } else {
      assert 3.0 * s <= q * s;
    }
    if -3.0 < q {
      assert -3.0 * s < q * s;
    } else {
      assert q * s <= -3.0 * s;
    }
  }

  /** `s` is the population standard deviation of the column's values, when it has one. */
  predicate IsStdDev(col: seq<Option<real>>, s: real)
  {
    s >= 0.0 && (None !in col && |col| > 0 ==> s * s == Variance(AllNumbers(col).value))
  }

  /**
    `stats.zscore(col)` with `s` the column's standard deviation: a NaN in the
    column makes every score NaN, and so does s = 0, where every deviation is
    0 and every score 0/0; otherwise the score of x is (x - m) / s.
   */
  function Scores(col: seq<Option<real>>, s: real): (z: seq<Option<real>>)
    ensures |z| == |col|
  {
    if None in col || |col| == 0 || s == 0.0 then seq(|col|, _ => None)
    else
      var xs := AllNumbers(col).value;
      seq(|col|, i requires 0 <= i < |col| => Some((xs[i] - Mean(xs)) / s))
  }

  /** The score passes the mask's test exactly when the three-sigma test holds. */
  lemma ScoresAgree(col: seq<Option<real>>, s: real, i: nat)
    requires i < |col| && IsStdDev(col, s)
    ensures OutlierFilter.Passes(Scores(col, s)[i]) == ZBelowThree(col)[i]
  {
    if None !in col {
      var xs := AllNumbers(col).value;
      if s == 0.0 {
        WithinThreeSigmaMeaning(xs, i, s);
      } else {
        LibraryScoreAgrees(xs, i, s);
      }
    }
  }

  /** One standard deviation per screened feature of the frame. */
  predicate StdDevs(t: seq<Row>, sd: seq<real>)
  {
    && |sd| == |OutlierFilter.NumFeatures|
    && forall f :: 0 <= f < |sd| ==> IsStdDev(FeatureValues(t, OutlierFilter.NumFeatures[f]), sd[f])
  }

  /** The z-scores the outlier loop reads, feature by feature. */
  function LibraryScores(t: seq<Row>, sd: seq<real>): (z: seq<seq<Option<real>>>)
    requires |sd| == |OutlierFilter.NumFeatures|
    ensures OutlierFilter.WellShaped(z, |t|)
  {
    seq(|OutlierFilter.NumFeatures|, f requires 0 <= f < |OutlierFilter.NumFeatures| =>
      Scores(FeatureValues(t, OutlierFilter.NumFeatures[f]), sd[f]))
  }

  /**
    With the library's scores, the outlier loop keeps a row exactly when the
    three-sigma test holds for it in every screened feature.
   */
  lemma LibraryMask(t: seq<Row>, sd: seq<real>, i: nat)
    requires StdDevs(t, sd) && i < |t|
    ensures OutlierFilter.Mask(LibraryScores(t, sd), |t|)[i]
        <==> forall f :: 0 <= f < |OutlierFilter.NumFeatures| ==>
               ZBelowThree(FeatureValues(t, OutlierFilter.NumFeatures[f]))[i]
  {
    var z := LibraryScores(t, sd);
    var ok := seq(|OutlierFilter.NumFeatures|, f requires 0 <= f < |OutlierFilter.NumFeatures| =>
      ZBelowThree(FeatureValues(t, OutlierFilter.NumFeatures[f]))[i]);
    forall f | 0 <= f < |OutlierFilter.NumFeatures| ensures OutlierFilter.Passes(z[f][i]) == ok[f] {
      FeatureScoreAgrees(t, sd, f, i);
    }
    OutlierFilter.MaskAgrees(z, |t|, i, ok);
    assert forall f :: 0 <= f < |ok| ==>
      ok[f] == ZBelowThree(FeatureValues(t, OutlierFilter.NumFeatures[f]))[i];
  }

  lemma FeatureScoreAgrees(t: seq<Row>, sd: seq<real>, f: nat, i: nat)
    requires StdDevs(t, sd) && f < |OutlierFilter.NumFeatures| && i < |t|
    ensures OutlierFilter.Passes(LibraryScores(t, sd)[f][i])
         == ZBelowThree(FeatureValues(t, OutlierFilter.NumFeatures[f]))[i]
  {
    var col := FeatureValues(t, OutlierFilter.NumFeatures[f]);
    assert LibraryScores(t, sd)[f] == Scores(col, sd[f]);
    ScoresAgree(col, sd[f], i);
  }

  /** A NaN anywhere in one screened feature empties the written frame. */
  lemma NaNEmptiesFrame(t: seq<Row>, sd: seq<real>, f: nat)
    requires StdDevs(t, sd) && f < |OutlierFilter.NumFeatures|
    requires None in FeatureValues(t, OutlierFilter.NumFeatures[f])
    ensures OutlierFilter.Filtered(t, LibraryScores(t, sd)) == []
  {
    var z := LibraryScores(t, sd);
    var col := FeatureValues(t, OutlierFilter.NumFeatures[f]);
    assert z[f] == seq(|col|, _ => None);
    forall i | 0 <= i < |t| ensures !OutlierFilter.Mask(z, |t|)[i] {
      OutlierFilter.MaskAfterMeaning(z, |t|, |z|, i);
      assert !OutlierFilter.Passes(z[f][i]);
    }
    CountTrueAllFalse(OutlierFilter.Mask(z, |t|));
  }

  /**
    The values at or beyond the bound `b` contribute at least `b` each to the
    sum of squared deviations.
   */
  lemma {:induction false} SqDevBound(xs: seq<real>, m: real, b: real)
    requires b >= 0.0
    ensures SqDev(xs, m) >= b * ((|xs| - CountTrue(Near(xs, m, b))) as real)
  {
    if |xs| > 0 {
      SqDevBound(xs[1..], m, b);
      var far := |xs[1..]| - CountTrue(Near(xs[1..], m, b));
      assert Near(xs, m, b)[1..] == Near(xs[1..], m, b);
      if Square(xs[0] - m) < b {
        assert |xs| - CountTrue(Near(xs, m, b)) == far;
      } else {
        assert |xs| - CountTrue(Near(xs, m, b)) == far + 1;
        assert b * ((far + 1) as real) == b * (far as real) + b;
      }
    }
  }

  lemma ChebyshevStep(sq: real, n: real, dropped: real)
    requires n > 0.0 && sq / n > 0.0 && sq >= 9.0 * (sq / n) * dropped
    ensures n >= 9.0 * dropped
  {
    var v := sq / n;
    assert sq == v * n;
    assert v * n >= v * (9.0 * dropped);
  }

  /**
    One feature with no NaN and a positive variance rejects at most a ninth
    of the rows (Chebyshev's inequality).
   */
  lemma AtMostANinthRejected(xs: seq<real>)
    requires |xs| > 0 && Variance(xs) > 0.0
    ensures 9 * (|xs| - CountTrue(WithinThreeSigma(xs))) <= |xs|
  {
    var m := Mean(xs);
    var v := Variance(xs);
    var dropped := |xs| - CountTrue(Near(xs, m, 9.0 * v));
    SqDevBound(xs, m, 9.0 * v);
    ChebyshevStep(SqDev(xs, m), |xs| as real, dropped as real);
  }

  lemma {:induction false} SumConstant(xs: seq<real>, c: real)
    requires forall i :: 0 <= i < |xs| ==> xs[i] == c
    ensures Sum(xs) == (|xs| as real) * c
  {
    if |xs| > 0 {
      SumConstant(xs[1..], c);
    }
  }

  lemma {:induction false} SqDevConstant(xs: seq<real>, c: real, m: real)
    requires forall i :: 0 <= i < |xs| ==> xs[i] == c
    ensures SqDev(xs, m) == (|xs| as real) * Square(c - m)
  {
    if |xs| > 0 {
      SqDevConstant(xs[1..], c, m);
    }
  }

  /** A feature with one value throughout has no spread and rejects every row. */
  lemma ConstantRejectsAll(xs: seq<real>, c: real, i: nat)
    requires forall j :: 0 <= j < |xs| ==> xs[j] == c
    requires i < |xs|
    ensures !WithinThreeSigma(xs)[i]
  {
    var n := |xs| as real;
    SumConstant(xs, c);
    assert Mean(xs) == c by {
      assert Sum(xs) / n == (n * c) / n;
    }
    SqDevConstant(xs, c, c);
    NearAt(xs, i, c, 9.0 * Variance(xs));
  }

  lemma {:induction false} SumAppend(a: seq<real>, b: seq<real>)
    ensures Sum(a + b) == Sum(a) + Sum(b)
  {
    if |a| == 0 {
      assert a + b == b;
    } else {
      SumAppend(a[1..], b);
      assert (a + b)[0] == a[0] && (a + b)[1..] == a[1..] + b;
    }
  }

  lemma {:induction false} SqDevAppend(a: seq<real>, b: seq<real>, m: real)
    ensures SqDev(a + b, m) == SqDev(a, m) + SqDev(b, m)
  {
    if |a| == 0 {
      assert a + b == b;
    } else {
      SqDevAppend(a[1..], b, m);
      assert (a + b)[0] == a[0] && (a + b)[1..] == a[1..] + b;
    }
  }

  /**
    Seventeen readings, sixteen at 0 and one at 1: the mean is 1/17 and the
    variance 16/289, so the standard deviation is 4/17. The reading at 1 has
    z = 4 and is rejected; the sixteen at 0 have z = -1/4 and are kept.
   */
  lemma FarReadingIsRejected(i: nat)
    requires i < 17
    ensures WithinThreeSigma(seq(16, _ => 0.0) + [1.0])[i] == (i < 16)
  {
    var zeros := seq(16, _ => 0.0);
    var xs := zeros + [1.0];
    SumAppend(zeros, [1.0]);
    SumConstant(zeros, 0.0);
    assert Mean(xs) == 1.0 / 17.0;
    SqDevAppend(zeros, [1.0], 1.0 / 17.0);
    SqDevConstant(zeros, 0.0, 1.0 / 17.0);
    assert SqDev([1.0], 1.0 / 17.0) == Square(16.0 / 17.0);
    assert Variance(xs) == 16.0 / 289.0;
    NearAt(xs, i, 1.0 / 17.0, 144.0 / 289.0);
  }
}
