/** The trend extrapolator that writes `data/predicted_census_data_1.csv`: rows missing a
    percentage are dropped, a straight line is fitted through the 2011 and 2016 values of
    each threshold, evaluated at the target year and clipped to [0, 100]. */
module Trend {
  import opened Cells
  import opened Frames
  import opened TwoYear
  import opened Census

  /** The target year `predict_future` uses when none is given. */
  const DefaultFutureYear: int := 2017

  /** A row of the predictive file together with the two added columns. */
  datatype Prediction = Prediction(row: PredictiveRow, predicted65: real, predicted85: real)

  /** The pair `predict_future` returns, before clipping. */
  datatype Forecast = Forecast(predicted65: real, predicted85: real)

  /** The required-column mask: all four percentages are present. */
  predicate Complete(r: PredictiveRow)
  {
    r.percent65in2011.Some? && r.percent65in2016.Some? && r.percent85in2011.Some? && r.percent85in2016.Some?
  }

  // ----- Ordinary least squares, the fit `LinearRegression` performs -----

  function Sum(xs: seq<real>): real
  {
    if xs == [] then 0.0 else xs[0] + Sum(xs[1..])
  }

  function Mean(xs: seq<real>): real
    requires |xs| > 0
  {
    Sum(xs) / |xs| as real
  }

  /** Sum of (x - mx) * (y - my) over paired samples. */
  function CrossDeviation(xs: seq<real>, ys: seq<real>, mx: real, my: real): real
    requires |xs| == |ys|
  {
    if xs == [] then 0.0 else (xs[0] - mx) * (ys[0] - my) + CrossDeviation(xs[1..], ys[1..], mx, my)
  }

  /** The least-squares line through the points (xs[i], ys[i]) evaluated at `x`; when all
      xs coincide the slope is taken as 0 and the line is the mean of ys. */
  function LeastSquaresAt(xs: seq<real>, ys: seq<real>, x: real): real
    requires |xs| == |ys| > 0
  {
    var mx, my := Mean(xs), Mean(ys);
    var spread := CrossDeviation(xs, xs, mx, mx);
    var slope := if spread == 0.0 then 0.0 else CrossDeviation(xs, ys, mx, my) / spread;
    my + slope * (x - mx)
  }

  // ----- The closed form used by the model -----

  /** The line through (2011, p2011) and (2016, p2016), evaluated at `year`. */
  function TwoPointLine(p2011: real, p2016: real, year: int): (v: real)
    ensures v == LeastSquaresAt([2011.0, 2016.0], [p2011, p2016], year as real)
  {
    LeastSquaresTwoPoints(p2011, p2016, year as real);
    p2011 + (p2016 - p2011) * (year - 2011) as real / 5.0
  }

  /** Least squares over two samples at x = 2011 and x = 2016 is the line through them. */
  lemma LeastSquaresTwoPoints(a: real, b: real, x: real)
    ensures LeastSquaresAt([2011.0, 2016.0], [a, b], x) == a + (b - a) * (x - 2011.0) / 5.0
  {
    var xs, ys := [2011.0, 2016.0], [a, b];
    var my := (a + b) / 2.0;
    assert xs[1..] == [2016.0] && xs[1..][1..] == [];
    assert ys[1..] == [b] && ys[1..][1..] == [];
    assert Sum(xs) == 4027.0;
    assert Sum(ys) == a + b;
    assert CrossDeviation(xs[1..], xs[1..], 2013.5, 2013.5) == 6.25;
    assert CrossDeviation(xs, xs, 2013.5, 2013.5) == 12.5;
    assert CrossDeviation(xs[1..], ys[1..], 2013.5, my) == 2.5 * (b - my);
    assert CrossDeviation(xs, ys, 2013.5, my) == 2.5 * (b - a);
  }

  /** `predict_future`: one independent fit per threshold. */
  function PredictFuture(r: PredictiveRow, futureYear: int := DefaultFutureYear): (f: Forecast)
    requires Complete(r)
    ensures f.predicted65 == LeastSquaresAt([2011.0, 2016.0], [r.percent65in2011.value, r.percent65in2016.value], futureYear as real)
    ensures f.predicted85 == LeastSquaresAt([2011.0, 2016.0], [r.percent85in2011.value, r.percent85in2016.value], futureYear as real)
  {
    Forecast(
      TwoPointLine(r.percent65in2011.value, r.percent65in2016.value, futureYear),
      TwoPointLine(r.percent85in2011.value, r.percent85in2016.value, futureYear))
  }

  function ClipPercent(x: real): real
  {
    Clip(x, 0.0, 100.0)
  }

  /** The script's two column assignments: the row-wise apply, then the clip. Rows are
      first reduced to the complete ones. When none is complete the row-wise apply returns
      the empty frame itself, whose seven columns cannot be assigned to the two new ones:
      the script stops there and writes no file, which is `None`. The script calls
      `predict_future` without a year, so its run is `Extrapolate(table, DefaultFutureYear)`. */
  method Extrapolate(table: seq<PredictiveRow>, futureYear: int) returns (out: Option<seq<Prediction>>)
    ensures out.None? <==> Filter(table, Complete) == []
    ensures out.Some? ==> var kept := Filter(table, Complete);
      |out.value| == |kept| &&
      forall i :: 0 <= i < |kept| ==>
        out.value[i].row == kept[i] &&
        out.value[i].predicted65 == ClipPercent(PredictFuture(kept[i], futureYear).predicted65) &&
        out.value[i].predicted85 == ClipPercent(PredictFuture(kept[i], futureYear).predicted85)
    ensures out.Some? ==> forall i :: 0 <= i < |out.value| ==>
      0.0 <= out.value[i].predicted65 <= 100.0 && 0.0 <= out.value[i].predicted85 <= 100.0
  {
    var kept := Filter(table, Complete);
    if kept == [] {
      return None;
    }
    var rows: seq<Prediction> := [];
    var i := 0;
    while i < |kept|
      invariant 0 <= i <= |kept|
      invariant |rows| == i
      invariant forall j :: 0 <= j < i ==>
        rows[j].row == kept[j] &&
        rows[j].predicted65 == ClipPercent(PredictFuture(kept[j], futureYear).predicted65) &&
        rows[j].predicted85 == ClipPercent(PredictFuture(kept[j], futureYear).predicted85)
    {
      assert kept[i] in kept;
      var f := PredictFuture(kept[i], futureYear);
      rows := rows + [Prediction(kept[i], ClipPercent(f.predicted65), ClipPercent(f.predicted85))];
      i := i + 1;
    }
    return Some(rows);
  }

  /** The mask keeps a row exactly when all four percentages are present, in input order. */
  lemma CompleteRowsKept(table: seq<PredictiveRow>)
    ensures forall r :: r in Filter(table, Complete) <==> r in table && Complete(r)
    ensures Subseq(Filter(table, Complete), table)
  {
    FilterIsSubseq(table, Complete);
  }

  /** The unclipped prediction is p2011 + (p2016 - p2011) * (year - 2011) / 5, per threshold. */
  lemma ClosedForm(r: PredictiveRow, futureYear: int)
    requires Complete(r)
    ensures PredictFuture(r, futureYear).predicted65 ==
      r.percent65in2011.value + (r.percent65in2016.value - r.percent65in2011.value) * (futureYear - 2011) as real / 5.0
    ensures PredictFuture(r, futureYear).predicted85 ==
      r.percent85in2011.value + (r.percent85in2016.value - r.percent85in2011.value) * (futureYear - 2011) as real / 5.0
  {
    LeastSquaresTwoPoints(r.percent65in2011.value, r.percent65in2016.value, futureYear as real);
    LeastSquaresTwoPoints(r.percent85in2011.value, r.percent85in2016.value, futureYear as real);
  }

  /** The fitted line passes through both of its anchor points. */
  lemma LineHitsAnchors(r: PredictiveRow)
    requires Complete(r)
    ensures PredictFuture(r, 2011) == Forecast(r.percent65in2011.value, r.percent85in2011.value)
    ensures PredictFuture(r, 2016) == Forecast(r.percent65in2016.value, r.percent85in2016.value)
  {
    ClosedForm(r, 2011);
    ClosedForm(r, 2016);
  }

  /** Equal anchors give a flat line: the same prediction for every year. */
  lemma FlatWhenUnchanged(r: PredictiveRow, futureYear: int)
    requires Complete(r)
    requires r.percent65in2011 == r.percent65in2016 && r.percent85in2011 == r.percent85in2016
    ensures PredictFuture(r, futureYear) == Forecast(r.percent65in2016.value, r.percent85in2016.value)
  {
    ClosedForm(r, futureYear);
  }

  /** Each threshold's prediction reads only its own two columns. */
  lemma ThresholdsAreIndependent(a: PredictiveRow, b: PredictiveRow, futureYear: int)
    requires Complete(a) && Complete(b)
    ensures a.percent65in2011 == b.percent65in2011 && a.percent65in2016 == b.percent65in2016 ==>
      PredictFuture(a, futureYear).predicted65 == PredictFuture(b, futureYear).predicted65
    ensures a.percent85in2011 == b.percent85in2011 && a.percent85in2016 == b.percent85in2016 ==>
      PredictFuture(a, futureYear).predicted85 == PredictFuture(b, futureYear).predicted85
  {
  }

  /** Anchors 10 and 14 extrapolated to 2021 give 18, which clipping leaves alone. */
  lemma ExampleTown(r: PredictiveRow)
    requires r.percent65in2011 == Some(10.0) && r.percent65in2016 == Some(14.0)
    requires Complete(r)
    ensures PredictFuture(r, 2021).predicted65 == 18.0
    ensures ClipPercent(PredictFuture(r, 2021).predicted65) == 18.0
  {
    ClosedForm(r, 2021);
  }

  /** A line rising past 100 is clipped to 100: anchors 90 and 99 reach 108 by 2021. */
  lemma ExampleClippedAbove(r: PredictiveRow)
    requires r.percent65in2011 == Some(90.0) && r.percent65in2016 == Some(99.0)
    requires Complete(r)
    ensures PredictFuture(r, 2021).predicted65 == 108.0
    ensures ClipPercent(PredictFuture(r, 2021).predicted65) == 100.0
  {
    ClosedForm(r, 2021);
  }

  /** The default target year is 2017, one year after the last census. */
  lemma DefaultYear(r: PredictiveRow)
    requires Complete(r)
    ensures PredictFuture(r) == PredictFuture(r, 2017)
    ensures PredictFuture(r).predicted65 ==
      r.percent65in2016.value + (r.percent65in2016.value - r.percent65in2011.value) / 5.0
  {
    ClosedForm(r, 2017);
  }

  /** From raw cells to forecast: 10 of 100 aged 65+ in 2011 and 14 of 100 in 2016 give
      percentages 10 and 14, and a 2021 forecast of 18. */
  lemma RawCellsToForecast(r: CensusRecord)
    requires Located(r)
    requires r.count65in2011 == "10" && r.total2011 == "100"
    requires r.count65in2016 == "14" && r.total2016 == "100"
    requires ToNumeric(r.count85in2011).Some? && ToNumeric(r.count85in2016).Some?
    ensures TwoYear.Normalize(r).percent65in2011 == Some(10.0)
    ensures TwoYear.Normalize(r).percent65in2016 == Some(14.0)
    ensures Complete(TwoYear.Normalize(r))
    ensures PredictFuture(TwoYear.Normalize(r), 2021).predicted65 == 18.0
  {
    ExampleCells();
    var out := TwoYear.Normalize(r);
    assert out.percent65in2011 == Percent(Some(10.0), Some(100.0));
    assert out.percent65in2016 == Percent(Some(14.0), Some(100.0));
    ExampleTown(out);
  }

  /** The cells of the example above coerce to the counts they print. */
  lemma ExampleCells()
    ensures ToNumeric("10") == Some(10.0) && ToNumeric("14") == Some(14.0) && ToNumeric("100") == Some(100.0)
  {
    assert Numeral(10) == "10";
    NumeralRoundTrip(10);
    assert Numeral(14) == "14";
    NumeralRoundTrip(14);
    assert Numeral(100) == "100";
    NumeralRoundTrip(100);
  }
}
