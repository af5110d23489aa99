/** The series `plot_ticker_usd` draws: the close in USD through the CCL rate with
    the missing rows dropped, optionally rebased to 100 on the first row. Drawing
    the chart is not part of the model. */
module PlotPrep {
  import opened Wrappers
  import opened Series
  import opened Returns

  /** A plotted point: its row on the day grid and its value. */
  type Point = (nat, real)

  /** `dropna()` on a series indexed by grid row, from row `from` on: the observed
      rows in order, each with its value. */
  function Observed(s: seq<Option<real>>, from: nat): (pts: seq<Point>)
    requires from <= |s|
    ensures forall k :: 0 <= k < |pts| ==> from <= pts[k].0 < |s| && s[pts[k].0] == Some(pts[k].1)
    ensures forall k, l :: 0 <= k < l < |pts| ==> pts[k].0 < pts[l].0
    decreases |s| - from
  {
    if from == |s| then []
    else
      var rest := Observed(s, from + 1);
      if s[from].Some? then
        var pts := [(from, s[from].value)] + rest;
        assert forall k :: 0 < k < |pts| ==> pts[k] == rest[k - 1];
        pts
      else rest
  }

  /** No observed row is left out. */
  lemma {:induction false} ObservedComplete(s: seq<Option<real>>, from: nat, i: nat)
    requires from <= i < |s| && s[i].Some?
    ensures (i, s[i].value) in Observed(s, from)
    decreases i - from
  {
    if from < i {
      ObservedComplete(s, from + 1, i);
    }
  }

  const NoDataError: string := "Sin datos para ese rango."

  /** `x / first * 100` on a division outcome: scaling keeps infinities and NaN. */
  function Rebase(x: real, first: real): (r: Ext)
    ensures first != 0.0 ==> r.Finite? && r.v * first == 100.0 * x
    ensures first == 0.0 ==> r == Quotient(x, first)
  {
    var q := Quotient(x, first);
    if q.Finite? then Finite(q.v * 100.0) else q
  }

  /** `(ser / ccl).dropna()`: the rows where both the close and the rate are known,
      in order, each with its USD value. */
  function UsdPoints(close: seq<Option<real>>, ccl: seq<Option<real>>): (pts: seq<Point>)
    requires |close| == |ccl| && PositiveSeq(ccl)
    ensures |pts| == 0 <==> forall i :: 0 <= i < |close| ==> close[i].None? || ccl[i].None?
    ensures forall k :: 0 <= k < |pts| ==>
      pts[k].0 < |close| && ToUsd(close, ccl)[pts[k].0] == Some(pts[k].1)
    ensures forall k, l :: 0 <= k < l < |pts| ==> pts[k].0 < pts[l].0
    ensures forall i :: 0 <= i < |close| && close[i].Some? && ccl[i].Some? ==>
      exists k :: 0 <= k < |pts| && pts[k].0 == i
  {
    var usd := ToUsd(close, ccl);
    var pts := Observed(usd, 0);
    assert forall i :: 0 <= i < |close| ==> (usd[i].None? <==> close[i].None? || ccl[i].None?);
    assert |pts| > 0 ==> usd[pts[0].0].Some?;
    forall i | 0 <= i < |close| && usd[i].Some? ensures exists k :: 0 <= k < |pts| && pts[k].0 == i {
      ObservedComplete(usd, 0, i);
      var k :| 0 <= k < |pts| && pts[k] == (i, usd[i].value);
    }
    pts
  }

  /** Each plotted USD value times the rate of its day gives back the close of that day. */
  lemma UsdPointsValues(close: seq<Option<real>>, ccl: seq<Option<real>>, k: nat)
    requires |close| == |ccl| && PositiveSeq(ccl)
    requires k < |UsdPoints(close, ccl)|
    ensures var p := UsdPoints(close, ccl)[k];
      && close[p.0].Some? && ccl[p.0].Some?
      && p.1 * ccl[p.0].value == close[p.0].value
  {
    ToUsdInverts(close, ccl, UsdPoints(close, ccl)[k].0);
  }

  /** `usd / usd.iloc[0] * 100`: every point divided by the first one, times 100.
      On a non-zero first value the first point reads exactly 100 and every other
      keeps its ratio to the first. */
  function RebaseAll(pts: seq<Point>): (r: seq<(nat, Ext)>)
    requires |pts| > 0
    ensures |r| == |pts|
    ensures forall k :: 0 <= k < |r| ==> r[k].0 == pts[k].0
    ensures pts[0].1 != 0.0 ==> r[0].1 == Finite(100.0)
    ensures pts[0].1 != 0.0 ==> forall k :: 0 <= k < |r| ==>
      r[k].1.Finite? && r[k].1.v * pts[0].1 == 100.0 * pts[k].1
    ensures pts[0].1 == 0.0 ==> forall k :: 0 <= k < |r| ==> r[k].1 == Quotient(pts[k].1, 0.0)
  {
    var first := pts[0].1;
    var r := seq(|pts|, k requires 0 <= k < |pts| => (pts[k].0, Rebase(pts[k].1, first)));
    assert first != 0.0 ==> r[0].1 == Finite(100.0) by {
      if first != 0.0 {
        var q := r[0].1;
        assert q.v * first == 100.0 * first;
        assert (q.v - 100.0) * first == 0.0;
      }
    }
    r
  }

  /** The plotted series: USD values with missing rows dropped (an error when none is
      left), rebased so the first row reads 100 when `normalize` is set. */
  function PlotSeries(close: seq<Option<real>>, ccl: seq<Option<real>>, normalize: bool): (r: Result<seq<(nat, Ext)>, string>)
    requires |close| == |ccl| && PositiveSeq(ccl)
    ensures r.Failure? <==> forall i :: 0 <= i < |close| ==> close[i].None? || ccl[i].None?
    ensures r.Failure? ==> r.error == NoDataError
    ensures r.Success? ==> |r.value| == |UsdPoints(close, ccl)|
    ensures r.Success? ==> forall k :: 0 <= k < |r.value| ==> r.value[k].0 == UsdPoints(close, ccl)[k].0
    ensures r.Success? && !normalize ==> forall k :: 0 <= k < |r.value| ==>
      r.value[k].1 == Finite(UsdPoints(close, ccl)[k].1)
    ensures r.Success? && normalize ==> r.value == RebaseAll(UsdPoints(close, ccl))
  {
    var pts := UsdPoints(close, ccl);
    if |pts| == 0 then
      Failure(NoDataError)
    else if normalize then
      Success(RebaseAll(pts))
    else
      Success(seq(|pts|, k requires 0 <= k < |pts| => (pts[k].0, Finite(pts[k].1))))
  }

  /** With positive prices every USD point is positive. */
  lemma UsdPointsPositive(close: seq<Option<real>>, ccl: seq<Option<real>>)
    requires |close| == |ccl| && PositiveSeq(ccl) && PositiveSeq(close)
    ensures forall k :: 0 <= k < |UsdPoints(close, ccl)| ==> UsdPoints(close, ccl)[k].1 > 0.0
  {
  }
}
