/** Daily price series and the implied exchange rate ("CCL").
    A series lives on a grid of consecutive calendar days; a cell is `None` where
    pandas would hold NaN. Dates are integer day numbers with no time zone. */
module Series {
  import opened Wrappers

  type Day = int

  /** A calendar-day series: `values[k]` is the value on day `first + k`. */
  datatype Daily = Daily(first: Day, values: seq<Option<real>>)

  /** The outcomes of an IEEE-754 division of finite operands, as far as the bot
      can observe them: a finite value, an infinity, or NaN (0/0). */
  datatype Ext = NegInf | Finite(v: real) | PosInf | NaN

  /** `a / b` in floating point, ignoring rounding and signed zeros. */
  function Quotient(a: real, b: real): (q: Ext)
    ensures q.Finite? <==> b != 0.0
    ensures q.Finite? ==> q.v * b == a
    ensures q == PosInf <==> b == 0.0 && a > 0.0
    ensures q == NegInf <==> b == 0.0 && a < 0.0
    ensures q == NaN <==> b == 0.0 && a == 0.0
  {
    if b != 0.0 then Finite(a / b)
    else if a > 0.0 then PosInf
    else if a < 0.0 then NegInf
    else NaN
  }

  /** Every observed value is strictly positive. */
  predicate PositiveSeq(s: seq<Option<real>>) {
    forall i :: 0 <= i < |s| && s[i].Some? ==> s[i].value > 0.0
  }

  predicate PositiveQuotes(q: map<Day, Option<real>>) {
    forall d :: d in q && q[d].Some? ==> q[d].value > 0.0
  }

  predicate NonZeroQuotes(q: map<Day, Option<real>>) {
    forall d :: d in q && q[d].Some? ==> q[d].value != 0.0
  }

  /** Forward fill seeded with the value carried in from the left. */
  function FillFrom(s: seq<Option<real>>, carry: Option<real>): (r: seq<Option<real>>)
    ensures |r| == |s|
    ensures |s| > 0 && s[0].None? ==> r[0] == carry
    ensures forall i :: 0 <= i < |s| && s[i].Some? ==> r[i] == s[i]
    ensures forall i :: 0 < i < |s| && s[i].None? ==> r[i] == r[i - 1]
  {
    if |s| == 0 then []
    else
      var c := if s[0].Some? then s[0] else carry;
      var rest := FillFrom(s[1..], c);
      assert forall i :: 0 < i < |s| ==> s[i] == s[1..][i - 1];
      [c] + rest
  }

  /** pandas `ffill()`: an observed cell keeps its value, a gap takes the value of the
      cell before it, and a gap with nothing before it stays missing. */
  function ForwardFill(s: seq<Option<real>>): (r: seq<Option<real>>)
    ensures |r| == |s|
    ensures forall i :: 0 <= i < |s| && s[i].Some? ==> r[i] == s[i]
    ensures forall i :: 0 < i < |s| && s[i].None? ==> r[i] == r[i - 1]
    ensures |s| > 0 && s[0].None? ==> r[0].None?
  {
    FillFrom(s, None)
  }

  /** Once a value has been observed, every later cell is defined. */
  lemma {:induction false} FilledAfterObservation(s: seq<Option<real>>, k: nat, i: nat)
    requires k <= i < |s| && s[k].Some?
    ensures ForwardFill(s)[i].Some?
    decreases i
  {
    if i > k && s[i].None? {
      FilledAfterObservation(s, k, i - 1);
    }
  }

  /** Before the first observation every cell stays missing: filling only looks backwards. */
  lemma {:induction false} MissingBeforeObservation(s: seq<Option<real>>, i: nat)
    requires i < |s|
    requires forall k :: 0 <= k <= i ==> s[k].None?
    ensures ForwardFill(s)[i].None?
    decreases i
  {
    if i > 0 {
      MissingBeforeObservation(s, i - 1);
    }
  }

  /** A filled cell holds a value observed at or before it. */
  lemma {:induction false} FilledFromEarlier(s: seq<Option<real>>, i: nat)
    requires i < |s| && ForwardFill(s)[i].Some?
    ensures exists k :: 0 <= k <= i && s[k] == ForwardFill(s)[i]
    decreases i
  {
    if s[i].None? {
      if i == 0 {
        assert false;
      }
      FilledFromEarlier(s, i - 1);
      var k :| 0 <= k <= i - 1 && s[k] == ForwardFill(s)[i - 1];
      assert s[k] == ForwardFill(s)[i];
    }
  }

  /** Filling keeps a series strictly positive. */
  lemma ForwardFillPositive(s: seq<Option<real>>)
    requires PositiveSeq(s)
    ensures PositiveSeq(ForwardFill(s))
  {
    var r := ForwardFill(s);
    forall i | 0 <= i < |r| && r[i].Some? ensures r[i].value > 0.0 {
      FilledFromEarlier(s, i);
    }
  }

  /** Filling an already filled series changes nothing: the second `ffill()` the
      return computation applies to the rate is harmless. */
  lemma ForwardFillIdempotent(s: seq<Option<real>>)
    ensures ForwardFill(ForwardFill(s)) == ForwardFill(s)
  {
    var r := ForwardFill(s);
    var q := ForwardFill(r);
    forall i | 0 <= i < |s| ensures q[i] == r[i] {
      FillIdempotentAt(s, i);
    }
  }

  lemma {:induction false} FillIdempotentAt(s: seq<Option<real>>, i: nat)
    requires i < |s|
    ensures ForwardFill(ForwardFill(s))[i] == ForwardFill(s)[i]
    decreases i
  {
    var r := ForwardFill(s);
    if r[i].None? && i > 0 {
      FillIdempotentAt(s, i - 1);
    }
  }

  lemma HasElement(days: set<Day>)
    requires days != {}
    ensures exists x :: x in days
  {
    if forall x :: x !in days {
      assert false;
    }
  }

  /** The smallest element of a non-empty set of days, found by removing one
      element at a time. */
  ghost function MinOf(days: set<Day>): (m: Day)
    requires days != {}
    ensures m in days && forall d :: d in days ==> m <= d
    decreases |days|
  {
    HasElement(days);
    var x :| x in days;
    var rest := days - {x};
    if rest == {} then
      assert days == {x};
      x
    else
      var m := MinOf(rest);
      assert forall d :: d in days ==> d == x || d in rest;
      if x < m then x else m
  }

  /** The largest element, likewise. */
  ghost function MaxOf(days: set<Day>): (m: Day)
    requires days != {}
    ensures m in days && forall d :: d in days ==> d <= m
    decreases |days|
  {
    HasElement(days);
    var x :| x in days;
    var rest := days - {x};
    if rest == {} then
      assert days == {x};
      x
    else
      var m := MaxOf(rest);
      assert forall d :: d in days ==> d == x || d in rest;
      if x > m then x else m
  }

  lemma MinExists(days: set<Day>)
    requires days != {}
    ensures exists m :: m in days && forall d :: d in days ==> m <= d
  {
    var m := MinOf(days);
  }

  lemma MaxExists(days: set<Day>)
    requires days != {}
    ensures exists m :: m in days && forall d :: d in days ==> d <= m
  {
    var m := MaxOf(days);
  }

  function FirstDay(days: set<Day>): (m: Day)
    requires days != {}
    ensures m in days && forall d :: d in days ==> m <= d
  {
    MinExists(days);
    var m :| m in days && forall d :: d in days ==> m <= d;
    m
  }

  function LastDay(days: set<Day>): (m: Day)
    requires days != {}
    ensures m in days && forall d :: d in days ==> d <= m
  {
    MaxExists(days);
    var m :| m in days && forall d :: d in days ==> d <= m;
    m
  }

  /** `ypf_ars / ypf_usd`: aligned on the union of both indices; a day missing from
      either side, or NaN on either side, gives NaN. */
  function Ratio(ars: map<Day, Option<real>>, usd: map<Day, Option<real>>): (q: map<Day, Option<real>>)
    requires NonZeroQuotes(usd)
    ensures q.Keys == ars.Keys + usd.Keys
    ensures forall d :: d in q ==>
      (q[d].Some? <==> d in ars && d in usd && ars[d].Some? && usd[d].Some?)
    ensures forall d :: d in q && q[d].Some? ==> q[d].value * usd[d].value == ars[d].value
  {
    map d | d in ars.Keys + usd.Keys ::
      if d in ars && d in usd && ars[d].Some? && usd[d].Some?
      then Some(ars[d].value / usd[d].value) else None
  }

  /** `asfreq("D")`: reindexes onto every calendar day from the first to the last
      index date; days absent from the index become NaN. An empty series stays empty. */
  function AsFreqDaily(q: map<Day, Option<real>>): (g: Daily)
    ensures q == map[] <==> g.values == []
    ensures forall k :: 0 <= k < |g.values| ==>
      g.values[k] == (if g.first + k in q then q[g.first + k] else None)
  {
    if q == map[] then Daily(0, [])
    else
      var lo, hi := FirstDay(q.Keys), LastDay(q.Keys);
      Daily(lo, seq(hi - lo + 1, k requires 0 <= k < hi - lo + 1 =>
        if lo + k in q then q[lo + k] else None))
  }

  /** The daily grid starts on the first index date and ends on the last. */
  lemma AsFreqEnds(q: map<Day, Option<real>>)
    ensures var g := AsFreqDaily(q);
      |g.values| > 0 ==> g.first in q && g.first + |g.values| - 1 in q
    ensures var g := AsFreqDaily(q);
      forall d :: d in q ==> g.first <= d < g.first + |g.values|
  {
    if q != map[] {
      var lo, hi := FirstDay(q.Keys), LastDay(q.Keys);
      assert AsFreqDaily(q).first == lo && |AsFreqDaily(q).values| == hi - lo + 1;
    }
  }

  /** Every observation of the index lands on its own day of the grid. */
  lemma AsFreqAt(q: map<Day, Option<real>>, d: Day)
    requires d in q
    ensures var g := AsFreqDaily(q);
      g.first <= d < g.first + |g.values| && g.values[d - g.first] == q[d]
  {
    AsFreqEnds(q);
    var g := AsFreqDaily(q);
    var k := d - g.first;
    assert g.values[k] == (if g.first + k in q then q[g.first + k] else None);
    assert g.first + k == d;
  }

  /** `download_ccl`: the ARS/USD ratio of the dual-listed share, on a daily grid,
      forward-filled. */
  function DownloadCcl(ars: map<Day, Option<real>>, usd: map<Day, Option<real>>): (ccl: Daily)
    requires NonZeroQuotes(usd)
    ensures var g := AsFreqDaily(Ratio(ars, usd));
      ccl.first == g.first && |ccl.values| == |g.values|
  {
    var g := AsFreqDaily(Ratio(ars, usd));
    Daily(g.first, ForwardFill(g.values))
  }

  /** On the filled daily grid, an observed index date keeps its own value. */
  lemma GridObserved(q: map<Day, Option<real>>, d: Day)
    requires d in q && q[d].Some?
    ensures var g := AsFreqDaily(q);
      g.first <= d < g.first + |g.values| && ForwardFill(g.values)[d - g.first] == q[d]
  {
    AsFreqAt(q, d);
    var g := AsFreqDaily(q);
    var k := d - g.first;
    assert g.values[k] == q[d];
  }

  /** On a day both markets quote, the rate is the quotient of the two prices. */
  lemma DownloadCclObserved(ars: map<Day, Option<real>>, usd: map<Day, Option<real>>, d: Day)
    requires NonZeroQuotes(usd)
    requires d in ars && d in usd && ars[d].Some? && usd[d].Some?
    ensures var ccl := DownloadCcl(ars, usd);
      && ccl.first <= d < ccl.first + |ccl.values|
      && ccl.values[d - ccl.first].Some?
      && ccl.values[d - ccl.first].value * usd[d].value == ars[d].value
  {
    var q := Ratio(ars, usd);
    assert d in q && q[d].Some?;
    assert q[d].value * usd[d].value == ars[d].value;
    GridObserved(q, d);
  }

  /** On the filled daily grid, a day that is not an observed index date repeats
      the day before it. */
  lemma GridCarries(q: map<Day, Option<real>>, d: Day)
    requires !(d in q && q[d].Some?)
    requires var g := AsFreqDaily(q); g.first < d < g.first + |g.values|
    ensures var g := AsFreqDaily(q);
      ForwardFill(g.values)[d - g.first] == ForwardFill(g.values)[d - 1 - g.first]
  {
    var g := AsFreqDaily(q);
    var k := d - g.first;
    assert g.values[k] == (if g.first + k in q then q[g.first + k] else None);
    assert g.values[k].None?;
  }

  /** A day on which the two markets do not both quote (a holiday in one of them,
      a missing price) takes the rate of the day before. */
  lemma DownloadCclCarries(ars: map<Day, Option<real>>, usd: map<Day, Option<real>>, d: Day)
    requires NonZeroQuotes(usd)
    requires !(d in ars && d in usd && ars[d].Some? && usd[d].Some?)
    requires var ccl := DownloadCcl(ars, usd); ccl.first < d < ccl.first + |ccl.values|
    ensures var ccl := DownloadCcl(ars, usd);
      ccl.values[d - ccl.first] == ccl.values[d - 1 - ccl.first]
  {
    var q := Ratio(ars, usd);
    assert !(d in q && q[d].Some?);
    GridCarries(q, d);
  }

  /** On the filled daily grid, a day with no observed index date at or before it
      stays missing. */
  lemma GridMissingBefore(q: map<Day, Option<real>>, d: Day)
    requires forall e :: e in q && q[e].Some? ==> d < e
    requires var g := AsFreqDaily(q); g.first <= d < g.first + |g.values|
    ensures var g := AsFreqDaily(q); ForwardFill(g.values)[d - g.first].None?
  {
    var g := AsFreqDaily(q);
    var i := d - g.first;
    forall k | 0 <= k <= i ensures g.values[k].None? {
      assert g.values[k] == (if g.first + k in q then q[g.first + k] else None);
    }
    MissingBeforeObservation(g.values, i);
  }

  /** Before the first day both markets quote, the rate stays NaN. */
  lemma DownloadCclMissingBefore(ars: map<Day, Option<real>>, usd: map<Day, Option<real>>, d: Day)
    requires NonZeroQuotes(usd)
    requires forall e :: e in ars && e in usd && ars[e].Some? && usd[e].Some? ==> d < e
    requires var ccl := DownloadCcl(ars, usd); ccl.first <= d < ccl.first + |ccl.values|
    ensures var ccl := DownloadCcl(ars, usd); ccl.values[d - ccl.first].None?
  {
    var q := Ratio(ars, usd);
    assert forall e :: e in q && q[e].Some? ==> d < e;
    GridMissingBefore(q, d);
  }

  /** Where both markets quote a positive price the ratio is positive. */
  lemma RatioPositive(ars: map<Day, Option<real>>, usd: map<Day, Option<real>>)
    requires PositiveQuotes(ars) && PositiveQuotes(usd)
    ensures PositiveQuotes(Ratio(ars, usd))
  {
    var q := Ratio(ars, usd);
    forall d | d in q && q[d].Some? ensures q[d].value > 0.0 {
      assert q[d].value * usd[d].value == ars[d].value;
    }
  }

  /** A positive index stays positive on the daily grid. */
  lemma AsFreqPositive(q: map<Day, Option<real>>)
    requires PositiveQuotes(q)
    ensures PositiveSeq(AsFreqDaily(q).values)
  {
  }

  /** With positive quotes on both markets the rate is strictly positive wherever it is defined. */
  lemma DownloadCclPositive(ars: map<Day, Option<real>>, usd: map<Day, Option<real>>)
    requires PositiveQuotes(ars) && PositiveQuotes(usd)
    ensures PositiveSeq(DownloadCcl(ars, usd).values)
  {
    var q := Ratio(ars, usd);
    RatioPositive(ars, usd);
    AsFreqPositive(q);
    ForwardFillPositive(AsFreqDaily(q).values);
  }

  /** On the filled daily grid, every day from an observed index date on is defined. */
  lemma GridDefinedFrom(q: map<Day, Option<real>>, d: Day, later: Day)
    requires d in q && q[d].Some?
    requires var g := AsFreqDaily(q); d <= later < g.first + |g.values|
    ensures var g := AsFreqDaily(q); ForwardFill(g.values)[later - g.first].Some?
  {
    var g := AsFreqDaily(q);
    AsFreqAt(q, d);
    var k := d - g.first;
    var i := later - g.first;
    assert 0 <= k <= i < |g.values|;
    FilledAfterObservation(g.values, k, i);
  }

  /** The rate is defined on every grid day from the first day both markets quote. */
  lemma DownloadCclDefinedFrom(ars: map<Day, Option<real>>, usd: map<Day, Option<real>>, d: Day, later: Day)
    requires NonZeroQuotes(usd)
    requires d in ars && d in usd && ars[d].Some? && usd[d].Some?
    requires var ccl := DownloadCcl(ars, usd); d <= later < ccl.first + |ccl.values|
    ensures var ccl := DownloadCcl(ars, usd); ccl.values[later - ccl.first].Some?
  {
    var q := Ratio(ars, usd);
    assert d in q && q[d].Some?;
    GridDefinedFrom(q, d, later);
  }
}
