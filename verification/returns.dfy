/** The return table of `get_var`: closes converted to USD through the CCL rate, the
    total return over the first and last rows, NaN dropped, values ascending. */
module Returns {
  import opened Wrappers
  import opened Series
  import opened Fetching

  /** The USD close: the peso close divided row by row by the CCL rate; a row with
      either side missing is missing. */
  function ToUsd(close: seq<Option<real>>, rate: seq<Option<real>>): (usd: seq<Option<real>>)
    requires |close| == |rate| && PositiveSeq(rate)
    ensures |usd| == |close|
    ensures forall i :: 0 <= i < |usd| ==> (usd[i].Some? <==> close[i].Some? && rate[i].Some?)
    ensures PositiveSeq(close) ==> PositiveSeq(usd)
  {
    seq(|close|, i requires 0 <= i < |close| =>
      if close[i].Some? && rate[i].Some? then Some(close[i].value / rate[i].value) else None)
  }

  /** Converting back: a USD value times the rate of its day is the peso close. */
  lemma ToUsdInverts(close: seq<Option<real>>, rate: seq<Option<real>>, i: nat)
    requires |close| == |rate| && PositiveSeq(rate)
    requires i < |close| && ToUsd(close, rate)[i].Some?
    ensures ToUsd(close, rate)[i].value * rate[i].value == close[i].value
  {
  }

  /** `(q - 1) * 100` lifted to the division outcomes: infinities and NaN pass through. */
  function Growth(q: Ext): (g: Ext)
    ensures g.Finite? <==> q.Finite?
    ensures g.Finite? ==> 1.0 + g.v / 100.0 == q.v
    ensures !q.Finite? ==> g == q
  {
    if q.Finite? then Finite((q.v - 1.0) * 100.0) else q
  }

  /** `(last / first - 1) * 100` over the first and last rows of one USD column. */
  function TotalReturn(usd: seq<Option<real>>): (r: Ext)
    requires |usd| > 0
    ensures r.Finite? <==> usd[0].Some? && usd[|usd| - 1].Some? && usd[0].value != 0.0
    ensures r.Finite? ==> usd[0].value * (1.0 + r.v / 100.0) == usd[|usd| - 1].value
    ensures r == NaN <==>
      usd[0].None? || usd[|usd| - 1].None? || (usd[0].value == 0.0 && usd[|usd| - 1].value == 0.0)
    ensures r == PosInf <==>
      usd[0].Some? && usd[|usd| - 1].Some? && usd[0].value == 0.0 && usd[|usd| - 1].value > 0.0
    ensures r == NegInf <==>
      usd[0].Some? && usd[|usd| - 1].Some? && usd[0].value == 0.0 && usd[|usd| - 1].value < 0.0
  {
    var first := usd[0];
    var last := usd[|usd| - 1];
    if first.Some? && last.Some? then Growth(Quotient(last.value, first.value)) else NaN
  }

  /** The return of one downloaded close series against the filled CCL rate. */
  function ColumnReturn(close: seq<Option<real>>, rate: seq<Option<real>>): (r: Ext)
    requires |close| == |rate| > 0 && PositiveSeq(rate)
    ensures r.Finite? ==> close[0].Some? && close[|close| - 1].Some? && rate[0].Some? && rate[|rate| - 1].Some?
  {
    TotalReturn(ToUsd(close, rate))
  }

  /** In peso terms: the USD growth factor is the peso growth factor deflated by the
      move of the CCL rate, `(1 + r/100) * close0 * rate_last == close_last * rate0`. */
  lemma ReturnInPesos(close: seq<Option<real>>, rate: seq<Option<real>>)
    requires |close| == |rate| > 0 && PositiveSeq(rate)
    requires close[0].Some? && close[|close| - 1].Some? && rate[0].Some? && rate[|rate| - 1].Some?
    requires close[0].value != 0.0
    ensures ColumnReturn(close, rate).Finite?
    ensures var g := 1.0 + ColumnReturn(close, rate).v / 100.0;
      g * close[0].value * rate[|rate| - 1].value == close[|close| - 1].value * rate[0].value
  {
    var usd := ToUsd(close, rate);
    var n := |close| - 1;
    var u0, un := usd[0].value, usd[n].value;
    var r0, rn := rate[0].value, rate[n].value;
    ToUsdInverts(close, rate, 0);
    ToUsdInverts(close, rate, n);
    assert u0 * r0 == close[0].value && un * rn == close[n].value;
    assert u0 != 0.0;
    var g := 1.0 + ColumnReturn(close, rate).v / 100.0;
    assert u0 * g == un;
  }

  /** With positive prices on both ends, the return is finite and above -100 %. */
  lemma ReturnAboveMinusHundred(close: seq<Option<real>>, rate: seq<Option<real>>)
    requires |close| == |rate| > 0 && PositiveSeq(rate) && PositiveSeq(close)
    requires close[0].Some? && close[|close| - 1].Some? && rate[0].Some? && rate[|rate| - 1].Some?
    ensures ColumnReturn(close, rate).Finite?
    ensures ColumnReturn(close, rate).v > -100.0
  {
    var usd := ToUsd(close, rate);
    var n := |close| - 1;
    var u0, un := usd[0].value, usd[n].value;
    ToUsdInverts(close, rate, 0);
    ToUsdInverts(close, rate, n);
    assert u0 * rate[0].value == close[0].value;
    assert un * rate[n].value == close[n].value;
    assert u0 > 0.0 && un > 0.0;
    var g := 1.0 + ColumnReturn(close, rate).v / 100.0;
    assert u0 * g == un;
    assert g > 0.0;
  }

  /** A row of the result table: ticker and return in percent. */
  type Entry = (string, Ext)

  /** The order `sort_values` puts values in: -inf, the finite values, +inf (NaN never
      reaches the sort). */
  function Rank(x: Ext): nat {
    match x
    case NegInf => 0
    case Finite(_) => 1
    case PosInf => 2
    case NaN => 3
  }

  predicate Le(x: Ext, y: Ext) {
    Rank(x) < Rank(y) || (Rank(x) == Rank(y) && (x.Finite? ==> x.v <= y.v))
  }

  predicate Ascending(t: seq<Entry>) {
    forall i, j :: 0 <= i < j < |t| ==> Le(t[i].1, t[j].1)
  }

  lemma LeTotal(x: Ext, y: Ext)
    ensures Le(x, y) || Le(y, x)
  {
  }

  lemma LeTrans(x: Ext, y: Ext, z: Ext)
    requires Le(x, y) && Le(y, z)
    ensures Le(x, z)
  {
  }

  function Insert(e: Entry, t: seq<Entry>): (r: seq<Entry>)
    requires Ascending(t)
    ensures Ascending(r)
    ensures multiset(r) == multiset(t) + multiset{e}
    decreases |t|
  {
    if |t| == 0 || Le(e.1, t[0].1) then
      forall j | 0 <= j < |t| ensures Le(e.1, t[j].1) {
        LeTrans(e.1, t[0].1, t[j].1);
      }
      AscendingCons(e, t);
      [e] + t
    else
      var rest := Insert(e, t[1..]);
      assert t == [t[0]] + t[1..];
      LeTotal(e.1, t[0].1);
      forall k | 0 <= k < |rest| ensures Le(t[0].1, rest[k].1) {
        assert rest[k] in multiset(rest);
      }
      AscendingCons(t[0], rest);
      [t[0]] + rest
  }

  /** An entry no greater than every entry of an ascending table can go first. */
  lemma AscendingCons(h: Entry, t: seq<Entry>)
    requires Ascending(t)
    requires forall k :: 0 <= k < |t| ==> Le(h.1, t[k].1)
    ensures Ascending([h] + t)
  {
    var r := [h] + t;
    forall i, j | 0 <= i < j < |r| ensures Le(r[i].1, r[j].1) {
      assert r[j] == t[j - 1];
      if i > 0 {
        assert r[i] == t[i - 1];
      }
    }
  }

  lemma {:induction false} InsertUnique(e: Entry, t: seq<Entry>)
    requires Ascending(t) && UniqueKeys(t) && !HasKey(t, e.0)
    ensures UniqueKeys(Insert(e, t))
    decreases |t|
  {
    var r := Insert(e, t);
    if |t| > 0 && !Le(e.1, t[0].1) {
      var rest := Insert(e, t[1..]);
      InsertUnique(e, t[1..]);
      assert r == [t[0]] + rest;
      forall k | 0 <= k < |rest| ensures rest[k].0 != t[0].0 {
        assert rest[k] in multiset(t[1..]) + multiset{e};
        if rest[k] != e {
          var j :| 0 <= j < |t[1..]| && t[1..][j] == rest[k];
          assert t[j + 1] == rest[k];
        }
      }
    } else {
      assert r == [e] + t;
    }
  }

  /** `sort_values()`: ascending, and a permutation of its input. */
  function SortByValue(t: seq<Entry>): (r: seq<Entry>)
    ensures Ascending(r)
    ensures multiset(r) == multiset(t)
    decreases |t|
  {
    if |t| == 0 then []
    else
      assert t == [t[0]] + t[1..];
      Insert(t[0], SortByValue(t[1..]))
  }

  lemma {:induction false} SortUnique(t: seq<Entry>)
    requires UniqueKeys(t)
    ensures UniqueKeys(SortByValue(t))
    decreases |t|
  {
    if |t| > 0 {
      assert t == [t[0]] + t[1..];
      var rest := SortByValue(t[1..]);
      SortUnique(t[1..]);
      forall k | 0 <= k < |rest| ensures rest[k].0 != t[0].0 {
        assert rest[k] in multiset(t[1..]);
      }
      InsertUnique(t[0], rest);
    }
  }

  /** `dropna()`: the NaN rows go, the rest keep their order. */
  function DropNaN(t: seq<Entry>): (r: seq<Entry>)
    ensures forall x :: x in r <==> x in t && x.1 != NaN
    ensures UniqueKeys(t) ==> UniqueKeys(r)
    decreases |t|
  {
    if |t| == 0 then []
    else
      var rest := DropNaN(t[1..]);
      assert forall x :: x in t <==> x == t[0] || x in t[1..];
      if t[0].1 == NaN then rest
      else
        assert UniqueKeys(t) ==> !HasKey(rest, t[0].0);
        [t[0]] + rest
  }

  /** `var` before the cleanup: one row per downloaded ticker, in `data` order. */
  function ReturnsOf(data: seq<Column>, rate: seq<Option<real>>): (t: seq<Entry>)
    requires |rate| > 0 && PositiveSeq(rate)
    requires forall k :: 0 <= k < |data| ==> |data[k].1| == |rate|
    ensures |t| == |data|
    ensures forall k :: 0 <= k < |data| ==> t[k] == (data[k].0, ColumnReturn(data[k].1, rate))
  {
    seq(|data|, k requires 0 <= k < |data| => (data[k].0, ColumnReturn(data[k].1, rate)))
  }

  /** `var.dropna().sort_values()`: ascending and free of NaN. */
  function ReturnTable(data: seq<Column>, rate: seq<Option<real>>): (table: seq<Entry>)
    requires |rate| > 0 && PositiveSeq(rate)
    requires forall k :: 0 <= k < |data| ==> |data[k].1| == |rate|
    ensures Ascending(table)
    ensures forall k :: 0 <= k < |table| ==> table[k].1 != NaN
  {
    var r := SortByValue(DropNaN(ReturnsOf(data, rate)));
    assert forall k :: 0 <= k < |r| ==> r[k] in multiset(r);
    r
  }

  /** The table holds exactly the non-NaN returns of the downloaded columns, one row
      per ticker. */
  lemma ReturnTableRows(data: seq<Column>, rate: seq<Option<real>>)
    requires |rate| > 0 && PositiveSeq(rate)
    requires forall k :: 0 <= k < |data| ==> |data[k].1| == |rate|
    ensures forall e :: e in ReturnTable(data, rate) <==>
      e.1 != NaN && exists k :: 0 <= k < |data| && e == (data[k].0, ColumnReturn(data[k].1, rate))
    ensures UniqueKeys(data) ==> UniqueKeys(ReturnTable(data, rate))
  {
    var all := ReturnsOf(data, rate);
    var kept := DropNaN(all);
    var table := ReturnTable(data, rate);
    forall e ensures e in table <==> e in kept {
      assert e in table <==> e in multiset(table);
    }
    forall e | e in all ensures exists k :: 0 <= k < |data| && e == (data[k].0, ColumnReturn(data[k].1, rate)) {
      var k :| 0 <= k < |all| && all[k] == e;
    }
    if UniqueKeys(data) {
      assert UniqueKeys(all);
      SortUnique(kept);
    }
  }

  const NoPricesError: string := "No se pudieron descargar precios."

  /** Every close series the provider hands back lies on the CCL day grid. */
  ghost predicate OnGrid(fetch: (string, Attempt) -> Download, n: nat) {
    forall t, a :: fetch(t, a).Frame? ==> |fetch(t, a).close| == n
  }

  /** Every downloaded column lies on the grid, and there is at least one row when
      something was downloaded. */
  lemma DataOnGrid(tickers: seq<string>, fetch: (string, Attempt) -> Download, n: nat)
    requires OnGrid(fetch, n)
    ensures var c := Collect(tickers, fetch);
      forall k :: 0 <= k < |c.data| ==> |c.data[k].1| == n
    ensures |Collect(tickers, fetch).data| > 0 ==> n > 0
  {
    var c := Collect(tickers, fetch);
    CollectData(tickers, fetch);
    forall k | 0 <= k < |c.data| ensures |c.data[k].1| == n && n > 0 {
      var t := c.data[k].0;
      assert FromProvider(c.data[k], fetch);
      var d := if Usable(fetch(t, First)) then fetch(t, First) else fetch(t, Retry);
      assert Usable(d) && c.data[k].1 == d.close;
    }
    if |c.data| > 0 {
      assert |c.data[0].1| == n;
    }
  }

  /** Nothing was downloaded exactly when every ticker failed on both attempts. */
  lemma NoDataMeansAllFailed(tickers: seq<string>, fetch: (string, Attempt) -> Download)
    ensures |Collect(tickers, fetch).data| == 0 <==>
      forall t :: t in tickers ==> !Usable(fetch(t, First)) && !Usable(fetch(t, Retry))
  {
    var c := Collect(tickers, fetch);
    CollectData(tickers, fetch);
    if |c.data| > 0 {
      assert HasKey(c.data, c.data[0].0);
    }
  }

  /** Nothing is left failed exactly when every ticker downloaded on some attempt. */
  lemma NoFailuresMeansAllDownloaded(tickers: seq<string>, fetch: (string, Attempt) -> Download)
    ensures |Collect(tickers, fetch).failed| == 0 <==>
      forall t :: t in tickers ==> Usable(fetch(t, First)) || Usable(fetch(t, Retry))
  {
    var c := Collect(tickers, fetch);
    CollectData(tickers, fetch);
    if |c.failed| > 0 {
      assert c.failed[0] in c.failed;
    }
  }

  /** The second `ffill()` `get_var` applies to the CCL frame; filling keeps the rate
      positive. */
  function FilledRate(ccl: seq<Option<real>>): (rate: seq<Option<real>>)
    requires PositiveSeq(ccl)
    ensures |rate| == |ccl| && PositiveSeq(rate)
    ensures rate == ForwardFill(ccl)
  {
    ForwardFillPositive(ccl);
    ForwardFill(ccl)
  }

  datatype VarOutput = VarOutput(table: seq<Entry>, message: string)

  /** `get_var`: download with one retry, fail when nothing was downloaded, otherwise
      fetch the CCL series and return the table and the omission message. `ccl` is
      what `download_ccl` yields for the same window: the series on the day grid, or
      the message of the exception it raised, which `get_var` lets propagate. The
      series is forward-filled once more before the division. */
  function GetVar(tickers: seq<string>, fetch: (string, Attempt) -> Download, ccl: Result<seq<Option<real>>, string>): (r: Result<VarOutput, string>)
    requires ccl.Success? ==> PositiveSeq(ccl.value) && OnGrid(fetch, |ccl.value|)
    ensures (forall t :: t in tickers ==> !Usable(fetch(t, First)) && !Usable(fetch(t, Retry))) ==>
      r == Failure(NoPricesError)
    ensures (exists t :: t in tickers && (Usable(fetch(t, First)) || Usable(fetch(t, Retry)))) ==>
      (r.Failure? <==> ccl.Failure?) && (ccl.Failure? ==> r.error == ccl.error)
    ensures r.Success? ==> Ascending(r.value.table)
    ensures r.Success? ==> forall k :: 0 <= k < |r.value.table| ==> r.value.table[k].1 != NaN
    ensures r.Success? ==>
      (r.value.message == "" <==> forall t :: t in tickers ==> Usable(fetch(t, First)) || Usable(fetch(t, Retry)))
  {
    var c := Collect(tickers, fetch);
    CollectData(tickers, fetch);
    NoDataMeansAllFailed(tickers, fetch);
    NoFailuresMeansAllDownloaded(tickers, fetch);
    if |c.data| == 0 then
      Failure(NoPricesError)
    else if ccl.Failure? then
      Failure(ccl.error)
    else
      DataOnGrid(tickers, fetch, |ccl.value|);
      Success(VarOutput(ReturnTable(c.data, FilledRate(ccl.value)), OmissionMessage(c.failed)))
  }

  /** The series `get_var` keeps for a ticker: the first download if usable, else
      the retry. */
  function Fetched(t: string, fetch: (string, Attempt) -> Download): (s: seq<Option<real>>)
    requires Usable(fetch(t, First)) || Usable(fetch(t, Retry))
    ensures FromProvider((t, s), fetch)
  {
    if Usable(fetch(t, First)) then fetch(t, First).close else fetch(t, Retry).close
  }

  /** A row of the table, read per ticker of the downloaded data. */
  lemma TableRow(data: seq<Column>, rate: seq<Option<real>>, fetch: (string, Attempt) -> Download, t: string, x: Ext)
    requires |rate| > 0 && PositiveSeq(rate)
    requires forall k :: 0 <= k < |data| ==> |data[k].1| == |rate| && FromProvider(data[k], fetch)
    ensures (t, x) in ReturnTable(data, rate) <==>
      && HasKey(data, t)
      && x != NaN
      && (Usable(fetch(t, First)) || Usable(fetch(t, Retry)))
      && |Fetched(t, fetch)| == |rate|
      && x == ColumnReturn(Fetched(t, fetch), rate)
  {
    ReturnTableRows(data, rate);
    if HasKey(data, t) {
      var k :| 0 <= k < |data| && data[k].0 == t;
      assert FromProvider(data[k], fetch);
      assert data[k].1 == Fetched(t, fetch);
      if x != NaN && x == ColumnReturn(Fetched(t, fetch), rate) {
        assert (t, x) == (data[k].0, ColumnReturn(data[k].1, rate));
      }
    }
  }

  /** The rows of the table: a ticker appears exactly when it downloaded on some
      attempt and its return is not NaN, with the return of the series it kept. */
  lemma GetVarRows(tickers: seq<string>, fetch: (string, Attempt) -> Download, ccl: seq<Option<real>>, t: string, x: Ext)
    requires PositiveSeq(ccl) && OnGrid(fetch, |ccl|)
    requires exists t :: t in tickers && (Usable(fetch(t, First)) || Usable(fetch(t, Retry)))
    ensures (t, x) in GetVar(tickers, fetch, Success(ccl)).value.table <==>
      && t in tickers
      && (Usable(fetch(t, First)) || Usable(fetch(t, Retry)))
      && x != NaN
      && x == ColumnReturn(Fetched(t, fetch), FilledRate(ccl))
  {
    var c := Collect(tickers, fetch);
    CollectData(tickers, fetch);
    var rate := FilledRate(ccl);
    DataOnGrid(tickers, fetch, |ccl|);
    assert |c.data| > 0;
    assert GetVar(tickers, fetch, Success(ccl)).value.table == ReturnTable(c.data, rate);
    assert HasKey(c.data, t) <==> t in tickers && (Usable(fetch(t, First)) || Usable(fetch(t, Retry)));
    TableRow(c.data, rate, fetch, t, x);
  }

  /** No ticker appears twice in the table. */
  lemma GetVarUnique(tickers: seq<string>, fetch: (string, Attempt) -> Download, ccl: seq<Option<real>>)
    requires PositiveSeq(ccl) && OnGrid(fetch, |ccl|)
    requires exists t :: t in tickers && (Usable(fetch(t, First)) || Usable(fetch(t, Retry)))
    ensures UniqueKeys(GetVar(tickers, fetch, Success(ccl)).value.table)
  {
    var c := Collect(tickers, fetch);
    CollectData(tickers, fetch);
    DataOnGrid(tickers, fetch, |ccl|);
    ReturnTableRows(c.data, FilledRate(ccl));
  }

  /** The message names, in display form and universe order, exactly the tickers
      that failed both attempts. */
  lemma GetVarMessage(tickers: seq<string>, fetch: (string, Attempt) -> Download, ccl: seq<Option<real>>)
    requires PositiveSeq(ccl) && OnGrid(fetch, |ccl|)
    requires forall i :: 0 <= i < |tickers| ==> ',' !in tickers[i]
    requires exists t :: t in tickers && (Usable(fetch(t, First)) || Usable(fetch(t, Retry)))
    ensures var c := Collect(tickers, fetch);
      ParseOmission(GetVar(tickers, fetch, Success(ccl)).value.message) == Prettified(c.failed)
  {
    var c := Collect(tickers, fetch);
    CollectData(tickers, fetch);
    SubseqMembers(c.failed, c.retried);
    SubseqMembers(c.retried, tickers);
    forall i | 0 <= i < |c.failed| ensures ',' !in c.failed[i] {
      assert c.failed[i] in tickers;
    }
    OmissionRoundTrip(c.failed);
  }

  /** A CCL series whose first grid day is missing leaves every USD first row
      missing, so the table comes out empty. */
  lemma LeadingGapEmptiesTable(tickers: seq<string>, fetch: (string, Attempt) -> Download, ccl: seq<Option<real>>)
    requires PositiveSeq(ccl) && OnGrid(fetch, |ccl|)
    requires exists t :: t in tickers && (Usable(fetch(t, First)) || Usable(fetch(t, Retry)))
    requires |ccl| > 0 && ccl[0].None?
    ensures GetVar(tickers, fetch, Success(ccl)).value.table == []
  {
    var table := GetVar(tickers, fetch, Success(ccl)).value.table;
    if |table| > 0 {
      var e := table[0];
      GetVarRows(tickers, fetch, ccl, e.0, e.1);
    }
  }
}
