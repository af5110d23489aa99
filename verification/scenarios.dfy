module Scenarios {
  import opened Wrappers
  import opened Series
  import opened Fetching
  import opened Returns

  function TwoTickerFeed(t: string, a: Attempt): Download {
    if t == "ALUA.BA" then Frame([Some(100.0), Some(110.0), Some(120.0)])
    else if t == "BMA.BA" then Frame([Some(200.0), Some(190.0), Some(195.0)])
    else Raised
  }

  const TwoTickerCcl: seq<Option<real>> := [Some(100.0), Some(105.0), Some(110.0)]

  /** Both columns, in the order the first pass stores them. */
  const TwoTickerColumns: seq<Column> :=
    [("ALUA.BA", TwoTickerFeed("ALUA.BA", First).close), ("BMA.BA", TwoTickerFeed("BMA.BA", First).close)]

  lemma TwoTickerDownloads()
    ensures Collect(["ALUA.BA", "BMA.BA"], TwoTickerFeed).failed == []
    ensures Collect(["ALUA.BA", "BMA.BA"], TwoTickerFeed).data == TwoTickerColumns
  {
    var ts := ["ALUA.BA", "BMA.BA"];
    assert TwoTickerFeed("ALUA.BA", First).close[0].Some?;
    assert TwoTickerFeed("BMA.BA", First).close[0].Some?;
    assert ts[1..] == ["BMA.BA"];
    assert ts[1..][1..] == [];
  }

  lemma TwoTickerFilled()
    ensures FilledRate(TwoTickerCcl) == TwoTickerCcl
  {
    var r := FilledRate(TwoTickerCcl);
    assert r[0] == TwoTickerCcl[0] && r[1] == TwoTickerCcl[1] && r[2] == TwoTickerCcl[2];
  }

  /** ALUA.BA: 100 / 100 = 1 USD on the first day, 120 / 110 = 12/11 USD on the last. */
  lemma AluaReturn()
    ensures ColumnReturn(TwoTickerFeed("ALUA.BA", First).close, TwoTickerCcl) == Finite(100.0 / 11.0)
  {
    var usd := ToUsd(TwoTickerFeed("ALUA.BA", First).close, TwoTickerCcl);
    assert usd[0] == Some(100.0 / 100.0) && usd[2] == Some(120.0 / 110.0);
    assert Quotient(120.0 / 110.0, 100.0 / 100.0) == Finite(12.0 / 11.0);
    assert Growth(Finite(12.0 / 11.0)) == Finite(100.0 / 11.0);
  }

  /** BMA.BA: 200 / 100 = 2 USD on the first day, 195 / 110 = 39/22 USD on the last. */
  lemma BmaReturn()
    ensures ColumnReturn(TwoTickerFeed("BMA.BA", First).close, TwoTickerCcl) == Finite(-125.0 / 11.0)
  {
    var usd := ToUsd(TwoTickerFeed("BMA.BA", First).close, TwoTickerCcl);
    assert usd[0] == Some(200.0 / 100.0) && usd[2] == Some(195.0 / 110.0);
    assert Quotient(195.0 / 110.0, 200.0 / 100.0) == Finite(39.0 / 44.0);
    assert Growth(Finite(39.0 / 44.0)) == Finite(-125.0 / 11.0);
  }

  lemma TwoTickerSort(a: Entry, b: Entry)
    requires a.1.Finite? && b.1.Finite? && b.1.v < a.1.v
    ensures SortByValue(DropNaN([a, b])) == [b, a]
  {
    assert [a, b][1..] == [b];
    assert [b][1..] == [];
    assert DropNaN([]) == [];
    assert DropNaN([b]) == [b] + DropNaN([]);
    assert DropNaN([a, b]) == [a] + DropNaN([b]);
    assert SortByValue([b]) == Insert(b, SortByValue([]));
    assert Insert(b, []) == [b];
    assert Insert(a, [b]) == [b] + Insert(a, []);
    assert Insert(a, []) == [a];
  }

  lemma TwoTickerOnGrid()
    ensures OnGrid(TwoTickerFeed, |TwoTickerCcl|)
  {
  }

  lemma TwoTickerRows()
    ensures ReturnsOf(TwoTickerColumns, TwoTickerCcl)
      == [("ALUA.BA", Finite(100.0 / 11.0)), ("BMA.BA", Finite(-125.0 / 11.0))]
  {
    AluaReturn();
    BmaReturn();
  }

  /** Sorted by return: BMA.BA (negative) before ALUA.BA (positive). */
  lemma TwoTickerTable()
    ensures ReturnTable(TwoTickerColumns, TwoTickerCcl)
         == [("BMA.BA", Finite(-125.0 / 11.0)), ("ALUA.BA", Finite(100.0 / 11.0))]
  {
    TwoTickerRows();
    var all := ReturnsOf(TwoTickerColumns, TwoTickerCcl);
    TwoTickerSort(all[0], all[1]);
  }

  lemma TwoTickerScenario()
    ensures OnGrid(TwoTickerFeed, |TwoTickerCcl|)
    ensures GetVar(["ALUA.BA", "BMA.BA"], TwoTickerFeed, Success(TwoTickerCcl))
         == Success(VarOutput([("BMA.BA", Finite(-125.0 / 11.0)), ("ALUA.BA", Finite(100.0 / 11.0))], ""))
  {
    TwoTickerOnGrid();
    TwoTickerDownloads();
    TwoTickerFilled();
    TwoTickerTable();
    assert OmissionMessage([]) == "";
  }
}
