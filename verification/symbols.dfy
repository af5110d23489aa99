/** Ticker canonicalisation: bare exchange codes such as "GGAL" become the
    provider's "GGAL.BA", and the suffix is stripped again for display. */
module Symbols {
  import opened Text

  /** The exchange qualifier the market-data provider uses for the local market. */
  const Suffix: string := ".BA"

  /** Appending the suffix keeps a name trimmed and upper-case. */
  lemma AppendSuffix(u: string)
    requires Trimmed(u) && NoLower(u)
    ensures Trimmed(u + Suffix) && NoLower(u + Suffix) && EndsWith(u + Suffix, Suffix)
  {
    var r := u + Suffix;
    assert r[|r| - 1] == 'A' && !IsSpace('A');
    if |u| == 0 {
      assert r[0] == '.' && !IsSpace('.');
    } else {
      assert r[0] == u[0];
    }
    assert r[|u|..] == Suffix;
    forall k | 0 <= k < |r| ensures !IsLower(r[k]) {
      if k < |u| { assert r[k] == u[k]; } else { assert r[k] == Suffix[k - |u|]; }
    }
  }

  /** The second half of `norm_ticker_ba`: ".BA" is appended only when absent. */
  function EnsureSuffix(u: string): (r: string)
    requires Trimmed(u) && NoLower(u)
    ensures EndsWith(r, Suffix) && Trimmed(r) && NoLower(r)
    ensures |u| <= |r| && r[..|u|] == u
    ensures EndsWith(u, Suffix) ==> r == u
    ensures !EndsWith(u, Suffix) ==> r[|u|..] == Suffix
  {
    if EndsWith(u, Suffix) then u
    else
      AppendSuffix(u);
      assert (u + Suffix)[..|u|] == u;
      u + Suffix
  }

  /** `norm_ticker_ba`: trim, upper-case, then append ".BA" unless it is already there. */
  function NormTickerBa(t: string): (r: string)
    ensures EndsWith(r, Suffix)
    ensures Trimmed(r) && NoLower(r)
    ensures var u := Upper(Strip(t));
      && |u| <= |r| && r[..|u|] == u
      && (EndsWith(u, Suffix) ==> r == u)
      && (!EndsWith(u, Suffix) ==> r[|u|..] == Suffix)
  {
    UpperKeepsTrimmed(Strip(t));
    EnsureSuffix(Upper(Strip(t)))
  }

  /** Canonicalising twice is canonicalising once. */
  lemma NormTickerBaIdempotent(t: string)
    ensures NormTickerBa(NormTickerBa(t)) == NormTickerBa(t)
  {
    var r := NormTickerBa(t);
    StripTrimmed(r);
    UpperNoLower(r);
  }

  /** `prettify_symbol`: deletes every ".BA" found by a left-to-right scan, not only a trailing one. */
  function PrettifySymbol(s: string): (r: string)
    ensures r == s <==> !Contains(s, Suffix)
  {
    RemoveAllIdentity(s, Suffix);
    RemoveAll(s, Suffix)
  }

  lemma {:induction false} PrettifyAppended(u: string)
    requires !Contains(u, Suffix)
    ensures PrettifySymbol(u + Suffix) == u
    decreases |u|
  {
    var s := u + Suffix;
    if |u| == 0 {
      assert s[..3] == Suffix && s[3..] == "";
    } else {
      if |u| >= 3 {
        assert s[..3] == u[..3];
        assert !OccursAt(u, Suffix, 0);
      } else if |u| == 1 {
        assert s[2] == 'B';
      } else {
        assert s[2] == '.';
      }
      assert s[..3] != Suffix;
      if Contains(u[1..], Suffix) {
        ContainsTail(u, Suffix);
      }
      assert s[1..] == u[1..] + Suffix;
      PrettifyAppended(u[1..]);
      assert [u[0]] + u[1..] == u;
    }
  }

  /** Display form of a canonical ticker: `prettify_symbol(norm_ticker_ba(t))` is
      `t.strip().upper()` whenever that string has no ".BA" anywhere. */
  lemma NormThenPrettify(t: string)
    requires !Contains(Upper(Strip(t)), Suffix)
    ensures NormTickerBa(t) == Upper(Strip(t)) + Suffix
    ensures PrettifySymbol(NormTickerBa(t)) == Upper(Strip(t))
  {
    var u := Upper(Strip(t));
    if EndsWith(u, Suffix) {
      assert OccursAt(u, Suffix, |u| - 3);
    }
    assert NormTickerBa(t) == u + Suffix;
    PrettifyAppended(u);
  }

  /** A ".BA" in the middle of a name is deleted as well, so the round trip above
      needs its precondition: "a.bax" is canonicalised to "A.BAX.BA" and displayed as "AX". */
  /** The input is a parameter pinned by the precondition rather than a literal in
      the ensures, which keeps the solver from unfolding the functions on the
      literal eagerly. */
  lemma MidSuffixLost(t: string)
    requires t == "a.bax"
    ensures NormTickerBa(t) == "A.BAX.BA"
    ensures PrettifySymbol(NormTickerBa(t)) == "AX"
  {
    MidSuffixNorm(t);
    MidSuffixPrettify();
  }

  /** Normalising "a.bax" (passed as a pinned parameter, as above). */
  lemma MidSuffixNorm(t: string)
    requires t == "a.bax"
    ensures NormTickerBa(t) == "A.BAX.BA"
  {
    assert |t| == 5 && t[0] == 'a' && t[4] == 'x';
    assert !IsSpace(t[0]) && !IsSpace(t[4]);
    StripTrimmed(t);
    var u := Upper(t);
    assert u[0] == 'A' && u[1] == '.' && u[2] == 'B' && u[3] == 'A' && u[4] == 'X';
    assert u == "A.BAX";
    assert u[2..] != Suffix;
    var r := NormTickerBa(t);
    assert r[..5] == u && r[5..] == Suffix;
    assert r == u + Suffix;
  }

  lemma MidSuffixPrettify()
    ensures PrettifySymbol("A.BAX.BA") == "AX"
  {
    assert RemoveAll("", Suffix) == "";
    assert RemoveAll(".BA", Suffix) == "";
    assert RemoveAll("X.BA", Suffix) == "X";
    assert RemoveAll(".BAX.BA", Suffix) == "X";
    assert RemoveAll("A.BAX.BA", Suffix) == "AX";
  }

  /** An upper-case exchange code: letters and digits only. */
  predicate BareCode(s: string) {
    |s| > 0 && forall k :: 0 <= k < |s| ==> 'A' <= s[k] <= 'Z' || '0' <= s[k] <= '9'
  }

  predicate Distinct<T(==)>(xs: seq<T>) {
    forall i, j :: 0 <= i < j < |xs| ==> xs[i] != xs[j]
  }

  /** The local-market universe as written before canonicalisation, one constant
      per line of bymacclbot.py:84-90 so that its properties can be checked line by line. */
  const Line1: seq<string> := ["ALUA", "BMA", "BYMA", "CEPU", "COME", "CRES", "CVH", "EDN", "GGAL", "MIRG"]
  const Line2: seq<string> := ["PAMP", "SUPV", "TECO2", "TGNO4", "TGSU2", "TRAN", "TXAR", "VALO", "YPFD"]
  const Line3: seq<string> := ["DOME", "AGRO", "AUSO", "BBAR", "BHIP", "BPAT", "CADO", "CAPX", "CARC"]
  const Line4: seq<string> := ["CELU", "CGPA2", "CTIO", "DGCU2", "DYCA", "FERR", "FIPL", "BOLT", "A3"]
  const Line5: seq<string> := ["GARO", "GBAN", "GCLA", "GRIM", "HARG", "HAVA", "INTR", "INVJ", "IRSA"]
  const Line6: seq<string> := ["LEDE", "LOMA", "LONG", "METR", "MOLA", "MOLI", "MORI", "OEST", "PATA"]
  const Line7: seq<string> := ["POLL", "RICH", "RIGO", "ROSE", "SAMI", "SEMI"]

  const RawTickers: seq<string> := Line1 + (Line2 + (Line3 + (Line4 + (Line5 + (Line6 + Line7)))))

  /** `TICKERS`: the universe, each entry passed through `norm_ticker_ba`. */
  const Tickers: seq<string> :=
    seq(|RawTickers|, i requires 0 <= i < |RawTickers| => NormTickerBa(RawTickers[i]))

  /** A bare code is already trimmed and upper-case, and has no ".BA" and no comma in it. */
  lemma BareCodeShape(s: string)
    requires BareCode(s)
    ensures Trimmed(s) && NoLower(s) && ',' !in s && !Contains(s, Suffix)
  {
    forall c | c in s ensures c != ',' {
      var k :| 0 <= k < |s| && s[k] == c;
    }
    forall i | 0 <= i <= |s| ensures !OccursAt(s, Suffix, i) {
      if i < |s| {
        assert s[i] != '.';
      }
    }
  }

  /** A bare code is canonicalised by appending the suffix and displayed as itself. */
  lemma BareCodeRoundTrip(s: string)
    requires BareCode(s)
    ensures NormTickerBa(s) == s + Suffix
    ensures PrettifySymbol(NormTickerBa(s)) == s
    ensures ',' !in NormTickerBa(s)
  {
    BareCodeShape(s);
    assert Upper(Strip(s)) == s by {
      StripTrimmed(s);
      UpperNoLower(s);
    }
    NormThenPrettify(s);
    assert ',' !in Suffix;
  }

  /** No code of `a` occurs in `b`. */
  predicate Disjoint(a: seq<string>, b: seq<string>) {
    forall i, j :: 0 <= i < |a| && 0 <= j < |b| ==> a[i] != b[j]
  }

  /** A line of the universe: distinct bare codes. */
  predicate CodeLine(line: seq<string>) {
    Distinct(line) && forall i :: 0 <= i < |line| ==> BareCode(line[i])
  }

  lemma DisjointAppend(a: seq<string>, b: seq<string>, c: seq<string>)
    requires Disjoint(a, b) && Disjoint(a, c)
    ensures Disjoint(a, b + c)
  {
    forall i, j | 0 <= i < |a| && 0 <= j < |b + c| ensures a[i] != (b + c)[j] {
      if j < |b| {
        assert (b + c)[j] == b[j];
      } else {
        assert (b + c)[j] == c[j - |b|];
      }
    }
  }

  lemma CodeLineAppend(a: seq<string>, b: seq<string>)
    requires CodeLine(a) && CodeLine(b) && Disjoint(a, b)
    ensures CodeLine(a + b)
  {
    var ab := a + b;
    forall i | 0 <= i < |ab| ensures BareCode(ab[i]) {
      if i < |a| {
        assert ab[i] == a[i];
      } else {
        assert ab[i] == b[i - |a|];
      }
    }
    forall i, j | 0 <= i < j < |ab| ensures ab[i] != ab[j] {
      if j < |a| {
        assert ab[i] == a[i] && ab[j] == a[j];
      } else if i >= |a| {
        assert ab[i] == b[i - |a|] && ab[j] == b[j - |a|];
      } else {
        assert ab[i] == a[i] && ab[j] == b[j - |a|];
      }
    }
  }

  lemma Codes1() ensures CodeLine(Line1) {}
  lemma Codes2() ensures CodeLine(Line2) {}
  lemma Codes3() ensures CodeLine(Line3) {}
  lemma Codes4() ensures CodeLine(Line4) {}
  lemma Codes5() ensures CodeLine(Line5) {}
  lemma Codes6() ensures CodeLine(Line6) {}
  lemma Codes7() ensures CodeLine(Line7) {}

  lemma Apart12() ensures Disjoint(Line1, Line2) {}
  lemma Apart13() ensures Disjoint(Line1, Line3) {}
  lemma Apart14() ensures Disjoint(Line1, Line4) {}
  lemma Apart15() ensures Disjoint(Line1, Line5) {}
  lemma Apart16() ensures Disjoint(Line1, Line6) {}
  lemma Apart17() ensures Disjoint(Line1, Line7) {}
  lemma Apart23() ensures Disjoint(Line2, Line3) {}
  lemma Apart24() ensures Disjoint(Line2, Line4) {}
  lemma Apart25() ensures Disjoint(Line2, Line5) {}
  lemma Apart26() ensures Disjoint(Line2, Line6) {}
  lemma Apart27() ensures Disjoint(Line2, Line7) {}
  lemma Apart34() ensures Disjoint(Line3, Line4) {}
  lemma Apart35() ensures Disjoint(Line3, Line5) {}
  lemma Apart36() ensures Disjoint(Line3, Line6) {}
  lemma Apart37() ensures Disjoint(Line3, Line7) {}
  lemma Apart45() ensures Disjoint(Line4, Line5) {}
  lemma Apart46() ensures Disjoint(Line4, Line6) {}
  lemma Apart47() ensures Disjoint(Line4, Line7) {}
  lemma Apart56() ensures Disjoint(Line5, Line6) {}
  lemma Apart57() ensures Disjoint(Line5, Line7) {}
  lemma Apart67() ensures Disjoint(Line6, Line7) {}

  /** The raw universe has 61 distinct bare codes. */
  lemma RawTickersBare()
    ensures |RawTickers| == 61
    ensures CodeLine(RawTickers)
  {
    var l67 := Line6 + Line7;
    var l57 := Line5 + l67;
    var l47 := Line4 + l57;
    var l37 := Line3 + l47;
    var l27 := Line2 + l37;
    Codes6(); Codes7(); Apart67();
    CodeLineAppend(Line6, Line7);
    Codes5(); Apart56(); Apart57();
    DisjointAppend(Line5, Line6, Line7);
    CodeLineAppend(Line5, l67);
    Codes4(); Apart45(); Apart46(); Apart47();
    DisjointAppend(Line4, Line6, Line7);
    DisjointAppend(Line4, Line5, l67);
    CodeLineAppend(Line4, l57);
    Codes3(); Apart34(); Apart35(); Apart36(); Apart37();
    DisjointAppend(Line3, Line6, Line7);
    DisjointAppend(Line3, Line5, l67);
    DisjointAppend(Line3, Line4, l57);
    CodeLineAppend(Line3, l47);
    Codes2(); Apart23(); Apart24(); Apart25(); Apart26(); Apart27();
    DisjointAppend(Line2, Line6, Line7);
    DisjointAppend(Line2, Line5, l67);
    DisjointAppend(Line2, Line4, l57);
    DisjointAppend(Line2, Line3, l47);
    CodeLineAppend(Line2, l37);
    Codes1(); Apart12(); Apart13(); Apart14(); Apart15(); Apart16(); Apart17();
    DisjointAppend(Line1, Line6, Line7);
    DisjointAppend(Line1, Line5, l67);
    DisjointAppend(Line1, Line4, l57);
    DisjointAppend(Line1, Line3, l47);
    DisjointAppend(Line1, Line2, l37);
    CodeLineAppend(Line1, l27);
  }

  /** Every entry of `TICKERS` is the bare code plus ".BA", the entries are pairwise
      distinct, none contains a comma, and each displays as its bare code. */
  lemma TickersCanonical()
    ensures |Tickers| == 61
    ensures forall i :: 0 <= i < |Tickers| ==> Tickers[i] == RawTickers[i] + Suffix
    ensures forall i :: 0 <= i < |Tickers| ==> PrettifySymbol(Tickers[i]) == RawTickers[i]
    ensures forall i :: 0 <= i < |Tickers| ==> ',' !in Tickers[i]
    ensures Distinct(Tickers)
  {
    RawTickersBare();
    forall i | 0 <= i < |Tickers|
      ensures Tickers[i] == RawTickers[i] + Suffix
      ensures PrettifySymbol(Tickers[i]) == RawTickers[i]
      ensures ',' !in Tickers[i]
    {
      TickerAt(i);
    }
    forall i, j | 0 <= i < j < |Tickers|
      ensures Tickers[i] != Tickers[j]
    {
      TickerAt(i);
      TickerAt(j);
      SuffixInjective(RawTickers[i], RawTickers[j], Suffix);
    }
  }

  /** One entry of `TICKERS`: its raw code with the suffix. */
  lemma TickerAt(i: nat)
    requires i < |RawTickers|
    ensures Tickers[i] == RawTickers[i] + Suffix
    ensures PrettifySymbol(Tickers[i]) == RawTickers[i]
    ensures ',' !in Tickers[i]
  {
    RawTickersBare();
    BareCodeRoundTrip(RawTickers[i]);
  }

  /** Appending the same suffix keeps distinct strings distinct. */
  lemma SuffixInjective(a: string, b: string, s: string)
    ensures a != b ==> a + s != b + s
  {
    if |a| == |b| {
      assert (a + s)[..|a|] == a && (b + s)[..|b|] == b;
    }
  }
}
