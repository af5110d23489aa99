/** The download stage of `get_var`: one pass over the universe, then a single retry
    pass over the tickers that failed, and the omission message naming the tickers
    that failed both times. The market-data provider is an oracle `fetch(ticker,
    attempt)`; the retry attempt is the call made with the longer timeout. */
module Fetching {
  import opened Wrappers
  import opened Text
  import opened Symbols

  datatype Attempt = First | Retry

  /** What one provider call yields: an exception, a frame without a "Close"
      column, or the close series on the shared day grid. */
  datatype Download = Raised | NoClose | Frame(close: seq<Option<real>>)

  /** Some cell of the series is defined, i.e. `ser.dropna()` is not empty. */
  predicate HasValue(s: seq<Option<real>>) {
    |s| > 0 && (s[0].Some? || HasValue(s[1..]))
  }

  /** A download counts as a success unless it raised, has no "Close" column, or its
      close series is all NaN (`ser.dropna().empty`). */
  predicate Usable(d: Download) {
    d.Frame? && HasValue(d.close)
  }

  /** One column of the `data` dict: ticker and close series. */
  type Column = (string, seq<Option<real>>)

  predicate HasKey<X>(xs: seq<(string, X)>, t: string) {
    exists i :: 0 <= i < |xs| && xs[i].0 == t
  }

  predicate UniqueKeys<X>(xs: seq<(string, X)>) {
    forall i, j :: 0 <= i < j < |xs| ==> xs[i].0 != xs[j].0
  }

  /** `data[t] = ser` on an insertion-ordered dict: an existing key keeps its
      position and takes the new series, a new key goes last. */
  function Put(data: seq<Column>, t: string, ser: seq<Option<real>>): (r: seq<Column>)
    ensures forall u :: HasKey(r, u) <==> HasKey(data, u) || u == t
    ensures UniqueKeys(data) ==> UniqueKeys(r)
    ensures forall k :: 0 <= k < |r| && r[k].0 == t ==> r[k].1 == ser
    ensures forall k :: 0 <= k < |r| && r[k].0 != t ==> r[k] in data
  {
    if HasKey(data, t) then
      var r := seq(|data|, k requires 0 <= k < |data| => if data[k].0 == t then (t, ser) else data[k]);
      assert forall u :: HasKey(data, u) ==> HasKey(r, u) by {
        forall u | HasKey(data, u) ensures HasKey(r, u) {
          var i :| 0 <= i < |data| && data[i].0 == u;
          assert r[i].0 == u;
        }
      }
      r
    else
      var r := data + [(t, ser)];
      assert r[|data|].0 == t;
      assert forall u :: HasKey(data, u) ==> HasKey(r, u) by {
        forall u | HasKey(data, u) ensures HasKey(r, u) {
          var i :| 0 <= i < |data| && data[i].0 == u;
          assert r[i].0 == u;
        }
      }
      r
  }

  /** `a` is `b` with some elements left out, the rest in the same order. */
  predicate IsSubseq(a: seq<string>, b: seq<string>)
    decreases |b|
  {
    if |a| == 0 then true
    else if |b| == 0 then false
    else if a[0] == b[0] then IsSubseq(a[1..], b[1..])
    else IsSubseq(a, b[1..])
  }

  lemma {:induction false} SubseqMembers(a: seq<string>, b: seq<string>)
    requires IsSubseq(a, b)
    ensures forall x :: x in a ==> x in b
    decreases |b|
  {
    if |a| > 0 {
      if a[0] == b[0] {
        SubseqMembers(a[1..], b[1..]);
        assert forall x :: x in a ==> x == a[0] || x in a[1..];
      } else {
        SubseqMembers(a, b[1..]);
      }
    }
  }

  /** A subsequence of the tail is a subsequence of the whole list. */
  lemma {:induction false} SubseqCons(a: seq<string>, b: seq<string>)
    requires |b| > 0 && IsSubseq(a, b[1..])
    ensures IsSubseq(a, b)
    decreases |b|, 0
  {
    if |a| > 0 && a[0] == b[0] {
      SubseqTail(a, b[1..]);
    }
  }

  /** Dropping the head of a subsequence keeps it a subsequence. */
  lemma {:induction false} SubseqTail(a: seq<string>, b: seq<string>)
    requires |a| > 0 && IsSubseq(a, b)
    ensures IsSubseq(a[1..], b)
    decreases |b|, 1
  {
    if a[0] == b[0] {
      SubseqCons(a[1..], b);
    } else {
      SubseqTail(a, b[1..]);
      SubseqCons(a[1..], b);
    }
  }

  /** Leaving elements out twice is leaving them out once. */
  lemma {:induction false} SubseqTransitive(a: seq<string>, b: seq<string>, c: seq<string>)
    requires IsSubseq(a, b) && IsSubseq(b, c)
    ensures IsSubseq(a, c)
    decreases |c|
  {
    if |a| > 0 {
      if b[0] == c[0] {
        if a[0] == b[0] {
          SubseqTransitive(a[1..], b[1..], c[1..]);
        } else {
          SubseqTransitive(a, b[1..], c[1..]);
        }
      } else {
        SubseqTransitive(a, b, c[1..]);
        SubseqCons(a, c);
      }
    }
  }

  /** Leaving elements out of a list without repeats gives a list without repeats. */
  lemma {:induction false} SubseqDistinct(a: seq<string>, b: seq<string>)
    requires IsSubseq(a, b) && Distinct(b)
    ensures Distinct(a)
    decreases |b|
  {
    if |a| > 0 {
      if a[0] == b[0] {
        SubseqDistinct(a[1..], b[1..]);
        SubseqMembers(a[1..], b[1..]);
        forall i, j | 0 <= i < j < |a| ensures a[i] != a[j] {
          if i == 0 {
            assert a[j] in a[1..];
          } else {
            assert a[i] == a[1..][i - 1] && a[j] == a[1..][j - 1];
          }
        }
      } else {
        SubseqDistinct(a, b[1..]);
      }
    }
  }

  /** The provider calls a pass makes, in order. */
  function Calls(ts: seq<string>, a: Attempt): (calls: seq<(string, Attempt)>)
    ensures |calls| == |ts|
    ensures forall i :: 0 <= i < |ts| ==> calls[i] == (ts[i], a)
  {
    if |ts| == 0 then []
    else
      var calls := [(ts[0], a)] + Calls(ts[1..], a);
      assert forall i :: 0 < i < |ts| ==> calls[i] == Calls(ts[1..], a)[i - 1];
      calls
  }

  /** A column whose series is what the provider returned for its ticker: on the first
      attempt if that one was usable, otherwise on the retry. */
  predicate FromProvider(c: Column, fetch: (string, Attempt) -> Download) {
    || (Usable(fetch(c.0, First)) && c.1 == fetch(c.0, First).close)
    || (!Usable(fetch(c.0, First)) && Usable(fetch(c.0, Retry)) && c.1 == fetch(c.0, Retry).close)
  }

  datatype Pass = Pass(data: seq<Column>, failed: seq<string>, calls: seq<(string, Attempt)>)

  /** One `for t in ...` loop of `get_var`: each ticker is downloaded once; a usable
      series is stored in `data`, anything else appends the ticker to `failed`. */
  function RunPass(ts: seq<string>, fetch: (string, Attempt) -> Download, a: Attempt, data: seq<Column>): (p: Pass)
    ensures p.calls == Calls(ts, a)
    ensures forall t :: t in p.failed <==> t in ts && !Usable(fetch(t, a))
    ensures IsSubseq(p.failed, ts)
    decreases |ts|
  {
    if |ts| == 0 then Pass(data, [], [])
    else
      var t := ts[0];
      var d := fetch(t, a);
      var rest := RunPass(ts[1..], fetch, a, if Usable(d) then Put(data, t, d.close) else data);
      assert forall u :: u in ts <==> u == t || u in ts[1..];
      assert Calls(ts, a) == [(t, a)] + Calls(ts[1..], a);
      if Usable(d) then
        assert t !in rest.failed;
        assert IsSubseq(rest.failed, ts) by {
          assert |rest.failed| > 0 ==> rest.failed[0] != t;
        }
        Pass(rest.data, rest.failed, [(t, a)] + rest.calls)
      else
        var failed := [t] + rest.failed;
        assert failed[1..] == rest.failed;
        assert forall u :: u in failed <==> u == t || u in rest.failed;
        Pass(rest.data, failed, [(t, a)] + rest.calls)
  }

  /** What a pass leaves in `data`: the keys it had plus every ticker of the pass that
      downloaded, still without repeats, each new series being the provider's. */
  lemma {:induction false} PassData(ts: seq<string>, fetch: (string, Attempt) -> Download, a: Attempt, data: seq<Column>)
    ensures var p := RunPass(ts, fetch, a, data);
      forall t :: HasKey(p.data, t) <==> HasKey(data, t) || (t in ts && Usable(fetch(t, a)))
    ensures UniqueKeys(data) ==> UniqueKeys(RunPass(ts, fetch, a, data).data)
    ensures var p := RunPass(ts, fetch, a, data);
      forall k :: 0 <= k < |p.data| ==>
        || p.data[k] in data
        || (p.data[k].0 in ts && Usable(fetch(p.data[k].0, a)) && p.data[k].1 == fetch(p.data[k].0, a).close)
    decreases |ts|
  {
    if |ts| > 0 {
      var t := ts[0];
      var d := fetch(t, a);
      var data' := if Usable(d) then Put(data, t, d.close) else data;
      PassData(ts[1..], fetch, a, data');
      assert forall u :: u in ts <==> u == t || u in ts[1..];
    }
  }

  /** Both passes of `get_var` (bymacclbot.py:115-158). `retried` is the first pass's
      failure list; `failed` is what is left after the retry. */
  datatype Downloads = Downloads(data: seq<Column>, retried: seq<string>, failed: seq<string>, calls: seq<(string, Attempt)>)

  function Collect(tickers: seq<string>, fetch: (string, Attempt) -> Download): (c: Downloads)
    ensures c.calls == Calls(tickers, First) + Calls(c.retried, Retry)
    ensures forall t :: t in c.retried <==> t in tickers && !Usable(fetch(t, First))
    ensures forall t :: t in c.failed <==> t in tickers && !Usable(fetch(t, First)) && !Usable(fetch(t, Retry))
    ensures IsSubseq(c.retried, tickers) && IsSubseq(c.failed, c.retried)
    ensures IsSubseq(c.failed, tickers)
  {
    var p1 := RunPass(tickers, fetch, First, []);
    if |p1.failed| > 0 then
      var p2 := RunPass(p1.failed, fetch, Retry, p1.data);
      SubseqTransitive(p2.failed, p1.failed, tickers);
      Downloads(p2.data, p1.failed, p2.failed, p1.calls + p2.calls)
    else
      assert forall t :: t in tickers ==> Usable(fetch(t, First));
      Downloads(p1.data, [], [], p1.calls + [])
  }

  /** What the two passes leave in `data`: one column per ticker that downloaded on
      either attempt, keyed uniquely, each holding what the provider returned. */
  lemma CollectData(tickers: seq<string>, fetch: (string, Attempt) -> Download)
    ensures var c := Collect(tickers, fetch);
      && (forall t :: HasKey(c.data, t) <==> t in tickers && (Usable(fetch(t, First)) || Usable(fetch(t, Retry))))
      && UniqueKeys(c.data)
      && (forall k :: 0 <= k < |c.data| ==> FromProvider(c.data[k], fetch))
  {
    var p1 := RunPass(tickers, fetch, First, []);
    PassData(tickers, fetch, First, []);
    if |p1.failed| > 0 {
      PassData(p1.failed, fetch, Retry, p1.data);
      assert forall k :: 0 <= k < |p1.data| ==> FromProvider(p1.data[k], fetch);
    } else {
      assert forall t :: t in tickers ==> Usable(fetch(t, First));
    }
  }

  /** Downloaded and finally failed tickers split the universe: each ticker is in
      exactly one of the two, and neither holds anything else. */
  lemma DownloadPartition(tickers: seq<string>, fetch: (string, Attempt) -> Download)
    ensures var c := Collect(tickers, fetch);
      && (forall t :: t in tickers ==> (HasKey(c.data, t) <==> t !in c.failed))
      && (forall t :: HasKey(c.data, t) ==> t in tickers)
      && (forall t :: t in c.failed ==> t in tickers)
  {
    CollectData(tickers, fetch);
  }

  /** How often the provider was asked for ticker `t`. */
  function CallCount(calls: seq<(string, Attempt)>, t: string): nat {
    if |calls| == 0 then 0
    else (if calls[0].0 == t then 1 else 0) + CallCount(calls[1..], t)
  }

  lemma {:induction false} CallCountAppend(a: seq<(string, Attempt)>, b: seq<(string, Attempt)>, t: string)
    ensures CallCount(a + b, t) == CallCount(a, t) + CallCount(b, t)
    decreases |a|
  {
    if |a| > 0 {
      assert (a + b)[0] == a[0];
      assert (a + b)[1..] == a[1..] + b;
      CallCountAppend(a[1..], b, t);
    } else {
      assert a + b == b;
    }
  }

  /** A pass over a list without repeats asks for each ticker at most once. */
  lemma {:induction false} CallCountDistinct(ts: seq<string>, a: Attempt, t: string)
    requires Distinct(ts)
    ensures CallCount(Calls(ts, a), t) <= 1
    ensures CallCount(Calls(ts, a), t) == 1 <==> t in ts
    decreases |ts|
  {
    if |ts| > 0 {
      assert Calls(ts, a)[1..] == Calls(ts[1..], a);
      assert Distinct(ts[1..]);
      CallCountDistinct(ts[1..], a, t);
      assert t in ts <==> t == ts[0] || t in ts[1..];
      if t == ts[0] {
        assert t !in ts[1..];
      }
    }
  }

  /** The calls of a pass are its tickers, each paired with the pass's attempt. */
  lemma CallsMembers(ts: seq<string>, a: Attempt, x: (string, Attempt))
    ensures x in Calls(ts, a) <==> x.0 in ts && x.1 == a
  {
    var calls := Calls(ts, a);
    if x in calls {
      var i :| 0 <= i < |calls| && calls[i] == x;
      assert ts[i] == x.0;
    }
    if x.0 in ts && x.1 == a {
      var i :| 0 <= i < |ts| && ts[i] == x.0;
      assert calls[i] == x;
    }
  }

  /** Over a universe without repeats, every ticker is downloaded at most twice. */
  lemma AtMostTwoDownloads(tickers: seq<string>, fetch: (string, Attempt) -> Download, t: string)
    requires Distinct(tickers)
    ensures CallCount(Collect(tickers, fetch).calls, t) <= 2
  {
    var c := Collect(tickers, fetch);
    CallCountAppend(Calls(tickers, First), Calls(c.retried, Retry), t);
    CallCountDistinct(tickers, First, t);
    SubseqDistinct(c.retried, tickers);
    CallCountDistinct(c.retried, Retry, t);
  }

  /** Over the bot's own universe no ticker is asked for more than twice. */
  lemma TickersDownloadedAtMostTwice(fetch: (string, Attempt) -> Download, t: string)
    ensures CallCount(Collect(Tickers, fetch).calls, t) <= 2
  {
    TickersCanonical();
    AtMostTwoDownloads(Tickers, fetch, t);
  }

  /** A second download happens exactly for the tickers whose first one failed. */
  lemma RetriedIffFirstFailed(tickers: seq<string>, fetch: (string, Attempt) -> Download, t: string)
    ensures (t, Retry) in Collect(tickers, fetch).calls <==> t in tickers && !Usable(fetch(t, First))
  {
    var c := Collect(tickers, fetch);
    CallsMembers(tickers, First, (t, Retry));
    CallsMembers(c.retried, Retry, (t, Retry));
    assert (t, Retry) in c.calls <==> (t, Retry) in Calls(tickers, First) || (t, Retry) in Calls(c.retried, Retry);
  }

  const OmittedPrefix: string := "Tickers omitidos por error de descarga: "

  /** The display forms of the given tickers. */
  function Prettified(ts: seq<string>): (ps: seq<string>)
    ensures |ps| == |ts|
    ensures forall i :: 0 <= i < |ts| ==> ps[i] == PrettifySymbol(ts[i])
  {
    seq(|ts|, i requires 0 <= i < |ts| => PrettifySymbol(ts[i]))
  }

  /** The note sent after the chart: empty when nothing failed for good, otherwise a
      fixed prefix and the display forms joined by ", ". */
  function OmissionMessage(failed: seq<string>): (msg: string)
    ensures msg == "" <==> |failed| == 0
    ensures |failed| > 0 ==> |OmittedPrefix| <= |msg| && msg[..|OmittedPrefix|] == OmittedPrefix
  {
    if |failed| == 0 then ""
    else
      var msg := OmittedPrefix + Join(Prettified(failed));
      assert msg[..|OmittedPrefix|] == OmittedPrefix;
      msg
  }

  /** Reads the ticker list back out of an omission message. */
  function ParseOmission(msg: string): seq<string> {
    if |msg| < |OmittedPrefix| then [] else Split(msg[|OmittedPrefix|..])
  }

  /** The message names exactly the given tickers, in order, in display form
      (provided no ticker contains a comma). */
  lemma OmissionRoundTrip(failed: seq<string>)
    requires forall i :: 0 <= i < |failed| ==> ',' !in failed[i]
    ensures ParseOmission(OmissionMessage(failed)) == Prettified(failed)
  {
    if |failed| > 0 {
      var ps := Prettified(failed);
      forall i | 0 <= i < |ps| ensures ',' !in ps[i] {
        RemoveAllKeepsAbsent(failed[i], Suffix, ',');
      }
      var msg := OmissionMessage(failed);
      assert msg[|OmittedPrefix|..] == Join(ps);
      SplitJoin(ps);
    }
  }
}
