# byma-ccl in Dafny

A model of the pure core of `bymacclbot.py`. This Telegram bot reports how the shares
listed on the Buenos Aires exchange (BYMA) performed in US dollars. It converts peso
prices at the "contado con liquidación" (CCL) rate, which is the peso price of YPF on
BYMA divided by its dollar price in New York. The model covers:

- **Symbols** — `norm_ticker_ba`, which trims, upper-cases and adds ".BA". Also
  `prettify_symbol`, which deletes every ".BA", and the 61-entry universe `TICKERS`.
- **Session** — the per-chat state document (`load_state`, `get_chat_state`,
  `set_chat_state`, `set_date`, `get_dates`, `get_normalize`, `toggle_normalize`). It is
  modelled as a `map<string, Record>` keyed by `str(chat_id)`.
- **Series** — `download_ccl`. The ARS/USD ratio is aligned on the union of both
  indices (`Ratio`), reindexed onto every calendar day (`asfreq("D")`, `AsFreqDaily`),
  and forward-filled (`ffill()`, `ForwardFill`). Dates are integer day numbers and NaN
  is `None`.
- **Fetching** — the download stage of `get_var`. There is one pass over the universe
  and one retry pass over the failures. The market-data provider is an oracle
  `fetch(ticker, attempt)`. This stage also builds the omission message.
- **Returns** — the rest of `get_var`:
  - conversion to USD through the rate;
  - the return `(last / first - 1) * 100` on the first and last rows;
  - `dropna()` and `sort_values()`;
  - the `"No se pudieron descargar precios."` error.
- **PlotPrep** — the series that `plot_ticker_usd` draws. It is `(ser / ccl).dropna()`,
  with the `"Sin datos para ese rango."` error, optionally rebased to 100 on the
  first row.
- **Scenarios** — the two-ticker run from the repository's time-zone test, worked
  through the model.

Floating-point division is modelled only as far as the bot can observe it.
`Ext = NegInf | Finite(v) | PosInf | NaN` records whether a quotient is finite,
infinite or NaN (0/0). pandas `dropna()` removes NaN but keeps infinities, and the
model keeps them too: a zero first USD price with a non-zero last one yields a ±inf
return that stays in the table (zero over zero is NaN and is dropped).

## Model

| member | source | states |
|---|---|---|
| Text.Strip | bymacclbot.py:74 | `strip()` leaves no whitespace at either end, and yields the empty string only for all-whitespace input |
| Text.StripCutsEnds | bymacclbot.py:74 | `strip()` returns a contiguous piece of the input with only whitespace cut off before and after it |
| Text.UpperChar | bymacclbot.py:74 | an ASCII letter a–z becomes the matching A–Z (code point minus 32); every other character, non-ASCII letters included, is kept |
| Text.Upper | bymacclbot.py:74 | `upper()` keeps the length and upper-cases every character in place, leaving no lower-case letter |
| Symbols.EnsureSuffix | bymacclbot.py:75-76 | ".BA" is appended exactly when the name does not already end with it; the name is otherwise kept as a prefix |
| Symbols.NormTickerBa | bymacclbot.py:73-77 | the result ends in ".BA", is trimmed and has no lower-case letter, and starts with `t.strip().upper()`, followed by ".BA" only if that did not already end in it |
| Symbols.NormTickerBaIdempotent | bymacclbot.py:73-77 | normalising twice is normalising once |
| Symbols.PrettifySymbol | bymacclbot.py:79-80 | the display form equals the symbol exactly when ".BA" does not occur in it |
| Symbols.PrettifyAppended | bymacclbot.py:79-80 | a name without ".BA" inside, with ".BA" appended, displays as the name |
| Symbols.NormThenPrettify | bymacclbot.py:73-80 | `prettify_symbol(norm_ticker_ba(t)) == t.strip().upper()` whenever ".BA" does not occur in `t.strip().upper()` |
| Symbols.MidSuffixLost | bymacclbot.py:73-80 | the condition above is needed: "a.bax" normalises to "A.BAX.BA" and displays as "AX" |
| Symbols.BareCodeRoundTrip | bymacclbot.py:73-80 | an upper-case alphanumeric code normalises to code + ".BA", displays as the code, and has no comma |
| Symbols.RawTickersBare | bymacclbot.py:83-91 | the raw list holds 61 pairwise distinct alphanumeric upper-case codes |
| Symbols.TickersCanonical | bymacclbot.py:83-91 | every `TICKERS` entry is its raw code + ".BA", displays as that code, contains no comma, and the entries are pairwise distinct |
| Session.LoadState | bymacclbot.py:30-36 | a missing or unparseable file reads as the empty document; otherwise the parsed document is returned as is |
| Session.GetDates | bymacclbot.py:58-60 | an unknown chat reads `(None, None)`; a known one reads its stored start and end |
| Session.GetNormalize | bymacclbot.py:62-63 | true exactly when the chat is stored with `normalize` set to true |
| Session.ReadFreshDefaults | bymacclbot.py:30-46 | before anything is saved, every chat reads `start`/`end` unset and `normalize` false |
| Session.GetChatState | bymacclbot.py:41-46 | an unknown chat reads as the default; a known one reads its stored dates, and `normalize` is true only if stored as true |
| Session.SetChatState | bymacclbot.py:48-53 | the document gains the chat's key and no other; every other chat's record is unchanged; the chat's record is the merge of its old record (or `{}`) with the fields |
| Session.ReadAfterSet | bymacclbot.py:41-53 | reading right after a write sees the written fields and the chat's previous values for the rest |
| Session.OtherChatsUnaffected | bymacclbot.py:48-53 | a write for one chat changes nothing any other chat reads (distinct ids give distinct keys) |
| Session.SetCommutes | bymacclbot.py:48-53 | writes for two different chats commute |
| Session.SetIdempotent | bymacclbot.py:48-53 | repeating a write changes nothing |
| Session.SetDate | bymacclbot.py:55-56 | `set_date` changes only the named date of the chat, keeps the other date and the flag, and leaves what every other chat reads unchanged |
| Session.ToggleNormalize | bymacclbot.py:62-68 | the returned flag is the negation of the previous one, it is what is stored afterwards, the dates are kept, and every other chat reads the same |
| Session.ToggleTwice | bymacclbot.py:62-68 | two toggles restore what every chat reads |
| Session.StartThenToggleTwice | bymacclbot.py:55-68 | a fresh chat that sets a start date and toggles twice reads that date, no end, and `normalize` false |
| Session.IntStringInjective | bymacclbot.py:42 | `str(chat_id)` is injective, so chat keys never collide |
| Series.Quotient | bymacclbot.py:104 | IEEE division outcome: finite with `q * b == a` iff `b != 0`; +inf, -inf or NaN by the sign of `a` otherwise |
| Series.Ratio | bymacclbot.py:104 | the ratio is indexed by the union of both indices; a day is defined iff both prices are, and then `ratio * usd == ars` |
| Series.AsFreqDaily | bymacclbot.py:104 | `asfreq("D")`: empty iff the input is empty; otherwise each grid day carries the index value of that day or NaN |
| Series.AsFreqEnds | bymacclbot.py:104 | the grid runs from the first index date to the last and covers every index date |
| Series.AsFreqAt | bymacclbot.py:104 | every index date lands on its own grid cell with its own value |
| Series.ForwardFill | bymacclbot.py:104 | `ffill()` keeps the length and the observed cells; a gap copies the cell before it; a leading gap stays NaN |
| Series.FilledAfterObservation | bymacclbot.py:104 | after the first observation every cell is defined |
| Series.MissingBeforeObservation | bymacclbot.py:104 | cells before the first observation stay NaN |
| Series.FilledFromEarlier | bymacclbot.py:104 | every filled cell holds a value observed at or before it |
| Series.ForwardFillIdempotent | bymacclbot.py:168 | filling twice is filling once, so the second `ffill()` in `get_var` is harmless |
| Series.ForwardFillPositive | bymacclbot.py:104 | filling keeps a positive series positive |
| Series.DownloadCcl | bymacclbot.py:93-108 | the CCL series starts on the first grid day and has one cell per grid day |
| Series.DownloadCclObserved | bymacclbot.py:93-108 | on a day both markets quote, the rate times the USD price is the peso price |
| Series.DownloadCclPositive | bymacclbot.py:93-108 | with positive quotes the rate is positive wherever defined |
| Series.DownloadCclDefinedFrom | bymacclbot.py:93-108 | the rate is defined on every grid day from the first day both markets quote |
| Series.DownloadCclCarries | bymacclbot.py:104 | a grid day after the first on which the two markets do not both quote carries the previous day's rate |
| Series.DownloadCclMissingBefore | bymacclbot.py:104 | a grid day before the first day both markets quote stays NaN |
| Fetching.Put | bymacclbot.py:134-157 | `data[t] = ser`: the keys become the old keys plus `t`, unique keys stay unique, `t` maps to `ser`, and every other entry is an old one |
| Fetching.RunPass | bymacclbot.py:115-134 | one pass asks the provider once per ticker, in order; its failure list holds exactly the tickers whose download raised, lacked "Close" or was all NaN, in universe order |
| Fetching.PassData | bymacclbot.py:115-134 | after a pass `data` has a key iff it had one before or the ticker downloaded in this pass; keys stay unique; every new column is the provider's series |
| Fetching.Collect | bymacclbot.py:115-158 | the calls are the first pass then the retry of exactly the first-pass failures; the final failures are those that failed both attempts, in universe order |
| Fetching.CollectData | bymacclbot.py:115-158 | `data` holds one column per ticker that downloaded on either attempt, with the series of the first usable attempt |
| Fetching.DownloadPartition | bymacclbot.py:115-158 | downloaded and finally failed tickers partition the universe |
| Fetching.SubseqTransitive | bymacclbot.py:136-158 | order is kept through both passes: a subsequence of a subsequence is a subsequence |
| Fetching.AtMostTwoDownloads | bymacclbot.py:115-158 | over a universe without repeats, each ticker is requested at most twice |
| Fetching.TickersDownloadedAtMostTwice | bymacclbot.py:83-158 | over `TICKERS` itself, each ticker is requested at most twice |
| Fetching.RetriedIffFirstFailed | bymacclbot.py:136-140 | a retry call for a ticker happens iff it is in the universe and its first download failed |
| Fetching.OmissionMessage | bymacclbot.py:175-177 | the message is empty iff nothing failed for good, and otherwise starts with the fixed prefix |
| Fetching.OmissionRoundTrip | bymacclbot.py:175-177 | splitting the message after the prefix at ", " gives back the display forms of the failed tickers, in order |
| Text.SplitJoin | bymacclbot.py:177 | `", ".join` is undone by splitting at ", " for comma-free parts |
| Returns.ToUsd | bymacclbot.py:172 | row-wise division: same length; a row is defined iff price and rate are; positive prices give positive USD values |
| Returns.ToUsdInverts | bymacclbot.py:172 | a USD value times its day's rate is the peso price |
| Returns.TotalReturn | bymacclbot.py:174 | finite iff the first and last rows are defined and the first is non-zero, and then `first * (1 + r/100) == last`; NaN or ±inf otherwise, as in IEEE |
| Returns.ReturnInPesos | bymacclbot.py:172-174 | `(1 + r/100) * close0 * rate_last == close_last * rate0` |
| Returns.ReturnAboveMinusHundred | bymacclbot.py:172-174 | with positive prices the return is finite and above -100 |
| Returns.Insert | bymacclbot.py:178 | inserting into an ascending table keeps it ascending and adds exactly the entry |
| Returns.SortByValue | bymacclbot.py:178 | `sort_values()`: the result is ascending (-inf, finite values, +inf) and a permutation of the input |
| Returns.SortUnique | bymacclbot.py:178 | sorting keeps tickers unique |
| Returns.DropNaN | bymacclbot.py:178 | `dropna()` keeps exactly the non-NaN rows (infinities included) |
| Returns.ReturnTable | bymacclbot.py:178 | the table is ascending and free of NaN |
| Returns.ReturnTableRows | bymacclbot.py:172-178 | the table holds exactly the non-NaN returns of the downloaded columns, once per ticker |
| Returns.DataOnGrid | bymacclbot.py:163-172 | every downloaded column lies on the rate's day grid |
| Returns.NoDataMeansAllFailed | bymacclbot.py:160-161 | no data iff every ticker failed both attempts |
| Returns.NoFailuresMeansAllDownloaded | bymacclbot.py:158-176 | nothing failed for good iff every ticker downloaded on some attempt |
| Returns.FilledRate | bymacclbot.py:168 | the rate, filled once more, keeps its length and stays positive |
| Returns.GetVar | bymacclbot.py:110-178 | the fixed "no prices" error when no ticker downloaded; otherwise an error iff `download_ccl` raised, carrying its message; on success an ascending NaN-free table and a message that is empty iff every ticker downloaded |
| Returns.GetVarRows | bymacclbot.py:110-178 | `(t, x)` is in the table iff `t` is in the universe, downloaded, and `x` is its non-NaN return over the series it kept |
| Returns.GetVarUnique | bymacclbot.py:110-178 | no ticker appears twice in the table |
| Returns.GetVarMessage | bymacclbot.py:158-177 | the message lists, in display form and universe order, exactly the tickers that failed both attempts |
| Returns.LeadingGapEmptiesTable | bymacclbot.py:168-178 | if the first grid day of the CCL is missing, every first USD row is NaN and the table is empty |
| PlotPrep.Observed | bymacclbot.py:238 | `dropna()` yields the observed rows, in increasing order, with their values |
| PlotPrep.ObservedComplete | bymacclbot.py:238 | no observed row is dropped |
| PlotPrep.UsdPoints | bymacclbot.py:238 | `(ser / ccl).dropna()` has a point for every row with both a close and a rate and for no other row; each point is the USD value of its row; rows increase |
| PlotPrep.UsdPointsValues | bymacclbot.py:238 | each point's value times its rate is the close of that row |
| PlotPrep.UsdPointsPositive | bymacclbot.py:238 | positive prices give positive points |
| PlotPrep.Rebase | bymacclbot.py:246 | `x / first * 100` is finite with `r * first == 100 * x` when `first != 0`, and the IEEE outcome otherwise |
| PlotPrep.RebaseAll | bymacclbot.py:246 | rebasing keeps the rows; with a non-zero first value the first point reads exactly 100 and every point keeps its ratio to the first |
| PlotPrep.PlotSeries | bymacclbot.py:238-246 | the error "Sin datos para ese rango." iff no row has both values; otherwise the USD points, rebased when normalising |
| Scenarios.TwoTickerDownloads | tests/test_timezone_normalization.py:33-68 | with both tickers served, nothing fails and both columns are kept in order |
| Scenarios.AluaReturn | tests/test_timezone_normalization.py:39-75 | ALUA at 100/110/120 against a CCL of 100/105/110 returns 100/11 % |
| Scenarios.BmaReturn | tests/test_timezone_normalization.py:39-75 | BMA at 200/190/195 against the same CCL returns -125/11 % |
| Scenarios.TwoTickerTable | tests/test_timezone_normalization.py:70-79 | the sorted table lists BMA (-125/11 %) before ALUA (100/11 %) |
| Scenarios.TwoTickerScenario | tests/test_timezone_normalization.py:33-79 | `get_var` returns BMA then ALUA, ascending, with an empty message |

## Left out

- Telegram command handlers and `main`: their argument checks and the parsing of dates and `int()` arguments (bymacclbot.py:274-282, :310-318), the gate that both dates must be set (:320-323, :349-352), the empty-result reply "Sin datos para ese rango." when `series.dropna().empty` (:329-333) and every other reply message. They sit outside the pure core and would need a model of the Telegram update objects.
- Plot rendering (matplotlib, colours, PNG bytes): drawing only.
- `plot_top_bottom` (`nlargest`/`nsmallest`, colour scaling): rendering only.
- Network access: in the download loop of `get_var`, `yf.download` and its exceptions become the oracle `fetch(ticker, attempt)`. The retry's 30-second timeout is only the `Retry` attempt tag. The two downloads inside `download_ccl` become its `ars` and `usd` arguments. If one of them raises, `get_var` lets the exception through after its no-prices check; `Returns.GetVar` receives that outcome as its `ccl` argument, a `Failure` carrying the exception's message.
- Logging of failed downloads: no effect on results.
- Time-zone normalisation (`tz_convert`/`tz_localize`): dates are naive integer days.
- Index alignment in `close.div(ccl, axis=0)` and `ser / ccl`: every downloaded close series is assumed to lie on the CCL day grid (`Returns.OnGrid`, and `|close| == |ccl|` in PlotPrep). Alignment in `Ratio` itself is modelled. An empty CCL grid therefore rules out every usable download, so the model cannot represent the source path where tickers downloaded but `download_ccl` returned an empty series, which yields an empty table and the omission message (bymacclbot.py:163-178).
- JSON encoding and file I/O of the state: the document is a map, and `save_state` is the value returned by the write. `load_state`'s parse failure is the `None` input.
- The values stored in the state are typed: dates are strings and `normalize` is a boolean. `bool()` of an arbitrary JSON value is not modelled.
- `parse_date`: a wrapper around `strptime`.
- File locking and concurrent writers: the shown source has no locking.
- Rounding, signed zeros and overflow of IEEE doubles: prices are exact reals. Only the finite, infinite and NaN outcomes of division are kept.
- Text.UpperChar: maps only 'a'..'z'; every other character is returned unchanged, whereas Python's `upper()` also maps non-ASCII letters ('é' to 'É', 'ß' to "SS").
- Text.Upper: only ASCII letters are upper-cased. Python's `upper()` also maps other Unicode letters, such as "ß" to "SS", which changes the length.
- Series.Ratio: requires non-zero USD quotes for YPF, where pandas would produce ±inf or NaN on a zero divisor. Series.DownloadCcl, Series.DownloadCclObserved, Series.DownloadCclDefinedFrom, Series.DownloadCclCarries and Series.DownloadCclMissingBefore share this requirement.
- Returns.GetVar: requires a strictly positive CCL series, where the source accepts any rate. A zero rate would give ±inf USD prices.
- Returns.GetVarRows: the same positive-rate requirement.
- Returns.GetVarUnique, Returns.GetVarMessage, Returns.LeadingGapEmptiesTable: the same positive-rate requirement.
- Returns.ToUsd, Returns.ToUsdInverts, Returns.ColumnReturn, Returns.ReturnTable, Returns.ReturnTableRows, Returns.FilledRate: the same positive-rate requirement.
- PlotPrep.UsdPoints, PlotPrep.UsdPointsValues, PlotPrep.PlotSeries: require a strictly positive CCL series. On a zero rate pandas would keep ±inf points in `(ser / ccl).dropna()` (bymacclbot.py:238).
- PlotPrep.PlotSeries: starts from the downloaded close and CCL series. An exception from either download in `plot_ticker_usd` propagates unchanged and is not modelled.
- Fetching.AtMostTwoDownloads: stated for universes without repeated tickers. A repeated ticker is fetched once per occurrence, and `TICKERS` has no repeats (Symbols.TickersCanonical).
- Fetching.OmissionRoundTrip: stated for comma-free tickers, since a comma inside a name would make ", " ambiguous. Every entry of `TICKERS` is comma-free.
- Scenarios.TwoTickerDownloads: the time-zone test at tests/test_timezone_normalization.py:67 expects one bulk download of both tickers. The source downloads one ticker per call (bymacclbot.py:115-117), and the model follows the source: two calls, one per ticker.
- An all-infinite or partly infinite return table is kept as is, as pandas does. No property claims that only finite returns remain.
