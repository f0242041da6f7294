# Currency-rate client: a Dafny model of its rate store and conversion logic

The modelled program is a browser page. It fetches the day's exchange rates
from a bank's public endpoint. It shows the rates of three currencies and
shows archived rates for a chosen date. It converts amounts between
currencies through the local currency, the hryvnia (`UAH`). The page is
mostly DOM and network code. This model lifts out the logic inside it and
proves properties about that logic:

- **Rate store** (`rate_store.dfy`). The page keeps one `todayRatesStore`
  for its whole lifetime. `storeRates` writes a synthetic identity entry
  `{purchaseRate: 1, saleRate: 1}` for `UAH` and then assigns each fetched
  rate to its currency code, in array order. It is modelled as the class
  `Store`, with a `map` field and a loop method. The method is proved
  against the specification function `AfterStore`, and lemmas about
  `AfterStore` show that the last rate for a code wins, that the identity
  entry is present unless a listed rate is for `UAH`, and that no key is ever
  removed.
- **Conversion** (`converter.dfy`). `convertCurrency` first rejects an
  amount that is NaN or not positive. Next it rejects an empty store. After
  that it splits into four cases: the identity, out of `UAH`, into `UAH`,
  and a cross rate that pivots through `UAH`. A lookup that misses is a
  crash in the page. Here it is the typed failure `UnknownCurrency`.
- **Allow-list filter** (`render_filter.dfy`). `renderRates` keeps the
  `USD`, `EUR` and `PLN` rates in their original order, or shows a
  "no data" notice.
- **Date strings** (`dates.dfy`). `formatDate` pads the day and the
  1-based month to two digits and leaves the year unpadded. The date picker's
  `YYYY-MM-DD` is turned into `DD.MM.YYYY` by split, reverse and join.
- **Response check** (`fetcher.dfy`). `fetchRates` fails with the HTTP
  status when the response is not ok. It fails with the provider's message
  when the body carries an `error`. Otherwise it returns the body unchanged.
- **Handlers** (`page.dfy`). `getTodayRates` fetches, stores and renders.
  `getArchiveRates` checks the picker value, fetches and renders, and leaves
  the store alone. The network's answer is a parameter.

Amounts and rates are `real`. A NaN amount is `None`: the model takes the
result of `parseFloat` as `Option<real>`.

Behaviour of the code that the model keeps:
- The store is merged, not rebuilt: `storeRates` never clears it, so a
  currency from an earlier call survives a later call that does not list it
  (`RateStore.StaleEntrySurvives`). The page calls `storeRates` once, on the
  empty store, and from there the keys are exactly `UAH` and the listed codes
  (`RateStore.StoreFromEmpty`).
- A currency missing from a non-empty store makes the code read a field of
  `undefined` and throw a TypeError. The model returns
  `UnknownCurrency(code)` instead. The source currency is looked up before
  the target, as in the code.
- A zero sale rate of the target makes the page divide by zero (`Infinity`,
  or `NaN` for a zero dividend). The model reports that as `NotFinite`.
- A provider `error` field counts only when it is truthy, so an empty
  message string is not an error.

## Model

| member | source | states |
|---|---|---|
| RateStore.Store.constructor | src/main.js:14 | the store starts as the empty dictionary |
| RateStore.Store.StoreRates | src/main.js:98-104 | the new store is `AfterStore(old store, rates)`; its keys are the old keys plus `UAH` plus the listed codes; `UAH` maps to the identity entry unless a listed rate is for `UAH`; each listed code maps to its last rate in the list |
| RateStore.AfterStore | src/main.js:98-104 | the store after storeRates holds the old keys plus `UAH` plus the listed codes, so nothing is removed; `UAH` maps to the identity entry unless a listed rate is for `UAH` |
| RateStore.InsertedLast | src/main.js:101-103 | the in-order assignment loop leaves each code mapped to the last rate in the list with that code |
| RateStore.InsertedUntouched | src/main.js:101-103 | a code that no listed rate has keeps its presence and value through the loop |
| RateStore.InsertedKeys | src/main.js:101-103 | the loop's keys are the old keys plus exactly the listed codes |
| RateStore.StoreLastWins | src/main.js:99-103 | after storeRates, a listed code maps to the last rate with that code, so later duplicates win, including over the `UAH` identity entry |
| RateStore.StoreIdentity | src/main.js:99 | with no incoming `UAH` rate, `UAH` maps to the identity entry (1, 1), so the store is non-empty |
| RateStore.StoreKeepsOthers | src/main.js:98-104 | a key present before the call that is neither `UAH` nor a listed code keeps its old value, so nothing is removed |
| RateStore.StoreFromEmpty | src/main.js:14-26 | starting from the empty store, as the page does, the keys are exactly `UAH` and the listed codes |
| RateStore.StaleEntrySurvives | src/main.js:98-104 | a `USD` entry from a first call survives a second call that lists only `EUR`, because the store is merged, not rebuilt |
| Converter.Convert | src/main.js:111-134 | an invalid amount (NaN or not positive) is rejected first and regardless of the store; an empty store is rejected next, even when from equals to; a same-currency request returns the amount unchanged, without any lookup; otherwise a source other than `UAH` missing from the store gives `UnknownCurrency(from)`, a present (or `UAH`) source with a target other than `UAH` missing gives `UnknownCurrency(to)`, so the source is looked up first; an unknown-currency failure always names a missing code; when both lookups succeed, a zero sale rate of a target other than `UAH` gives `NotFinite`, and `NotFinite` comes from nothing else |
| Converter.Quotient | src/main.js:126-127 | the division succeeds exactly when the divisor is non-zero, and then the result times the divisor is the dividend; a zero divisor gives `NotFinite` |
| Converter.ValidAmount | src/main.js:111 | an amount is accepted only when it parsed as a number, and then exactly when it is positive |
| Converter.ResolutionCases | src/main.js:123-134 | out of `UAH` the result is amount / sale(to); into `UAH` it is amount * purchase(from); otherwise it is (amount * purchase(from)) / sale(to) |
| Converter.PivotRule | src/main.js:123-134 | while the `UAH` entry is neutral, every non-identity conversion equals the one pivot formula amount * purchase(from) / sale(to); the two shortcut branches are that formula with the unit rate filled in |
| Converter.CrossRateViaLocal | src/main.js:131-133 | a cross conversion equals converting into `UAH` and then converting that amount out of `UAH` |
| Converter.ConvertScales | src/main.js:123-134 | conversion is linear: scaling the amount by k > 0 scales a successful result by k and changes no outcome kind |
| RenderFilter.FilterNeeded | src/main.js:65-68 | a rate is in the result exactly when it is in the input and its currency is `USD`, `EUR` or `PLN` |
| RenderFilter.FilterIsSubsequence | src/main.js:66-68 | the kept rates are a subsequence of the input, so their order is kept |
| RenderFilter.FilterAppend | src/main.js:66-68 | filtering a concatenation is the concatenation of the filtered parts |
| RenderFilter.FilterCounts | src/main.js:66-68 | each allow-listed rate is kept as often as it occurs; other rates are dropped |
| RenderFilter.FilterKeepsNeeded | src/main.js:66-68 | a list of allow-listed rates passes the filter unchanged |
| RenderFilter.FilterIdempotent | src/main.js:66-68 | filtering twice is the same as filtering once |
| RenderFilter.RenderRates | src/main.js:64-75 | the "no data" notice appears exactly when no rate is allow-listed; otherwise the cards are the filtered rates, headed by the snapshot date only outside today's panel |
| Dates.NatToString | src/main.js:141-142 | the decimal text of a natural number is all digits, has one character exactly for numbers below ten, and starts with '0' only for zero |
| Dates.ParseNatToString | src/main.js:141-143 | reading the decimal text back gives the number |
| Dates.IntToString | src/main.js:143-144 | the text of an integer starts with '-' exactly for negatives and is digits otherwise |
| Dates.IntToStringRoundTrip | src/main.js:143-144 | reading an integer's text back gives the integer, so the year is shown unpadded and intact |
| Dates.IntToStringInjective | src/main.js:143-144 | different integers have different texts |
| Dates.PadStart2 | src/main.js:141-142 | `padStart(2, '0')` gives at least two characters, ends with the input and fills the front with '0' |
| Dates.TwoDigitsValue | src/main.js:141-142 | a number below 100 becomes exactly two digits that read back as the number |
| Dates.FormatDate | src/main.js:140-145 | the result is `DD.MM.Y`: two digits reading back as the day, '.', two digits reading back as month0 + 1, '.', and the year's own text |
| Dates.Split | src/main.js:40 | a split yields at least one piece and no piece contains the separator |
| Dates.Reverse | src/main.js:40 | the reversed sequence has the same length, with element i taken from the mirrored position |
| Dates.Join | src/main.js:40 | the joined text starts with the first piece and contains every character of every piece |
| Dates.JoinSplit | src/main.js:40 | joining the pieces of a split with the same separator restores the string |
| Dates.SplitJoin | src/main.js:40 | splitting a join of separator-free pieces gives the pieces back |
| Dates.PickerDateReversed | src/main.js:40 | split on '-', reverse and join with '.' turn a picker value `YYYY-MM-DD` into `DD.MM.YYYY` |
| Dates.ReversedPieces | src/main.js:40 | for a dot-free input, splitting the split-reverse-join result on '.' gives the '-' pieces in reverse order |
| Dates.PickerToProvider | src/main.js:40 | the picker conversion turns `YYYY-MM-DD` into `DD.MM.YYYY`, and splitting its result on '.' gives the input's '-' pieces reversed |
| Fetcher.FetchRates | src/main.js:52-62 | success happens exactly when the response is ok and the body has no truthy error, and then the body comes back unchanged; a status failure happens exactly when the response is not ok and carries its status; a provider failure carries the body's message verbatim |
| Fetcher.HasError | src/main.js:58 | the body reports an error exactly when its `error` field is present and is not the empty string |
| Fetcher.ErrorMessage | src/main.js:55-59 | a provider failure shows the provider's message as it is; a status failure shows the fixed prefix followed by the status text, which reads back as the status |
| Fetcher.StatusMessagesDistinct | src/main.js:55 | different statuses give different messages |
| Page.LoadToday | src/main.js:20-31 | a failed fetch leaves the store unchanged and shows the error message; a successful one stores the rates as storeRates does and shows the rendered snapshot without a heading |
| Page.ArchiveQuery | src/main.js:34-40 | an empty picker value gives the date prompt and no request; a `YYYY-MM-DD` value requests `DD.MM.YYYY` |
| Page.ArchivePanel | src/main.js:43-49 | the panel shows an alert exactly when the fetch fails, with the failure's message (the status message for a non-ok response, the provider's text verbatim otherwise); on success it is the snapshot rendered under its date |
| Page.RatesLoadedAfterStore | src/main.js:98-119 | after any storeRates call, whatever it stored, no conversion is refused for lack of rates |
| Page.ConvertOutOfLocalAfterStore | src/main.js:98-127 | after storeRates, converting `UAH` into a listed currency divides by the sale rate of that currency's last quote |
| Page.ConvertIntoLocalAfterStore | src/main.js:98-130 | after storeRates, converting a listed currency into `UAH` multiplies by the purchase rate of that currency's last quote |
| Page.WorkedExamples | src/main.js:123-134 | with `USD` at 27 / 27.5 and `EUR` at 29 / 29.7: 100 `UAH` is 100 / 27.5 `USD`, 100 `USD` is 2700 `UAH`, and 100 `USD` is 2700 / 29.7 `EUR` |

## Left out

- The network request, `response.json()` and the endpoint URL (src/main.js:1, 53, 57) are network I/O. The response the transport produced is an input (`Fetcher.Response`). A body that fails to parse as JSON is not modelled.
- DOM lookups, event listeners, markup, the spinner, disabling the archive button and `alert` (src/main.js:3-18, 29, 41, 46, 48, 75-95, 136-137) are user-interface plumbing. Alerts and prompts are result variants (`Converter.Conversion`, `Page.Prompt`, `Page.Panel`) and the rendered panel is the `RenderFilter.View` datatype.
- `toFixed(2)` and `parseFloat` (src/main.js:84, 88, 107, 136) are floating-point formatting and parsing. Amounts arrive as `Option<real>`, with `None` for NaN.
- Floating-point arithmetic is not modelled. Rates and amounts are exact reals, and a division by zero is the `NotFinite` outcome instead of `Infinity` or `NaN`.
- `new Date()` and its accessors (src/main.js:21, 141-143) read the host clock. `Dates.FormatDate` takes the day, the 0-based month and the year as integers, in the ranges the date object guarantees.
- The two fetches may overlap in time. That concurrency holds no logic worth verifying and is not modelled.
- The store is a plain map. Keys that a JavaScript object inherits from its prototype (such as `toString`) are not modelled.
- Provider records are modelled with a currency code and two numeric rates. Records that lack a rate field, and `error` fields that are not strings, are not modelled.
- `getTodayRates` and `getArchiveRates` also catch exceptions that storing (today only) or rendering would throw on a malformed body. In the model the body always holds a rate list, so those exceptions cannot happen.
