/**
 * The page's handlers, reduced to their data flow: loading today's rates
 * (fetch, store, render), loading an archive date (validate the picker value,
 * fetch, render without touching the store), and what a conversion sees once
 * the store is loaded.
 */
module Page {
  import opened Results
  import opened Rates
  import opened RateStore
  import opened Converter
  import opened RenderFilter
  import opened Dates
  import opened Fetcher

  /** What a rates panel ends up showing: an error alert or a rendered view. */
  datatype Panel = Alert(message: string) | Shown(view: View)

  /** The prompt shown when the archive button is pressed without a date. */
  datatype Prompt = ChooseDate

  /**
   * `getTodayRates` after the request for today's date (`FormatDate` of the
   * clock) has been answered with `resp`: on success the rates are stored and
   * rendered without a heading; on failure the store is left alone and the
   * panel shows the error message.
   */
  method LoadToday(store: Store, resp: Response) returns (panel: Panel)
    modifies store
    ensures FetchRates(resp).Failure? ==>
              store.entries == old(store.entries) && panel == Alert(ErrorMessage(FetchRates(resp).error))
    ensures FetchRates(resp).Success? ==>
              && store.entries == AfterStore(old(store.entries), resp.body.exchangeRate)
              && panel == Shown(RenderRates(resp.body.date, resp.body.exchangeRate, true))
  {
    var fetched := FetchRates(resp);
    match fetched
    case Failure(e) =>
      panel := Alert(ErrorMessage(e));
    case Success(data) =>
      store.StoreRates(data.exchangeRate);
      panel := Shown(RenderRates(data.date, data.exchangeRate, true));
  }

  /**
   * The date text `getArchiveRates` requests: an empty picker value is
   * refused with a prompt, anything else goes through the picker conversion.
   */
  function ArchiveQuery(selected: string): (r: Result<string, Prompt>)
    ensures r.Failure? <==> selected == ""
    ensures IsPickerDate(selected) ==>
              r == Success(selected[8..] + "." + selected[5..7] + "." + selected[..4])
  {
    if selected == "" then Failure(ChooseDate) else Success(PickerToProvider(selected))
  }

  /**
   * The archive panel for the answer `resp`: the error message, or the
   * snapshot rendered under its date. The store is not an input: archive
   * answers never reach it.
   */
  function ArchivePanel(resp: Response): (p: Panel)
    ensures FetchRates(resp).Failure? ==> p == Alert(ErrorMessage(FetchRates(resp).error))
    ensures FetchRates(resp).Success? ==> p == Shown(RenderRates(resp.body.date, resp.body.exchangeRate, false))
    // The remaining clauses follow from the two above with the contracts of
    // FetchRates and RenderRates; they spell out what a caller sees.
    ensures p.Alert? <==> !resp.ok || HasError(resp.body)
    ensures !resp.ok ==> p == Alert(ErrorMessage(HttpStatus(resp.status)))
    ensures p.Shown? && p.view.Cards? ==>
              p.view.heading == Some(resp.body.date) && p.view.rates == FilterNeeded(resp.body.exchangeRate)
  {
    match FetchRates(resp)
    case Failure(e) => Alert(ErrorMessage(e))
    case Success(data) => Shown(RenderRates(data.date, data.exchangeRate, false))
  }

  /** Once storeRates has run, whatever it stored, no conversion is refused for want of rates. */
  lemma RatesLoadedAfterStore(t: Table, rs: seq<Rate>, amount: Option<real>, from: string, to: string)
    ensures !Convert(AfterStore(t, rs), amount, from, to).RatesNotLoaded?
  {
    assert Local in AfterStore(t, rs);
  }

  /**
   * Once today's rates are stored, converting local money into a listed
   * currency divides by the sale rate of that currency's last quote.
   */
  lemma ConvertOutOfLocalAfterStore(t: Table, rs: seq<Rate>, i: nat, a: real)
    requires a > 0.0
    requires i < |rs| && rs[i].currency != Local
    requires forall j :: i < j < |rs| ==> rs[j].currency != rs[i].currency
    requires rs[i].saleRate != 0.0
    ensures Convert(AfterStore(t, rs), Some(a), Local, rs[i].currency) == Converted(a / rs[i].saleRate)
  {
    var table, q := AfterStore(t, rs), rs[i];
    StoreLastWins(t, rs, i);
    assert |table| > 0;
    ResolutionCases(table, a, Local, q.currency);
  }

  /**
   * Once today's rates are stored, converting a listed currency into local
   * money multiplies by the purchase rate of that currency's last quote.
   */
  lemma ConvertIntoLocalAfterStore(t: Table, rs: seq<Rate>, i: nat, a: real)
    requires a > 0.0
    requires i < |rs| && rs[i].currency != Local
    requires forall j :: i < j < |rs| ==> rs[j].currency != rs[i].currency
    ensures Convert(AfterStore(t, rs), Some(a), rs[i].currency, Local) == Converted(a * rs[i].purchaseRate)
  {
    var table, q := AfterStore(t, rs), rs[i];
    StoreLastWins(t, rs, i);
    assert |table| > 0;
    ResolutionCases(table, a, q.currency, Local);
  }

  /** The worked examples of the converter, on stores built by storeRates. */
  lemma WorkedExamples()
    ensures var usd := Rate("USD", 27.0, 27.5);
      var t := AfterStore(map[], [usd]);
      && Convert(t, Some(100.0), "UAH", "USD") == Converted(100.0 / 27.5)
      && Convert(t, Some(100.0), "USD", "UAH") == Converted(2700.0)
    ensures var usd, eur := Rate("USD", 27.0, 27.5), Rate("EUR", 29.0, 29.7);
      Convert(AfterStore(map[], [usd, eur]), Some(100.0), "USD", "EUR") == Converted(2700.0 / 29.7)
  {
    var usd, eur := Rate("USD", 27.0, 27.5), Rate("EUR", 29.0, 29.7);
    StoreLastWins(map[], [usd], 0);
    StoreLastWins(map[], [usd, eur], 0);
    StoreLastWins(map[], [usd, eur], 1);
  }
}
