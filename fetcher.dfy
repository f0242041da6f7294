/**
 * The decision inside `fetchRates`: a response that is not ok fails with its
 * HTTP status; a body carrying an `error` field fails with that message;
 * anything else is returned as it came. The request itself is not modelled:
 * the response it produced is the input here.
 */
module Fetcher {
  import opened Results
  import opened Rates
  import Dates

  /** The JSON body of a provider answer. */
  datatype Payload = Payload(date: string, exchangeRate: seq<Rate>, error: Option<string>)

  /** What the transport handed back: its ok flag, its status code and the decoded body. */
  datatype Response = Response(ok: bool, status: int, body: Payload)

  /** The two ways a fetch fails. */
  datatype FetchError = HttpStatus(status: int) | ProviderError(message: string)

  /** The prefix of the message shown for a failed HTTP status ("API error. Status: "). */
  const ApiErrorPrefix: string := "Помилка API. Статус: "

  /**
   * The body reports an error when its `error` field is truthy: present and,
   * being a string, not empty.
   */
  predicate HasError(p: Payload): (b: bool)
    ensures b <==> p.error != None && p.error != Some("")
  {
    p.error.Some? && p.error.value != ""
  }

  function FetchRates(resp: Response): (r: Result<Payload, FetchError>)
    ensures r.Success? <==> resp.ok && !HasError(resp.body)
    ensures r.Success? ==> r.value == resp.body
    ensures r.Failure? && r.error.HttpStatus? <==> !resp.ok
    ensures r.Failure? && r.error.HttpStatus? ==> r.error.status == resp.status
    ensures r.Failure? && r.error.ProviderError? ==> Some(r.error.message) == resp.body.error
  {
    if !resp.ok then Failure(HttpStatus(resp.status))
    else if HasError(resp.body) then Failure(ProviderError(resp.body.error.value))
    else Success(resp.body)
  }

  /**
   * The text the page shows for a failed fetch: the provider's message as it
   * is, or the fixed prefix followed by the status, which can be read back
   * from the text.
   */
  function ErrorMessage(e: FetchError): (m: string)
    ensures e.ProviderError? ==> m == e.message
    ensures e.HttpStatus? ==>
              && |m| > |ApiErrorPrefix| && m[..|ApiErrorPrefix|] == ApiErrorPrefix
              && m[|ApiErrorPrefix|..] == Dates.IntToString(e.status)
              && Dates.ParseInt(m[|ApiErrorPrefix|..]) == e.status
  {
    match e
    case HttpStatus(status) =>
      Dates.IntToStringRoundTrip(status);
      var m := ApiErrorPrefix + Dates.IntToString(status);
      assert m[..|ApiErrorPrefix|] == ApiErrorPrefix;
      assert m[|ApiErrorPrefix|..] == Dates.IntToString(status);
      m
    case ProviderError(message) => message
  }

  /** Different statuses give different messages. */
  lemma StatusMessagesDistinct(s1: int, s2: int)
    requires s1 != s2
    ensures ErrorMessage(HttpStatus(s1)) != ErrorMessage(HttpStatus(s2))
  {
  }
}
