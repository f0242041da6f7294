/**
 * The data decision inside `renderRates`: keep only the allow-listed
 * currencies, in their original order, and show a "no data" notice when none
 * remain. The markup itself is not modelled.
 */
module RenderFilter {
  import opened Results
  import opened Rates

  /** The currencies the page displays. */
  const NeededCurrencies: seq<string> := ["USD", "EUR", "PLN"]

  predicate Needed(c: string) {
    c in NeededCurrencies
  }

  /** The rates of allow-listed currencies, in input order. */
  function FilterNeeded(rs: seq<Rate>): (r: seq<Rate>)
    ensures forall x :: x in r <==> x in rs && Needed(x.currency)
    ensures |r| <= |rs|
  {
    if rs == [] then []
    else (if Needed(rs[0].currency) then [rs[0]] else []) + FilterNeeded(rs[1..])
  }

  /** `r` can be obtained from `s` by deleting elements, keeping the order of the rest. */
  ghost predicate IsSubsequence<T>(r: seq<T>, s: seq<T>)
    decreases |s|
  {
    if r == [] then true
    else if s == [] then false
    else (r[0] == s[0] && IsSubsequence(r[1..], s[1..])) || IsSubsequence(r, s[1..])
  }

  /** The filter keeps the relative order of the rates it keeps. */
  lemma {:induction false} FilterIsSubsequence(rs: seq<Rate>)
    ensures IsSubsequence(FilterNeeded(rs), rs)
  {
    if rs != [] {
      FilterIsSubsequence(rs[1..]);
      var r := FilterNeeded(rs);
      if Needed(rs[0].currency) {
        assert r[0] == rs[0] && r[1..] == FilterNeeded(rs[1..]);
      } else {
        assert r == FilterNeeded(rs[1..]);
      }
    }
  }

  /** Filtering a concatenation filters each part and concatenates the results. */
  lemma {:induction false} FilterAppend(a: seq<Rate>, b: seq<Rate>)
    ensures FilterNeeded(a + b) == FilterNeeded(a) + FilterNeeded(b)
  {
    if a != [] {
      assert (a + b)[0] == a[0];
      assert (a + b)[1..] == a[1..] + b;
      FilterAppend(a[1..], b);
    } else {
      assert a + b == b;
    }
  }

  /** Each rate is kept exactly as often as it occurs, when its currency is allow-listed. */
  lemma {:induction false} FilterCounts(rs: seq<Rate>, x: Rate)
    ensures multiset(FilterNeeded(rs))[x] == if Needed(x.currency) then multiset(rs)[x] else 0
  {
    if rs != [] {
      FilterCounts(rs[1..], x);
      assert rs == [rs[0]] + rs[1..];
    }
  }

  /** A list of allow-listed rates passes the filter unchanged. */
  lemma {:induction false} FilterKeepsNeeded(rs: seq<Rate>)
    requires forall i :: 0 <= i < |rs| ==> Needed(rs[i].currency)
    ensures FilterNeeded(rs) == rs
  {
    if rs != [] {
      FilterKeepsNeeded(rs[1..]);
      assert [rs[0]] + rs[1..] == rs;
    }
  }

  /** Filtering is idempotent. */
  lemma FilterIdempotent(rs: seq<Rate>)
    ensures FilterNeeded(FilterNeeded(rs)) == FilterNeeded(rs)
  {
    var r := FilterNeeded(rs);
    assert forall i :: 0 <= i < |r| ==> r[i] in r;
    FilterKeepsNeeded(r);
  }

  /** What a rates panel shows: the notice, or one card per kept rate under an optional heading. */
  datatype View = NoData | Cards(heading: Option<string>, rates: seq<Rate>)

  /**
   * The panel for a snapshot dated `date`. Today's panel has no heading; the
   * archive panel is headed with the snapshot's date.
   */
  function RenderRates(date: string, rs: seq<Rate>, today: bool): (v: View)
    ensures v.NoData? <==> forall i :: 0 <= i < |rs| ==> !Needed(rs[i].currency)
    ensures v.Cards? ==> v.rates == FilterNeeded(rs) && v.rates != []
    ensures v.Cards? ==> v.heading == if today then None else Some(date)
  {
    var kept := FilterNeeded(rs);
    if |kept| == 0 then
      assert forall i :: 0 <= i < |rs| ==> rs[i] !in kept;
      NoData
    else
      assert kept[0] in rs;
      Cards(if today then None else Some(date), kept)
  }
}
