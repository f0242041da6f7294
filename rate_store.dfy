/**
 * The page-lifetime rate store (`todayRatesStore`) and its only mutator,
 * `storeRates`: write the local identity entry, then insert each fetched
 * rate in array order. The store is never cleared.
 */
module RateStore {
  import opened Rates

  /** The store's contents: currency code to stored rate. */
  type Table = map<string, StoredRate>

  /** The currency codes that occur in a rate list. */
  function Currencies(rs: seq<Rate>): set<string> {
    set i | 0 <= i < |rs| :: rs[i].currency
  }

  /** The table after assigning each rate of `rs` to its currency, in order. */
  function Inserted(t: Table, rs: seq<Rate>): Table
    decreases |rs|
  {
    if rs == [] then t
    else Inserted(t, rs[..|rs| - 1])[rs[|rs| - 1].currency := Provided(rs[|rs| - 1])]
  }

  /**
   * The table `storeRates(rs)` leaves behind when it starts from `t`: it
   * only ever adds keys, and the local currency keeps its identity entry
   * unless a listed rate is quoted for it.
   */
  function AfterStore(t: Table, rs: seq<Rate>): (r: Table)
    ensures r.Keys == t.Keys + {Local} + Currencies(rs)
    ensures Local !in Currencies(rs) ==> r[Local] == Identity
  {
    InsertedKeys(t[Local := Identity], rs);
    assert Local !in Currencies(rs) ==> Inserted(t[Local := Identity], rs)[Local] == Identity by {
      if Local !in Currencies(rs) {
        InsertedUntouched(t[Local := Identity], rs, Local);
      }
    }
    Inserted(t[Local := Identity], rs)
  }

  lemma CurrenciesOfPrefix(rs: seq<Rate>)
    requires rs != []
    ensures Currencies(rs) == Currencies(rs[..|rs| - 1]) + {rs[|rs| - 1].currency}
  {
    var p := rs[..|rs| - 1];
    forall c | c in Currencies(rs) ensures c in Currencies(p) + {rs[|rs| - 1].currency} {
      var i :| 0 <= i < |rs| && rs[i].currency == c;
      if i < |rs| - 1 { assert p[i] == rs[i]; }
    }
    forall c | c in Currencies(p) ensures c in Currencies(rs) {
      var i :| 0 <= i < |p| && p[i].currency == c;
      assert rs[i] == p[i];
    }
  }

  /** The last rate of a currency in the list is the one the table keeps. */
  lemma {:induction false} InsertedLast(t: Table, rs: seq<Rate>, i: nat)
    requires i < |rs|
    requires forall j :: i < j < |rs| ==> rs[j].currency != rs[i].currency
    ensures rs[i].currency in Inserted(t, rs)
    ensures Inserted(t, rs)[rs[i].currency] == Provided(rs[i])
  {
    if i < |rs| - 1 {
      var p := rs[..|rs| - 1];
      assert p[i] == rs[i];
      InsertedLast(t, p, i);
    }
  }

  /** A currency absent from the list keeps whatever the table had for it. */
  lemma {:induction false} InsertedUntouched(t: Table, rs: seq<Rate>, c: string)
    requires c !in Currencies(rs)
    ensures c in Inserted(t, rs) <==> c in t
    ensures c in t ==> Inserted(t, rs)[c] == t[c]
  {
    if rs != [] {
      CurrenciesOfPrefix(rs);
      InsertedUntouched(t, rs[..|rs| - 1], c);
    }
  }

  /** Inserting only adds keys: those of the table and those of the list. */
  lemma {:induction false} InsertedKeys(t: Table, rs: seq<Rate>)
    ensures Inserted(t, rs).Keys == t.Keys + Currencies(rs)
  {
    if rs != [] {
      CurrenciesOfPrefix(rs);
      InsertedKeys(t, rs[..|rs| - 1]);
    }
  }

  /** After storeRates, each listed currency maps to its last rate in the list. */
  lemma StoreLastWins(t: Table, rs: seq<Rate>, i: nat)
    requires i < |rs|
    requires forall j :: i < j < |rs| ==> rs[j].currency != rs[i].currency
    ensures rs[i].currency in AfterStore(t, rs)
    ensures AfterStore(t, rs)[rs[i].currency] == Provided(rs[i])
  {
    InsertedLast(t[Local := Identity], rs, i);
  }

  /** Without an incoming local-currency rate, the local identity entry is present. */
  lemma StoreIdentity(t: Table, rs: seq<Rate>)
    requires Local !in Currencies(rs)
    ensures Local in AfterStore(t, rs) && AfterStore(t, rs)[Local] == Identity
    ensures |AfterStore(t, rs)| > 0
  {
    InsertedUntouched(t[Local := Identity], rs, Local);
  }

  /** storeRates never removes a key, and keys it does not write keep their value. */
  lemma StoreKeepsOthers(t: Table, rs: seq<Rate>, c: string)
    requires c in t && c != Local && c !in Currencies(rs)
    ensures c in AfterStore(t, rs) && AfterStore(t, rs)[c] == t[c]
  {
    InsertedUntouched(t[Local := Identity], rs, c);
  }

  /**
   * Starting from the empty store, as the page's single call does, the keys
   * are exactly the local currency and the listed currencies.
   */
  lemma StoreFromEmpty(rs: seq<Rate>)
    ensures AfterStore(map[], rs).Keys == {Local} + Currencies(rs)
  {
  }

  /**
   * A second call does not discard a currency stored by the first one:
   * the store merges rather than rebuilds.
   */
  lemma StaleEntrySurvives(usd: Rate, eur: Rate)
    requires usd.currency == "USD" && eur.currency == "EUR"
    ensures "USD" in AfterStore(AfterStore(map[], [usd]), [eur])
    ensures AfterStore(AfterStore(map[], [usd]), [eur])["USD"] == Provided(usd)
  {
    var first := AfterStore(map[], [usd]);
    StoreLastWins(map[], [usd], 0);
    assert "USD" !in Currencies([eur]);
    StoreKeepsOthers(first, [eur], "USD");
  }

  /** The store object the page keeps for its whole lifetime. */
  class Store {
    var entries: Table

    /** The store starts empty. */
    constructor ()
      ensures entries == map[]
    {
      entries := map[];
    }

    /** Records the day's rates: the identity entry first, then each rate in order. */
    method StoreRates(rates: seq<Rate>)
      modifies this
      ensures entries == AfterStore(old(entries), rates)
      ensures entries.Keys == old(entries).Keys + {Local} + Currencies(rates)
      ensures Local !in Currencies(rates) ==> entries[Local] == Identity
      ensures forall i :: 0 <= i < |rates| && (forall j :: i < j < |rates| ==> rates[j].currency != rates[i].currency)
                ==> entries[rates[i].currency] == Provided(rates[i])
    {
      ghost var before := entries;
      entries := entries[Local := Identity];
      ghost var start := entries;
      for i := 0 to |rates|
        invariant entries == Inserted(start, rates[..i])
      {
        assert rates[..i + 1][..i] == rates[..i];
        entries := entries[rates[i].currency := Provided(rates[i])];
      }
      assert rates[..|rates|] == rates;
      forall i | 0 <= i < |rates| && (forall j :: i < j < |rates| ==> rates[j].currency != rates[i].currency)
        ensures rates[i].currency in entries && entries[rates[i].currency] == Provided(rates[i])
      {
        StoreLastWins(before, rates, i);
      }
    }
  }
}
