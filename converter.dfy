/**
 * The arithmetic of `convertCurrency`: validate the amount, require a loaded
 * store, then resolve the pair through the local currency.
 */
module Converter {
  import opened Results
  import opened Rates

  /**
   * What a conversion request yields. The three failures are the cases the
   * page reports to the user (the two prompts) or crashes on (a currency the
   * store does not hold); `NotFinite` is a division by a zero sale rate,
   * which the page would display as a non-finite number.
   */
  datatype Conversion =
    | Converted(value: real)
    | InvalidAmount
    | RatesNotLoaded
    | UnknownCurrency(code: string)
    | NotFinite

  /** A parsed amount is acceptable when it is a number (not NaN) and positive. */
  predicate ValidAmount(amount: Option<real>): (b: bool)
    ensures b ==> amount != None
    ensures amount.Some? ==> (b <==> amount.value > 0.0)
  {
    amount.Some? && amount.value > 0.0
  }

  /** Division as the page performs it, with a zero divisor reported. */
  function Quotient(x: real, y: real): (r: Conversion)
    ensures r.Converted? <==> y != 0.0
    ensures r.Converted? ==> r.value * y == x
    ensures !r.Converted? ==> r == NotFinite
  {
    if y == 0.0 then NotFinite else Converted(x / y)
  }

  /**
   * Converts `amount` of `from` into `to` using the store `table`.
   * `amount` is `None` when the input field did not parse as a number.
   */
  function Convert(table: map<string, StoredRate>, amount: Option<real>, from: string, to: string): (r: Conversion)
    ensures r.InvalidAmount? <==> !ValidAmount(amount)
    ensures r.RatesNotLoaded? <==> ValidAmount(amount) && |table| == 0
    ensures ValidAmount(amount) && |table| > 0 && from == to ==> r == Converted(amount.value)
    ensures r.UnknownCurrency? ==> from != to && r.code !in table && (r.code == from || r.code == to)
    ensures ValidAmount(amount) && |table| > 0 && from != to && from != Local && from !in table ==>
              r == UnknownCurrency(from)
    ensures ValidAmount(amount) && |table| > 0 && from != to && (from == Local || from in table) && to != Local && to !in table ==>
              r == UnknownCurrency(to)
    ensures r.NotFinite? ==> from != to && to != Local && to in table && table[to].SaleRate() == 0.0
    ensures ValidAmount(amount) && |table| > 0 && from != to && (from == Local || from in table) && to != Local && to in table && table[to].SaleRate() == 0.0 ==>
              r == NotFinite
    ensures r.Converted? && from != to ==>
              (from == Local || from in table) && (to == Local || to in table)
  {
    if amount.None? || amount.value <= 0.0 then InvalidAmount
    else if |table| == 0 then RatesNotLoaded
    else
      var a := amount.value;
      if from == to then Converted(a)
      else if from == Local then
        if to !in table then UnknownCurrency(to)
        else Quotient(a, table[to].SaleRate())
      else if to == Local then
        if from !in table then UnknownCurrency(from)
        else Converted(a * table[from].PurchaseRate())
      else if from !in table then UnknownCurrency(from)
      else if to !in table then UnknownCurrency(to)
      else Quotient(a * table[from].PurchaseRate(), table[to].SaleRate())
  }

  /**
   * The resolution rule for a valid amount, a loaded store and two different
   * currencies whose entries exist and whose divisor is not zero: out of the
   * local currency divide by the target's sale rate, into it multiply by the
   * source's purchase rate, otherwise do both.
   */
  lemma ResolutionCases(table: map<string, StoredRate>, a: real, from: string, to: string)
    requires a > 0.0 && from != to
    requires from == Local || from in table
    requires to == Local || (to in table && table[to].SaleRate() != 0.0)
    requires |table| > 0
    ensures from == Local ==> Convert(table, Some(a), from, to) == Converted(a / table[to].SaleRate())
    ensures to == Local ==> Convert(table, Some(a), from, to) == Converted(a * table[from].PurchaseRate())
    ensures from != Local && to != Local ==>
              Convert(table, Some(a), from, to) == Converted(a * table[from].PurchaseRate() / table[to].SaleRate())
  {
  }

  /** The local currency is a neutral pivot: absent, or quoted one to one. */
  predicate LocalIsUnit(table: map<string, StoredRate>) {
    Local in table ==> table[Local].PurchaseRate() == 1.0 && table[Local].SaleRate() == 1.0
  }

  /**
   * Every successful non-identity conversion is the pivot formula
   * amount * purchase(from) / sale(to), provided the local entry is neutral;
   * the two shortcut branches are that formula with the unit rate filled in.
   */
  lemma PivotRule(table: map<string, StoredRate>, a: real, from: string, to: string)
    requires a > 0.0 && from != to
    requires from in table && to in table && table[to].SaleRate() != 0.0
    requires LocalIsUnit(table)
    ensures Convert(table, Some(a), from, to)
         == Converted(a * table[from].PurchaseRate() / table[to].SaleRate())
  {
    if from == Local {
      assert a * 1.0 == a;
    } else if to == Local {
      assert a * table[from].PurchaseRate() / 1.0 == a * table[from].PurchaseRate();
    }
  }

  /**
   * A cross conversion equals converting into the local currency and then
   * converting that amount out of it, whenever the intermediate amount is positive.
   */
  lemma CrossRateViaLocal(table: map<string, StoredRate>, a: real, from: string, to: string)
    requires a > 0.0 && from != to && from != Local && to != Local
    requires from in table && to in table
    requires table[from].PurchaseRate() > 0.0
    ensures Convert(table, Some(a), from, Local).Converted?
    ensures Convert(table, Some(a), from, to)
         == Convert(table, Some(Convert(table, Some(a), from, Local).value), Local, to)
  {
    var mid := a * table[from].PurchaseRate();
    assert mid > 0.0;
  }

  lemma ScaledQuotient(k: real, x: real, y: real)
    requires y != 0.0
    ensures (k * x) / y == k * (x / y)
  {
    var q := x / y;
    assert x == q * y;
    assert k * x == (k * q) * y;
  }

  lemma ScaledProduct(k: real, x: real, y: real)
    ensures (k * x) * y == k * (x * y)
  {
  }

  /** Whether a conversion succeeds does not depend on which positive amount is given. */
  lemma SameOutcomeKind(table: map<string, StoredRate>, a: real, b: real, from: string, to: string)
    requires a > 0.0 && b > 0.0
    ensures Convert(table, Some(a), from, to).Converted? <==> Convert(table, Some(b), from, to).Converted?
  {
  }

  lemma ScaledOutOfLocal(table: map<string, StoredRate>, a: real, k: real, to: string)
    requires a > 0.0 && k > 0.0 && to != Local
    requires to in table && table[to].SaleRate() != 0.0
    ensures Convert(table, Some(a), Local, to) == Converted(a / table[to].SaleRate())
    ensures Convert(table, Some(k * a), Local, to) == Converted(k * (a / table[to].SaleRate()))
  {
    var s := table[to].SaleRate();
    assert k * a > 0.0;
    ScaledQuotient(k, a, s);
  }

  lemma ScaledIntoLocal(table: map<string, StoredRate>, a: real, k: real, from: string)
    requires a > 0.0 && k > 0.0 && from != Local && from in table
    ensures Convert(table, Some(a), from, Local) == Converted(a * table[from].PurchaseRate())
    ensures Convert(table, Some(k * a), from, Local) == Converted(k * (a * table[from].PurchaseRate()))
  {
    var p := table[from].PurchaseRate();
    assert k * a > 0.0;
    ScaledProduct(k, a, p);
  }

  lemma ScaledCross(table: map<string, StoredRate>, a: real, k: real, from: string, to: string)
    requires a > 0.0 && k > 0.0 && from != to && from != Local && to != Local
    requires from in table && to in table && table[to].SaleRate() != 0.0
    ensures Convert(table, Some(a), from, to)
         == Converted(a * table[from].PurchaseRate() / table[to].SaleRate())
    ensures Convert(table, Some(k * a), from, to)
         == Converted(k * (a * table[from].PurchaseRate() / table[to].SaleRate()))
  {
    var p, s := table[from].PurchaseRate(), table[to].SaleRate();
    assert k * a > 0.0;
    ScaledProduct(k, a, p);
    ScaledQuotient(k, a * p, s);
  }

  /** Conversion is linear in the amount: scaling the input scales the result. */
  lemma ConvertScales(table: map<string, StoredRate>, a: real, k: real, from: string, to: string)
    requires a > 0.0 && k > 0.0
    ensures Convert(table, Some(a), from, to).Converted?
        <==> Convert(table, Some(k * a), from, to).Converted?
    ensures Convert(table, Some(a), from, to).Converted? ==>
              Convert(table, Some(k * a), from, to).value == k * Convert(table, Some(a), from, to).value
  {
    assert k * a > 0.0;
    SameOutcomeKind(table, a, k * a, from, to);
    if Convert(table, Some(a), from, to).Converted? && from != to {
      if from == Local {
        ScaledOutOfLocal(table, a, k, to);
      } else if to == Local {
        ScaledIntoLocal(table, a, k, from);
      } else {
        ScaledCross(table, a, k, from, to);
      }
    }
  }
}
