/** The exchange-rate records the client fetches and keeps. */
module Rates {

  /** The local currency: every conversion pivots through it. */
  const Local: string := "UAH"

  /** One currency's quoted rates for a day, as the provider returns them. */
  datatype Rate = Rate(currency: string, purchaseRate: real, saleRate: real)

  /**
   * A value of the rate store: either the synthetic identity entry that
   * storeRates writes for the local currency, or a provider record stored
   * as it was received.
   */
  datatype StoredRate = Identity | Provided(rate: Rate) {

    /** The rate at which the provider buys this currency for local money. */
    function PurchaseRate(): real {
      match this
      case Identity => 1.0
      case Provided(r) => r.purchaseRate
    }

    /** The rate at which the provider sells this currency for local money. */
    function SaleRate(): real {
      match this
      case Identity => 1.0
      case Provided(r) => r.saleRate
    }
  }
}
