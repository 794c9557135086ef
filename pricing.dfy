/**
 * The ETH/USD rate as the handlers use it.  The rate itself comes from an
 * external price feed and is a parameter here: `None` when the fetch failed.
 * Python truthiness decides usability, so a rate of 0 counts as unavailable.
 */
module Pricing {
  import opened Wrappers
  import opened Responses

  /** An optional number that is truthy in Python: present and non-zero. */
  predicate Truthy(x: Option<real>) {
    x.Some? && x.value != 0.0
  }

  /** get_price: the rate, or 503 when the feed gave nothing usable. */
  function GetPrice(price: Option<real>): (r: Result<real>)
    ensures r.Ok? <==> Truthy(price)
    ensures r.Ok? ==> price == Some(r.value)
    ensures r.Err? ==> r.error == PriceUnavailable
  {
    if Truthy(price) then Ok(price.value) else Err(PriceUnavailable)
  }

  /** usd_to_eth: the ETH amount worth `usd` at the rate, if there is one. */
  function UsdToEth(usd: real, price: Option<real>): (eth: Option<real>)
    ensures eth.Some? <==> Truthy(price)
    ensures eth.Some? ==> eth.value * price.value == usd
  {
    if Truthy(price) then Some(usd / price.value) else None
  }

  /** The USD value of an ETH amount when the rate is usable, else none (not an error). */
  function UsdValue(eth: real, price: Option<real>): (usd: Option<real>)
    ensures usd.Some? <==> Truthy(price)
    ensures usd.Some? ==> UsdToEth(usd.value, price) == Some(eth)
  {
    if Truthy(price) then
      var value := eth * price.value;
      ScaleBack(eth, price.value);
      assert value / price.value == eth;
      assert UsdToEth(value, price) == Some(eth);
      Some(value)
    else None
  }

  /** Scaling by a non-zero rate and back is the identity. */
  lemma ScaleBack(x: real, p: real)
    requires p != 0.0
    ensures (x * p) / p == x
  {
  }

  datatype Conversion = Conversion(usd: real, eth: real, ethPrice: real)

  /**
   * convert_currency: the rate is checked first, then a truthy `usd` wins
   * over `eth`.  Whatever is returned is a consistent pair at the rate.
   */
  function ConvertCurrency(usd: Option<real>, eth: Option<real>, price: Option<real>): (r: Result<Conversion>)
    ensures !Truthy(price) ==> r == Err(PriceUnavailable)
    ensures Truthy(price) && !Truthy(usd) && !Truthy(eth) ==> r == Err(AmountRequired)
    ensures r.Ok? <==> Truthy(price) && (Truthy(usd) || Truthy(eth))
    ensures r.Ok? ==> price == Some(r.value.ethPrice) && r.value.eth * r.value.ethPrice == r.value.usd
    ensures r.Ok? && Truthy(usd) ==> r.value.usd == usd.value
    ensures r.Ok? && !Truthy(usd) ==> r.value.eth == eth.value
  {
    if !Truthy(price) then Err(PriceUnavailable)
    else if Truthy(usd) then Ok(Conversion(usd.value, UsdToEth(usd.value, price).value, price.value))
    else if Truthy(eth) then Ok(Conversion(eth.value * price.value, eth.value, price.value))
    else Err(AmountRequired)
  }

  /** Converting USD to ETH and the result back to USD at one rate recovers the USD amount. */
  lemma ConvertRoundTrip(usd: real, price: Option<real>)
    requires usd != 0.0 && Truthy(price)
    ensures var there := ConvertCurrency(Some(usd), None, price);
            there.Ok? &&
            var back := ConvertCurrency(None, Some(there.value.eth), price);
            back.Ok? && back.value.usd == usd
  {
    var there := ConvertCurrency(Some(usd), None, price);
    assert there.value.eth * price.value == usd;
    assert there.value.eth != 0.0;
  }
}
