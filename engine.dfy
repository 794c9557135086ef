/**
 * send_transaction as pure functions over the tables: the request checks
 * (Prepare), the store phase (Settlement), and their composition (Send).
 * The address validator, signer recovery, price feed and random token are
 * parameters.
 */
module Engine {
  import opened Wrappers
  import opened Responses
  import opened Text
  import opened TxHashes
  import opened Pricing
  import opened Signatures
  import opened Ledger

  /** The JSON body of a transfer request; `None` is an absent key. */
  datatype SendRequest = SendRequest(from: Option<string>, to: Option<string>, amount: Option<real>,
                                     amountType: Option<string>, signature: Option<string>,
                                     message: Option<string>)

  /** A request that passed the checks: canonical addresses and the amount in ETH. */
  datatype Order = Order(from: string, to: string, amountEth: real, ethPrice: Option<real>,
                         signature: string, fromAsGiven: string, toAsGiven: string)

  /** The success answer of a transfer. */
  datatype Receipt = Receipt(txHash: string, amountEth: real, amountUsd: Option<real>,
                             from: string, to: string)

  /** A handler's answer together with the tables it leaves behind. */
  datatype Outcome<+T> = Outcome(response: Result<T>, after: Tables)

  /** All of from, to, amount, signature and message are truthy; a zero amount is missing. */
  predicate FieldsPresent(req: SendRequest) {
    Present(req.from) && Present(req.to) && Truthy(req.amount) && Present(req.signature) && Present(req.message)
  }

  predicate IsUsd(req: SendRequest) {
    req.amountType == Some("usd")
  }

  /** The signature is the test sentinel or recovers to the sender. */
  predicate Authorized(req: SendRequest, recover: (string, string) -> Option<string>)
    requires FieldsPresent(req)
  {
    req.signature.value == MOCK_SIGNATURE
    || VerifySignature(recover, req.message.value, req.signature.value, req.from.value)
  }

  /**
   * The checks of send_transaction that read no table, in the source's order:
   * missing field, bad address, bad signature, no usable rate for a USD amount.
   */
  function Prepare(req: SendRequest, isAddress: string -> bool,
                   recover: (string, string) -> Option<string>, price: Option<real>): (r: Result<Order>)
    ensures r == Err(MissingFields) <==> !FieldsPresent(req)
    ensures r == Err(InvalidAddress) <==>
      FieldsPresent(req) && !(isAddress(req.from.value) && isAddress(req.to.value))
    ensures r == Err(InvalidSignature) <==>
      FieldsPresent(req) && isAddress(req.from.value) && isAddress(req.to.value) && !Authorized(req, recover)
    ensures r == Err(PriceUnavailable) <==>
      FieldsPresent(req) && isAddress(req.from.value) && isAddress(req.to.value) && Authorized(req, recover)
      && IsUsd(req) && !Truthy(price)
    ensures r.Ok? <==>
      FieldsPresent(req) && isAddress(req.from.value) && isAddress(req.to.value) && Authorized(req, recover)
      && !(IsUsd(req) && !Truthy(price))
    ensures r.Ok? ==> r.value.from == Lower(req.from.value) && r.value.to == Lower(req.to.value)
    ensures r.Ok? ==> r.value.fromAsGiven == req.from.value && r.value.toAsGiven == req.to.value
    ensures r.Ok? ==> r.value.ethPrice == price && r.value.signature == req.signature.value
    ensures r.Ok? && IsUsd(req) ==> r.value.amountEth * price.value == req.amount.value
    ensures r.Ok? && !IsUsd(req) ==> r.value.amountEth == req.amount.value
    ensures r.Ok? ==> r.value.amountEth != 0.0
  {
    if !FieldsPresent(req) then Err(MissingFields)
    else if !isAddress(req.from.value) || !isAddress(req.to.value) then Err(InvalidAddress)
    else if !Authorized(req, recover) then Err(InvalidSignature)
    else if IsUsd(req) && !Truthy(price) then Err(PriceUnavailable)
    else
      var amountEth := if IsUsd(req) then UsdToEth(req.amount.value, price).value else req.amount.value;
      Ok(Order(Lower(req.from.value), Lower(req.to.value), amountEth, price, req.signature.value,
               req.from.value, req.to.value))
  }

  /** The ledger row a settled order appends. */
  function Row(o: Order, txHash: string): Tx {
    Tx(o.from, o.to, o.amountEth, o.ethPrice, o.signature, txHash, Completed)
  }

  /**
   * The store phase, up to the commit: sender lookup, balance check, implicit
   * recipient creation (committed on its own), the two balance updates and
   * the row insert.  A hash already in the ledger violates UNIQUE: the
   * updates roll back, the recipient stays.
   */
  function Settlement(t: Tables, o: Order, txHash: string): (out: Outcome<Receipt>)
    ensures out.response == Err(SenderNotFound) <==> o.from !in t.balances
    ensures out.response == Err(InsufficientBalance) <==>
      o.from in t.balances && t.balances[o.from] < o.amountEth
    ensures out.response == Err(TransactionFailed) <==>
      o.from in t.balances && t.balances[o.from] >= o.amountEth && HashUsed(t.ledger, txHash)
    ensures out.response.Ok? <==>
      o.from in t.balances && t.balances[o.from] >= o.amountEth && !HashUsed(t.ledger, txHash)
    ensures out.response.Err? && out.response.error != TransactionFailed ==> out.after == t
    ensures out.response == Err(TransactionFailed) ==> out.after == OpenAccount(t, o.to)
    ensures out.response.Err? ==> out.after.ledger == t.ledger
    ensures out.response.Ok? ==>
      && out.response.value.txHash == txHash && out.response.value.amountEth == o.amountEth
      && out.response.value.amountUsd == UsdValue(o.amountEth, o.ethPrice)
      && out.response.value.from == o.fromAsGiven && out.response.value.to == o.toAsGiven
      && out.after.ledger == t.ledger + [Row(o, txHash)]
      && out.after.emails == OpenAccount(t, o.to).emails
      && out.after.balances.Keys == t.balances.Keys + {o.to}
      && (o.from != o.to ==>
            && out.after.balances[o.from] == t.balances[o.from] - o.amountEth
            && out.after.balances[o.to] == (if o.to in t.balances then t.balances[o.to] else 0.0) + o.amountEth)
      && (o.from == o.to ==> out.after.balances[o.from] == t.balances[o.from])
      && (forall a :: a in t.balances && a != o.from && a != o.to ==> out.after.balances[a] == t.balances[a])
  {
    if o.from !in t.balances then Outcome(Err(SenderNotFound), t)
    else if t.balances[o.from] < o.amountEth then Outcome(Err(InsufficientBalance), t)
    else
      var withRecipient := OpenAccount(t, o.to);
      if HashUsed(t.ledger, txHash) then Outcome(Err(TransactionFailed), withRecipient)
      else
        Outcome(Ok(Receipt(txHash, o.amountEth, UsdValue(o.amountEth, o.ethPrice), o.fromAsGiven, o.toAsGiven)),
                withRecipient.(balances := Moved(withRecipient.balances, o.from, o.to, o.amountEth),
                               ledger := t.ledger + [Row(o, txHash)]))
  }

  /** The stored email of an account; no account, no email. */
  function EmailOf(t: Tables, a: string): (e: Option<string>)
    ensures a !in t.emails ==> e == None
    ensures a in t.emails ==> e == t.emails[a]
  {
    if a in t.emails then t.emails[a] else None
  }

  /**
   * The notices sent after the commit print the rate with two decimals.
   * With no rate that raises as soon as a notice is due: the sender has an
   * email, or the recipient existed before and has one.
   */
  predicate NoticeFails(t: Tables, o: Order) {
    o.ethPrice.None? && (Present(EmailOf(t, o.from)) || (o.to in t.balances && Present(EmailOf(t, o.to))))
  }

  /**
   * send_transaction as written.  When the notices raise after the commit,
   * the exception handler answers 500 with nothing left to roll back.
   */
  function Send(t: Tables, req: SendRequest, isAddress: string -> bool,
                recover: (string, string) -> Option<string>, price: Option<real>,
                entropy: seq<Byte>): (out: Outcome<Receipt>)
    requires |entropy| == TOKEN_BYTES
    ensures t.ledger <= out.after.ledger && |out.after.ledger| <= |t.ledger| + 1
    ensures t.balances.Keys <= out.after.balances.Keys
    ensures out.response.Ok? ==> |out.after.ledger| == |t.ledger| + 1
    ensures out.response.Err? && |out.after.ledger| == |t.ledger| + 1 ==>
      out.response.error == TransactionFailed && price == None
  {
    match Prepare(req, isAddress, recover, price)
    case Err(e) => Outcome(Err(e), t)
    case Ok(o) =>
      var out := Settlement(t, o, GenerateTxHash(entropy));
      if out.response.Ok? && NoticeFails(t, o) then Outcome(Err(TransactionFailed), out.after) else out
  }

  /** The checks with the missing one added: the ETH amount must be positive. */
  function PrepareGuarded(req: SendRequest, isAddress: string -> bool,
                          recover: (string, string) -> Option<string>, price: Option<real>): (r: Result<Order>)
    ensures r.Ok? ==> r == Prepare(req, isAddress, recover, price) && r.value.amountEth > 0.0
    ensures Prepare(req, isAddress, recover, price).Err? ==> r == Prepare(req, isAddress, recover, price)
    ensures r.Ok? <==> Prepare(req, isAddress, recover, price).Ok? && Prepare(req, isAddress, recover, price).value.amountEth > 0.0
  {
    var r := Prepare(req, isAddress, recover, price);
    if r.Ok? && r.value.amountEth <= 0.0 then Err(NonPositiveAmount) else r
  }

  /**
   * send_transaction as evidently intended: no transfer of a non-positive
   * amount, and notices that cannot change the answer of a committed
   * transfer.  The answer is Ok exactly when a row was appended.
   */
  function SendGuarded(t: Tables, req: SendRequest, isAddress: string -> bool,
                       recover: (string, string) -> Option<string>, price: Option<real>,
                       entropy: seq<Byte>): (out: Outcome<Receipt>)
    requires |entropy| == TOKEN_BYTES
    ensures t.ledger <= out.after.ledger && |out.after.ledger| <= |t.ledger| + 1
    ensures t.balances.Keys <= out.after.balances.Keys
    ensures out.response.Ok? <==> |out.after.ledger| == |t.ledger| + 1
  {
    match PrepareGuarded(req, isAddress, recover, price)
    case Err(e) => Outcome(Err(e), t)
    case Ok(o) => Settlement(t, o, GenerateTxHash(entropy))
  }
}
