/**
 * The error outcomes of the wallet's request handlers and the HTTP status
 * each one is reported with.  JSON shaping of the responses is not modelled.
 */
module Responses {

  datatype Error =
    | AddressRequired      // create_wallet: no address given
    | InvalidAddress       // the address library rejected an address
    | AlreadyExists        // create_wallet: UNIQUE(address) violated
    | WalletNotFound       // get_balance: no such account
    | PriceUnavailable     // the price feed gave nothing usable
    | AmountRequired       // convert_currency: neither usd nor eth given
    | MissingFields        // send_transaction: a required field is falsy
    | InvalidSignature     // send_transaction: signature check failed
    | SenderNotFound       // send_transaction: no account for the sender
    | InsufficientBalance  // send_transaction: sender balance below the amount
    | TransactionFailed    // send_transaction: the store raised, rolled back
    | TransactionNotFound  // get_transaction: no row with that hash
    | NonPositiveAmount    // only in the corrected transfer: amount <= 0

  datatype Result<+T> = Ok(value: T) | Err(error: Error)

  /** The HTTP status code each error is answered with. */
  function Status(e: Error): (code: int)
    ensures 400 <= code < 600
  {
    match e
    case AddressRequired => 400
    case InvalidAddress => 400
    case MissingFields => 400
    case InsufficientBalance => 400
    case AmountRequired => 400
    case NonPositiveAmount => 400
    case InvalidSignature => 401
    case WalletNotFound => 404
    case SenderNotFound => 404
    case TransactionNotFound => 404
    case AlreadyExists => 409
    case TransactionFailed => 500
    case PriceUnavailable => 503
  }
}
