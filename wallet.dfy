/**
 * The wallet server's state and request handlers, without the HTTP layer.
 * The users table is the pair of maps `balances` and `emails` keyed by the
 * lower-case address; the transactions table is `ledger`, in insertion order.
 * The mutating handlers change the fields step by step, as the source issues
 * its INSERT and UPDATE statements, and are proved against module Engine.
 */
module WalletServer {
  import opened Wrappers
  import opened Responses
  import opened Text
  import opened TxHashes
  import opened Pricing
  import opened Signatures
  import opened Ledger
  import opened Engine
  import opened TransferLaws

  /** The success answer of create_wallet: the address as given and its balance. */
  datatype Created = Created(address: string, balance: real)

  /** The success answer of get_balance. */
  datatype BalanceView = BalanceView(address: string, balanceEth: real, balanceUsd: Option<real>,
                                     ethPrice: Option<real>)

  class Wallet {
    var balances: map<string, real>
    var emails: map<string, Option<string>>
    var ledger: seq<Tx>

    function Snapshot(): Tables
      reads this
    {
      Tables(balances, emails, ledger)
    }

    ghost predicate Valid()
      reads this
    {
      Consistent(Snapshot())
    }

    /** Empty tables, as init_db creates them. */
    constructor ()
      ensures Valid()
      ensures balances == map[] && emails == map[] && ledger == []
    {
      balances, emails, ledger := map[], map[], [];
    }

    /**
     * create_wallet: insert the lower-cased address with the starting balance
     * and the given email; a duplicate address violates UNIQUE and is 409.
     */
    method CreateWallet(address: Option<string>, email: Option<string>, isAddress: string -> bool)
      returns (r: Result<Created>)
      requires Valid()
      modifies this
      ensures Valid() && ledger == old(ledger)
      ensures !Present(address) ==> r == Err(AddressRequired)
      ensures Present(address) && !isAddress(address.value) ==> r == Err(InvalidAddress)
      ensures Present(address) && isAddress(address.value) && Lower(address.value) in old(balances) ==>
                r == Err(AlreadyExists)
      ensures r.Ok? <==> Present(address) && isAddress(address.value) && Lower(address.value) !in old(balances)
      ensures r.Err? ==> balances == old(balances) && emails == old(emails)
      ensures r.Ok? ==>
                && balances == old(balances)[Lower(address.value) := STARTING_BALANCE]
                && emails == old(emails)[Lower(address.value) := email]
                && r.value == Created(address.value, STARTING_BALANCE)
      ensures r.Ok? ==> Total(balances) == Total(old(balances)) + STARTING_BALANCE
    {
      if !Present(address) {
        return Err(AddressRequired);
      }
      if !isAddress(address.value) {
        return Err(InvalidAddress);
      }
      var key := Lower(address.value);
      if key in balances {
        return Err(AlreadyExists);
      }
      TotalInsert(balances, key, STARTING_BALANCE);
      balances := balances[key := STARTING_BALANCE];
      emails := emails[key := email];
      r := Ok(Created(address.value, STARTING_BALANCE));
    }

    /**
     * get_balance: the stored balance of the lower-cased address, and its USD
     * value when the rate is usable (no USD value otherwise, not an error).
     */
    function GetBalance(address: string, isAddress: string -> bool, price: Option<real>): (r: Result<BalanceView>)
      reads this
      ensures !isAddress(address) ==> r == Err(InvalidAddress)
      ensures isAddress(address) && Lower(address) !in balances ==> r == Err(WalletNotFound)
      ensures r.Ok? <==> isAddress(address) && Lower(address) in balances
      ensures r.Ok? ==> Lower(address) in balances && r.value.balanceEth == balances[Lower(address)]
      ensures r.Ok? ==> r.value.address == address && r.value.ethPrice == price
      ensures r.Ok? ==> (r.value.balanceUsd.Some? <==> Truthy(price))
      ensures r.Ok? && r.value.balanceUsd.Some? ==>
                UsdToEth(r.value.balanceUsd.value, price) == Some(r.value.balanceEth)
    {
      if !isAddress(address) then Err(InvalidAddress)
      else if Lower(address) !in balances then Err(WalletNotFound)
      else
        var eth := balances[Lower(address)];
        Ok(BalanceView(address, eth, UsdValue(eth, price), price))
    }

    /** The store phase of send_transaction, statement by statement. */
    method Settle(o: Order, txHash: string) returns (r: Result<Receipt>)
      requires Valid() && IsLower(o.from) && IsLower(o.to)
      modifies this
      ensures Valid()
      ensures Outcome(r, Snapshot()) == Settlement(old(Snapshot()), o, txHash)
    {
      ghost var before := Snapshot();
      if o.from !in balances {
        return Err(SenderNotFound);
      }
      if balances[o.from] < o.amountEth {
        return Err(InsufficientBalance);
      }
      if o.to !in balances {
        // the implicit recipient is committed on its own
        balances := balances[o.to := 0.0];
        emails := emails[o.to := None];
      }
      ghost var withRecipient := Snapshot();
      assert withRecipient == OpenAccount(before, o.to);
      var committed := balances;
      balances := balances[o.from := balances[o.from] - o.amountEth];
      balances := balances[o.to := balances[o.to] + o.amountEth];
      assert balances == Moved(committed, o.from, o.to, o.amountEth);
      if HashUsed(ledger, txHash) {
        // the row insert violates UNIQUE(tx_hash): roll back to the last commit
        balances := committed;
        r := Err(TransactionFailed);
        assert Outcome(r, Snapshot()) == Settlement(before, o, txHash);
        SettlementKeepsConsistent(before, o, txHash);
        return;
      }
      ledger := ledger + [Row(o, txHash)];
      r := Ok(Receipt(txHash, o.amountEth, UsdValue(o.amountEth, o.ethPrice), o.fromAsGiven, o.toAsGiven));
      assert Snapshot() == withRecipient.(balances := Moved(withRecipient.balances, o.from, o.to, o.amountEth),
                                          ledger := before.ledger + [Row(o, txHash)]);
      assert Outcome(r, Snapshot()) == Settlement(before, o, txHash);
      SettlementKeepsConsistent(before, o, txHash);
    }

    /** send_transaction as written; `entropy` is the random token of the new hash. */
    method SendTransaction(req: SendRequest, isAddress: string -> bool,
                           recover: (string, string) -> Option<string>, price: Option<real>,
                           entropy: seq<Byte>) returns (r: Result<Receipt>)
      requires Valid() && |entropy| == TOKEN_BYTES
      modifies this
      ensures Valid()
      ensures Outcome(r, Snapshot()) == Send(old(Snapshot()), req, isAddress, recover, price, entropy)
      ensures Total(balances) == Total(old(balances))
    {
      SendConservesTotal(Snapshot(), req, isAddress, recover, price, entropy);
      var order := Prepare(req, isAddress, recover, price);
      if order.Err? {
        return Err(order.error);
      }
      var o := order.value;
      var senderEmail := EmailOf(Snapshot(), o.from);
      var recipientEmail := if o.to in balances then EmailOf(Snapshot(), o.to) else None;
      r := Settle(o, GenerateTxHash(entropy));
      if r.Ok? && o.ethPrice.None? && (Present(senderEmail) || Present(recipientEmail)) {
        // the notice prints the missing rate with two decimals and raises;
        // the handler answers 500 although the transfer is committed
        r := Err(TransactionFailed);
      }
    }

    /**
     * send_transaction with non-positive amounts refused and notices that do
     * not change the answer; keeps every balance non-negative.
     */
    method SendTransactionGuarded(req: SendRequest, isAddress: string -> bool,
                                  recover: (string, string) -> Option<string>, price: Option<real>,
                                  entropy: seq<Byte>) returns (r: Result<Receipt>)
      requires Valid() && |entropy| == TOKEN_BYTES
      modifies this
      ensures Valid()
      ensures Outcome(r, Snapshot()) == SendGuarded(old(Snapshot()), req, isAddress, recover, price, entropy)
      ensures old(Solvent(balances)) ==> Solvent(balances)
    {
      if Solvent(balances) {
        GuardedSendKeepsSolvent(Snapshot(), req, isAddress, recover, price, entropy);
      }
      var order := PrepareGuarded(req, isAddress, recover, price);
      if order.Err? {
        return Err(order.error);
      }
      r := Settle(order.value, GenerateTxHash(entropy));
    }

    /** get_transactions: the history of the lower-cased address. */
    function GetTransactions(address: string, isAddress: string -> bool): (r: Result<seq<Tx>>)
      reads this
      ensures r.Err? <==> !isAddress(address)
      ensures r.Err? ==> r.error == InvalidAddress
      ensures r.Ok? ==> |r.value| <= HISTORY_LIMIT
      ensures r.Ok? ==> forall t :: t in r.value ==> t in ledger && Involves(t, Lower(address))
      ensures r.Ok? ==> r.value == History(ledger, Lower(address))
    {
      if !isAddress(address) then Err(InvalidAddress) else Ok(History(ledger, Lower(address)))
    }

    /** get_transaction: the row with this exact hash, or 404. */
    function GetTransaction(hash: string): (r: Result<Tx>)
      reads this
      ensures r.Ok? ==> r.value in ledger && r.value.txHash == hash
      ensures r.Err? ==> r.error == TransactionNotFound
      ensures r.Err? ==> forall i :: 0 <= i < |ledger| ==> ledger[i].txHash != hash
    {
      Find(ledger, hash)
    }
  }

  /**
   * A client of the handlers: create 0xAAA, send 30 ETH to the unknown
   * 0xBBB with the sentinel signature, then look the row up by its hash.
   */
  method TransferExample() returns (senderBalance: real, recipientBalance: real, row: Result<Tx>)
    ensures senderBalance == 70.0 && recipientBalance == 30.0
    ensures row.Ok? && row.value.amount == 30.0 && row.value.status == Completed
    ensures row.Ok? && row.value.from == "0xaaa" && row.value.to == "0xbbb"
  {
    var w := new Wallet();
    var isAddress := (s: string) => true;
    var recover := (m: string, s: string) => None;
    var created := w.CreateWallet(Some("0xAAA"), None, isAddress);
    assert Lower("0xAAA") == "0xaaa";
    assert created.Ok?;
    var req := SendRequest(Some("0xAAA"), Some("0xBBB"), Some(30.0), Some("eth"),
                           Some(MOCK_SIGNATURE), Some("pay 30"));
    assert Lower("0xBBB") == "0xbbb";
    var entropy := seq(TOKEN_BYTES, i => 7);
    ghost var before := w.Snapshot();
    var sent := w.SendTransaction(req, isAddress, recover, Some(2000.0), entropy);
    assert Prepare(req, isAddress, recover, Some(2000.0)).Ok?;
    assert sent.Ok?;
    SendRecordsTransfer(before, req, isAddress, recover, Some(2000.0), entropy);
    senderBalance := w.balances["0xaaa"];
    recipientBalance := w.balances["0xbbb"];
    row := w.GetTransaction(sent.value.txHash);
  }
}
