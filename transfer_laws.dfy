/**
 * What send_transaction guarantees about the tables, proved of the pure
 * model in module Engine: conservation of the total balance, preservation
 * of the store's consistency, the recorded row, the order of the checks,
 * and the overdraft that a negative amount causes.
 */
module TransferLaws {
  import opened Wrappers
  import opened Responses
  import opened Text
  import opened TxHashes
  import opened Pricing
  import opened Signatures
  import opened Ledger
  import opened Engine

  /** Every transfer outcome leaves the sum of all balances as it was. */
  lemma SendConservesTotal(t: Tables, req: SendRequest, isAddress: string -> bool,
                           recover: (string, string) -> Option<string>, price: Option<real>,
                           entropy: seq<Byte>)
    requires |entropy| == TOKEN_BYTES
    ensures Total(Send(t, req, isAddress, recover, price, entropy).after.balances) == Total(t.balances)
  {
    var p := Prepare(req, isAddress, recover, price);
    if p.Ok? {
      SettlementConservesTotal(t, p.value, GenerateTxHash(entropy));
    }
  }

  lemma SettlementConservesTotal(t: Tables, o: Order, txHash: string)
    ensures Total(Settlement(t, o, txHash).after.balances) == Total(t.balances)
  {
    var out := Settlement(t, o, txHash);
    if o.from in t.balances && t.balances[o.from] >= o.amountEth {
      var withRecipient := OpenAccount(t, o.to);
      TotalOpenAccount(t, o.to);
      if !HashUsed(t.ledger, txHash) {
        TotalMoved(withRecipient.balances, o.from, o.to, o.amountEth);
      }
    }
  }

  /** A transfer keeps the store consistent: canonical keys, rows naming accounts, distinct hashes. */
  lemma SendKeepsConsistent(t: Tables, req: SendRequest, isAddress: string -> bool,
                            recover: (string, string) -> Option<string>, price: Option<real>,
                            entropy: seq<Byte>)
    requires |entropy| == TOKEN_BYTES
    requires Consistent(t)
    ensures Consistent(Send(t, req, isAddress, recover, price, entropy).after)
  {
    var p := Prepare(req, isAddress, recover, price);
    if p.Ok? {
      SettlementKeepsConsistent(t, p.value, GenerateTxHash(entropy));
    }
  }

  lemma SettlementKeepsConsistent(t: Tables, o: Order, txHash: string)
    requires Consistent(t) && IsLower(o.from) && IsLower(o.to)
    ensures Consistent(Settlement(t, o, txHash).after)
  {
    var out := Settlement(t, o, txHash);
    if out.response.Ok? {
      var l := out.after.ledger;
      assert l == t.ledger + [Row(o, txHash)];
      assert forall j :: 0 <= j < |t.ledger| ==> t.ledger[j].txHash != txHash;
      assert forall j :: 0 <= j < |t.ledger| ==> l[j] == t.ledger[j];
      assert out.after.emails.Keys == t.emails.Keys + {o.to};
    } else if out.response == Err(TransactionFailed) {
      assert out.after.emails.Keys == t.emails.Keys + {o.to};
    }
  }

  /** Checks that fail before the store is touched answer their error and change nothing. */
  lemma RejectedRequestChangesNothing(t: Tables, req: SendRequest, isAddress: string -> bool,
                                      recover: (string, string) -> Option<string>, price: Option<real>,
                                      entropy: seq<Byte>)
    requires |entropy| == TOKEN_BYTES
    ensures var out := Send(t, req, isAddress, recover, price, entropy);
            out.response.Err? && out.response.error != TransactionFailed ==> out.after == t
    ensures var p := Prepare(req, isAddress, recover, price);
            p.Err? ==> Send(t, req, isAddress, recover, price, entropy) == Outcome(Err(p.error), t)
  {
  }

  /** A zero amount is falsy and so reported as a missing field. */
  lemma ZeroAmountIsMissing(t: Tables, req: SendRequest, isAddress: string -> bool,
                            recover: (string, string) -> Option<string>, price: Option<real>,
                            entropy: seq<Byte>)
    requires |entropy| == TOKEN_BYTES && req.amount == Some(0.0)
    ensures Send(t, req, isAddress, recover, price, entropy) == Outcome(Err(MissingFields), t)
  {
  }

  /** The sentinel signature skips recovery: the outcome does not depend on the signer. */
  lemma SentinelSkipsVerification(t: Tables, req: SendRequest, isAddress: string -> bool,
                                  recover1: (string, string) -> Option<string>,
                                  recover2: (string, string) -> Option<string>,
                                  price: Option<real>, entropy: seq<Byte>)
    requires |entropy| == TOKEN_BYTES && req.signature == Some(MOCK_SIGNATURE)
    ensures Send(t, req, isAddress, recover1, price, entropy) == Send(t, req, isAddress, recover2, price, entropy)
  {
  }

  /** Any other signature whose signer cannot be recovered is refused with 401 once the fields and addresses pass. */
  lemma UnrecoverableSignatureIsRefused(t: Tables, req: SendRequest, isAddress: string -> bool,
                                        recover: (string, string) -> Option<string>,
                                        price: Option<real>, entropy: seq<Byte>)
    requires |entropy| == TOKEN_BYTES
    requires FieldsPresent(req) && isAddress(req.from.value) && isAddress(req.to.value)
    requires req.signature.value != MOCK_SIGNATURE
    requires recover(req.message.value, req.signature.value) == None
    ensures Send(t, req, isAddress, recover, price, entropy) == Outcome(Err(InvalidSignature), t)
  {
  }

  /**
   * A completed transfer appends exactly the row (sender, recipient, amount in
   * ETH, rate, signature, fresh hash, completed), which is then found by its
   * hash and heads the history of both parties.
   */
  lemma SendRecordsTransfer(t: Tables, req: SendRequest, isAddress: string -> bool,
                            recover: (string, string) -> Option<string>, price: Option<real>,
                            entropy: seq<Byte>)
    requires |entropy| == TOKEN_BYTES && Consistent(t)
    ensures var out := Send(t, req, isAddress, recover, price, entropy);
            out.response.Ok? ==>
              var row := Tx(Lower(req.from.value), Lower(req.to.value), out.response.value.amountEth,
                            price, req.signature.value, GenerateTxHash(entropy), Completed);
              && out.response.value.txHash == GenerateTxHash(entropy)
              && out.after.ledger == t.ledger + [row]
              && Find(out.after.ledger, row.txHash) == Ok(row)
              && |History(out.after.ledger, row.from)| > 0 && History(out.after.ledger, row.from)[0] == row
              && |History(out.after.ledger, row.to)| > 0 && History(out.after.ledger, row.to)[0] == row
  {
    var out := Send(t, req, isAddress, recover, price, entropy);
    if out.response.Ok? {
      var o := Prepare(req, isAddress, recover, price).value;
      var row := Row(o, GenerateTxHash(entropy));
      SendKeepsConsistent(t, req, isAddress, recover, price, entropy);
      FindByOwnHash(out.after.ledger, |t.ledger|);
      HistoryNewestFirst(t.ledger, row, row.from);
      HistoryNewestFirst(t.ledger, row, row.to);
    }
  }

  /** The sender is debited and the recipient credited by the ETH amount; nobody else changes. */
  lemma SendMovesAmount(t: Tables, req: SendRequest, isAddress: string -> bool,
                        recover: (string, string) -> Option<string>, price: Option<real>,
                        entropy: seq<Byte>)
    requires |entropy| == TOKEN_BYTES
    ensures var out := Send(t, req, isAddress, recover, price, entropy);
            out.response.Ok? ==>
              var from, to, x := Lower(req.from.value), Lower(req.to.value), out.response.value.amountEth;
              && from in t.balances && t.balances[from] >= x
              && (IsUsd(req) ==> x * price.value == req.amount.value)
              && (!IsUsd(req) ==> x == req.amount.value)
              && out.after.balances.Keys == t.balances.Keys + {to}
              && (from != to ==> out.after.balances[from] == t.balances[from] - x)
              && (from != to ==> out.after.balances[to] == (if to in t.balances then t.balances[to] else 0.0) + x)
              && (forall a :: a in t.balances && a != from && a != to ==> out.after.balances[a] == t.balances[a])
  {
  }

  // ---------------------------------------------------------------------
  // The negative amount

  /**
   * As written, a negative amount is truthy and never exceeds the sender's
   * balance, so it moves currency from the recipient to the sender and
   * leaves the recipient below zero.
   */
  lemma NegativeAmountOverdraftsRecipient()
    ensures var t := Tables(map["0xaaa" := 0.0], map["0xaaa" := None], []);
            var req := SendRequest(Some("0xaaa"), Some("0xbbb"), Some(-10.0), Some("eth"),
                                   Some(MOCK_SIGNATURE), Some("pay"));
            var entropy := seq(TOKEN_BYTES, i => 0);
            var out := Send(t, req, a => true, (m, s) => None, None, entropy);
            && Solvent(t.balances)
            && out.response.Ok?
            && out.after.balances["0xaaa"] == 10.0
            && "0xbbb" in out.after.balances && out.after.balances["0xbbb"] == -10.0
            && !Solvent(out.after.balances)
  {
    var req := SendRequest(Some("0xaaa"), Some("0xbbb"), Some(-10.0), Some("eth"),
                           Some(MOCK_SIGNATURE), Some("pay"));
    LowerKeepsLower("0xaaa");
    LowerKeepsLower("0xbbb");
    var p := Prepare(req, a => true, (m, s) => None, None);
    assert p.Ok? && p.value.from == "0xaaa" && p.value.to == "0xbbb";
  }

  /** With the positive-amount check, every outcome keeps all balances non-negative. */
  lemma GuardedSendKeepsSolvent(t: Tables, req: SendRequest, isAddress: string -> bool,
                                recover: (string, string) -> Option<string>, price: Option<real>,
                                entropy: seq<Byte>)
    requires |entropy| == TOKEN_BYTES && Solvent(t.balances)
    ensures Solvent(SendGuarded(t, req, isAddress, recover, price, entropy).after.balances)
  {
    var p := PrepareGuarded(req, isAddress, recover, price);
    if p.Ok? {
      var out := Settlement(t, p.value, GenerateTxHash(entropy));
      var o := p.value;
      forall a | a in out.after.balances
        ensures out.after.balances[a] >= 0.0
      {
        if out.response.Ok? && a == o.to && o.to != o.from && o.to !in t.balances {
          assert out.after.balances[a] == o.amountEth;
        }
      }
    }
  }

  /**
   * The correction refuses only non-positive amounts; otherwise it leaves the
   * same tables, and its answer differs only where the notices raised after
   * the commit, where it reports the committed transfer.
   */
  lemma GuardedSendAgrees(t: Tables, req: SendRequest, isAddress: string -> bool,
                          recover: (string, string) -> Option<string>, price: Option<real>,
                          entropy: seq<Byte>)
    requires |entropy| == TOKEN_BYTES
    ensures var p := Prepare(req, isAddress, recover, price);
            var guarded := SendGuarded(t, req, isAddress, recover, price, entropy);
            var sent := Send(t, req, isAddress, recover, price, entropy);
            if p.Ok? && p.value.amountEth <= 0.0 then guarded == Outcome(Err(NonPositiveAmount), t)
            else
              && guarded.after == sent.after
              && (guarded.response == sent.response
                  || (p.Ok? && NoticeFails(t, p.value) && guarded.response.Ok? && sent.response == Err(TransactionFailed)))
  {
  }

  // ---------------------------------------------------------------------
  // The notices after the commit

  /**
   * As written, with no rate available and a sender that has an email, the
   * notice raises after the commit: the transfer is applied and recorded,
   * yet the answer is the 500 of a failed transaction, so a client that
   * retries pays twice.
   */
  lemma CommittedTransferReportedAsFailed()
    ensures var t := Tables(map["0xaaa" := 100.0], map["0xaaa" := Some("a@example.com")], []);
            var req := SendRequest(Some("0xaaa"), Some("0xbbb"), Some(30.0), Some("eth"),
                                   Some(MOCK_SIGNATURE), Some("pay"));
            var entropy := seq(TOKEN_BYTES, i => 0);
            var out := Send(t, req, a => true, (m, s) => None, None, entropy);
            && out.response == Err(TransactionFailed)
            && |out.after.ledger| == 1 && out.after.ledger[0].status == Completed
            && out.after.balances["0xaaa"] == 70.0
            && "0xbbb" in out.after.balances && out.after.balances["0xbbb"] == 30.0
  {
    var req := SendRequest(Some("0xaaa"), Some("0xbbb"), Some(30.0), Some("eth"),
                           Some(MOCK_SIGNATURE), Some("pay"));
    LowerKeepsLower("0xaaa");
    LowerKeepsLower("0xbbb");
    var p := Prepare(req, a => true, (m, s) => None, None);
    assert p.Ok? && p.value.from == "0xaaa" && p.value.to == "0xbbb";
  }

  /**
   * With notices that cannot change the answer, a failure answer always
   * means the transfer was not recorded, and Ok always means it was.
   */
  lemma GuardedSendReportsCommit(t: Tables, req: SendRequest, isAddress: string -> bool,
                                 recover: (string, string) -> Option<string>, price: Option<real>,
                                 entropy: seq<Byte>)
    requires |entropy| == TOKEN_BYTES
    ensures var out := SendGuarded(t, req, isAddress, recover, price, entropy);
            out.response.Err? ==> out.after.ledger == t.ledger
    ensures var out := SendGuarded(t, req, isAddress, recover, price, entropy);
            out.response.Ok? ==> out.after.ledger == t.ledger + [out.after.ledger[|t.ledger|]]
                                 && out.after.ledger[|t.ledger|].txHash == out.response.value.txHash
  {
    var p := PrepareGuarded(req, isAddress, recover, price);
    if p.Ok? {
      var out := Settlement(t, p.value, GenerateTxHash(entropy));
      if out.response.Ok? {
        assert out.after.ledger[|t.ledger|] == Row(p.value, GenerateTxHash(entropy));
      }
    }
  }
}
