# ETH mock wallet ledger in Dafny

This project models the core of a mock Ethereum wallet backend (`server.py`). The backend keeps two tables:

- **users**: address → (balance, email);
- **transactions**: an append-only ledger of transfers.

Its handlers do the following:

- create a wallet with a starting balance of 100 ETH;
- report a balance, with its USD value at the current ETH/USD rate;
- convert between USD and ETH;
- transfer ETH between addresses, after an ordered chain of checks;
- list an address's transactions, newest first and at most 50;
- look up one transaction by its hash.

The HTTP layer is stripped away. Every handler returns a `Result` whose error carries the HTTP status the source answers with.

Layout, one module per component:

- `Responses`: errors and their statuses.
- `Text`: Python truthiness of optional strings and ASCII lower-casing.
- `TxHashes`: the `0x` + 64-hex-digit transaction hash.
- `Pricing`: rate usability, `usd_to_eth`, `convert_currency`, `get_price`.
- `Signatures`: `verify_signature` and the test sentinel.
- `Ledger`: rows, tables, the sum of balances, history and lookup.
- `Engine`: `send_transaction` as pure functions. `Prepare` runs the checks that read no table. `Settlement` is the store phase. `Send` composes the two.
- `TransferLaws`: what a transfer guarantees.
- `WalletServer`: the class `Wallet`, whose fields `balances`, `emails` and `ledger` are the tables.

The mutating handlers of `Wallet` change those fields step by step, as the source issues its INSERT and UPDATE statements. Each one is proved equal to the pure model: `Outcome(r, Snapshot()) == Send(old(Snapshot()), …)`. `Wallet.Valid()` is the invariant they keep. It requires one email entry per account, lower-case addresses, rows that name existing accounts, and distinct hashes.

Several external services are parameters of the model:

- `isAddress: string -> bool` stands for `w3.is_address`.
- `recover: (string, string) -> Option<string>` stands for EIP-191 signer recovery. It returns `None` where the library raises.
- `price: Option<real>` stands for the CoinGecko rate. It is `None` when the fetch fails.
- `entropy: seq<Byte>` holds the 32 random bytes behind a new hash.

Balances and amounts are exact `real`s.

The model follows the code as written, including where it departs from what it evidently intends:

- A transfer is not all-or-nothing. The implicit recipient account is committed on its own (line 284). It survives when the later row insert fails on a duplicate `tx_hash`, which returns 500 and rolls back the balance updates. `Engine.Settlement` and `Wallet.Settle` model exactly that.
- The rate is fetched for every transfer, not only for USD amounts. It is stored in the row as `eth_price` even when it is absent or zero.
- A duplicate `tx_hash` is not a distinct error. It is the generic 500.
- Balances can go negative, through a negative amount. See Findings.
- A transfer can be committed and still answered 500. With no rate, the notice bodies (lines 314, 325) fail to format after the commit at line 304. `Engine.NoticeFails` states when. See Findings.

## Model

| member | source | states |
|---|---|---|
| `Responses.Status` | server.py:245-340 | every handler error is answered with a client or server error status (4xx or 5xx) |
| `Text.Lower` | server.py:148 | lower-casing keeps the length and leaves no upper-case letter; every upper-case letter moves to its lower-case letter, and every other character is kept |
| `Text.LowerIdempotent` | server.py:124 | lower-casing twice is lower-casing once, so canonical addresses are stable |
| `TxHashes.TokenHex` | server.py:72 | the token is two lower-case hex digits per random byte |
| `TxHashes.ParseTokenHex` | server.py:72 | decoding the hex token gives back the random bytes (round trip) |
| `TxHashes.GenerateTxHash` | server.py:71-72 | a hash is `0x` followed by 64 lower-case hex digits, 66 characters in all |
| `TxHashes.GenerateTxHashInjective` | server.py:71-72 | distinct random tokens give distinct hashes |
| `Pricing.GetPrice` | server.py:198-204 | the rate is returned exactly when it is truthy (present and non-zero); otherwise 503 |
| `Pricing.UsdToEth` | server.py:85-90 | with a truthy rate the ETH amount times the rate is the USD amount; with no rate or rate 0 there is none |
| `Pricing.UsdValue` | server.py:189 | the USD value exists exactly when the rate is truthy, and converts back to the ETH amount |
| `Pricing.ConvertCurrency` | server.py:206-230 | the rate is checked first: 503 even when no amount is given. With a rate, a truthy `usd` is echoed, otherwise a truthy `eth` is echoed, otherwise 400. Every answer is a consistent pair: `eth * rate == usd` |
| `Pricing.ConvertRoundTrip` | server.py:217-228 | converting USD to ETH and that ETH back to USD at one rate gives the original USD |
| `Signatures.VerifySignature` | server.py:119-127 | verification succeeds exactly when a signer is recovered and equals the claimed address ignoring case; a recovery failure is `false` |
| `Signatures.VerifyIgnoresCase` | server.py:124 | the claimed address may be given in any case |
| `Ledger.OpenAccount` | server.py:281-285 | an unknown recipient is added with balance 0 and no email; existing accounts and the ledger are untouched |
| `Ledger.TotalOpenAccount` | server.py:281-284 | opening the recipient account leaves the sum of all balances unchanged |
| `Ledger.Moved` | server.py:292-296 | the sender's balance drops and the recipient's rises by the amount (no change for a self-transfer); no other balance changes and no account appears |
| `Ledger.TotalMoved` | server.py:292-296 | the debit and credit together leave the sum of all balances unchanged |
| `Ledger.TotalRemove` | server.py:292-296 | the sum of balances can be split at any account, whichever account the sum visits first |
| `Ledger.TotalUpdate` | server.py:293-296 | changing one balance changes the sum by exactly the difference |
| `Ledger.TotalInsert` | server.py:147-148 | adding an account adds its balance to the sum |
| `Ledger.Involving` | server.py:351-353 | the selected rows are ledger rows whose sender or recipient is the address |
| `Ledger.InvolvingComplete` | server.py:353 | every ledger row naming the address as sender or recipient is selected |
| `Ledger.InvolvingConcat` | server.py:351-354 | the selection keeps ledger order: selecting from `xs + ys` is selecting from `xs`, then from `ys` |
| `Ledger.History` | server.py:351-356 | the history holds at most 50 rows, each naming the address; it holds the last `min(n, 50)` matching rows, newest first (reverse insertion order) |
| `Ledger.HistoryNewestFirst` | server.py:354 | a row just appended heads the history of its sender and of its recipient |
| `Ledger.HistoryComplete` | server.py:355 | with at most 50 matching rows, every one of them is in the history |
| `Ledger.Find` | server.py:367-372 | the lookup returns a ledger row with exactly that hash, and 404 exactly when no row has it |
| `Ledger.FindByOwnHash` | server.py:367-368 | with distinct hashes (UNIQUE on `tx_hash`), every row is found by its own hash |
| `Engine.Prepare` | server.py:243-262 | the checks run in the source's order, and the request is accepted exactly when all of them pass. Missing or falsy field (a zero amount included) is 400. Bad address is 400. A bad signature is 401, unless it is the sentinel. A USD amount without a truthy rate is 503. On acceptance the addresses are lower-cased, the rate and signature are kept, and the ETH amount is the amount (ETH) or amount/rate (USD) |
| `Engine.Settlement` | server.py:266-304 | an unknown sender is 404 and a balance below the amount is 400, both with the tables unchanged. A hash already in the ledger is 500 exactly when the sender is funded: the tables are unchanged except the new recipient (balance 0, no email). The store succeeds exactly when the sender is funded and the hash is fresh. Then exactly one `completed` row is appended, the sender loses and the recipient gains the amount, and the recipient appears if absent with no email. Nobody else changes |
| `Engine.Send` | server.py:232-340 | the ledger only grows, by at most one row, and no account disappears. An Ok answer means a row was appended. An error answer with a row appended is only the post-commit 500, when no rate was available |
| `Engine.SendGuarded` | server.py:232-340 | the corrected handler: the ledger only grows, by at most one row, no account disappears, and the answer is Ok exactly when a row was appended |
| `Engine.PrepareGuarded` | server.py:244-262 | the corrected checks accept exactly what the source accepts with a positive ETH amount, and otherwise answer as the source does or refuse the non-positive amount |
| `TransferLaws.SendConservesTotal` | server.py:281-304 | every transfer outcome, error or success, leaves the sum of all balances unchanged |
| `TransferLaws.SettlementConservesTotal` | server.py:266-304 | the store phase never creates or destroys currency |
| `TransferLaws.SendKeepsConsistent` | server.py:277-304 | a transfer keeps addresses lower-case, rows naming existing accounts, and hashes distinct |
| `TransferLaws.SettlementKeepsConsistent` | server.py:281-302 | the same, for the store phase given canonical addresses |
| `TransferLaws.RejectedRequestChangesNothing` | server.py:244-275 | every rejection other than the store failure changes no table; a failed check answers its own error |
| `TransferLaws.ZeroAmountIsMissing` | server.py:244-245 | an amount of 0 is answered "missing fields" (400) whatever else the request holds |
| `TransferLaws.SentinelSkipsVerification` | server.py:250-253 | with the sentinel signature the outcome does not depend on signer recovery |
| `TransferLaws.UnrecoverableSignatureIsRefused` | server.py:251-253 | any other signature with no recoverable signer is 401 with no change, once fields and addresses pass |
| `TransferLaws.SendRecordsTransfer` | server.py:289-302 | a completed transfer appends exactly the row (sender, recipient, ETH amount, rate, signature, fresh hash, `completed`). That row is then found by its hash and heads both parties' histories |
| `TransferLaws.SendMovesAmount` | server.py:256-296 | on success the sender existed with at least the amount, the amount is the converted one, and the sender is debited and the recipient credited by it; no other account changes |
| `TransferLaws.NegativeAmountOverdraftsRecipient` | server.py:244-296 | as written, a transfer of -10 ETH from a solvent account succeeds and leaves the recipient at -10 |
| `TransferLaws.GuardedSendKeepsSolvent` | server.py:274-296 | with the positive-amount check, no transfer outcome makes any balance negative |
| `TransferLaws.GuardedSendAgrees` | server.py:244-340 | the correction refuses non-positive amounts. On every other request it leaves the same tables as the source. It answers as the source does, except where the notices fail after the commit: there it answers Ok instead of 500 |
| `TransferLaws.CommittedTransferReportedAsFailed` | server.py:304-340 | as written, with no rate and a sender that has an email, a transfer of 30 ETH from 100 is applied and recorded (70 and 30, one completed row), yet answered 500 |
| `TransferLaws.GuardedSendReportsCommit` | server.py:289-304 | with the correction, an error answer leaves the ledger as it was, and an Ok answer appends exactly one row carrying the answered hash |
| `WalletServer.Wallet.constructor` | server.py:34-63 | the store starts with no accounts and an empty ledger |
| `WalletServer.Wallet.CreateWallet` | server.py:131-171 | an absent or empty address is 400 and an invalid one is 400. An address whose lower-case form exists is 409 and changes nothing. Otherwise the lower-cased address is stored with balance exactly 100 and the given email, the total rises by 100, and the ledger is untouched |
| `WalletServer.Wallet.GetBalance` | server.py:173-196 | an invalid address is 400 and an unknown one is 404; the answer is Ok exactly when the address is valid and known. Otherwise the stored balance of the lower-cased address is returned, with a USD value exactly when the rate is truthy |
| `WalletServer.Wallet.Settle` | server.py:264-304 | the statement-by-statement store phase (insert recipient, two updates, rollback on a duplicate hash, row insert) ends in the state `Engine.Settlement` gives and keeps the invariant |
| `WalletServer.Wallet.SendTransaction` | server.py:232-342 | the handler ends in exactly the state and answer of `Engine.Send`, including the post-commit 500 of the notices. It keeps the invariant and the sum of balances |
| `WalletServer.Wallet.SendTransactionGuarded` | server.py:232-342 | the corrected handler ends in the state and answer of `Engine.SendGuarded`, keeps the invariant, and keeps every balance non-negative |
| `WalletServer.Wallet.GetTransactions` | server.py:344-361 | an invalid address is 400. Otherwise the answer is the history of the lower-cased address: at most 50 ledger rows, each naming it, newest first |
| `WalletServer.Wallet.GetTransaction` | server.py:363-374 | a ledger row with exactly that hash (no case folding), or 404 when no row has it |
| `WalletServer.TransferExample` | server.py:131-304 | creating 0xAAA and sending 30 ETH to the unknown 0xBBB leaves 70 and 30, and the completed row is found by its hash |

## Left out

- Flask routing, JSON parsing and response bodies, and CORS. Handlers return a `Result` with a status-bearing error. The response fields are kept: the address as given, the amounts, the hash.
- The SQLite connection, `init_db`, commit/close mechanics, row ids and `created_at` timestamps. The tables are maps and a sequence. Rollback is modelled where the source relies on it.
- Exceptions inside the transfer's `try` other than the duplicate `tx_hash` are not modelled. One example is a non-numeric JSON amount, which raises a TypeError and gets 500. Request values are typed: addresses, signature and message are strings, and amounts are numbers.
- The CoinGecko request is the `price` parameter. A single handler call sees one rate. A non-numeric JSON rate is not modelled.
- EIP-191 message hashing and signer recovery are the `recover` parameter. `w3.is_address`, including the EIP-55 checksum rule, is the `isAddress` parameter.
- `secrets.token_hex` is the `entropy` parameter. Only the hash format and its injectivity are modelled.
- SMTP delivery (lines 93-116) and the notice texts (lines 152-161, 307-327) are not modelled. Delivery catches its own errors, so it cannot change an answer. What is modelled is whether a notice is due: the sender's email (line 268) and an existing recipient's email (line 287). With no rate, building the transfer notices raises after the commit, and `Engine.Send` answers 500 then. The welcome notice of `create_wallet` formats no rate and cannot fail.
- `/health` and all timestamps.
- Concurrency is not modelled. Handlers run one at a time, so the race between the balance check and the updates is outside the model.
- IEEE floating point is not modelled. Balances and amounts are exact reals, so rounding in `usd / price` does not occur.
- `Responses.Status`: its contract states only the 4xx/5xx range. The code for each error is given by its body: 400 for bad input and insufficient balance, 401 for a bad signature, 404 for an absent wallet or row, 409 for a duplicate wallet, 500 for a failed store transaction, and 503 for a missing rate.
- `Text.Lower`: lower-cases ASCII only, while Python's `str.lower()` also folds non-ASCII letters. Lowered addresses have passed `is_address` first, so they are hex.
- `Ledger.History`: orders by insertion. The source orders by `created_at DESC`, which has one-second resolution. The order of rows within the same second is left unspecified by SQL, and the model uses reverse insertion order there too.

## Findings

| source | as written | input that shows it | evidently intended | confidence | as-written member | corrected member |
|---|---|---|---|---|---|---|
| server.py:244-296 | a negative amount is truthy, so it passes the missing-field check, and `balance < amount` is never true for it, so the transfer proceeds: the sender gains and the recipient loses the amount | sender 0xaaa with balance 0, `amount = -10`, `amount_type = "eth"`, sentinel signature, recipient 0xbbb absent: 0xaaa ends at 10 and 0xbbb at -10 | a transfer amount must be positive: the insufficient-balance check (line 274) shows that a transfer is not meant to take any account below zero. Refuse `amount_eth <= 0` with 400 | high; not executed | `TransferLaws.NegativeAmountOverdraftsRecipient` | `Engine.PrepareGuarded` |
| server.py:304-340 | the notice bodies format `eth_price` with `:.2f` after the commit at line 304; with no rate that raises a TypeError, which the handler's `except` answers with 500, while the rollback has nothing left to undo | sender 0xaaa with balance 100 and email `a@example.com`, no rate available, 30 ETH to the absent 0xbbb with the sentinel signature: 0xaaa ends at 70, 0xbbb at 30, one completed row, answer 500 | a committed transfer is reported as a success; a 500 for it invites a retry that pays twice. The notices are best-effort (delivery errors are caught at lines 114-116), so they must not change the answer | high; not executed | `TransferLaws.CommittedTransferReportedAsFailed` | `Engine.SendGuarded` |

The as-written behaviour is `Engine.Send`, run by `Wallet.SendTransaction`. The corrected behaviour is `Engine.SendGuarded`, run by `Wallet.SendTransactionGuarded`. `TransferLaws.GuardedSendKeepsSolvent` proves that the correction keeps every balance non-negative. `TransferLaws.GuardedSendReportsCommit` proves that its answer reports whether the transfer was recorded. `TransferLaws.GuardedSendAgrees` proves that it changes nothing else.
