/**
 * The two tables of the wallet store: accounts (address -> balance, email)
 * and the append-only transaction ledger, with the read-only queries over
 * them.  Balances are exact reals, not SQLite floats.
 */
module Ledger {
  import opened Wrappers
  import opened Responses
  import opened Text

  const STARTING_BALANCE: real := 100.0
  const HISTORY_LIMIT: nat := 50

  datatype TxStatus = Pending | Completed | Failed

  /** One row of the transactions table (ids and timestamps left out). */
  datatype Tx = Tx(from: string, to: string, amount: real, ethPrice: Option<real>,
                   signature: string, txHash: string, status: TxStatus)

  /** Both tables: the users table split by column, and the ledger rows in insertion order. */
  datatype Tables = Tables(balances: map<string, real>, emails: map<string, Option<string>>, ledger: seq<Tx>)

  predicate HashUsed(ledger: seq<Tx>, hash: string) {
    exists i :: 0 <= i < |ledger| && ledger[i].txHash == hash
  }

  /** The UNIQUE constraint on tx_hash. */
  ghost predicate DistinctHashes(ledger: seq<Tx>) {
    forall i, j :: 0 <= i < |ledger| && 0 <= j < |ledger| && ledger[i].txHash == ledger[j].txHash ==> i == j
  }

  /**
   * What every reachable state satisfies: one email column entry per account,
   * addresses stored lower-case, every row naming existing accounts, and
   * distinct hashes.
   */
  ghost predicate Consistent(t: Tables) {
    && t.balances.Keys == t.emails.Keys
    && (forall a :: a in t.balances ==> IsLower(a))
    && (forall i :: 0 <= i < |t.ledger| ==> t.ledger[i].from in t.balances && t.ledger[i].to in t.balances)
    && DistinctHashes(t.ledger)
  }

  /** No account holds a negative balance. */
  ghost predicate Solvent(balances: map<string, real>) {
    forall a :: a in balances ==> balances[a] >= 0.0
  }

  // ---------------------------------------------------------------------
  // Sum of all balances

  ghost function Pick(m: map<string, real>): (k: string)
    requires m != map[]
    ensures k in m
  {
    var k :| k in m; k
  }

  /** The sum of all balances held in the store. */
  ghost function Total(m: map<string, real>): real
    decreases |m|
  {
    if m == map[] then 0.0
    else
      var k := Pick(m);
      assert |m.Keys - {k}| == |m.Keys| - 1;
      m[k] + Total(m - {k})
  }

  /** Any account may be taken out of the sum first. */
  lemma {:induction false} TotalRemove(m: map<string, real>, k: string)
    requires k in m
    ensures Total(m) == m[k] + Total(m - {k})
    decreases |m|
  {
    var j := Pick(m);
    if j != k {
      assert |m.Keys - {j}| == |m.Keys| - 1;
      assert |m.Keys - {k}| == |m.Keys| - 1;
      TotalRemove(m - {j}, k);
      TotalRemove(m - {k}, j);
      assert m - {j} - {k} == m - {k} - {j};
    }
  }

  lemma TotalUpdate(m: map<string, real>, k: string, v: real)
    requires k in m
    ensures Total(m[k := v]) == Total(m) - m[k] + v
  {
    TotalRemove(m, k);
    TotalRemove(m[k := v], k);
    assert m[k := v] - {k} == m - {k};
  }

  lemma TotalInsert(m: map<string, real>, k: string, v: real)
    requires k !in m
    ensures Total(m[k := v]) == Total(m) + v
  {
    TotalRemove(m[k := v], k);
    assert m[k := v] - {k} == m;
  }

  // ---------------------------------------------------------------------
  // Balance updates of a transfer

  /** The implicit account creation: an unknown address gets balance 0 and no email. */
  function OpenAccount(t: Tables, a: string): (r: Tables)
    ensures r.ledger == t.ledger && a in r.balances
    ensures r.balances.Keys == t.balances.Keys + {a}
    ensures forall b :: b in t.balances ==> r.balances[b] == t.balances[b]
    ensures a !in t.balances ==> r.balances[a] == 0.0
    ensures r.emails == if a in t.balances then t.emails else t.emails[a := None]
  {
    if a in t.balances then t
    else t.(balances := t.balances[a := 0.0], emails := t.emails[a := None])
  }

  lemma TotalOpenAccount(t: Tables, a: string)
    ensures Total(OpenAccount(t, a).balances) == Total(t.balances)
  {
    if a !in t.balances {
      TotalInsert(t.balances, a, 0.0);
    }
  }

  /** Debit `from` by x, then credit `to` by x. */
  function Moved(b: map<string, real>, from: string, to: string, x: real): (r: map<string, real>)
    requires from in b && to in b
    ensures r.Keys == b.Keys
    ensures from != to ==> r[from] == b[from] - x && r[to] == b[to] + x
    ensures from == to ==> r[from] == b[from]
    ensures forall a :: a in b && a != from && a != to ==> r[a] == b[a]
  {
    var debited := b[from := b[from] - x];
    debited[to := debited[to] + x]
  }

  /** A transfer neither creates nor destroys currency. */
  lemma TotalMoved(b: map<string, real>, from: string, to: string, x: real)
    requires from in b && to in b
    ensures Total(Moved(b, from, to, x)) == Total(b)
  {
    var debited := b[from := b[from] - x];
    assert Moved(b, from, to, x) == debited[to := debited[to] + x];
    TotalUpdate(b, from, b[from] - x);
    TotalCredit(debited, to, x);
  }

  lemma TotalCredit(d: map<string, real>, to: string, x: real)
    requires to in d
    ensures Total(d[to := d[to] + x]) == Total(d) + x
  {
    TotalUpdate(d, to, d[to] + x);
  }

  // ---------------------------------------------------------------------
  // Queries

  predicate Involves(t: Tx, a: string) {
    t.from == a || t.to == a
  }

  /** The rows naming `a` as sender or recipient, in ledger order. */
  function Involving(rows: seq<Tx>, a: string): (r: seq<Tx>)
    ensures |r| <= |rows|
    ensures forall t :: t in r ==> t in rows && Involves(t, a)
  {
    if rows == [] then []
    else (if Involves(rows[0], a) then [rows[0]] else []) + Involving(rows[1..], a)
  }

  /** Every row naming `a` is selected. */
  lemma {:induction false} InvolvingComplete(rows: seq<Tx>, a: string, t: Tx)
    requires t in rows && Involves(t, a)
    ensures t in Involving(rows, a)
  {
    if rows[0] != t {
      InvolvingComplete(rows[1..], a, t);
    }
  }

  /** Selection keeps ledger order: it distributes over concatenation. */
  lemma {:induction false} InvolvingConcat(xs: seq<Tx>, ys: seq<Tx>, a: string)
    ensures Involving(xs + ys, a) == Involving(xs, a) + Involving(ys, a)
  {
    if xs != [] {
      assert (xs + ys)[1..] == xs[1..] + ys;
      InvolvingConcat(xs[1..], ys, a);
    } else {
      assert xs + ys == ys;
    }
  }

  function Reverse<T>(s: seq<T>): (r: seq<T>)
    ensures |r| == |s|
    ensures forall i :: 0 <= i < |s| ==> r[i] == s[|s| - 1 - i]
  {
    if s == [] then [] else Reverse(s[1..]) + [s[0]]
  }

  /**
   * get_transactions: the rows naming `a`, newest first, at most
   * HISTORY_LIMIT of them.  Newest first is reverse insertion order.
   */
  function History(ledger: seq<Tx>, a: string): (r: seq<Tx>)
    ensures |r| <= HISTORY_LIMIT
    ensures |r| == if |Involving(ledger, a)| <= HISTORY_LIMIT then |Involving(ledger, a)| else HISTORY_LIMIT
    ensures forall t :: t in r ==> t in ledger && Involves(t, a)
    ensures forall i :: 0 <= i < |r| ==> r[i] == Involving(ledger, a)[|Involving(ledger, a)| - 1 - i]
  {
    var newest := Reverse(Involving(ledger, a));
    var r := if |newest| <= HISTORY_LIMIT then newest else newest[..HISTORY_LIMIT];
    assert forall t :: t in r ==> t in Involving(ledger, a) by {
      forall t | t in r ensures t in Involving(ledger, a) {
        var i :| 0 <= i < |r| && r[i] == t;
      }
    }
    r
  }

  /** The row appended last heads the history of both its parties. */
  lemma HistoryNewestFirst(ledger: seq<Tx>, t: Tx, a: string)
    requires Involves(t, a)
    ensures |History(ledger + [t], a)| > 0 && History(ledger + [t], a)[0] == t
  {
    InvolvingConcat(ledger, [t], a);
    assert Involving([t], a) == [t];
  }

  /** With at most HISTORY_LIMIT matching rows, none is cut off. */
  lemma HistoryComplete(ledger: seq<Tx>, a: string, t: Tx)
    requires |Involving(ledger, a)| <= HISTORY_LIMIT
    requires t in ledger && Involves(t, a)
    ensures t in History(ledger, a)
  {
    InvolvingComplete(ledger, a, t);
    var rows := Involving(ledger, a);
    var i :| 0 <= i < |rows| && rows[i] == t;
    assert History(ledger, a)[|rows| - 1 - i] == t;
  }

  /** get_transaction: the row carrying `hash`, or 404. */
  function Find(ledger: seq<Tx>, hash: string): (r: Result<Tx>)
    ensures r.Ok? ==> r.value in ledger && r.value.txHash == hash
    ensures r.Err? <==> !HashUsed(ledger, hash)
    ensures r.Err? ==> r.error == TransactionNotFound
  {
    if ledger == [] then Err(TransactionNotFound)
    else if ledger[0].txHash == hash then Ok(ledger[0])
    else
      var r := Find(ledger[1..], hash);
      assert HashUsed(ledger[1..], hash) ==> HashUsed(ledger, hash) by {
        if HashUsed(ledger[1..], hash) {
          var i :| 0 <= i < |ledger[1..]| && ledger[1..][i].txHash == hash;
          assert ledger[i + 1].txHash == hash;
        }
      }
      r
  }

  /** With distinct hashes, every row is found by its own hash. */
  lemma {:induction false} FindByOwnHash(ledger: seq<Tx>, i: nat)
    requires DistinctHashes(ledger) && i < |ledger|
    ensures Find(ledger, ledger[i].txHash) == Ok(ledger[i])
  {
    if i > 0 {
      assert ledger[0].txHash != ledger[i].txHash;
      assert DistinctHashes(ledger[1..]) by {
        forall p, q | 0 <= p < |ledger| - 1 && 0 <= q < |ledger| - 1 && ledger[1..][p].txHash == ledger[1..][q].txHash
          ensures p == q
        {
          assert ledger[p + 1].txHash == ledger[q + 1].txHash;
        }
      }
      FindByOwnHash(ledger[1..], i - 1);
    }
  }
}
