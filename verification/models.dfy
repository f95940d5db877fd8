/** The two persisted records the controller works on, and the sums over the
    transaction table that the ledger invariant is stated with. */
module Models {

  /** Keys are C# `int` identity columns; the 32-bit range is not modelled. */
  type UserId = int

  /** A row of the Users table as far as the controller reads or writes it.
      `password` holds the stored hash, never the raw password. Timestamps and
      the profile fields checked only by data annotations are left out. */
  datatype User = User(userId: UserId, email: string, password: string, balance: real)

  /** A row of the Transactions table: a signed balance delta owned by one user.
      Positive amounts are deposits, negative ones withdrawals. */
  datatype Transaction = Transaction(transactionId: int, amount: real, userId: UserId)

  /** The user's `CreatedTransactions` collection: the rows of `txs` owned by `id`,
      in table order. */
  function Owned(txs: seq<Transaction>, id: UserId): (r: seq<Transaction>)
    ensures |r| <= |txs|
    ensures forall k :: 0 <= k < |r| ==> r[k].userId == id && r[k] in txs
    ensures forall t :: t in txs && t.userId == id ==> t in r
  {
    if |txs| == 0 then []
    else (if txs[0].userId == id then [txs[0]] else []) + Owned(txs[1..], id)
  }

  /** A user's collection holds each of that user's rows exactly as often as
      the table does, and no other row. */
  lemma {:induction false} OwnedCounts(txs: seq<Transaction>, id: UserId)
    ensures forall t :: multiset(Owned(txs, id))[t] == (if t.userId == id then multiset(txs)[t] else 0)
  {
    if |txs| > 0 {
      OwnedCounts(txs[1..], id);
      assert txs == [txs[0]] + txs[1..];
    }
  }

  /** The sum of the amounts of `txs`. */
  function Total(txs: seq<Transaction>): real
  {
    if |txs| == 0 then 0.0 else txs[0].amount + Total(txs[1..])
  }

  /** Appending a row extends exactly the owner's collection, by that row. */
  lemma {:induction false} OwnedAppend(txs: seq<Transaction>, t: Transaction, id: UserId)
    ensures Owned(txs + [t], id) == Owned(txs, id) + (if t.userId == id then [t] else [])
  {
    if |txs| == 0 {
      assert txs + [t] == [t];
    } else {
      assert (txs + [t])[1..] == txs[1..] + [t];
      OwnedAppend(txs[1..], t, id);
    }
  }

  /** Appending a row adds its amount to the total. */
  lemma {:induction false} TotalAppend(txs: seq<Transaction>, t: Transaction)
    ensures Total(txs + [t]) == Total(txs) + t.amount
  {
    if |txs| == 0 {
      assert txs + [t] == [t];
    } else {
      assert (txs + [t])[1..] == txs[1..] + [t];
      TotalAppend(txs[1..], t);
    }
  }

  /** A user no row refers to owns no transactions. */
  lemma {:induction false} OwnedNone(txs: seq<Transaction>, id: UserId)
    requires forall k :: 0 <= k < |txs| ==> txs[k].userId != id
    ensures Owned(txs, id) == []
  {
    if |txs| > 0 {
      assert forall k :: 0 <= k < |txs[1..]| ==> txs[1..][k] == txs[k + 1];
      OwnedNone(txs[1..], id);
    }
  }
}
