/** The persisted tables plus the one browser session, as one immutable state,
    with the queries the controller issues and the invariant its actions keep. */
module Ledger {
  import opened Wrappers
  import opened Models

  /** `users` and `transactions` are the two tables in key order; `session`
      is the "UserId" slot of the session, `None` when it is empty. */
  datatype State = State(users: seq<User>, transactions: seq<Transaction>, session: Option<UserId>)

  /** The store before anyone has registered. */
  const Empty := State([], [], None)

  /** The position of the first user satisfying `p`, as EF's `FirstOrDefault`
      and `Any` scan the Users table; `None` stands for the null result. */
  function FirstIndex(users: seq<User>, p: User -> bool): (r: Option<nat>)
    ensures r.Some? ==> r.value < |users| && p(users[r.value])
    ensures r.Some? ==> forall j :: 0 <= j < r.value ==> !p(users[j])
    ensures r.None? <==> forall j :: 0 <= j < |users| ==> !p(users[j])
  {
    if |users| == 0 then None
    else if p(users[0]) then Some(0)
    else
      match FirstIndex(users[1..], p)
      case None =>
        assert forall j :: 1 <= j < |users| ==> users[j] == users[1..][j - 1];
        None
      case Some(k) =>
        assert forall j :: 1 <= j <= k + 1 ==> users[j] == users[1..][j - 1];
        Some(k + 1)
  }

  /** The position of the user whose key is `id`. */
  function FindById(users: seq<User>, id: UserId): Option<nat>
  {
    FirstIndex(users, (u: User) => u.userId == id)
  }

  /** The position of the first user registered with `email`. */
  function FindByEmail(users: seq<User>, email: string): Option<nat>
  {
    FirstIndex(users, (u: User) => u.email == email)
  }

  /** The id an identity column hands to the next inserted row. */
  function NextKey<T>(rows: seq<T>): int
  {
    |rows| + 1
  }

  /** The state after the user at position `k` posts `a`: one transaction row
      with the next key is inserted and the user's balance moves by `a`, as
      one atomic step. */
  function Post(s: State, k: nat, a: real): (r: State)
    requires k < |s.users|
    ensures r.session == s.session && |r.users| == |s.users|
    ensures r.transactions == s.transactions + [Transaction(|s.transactions| + 1, a, s.users[k].userId)]
    ensures r.users[k].balance == s.users[k].balance + a
    ensures r.users[k].(balance := s.users[k].balance) == s.users[k]
    ensures forall i :: 0 <= i < |s.users| && i != k ==> r.users[i] == s.users[i]
  {
    var user := s.users[k];
    State(s.users[k := user.(balance := user.balance + a)],
          s.transactions + [Transaction(NextKey(s.transactions), a, user.userId)],
          s.session)
  }

  /** Identity keys 1, 2, 3, ... on the Users table. */
  ghost predicate UserKeys(users: seq<User>)
  {
    forall i :: 0 <= i < |users| ==> users[i].userId == i + 1
  }

  /** No two users share an email. */
  ghost predicate UniqueEmails(users: seq<User>)
  {
    forall i, j :: 0 <= i < j < |users| ==> users[i].email != users[j].email
  }

  /** Identity keys 1, 2, 3, ... on the Transactions table, each row owned
      by an existing user. */
  ghost predicate TransactionRows(s: State)
  {
    forall k :: 0 <= k < |s.transactions| ==>
      s.transactions[k].transactionId == k + 1 && 1 <= s.transactions[k].userId <= |s.users|
  }

  /** Every balance is non-negative. */
  ghost predicate Solvent(users: seq<User>)
  {
    forall i :: 0 <= i < |users| ==> users[i].balance >= 0.0
  }

  /** Every balance equals the sum of its owner's transaction amounts. */
  ghost predicate Balanced(s: State)
  {
    forall i :: 0 <= i < |s.users| ==>
      s.users[i].balance == Total(Owned(s.transactions, s.users[i].userId))
  }

  /** The session, when set, names an existing user. */
  ghost predicate SessionValid(s: State)
  {
    s.session.Some? ==> 1 <= s.session.value <= |s.users|
  }

  /** What every reachable state satisfies. */
  ghost predicate Inv(s: State)
  {
    && UserKeys(s.users)
    && UniqueEmails(s.users)
    && TransactionRows(s)
    && Solvent(s.users)
    && Balanced(s)
    && SessionValid(s)
  }

  /** Under the invariant, a key lookup finds exactly the user at position `id - 1`. */
  lemma FindByIdExact(s: State, id: UserId)
    requires Inv(s)
    ensures FindById(s.users, id).Some? <==> 1 <= id <= |s.users|
    ensures FindById(s.users, id).Some? ==> FindById(s.users, id).value == id - 1
  {
    if 1 <= id <= |s.users| {
      assert s.users[id - 1].userId == id;
    }
    assert UserKeys(s.users);
  }
}
