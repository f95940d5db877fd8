/** What the controller's actions promise, proved over the model: the outcome
    of each action, what it leaves alone, and the ledger invariant it keeps. */
module ControllerProperties {
  import opened Wrappers
  import opened Models
  import opened Ledger
  import opened HomeController

  // ---------------------------------------------------------------- balance update

  /** Under the invariant, UpdateAccount dereferences null exactly when a
      non-blank amount is posted with no session. */
  lemma UpdateCrashesIffNoSession(s: State, amount: AmountField)
    requires Inv(s)
    ensures UpdateAccount(s, amount).outcome == Crash <==> amount.Amount? && s.session.None?
  {
    FindByIdExact(s, SessionUserId(s));
  }

  /** An amount that would take the session user's balance below zero is
      refused with the insufficient-funds message, and nothing changes. */
  lemma UpdateRejectsOverdraft(s: State, a: real)
    requires Inv(s) && s.session.Some?
    requires s.users[s.session.value - 1].balance + a < 0.0
    ensures UpdateAccount(s, Amount(a)).state == s
    ensures UpdateAccount(s, Amount(a)).outcome.ShowAccount?
    ensures UpdateAccount(s, Amount(a)).outcome.errorMessage == InsufficientFunds
  {
  }

  /** An amount the balance can cover is accepted: exactly one transaction
      with that amount and the session user's id is appended, that user's
      balance moves by the amount and stays non-negative, and no other user
      changes. */
  lemma UpdateAppliesAmount(s: State, a: real)
    requires Inv(s) && s.session.Some?
    requires s.users[s.session.value - 1].balance + a >= 0.0
    ensures var r := UpdateAccount(s, Amount(a));
      && r.outcome == RedirectToAccount
      && r.state.transactions == s.transactions + [Transaction(|s.transactions| + 1, a, s.session.value)]
      && r.state.users[s.session.value - 1].balance == s.users[s.session.value - 1].balance + a
      && r.state.users[s.session.value - 1].balance >= 0.0
      && r.state.users[s.session.value - 1] == s.users[s.session.value - 1].(balance := r.state.users[s.session.value - 1].balance)
      && (forall i :: 0 <= i < |s.users| && i != s.session.value - 1 ==> r.state.users[i] == s.users[i])
  {
  }

  /** Whatever is posted, every user other than the session's keeps its
      record and its collection of transactions. */
  lemma UpdateLeavesOthersAlone(s: State, amount: AmountField, other: UserId)
    requires Inv(s)
    requires s.session.None? || other != s.session.value
    ensures var r := UpdateAccount(s, amount);
      && Owned(r.state.transactions, other) == Owned(s.transactions, other)
      && (forall i :: 0 <= i < |s.users| && s.users[i].userId == other ==> r.state.users[i] == s.users[i])
  {
    var r := UpdateAccount(s, amount);
    if r.outcome == RedirectToAccount {
      FindByIdExact(s, s.session.value);
      var t := r.state.transactions[|s.transactions|];
      assert r.state.transactions == s.transactions + [t];
      OwnedAppend(s.transactions, t, other);
    }
  }

  /** UpdateAccount keeps the invariant, accepted or not: in particular each
      balance still equals the sum of its owner's transaction amounts. */
  lemma UpdatePreservesInv(s: State, amount: AmountField)
    requires Inv(s)
    ensures Inv(UpdateAccount(s, amount).state)
  {
    var r := UpdateAccount(s, amount);
    if r.outcome == RedirectToAccount {
      var k := s.session.value - 1;
      var a := amount.value;
      UpdateAppliesAmount(s, a);
      assert r.state == Post(s, k, a);
      PostPreservesInv(s, k, a);
    }
  }

  /** Posting an amount the balance covers, as one step, keeps the invariant. */
  lemma PostPreservesInv(s: State, k: nat, a: real)
    requires Inv(s) && k < |s.users|
    requires s.users[k].balance + a >= 0.0
    ensures Inv(Post(s, k, a))
  {
    var s' := Post(s, k, a);
    var t := Transaction(|s.transactions| + 1, a, s.users[k].userId);
    assert UserKeys(s'.users) by {
      assert UserKeys(s.users);
    }
    assert UniqueEmails(s'.users) by {
      assert UniqueEmails(s.users);
    }
    assert TransactionRows(s') by {
      assert TransactionRows(s);
      assert UserKeys(s.users);
    }
    assert Solvent(s'.users) by {
      assert Solvent(s.users);
    }
    assert Balanced(s') by {
      assert Balanced(s);
      forall i | 0 <= i < |s'.users|
        ensures s'.users[i].balance == Total(Owned(s'.transactions, s'.users[i].userId))
      {
        var id := s.users[i].userId;
        OwnedAppend(s.transactions, t, id);
        assert s.users[i].balance == Total(Owned(s.transactions, id));
        if i == k {
          assert Owned(s'.transactions, id) == Owned(s.transactions, id) + [t];
          TotalAppend(Owned(s.transactions, id), t);
          assert s'.users[i] == s.users[k].(balance := s.users[k].balance + a);
          assert s'.users[i].userId == id;
          assert Total(Owned(s'.transactions, id)) == s.users[i].balance + a;
        } else {
          assert UserKeys(s.users);
          assert s'.users[i] == s.users[i];
          assert id != t.userId;
          assert Owned(s.transactions, id) + [] == Owned(s.transactions, id);
        }
      }
    }
  }

  // ---------------------------------------------------------------- registration

  /** Registering an email already in the table adds the "Email" field error
      and changes nothing. */
  lemma CreateRejectsDuplicate(s: State, modelValid: bool, form: Registration, hash: Hasher, i: nat)
    requires modelValid
    requires i < |s.users| && s.users[i].email == form.email
    ensures Create(s, modelValid, form, hash) == Step(s, ShowIndex(Some(EmailInUse)))
  {
  }

  /** A valid registration with a fresh email inserts exactly one user, with
      the next key, the hashed password and a zero balance, and signs that
      user in. */
  lemma CreateRegisters(s: State, form: Registration, hash: Hasher)
    requires forall i :: 0 <= i < |s.users| ==> s.users[i].email != form.email
    ensures var r := Create(s, true, form, hash);
      && r.outcome == RedirectToAccount
      && r.state.users == s.users + [User(|s.users| + 1, form.email, hash(form, form.password), 0.0)]
      && r.state.transactions == s.transactions
      && r.state.session == Some(|s.users| + 1)
  {
    var added := User(NextKey(s.users), form.email, hash(form, form.password), 0.0);
    var users' := s.users + [added];
    assert users'[|s.users|] == added;
    assert forall j :: 0 <= j < |s.users| ==> users'[j] == s.users[j];
  }

  /** Registration keeps the invariant; a newly registered user owns no
      transactions yet. */
  lemma CreatePreservesInv(s: State, modelValid: bool, form: Registration, hash: Hasher)
    requires Inv(s)
    ensures Inv(Create(s, modelValid, form, hash).state)
    ensures Create(s, modelValid, form, hash).outcome == RedirectToAccount ==>
      Owned(Create(s, modelValid, form, hash).state.transactions, |s.users| + 1) == []
  {
    if modelValid && FindByEmail(s.users, form.email).None? {
      CreateRegisters(s, form, hash);
      var added := User(|s.users| + 1, form.email, hash(form, form.password), 0.0);
      var s' := Create(s, modelValid, form, hash).state;
      assert s'.users == s.users + [added];
      assert forall i :: 0 <= i < |s.users| ==> s'.users[i] == s.users[i];
      assert s'.users[|s.users|] == added;
      assert UserKeys(s'.users) by {
        assert UserKeys(s.users);
      }
      assert UniqueEmails(s'.users) by {
        assert UniqueEmails(s.users);
      }
      assert TransactionRows(s') by {
        assert TransactionRows(s);
      }
      assert Solvent(s'.users) by {
        assert Solvent(s.users);
      }
      assert Balanced(s') by {
        assert Balanced(s);
        assert TransactionRows(s);
        OwnedNone(s.transactions, |s.users| + 1);
      }
    }
  }

  // ---------------------------------------------------------------- login and logout

  /** Login with an email no user has adds the "LoginEmail" error and leaves
      the session as it was. */
  lemma LoginUnknownEmail(s: State, form: LoginForm, verify: Verifier)
    requires forall i :: 0 <= i < |s.users| ==> s.users[i].email != form.loginEmail
    ensures Login(s, true, form, verify) == Step(s, ShowIndex(Some(UnknownLoginEmail)))
  {
  }

  /** Under the invariant, login with user `i`'s email fails with the
      "LoginPassword" error, session untouched, exactly when verification
      fails, and otherwise signs user `i` in. */
  lemma LoginChecksPassword(s: State, form: LoginForm, verify: Verifier, i: nat)
    requires Inv(s)
    requires i < |s.users| && s.users[i].email == form.loginEmail
    ensures var r := Login(s, true, form, verify);
      if verify(form, s.users[i].password, form.loginPassword) == VerifyFailed
      then r == Step(s, ShowIndex(Some(WrongLoginPassword)))
      else r == Step(s.(session := Some(i + 1)), RedirectToAccount)
  {
  }

  /** Login keeps the invariant. */
  lemma LoginPreservesInv(s: State, modelValid: bool, form: LoginForm, verify: Verifier)
    requires Inv(s)
    ensures Inv(Login(s, modelValid, form, verify).state)
  {
  }

  /** Logging out twice is logging out once, and afterwards both gated views
      send the browser to the index page. */
  lemma LogoutIdempotentAndGates(s: State)
    ensures Logout(Logout(s).state) == Logout(s)
    ensures Account(Logout(s).state).outcome == RedirectToIndex
    ensures Success(Logout(s).state).outcome == RedirectToIndex
  {
  }

  /** Under the invariant, a signed-in Account view shows a user whose
      balance is non-negative and equals the sum of the transactions shown. */
  lemma AccountShowsConsistentLedger(s: State)
    requires Inv(s) && s.session.Some?
    ensures var o := Account(s).outcome;
      && o.ShowAccount? && o.model.Some?
      && o.model.value.user.balance >= 0.0
      && o.model.value.user.balance == Total(o.model.value.transactions)
  {
    FindByIdExact(s, s.session.value);
  }

  // ---------------------------------------------------------------- every run

  /** The store before anyone registers satisfies the invariant. */
  lemma EmptyInv()
    ensures Inv(Empty)
  {
  }

  /** Every action keeps the invariant. */
  lemma HandlePreservesInv(s: State, req: Request)
    requires Inv(s)
    ensures Inv(Handle(s, req).state)
  {
    match req
    case PostRegister(valid, form, hash) => CreatePreservesInv(s, valid, form, hash);
    case PostLogin(valid, login, verify) => LoginPreservesInv(s, valid, login, verify);
    case GetLogout =>
    case GetSuccess =>
    case GetAccount =>
    case PostAccount(amount) => UpdatePreservesInv(s, amount);
  }

  /** From any state satisfying the invariant, any sequence of requests
      reaches a state where every balance is non-negative and equals the sum
      of its owner's transaction amounts. */
  lemma {:induction false} RunPreservesInv(s: State, reqs: seq<Request>)
    requires Inv(s)
    ensures Inv(Run(s, reqs))
    decreases |reqs|
  {
    if |reqs| > 0 {
      HandlePreservesInv(s, reqs[0]);
      RunPreservesInv(Handle(s, reqs[0]).state, reqs[1..]);
    }
  }

  /** Every state reachable from the empty store satisfies the invariant. */
  lemma ReachableInv(reqs: seq<Request>)
    ensures Inv(Run(Empty, reqs))
  {
    EmptyInv();
    RunPreservesInv(Empty, reqs);
  }

  /** A fresh user deposits 100, is refused a withdrawal of 150, then
      withdraws 100: the balance ends at 0 with two transaction rows whose
      amounts also sum to 0. */
  lemma DepositWithdrawScenario(form: Registration, hash: Hasher)
    ensures var s1 := Create(Empty, true, form, hash).state;
      var d := UpdateAccount(s1, Amount(100.0));
      var w1 := UpdateAccount(d.state, Amount(-150.0));
      var w2 := UpdateAccount(w1.state, Amount(-100.0));
      && d.outcome == RedirectToAccount
      && d.state.users[0].balance == 100.0 && |d.state.transactions| == 1
      && w1.outcome.ShowAccount? && w1.outcome.errorMessage == InsufficientFunds
      && w1.state == d.state
      && w2.outcome == RedirectToAccount
      && w2.state.users[0].balance == 0.0 && |w2.state.transactions| == 2
      && Owned(w2.state.transactions, 1) == w2.state.transactions
      && Total(w2.state.transactions) == 0.0
  {
    EmptyInv();
    CreateRegisters(Empty, form, hash);
    CreatePreservesInv(Empty, true, form, hash);
    var s1 := Create(Empty, true, form, hash).state;
    UpdateAppliesAmount(s1, 100.0);
    UpdatePreservesInv(s1, Amount(100.0));
    var d := UpdateAccount(s1, Amount(100.0));
    UpdateRejectsOverdraft(d.state, -150.0);
    var w1 := UpdateAccount(d.state, Amount(-150.0));
    UpdateAppliesAmount(w1.state, -100.0);
    UpdatePreservesInv(w1.state, Amount(-100.0));
    var w2 := UpdateAccount(w1.state, Amount(-100.0));
    assert Balanced(w2.state);
    assert w2.state.users[0].userId == 1;
    assert Owned(w2.state.transactions, 1) == w2.state.transactions by {
      OwnedAppend([], w2.state.transactions[0], 1);
      OwnedAppend([w2.state.transactions[0]], w2.state.transactions[1], 1);
      assert w2.state.transactions == [w2.state.transactions[0], w2.state.transactions[1]];
      assert [w2.state.transactions[0]] == [] + [w2.state.transactions[0]];
      assert w2.state.transactions == [w2.state.transactions[0]] + [w2.state.transactions[1]];
    }
  }
}
