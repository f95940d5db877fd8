# BankAccounts ledger — a Dafny model

This project models the home controller of the BankAccounts web application:
users register and log in with session-based authentication, and post signed
deposits and withdrawals against a single balance. The Users and Transactions
tables and the one browser session form an immutable `Ledger.State`; each
controller action is a pure function from a state to a `Step`, the new state
plus what the browser receives (`RedirectToAccount`, `RedirectToIndex`,
`ShowIndex(error)`, `ShowSuccess`, `ShowAccount(model, errorMessage)` or
`Crash` for a null dereference).

Modules, one per concept:

- `Wrappers` (`wrappers.dfy`): `Option`, standing for a null result.
- `Models` (`models.dfy`): the `User` and `Transaction` records, a user's
  transaction collection (`Owned`) and the sum of amounts (`Total`).
- `Ledger` (`ledger.dfy`): the state, EF's `FirstOrDefault` as `FirstIndex`,
  and the invariant `Inv` every reachable state keeps: identity keys 1, 2, 3, ...,
  unique emails, every transaction owned by an existing user, every balance
  non-negative and equal to the sum of its owner's transaction amounts, and
  the session naming an existing user.
- `HomeController` (`home_controller.dfy`): `Create`, `Login`, `Logout`,
  `Success`, `Account`, `UpdateAccount`, and `Run` over a sequence of requests.
- `ControllerProperties` (`properties.dfy`): the outcome of each action, what
  it leaves alone, and the invariant proofs.

Modelling decisions:

- The Users table is a sequence in key order, not a map, so that
  `FirstOrDefault` has a definite first match. Keys come from identity
  columns: the next user gets key `|users| + 1` and the next transaction
  `|transactions| + 1`.
- Amounts are `real`: C# `decimal` is exact base-10, and every such value is an
  exact rational. The "Amount" form field is `Blank` or an already parsed
  `Amount(value)`.
- `ModelState.IsValid` is a boolean input. Password hashing and verification
  are function parameters (`Hasher`, `Verifier`) and are otherwise
  uninterpreted. Verification answers `VerifyFailed`, `VerifySuccess` or
  `VerifySuccessRehashNeeded`. The controller only tests for the failed
  answer, so "rehash needed" signs the user in like a plain success.
- `UpdateAccount` has no session gate, and the model keeps that gap. An empty
  session becomes user id 0 and the lookup finds nobody. A blank amount still
  renders the Account view, with a null model. Any other amount dereferences
  the null user, and the model answers `Crash` with the state unchanged.
- After inserting a new user, `Create` finds the session id by looking the
  email up again. The model keeps that lookup and its null branch (`Crash`).
  `CreateRegisters` proves the branch is never taken.
- An accepted update is one atomic step: it appends the transaction and
  raises the balance together.

## Model

| member | source | states |
|---|---|---|
| Models.Owned | Controllers/HomeController.cs:141-143 | a user's `CreatedTransactions`: every row it holds belongs to that user and is in the table, and every table row of that user is in it |
| Models.OwnedCounts | Controllers/HomeController.cs:141-143 | the collection holds each of the user's rows exactly as many times as the table does, and no row of another user |
| Models.OwnedAppend | Controllers/HomeController.cs:172-175 | inserting a transaction adds exactly that row to its owner's `CreatedTransactions` and to no one else's |
| Models.TotalAppend | Controllers/HomeController.cs:172-177 | inserting a row adds its amount to the sum of amounts, the same delta `Balance += amount` applies |
| Models.OwnedNone | Models/Transaction.cs:16-17 | a user id no transaction row refers to owns an empty collection |
| Ledger.FirstIndex | Controllers/HomeController.cs:80 | `FirstOrDefault`: the result satisfies the predicate and no earlier row does; null exactly when no row does |
| Ledger.FindByIdExact | Controllers/HomeController.cs:154-156 | under the invariant a key lookup succeeds exactly for keys 1 to the user count, and finds position key - 1 |
| HomeController.AccountModelFor | Controllers/HomeController.cs:141-145 | the Account view model exists exactly when a user has the key, and carries that user and its own transactions |
| HomeController.Create | Controllers/HomeController.cs:40-73 | an invalid form returns the Index view with nothing changed; a rejected registration changes nothing; registration never touches transactions and only appends to the Users table, at most one row |
| HomeController.Login | Controllers/HomeController.cs:76-110 | an invalid form returns the Index view with nothing changed; login never touches the tables; a failed login leaves the session as it was; a successful one signs in a user holding the submitted email |
| HomeController.Logout | Controllers/HomeController.cs:113-117 | logout empties the session, leaves the tables alone and redirects to the index |
| HomeController.Success | Controllers/HomeController.cs:120-128 | the Success page never changes state, redirects to the index exactly when there is no session, and otherwise shows the Success view |
| HomeController.Account | Controllers/HomeController.cs:131-146 | the Account page never changes state, redirects exactly when there is no session, and otherwise shows the session user's record and its own transactions with an empty error message |
| Ledger.Post | Controllers/HomeController.cs:172-179 | an accepted post appends one row with the next key, the amount and the user's key, raises only that user's balance by the amount, and keeps the session |
| HomeController.UpdateAccount | Controllers/HomeController.cs:149-182 | the session is never changed; every answer but the redirect leaves the state unchanged; a blank amount shows "Invalid submission"; the user count is kept; existing transactions stay and at most one is appended |
| ControllerProperties.UpdateCrashesIffNoSession | Controllers/HomeController.cs:152-166 | under the invariant the null dereference happens exactly when a non-blank amount is posted without a session |
| ControllerProperties.UpdateRejectsOverdraft | Controllers/HomeController.cs:166-170 | an amount taking the balance below zero shows "Insufficient funds" and changes no user, transaction or session |
| ControllerProperties.UpdateAppliesAmount | Controllers/HomeController.cs:172-181 | an amount the balance covers is accepted: one transaction with that amount and the user's id is appended, the user's balance rises by the amount and stays non-negative, every other user is unchanged |
| ControllerProperties.UpdateLeavesOthersAlone | Controllers/HomeController.cs:152-181 | whatever is posted, every user other than the session's keeps its record and its transactions |
| ControllerProperties.UpdatePreservesInv | Controllers/HomeController.cs:166-179 | accepted or rejected, an update keeps every balance non-negative and equal to the sum of its owner's transaction amounts |
| ControllerProperties.PostPreservesInv | Controllers/HomeController.cs:172-179 | the combined insert-and-increment of an accepted amount keeps the whole invariant |
| ControllerProperties.CreateRejectsDuplicate | Controllers/HomeController.cs:44-50 | registering an email already present adds the "Email" error and changes nothing |
| ControllerProperties.CreateRegisters | Controllers/HomeController.cs:52-66 | a valid registration with a new email appends one user with the next key, the hashed password and balance 0, and signs that user in |
| ControllerProperties.CreatePreservesInv | Controllers/HomeController.cs:52-63 | registration keeps the invariant, and the new user owns no transactions |
| ControllerProperties.LoginUnknownEmail | Controllers/HomeController.cs:80-86 | an email no user has gives the "LoginEmail" error with the state unchanged |
| ControllerProperties.LoginChecksPassword | Controllers/HomeController.cs:87-103 | for a known email: a failed verification gives the "LoginPassword" error with the state unchanged; otherwise the session holds that user's id |
| ControllerProperties.LoginPreservesInv | Controllers/HomeController.cs:99-101 | login keeps the invariant |
| ControllerProperties.LogoutIdempotentAndGates | Controllers/HomeController.cs:115-137 | logging out twice equals logging out once, and afterwards Success and Account redirect to the index |
| ControllerProperties.AccountShowsConsistentLedger | Controllers/HomeController.cs:139-145 | a signed-in Account page shows a non-negative balance equal to the sum of the transactions it shows |
| ControllerProperties.HandlePreservesInv | Controllers/HomeController.cs:40-182 | every action keeps the invariant |
| ControllerProperties.RunPreservesInv | Controllers/HomeController.cs:40-182 | any sequence of requests from a state satisfying the invariant ends in one that satisfies it |
| ControllerProperties.ReachableInv | Controllers/HomeController.cs:40-182 | every state reachable from the empty store by any sequence of requests satisfies the invariant |
| ControllerProperties.DepositWithdrawScenario | Controllers/HomeController.cs:158-181 | a new user deposits 100 (balance 100, one row), is refused 150 (nothing changes), withdraws 100 (balance 0, two rows summing to 0) |

## Left out

- The `User` class is not part of this model. Its fields are taken as key, email, stored hash and balance. A new user's balance is taken to start at 0; binding a posted `Balance` value at registration is not modelled.
- Data-annotation validation rules on `User` and `LoginUser` are not part of this model; `ModelState.IsValid` is a boolean input.
- `PasswordHasher` internals: hashing and verification are parameters with no properties assumed, so the model does not show that a stored hash differs from the raw password.
- `Convert.ToDecimal` parsing, its exceptions and `decimal` range and precision limits: the amount arrives already parsed as an exact number.
- `CreatedAt` and `UpdatedAt` timestamps: they come from the clock and no rule reads them.
- The two separate `SaveChanges` commits of an accepted update, crashes between them, and concurrent or interleaved requests: an accepted update is one atomic step and the model has one session.
- `Models/BAContext.cs`: persistence is the two sequences of the state, not ORM calls.
- Emails are compared exactly, character by character. The lookups at Controllers/HomeController.cs:45, 61 and 80 run in the database, whose collation may ignore case; duplicate rejection, unique emails and the login lookup are proved only under exact comparison.
- Identity columns that skip values: keys are assigned densely as 1, 2, 3, .... Keys and the session's user id are unbounded integers; the 32-bit range of C# `int` (and `SetInt32`) is not modelled, because no rule of the controller reaches it.
- `Index`, `Privacy`, `Error`, view rendering and routing attributes: they hold no rule about the ledger.
- HomeController.Login: the "exists a user holding the submitted email" clause does not say it is the first such user; `LoginChecksPassword` states the exact outcome under the unique-email invariant.
