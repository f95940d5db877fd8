/** The actions of the home controller as pure steps from a state to a new
    state and what the browser receives. */
module HomeController {
  import opened Wrappers
  import opened Models
  import opened Ledger

  /** The registration form bound to a `User`; profile fields that only the
      data annotations look at are left out. */
  datatype Registration = Registration(email: string, password: string)

  /** The login form bound to a `LoginUser`. */
  datatype LoginForm = LoginForm(loginEmail: string, loginPassword: string)

  /** The three answers of ASP.NET Identity's password verification;
      `VerifyFailed` is the one whose numeric value is 0. */
  datatype Verification = VerifyFailed | VerifySuccess | VerifySuccessRehashNeeded

  /** Salted one-way hashing, left uninterpreted: one call's salt is part of
      the function chosen. */
  type Hasher = (Registration, string) -> string

  /** Verification of a provided password against a stored hash. */
  type Verifier = (LoginForm, string, string) -> Verification

  /** The "Amount" field of the account form, already parsed as a decimal. */
  datatype AmountField = Blank | Amount(value: real)

  /** An error the controller adds to `ModelState` under a field name. */
  datatype ModelError = ModelError(field: string, message: string)

  /** The Account view's model: the user with its eagerly loaded transactions. */
  datatype AccountModel = AccountModel(user: User, transactions: seq<Transaction>)

  /** What an action answers. `ShowIndex` carries the error the controller
      itself added (`None` when only data-annotation errors are shown);
      `ShowAccount` carries the view model (`None` for a null user) and the
      `ViewBag.ErrorMessage`; `Crash` is a null dereference. */
  datatype Outcome =
    | RedirectToAccount
    | RedirectToIndex
    | ShowIndex(error: Option<ModelError>)
    | ShowSuccess
    | ShowAccount(model: Option<AccountModel>, errorMessage: string)
    | Crash

  datatype Step = Step(state: State, outcome: Outcome)

  const EmailInUse := ModelError("Email", "Email already in use!")
  const UnknownLoginEmail := ModelError("LoginEmail", "Invalid Email/Password")
  const WrongLoginPassword := ModelError("LoginPassword", "Password is invalid.")
  const InvalidSubmission := "Invalid submission. Please enter a valid amount."
  const InsufficientFunds := "Insufficient funds for this transaction."

  /** The user id the session holds, or 0 when it is empty (`userId ?? default(int)`). */
  function SessionUserId(s: State): UserId
  {
    match s.session
    case Some(id) => id
    case None => 0
  }

  /** The Account view's model for the user with key `id`, if there is one. */
  function AccountModelFor(s: State, id: UserId): (m: Option<AccountModel>)
    ensures m.Some? <==> exists i :: 0 <= i < |s.users| && s.users[i].userId == id
    ensures m.Some? ==> m.value.user in s.users && m.value.user.userId == id
    ensures m.Some? ==> m.value.transactions == Owned(s.transactions, id)
  {
    match FindById(s.users, id)
    case None => None
    case Some(i) => Some(AccountModel(s.users[i], Owned(s.transactions, id)))
  }

  /** POST /register. */
  function Create(s: State, modelValid: bool, form: Registration, hash: Hasher): (r: Step)
    ensures !modelValid ==> r == Step(s, ShowIndex(None))
    ensures r.outcome.ShowIndex? ==> r.state == s
    ensures r.state.transactions == s.transactions
    ensures |s.users| <= |r.state.users| <= |s.users| + 1
    ensures r.state.users[..|s.users|] == s.users
  {
    if !modelValid then Step(s, ShowIndex(None))
    else if FindByEmail(s.users, form.email).Some? then Step(s, ShowIndex(Some(EmailInUse)))
    else
      var added := User(NextKey(s.users), form.email, hash(form, form.password), 0.0);
      var users' := s.users + [added];
      match FindByEmail(users', form.email)
      case None => Step(State(users', s.transactions, s.session), Crash)
      case Some(i) => Step(State(users', s.transactions, Some(users'[i].userId)), RedirectToAccount)
  }

  /** POST /login. */
  function Login(s: State, modelValid: bool, form: LoginForm, verify: Verifier): (r: Step)
    ensures !modelValid ==> r == Step(s, ShowIndex(None))
    ensures r.state.users == s.users && r.state.transactions == s.transactions
    ensures r.outcome != RedirectToAccount ==> r.state.session == s.session
    ensures r.outcome == RedirectToAccount ==>
      exists i :: 0 <= i < |s.users| && s.users[i].email == form.loginEmail
                  && r.state.session == Some(s.users[i].userId)
  {
    if !modelValid then Step(s, ShowIndex(None))
    else
      match FindByEmail(s.users, form.loginEmail)
      case None => Step(s, ShowIndex(Some(UnknownLoginEmail)))
      case Some(i) =>
        if verify(form, s.users[i].password, form.loginPassword) == VerifyFailed then
          Step(s, ShowIndex(Some(WrongLoginPassword)))
        else
          Step(s.(session := Some(s.users[i].userId)), RedirectToAccount)
  }

  /** GET /logout: the whole session is cleared. */
  function Logout(s: State): (r: Step)
    ensures r.state.session.None?
    ensures r.outcome == RedirectToIndex
    ensures r.state.users == s.users && r.state.transactions == s.transactions
  {
    Step(s.(session := None), RedirectToIndex)
  }

  /** GET /success, behind the session gate. */
  function Success(s: State): (r: Step)
    ensures r.state == s
    ensures r.outcome == RedirectToIndex <==> s.session.None?
    ensures s.session.Some? ==> r.outcome == ShowSuccess
  {
    if s.session.None? then Step(s, RedirectToIndex) else Step(s, ShowSuccess)
  }

  /** GET /account, behind the session gate. */
  function Account(s: State): (r: Step)
    ensures r.state == s
    ensures r.outcome == RedirectToIndex <==> s.session.None?
    ensures s.session.Some? ==> r.outcome == ShowAccount(AccountModelFor(s, s.session.value), "")
  {
    if s.session.None? then Step(s, RedirectToIndex)
    else Step(s, ShowAccount(AccountModelFor(s, s.session.value), ""))
  }

  /** POST /account: post a signed amount against the session user's balance.
      There is no session gate: an empty session looks up user 0. */
  function UpdateAccount(s: State, amount: AmountField): (r: Step)
    ensures r.state.session == s.session
    ensures r.outcome != RedirectToAccount ==> r.state == s
    ensures amount.Blank? ==> r.outcome.ShowAccount? && r.outcome.errorMessage == InvalidSubmission
    ensures r.outcome.ShowAccount? ==> r.outcome.model == AccountModelFor(s, SessionUserId(s))
    ensures |r.state.users| == |s.users|
    ensures |s.transactions| <= |r.state.transactions| <= |s.transactions| + 1
    ensures r.state.transactions[..|s.transactions|] == s.transactions
  {
    var uid := SessionUserId(s);
    var found := FindById(s.users, uid);
    var model := AccountModelFor(s, uid);
    if amount.Blank? then Step(s, ShowAccount(model, InvalidSubmission))
    else if found.None? then Step(s, Crash)
    else
      var user := s.users[found.value];
      if user.balance + amount.value < 0.0 then Step(s, ShowAccount(model, InsufficientFunds))
      else
        Step(Post(s, found.value, amount.value), RedirectToAccount)
  }

  /** One HTTP request to the controller. */
  datatype Request =
    | PostRegister(modelValid: bool, form: Registration, hash: Hasher)
    | PostLogin(modelValid: bool, login: LoginForm, verify: Verifier)
    | GetLogout
    | GetSuccess
    | GetAccount
    | PostAccount(amount: AmountField)

  /** Routes a request to its action. */
  function Handle(s: State, req: Request): Step
  {
    match req
    case PostRegister(valid, form, hash) => Create(s, valid, form, hash)
    case PostLogin(valid, login, verify) => Login(s, valid, login, verify)
    case GetLogout => Logout(s)
    case GetSuccess => Success(s)
    case GetAccount => Account(s)
    case PostAccount(amount) => UpdateAccount(s, amount)
  }

  /** The state after serving `reqs` one after the other. */
  function Run(s: State, reqs: seq<Request>): State
    decreases |reqs|
  {
    if |reqs| == 0 then s else Run(Handle(s, reqs[0]).state, reqs[1..])
  }
}
