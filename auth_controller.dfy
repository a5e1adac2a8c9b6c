/** The request handlers `signup`, `signin` and `signout`: each turns the
    schema-validation outcome and the account service's result or error into a
    status code, a JSON body and an action on the `token` cookie, or hands the
    error to the next error handler. */
module AuthController {
  import opened Wrappers
  import opened AuthService

  const OK: int := 200
  const CREATED: int := 201
  const BAD_REQUEST: int := 400
  const UNAUTHORIZED: int := 401
  const NOT_FOUND: int := 404
  const CONFLICT: int := 409

  /** The formatted field errors of a failed schema check, kept opaque. */
  datatype Details = Details(issues: seq<string>)

  /** The outcome of `safeParse` on the request body. */
  datatype Validation<T> = Parsed(data: T) | Invalid(details: Details)

  /** A validated sign-in body. */
  datatype Credentials = Credentials(email: string, password: string)

  /** The payload a session token is signed over. */
  datatype Claims = Claims(id: UserId, email: string, role: string)

  /** Why the token library rejects a token. */
  datatype TokenFault = BadSignature | Expired | Malformed

  /** What the token library's `verify` gives back. */
  datatype Verification = Decoded(claims: Claims) | Refused(fault: TokenFault)

  /** The `user` object of a success body. */
  datatype UserView = UserView(id: UserId, name: string, email: string, role: string)

  /** A JSON body: `{error, details?}` or `{message, user?}`. */
  datatype Body =
    | ErrorBody(error: string, details: Option<Details>)
    | MessageBody(message: string, user: Option<UserView>)

  /** What a handler does to the `token` cookie. */
  datatype CookieAction = KeepCookie | SetToken(token: string) | ClearToken

  /** A response written by the handler, or the error passed to `next`
      (no response written, no cookie touched). */
  datatype Reply = Respond(status: int, body: Body, cookie: CookieAction) | Forward(error: AuthError)

  function ViewOf(u: PublicUser): UserView {
    UserView(u.id, u.name, u.email, u.role)
  }

  function ClaimsOf(u: PublicUser): Claims {
    Claims(u.id, u.email, u.role)
  }

  /** The 400 answer to a body the schema rejects. */
  function ValidationFailed(details: Details): (reply: Reply)
    ensures reply.Respond? && reply.status == BAD_REQUEST && reply.cookie == KeepCookie
    ensures reply.body == ErrorBody("validation failed", Some(details))
  {
    Respond(BAD_REQUEST, ErrorBody("validation failed", Some(details)), KeepCookie)
  }

  // ---------------------------------------------------------------------------
  // signup
  // ---------------------------------------------------------------------------

  /** How `signup` answers the outcome of `createUser`. The error is recognised
      by its message text, as the handler does. */
  function SignupReply(res: Result<PublicUser, AuthError>, sign: Claims -> string): (reply: Reply)
    ensures (reply.Respond? && reply.status == CREATED) <==> res.Success?
    ensures (reply.Respond? && reply.cookie.SetToken?) <==> res.Success?
    ensures res.Success? ==>
      && reply.cookie == SetToken(sign(Claims(res.value.id, res.value.email, res.value.role)))
      && reply.body.MessageBody?
      && reply.body.user == Some(UserView(res.value.id, res.value.name, res.value.email, res.value.role))
    ensures (reply.Respond? && reply.status == CONFLICT) <==> res == Failure(UserExists)
    ensures res == Failure(UserExists) ==>
      reply.body == ErrorBody("Email already exists", None) && reply.cookie == KeepCookie
    ensures reply.Forward? <==> res.Failure? && res.error != UserExists
    ensures reply.Forward? ==> reply.error == res.error
  {
    match res
    case Success(user) =>
      Respond(CREATED, MessageBody("User registered", Some(ViewOf(user))), SetToken(sign(ClaimsOf(user))))
    case Failure(e) =>
      MessageInjective(e, UserExists);
      if Message(e) == "User with this email already exists" then
        Respond(CONFLICT, ErrorBody("Email already exists", None), KeepCookie)
      else
        Forward(e)
  }

  /** `signup`: a rejected body is answered 400 without touching the users
      table; otherwise `createUser` runs and its outcome is answered by
      `SignupReply`. */
  method Signup(
    store: UserStore, v: Validation<NewUser>, h: Hasher, salt: Salt, now: Timestamp,
    sign: Claims -> string)
    returns (reply: Reply)
    requires store.Valid()
    modifies store
    ensures store.Valid()
    ensures v.Invalid? ==> reply == ValidationFailed(v.details) && unchanged(store)
    ensures v.Parsed? && HasEmail(old(store.rows), v.data.email) ==>
      && reply == Respond(CONFLICT, ErrorBody("Email already exists", None), KeepCookie)
      && unchanged(store)
    ensures (v.Parsed? && !HasEmail(old(store.rows), v.data.email)
             && HashPassword(h, v.data.password, salt).Failure?) ==>
      reply == Forward(HashingFailed) && unchanged(store)
    ensures (v.Parsed? && !HasEmail(old(store.rows), v.data.email)
             && HashPassword(h, v.data.password, salt).Success?) ==>
      var a := NewAccount(old(store.nextId), v.data, HashPassword(h, v.data.password, salt).value, now);
      && store.rows == old(store.rows) + [a]
      && store.nextId == old(store.nextId) + 1
      && reply.Respond? && reply.status == CREATED
      && reply.cookie == SetToken(sign(Claims(a.id, a.email, a.role)))
      && reply.body.MessageBody? && reply.body.user == Some(UserView(a.id, a.name, a.email, a.role))
  {
    if v.Invalid? {
      return ValidationFailed(v.details);
    }
    var user := v.data;
    var res;
    ghost var hasherCalled;
    res, hasherCalled := store.CreateUser(h, user, salt, now);
    reply := SignupReply(res, sign);
  }

  // ---------------------------------------------------------------------------
  // signin
  // ---------------------------------------------------------------------------

  /** How `signin` answers the outcome of `authenticateUser`, recognising the
      error by its message text. */
  function SigninReply(res: Result<PublicUser, AuthError>, sign: Claims -> string): (reply: Reply)
    ensures (reply.Respond? && reply.status == OK) <==> res.Success?
    ensures (reply.Respond? && reply.cookie.SetToken?) <==> res.Success?
    ensures res.Success? ==>
      && reply.cookie == SetToken(sign(Claims(res.value.id, res.value.email, res.value.role)))
      && reply.body.MessageBody?
      && reply.body.user == Some(UserView(res.value.id, res.value.name, res.value.email, res.value.role))
    ensures (reply.Respond? && reply.status == NOT_FOUND) <==> res == Failure(UserNotFound)
    ensures res == Failure(UserNotFound) ==>
      reply.body == ErrorBody("User not found", None) && reply.cookie == KeepCookie
    ensures (reply.Respond? && reply.status == UNAUTHORIZED) <==> res == Failure(InvalidPassword)
    ensures res == Failure(InvalidPassword) ==>
      reply.body == ErrorBody("Invalid credentials", None) && reply.cookie == KeepCookie
    ensures reply.Forward? <==> res.Failure? && res.error !in {UserNotFound, InvalidPassword}
    ensures reply.Forward? ==> reply.error == res.error
  {
    match res
    case Success(user) =>
      Respond(OK, MessageBody("User signed in successfully", Some(ViewOf(user))), SetToken(sign(ClaimsOf(user))))
    case Failure(e) =>
      MessageInjective(e, UserNotFound);
      MessageInjective(e, InvalidPassword);
      if Message(e) == "User not found" then
        Respond(NOT_FOUND, ErrorBody("User not found", None), KeepCookie)
      else if Message(e) == "Invalid password" then
        Respond(UNAUTHORIZED, ErrorBody("Invalid credentials", None), KeepCookie)
      else
        Forward(e)
  }

  /** `signin` over the current users table: a rejected body is answered 400
      without a lookup; otherwise `authenticateUser` runs and its outcome is
      answered by `SigninReply`. */
  function Signin(v: Validation<Credentials>, rows: seq<Account>, h: Hasher, sign: Claims -> string)
    : (reply: Reply)
    ensures v.Invalid? ==> reply == ValidationFailed(v.details)
    ensures (reply.Respond? && reply.status == NOT_FOUND) <==>
      v.Parsed? && !HasEmail(rows, v.data.email)
    ensures (reply.Respond? && reply.status == UNAUTHORIZED) <==>
      v.Parsed? && FindByEmail(rows, v.data.email).Some?
      && ComparePassword(h, v.data.password, FindByEmail(rows, v.data.email).value.password) == Success(false)
    ensures reply.Forward? ==> v.Parsed? && reply.error == CompareFailed
    ensures reply.Respond? && reply.status == OK ==>
      v.Parsed? &&
      exists a :: a in rows && a.email == v.data.email
        && ComparePassword(h, v.data.password, a.password) == Success(true)
        && reply.cookie == SetToken(sign(Claims(a.id, a.email, a.role)))
        && reply.body == MessageBody("User signed in successfully", Some(UserView(a.id, a.name, a.email, a.role)))
  {
    match v
    case Invalid(details) => ValidationFailed(details)
    case Parsed(c) => SigninReply(AuthenticateUser(rows, h, c.email, c.password), sign)
  }

  /** Signing in with a stored email and a password the hasher rejects is
      answered 401 `Invalid credentials`, with no cookie set. */
  lemma SigninWrongPassword(rows: seq<Account>, h: Hasher, i: nat, password: string, sign: Claims -> string)
    requires UniqueEmails(rows) && i < |rows|
    requires ComparePassword(h, password, rows[i].password) == Success(false)
    ensures Signin(Parsed(Credentials(rows[i].email, password)), rows, h, sign)
      == Respond(UNAUTHORIZED, ErrorBody("Invalid credentials", None), KeepCookie)
  {
  }

  /** Signing in with the password an account was created with is answered 200
      with that account's public fields and a token over its id, email and role. */
  lemma SigninAfterSignup(
    rows: seq<Account>, h: Hasher, id: UserId, user: NewUser, salt: Salt, now: Timestamp,
    sign: Claims -> string)
    requires Sound(h) && UniqueEmails(rows) && !HasEmail(rows, user.email)
    requires HashPassword(h, user.password, salt).Success?
    ensures var a := NewAccount(id, user, HashPassword(h, user.password, salt).value, now);
      Signin(Parsed(Credentials(user.email, user.password)), rows + [a], h, sign)
        == Respond(OK, MessageBody("User signed in successfully", Some(UserView(a.id, a.name, a.email, a.role))),
                   SetToken(sign(Claims(a.id, a.email, a.role))))
  {
    AuthenticateAfterCreate(rows, h, id, user, salt, now);
  }

  // ---------------------------------------------------------------------------
  // signout
  // ---------------------------------------------------------------------------

  /** The response of `signout` and the email it records in its log line. */
  datatype SignoutResult = SignoutResult(reply: Reply, loggedEmail: string)

  /** `signout`, given the request's `token` cookie (`None` when absent). The
      token is verified only to name the user in the log; a rejected token is
      ignored. An empty cookie value counts as absent. */
  function Signout(cookie: Option<string>, verify: string -> Verification): (r: SignoutResult)
    ensures r.reply == Respond(OK, MessageBody("User signed out successfully", None), ClearToken)
    ensures r.loggedEmail != "unknown" ==>
      cookie.Some? && verify(cookie.value).Decoded? && verify(cookie.value).claims.email == r.loggedEmail
    ensures cookie.Some? && cookie.value != "" && verify(cookie.value).Decoded? ==>
      r.loggedEmail == verify(cookie.value).claims.email
    ensures (cookie.None? || cookie.value == "" || verify(cookie.value).Refused?) ==>
      r.loggedEmail == "unknown"
  {
    var userEmail :=
      if cookie.Some? && cookie.value != "" then
        match verify(cookie.value)
        case Decoded(claims) => claims.email
        case Refused(_) => "unknown"
      else "unknown";
    SignoutResult(Respond(OK, MessageBody("User signed out successfully", None), ClearToken), userEmail)
  }

  /** The client's `token` cookie after it applies a response's cookie action. */
  function ApplyCookie(jar: Option<string>, action: CookieAction): Option<string> {
    match action
    case KeepCookie => jar
    case SetToken(t) => Some(t)
    case ClearToken => None
  }

  /** Signing out twice in a row answers the same both times and leaves no
      cookie, whatever cookie the client started with. */
  lemma SignoutIdempotent(jar: Option<string>, verify: string -> Verification)
    ensures var first := Signout(jar, verify).reply;
      var jar' := ApplyCookie(jar, first.cookie);
      var second := Signout(jar', verify).reply;
      && jar' == None
      && second == first
      && ApplyCookie(jar', second.cookie) == jar'
  {
  }

  // ---------------------------------------------------------------------------
  // A session from an empty table
  // ---------------------------------------------------------------------------

  /** Ana signs up, signs up again, signs in with her password and with a wrong
      one, on a fresh users table. */
  method AnaSession(h: Hasher, salt: Salt, now: Timestamp, sign: Claims -> string)
    returns (first: Reply, again: Reply, good: Reply, bad: Reply)
    requires Sound(h)
    requires h.hash("secret123", salt).Hashed?
    requires h.compare("wrong", h.hash("secret123", salt).digest) == Compared(false)
    ensures first.Respond? && first.status == CREATED && first.cookie.SetToken?
    ensures first.body.MessageBody? && first.body.user.Some? && first.body.user.value.email == "ana@x.com"
    ensures again == Respond(CONFLICT, ErrorBody("Email already exists", None), KeepCookie)
    ensures good.Respond? && good.status == OK && good.cookie.SetToken?
    ensures bad == Respond(UNAUTHORIZED, ErrorBody("Invalid credentials", None), KeepCookie)
  {
    var store := new UserStore();
    var ana := NewUser("Ana", "ana@x.com", "secret123", None);
    first := Signup(store, Parsed(ana), h, salt, now, sign);
    assert HasEmail(store.rows, "ana@x.com") by { assert store.rows[0].email == "ana@x.com"; }
    again := Signup(store, Parsed(ana), h, salt, now, sign);
    SigninAfterSignup([], h, 1, ana, salt, now, sign);
    good := Signin(Parsed(Credentials("ana@x.com", "secret123")), store.rows, h, sign);
    SigninWrongPassword(store.rows, h, 0, "wrong", sign);
    bad := Signin(Parsed(Credentials("ana@x.com", "wrong")), store.rows, h, sign);
  }
}
