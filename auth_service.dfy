/** The account service: the users table, password hashing and comparison,
    registration (`createUser`) and sign-in (`authenticateUser`). */
module AuthService {
  import opened Wrappers

  type UserId = nat
  /** The random salt the hashing library draws for each hash. */
  type Salt = nat
  /** The database clock's reading when a row is inserted. */
  type Timestamp = int

  // ---------------------------------------------------------------------------
  // The password-hashing library, left uninterpreted
  // ---------------------------------------------------------------------------

  /** What the library's `hash` call gives back: a digest, or a thrown error. */
  datatype HashOutcome = Hashed(digest: string) | HashThrew

  /** What the library's `compare` call gives back: a verdict, or a thrown error. */
  datatype CompareOutcome = Compared(matches: bool) | CompareThrew

  /** The hashing library as a pair of functions. The model assumes nothing of
      them except, where a lemma says so, `Sound`. */
  datatype Hasher = Hasher(
    hash: (string, Salt) -> HashOutcome,
    compare: (string, string) -> CompareOutcome)

  /** The one law relied on: a password matches any digest made from it. */
  ghost predicate Sound(h: Hasher) {
    forall password: string, salt: Salt ::
      h.hash(password, salt).Hashed? ==>
        h.compare(password, h.hash(password, salt).digest) == Compared(true)
  }

  // ---------------------------------------------------------------------------
  // Errors the service throws
  // ---------------------------------------------------------------------------

  datatype AuthError =
    | UserExists       // 'User with this email already exists'
    | UserNotFound     // 'User not found'
    | InvalidPassword  // 'Invalid password'
    | HashingFailed    // 'Error Hashing.'
    | CompareFailed    // 'Error comparing password.'

  /** The `message` of the Error object thrown for each kind. */
  function Message(e: AuthError): string {
    match e
    case UserExists => "User with this email already exists"
    case UserNotFound => "User not found"
    case InvalidPassword => "Invalid password"
    case HashingFailed => "Error Hashing."
    case CompareFailed => "Error comparing password."
  }

  /** Distinct error kinds carry distinct messages, so a caller that tests the
      message text can tell every kind apart. */
  lemma MessageInjective(a: AuthError, b: AuthError)
    ensures Message(a) == Message(b) <==> a == b
  {
  }

  /** `hashPassword`: the library digest, or `HashingFailed` when the library throws. */
  function HashPassword(h: Hasher, password: string, salt: Salt): (r: Result<string, AuthError>)
    ensures r.Success? <==> h.hash(password, salt).Hashed?
    ensures r.Success? ==> r.value == h.hash(password, salt).digest
    ensures r.Failure? ==> r.error == HashingFailed
  {
    match h.hash(password, salt)
    case Hashed(d) => Success(d)
    case HashThrew => Failure(HashingFailed)
  }

  /** `comparePassword`: the library verdict, or `CompareFailed` when the library
      throws; a mismatch is a `false` verdict, not an error. */
  function ComparePassword(h: Hasher, password: string, digest: string): (r: Result<bool, AuthError>)
    ensures r.Success? <==> h.compare(password, digest).Compared?
    ensures r.Success? ==> r.value == h.compare(password, digest).matches
    ensures r.Failure? ==> r.error == CompareFailed
  {
    match h.compare(password, digest)
    case Compared(m) => Success(m)
    case CompareThrew => Failure(CompareFailed)
  }

  /** Under the hashing law, a password is accepted against its own digest. */
  lemma HashedPasswordVerifies(h: Hasher, password: string, salt: Salt)
    requires Sound(h)
    requires HashPassword(h, password, salt).Success?
    ensures ComparePassword(h, password, HashPassword(h, password, salt).value) == Success(true)
  {
  }

  // ---------------------------------------------------------------------------
  // Rows of the users table
  // ---------------------------------------------------------------------------

  /** A row of the users table; `password` holds the digest, never the plaintext. */
  datatype Account = Account(
    id: UserId, name: string, email: string, password: string, role: string, createdAt: Timestamp)

  /** An account as the service hands it out: every column but `password`. */
  datatype PublicUser = PublicUser(
    id: UserId, name: string, email: string, role: string, createdAt: Timestamp)

  function WithoutPassword(a: Account): PublicUser {
    PublicUser(a.id, a.name, a.email, a.role, a.createdAt)
  }

  /** Removing the password forgets that column and nothing else: two rows give
      the same public user exactly when they differ at most in `password`. */
  lemma WithoutPasswordForgetsOnlyPassword(a: Account, b: Account)
    ensures WithoutPassword(a) == WithoutPassword(b) <==> a.(password := b.password) == b
  {
  }

  /** The input of `createUser`; `role` is `None` when the caller gave none. */
  datatype NewUser = NewUser(name: string, email: string, password: string, role: Option<string>)

  const DefaultRole: string := "user"

  /** The row `createUser` inserts. */
  function NewAccount(id: UserId, user: NewUser, digest: string, now: Timestamp): (a: Account)
    ensures a.email == user.email && a.name == user.name && a.password == digest
    ensures user.role.None? ==> a.role == DefaultRole
    ensures user.role.Some? ==> a.role == user.role.value
  {
    Account(id, user.name, user.email, digest, user.role.GetOr(DefaultRole), now)
  }

  ghost predicate HasEmail(rows: seq<Account>, email: string) {
    exists i :: 0 <= i < |rows| && rows[i].email == email
  }

  /** No two rows share an email (compared exactly, without normalisation). */
  ghost predicate UniqueEmails(rows: seq<Account>) {
    forall i, j :: 0 <= i < j < |rows| ==> rows[i].email != rows[j].email
  }

  /** Every id is below the next one to hand out, and no two rows share one. */
  ghost predicate IdsIssued(rows: seq<Account>, nextId: UserId) {
    && (forall i :: 0 <= i < |rows| ==> rows[i].id < nextId)
    && (forall i, j :: 0 <= i < j < |rows| ==> rows[i].id != rows[j].id)
  }

  /** `select().from(users).where(eq(users.email, email)).limit(1)`: a row
      whose email equals `email`, if any. The query fixes no order; this model
      takes the earliest, and under `UniqueEmails` there is only one to take. */
  function FindByEmail(rows: seq<Account>, email: string): (r: Option<Account>)
    ensures r.None? <==> !HasEmail(rows, email)
    ensures r.Some? ==> r.value in rows && r.value.email == email
    decreases |rows|
  {
    if |rows| == 0 then None
    else if rows[0].email == email then Some(rows[0])
    else
      var r := FindByEmail(rows[1..], email);
      assert HasEmail(rows[1..], email) ==> HasEmail(rows, email);
      assert HasEmail(rows, email) ==> HasEmail(rows[1..], email) by {
        if HasEmail(rows, email) {
          var i :| 0 <= i < |rows| && rows[i].email == email;
          assert rows[1..][i - 1].email == email;
        }
      }
      r
  }

  /** With unique emails the lookup finds exactly the row holding the email. */
  lemma FindByEmailUnique(rows: seq<Account>, i: nat)
    requires UniqueEmails(rows) && i < |rows|
    ensures FindByEmail(rows, rows[i].email) == Some(rows[i])
  {
  }

  /** Appending a row whose email is not yet used keeps emails unique. */
  lemma AppendFreshEmail(rows: seq<Account>, a: Account)
    requires UniqueEmails(rows) && !HasEmail(rows, a.email)
    ensures UniqueEmails(rows + [a])
  {
  }

  /** Appending a row numbered with the next id keeps ids issued and distinct,
      and the new row's id is held by no earlier row. */
  lemma AppendNextId(rows: seq<Account>, nextId: UserId, a: Account)
    requires IdsIssued(rows, nextId) && a.id == nextId
    ensures IdsIssued(rows + [a], nextId + 1)
    ensures forall i :: 0 <= i < |rows| ==> rows[i].id != a.id
  {
  }

  // ---------------------------------------------------------------------------
  // authenticateUser
  // ---------------------------------------------------------------------------

  /** `authenticateUser`: look the email up, compare the password against the
      stored digest, and hand out the row without its password. Reads the table
      and never changes it. */
  function AuthenticateUser(rows: seq<Account>, h: Hasher, email: string, password: string)
    : (r: Result<PublicUser, AuthError>)
    ensures r == Failure(UserNotFound) <==> !HasEmail(rows, email)
    ensures r.Failure? ==> r.error in {UserNotFound, InvalidPassword, CompareFailed}
    ensures r.Success? ==>
      exists a :: a in rows && a.email == email && r.value == WithoutPassword(a)
        && ComparePassword(h, password, a.password) == Success(true)
  {
    match FindByEmail(rows, email)
    case None => Failure(UserNotFound)
    case Some(a) =>
      match ComparePassword(h, password, a.password)
      case Failure(e) => Failure(e)
      case Success(valid) =>
        if !valid then Failure(InvalidPassword) else Success(WithoutPassword(a))
  }

  /** For a stored row (emails unique), the outcome is decided by comparing the
      password with that row's digest: a match yields the row without its
      password, a mismatch `InvalidPassword`, a library error `CompareFailed`. */
  lemma AuthenticateStoredRow(rows: seq<Account>, h: Hasher, i: nat, password: string)
    requires UniqueEmails(rows) && i < |rows|
    ensures var r := AuthenticateUser(rows, h, rows[i].email, password);
      && (ComparePassword(h, password, rows[i].password) == Success(true) ==>
            r == Success(WithoutPassword(rows[i])))
      && (ComparePassword(h, password, rows[i].password) == Success(false) ==>
            r == Failure(InvalidPassword))
      && (ComparePassword(h, password, rows[i].password).Failure? ==>
            r == Failure(CompareFailed))
  {
  }

  /** Under the hashing law, the password a row was created with authenticates
      it once the row is appended to a table that did not hold its email. */
  lemma AuthenticateAfterCreate(
    rows: seq<Account>, h: Hasher, id: UserId, user: NewUser, salt: Salt, now: Timestamp)
    requires Sound(h) && UniqueEmails(rows) && !HasEmail(rows, user.email)
    requires HashPassword(h, user.password, salt).Success?
    ensures var a := NewAccount(id, user, HashPassword(h, user.password, salt).value, now);
      AuthenticateUser(rows + [a], h, user.email, user.password) == Success(WithoutPassword(a))
  {
    var a := NewAccount(id, user, HashPassword(h, user.password, salt).value, now);
    AppendFreshEmail(rows, a);
    HashedPasswordVerifies(h, user.password, salt);
    AuthenticateStoredRow(rows + [a], h, |rows|, user.password);
  }

  // ---------------------------------------------------------------------------
  // The users table and createUser
  // ---------------------------------------------------------------------------

  /** The users table, rows in insertion order, with the id sequence. */
  class UserStore {
    var rows: seq<Account>
    var nextId: UserId

    ghost predicate Valid()
      reads this
    {
      UniqueEmails(rows) && IdsIssued(rows, nextId)
    }

    /** An empty table whose id sequence starts at 1. */
    constructor ()
      ensures Valid() && rows == [] && nextId == 1
    {
      rows := [];
      nextId := 1;
    }

    /** `createUser`. A taken email fails with `UserExists` before the hasher is
        consulted; a hashing failure fails with `HashingFailed`; otherwise one
        row is appended and returned without its password. A failure leaves the
        table as it was. */
    method CreateUser(h: Hasher, user: NewUser, salt: Salt, now: Timestamp)
      returns (r: Result<PublicUser, AuthError>, ghost hasherCalled: bool)
      requires Valid()
      modifies this
      ensures Valid()
      ensures hasherCalled <==> !HasEmail(old(rows), user.email)
      ensures HasEmail(old(rows), user.email) ==>
        r == Failure(UserExists) && unchanged(this)
      ensures !HasEmail(old(rows), user.email) && HashPassword(h, user.password, salt).Failure? ==>
        r == Failure(HashingFailed) && unchanged(this)
      ensures !HasEmail(old(rows), user.email) && HashPassword(h, user.password, salt).Success? ==>
        var a := NewAccount(old(nextId), user, HashPassword(h, user.password, salt).value, now);
        && rows == old(rows) + [a]
        && nextId == old(nextId) + 1
        && (forall i :: 0 <= i < |old(rows)| ==> old(rows)[i].id != a.id)
        && r == Success(WithoutPassword(a))
    {
      hasherCalled := false;
      var existing := FindByEmail(rows, user.email);
      if existing.Some? {
        return Failure(UserExists), hasherCalled;
      }
      hasherCalled := true;
      var digest := HashPassword(h, user.password, salt);
      if digest.Failure? {
        return Failure(digest.error), hasherCalled;
      }
      var a := NewAccount(nextId, user, digest.value, now);
      AppendFreshEmail(rows, a);
      AppendNextId(rows, nextId, a);
      rows := rows + [a];
      nextId := nextId + 1;
      r := Success(WithoutPassword(a));
    }
  }
}
