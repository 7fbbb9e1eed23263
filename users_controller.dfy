/**
 * Accounts (Controllers/UsersController.cs): registration, login, e-mail verification, password
 * reset and profile update. The password cipher and the password hash are outside the model:
 * each handler takes them as functions, `decrypt` answering None where the real one throws.
 */
module UsersController {
  import opened Wrappers
  import opened Linq
  import opened Strings
  import opened Http
  import opened Models
  import opened AppDb

  /** `SaveChanges` on the user table. */
  method SetUsers(ctx: AppDbContext, rows: seq<User>, next: nat)
    modifies ctx
    ensures ctx.Snapshot() == old(ctx.Snapshot()).(users := rows, nextUserId := next)
  {
    ctx.users, ctx.nextUserId := rows, next;
  }

  function EmailIs(email: string): User -> bool {
    (u: User) => u.email == email
  }

  function UserNameIs(userName: string): User -> bool {
    (u: User) => u.userName == userName
  }

  predicate EmailTaken(t: Tables, email: string) {
    exists u :: u in t.users && u.email == email
  }

  predicate UserNameTaken(t: Tables, userName: string) {
    exists u :: u in t.users && u.userName == userName
  }

  /** Replacing one user by a record with the same id keeps the tables valid: no key moves and no
    * foreign key names a user. */
  lemma ReplaceUserValid(t: Tables, k: nat, u: User)
    requires ValidTables(t) && k < |t.users| && u.id == t.users[k].id
    ensures ValidTables(t.(users := t.users[k := u]))
  {
    UpdateKeyed(t.users, UserKey, t.nextUserId, k, u);
  }

  // ---------------------------------------------------------------- Register

  /** The registration body; the password arrives encrypted. */
  datatype Registration = Registration(
    email: string, name: string, userName: string, password: string,
    mobileNumber: string, role: Role)

  datatype RegisterOutcome = Registered | EmailInUse | UserNameInUse | DecryptFailed

  function RegisterStatus(o: RegisterOutcome): (s: Status)
    ensures s == Created <==> o == Registered
    ensures s == Conflict <==> o == EmailInUse || o == UserNameInUse
  {
    match o
    case Registered => Created
    case EmailInUse => Conflict
    case UserNameInUse => Conflict
    case DecryptFailed => ServerError
  }

  datatype RegisterReply = RegisterReply(outcome: RegisterOutcome, tables: Tables)

  /** The account registration creates: already verified, holding the hash of the plain password. */
  function Account(t: Tables, d: Registration, plain: string, hash: string -> string): User {
    User(t.nextUserId, d.email, d.name, d.userName, hash(plain), d.mobileNumber, d.role, true)
  }

  /**
   * `Register` (Controllers/UsersController.cs:17-49): the password is decrypted first (a failure
   * escapes as 500); a taken email is reported before a taken user name, both as 409 with nothing
   * written; otherwise one verified account is appended under a fresh id (201).
   */
  function RegisterSpec(t: Tables, d: Registration, decrypt: string -> Option<string>,
                        hash: string -> string): (r: RegisterReply)
    ensures r.outcome == DecryptFailed <==> decrypt(d.password).None?
    ensures r.outcome == EmailInUse <==> decrypt(d.password).Some? && EmailTaken(t, d.email)
    ensures r.outcome == UserNameInUse <==>
      decrypt(d.password).Some? && !EmailTaken(t, d.email) && UserNameTaken(t, d.userName)
    ensures r.outcome != Registered ==> r.tables == t
  {
    match decrypt(d.password)
    case None => RegisterReply(DecryptFailed, t)
    case Some(plain) =>
      if Any(t.users, EmailIs(d.email)) then
        RegisterReply(EmailInUse, t)
      else if Any(t.users, UserNameIs(d.userName)) then
        RegisterReply(UserNameInUse, t)
      else
        RegisterReply(Registered, t.(users := t.users + [Account(t, d, plain, hash)],
                                     nextUserId := t.nextUserId + 1))
  }

  method Register(ctx: AppDbContext, d: Registration, decrypt: string -> Option<string>,
                  hash: string -> string) returns (status: Status)
    requires ctx.Valid()
    modifies ctx
    ensures var r := RegisterSpec(old(ctx.Snapshot()), d, decrypt, hash);
      status == RegisterStatus(r.outcome) && ctx.Snapshot() == r.tables
    ensures ctx.Valid()
  {
    var t0 := ctx.Snapshot();
    var plain := decrypt(d.password);
    if plain.None? {
      return ServerError;
    }
    var users, next := ctx.users, ctx.nextUserId;
    if Any(users, EmailIs(d.email)) {
      return Conflict;
    }
    if Any(users, UserNameIs(d.userName)) {
      return Conflict;
    }
    RegisterValid(t0, d, decrypt, hash);
    SetUsers(ctx, users + [User(next, d.email, d.name, d.userName, hash(plain.value),
                                d.mobileNumber, d.role, true)], next + 1);
    return Created;
  }

  lemma RegisterValid(t: Tables, d: Registration, decrypt: string -> Option<string>, hash: string -> string)
    requires ValidTables(t)
    ensures ValidTables(RegisterSpec(t, d, decrypt, hash).tables)
  {
    if decrypt(d.password).Some? {
      AppendKeyed(t.users, UserKey, t.nextUserId, Account(t, d, decrypt(d.password).value, hash));
    }
  }

  /** A successful registration adds exactly one account: verified, with the body's fields and the
    * hash of the decrypted password, under the next id. */
  lemma RegisterAddsAccount(t: Tables, d: Registration, decrypt: string -> Option<string>,
                            hash: string -> string)
    requires decrypt(d.password).Some? && !EmailTaken(t, d.email) && !UserNameTaken(t, d.userName)
    ensures var r := RegisterSpec(t, d, decrypt, hash);
      var u := r.tables.users[|t.users|];
      r.outcome == Registered && |r.tables.users| == |t.users| + 1
      && r.tables == t.(users := t.users + [u], nextUserId := t.nextUserId + 1)
      && u.id == t.nextUserId && u.isVerified && u.passwordHash == hash(decrypt(d.password).value)
      && u.email == d.email && u.name == d.name && u.userName == d.userName
      && u.mobileNumber == d.mobileNumber && u.role == d.role
  {
  }

  /** Registration keeps emails unique and user names unique. */
  lemma RegisterKeepsAccountsUnique(t: Tables, d: Registration, decrypt: string -> Option<string>,
                                    hash: string -> string)
    requires AccountsUnique(t)
    ensures AccountsUnique(RegisterSpec(t, d, decrypt, hash).tables)
  {
    var r := RegisterSpec(t, d, decrypt, hash);
    if r.outcome == Registered {
      var u := Account(t, d, decrypt(d.password).value, hash);
      assert r.tables.users == t.users + [u];
      forall x | x in t.users ensures x.email != u.email && x.userName != u.userName {
      }
    }
  }

  /** An email already registered is refused, whether or not the user name is also taken. */
  lemma RegisterEmailCheckedFirst(t: Tables, d: Registration, decrypt: string -> Option<string>,
                                  hash: string -> string, u: User)
    requires decrypt(d.password).Some? && u in t.users && u.email == d.email
    ensures RegisterSpec(t, d, decrypt, hash) == RegisterReply(EmailInUse, t)
  {
  }

  // ---------------------------------------------------------------- Login

  /** The row the login looks up: email or user name equal to the login id, and the role. */
  function Credentials(loginId: string, role: Role): User -> bool {
    (u: User) => (u.email == loginId || u.userName == loginId) && u.role == role
  }

  datatype LoginReply = LoginReply(status: Status, user: Option<User>)

  /**
   * `Login` (Controllers/UsersController.cs:53-83): the first user matching the login id and the
   * role is the only candidate; 401 when there is none or its hash differs from the hash of the
   * decrypted password; only then 403 for an unverified account; otherwise 200 with that user.
   * Nothing is written.
   */
  function Login(t: Tables, loginId: string, password: string, role: Role,
                 decrypt: string -> Option<string>, hash: string -> string): (r: LoginReply)
    ensures r.status in {Ok, Unauthorized, Forbidden, ServerError}
    ensures r.status == ServerError <==> decrypt(password).None?
    ensures r.status == Ok <==> r.user.Some?
    ensures r.user.Some? ==>
      r.user.value in t.users && r.user.value.isVerified && r.user.value.role == role
      && (r.user.value.email == loginId || r.user.value.userName == loginId)
      && r.user.value.passwordHash == hash(decrypt(password).value)
  {
    match decrypt(password)
    case None => LoginReply(ServerError, None)
    case Some(plain) =>
      match FirstIndex(t.users, Credentials(loginId, role))
      case None => LoginReply(Unauthorized, None)
      case Some(k) =>
        var u := t.users[k];
        if hash(plain) != u.passwordHash then LoginReply(Unauthorized, None)
        else if !u.isVerified then LoginReply(Forbidden, None)
        else LoginReply(Ok, Some(u))
  }

  /** The decision order: the credentials are judged on the first matching user, and the
    * verification flag only once they are right. */
  lemma LoginDecision(t: Tables, loginId: string, password: string, role: Role,
                      decrypt: string -> Option<string>, hash: string -> string, k: nat)
    requires decrypt(password).Some? && k < |t.users| && Credentials(loginId, role)(t.users[k])
    requires forall j :: 0 <= j < k ==> !Credentials(loginId, role)(t.users[j])
    ensures var r := Login(t, loginId, password, role, decrypt, hash);
      var u := t.users[k];
      (r.status == Unauthorized <==> hash(decrypt(password).value) != u.passwordHash)
      && (r.status == Forbidden <==> hash(decrypt(password).value) == u.passwordHash && !u.isVerified)
      && (r.status == Ok <==> hash(decrypt(password).value) == u.passwordHash && u.isVerified)
      && (r.status == Ok ==> r.user == Some(u))
  {
    assert FirstIndex(t.users, Credentials(loginId, role)) == Some(k);
  }

  /** Without any user of that login id and role, the answer is 401. */
  lemma LoginUnknown(t: Tables, loginId: string, password: string, role: Role,
                     decrypt: string -> Option<string>, hash: string -> string)
    requires decrypt(password).Some?
    requires forall u :: u in t.users ==> !Credentials(loginId, role)(u)
    ensures Login(t, loginId, password, role, decrypt, hash).status == Unauthorized
  {
  }

  /** Only the first match is tried: one user's email may be another's user name, and then the
    * second cannot log in with it even with the right password. */
  lemma LoginFirstMatchShadows()
    ensures exists t, id, pw :: ShadowedLogin(t, id, pw)
  {
    var t := ShadowTables();
    ShadowTablesFacts();
    assert ShadowedLogin(t, "x", "b");
  }

  /** Ann's email and Bob's user name are both "x". */
  function ShadowTables(): Tables {
    var a := User(1, "x", "Ann", "ann1", "h-a", "0123456789", Customer, true);
    var b := User(2, "b@c.de", "Bob", "x", "h-b", "0123456789", Customer, true);
    EmptyTables().(users := [a, b], nextUserId := 3)
  }

  lemma ShadowTablesFacts()
    ensures ValidTables(ShadowTables()) && AccountsUnique(ShadowTables())
    ensures Login(ShadowTables(), "x", "b", Customer, ClearText(), TagHash()).status == Unauthorized
  {
    var t := ShadowTables();
    assert t.users[0].email != t.users[1].email && t.users[0].userName != t.users[1].userName by {
      assert |t.users[0].email| != |t.users[1].email|;
      assert |t.users[0].userName| != |t.users[1].userName|;
    }
    assert FirstIndex(t.users, Credentials("x", Customer)) == Some(0);
    assert TagHash()("b") != t.users[0].passwordHash by {
      assert TagHash()("b")[2] == 'b';
    }
  }

  function ClearText(): string -> Option<string> { (s: string) => Some(s) }
  function TagHash(): string -> string { (s: string) => "h-" + s }

  /** Two accounts, unique on email and on user name, where the second's user name `id` is the
    * first one's email: the second's right password `pw` is still refused. */
  predicate ShadowedLogin(t: Tables, id: string, pw: string) {
    ValidTables(t) && AccountsUnique(t) && |t.users| == 2
    && t.users[1].userName == id && t.users[1].passwordHash == TagHash()(pw)
    && t.users[1].role == Customer
    && Login(t, id, pw, Customer, ClearText(), TagHash()).status == Unauthorized
  }

  // ---------------------------------------------------------------- ForgotPassword

  /** `ForgotPassword` (Controllers/UsersController.cs:87-106): 404 for an unknown email; otherwise
    * the user's fields are assigned their own values and saved, so nothing changes (200). */
  method ForgotPassword(ctx: AppDbContext, email: string) returns (status: Status)
    requires ctx.Valid()
    modifies ctx
    ensures status == NotFound <==> !EmailTaken(old(ctx.Snapshot()), email)
    ensures status == NotFound || status == Ok
    ensures ctx.Snapshot() == old(ctx.Snapshot())
    ensures ctx.Valid()
  {
    var users, next := ctx.users, ctx.nextUserId;
    var found := FirstIndex(users, EmailIs(email));
    if found.None? {
      return NotFound;
    }
    var k := found.value;
    var u := users[k];
    u := u.(passwordHash := u.passwordHash, isVerified := u.isVerified);
    assert users[k := u] == users;
    SetUsers(ctx, users[k := u], next);
    return Ok;
  }

  // ---------------------------------------------------------------- ResetPassword

  datatype AccountReply = AccountReply(status: Status, tables: Tables)

  /**
   * `ResetPassword` (Controllers/UsersController.cs:110-126): the first user with the body's email
   * gets the hash of the decrypted new password (202); no such user is 400; the query token takes
   * no part in the decision.
   */
  function ResetPasswordSpec(t: Tables, token: string, email: string, newPassword: string,
                             decrypt: string -> Option<string>, hash: string -> string): (r: AccountReply)
    ensures r.status == BadRequest <==> !EmailTaken(t, email)
    ensures r.status == ServerError <==> EmailTaken(t, email) && decrypt(newPassword).None?
    ensures r.status == Accepted <==> EmailTaken(t, email) && decrypt(newPassword).Some?
    ensures r.status in {BadRequest, ServerError, Accepted}
    ensures r.status != Accepted ==> r.tables == t
  {
    match FirstIndex(t.users, EmailIs(email))
    case None =>
      assert !EmailTaken(t, email) by {
        forall u | u in t.users ensures u.email != email {
          var j :| 0 <= j < |t.users| && t.users[j] == u;
          assert !EmailIs(email)(t.users[j]);
        }
      }
      AccountReply(BadRequest, t)
    case Some(k) =>
      match decrypt(newPassword)
      case None => AccountReply(ServerError, t)
      case Some(plain) =>
        AccountReply(Accepted, t.(users := t.users[k := t.users[k].(passwordHash := hash(plain))]))
  }

  method ResetPassword(ctx: AppDbContext, token: string, email: string, newPassword: string,
                       decrypt: string -> Option<string>, hash: string -> string) returns (status: Status)
    requires ctx.Valid()
    modifies ctx
    ensures var r := ResetPasswordSpec(old(ctx.Snapshot()), token, email, newPassword, decrypt, hash);
      status == r.status && ctx.Snapshot() == r.tables
    ensures ctx.Valid()
  {
    var t0 := ctx.Snapshot();
    var users, next := ctx.users, ctx.nextUserId;
    var found := FirstIndex(users, EmailIs(email));
    if found.None? {
      return BadRequest;
    }
    var k := found.value;
    var plain := decrypt(newPassword);
    if plain.None? {
      return ServerError;
    }
    var u := users[k].(passwordHash := hash(plain.value));
    ReplaceUserValid(t0, k, u);
    SetUsers(ctx, users[k := u], next);
    return Accepted;
  }

  /** With emails unique, the reset touches exactly the password hash of the account with that
    * email, and the token makes no difference. */
  lemma ResetPasswordEffects(t: Tables, token: string, other: string, k: nat, newPassword: string,
                             decrypt: string -> Option<string>, hash: string -> string)
    requires ValidTables(t) && AccountsUnique(t) && k < |t.users| && decrypt(newPassword).Some?
    ensures var u := t.users[k];
      var r := ResetPasswordSpec(t, token, u.email, newPassword, decrypt, hash);
      r.status == Accepted
      && r.tables == t.(users := t.users[k := u.(passwordHash := hash(decrypt(newPassword).value))])
      && r == ResetPasswordSpec(t, other, u.email, newPassword, decrypt, hash)
  {
    var u := t.users[k];
    match FirstIndex(t.users, EmailIs(u.email))
    case Some(i) =>
      assert UserEmail(t.users[i]) == UserEmail(t.users[k]);
      assert UserKey(t.users[i]) == UserKey(t.users[k]);
    case None =>
  }

  // ---------------------------------------------------------------- VerifyEmail

  /** The row a verification token names: unverified, with the token as its id's decimal text. */
  function Verifiable(token: string): User -> bool {
    (u: User) => !u.isVerified && NatToString(u.id) == token
  }

  /** `VerifyEmail` (Controllers/UsersController.cs:130-142): the first unverified user whose id
    * prints as the token becomes verified (202); none is 400. */
  function VerifyEmailSpec(t: Tables, token: string): (r: AccountReply)
    ensures r.status == BadRequest <==> forall u :: u in t.users ==> u.isVerified || NatToString(u.id) != token
    ensures r.status == BadRequest || r.status == Accepted
    ensures r.status == BadRequest ==> r.tables == t
  {
    match FirstIndex(t.users, Verifiable(token))
    case None =>
      assert forall u :: u in t.users ==> u.isVerified || NatToString(u.id) != token by {
        forall u | u in t.users ensures u.isVerified || NatToString(u.id) != token {
          var j :| 0 <= j < |t.users| && t.users[j] == u;
          assert !Verifiable(token)(t.users[j]);
        }
      }
      AccountReply(BadRequest, t)
    case Some(k) =>
      AccountReply(Accepted, t.(users := t.users[k := t.users[k].(isVerified := true)]))
  }

  method VerifyEmail(ctx: AppDbContext, token: string) returns (status: Status)
    requires ctx.Valid()
    modifies ctx
    ensures var r := VerifyEmailSpec(old(ctx.Snapshot()), token);
      status == r.status && ctx.Snapshot() == r.tables
    ensures ctx.Valid()
  {
    var t0 := ctx.Snapshot();
    var users, next := ctx.users, ctx.nextUserId;
    var found := FirstIndex(users, Verifiable(token));
    if found.None? {
      return BadRequest;
    }
    var k := found.value;
    var u := users[k].(isVerified := true);
    ReplaceUserValid(t0, k, u);
    SetUsers(ctx, users[k := u], next);
    return Accepted;
  }

  /** The token printed from an unverified user's id verifies that user and changes nothing else;
    * since ids are distinct, no other user answers to it. */
  lemma VerifyEmailEffects(t: Tables, k: nat)
    requires ValidTables(t) && k < |t.users| && !t.users[k].isVerified
    ensures var r := VerifyEmailSpec(t, NatToString(t.users[k].id));
      r.status == Accepted && r.tables == t.(users := t.users[k := t.users[k].(isVerified := true)])
  {
    var token := NatToString(t.users[k].id);
    match FirstIndex(t.users, Verifiable(token))
    case Some(i) =>
      NatToStringInjective(t.users[i].id, t.users[k].id);
    case None =>
  }

  /** An account already verified cannot be verified again: its token is refused. */
  lemma VerifyEmailRefusesVerified(t: Tables, k: nat)
    requires ValidTables(t) && k < |t.users| && t.users[k].isVerified
    ensures VerifyEmailSpec(t, NatToString(t.users[k].id)).status == BadRequest
  {
    forall u | u in t.users ensures u.isVerified || NatToString(u.id) != NatToString(t.users[k].id) {
      if NatToString(u.id) == NatToString(t.users[k].id) {
        NatToStringInjective(u.id, t.users[k].id);
        var j :| 0 <= j < |t.users| && t.users[j] == u;
        assert UserKey(t.users[j]) == UserKey(t.users[k]);
      }
    }
  }

  // ---------------------------------------------------------------- UpdateProfile

  /** A supplied field counts only when it is neither null nor empty (`string.IsNullOrEmpty`). */
  function Supplied(v: Option<string>, current: string): (r: string)
    ensures v.Some? && v.value != "" ==> r == v.value
    ensures v.None? || v.value == "" ==> r == current
  {
    if v.Some? && v.value != "" then v.value else current
  }

  /** `UpdateProfile` (Controllers/UsersController.cs:157-167): 404 for an unknown caller; otherwise
    * the name and the mobile number are replaced where a non-empty value is supplied (200). */
  function UpdateProfileSpec(t: Tables, uid: int, fullName: Option<string>,
                             mobileNumber: Option<string>): (r: AccountReply)
    ensures r.status == NotFound <==> forall u :: u in t.users ==> u.id != uid
    ensures r.status == NotFound || r.status == Ok
    ensures r.status == NotFound ==> r.tables == t
  {
    match FirstIndex(t.users, (u: User) => u.id == uid)
    case None =>
      assert forall u :: u in t.users ==> u.id != uid by {
        forall u | u in t.users ensures u.id != uid {
          var j :| 0 <= j < |t.users| && t.users[j] == u;
        }
      }
      AccountReply(NotFound, t)
    case Some(k) =>
      var u := t.users[k];
      AccountReply(Ok, t.(users := t.users[k := u.(name := Supplied(fullName, u.name),
                                                    mobileNumber := Supplied(mobileNumber, u.mobileNumber))]))
  }

  method UpdateProfile(ctx: AppDbContext, userId: int, fullName: Option<string>,
                       mobileNumber: Option<string>) returns (status: Status)
    requires ctx.Valid()
    modifies ctx
    ensures var r := UpdateProfileSpec(old(ctx.Snapshot()), userId, fullName, mobileNumber);
      status == r.status && ctx.Snapshot() == r.tables
    ensures ctx.Valid()
  {
    var t0 := ctx.Snapshot();
    var users, next := ctx.users, ctx.nextUserId;
    var found := FirstIndex(users, (u: User) => u.id == userId);
    if found.None? {
      return NotFound;
    }
    var k := found.value;
    var u := users[k];
    if fullName.Some? && fullName.value != "" {
      u := u.(name := fullName.value);
    }
    if mobileNumber.Some? && mobileNumber.value != "" {
      u := u.(mobileNumber := mobileNumber.value);
    }
    ReplaceUserValid(t0, k, u);
    SetUsers(ctx, users[k := u], next);
    return Ok;
  }

  /** On the caller's account only name and mobile number can change, each exactly when a
    * non-empty value is supplied; every other field and every other row stays. */
  lemma UpdateProfileEffects(t: Tables, k: nat, fullName: Option<string>, mobileNumber: Option<string>)
    requires ValidTables(t) && k < |t.users|
    ensures var u := t.users[k];
      var r := UpdateProfileSpec(t, u.id, fullName, mobileNumber);
      var v := r.tables.users[k];
      r.status == Ok && |r.tables.users| == |t.users| && r.tables == t.(users := t.users[k := v])
      && v.(name := u.name, mobileNumber := u.mobileNumber) == u
      && (v.name != u.name ==> fullName == Some(v.name))
      && (v.mobileNumber != u.mobileNumber ==> mobileNumber == Some(v.mobileNumber))
      && (fullName.Some? && fullName.value != "" ==> v.name == fullName.value)
      && (mobileNumber.Some? && mobileNumber.value != "" ==> v.mobileNumber == mobileNumber.value)
  {
    var uid := t.users[k].id;
    match FirstIndex(t.users, (u: User) => u.id == uid)
    case Some(i) =>
    case None =>
  }
}
