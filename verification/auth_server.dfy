/**
  The authentication server of `server/index.js`: an SQLite `users` table and
  the HTTP handlers that read and write it, each a pure transition
  `(table, request) -> (table', response)`.

  Hashing, signing, the clock and the salt come in through `Env`; the model
  relies only on the laws of `Crypto.Lawful`.
 */
module AuthServer {
  import opened Wrappers
  import opened JsText
  import opened Crypto

  const UserRole: string := "user"
  const AdminRole: string := "admin"
  const MinPasswordLength: int := 6

  const AdminEmail: string := "admin@diligentpharma.com"
  const AdminPassword: string := "admin123"

  const AllFieldsRequired: string := "All fields are required"
  const PasswordTooShort: string := "Password must be at least 6 characters long"
  const EmailTaken: string := "User with this email already exists"
  const RegisterFailed: string := "Internal server error during registration"
  const Registered: string := "User registered successfully"
  const CredentialsRequired: string := "Email and password are required"
  const InvalidCredentials: string := "Invalid email or password"
  const LoggedIn: string := "Login successful"
  const TokenRequired: string := "Access token required"
  const TokenRejected: string := "Invalid or expired token"
  const UserNotFound: string := "User not found"
  const EmailRequired: string := "Email is required"
  const ResetAcknowledged: string :=
    "If an account with that email exists, a password reset link has been sent."
  const AdminRequired: string := "Admin access required"

  // ---------------------------------------------------------------------------
  // The users table

  /** One row of `users`; `password` holds the bcrypt hash. */
  datatype UserRow = UserRow(
    id: int, email: string, password: string,
    firstName: string, lastName: string, role: string, createdAt: int)

  /** The table's rows in rowid order, and the AUTOINCREMENT counter
      (the largest id ever handed out). */
  datatype Table = Table(rows: seq<UserRow>, lastId: nat)

  /** `email TEXT UNIQUE`, `id INTEGER PRIMARY KEY AUTOINCREMENT`. */
  ghost predicate Valid(t: Table) {
    && (forall i, j :: 0 <= i < j < |t.rows| ==>
          t.rows[i].email != t.rows[j].email && t.rows[i].id != t.rows[j].id)
    && (forall i :: 0 <= i < |t.rows| ==> 0 < t.rows[i].id <= t.lastId)
  }

  const EmptyTable: Table := Table([], 0)

  predicate HasEmail(t: Table, email: string) {
    exists i :: 0 <= i < |t.rows| && t.rows[i].email == email
  }

  /** `SELECT … FROM users WHERE email = ?` with `.get()`. */
  function RowWithEmail(t: Table, email: string): (r: Option<UserRow>)
    ensures r.None? <==> !HasEmail(t, email)
    ensures r.Some? ==> r.value in t.rows && r.value.email == email
  {
    FindFirst(t.rows, (u: UserRow) => u.email == email)
  }

  /** `SELECT … FROM users WHERE id = ?` with `.get()`. */
  function RowWithId(t: Table, id: int): (r: Option<UserRow>)
    ensures r.None? <==> forall i :: 0 <= i < |t.rows| ==> t.rows[i].id != id
    ensures r.Some? ==> r.value in t.rows && r.value.id == id
  {
    FindFirst(t.rows, (u: UserRow) => u.id == id)
  }

  /** In a valid table the row holding an email is the one the lookup returns. */
  lemma RowWithEmailFinds(t: Table, i: nat)
    requires Valid(t) && i < |t.rows|
    ensures RowWithEmail(t, t.rows[i].email) == Some(t.rows[i])
  {
    var e := t.rows[i].email;
    FindFirstUnique(t.rows, (u: UserRow) => u.email == e, i);
  }

  lemma RowWithIdFinds(t: Table, i: nat)
    requires Valid(t) && i < |t.rows|
    ensures RowWithId(t, t.rows[i].id) == Some(t.rows[i])
  {
    var id := t.rows[i].id;
    FindFirstUnique(t.rows, (u: UserRow) => u.id == id, i);
  }

  datatype DbError = UniqueViolation

  /** `INSERT INTO users (…) VALUES (…)`: refused by the UNIQUE constraint on
      `email`, otherwise appended with the next AUTOINCREMENT id, which is
      also the returned `lastInsertRowid`. */
  function Insert(t: Table, email: string, password: string, firstName: string,
                  lastName: string, role: string, now: int): (r: Result<(Table, int), DbError>)
    ensures r.Failure? <==> HasEmail(t, email)
    ensures r.Success? ==>
              && r.value.0.rows == t.rows + [UserRow(r.value.1, email, password, firstName, lastName, role, now)]
              && r.value.1 == r.value.0.lastId
    ensures Valid(t) && r.Success? ==>
              && Valid(r.value.0)
              && forall i :: 0 <= i < |t.rows| ==> t.rows[i].id < r.value.1
  {
    if RowWithEmail(t, email).Some? then Failure(UniqueViolation)
    else
      var id := t.lastId + 1;
      Success((Table(t.rows + [UserRow(id, email, password, firstName, lastName, role, now)], id), id))
  }

  // ---------------------------------------------------------------------------
  // Requests and responses

  /** A JSON body field: absent, or a string. */
  type Field = Option<string>

  /** `!x` is false: the field is present and not the empty string. */
  predicate Truthy(f: Field) {
    f.Some? && f.value != ""
  }

  datatype RegisterBody = RegisterBody(email: Field, password: Field, firstName: Field, lastName: Field)

  datatype LoginBody = LoginBody(email: Field, password: Field)

  /** The user object of register and login replies: never the password. */
  datatype PublicUser = PublicUser(id: int, email: string, firstName: string, lastName: string, role: string)

  /** The columns `/api/profile` and `/api/users` select. */
  datatype ProfileUser = ProfileUser(
    id: int, email: string, firstName: string, lastName: string, role: string, createdAt: int)

  datatype Body =
    | ErrorBody(error: string)
    | SessionBody(message: string, token: string, user: PublicUser)
    | ProfileBody(profile: ProfileUser)
    | UsersBody(users: seq<ProfileUser>)
    | MessageBody(message: string)

  datatype Response = Response(status: int, body: Body)

  /** What a handler takes from outside: the primitives, the JWT secret
      (`JWT_SECRET` or its fallback), the clock in seconds and the next salt. */
  datatype Env = Env(crypto: Crypto, secret: string, now: int, salt: Salt)

  function PublicView(u: UserRow): PublicUser {
    PublicUser(u.id, u.email, u.firstName, u.lastName, u.role)
  }

  function ProfileView(u: UserRow): ProfileUser {
    ProfileUser(u.id, u.email, u.firstName, u.lastName, u.role, u.createdAt)
  }

  /** The signed token for a user as `jwt.sign` makes it at `env.now`. */
  function TokenFor(env: Env, id: int, email: string, role: string): string {
    env.crypto.sign(Issue(id, email, role, env.now), env.secret)
  }

  // ---------------------------------------------------------------------------
  // POST /api/register

  /** The fields that survived validation, waiting for `await bcrypt.hash`. */
  datatype Pending = Pending(email: string, password: string, firstName: string, lastName: string)

  datatype RegisterStep = Respond(response: Response) | Continue(pending: Pending)

  predicate AllFieldsPresent(b: RegisterBody) {
    Truthy(b.email) && Truthy(b.password) && Truthy(b.firstName) && Truthy(b.lastName)
  }

  /** Everything the handler does before its first `await`: field checks,
      password length, and the existence check. */
  function RegisterValidate(t: Table, b: RegisterBody): (step: RegisterStep)
    ensures !AllFieldsPresent(b) ==> step == Respond(Response(400, ErrorBody(AllFieldsRequired)))
    ensures AllFieldsPresent(b) && |b.password.value| < MinPasswordLength ==>
              step == Respond(Response(400, ErrorBody(PasswordTooShort)))
    ensures AllFieldsPresent(b) && |b.password.value| >= MinPasswordLength && HasEmail(t, b.email.value) ==>
              step == Respond(Response(400, ErrorBody(EmailTaken)))
    ensures step.Continue? <==>
              AllFieldsPresent(b) && |b.password.value| >= MinPasswordLength && !HasEmail(t, b.email.value)
    ensures step.Continue? ==>
              step.pending == Pending(b.email.value, b.password.value, b.firstName.value, b.lastName.value)
  {
    if !Truthy(b.email) || !Truthy(b.password) || !Truthy(b.firstName) || !Truthy(b.lastName) then
      Respond(Response(400, ErrorBody(AllFieldsRequired)))
    else if |b.password.value| < MinPasswordLength then
      Respond(Response(400, ErrorBody(PasswordTooShort)))
    else if RowWithEmail(t, b.email.value).Some? then
      Respond(Response(400, ErrorBody(EmailTaken)))
    else
      Continue(Pending(b.email.value, b.password.value, b.firstName.value, b.lastName.value))
  }

  /** Everything after the `await`: hash, insert, sign. The table may have
      changed since validation; a lost race surfaces as the insert's UNIQUE
      violation, caught and answered with 500. */
  function RegisterCommit(t: Table, p: Pending, env: Env): (r: (Table, Response))
    ensures HasEmail(t, p.email) ==> r == (t, Response(500, ErrorBody(RegisterFailed)))
    ensures !HasEmail(t, p.email) ==>
              var id := r.0.lastId;
              && r.0.rows == t.rows + [UserRow(id, p.email, env.crypto.hash(p.password, env.salt),
                                               p.firstName, p.lastName, UserRole, env.now)]
              && r.1 == Response(201, SessionBody(Registered, TokenFor(env, id, p.email, UserRole),
                                                  PublicUser(id, p.email, p.firstName, p.lastName, UserRole)))
    ensures Valid(t) ==> Valid(r.0)
    ensures Valid(t) && r.1.status == 201 ==> forall i :: 0 <= i < |t.rows| ==> t.rows[i].id < r.0.lastId
  {
    var hashed := env.crypto.hash(p.password, env.salt);
    match Insert(t, p.email, hashed, p.firstName, p.lastName, UserRole, env.now)
    case Failure(_) => (t, Response(500, ErrorBody(RegisterFailed)))
    case Success((t', id)) =>
      var token := TokenFor(env, id, p.email, UserRole);
      (t', Response(201, SessionBody(Registered, token, PublicUser(id, p.email, p.firstName, p.lastName, UserRole))))
  }

  /** The whole handler when nothing interleaves with it. */
  function Register(t: Table, b: RegisterBody, env: Env): (r: (Table, Response))
    ensures r.1.status == 201 <==>
              AllFieldsPresent(b) && |b.password.value| >= MinPasswordLength && !HasEmail(t, b.email.value)
    ensures r.1.status != 201 ==> r.0 == t && r.1.status == 400
    ensures r.1.status == 201 ==>
              var id := r.0.lastId;
              var e := b.email.value;
              && r.0.rows == t.rows + [UserRow(id, e, env.crypto.hash(b.password.value, env.salt),
                                               b.firstName.value, b.lastName.value, UserRole, env.now)]
              && r.1.body.SessionBody?
              && r.1.body.user == PublicUser(id, e, b.firstName.value, b.lastName.value, UserRole)
              && r.1.body.token == env.crypto.sign(Claims(id, e, UserRole, env.now, env.now + TokenLifetime), env.secret)
    ensures Valid(t) ==> Valid(r.0)
    ensures Valid(t) && r.1.status == 201 ==> forall i :: 0 <= i < |t.rows| ==> t.rows[i].id < r.0.lastId
  {
    match RegisterValidate(t, b)
    case Respond(resp) => (t, resp)
    case Continue(p) => RegisterCommit(t, p, env)
  }

  /** Two registrations for one email, both validated against the same table
      before either reaches its insert: the first wins, the second gets 500,
      and the table still holds one row for the email. */
  lemma {:induction false} RegisterRace(t: Table, b1: RegisterBody, b2: RegisterBody, env1: Env, env2: Env)
    requires Valid(t)
    requires RegisterValidate(t, b1).Continue? && RegisterValidate(t, b2).Continue?
    requires b1.email == b2.email
    ensures var (t1, r1) := RegisterCommit(t, RegisterValidate(t, b1).pending, env1);
            var (t2, r2) := RegisterCommit(t1, RegisterValidate(t, b2).pending, env2);
            && r1.status == 201 && r2 == Response(500, ErrorBody(RegisterFailed))
            && t2 == t1 && Valid(t2)
            && |t2.rows| == |t.rows| + 1
  {
    var p1 := RegisterValidate(t, b1).pending;
    var (t1, r1) := RegisterCommit(t, p1, env1);
    assert t1.rows[|t.rows|].email == b1.email.value;
    assert HasEmail(t1, b2.email.value);
  }

  // ---------------------------------------------------------------------------
  // POST /api/login

  function Login(t: Table, b: LoginBody, env: Env): (r: Response)
    ensures !Truthy(b.email) || !Truthy(b.password) ==> r == Response(400, ErrorBody(CredentialsRequired))
    ensures Truthy(b.email) && Truthy(b.password) ==>
              (r.status == 200 <==>
                 exists u :: u in t.rows && u.email == b.email.value && RowWithEmail(t, b.email.value) == Some(u)
                             && env.crypto.compare(b.password.value, u.password))
    ensures Truthy(b.email) && Truthy(b.password) && r.status != 200 ==>
              r == Response(401, ErrorBody(InvalidCredentials))
    ensures r.status == 200 ==>
              var u := RowWithEmail(t, b.email.value).value;
              r.body == SessionBody(LoggedIn, env.crypto.sign(Claims(u.id, u.email, u.role, env.now, env.now + TokenLifetime), env.secret),
                                    PublicUser(u.id, u.email, u.firstName, u.lastName, u.role))
  {
    if !Truthy(b.email) || !Truthy(b.password) then Response(400, ErrorBody(CredentialsRequired))
    else match RowWithEmail(t, b.email.value)
      case None => Response(401, ErrorBody(InvalidCredentials))
      case Some(u) =>
        if !env.crypto.compare(b.password.value, u.password) then Response(401, ErrorBody(InvalidCredentials))
        else Response(200, SessionBody(LoggedIn, TokenFor(env, u.id, u.email, u.role), PublicView(u)))
  }

  /** An unknown email and a wrong password for a known one get the same reply. */
  lemma LoginFailuresIndistinguishable(t: Table, env: Env, unknown: string, known: string, wrong: string, pw: string)
    requires unknown != "" && known != "" && pw != "" && wrong != ""
    requires !HasEmail(t, unknown)
    requires RowWithEmail(t, known).Some? && !env.crypto.compare(wrong, RowWithEmail(t, known).value.password)
    ensures Login(t, LoginBody(Some(unknown), Some(pw)), env)
            == Login(t, LoginBody(Some(known), Some(wrong)), env)
            == Response(401, ErrorBody(InvalidCredentials))
  {
    assert RowWithEmail(t, unknown).None?;
  }

  /** A successful registration can log in at once with the same password, and
      the login token carries the new id, the email and role `user`. */
  lemma {:induction false} RegisterThenLogin(t: Table, b: RegisterBody, env: Env, later: Env)
    requires Valid(t) && Lawful(later.crypto) && later.crypto == env.crypto
    requires Register(t, b, env).1.status == 201
    ensures var t' := Register(t, b, env).0;
            var r := Login(t', LoginBody(b.email, b.password), later);
            && r.status == 200 && r.body.SessionBody?
            && r.body.token == TokenFor(later, t'.lastId, b.email.value, UserRole)
            && r.body.user == PublicUser(t'.lastId, b.email.value, b.firstName.value, b.lastName.value, UserRole)
  {
    var t' := Register(t, b, env).0;
    RowWithEmailFinds(t', |t.rows|);
  }

  // ---------------------------------------------------------------------------
  // authenticateToken

  /** `authHeader && authHeader.split(' ')[1]`, with a falsy result as `None`:
      the second space-separated segment, whatever the first one says. */
  function BearerToken(header: Field): (tok: Option<string>)
    ensures tok.Some? <==>
              header.Some? && |Split(header.value, ' ')| >= 2 && Split(header.value, ' ')[1] != ""
    ensures tok.Some? ==> tok.value != "" && ' ' !in tok.value
    ensures tok.Some? ==>
              header.Some? && exists parts :: |parts| >= 2 && ' ' !in parts[0]
                                              && Join(parts, ' ') == header.value && parts[1] == tok.value
  {
    if !Truthy(header) then None
    else
      var parts := Split(header.value, ' ');
      if |parts| < 2 || parts[1] == "" then None else Some(parts[1])
  }

  /** Any scheme word followed by one space and a space-free token yields that token. */
  lemma BearerTokenOfSchemeAndToken(scheme: string, token: string)
    requires ' ' !in scheme && ' ' !in token && token != ""
    ensures BearerToken(Some(scheme + " " + token)) == Some(token)
  {
    assert Join([scheme, token], ' ') == scheme + " " + token;
    SplitJoin([scheme, token], ' ');
  }

  datatype AuthOutcome = Proceed(claims: Claims) | Reject(response: Response)

  function AuthenticateToken(header: Field, env: Env): (r: AuthOutcome)
    ensures BearerToken(header).None? ==> r == Reject(Response(401, ErrorBody(TokenRequired)))
    ensures BearerToken(header).Some? ==>
              var verified := env.crypto.verify(BearerToken(header).value, env.secret, env.now);
              && (verified.None? ==> r == Reject(Response(403, ErrorBody(TokenRejected))))
              && (verified.Some? ==> r == Proceed(verified.value))
  {
    match BearerToken(header)
    case None => Reject(Response(401, ErrorBody(TokenRequired)))
    case Some(token) =>
      match env.crypto.verify(token, env.secret, env.now)
      case None => Reject(Response(403, ErrorBody(TokenRejected)))
      case Some(claims) => Proceed(claims)
  }

  /** A token the server signed is accepted with its own claims for 24 hours
      after issue and rejected with 403 from then on; the scheme word is ignored. */
  lemma {:induction false} AuthenticateIssuedToken(env: Env, scheme: string, cl: Claims)
    requires Lawful(env.crypto)
    requires ' ' !in scheme
    ensures var r := AuthenticateToken(Some(scheme + " " + env.crypto.sign(cl, env.secret)), env);
            && (env.now < cl.exp ==> r == Proceed(cl))
            && (env.now >= cl.exp ==> r == Reject(Response(403, ErrorBody(TokenRejected))))
  {
    BearerTokenOfSchemeAndToken(scheme, env.crypto.sign(cl, env.secret));
  }

  /** Whatever gets through is unexpired. */
  lemma AuthenticatedClaimsUnexpired(header: Field, env: Env)
    requires Lawful(env.crypto)
    ensures AuthenticateToken(header, env).Proceed? ==> env.now < AuthenticateToken(header, env).claims.exp
  {
  }

  // ---------------------------------------------------------------------------
  // GET /api/profile and GET /api/users

  function Profile(t: Table, header: Field, env: Env): (r: Response)
    ensures AuthenticateToken(header, env).Reject? ==> r == AuthenticateToken(header, env).response
    ensures AuthenticateToken(header, env).Proceed? ==>
              var id := AuthenticateToken(header, env).claims.userId;
              && (r.status == 200 <==> exists i :: 0 <= i < |t.rows| && t.rows[i].id == id)
              && (r.status != 200 ==> r == Response(404, ErrorBody(UserNotFound)))
              && (r.status == 200 ==> r.body.ProfileBody? && r.body.profile.id == id
                                      && exists u :: u in t.rows && r.body.profile == ProfileView(u))
  {
    match AuthenticateToken(header, env)
    case Reject(resp) => resp
    case Proceed(claims) =>
      match RowWithId(t, claims.userId)
      case None => Response(404, ErrorBody(UserNotFound))
      case Some(u) => Response(200, ProfileBody(ProfileView(u)))
  }

  /** The token a registration returns authenticates as the new user for the
      24 hours after it was issued. */
  lemma {:induction false} RegisterTokenAuthenticates(t: Table, b: RegisterBody, env: Env, later: Env)
    requires Lawful(env.crypto) && later.crypto == env.crypto && later.secret == env.secret
    requires env.now <= later.now < env.now + TokenLifetime
    requires Register(t, b, env).1.status == 201
    ensures var (t', r) := Register(t, b, env);
            AuthenticateToken(Some("Bearer " + r.body.token), later)
            == Proceed(Issue(t'.lastId, b.email.value, UserRole, env.now))
  {
    var (t', r) := Register(t, b, env);
    var cl := Issue(t'.lastId, b.email.value, UserRole, env.now);
    var tok := r.body.token;
    assert tok == later.crypto.sign(cl, later.secret);
    assert "Bearer" + " " + tok == "Bearer " + tok;
    AuthenticateIssuedToken(later, "Bearer", cl);
  }

  /** The token a registration returns opens the new user's own profile for
      the 24 hours after it was issued. */
  lemma {:induction false} RegisterThenProfile(t: Table, b: RegisterBody, env: Env, later: Env)
    requires Valid(t) && Lawful(env.crypto) && later.crypto == env.crypto && later.secret == env.secret
    requires env.now <= later.now < env.now + TokenLifetime
    requires Register(t, b, env).1.status == 201
    ensures var (t', r) := Register(t, b, env);
            Profile(t', Some("Bearer " + r.body.token), later)
            == Response(200, ProfileBody(ProfileUser(t'.lastId, b.email.value, b.firstName.value,
                                                     b.lastName.value, UserRole, env.now)))
  {
    var t' := Register(t, b, env).0;
    RegisterTokenAuthenticates(t, b, env, later);
    RowWithIdFinds(t', |t.rows|);
  }

  function ListProfiles(rows: seq<UserRow>): (r: seq<ProfileUser>)
    ensures |r| == |rows|
    ensures forall i :: 0 <= i < |rows| ==> r[i] == ProfileView(rows[i])
  {
    seq(|rows|, i requires 0 <= i < |rows| => ProfileView(rows[i]))
  }

  function Users(t: Table, header: Field, env: Env): (r: Response)
    ensures AuthenticateToken(header, env).Reject? ==> r == AuthenticateToken(header, env).response
    ensures AuthenticateToken(header, env).Proceed? && AuthenticateToken(header, env).claims.role != AdminRole ==>
              r == Response(403, ErrorBody(AdminRequired))
    ensures r.status == 200 <==>
              AuthenticateToken(header, env).Proceed? && AuthenticateToken(header, env).claims.role == AdminRole
    ensures r.status == 200 ==>
              && r.body.UsersBody? && |r.body.users| == |t.rows|
              && forall i :: 0 <= i < |t.rows| ==>
                   r.body.users[i] == ProfileUser(t.rows[i].id, t.rows[i].email, t.rows[i].firstName,
                                                  t.rows[i].lastName, t.rows[i].role, t.rows[i].createdAt)
  {
    match AuthenticateToken(header, env)
    case Reject(resp) => resp
    case Proceed(claims) =>
      if claims.role != AdminRole then Response(403, ErrorBody(AdminRequired))
      else Response(200, UsersBody(ListProfiles(t.rows)))
  }

  // ---------------------------------------------------------------------------
  // POST /api/forgot-password

  function ForgotPassword(t: Table, email: Field): (r: Response)
    ensures !Truthy(email) ==> r == Response(400, ErrorBody(EmailRequired))
    ensures Truthy(email) ==> r == Response(200, MessageBody(ResetAcknowledged))
  {
    if !Truthy(email) then Response(400, ErrorBody(EmailRequired))
    else if RowWithEmail(t, email.value).None? then Response(200, MessageBody(ResetAcknowledged))
    else Response(200, MessageBody(ResetAcknowledged))
  }

  /** The reply does not depend on which accounts exist. */
  lemma ForgotPasswordRevealsNothing(t1: Table, t2: Table, email: Field)
    ensures ForgotPassword(t1, email) == ForgotPassword(t2, email)
  {
  }

  // ---------------------------------------------------------------------------
  // Dispatch

  datatype Request =
    | RegisterRequest(registration: RegisterBody)
    | LoginRequest(credentials: LoginBody)
    | ProfileRequest(authorization: Field)
    | ForgotPasswordRequest(email: Field)
    | UsersRequest(authorization: Field)

  /** One request against the table. Only a successful registration writes. */
  function Handle(t: Table, req: Request, env: Env): (r: (Table, Response))
    ensures r.0 != t ==> req.RegisterRequest? && r.1.status == 201
    ensures r.0 != t ==> |r.0.rows| == |t.rows| + 1 && r.0.rows[..|t.rows|] == t.rows
    ensures Valid(t) ==> Valid(r.0)
  {
    match req
    case RegisterRequest(b) => Register(t, b, env)
    case LoginRequest(b) => (t, Login(t, b, env))
    case ProfileRequest(h) => (t, Profile(t, h, env))
    case ForgotPasswordRequest(e) => (t, ForgotPassword(t, e))
    case UsersRequest(h) => (t, Users(t, h, env))
  }

  /** A run of requests, each with its own environment. */
  function Run(t: Table, reqs: seq<(Request, Env)>): (r: Table)
    ensures Valid(t) ==> Valid(r)
    ensures |r.rows| >= |t.rows| && r.rows[..|t.rows|] == t.rows
    decreases |reqs|
  {
    if |reqs| == 0 then t
    else
      var t' := Handle(t, reqs[0].0, reqs[0].1).0;
      var r := Run(t', reqs[1..]);
      assert r.rows[..|t.rows|] == r.rows[..|t'.rows|][..|t.rows|];
      r
  }

  // ---------------------------------------------------------------------------
  // Startup: the default administrator

  /** `INSERT OR IGNORE` of the administrator row. With AUTOINCREMENT, SQLite
      draws the next id before the UNIQUE constraint is consulted, and IGNORE
      drops only the row: an ignored seed still uses up an id. */
  function SeedAdmin(t: Table, hashed: string, now: int): (r: Table)
    ensures r.lastId == t.lastId + 1
    ensures HasEmail(t, AdminEmail) ==> r.rows == t.rows
    ensures !HasEmail(t, AdminEmail) ==>
              r.rows == t.rows + [UserRow(r.lastId, AdminEmail, hashed, "Admin", "User", AdminRole, now)]
    ensures HasEmail(r, AdminEmail)
    ensures Valid(t) ==> Valid(r)
  {
    match Insert(t, AdminEmail, hashed, "Admin", "User", AdminRole, now)
    case Failure(_) => Table(t.rows, t.lastId + 1)
    case Success((t', _)) =>
      assert t'.rows[|t.rows|].email == AdminEmail;
      t'
  }

  /** Seeding again, with any fresh hash, keeps the rows but spends one id. */
  lemma {:induction false} SeedAdminAgain(t: Table, h1: string, h2: string, now1: int, now2: int)
    ensures var once := SeedAdmin(t, h1, now1);
            SeedAdmin(once, h2, now2) == Table(once.rows, once.lastId + 1)
  {
    assert HasEmail(SeedAdmin(t, h1, now1), AdminEmail);
  }

  /** From an empty table, two seeds and then a first registration: the
      registered row gets id 3, not 2. */
  lemma {:induction false} SeedTwiceThenInsert(h1: string, h2: string, now1: int, now2: int,
                                               email: string, password: string, first: string,
                                               last: string, now: int)
    requires email != AdminEmail
    ensures var t := SeedAdmin(SeedAdmin(EmptyTable, h1, now1), h2, now2);
            Insert(t, email, password, first, last, UserRole, now).Success?
            && Insert(t, email, password, first, last, UserRole, now).value.1 == 3
  {
    var once := SeedAdmin(EmptyTable, h1, now1);
    assert |once.rows| == 1 && once.rows[0].email == AdminEmail && once.lastId == 1;
    var t := SeedAdmin(once, h2, now2);
    assert t.rows == once.rows && t.lastId == 2;
    assert !HasEmail(t, email);
    var id := Insert(t, email, password, first, last, UserRole, now).value.1;
    assert id == t.lastId + 1;
  }

  /** The table at startup: empty, then seeded. */
  function Boot(env: Env): (t: Table)
    ensures Valid(t)
    ensures t.rows == [UserRow(1, AdminEmail, env.crypto.hash(AdminPassword, env.salt), "Admin", "User", AdminRole, env.now)]
  {
    SeedAdmin(EmptyTable, env.crypto.hash(AdminPassword, env.salt), env.now)
  }

  /** The seeded administrator logs in with `admin123` and receives a token
      for id 1 with role `admin`. */
  lemma {:induction false} AdminLogin(boot: Env, t: Table, login: Env)
    requires Lawful(login.crypto) && login.crypto == boot.crypto
    requires Valid(t) && |t.rows| >= 1 && t.rows[0] == Boot(boot).rows[0]
    ensures Login(t, LoginBody(Some(AdminEmail), Some(AdminPassword)), login)
            == Response(200, SessionBody(LoggedIn, TokenFor(login, 1, AdminEmail, AdminRole), PublicView(t.rows[0])))
  {
    RowWithEmailFinds(t, 0);
    var u := t.rows[0];
    assert u.password == login.crypto.hash(AdminPassword, boot.salt);
    assert login.crypto.compare(AdminPassword, u.password);
  }

  /** The seeded administrator logs in with `admin123` and, within 24 hours,
      that token lists every row of the table. */
  lemma {:induction false} AdminCanListUsers(boot: Env, t: Table, login: Env, later: Env)
    requires Lawful(login.crypto) && login.crypto == boot.crypto == later.crypto && login.secret == later.secret
    requires Valid(t) && |t.rows| >= 1 && t.rows[0] == Boot(boot).rows[0]
    requires login.now <= later.now < login.now + TokenLifetime
    ensures var r := Login(t, LoginBody(Some(AdminEmail), Some(AdminPassword)), login);
            && r.status == 200 && r.body.SessionBody?
            && var u := Users(t, Some("Bearer " + r.body.token), later);
               u.status == 200 && u.body == UsersBody(ListProfiles(t.rows))
  {
    AdminLogin(boot, t, login);
    var tok := TokenFor(login, 1, AdminEmail, AdminRole);
    var cl := Issue(1, AdminEmail, AdminRole, login.now);
    assert tok == later.crypto.sign(cl, later.secret);
    assert "Bearer" + " " + tok == "Bearer " + tok;
    AuthenticateIssuedToken(later, "Bearer", cl);
    var header: Field := Some("Bearer " + tok);
    assert AuthenticateToken(header, later) == Proceed(cl);
    assert Users(t, header, later) == Response(200, UsersBody(ListProfiles(t.rows)));
  }
}
