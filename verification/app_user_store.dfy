/**
  The PostgreSQL `AppUser` store of `server/database.js`, reduced to the row
  set its four `userOperations` read and write. Each operation's meaning is
  fixed by its SQL: the WHERE clause selects the rows, the RETURNING or
  SELECT list fixes the returned columns, and the table definition supplies
  the UNIQUE constraint, the SERIAL id, the VARCHAR(255) limits and the
  `is_active DEFAULT TRUE`.
 */
module AppUserStore {
  import opened Wrappers

  /** `VARCHAR(255)` on email, password_hash and name. */
  const MaxLength: int := 255

  /** The range of PostgreSQL's 4-byte `integer`, the type of `id SERIAL`. */
  const MinInt4: int := -0x8000_0000
  const MaxInt4: int := 0x7fff_ffff

  datatype AppUser = AppUser(
    id: int, email: string, passwordHash: string, name: string,
    createdAt: int, updatedAt: int, isActive: bool)

  /** `RETURNING id, email, name, created_at, is_active` and the SELECT list
      of `getUserById`: every column except `password_hash` and `updated_at`. */
  datatype UserSummary = UserSummary(id: int, email: string, name: string, createdAt: int, isActive: bool)

  /** The SELECT list of `findUserByEmail`: every column except `updated_at`. */
  datatype UserWithHash = UserWithHash(
    id: int, email: string, passwordHash: string, name: string, createdAt: int, isActive: bool)

  /** The rows, and the next value of the SERIAL sequence behind `id`. */
  datatype Store = Store(rows: seq<AppUser>, nextVal: int)

  /** `email … UNIQUE`, `id SERIAL PRIMARY KEY`: ids and emails are distinct,
      every id was drawn from the sequence before its current value, and the
      sequence never passes the largest `integer`. */
  ghost predicate Valid(s: Store) {
    && 1 <= s.nextVal <= MaxInt4 + 1
    && (forall i, j :: 0 <= i < j < |s.rows| ==>
          s.rows[i].email != s.rows[j].email && s.rows[i].id != s.rows[j].id)
    && (forall i :: 0 <= i < |s.rows| ==> 1 <= s.rows[i].id < s.nextVal)
  }

  const EmptyStore: Store := Store([], 1)

  /** SQLSTATE codes of the driver errors the operations rethrow unchanged. */
  const StringDataRightTruncation: string := "22001"
  const SequenceGeneratorLimitExceeded: string := "2200H"
  const NumericValueOutOfRange: string := "22003"

  /** What the operations throw: `createUser`'s own `Error('Email already
      exists')` for a unique violation (SQLSTATE 23505), and any other driver
      error rethrown as is. */
  datatype Thrown = EmailAlreadyExists | DriverError(sqlState: string)

  /** Assigning `x` to a `VARCHAR(255)` column: a longer value is refused
      unless every character past the 255th is a space, in which case it is
      cut to 255 characters. */
  function StoreVarchar(x: string): (r: Option<string>)
    ensures |x| <= MaxLength ==> r == Some(x)
    ensures r.Some? <==> |x| <= MaxLength || forall i :: MaxLength <= i < |x| ==> x[i] == ' '
    ensures r.Some? ==>
              && |r.value| <= MaxLength && r.value == x[..|r.value|]
              && forall i :: |r.value| <= i < |x| ==> x[i] == ' '
  {
    if |x| <= MaxLength then Some(x)
    else if forall i :: MaxLength <= i < |x| ==> x[i] == ' ' then Some(x[..MaxLength])
    else None
  }

  /** A stored value is stored again unchanged. */
  lemma StoreVarcharIdempotent(x: string)
    requires StoreVarchar(x).Some?
    ensures StoreVarchar(StoreVarchar(x).value) == StoreVarchar(x)
  {
  }

  /** 255 characters and a trailing space are kept as the 255 characters;
      255 characters and any other character are refused. */
  lemma TrailingSpaceIsCut(c: char)
    ensures var x := seq(MaxLength, _ => 'a');
            && StoreVarchar(x + [' ']) == Some(x)
            && (c != ' ' ==> StoreVarchar(x + [c]).None?)
  {
    var x := seq(MaxLength, _ => 'a');
    assert (x + [' '])[..MaxLength] == x;
    assert (x + [c])[MaxLength] == c;
  }

  /** All three supplied values can be assigned to their columns. */
  predicate Fits(email: string, passwordHash: string, name: string) {
    StoreVarchar(email).Some? && StoreVarchar(passwordHash).Some? && StoreVarchar(name).Some?
  }

  function Summary(u: AppUser): UserSummary {
    UserSummary(u.id, u.email, u.name, u.createdAt, u.isActive)
  }

  function WithHash(u: AppUser): UserWithHash {
    UserWithHash(u.id, u.email, u.passwordHash, u.name, u.createdAt, u.isActive)
  }

  predicate HasEmail(s: Store, email: string) {
    exists i :: 0 <= i < |s.rows| && s.rows[i].email == email
  }

  /** `INSERT … RETURNING …`. The length coercions of the three parameters are
      evaluated when the statement is planned, before the `id` default draws
      from the sequence; a drawn value is spent even when the UNIQUE
      constraint then refuses the row. The rows are untouched on every failure. */
  function CreateUser(s: Store, email: string, passwordHash: string, name: string, now: int)
    : (r: (Store, Result<UserSummary, Thrown>))
    ensures r.1 == Failure(DriverError(StringDataRightTruncation)) <==> !Fits(email, passwordHash, name)
    ensures r.1 == Failure(DriverError(SequenceGeneratorLimitExceeded)) <==>
              Fits(email, passwordHash, name) && s.nextVal > MaxInt4
    ensures r.1 == Failure(EmailAlreadyExists) <==>
              Fits(email, passwordHash, name) && s.nextVal <= MaxInt4 && HasEmail(s, StoreVarchar(email).value)
    ensures r.1.Success? <==>
              Fits(email, passwordHash, name) && s.nextVal <= MaxInt4 && !HasEmail(s, StoreVarchar(email).value)
    ensures r.1.Failure? ==> r.0.rows == s.rows
    ensures r.0.nextVal == if Fits(email, passwordHash, name) && s.nextVal <= MaxInt4 then s.nextVal + 1 else s.nextVal
    ensures r.1.Success? ==>
              var (e, h, n) := (StoreVarchar(email).value, StoreVarchar(passwordHash).value, StoreVarchar(name).value);
              && r.0.rows == s.rows + [AppUser(s.nextVal, e, h, n, now, now, true)]
              && r.1.value == UserSummary(s.nextVal, e, n, now, true)
    ensures Valid(s) ==> Valid(r.0)
    ensures Valid(s) && r.1.Success? ==> forall i :: 0 <= i < |s.rows| ==> s.rows[i].id != r.1.value.id
  {
    match (StoreVarchar(email), StoreVarchar(passwordHash), StoreVarchar(name))
    case (Some(e), Some(h), Some(n)) =>
      if s.nextVal > MaxInt4 then (s, Failure(DriverError(SequenceGeneratorLimitExceeded)))
      else
        var id := s.nextVal;
        if FindFirst(s.rows, (u: AppUser) => u.email == e).Some? then
          (Store(s.rows, s.nextVal + 1), Failure(EmailAlreadyExists))
        else
          var row := AppUser(id, e, h, n, now, now, true);
          (Store(s.rows + [row], s.nextVal + 1), Success(Summary(row)))
    case _ => (s, Failure(DriverError(StringDataRightTruncation)))
  }

  /** `SELECT … WHERE email = $1 AND is_active = TRUE`, first row or `null`;
      `password_hash` is included, `updated_at` is not. */
  function FindUserByEmail(s: Store, email: string): (r: Option<UserWithHash>)
    ensures r.Some? ==> exists u :: u in s.rows && u.email == email && u.isActive && r.value == WithHash(u)
    ensures r.None? <==> forall i :: 0 <= i < |s.rows| ==> !(s.rows[i].email == email && s.rows[i].isActive)
  {
    match FindFirst(s.rows, (u: AppUser) => u.email == email && u.isActive)
    case None => None
    case Some(u) => Some(WithHash(u))
  }

  /** `SELECT COUNT(*) … WHERE email = $1`, active or not. */
  function CountEmail(rows: seq<AppUser>, email: string): (n: nat)
    ensures n <= |rows|
    ensures n == 0 <==> forall i :: 0 <= i < |rows| ==> rows[i].email != email
  {
    if |rows| == 0 then 0
    else
      var rest := CountEmail(rows[1..], email);
      assert forall i :: 1 <= i < |rows| ==> rows[i] == rows[1..][i - 1];
      (if rows[0].email == email then 1 else 0) + rest
  }

  /** `parseInt(count) > 0`. */
  function EmailExists(s: Store, email: string): (b: bool)
    ensures b <==> HasEmail(s, email)
  {
    CountEmail(s.rows, email) > 0
  }

  /** `SELECT id, email, name, created_at, is_active … WHERE id = $1 AND is_active = TRUE`.
      The parameter takes the type of `id`, so an id outside the `integer`
      range is refused when it is bound, and the error is rethrown. */
  function GetUserById(s: Store, id: int): (r: Result<Option<UserSummary>, Thrown>)
    ensures r.Failure? <==> !(MinInt4 <= id <= MaxInt4)
    ensures r.Failure? ==> r.error == DriverError(NumericValueOutOfRange)
    ensures r.Success? && r.value.Some? ==>
              exists u :: u in s.rows && u.id == id && u.isActive && r.value.value == Summary(u)
    ensures r.Success? ==>
              (r.value.None? <==> forall i :: 0 <= i < |s.rows| ==> !(s.rows[i].id == id && s.rows[i].isActive))
  {
    if !(MinInt4 <= id <= MaxInt4) then Failure(DriverError(NumericValueOutOfRange))
    else match FindFirst(s.rows, (u: AppUser) => u.id == id && u.isActive)
      case None => Success(None)
      case Some(u) => Success(Some(Summary(u)))
  }

  /** An active lookup hit means the email exists; the converse fails only for
      inactive rows. */
  lemma FoundEmailExists(s: Store, email: string)
    ensures FindUserByEmail(s, email).Some? ==> EmailExists(s, email)
    ensures EmailExists(s, email) && FindUserByEmail(s, email).None? ==>
              forall i :: 0 <= i < |s.rows| && s.rows[i].email == email ==> !s.rows[i].isActive
  {
  }

  /** A fresh account is immediately found by email and by id, with the hash
      only on the by-email path. */
  lemma {:induction false} CreateThenLookup(s: Store, email: string, passwordHash: string, name: string, now: int)
    requires Valid(s)
    requires CreateUser(s, email, passwordHash, name, now).1.Success?
    ensures var (s', r) := CreateUser(s, email, passwordHash, name, now);
            && FindUserByEmail(s', r.value.email)
               == Some(UserWithHash(r.value.id, r.value.email, StoreVarchar(passwordHash).value, r.value.name, now, true))
            && GetUserById(s', r.value.id) == Success(Some(r.value))
            && EmailExists(s', r.value.email)
  {
    var (s', r) := CreateUser(s, email, passwordHash, name, now);
    var k := |s.rows|;
    assert s'.rows[k].email == r.value.email && s'.rows[k].isActive;
    FindFirstUnique(s'.rows, (u: AppUser) => u.email == r.value.email && u.isActive, k);
    FindFirstUnique(s'.rows, (u: AppUser) => u.id == r.value.id && u.isActive, k);
  }

  /** The second account for one email is refused and leaves the rows as they
      were; it is refused as a duplicate when its other values fit and the
      sequence has a value left. */
  lemma {:induction false} CreateTwiceFails(s: Store, email: string, h1: string, h2: string,
                                            n1: string, n2: string, now1: int, now2: int)
    requires CreateUser(s, email, h1, n1, now1).1.Success?
    ensures var s1 := CreateUser(s, email, h1, n1, now1).0;
            var (s2, r2) := CreateUser(s1, email, h2, n2, now2);
            && r2.Failure? && s2.rows == s1.rows
            && (Fits(email, h2, n2) && s.nextVal < MaxInt4 ==> r2 == Failure(EmailAlreadyExists))
  {
    var s1 := CreateUser(s, email, h1, n1, now1).0;
    assert s1.rows[|s.rows|].email == StoreVarchar(email).value;
  }

  // ---------------------------------------------------------------------------
  // The four operations as one transition

  datatype Op =
    | CreateUserOp(email: string, passwordHash: string, name: string)
    | FindUserByEmailOp(email: string)
    | EmailExistsOp(email: string)
    | GetUserByIdOp(id: int)

  datatype Outcome =
    | Created(created: Result<UserSummary, Thrown>)
    | FoundRow(row: Option<UserWithHash>)
    | Exists(exists_: bool)
    | FoundSummary(summary: Result<Option<UserSummary>, Thrown>)

  /** Only `createUser` writes; the three lookups leave the store as it was. */
  function Apply(s: Store, op: Op, now: int): (r: (Store, Outcome))
    ensures !op.CreateUserOp? ==> r.0 == s
    ensures r.0.rows == s.rows || (op.CreateUserOp? && r.1.Created? && r.1.created.Success?)
    ensures Valid(s) ==> Valid(r.0)
  {
    match op
    case CreateUserOp(e, h, n) =>
      var (s', res) := CreateUser(s, e, h, n, now);
      (s', Created(res))
    case FindUserByEmailOp(e) => (s, FoundRow(FindUserByEmail(s, e)))
    case EmailExistsOp(e) => (s, Exists(EmailExists(s, e)))
    case GetUserByIdOp(id) => (s, FoundSummary(GetUserById(s, id)))
  }

  /** Any run of operations only appends rows and never moves the sequence
      back, so a valid store stays valid and no id is handed out twice. */
  function Replay(s: Store, ops: seq<Op>, now: int): (r: Store)
    ensures Valid(s) ==> Valid(r)
    ensures r.nextVal >= s.nextVal
    ensures |r.rows| >= |s.rows| && r.rows[..|s.rows|] == s.rows
    decreases |ops|
  {
    if |ops| == 0 then s
    else
      var s' := Apply(s, ops[0], now).0;
      var r := Replay(s', ops[1..], now);
      assert r.rows[..|s.rows|] == r.rows[..|s'.rows|][..|s.rows|];
      r
  }
}
