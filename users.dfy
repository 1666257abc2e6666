/** The user store of src/models/user.js over the `users` table. */
module Users {
  import opened Basics
  import opened Tables

  /**
   * bcrypt as an opaque pair: `hash(password, salt)` stands for `bcrypt.hash` with a salt from
   * `bcrypt.genSalt(10)`, and `compare` for `bcrypt.compare`.
   */
  datatype PasswordScheme = PasswordScheme(hash: (string, string) -> Digest, compare: (string, Digest) -> bool)

  /** The one property of bcrypt the model relies on: a password matches any hash made from it. */
  ghost predicate HashSound(scheme: PasswordScheme) {
    forall password, salt :: scheme.compare(password, scheme.hash(password, salt))
  }

  /** The column a lookup filters on. */
  datatype Key = ByUsername(username: string) | ByEmail(email: string) | ById(id: int)

  predicate Matches(row: UserRow, key: Key) {
    match key
    case ByUsername(name) => row.username == name
    case ByEmail(address) => row.email == address
    case ById(id) => row.id == id
  }

  /** `SELECT ... WHERE <key> = $1` followed by `result.rows[0] || null`. */
  function FindFirst(users: seq<UserRow>, key: Key): (r: Option<UserRow>)
    ensures r.Some? ==> r.value in users && Matches(r.value, key)
    ensures r.None? <==> forall row :: row in users ==> !Matches(row, key)
  {
    if |users| == 0 then None
    else if Matches(users[0], key) then Some(users[0])
    else FindFirst(users[1..], key)
  }

  /** On a table where no two rows match a key, a lookup finds the row that does. */
  lemma {:induction false} FindFirstUnique(users: seq<UserRow>, key: Key, row: UserRow)
    requires row in users && Matches(row, key)
    requires forall i, j :: 0 <= i < j < |users| && Matches(users[i], key) ==> !Matches(users[j], key)
    ensures FindFirst(users, key) == Some(row)
  {
    if users[0] != row {
      var k :| 0 <= k < |users| && users[k] == row;
      assert !Matches(users[0], key);
      FindFirstUnique(users[1..], key, row);
    }
  }

  /** Appending a row to a table with no match for a key: the lookup finds that row, if it matches. */
  lemma {:induction false} FindFirstAppend(users: seq<UserRow>, row: UserRow, key: Key)
    requires forall u :: u in users ==> !Matches(u, key)
    ensures FindFirst(users + [row], key) == if Matches(row, key) then Some(row) else None
  {
    if |users| > 0 {
      assert (users + [row])[1..] == users[1..] + [row];
      FindFirstAppend(users[1..], row, key);
    }
  }

  /** `findByUsername`: the full row, hash included, for that username, or null. */
  function FindByUsername(users: seq<UserRow>, username: string): (r: Option<UserRow>)
    ensures r.Some? ==> r.value in users && r.value.username == username
    ensures r.None? <==> forall row :: row in users ==> row.username != username
  {
    FindFirst(users, ByUsername(username))
  }

  /** `findByEmail`: the full row for that email, or null. */
  function FindByEmail(users: seq<UserRow>, email: string): (r: Option<UserRow>)
    ensures r.Some? ==> r.value in users && r.value.email == email
    ensures r.None? <==> forall row :: row in users ==> row.email != email
  {
    FindFirst(users, ByEmail(email))
  }

  /** `findById`: the row with that id, without its password hash, or null. */
  function FindById(users: seq<UserRow>, id: int): (r: Option<UserInfo>)
    ensures r.Some? ==> exists row :: row in users && row.id == id && r.value == Public(row)
    ensures r.None? <==> forall row :: row in users ==> row.id != id
  {
    match FindFirst(users, ById(id))
    case None => None
    case Some(row) => Some(Public(row))
  }

  /** On a valid table, `findById` of a stored row's id returns that row without its hash. */
  lemma FindByIdOfRow(users: seq<UserRow>, row: UserRow)
    requires DistinctUsers(users)
    requires row in users
    ensures FindById(users, row.id) == Some(Public(row))
  {
    FindFirstUnique(users, ById(row.id), row);
  }

  /** `verifyPassword`: delegated to `bcrypt.compare`, so with a sound bcrypt it accepts a hash made from the password. */
  function VerifyPassword(scheme: PasswordScheme, password: string, hashed: Digest): (ok: bool)
    ensures HashSound(scheme) && (exists salt :: hashed == scheme.hash(password, salt)) ==> ok
  {
    scheme.compare(password, hashed)
  }

  /**
   * The `INSERT INTO users ... RETURNING id, username, email, created_at` of `create`, given the
   * hash to store. Only the UNIQUE constraints on `username` and `email` can reject it.
   */
  function InsertUser(s: Store, username: string, email: string, hashed: Digest): (r: Step<Result<UserInfo, DbError>>)
    ensures r.result.Err? <==> FindByUsername(s.users, username).Some? || FindByEmail(s.users, email).Some?
    ensures r.result.Err? ==> r.result.error == UniqueViolation && r.store == s
    ensures r.result.Ok? ==>
      var row := UserRow(s.nextUserId, username, email, hashed, s.clock + 1);
      && r.result.value == Public(row)
      && r.store == s.(users := s.users + [row], clock := s.clock + 1, nextUserId := s.nextUserId + 1)
  {
    if FindByUsername(s.users, username).Some? || FindByEmail(s.users, email).Some? then
      Step(Err(UniqueViolation), s)
    else
      var row := UserRow(s.nextUserId, username, email, hashed, s.clock + 1);
      Step(Ok(Public(row)), s.(users := s.users + [row], clock := s.clock + 1, nextUserId := s.nextUserId + 1))
  }

  /** The insert keeps the schema consistent: the new row's id, username and email are fresh. */
  lemma InsertUserKeepsConsistent(s: Store, username: string, email: string, hashed: Digest)
    requires Consistent(s)
    ensures Consistent(InsertUser(s, username, email, hashed).store)
  {
    var r := InsertUser(s, username, email, hashed);
    if r.result.Ok? {
      var row := UserRow(s.nextUserId, username, email, hashed, s.clock + 1);
      var users' := s.users + [row];
      forall i | 0 <= i < |s.conversations|
        ensures HasUser(users', s.conversations[i].userId)
      {
        assert HasUser(s.users, s.conversations[i].userId);
        var k :| 0 <= k < |s.users| && s.users[k].id == s.conversations[i].userId;
        assert users'[k] == s.users[k];
      }
      forall i, j | 0 <= i < j < |users'|
        ensures users'[i].id < users'[j].id && users'[i].username != users'[j].username && users'[i].email != users'[j].email
      {
        if j == |s.users| {
          assert users'[i] in s.users;
        }
      }
    }
  }

  /**
   * A successful insert is found again by all three lookups, and `findById` returns exactly the
   * row `create` returned.
   */
  lemma InsertedUserFound(s: Store, username: string, email: string, hashed: Digest)
    requires Consistent(s)
    requires InsertUser(s, username, email, hashed).result.Ok?
    ensures var r := InsertUser(s, username, email, hashed);
      var row := UserRow(s.nextUserId, username, email, hashed, s.clock + 1);
      && FindByUsername(r.store.users, username) == Some(row)
      && FindByEmail(r.store.users, email) == Some(row)
      && FindById(r.store.users, r.result.value.id) == Some(r.result.value)
  {
    var row := UserRow(s.nextUserId, username, email, hashed, s.clock + 1);
    assert forall u :: u in s.users ==> u.id != row.id by {
      forall u | u in s.users ensures u.id != row.id {
        var k :| 0 <= k < |s.users| && s.users[k] == u;
      }
    }
    FindFirstAppend(s.users, row, ByUsername(username));
    FindFirstAppend(s.users, row, ByEmail(email));
    FindFirstAppend(s.users, row, ById(row.id));
  }

  /**
   * With a sound bcrypt, the hash `create` stored accepts the password it was made from, so the
   * new user can log in with it at once.
   */
  lemma CreatedUserVerifies(scheme: PasswordScheme, s: Store, username: string, email: string, password: string, salt: string)
    requires HashSound(scheme)
    requires Consistent(s)
    requires InsertUser(s, username, email, scheme.hash(password, salt)).result.Ok?
    ensures var users := InsertUser(s, username, email, scheme.hash(password, salt)).store.users;
      && FindByUsername(users, username).Some?
      && VerifyPassword(scheme, password, FindByUsername(users, username).value.password)
  {
    InsertedUserFound(s, username, email, scheme.hash(password, salt));
  }

  /**
   * `create`: hashes the password with a fresh salt and inserts the row, returning it without the
   * hash. The method itself checks nothing; the table's UNIQUE constraints do.
   */
  method Create(db: Database, scheme: PasswordScheme, username: string, email: string, password: string, salt: string)
    returns (r: Result<UserInfo, DbError>)
    requires db.Valid()
    modifies db
    ensures Step(r, db.store) == InsertUser(old(db.store), username, email, scheme.hash(password, salt))
    ensures db.Valid()
  {
    var hashed := scheme.hash(password, salt);
    var step := InsertUser(db.store, username, email, hashed);
    InsertUserKeepsConsistent(db.store, username, email, hashed);
    db.store := step.store;
    r := step.result;
  }
}
