/**
 * The account handlers of src/routes/user/userCtrl.js. The request body fields are `Option`s
 * (absent or present) and are checked for JavaScript truthiness; bcrypt's salt and the JWT clock
 * are parameters.
 */
module UserController {
  import opened Basics
  import opened Tables
  import opened Users
  import opened Http
  import opened Auth

  const FIELDS_REQUIRED := "Username, email, and password are required"
  const USERNAME_EXISTS := "Username already exists"
  const EMAIL_EXISTS := "Email already exists"
  const CREDENTIALS_REQUIRED := "Username and password are required"
  const INVALID_LOGIN := "Invalid username or password"

  // ---------------------------------------------------------------- register

  /**
   * What `register` answers on store `s`, and the store after it: a 400 or a 201, and only a 201
   * adds a row.
   */
  function RegisterOutcome(s: Store, scheme: PasswordScheme, ts: TokenScheme, username: Option<string>,
                           email: Option<string>, password: Option<string>, salt: string, now: nat): (r: Step<Response>)
    ensures r.result.Reply? ==> r.result.status == 400 || r.result.status == 201
    ensures !(r.result.Reply? && r.result.status == 201) ==> r.store == s
    ensures r.result.Reply? && r.result.status == 201 ==> |r.store.users| == |s.users| + 1
  {
    if !Truthy(username) || !Truthy(email) || !Truthy(password) then Step(Fail(400, FIELDS_REQUIRED), s)
    else if FindByUsername(s.users, username.value).Some? then Step(Fail(400, USERNAME_EXISTS), s)
    else if FindByEmail(s.users, email.value).Some? then Step(Fail(400, EMAIL_EXISTS), s)
    else
      var created := InsertUser(s, username.value, email.value, scheme.hash(password.value, salt));
      match created.result
      case Err(error) => Step(Forwarded(DatabaseFault(error)), created.store)
      case Ok(user) => Step(Done(201, SessionData(user, GenerateToken(ts, user, now))), created.store)
  }

  /** `register`: validates, checks both unique columns, creates the user and signs a token for it. */
  method Register(db: Database, scheme: PasswordScheme, ts: TokenScheme, username: Option<string>,
                  email: Option<string>, password: Option<string>, salt: string, now: nat)
    returns (response: Response)
    requires db.Valid()
    modifies db
    ensures Step(response, db.store) == RegisterOutcome(old(db.store), scheme, ts, username, email, password, salt, now)
    ensures db.Valid()
  {
    if !Truthy(username) || !Truthy(email) || !Truthy(password) {
      return Fail(400, FIELDS_REQUIRED);
    }
    var existingUsername := FindByUsername(db.store.users, username.value);
    if existingUsername.Some? {
      return Fail(400, USERNAME_EXISTS);
    }
    var existingEmail := FindByEmail(db.store.users, email.value);
    if existingEmail.Some? {
      return Fail(400, EMAIL_EXISTS);
    }
    var created := Create(db, scheme, username.value, email.value, password.value, salt);
    match created
    case Err(error) =>
      response := Forwarded(DatabaseFault(error));
    case Ok(user) =>
      var token := GenerateToken(ts, user, now);
      response := Done(201, SessionData(user, token));
  }

  /**
   * Each refusal of `register`, in the order the checks run; a refused registration changes
   * nothing. The email is only looked at once the username is known to be free.
   */
  lemma RegisterRefusals(s: Store, scheme: PasswordScheme, ts: TokenScheme, username: Option<string>,
                         email: Option<string>, password: Option<string>, salt: string, now: nat)
    ensures var r := RegisterOutcome(s, scheme, ts, username, email, password, salt, now);
      && (!Truthy(username) || !Truthy(email) || !Truthy(password) ==> r == Step(Fail(400, FIELDS_REQUIRED), s))
      && ((Truthy(username) && Truthy(email) && Truthy(password)
           && (exists row :: row in s.users && row.username == username.value))
          ==> r == Step(Fail(400, USERNAME_EXISTS), s))
      && ((Truthy(username) && Truthy(email) && Truthy(password)
           && (forall row :: row in s.users ==> row.username != username.value)
           && (exists row :: row in s.users && row.email == email.value))
          ==> r == Step(Fail(400, EMAIL_EXISTS), s))
  {
  }

  /**
   * `register` answers 201 exactly when all three fields are given and neither the username nor
   * the email is taken; it then returns the stored user without its hash and a token for it.
   */
  lemma RegisterSucceedsIff(s: Store, scheme: PasswordScheme, ts: TokenScheme, username: Option<string>,
                            email: Option<string>, password: Option<string>, salt: string, now: nat)
    ensures var r := RegisterOutcome(s, scheme, ts, username, email, password, salt, now);
      && (r.result.Reply? && r.result.status == 201 <==>
            Truthy(username) && Truthy(email) && Truthy(password)
            && (forall row :: row in s.users ==> row.username != username.value && row.email != email.value))
      && (r.result.Reply? && r.result.status == 201 ==>
            var row := UserRow(s.nextUserId, username.value, email.value, scheme.hash(password.value, salt), s.clock + 1);
            && r.result == Done(201, SessionData(Public(row), GenerateToken(ts, Public(row), now)))
            && r.store.users == s.users + [row])
  {
  }

  // ---------------------------------------------------------------- login

  /** What `login` answers against the `users` table: always a reply, and a success only with 200. */
  function LoginOutcome(users: seq<UserRow>, scheme: PasswordScheme, ts: TokenScheme, username: Option<string>,
                        password: Option<string>, now: nat): (r: Response)
    ensures r.Reply?
    ensures r.status == 200 || r.status == 400 || r.status == 401
    ensures r.success <==> r.status == 200
  {
    if !Truthy(username) || !Truthy(password) then Fail(400, CREDENTIALS_REQUIRED)
    else
      match FindByUsername(users, username.value)
      case None => Fail(401, INVALID_LOGIN)
      case Some(row) =>
        if !VerifyPassword(scheme, password.value, row.password) then Fail(401, INVALID_LOGIN)
        else Done(200, SessionData(Public(row), GenerateToken(ts, Public(row), now)))
  }

  /** `login`: validates, looks the user up, checks the password and signs a token. */
  method Login(db: Database, scheme: PasswordScheme, ts: TokenScheme, username: Option<string>,
               password: Option<string>, now: nat) returns (response: Response)
    ensures response == LoginOutcome(db.store.users, scheme, ts, username, password, now)
  {
    if !Truthy(username) || !Truthy(password) {
      return Fail(400, CREDENTIALS_REQUIRED);
    }
    var user := FindByUsername(db.store.users, username.value);
    if user.None? {
      return Fail(401, INVALID_LOGIN);
    }
    var isPasswordValid := VerifyPassword(scheme, password.value, user.value.password);
    if !isPasswordValid {
      return Fail(401, INVALID_LOGIN);
    }
    var token := GenerateToken(ts, Public(user.value), now);
    response := Done(200, SessionData(Public(user.value), token));
  }

  /**
   * With both fields given, `login` succeeds exactly when the user exists and the password matches
   * its hash, and otherwise gives the same 401, so an unknown username and a wrong password cannot
   * be told apart.
   */
  lemma LoginSucceedsIff(users: seq<UserRow>, scheme: PasswordScheme, ts: TokenScheme, username: Option<string>,
                         password: Option<string>, now: nat)
    requires DistinctUsers(users)
    requires Truthy(username) && Truthy(password)
    ensures var r := LoginOutcome(users, scheme, ts, username, password, now);
      && (r.Reply? && r.status == 200 <==>
            exists row :: row in users && row.username == username.value && VerifyPassword(scheme, password.value, row.password))
      && (!(r.Reply? && r.status == 200) ==> r == Fail(401, INVALID_LOGIN))
  {
    var found := FindByUsername(users, username.value);
    if row :| row in users && row.username == username.value && VerifyPassword(scheme, password.value, row.password) {
      FindFirstUnique(users, ByUsername(username.value), row);
    }
  }

  /**
   * A missing field is refused with 400 before any lookup, and a successful login returns the row
   * found for the username, without its hash, together with a token for it.
   */
  lemma LoginAnswers(users: seq<UserRow>, scheme: PasswordScheme, ts: TokenScheme, username: Option<string>,
                     password: Option<string>, now: nat)
    ensures var r := LoginOutcome(users, scheme, ts, username, password, now);
      && (!Truthy(username) || !Truthy(password) ==> r == Fail(400, CREDENTIALS_REQUIRED))
      && (r.status == 200 ==>
            && Truthy(username) && Truthy(password)
            && FindByUsername(users, username.value).Some?
            && var row := FindByUsername(users, username.value).value;
            && VerifyPassword(scheme, password.value, row.password)
            && r == Done(200, SessionData(Public(row), GenerateToken(ts, Public(row), now))))
  {
  }

  /**
   * With a sound bcrypt, the credentials a registration accepted log in at once, as the user the
   * registration returned.
   */
  lemma RegisterThenLogin(s: Store, scheme: PasswordScheme, ts: TokenScheme, username: string, email: string,
                          password: string, salt: string, now: nat, later: nat)
    requires HashSound(scheme)
    requires Consistent(s)
    requires RegisterOutcome(s, scheme, ts, Some(username), Some(email), Some(password), salt, now).result.Reply?
    requires RegisterOutcome(s, scheme, ts, Some(username), Some(email), Some(password), salt, now).result.status == 201
    ensures var r := RegisterOutcome(s, scheme, ts, Some(username), Some(email), Some(password), salt, now);
      var user := r.result.data.user;
      LoginOutcome(r.store.users, scheme, ts, Some(username), Some(password), later)
      == Done(200, SessionData(user, GenerateToken(ts, user, later)))
  {
    var hashed := scheme.hash(password, salt);
    CreatedUserVerifies(scheme, s, username, email, password, salt);
    InsertedUserFound(s, username, email, hashed);
  }

  // ---------------------------------------------------------------- profile

  /** `getProfile`: answers 200 with the user `authenticate` attached to the request. */
  function GetProfile(user: UserInfo): (r: Response)
    ensures r.Reply? && r.success && r.status == 200
    ensures r.data.ProfileData? && r.data.user == user
  {
    Done(200, ProfileData(user))
  }

  /**
   * The token a registration returns, presented before it expires, passes `authenticate` as the
   * new user, and `getProfile` then answers with that user.
   */
  lemma RegisteredTokenOpensProfile(s: Store, scheme: PasswordScheme, ts: TokenScheme, username: string,
                                    email: string, password: string, salt: string, now: nat, later: nat)
    requires TokenSound(ts)
    requires Consistent(s)
    requires RegisterOutcome(s, scheme, ts, Some(username), Some(email), Some(password), salt, now).result.Reply?
    requires RegisterOutcome(s, scheme, ts, Some(username), Some(email), Some(password), salt, now).result.status == 201
    requires later < now + TOKEN_LIFETIME
    ensures var r := RegisterOutcome(s, scheme, ts, Some(username), Some(email), Some(password), salt, now);
      var d := Gate(ts, r.store.users, Some(BEARER + r.result.data.token), later);
      && d == Proceed(r.result.data.user)
      && GetProfile(d.user) == Done(200, ProfileData(r.result.data.user))
  {
    var hashed := scheme.hash(password, salt);
    var created := InsertUser(s, username, email, hashed);
    var row := UserRow(s.nextUserId, username, email, hashed, s.clock + 1);
    InsertUserKeepsConsistent(s, username, email, hashed);
    assert row in created.store.users;
    IssuedTokenAuthenticates(ts, created.store.users, row, now, later);
  }
}
