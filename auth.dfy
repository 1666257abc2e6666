/**
 * The authentication gate of src/middlewares/auth.js: the Bearer scheme of section 2.1 of RFC 6750
 * (a literal, case-sensitive `Bearer ` prefix), a JSON Web Token (RFC 7519) signed with an `exp`
 * claim seven days after issue, and the user lookup that attaches `req.user`.
 */
module Auth {
  import opened Basics
  import opened Tables
  import opened Users
  import opened Http

  const BEARER := "Bearer "

  /** `expiresIn: '7d'`, in seconds. */
  const TOKEN_LIFETIME: nat := 7 * 24 * 60 * 60

  const NO_TOKEN := "Authentication required. No token provided."
  const USER_NOT_FOUND := "Invalid token. User not found."
  const BAD_TOKEN := "Invalid or expired token."

  /** The payload `generateToken` signs. */
  datatype Payload = Payload(userId: int, username: string)

  /** A signed payload with its `iat` and `exp` claims (section 4.1.4 of RFC 7519), in seconds. */
  datatype Claims = Claims(payload: Payload, iat: nat, exp: nat)

  /** What `jwt.verify` does with a token: decodes it or throws an error of one of these kinds. */
  datatype Verification = Decoded(claims: Claims) | JsonWebTokenError | TokenExpiredError | NotBeforeError

  /**
   * jsonwebtoken with the server's `JWT_SECRET` as an opaque pair: `sign` stands for `jwt.sign`,
   * `verify(token, now)` for `jwt.verify` at time `now`.
   */
  datatype TokenScheme = TokenScheme(sign: Claims -> string, verify: (string, nat) -> Verification)

  /**
   * The properties of jsonwebtoken the model relies on: a token it signed verifies to its claims
   * until, and only until, its expiry, and a compact JWT has no spaces in it.
   */
  ghost predicate TokenSound(ts: TokenScheme) {
    && (forall c: Claims, now: nat :: ts.verify(ts.sign(c), now) == if now < c.exp then Decoded(c) else TokenExpiredError)
    && (forall c: Claims :: ' ' !in ts.sign(c))
  }

  // ---------------------------------------------------------------- the header

  predicate StartsWith(s: string, prefix: string) {
    |prefix| <= |s| && s[..|prefix|] == prefix
  }

  /** `s.split(' ')`: the pieces between single spaces, empty pieces included. */
  function Split(s: string): (fields: seq<string>)
    ensures |fields| >= 1
    ensures forall f :: f in fields ==> ' ' !in f
  {
    if |s| == 0 then [""]
    else
      var rest := Split(s[1..]);
      if s[0] == ' ' then [""] + rest
      else [[s[0]] + rest[0]] + rest[1..]
  }

  /** `fields.join(' ')`. */
  function Join(fields: seq<string>): string
    requires |fields| >= 1
  {
    if |fields| == 1 then fields[0] else fields[0] + " " + Join(fields[1..])
  }

  /** Splitting loses nothing: joining the pieces gives the string back. */
  lemma {:induction false} JoinSplit(s: string)
    ensures Join(Split(s)) == s
  {
    if |s| > 0 {
      JoinSplit(s[1..]);
      var rest := Split(s[1..]);
      if s[0] != ' ' && |rest| > 1 {
        assert ([[s[0]] + rest[0]] + rest[1..])[1..] == rest[1..];
      }
    }
  }

  /** A piece without spaces splits into itself. */
  lemma {:induction false} SplitWord(w: string)
    requires ' ' !in w
    ensures Split(w) == [w]
  {
    if |w| > 0 {
      assert ' ' !in w[1..] by {
        assert forall k :: 0 <= k < |w[1..]| ==> w[1..][k] == w[k + 1];
      }
      SplitWord(w[1..]);
      assert [w[0]] + w[1..] == w;
    }
  }

  /** A piece without spaces followed by a space is the first field, and the rest splits on its own. */
  lemma {:induction false} SplitAfterWord(w: string, t: string)
    requires ' ' !in w
    ensures Split(w + " " + t) == [w] + Split(t)
  {
    var s := w + " " + t;
    if |w| == 0 {
      assert s[1..] == t;
    } else {
      assert ' ' !in w[1..] by {
        assert forall k :: 0 <= k < |w[1..]| ==> w[1..][k] == w[k + 1];
      }
      assert s[1..] == w[1..] + " " + t;
      SplitAfterWord(w[1..], t);
      assert [w[0]] + w[1..] == w;
    }
  }

  /** Pieces without spaces survive a join and a split unchanged. */
  lemma {:induction false} SplitJoin(fields: seq<string>)
    requires |fields| >= 1
    requires forall f :: f in fields ==> ' ' !in f
    ensures Split(Join(fields)) == fields
  {
    if |fields| == 1 {
      SplitWord(fields[0]);
    } else {
      assert fields[0] in fields;
      assert forall f :: f in fields[1..] ==> f in fields;
      SplitJoin(fields[1..]);
      SplitAfterWord(fields[0], Join(fields[1..]));
    }
  }

  /** The first piece of a split is a prefix of the string that ends at its end or at a space. */
  lemma {:induction false} SplitHead(s: string)
    ensures var h := Split(s)[0];
      |h| <= |s| && s[..|h|] == h && (|h| == |s| || s[|h|] == ' ')
  {
    if |s| > 0 && s[0] != ' ' {
      SplitHead(s[1..]);
      var h' := Split(s[1..])[0];
      assert Split(s)[0] == [s[0]] + h';
      assert s[..|h'| + 1] == [s[0]] + s[1..][..|h'|];
    }
  }

  /** A header with the Bearer prefix has at least two fields. */
  lemma BearerFields(header: string)
    requires StartsWith(header, BEARER)
    ensures |Split(header)| >= 2
    ensures Split(header) == ["Bearer"] + Split(header[|BEARER|..])
  {
    assert header == "Bearer" + " " + header[|BEARER|..];
    SplitAfterWord("Bearer", header[|BEARER|..]);
  }

  /**
   * `authHeader.split(' ')[1]`: the text after `Bearer ` up to the next space or the end of the
   * header.
   */
  function BearerToken(header: string): (token: string)
    requires StartsWith(header, BEARER)
    ensures ' ' !in token
    ensures StartsWith(header, BEARER + token)
    ensures |header| == |BEARER + token| || header[|BEARER + token|] == ' '
  {
    BearerFields(header);
    var rest := header[|BEARER|..];
    SplitHead(rest);
    assert Split(header)[1] == Split(rest)[0];
    assert Split(rest)[0] in Split(rest);
    assert header[..|BEARER| + |Split(rest)[0]|] == BEARER + rest[..|Split(rest)[0]|];
    Split(header)[1]
  }

  /** The token of `Bearer <token>` is the token itself when it has no spaces: "Bearer abc" yields "abc". */
  lemma BearerTokenOf(token: string)
    requires ' ' !in token
    ensures StartsWith(BEARER + token, BEARER)
    ensures BearerToken(BEARER + token) == token
  {
    var header := BEARER + token;
    assert header[..|BEARER|] == BEARER;
    assert header[|BEARER|..] == token;
    BearerFields(header);
    SplitWord(token);
  }

  /**
   * A token in the Bearer header is only the text up to the next space: "Bearer abc def" yields
   * "abc", so what follows is ignored.
   */
  lemma BearerTokenStopsAtSpace(token: string, rest: string)
    requires ' ' !in token
    ensures StartsWith(BEARER + token + " " + rest, BEARER)
    ensures BearerToken(BEARER + token + " " + rest) == token
  {
    var header := BEARER + token + " " + rest;
    assert header[..|BEARER|] == BEARER;
    assert header[|BEARER|..] == token + " " + rest;
    BearerFields(header);
    SplitAfterWord(token, rest);
  }

  // ---------------------------------------------------------------- the decision

  /** Either the request proceeds with `req.user` set, or the gate answers it. */
  datatype Decision = Proceed(user: UserInfo) | Reject(response: Response)

  /** What `authenticate` decides for a request with this `Authorization` header at time `now`. */
  function Gate(ts: TokenScheme, users: seq<UserRow>, header: Option<string>, now: nat): (d: Decision)
    ensures header.None? || !StartsWith(header.value, BEARER) ==> d == Reject(Fail(401, NO_TOKEN))
    ensures d.Proceed? ==> exists row :: row in users && d.user == Public(row)
    ensures d.Proceed? ==>
      && header.Some? && StartsWith(header.value, BEARER)
      && ts.verify(BearerToken(header.value), now).Decoded?
      && FindById(users, ts.verify(BearerToken(header.value), now).claims.payload.userId) == Some(d.user)
    ensures header.Some? && StartsWith(header.value, BEARER) ==>
      var v := ts.verify(BearerToken(header.value), now);
      && (v.JsonWebTokenError? || v.TokenExpiredError? ==> d == Reject(Fail(401, BAD_TOKEN)))
      && (v.NotBeforeError? ==> d == Reject(Forwarded(TokenFault)))
      && (v.Decoded? && FindById(users, v.claims.payload.userId).None? ==> d == Reject(Fail(401, USER_NOT_FOUND)))
    ensures d.Reject? && d.response.Reply? ==> d.response.status == 401
  {
    if header.None? || !StartsWith(header.value, BEARER) then Reject(Fail(401, NO_TOKEN))
    else
      match ts.verify(BearerToken(header.value), now)
      case Decoded(claims) =>
        (match FindById(users, claims.payload.userId)
         case None => Reject(Fail(401, USER_NOT_FOUND))
         case Some(user) => Proceed(user))
      case JsonWebTokenError => Reject(Fail(401, BAD_TOKEN))
      case TokenExpiredError => Reject(Fail(401, BAD_TOKEN))
      case NotBeforeError => Reject(Forwarded(TokenFault))
  }

  /**
   * `authenticate`: the early-return checks in order, ending with `req.user` set to the
   * `findById` result and `next()`.
   */
  method Authenticate(ts: TokenScheme, db: Database, header: Option<string>, now: nat) returns (d: Decision)
    ensures d == Gate(ts, db.store.users, header, now)
  {
    if header.None? || !StartsWith(header.value, BEARER) {
      return Reject(Fail(401, NO_TOKEN));
    }
    var token := BearerToken(header.value);
    var decoded := ts.verify(token, now);
    if !decoded.Decoded? {
      if decoded.JsonWebTokenError? || decoded.TokenExpiredError? {
        return Reject(Fail(401, BAD_TOKEN));
      }
      return Reject(Forwarded(TokenFault));
    }
    var user := FindById(db.store.users, decoded.claims.payload.userId);
    if user.None? {
      return Reject(Fail(401, USER_NOT_FOUND));
    }
    d := Proceed(user.value);
  }

  /** Without a Bearer header the answer is fixed: no token is verified and no user looked up. */
  lemma NoTokenRejected(ts: TokenScheme, ts': TokenScheme, users: seq<UserRow>, users': seq<UserRow>,
                        header: Option<string>, now: nat, now': nat)
    requires header.None? || !StartsWith(header.value, BEARER)
    ensures Gate(ts, users, header, now) == Gate(ts', users', header, now') == Reject(Fail(401, NO_TOKEN))
  {
  }

  /**
   * A token's fate depends only on how it verifies, and only a decoded token reaches the lookup,
   * whose result becomes `req.user`.
   */
  lemma TokenErrorsMapped(ts: TokenScheme, users: seq<UserRow>, header: string, now: nat)
    requires StartsWith(header, BEARER)
    ensures var v := ts.verify(BearerToken(header), now);
      && (v.JsonWebTokenError? || v.TokenExpiredError? ==> Gate(ts, users, Some(header), now) == Reject(Fail(401, BAD_TOKEN)))
      && (v.NotBeforeError? ==> Gate(ts, users, Some(header), now) == Reject(Forwarded(TokenFault)))
      && (v.Decoded? && FindById(users, v.claims.payload.userId).None? ==>
            Gate(ts, users, Some(header), now) == Reject(Fail(401, USER_NOT_FOUND)))
      && (v.Decoded? && FindById(users, v.claims.payload.userId).Some? ==>
            Gate(ts, users, Some(header), now) == Proceed(FindById(users, v.claims.payload.userId).value))
  {
  }

  // ---------------------------------------------------------------- issuing tokens

  /** The claims of a token issued at `now` for `user`. */
  function Issued(user: UserInfo, now: nat): Claims {
    Claims(Payload(user.id, user.username), now, now + TOKEN_LIFETIME)
  }

  /**
   * `generateToken`: signs `{ userId, username }`, expiring seven days after `now`. With a sound
   * jsonwebtoken the token has no space and verifies to those claims until, and only until, then.
   */
  function GenerateToken(ts: TokenScheme, user: UserInfo, now: nat): (token: string)
    ensures TokenSound(ts) ==> ' ' !in token
    ensures TokenSound(ts) ==>
      forall later: nat :: ts.verify(token, later) == (if later < now + TOKEN_LIFETIME then Decoded(Issued(user, now)) else TokenExpiredError)
  {
    ts.sign(Issued(user, now))
  }

  /**
   * Until it expires, a freshly issued token decodes to the user's id and name, issued at `now`
   * and expiring exactly seven days later.
   */
  lemma IssuedTokenClaims(ts: TokenScheme, user: UserInfo, now: nat, later: nat)
    requires TokenSound(ts)
    requires later < now + TOKEN_LIFETIME
    ensures ts.verify(GenerateToken(ts, user, now), later) == Decoded(Issued(user, now))
    ensures ts.verify(GenerateToken(ts, user, now), later).Decoded?
    ensures var c := ts.verify(GenerateToken(ts, user, now), later).claims;
      c.payload.userId == user.id && c.payload.username == user.username && c.iat == now && c.exp - c.iat == 604800
  {
  }

  /**
   * Presenting a token issued for a stored user, before it expires, authenticates as exactly that
   * user, without the password hash.
   */
  lemma IssuedTokenAuthenticates(ts: TokenScheme, users: seq<UserRow>, row: UserRow, now: nat, later: nat)
    requires TokenSound(ts)
    requires DistinctUsers(users) && row in users
    requires later < now + TOKEN_LIFETIME
    ensures var token := GenerateToken(ts, Public(row), now);
      Gate(ts, users, Some(BEARER + token), later) == Proceed(Public(row))
  {
    var token := GenerateToken(ts, Public(row), now);
    BearerTokenOf(token);
    FindByIdOfRow(users, row);
  }

  /** From seven days after issue on, the same token is refused as expired. */
  lemma ExpiredTokenRejected(ts: TokenScheme, users: seq<UserRow>, user: UserInfo, now: nat, later: nat)
    requires TokenSound(ts)
    requires later >= now + TOKEN_LIFETIME
    ensures Gate(ts, users, Some(BEARER + GenerateToken(ts, user, now)), later) == Reject(Fail(401, BAD_TOKEN))
  {
    BearerTokenOf(GenerateToken(ts, user, now));
  }

  /** A valid token for an id no user has is refused as naming an unknown user. */
  lemma UnknownUserRejected(ts: TokenScheme, users: seq<UserRow>, user: UserInfo, now: nat, later: nat)
    requires TokenSound(ts)
    requires forall row :: row in users ==> row.id != user.id
    requires later < now + TOKEN_LIFETIME
    ensures Gate(ts, users, Some(BEARER + GenerateToken(ts, user, now)), later) == Reject(Fail(401, USER_NOT_FOUND))
  {
    BearerTokenOf(GenerateToken(ts, user, now));
  }
}
