/** `authenticateUser`: the middleware that finds the session token on a
    request, runs a fixed chain of checks against the token and the user
    table, and either hands the request on with `req.user` set or answers
    401. Exactly one of the two happens, which the `Outcome` type makes
    structural. */
module AuthenticateUser {
  import opened Wrappers
  import opened Text
  import opened Oracles
  import opened UserSchema
  import UserController

  /** The parts of a request the gate reads: `req.cookies?.token` and the
      `Authorization` header. */
  datatype Request = Request(cookieToken: Option<string>, authorization: Option<string>)

  datatype Outcome =
    /** `req.user = user; next()` */
    | Next(id: Id, user: User)
    /** `res.status(401).json({error})` */
    | Unauthorized(error: string)

  const AuthenticationRequired := "Authentication required"
  const AuthenticationFailed := "Authentication failed"
  const NotVerified := "Invalid token or account not verified. Please verify your email."
  const PasswordChanged := "Password has been changed recently. Please log in again."
  const BearerPrefix := "Bearer "

  /** `req.cookies?.token || (authorization starts with "Bearer "
      ? authorization.split(" ")[1] : null)`. A present but empty result is
      kept: the gate's `!token` test treats it like no token. */
  function TokenCandidate(req: Request): (t: Option<string>)
    ensures Truthy(req.cookieToken) ==> t == req.cookieToken
  {
    if Truthy(req.cookieToken) then req.cookieToken
    else if req.authorization.Some? && StartsWith(req.authorization.value, BearerPrefix) then
      var h := req.authorization.value;
      assert h == "Bearer" + [' '] + h[|BearerPrefix|..];
      SplitSecond("Bearer", ' ', h[|BearerPrefix|..]);
      Some(Split(h, ' ')[1])
    else None
  }

  /** A user passes the `isVerified` test only when the flag is present and true. */
  predicate IsVerified(u: User) {
    u.isVerified == Some(true)
  }

  /** `passwordChangedAt && iat * 1000 < passwordChangedAt.getTime()`: the
      token was issued (in seconds) before the password epoch (in ms). As
      `iat` is truncated to the second, a token is stale exactly when it was
      issued before the password epoch rounded up to a whole second, so one
      issued later within the same second as the change is refused too. */
  predicate IsStale(t: Token, u: User)
    ensures IsStale(t, u) <==>
      u.passwordChangedAt.Some? && t.iat < CeilSeconds(u.passwordChangedAt.value)
  {
    CeilSecondsBound(t.iat, if u.passwordChangedAt.Some? then u.passwordChangedAt.value else 0);
    u.passwordChangedAt.Some? && t.iat * 1000 < u.passwordChangedAt.value
  }

  /** The first whole second at or after the instant `ms`. */
  function CeilSeconds(ms: int): int {
    (ms + 999) / 1000
  }

  lemma CeilSecondsBound(s: int, ms: int)
    ensures s * 1000 < ms <==> s < CeilSeconds(ms)
  {
    var c := CeilSeconds(ms);
    assert c * 1000 <= ms + 999 < c * 1000 + 1000;
    if s < c {
      assert s * 1000 <= c * 1000 - 1000;
    } else {
      assert s * 1000 >= c * 1000;
    }
  }

  /** The gate's decision for `req` against the table `users`. */
  function Authenticate(env: Env, users: map<Id, User>, req: Request): (o: Outcome)
    ensures o.Next? ==>
      && Truthy(TokenCandidate(req))
      && env.verify(TokenCandidate(req).value).Some?
      && o.id == env.verify(TokenCandidate(req).value).value.id
      && o.id in users && o.user == users[o.id]
      && IsVerified(o.user)
      && !IsStale(env.verify(TokenCandidate(req).value).value, o.user)
    ensures o.Unauthorized? ==>
      o.error in {AuthenticationRequired, AuthenticationFailed, NotVerified, PasswordChanged}
  {
    var token := TokenCandidate(req);
    if !Truthy(token) then Unauthorized(AuthenticationRequired)
    else
      match env.verify(token.value)
      case None => Unauthorized(AuthenticationFailed)
      case Some(decoded) =>
        if decoded.id !in users || !IsVerified(users[decoded.id]) then Unauthorized(NotVerified)
        else if IsStale(decoded, users[decoded.id]) then Unauthorized(PasswordChanged)
        else Next(decoded.id, users[decoded.id])
  }

  // ---------------------------------------------------------------------
  // Token extraction
  // ---------------------------------------------------------------------

  /** Without a usable cookie, a `Bearer ` header yields its second
      space-separated piece: what follows the prefix up to the next space. */
  lemma BearerTokenIsSecondPiece(req: Request, rest: string)
    requires !Truthy(req.cookieToken)
    requires req.authorization == Some(BearerPrefix + rest)
    ensures TokenCandidate(req) == Some(TakeUntil(rest, ' '))
  {
    var h := BearerPrefix + rest;
    assert h[..|BearerPrefix|] == BearerPrefix;
    assert h[|BearerPrefix|..] == rest;
    assert h == "Bearer" + [' '] + rest;
    SplitSecond("Bearer", ' ', rest);
  }

  /** Without a usable cookie and without a `Bearer ` header there is no token. */
  lemma NoBearerNoToken(env: Env, users: map<Id, User>, req: Request)
    requires !Truthy(req.cookieToken)
    requires req.authorization.None? || !StartsWith(req.authorization.value, BearerPrefix)
    ensures TokenCandidate(req) == None
    ensures Authenticate(env, users, req) == Unauthorized(AuthenticationRequired)
  {
  }

  /** `"Bearer  x"` (two spaces) yields the empty second piece, which counts
      as no token at all. */
  lemma DoubleSpaceBearerIsNoToken(env: Env, users: map<Id, User>, req: Request, rest: string)
    requires !Truthy(req.cookieToken)
    requires req.authorization == Some(BearerPrefix + " " + rest)
    ensures TokenCandidate(req) == Some("")
    ensures Authenticate(env, users, req) == Unauthorized(AuthenticationRequired)
  {
    assert BearerPrefix + " " + rest == BearerPrefix + ([' '] + rest);
    BearerTokenIsSecondPiece(req, [' '] + rest);
  }

  // ---------------------------------------------------------------------
  // The check chain
  // ---------------------------------------------------------------------

  /** No token: 401 "Authentication required", whatever the table holds. */
  lemma NoTokenRejected(env: Env, users: map<Id, User>, req: Request)
    requires !Truthy(TokenCandidate(req))
    ensures Authenticate(env, users, req) == Unauthorized(AuthenticationRequired)
  {
  }

  /** A token `jwt.verify` rejects: 401 "Authentication failed". */
  lemma VerifyFailureRejected(env: Env, users: map<Id, User>, req: Request)
    requires Truthy(TokenCandidate(req))
    requires env.verify(TokenCandidate(req).value).None?
    ensures Authenticate(env, users, req) == Unauthorized(AuthenticationFailed)
  {
  }

  /** An unknown subject and an unverified user get the one combined
      message, and the unverified check wins over the staleness check. */
  lemma UnknownOrUnverifiedRejected(env: Env, users: map<Id, User>, req: Request, t: Token)
    requires Truthy(TokenCandidate(req))
    requires env.verify(TokenCandidate(req).value) == Some(t)
    requires t.id !in users || !IsVerified(users[t.id])
    ensures Authenticate(env, users, req) == Unauthorized(NotVerified)
  {
  }

  /** For a verified user the staleness check decides: rejected exactly when
      `iat * 1000` is strictly below the password epoch, so a token issued in
      the very millisecond of the change still passes. */
  lemma StaleIff(env: Env, users: map<Id, User>, req: Request, t: Token, changedAt: int)
    requires Truthy(TokenCandidate(req))
    requires env.verify(TokenCandidate(req).value) == Some(t)
    requires t.id in users && IsVerified(users[t.id])
    requires users[t.id].passwordChangedAt == Some(changedAt)
    ensures Authenticate(env, users, req) == Unauthorized(PasswordChanged) <==> t.iat * 1000 < changedAt
    ensures t.iat * 1000 == changedAt ==> Authenticate(env, users, req) == Next(t.id, users[t.id])
  {
  }

  /** Without a password epoch the staleness check never rejects: a
      verified user is admitted whenever `jwt.verify` accepts the token. */
  lemma NoEpochAdmitted(env: Env, users: map<Id, User>, req: Request, t: Token)
    requires Truthy(TokenCandidate(req))
    requires env.verify(TokenCandidate(req).value) == Some(t)
    requires t.id in users && IsVerified(users[t.id])
    requires users[t.id].passwordChangedAt.None?
    ensures Authenticate(env, users, req) == Next(t.id, users[t.id])
  {
  }

  /** The gate calls `next` exactly when every check passes, and then with
      the token's user. */
  lemma AcceptIff(env: Env, users: map<Id, User>, req: Request)
    ensures Authenticate(env, users, req).Next? <==>
      && Truthy(TokenCandidate(req))
      && env.verify(TokenCandidate(req).value).Some?
      && var t := env.verify(TokenCandidate(req).value).value;
         t.id in users && IsVerified(users[t.id]) && !IsStale(t, users[t.id])
  {
  }

  // ---------------------------------------------------------------------
  // The gate against the controllers
  // ---------------------------------------------------------------------

  /** A document as register creates it carries no verification flag, and
      no modelled operation sets one, so every request resolving to it is
      refused with the verification message. */
  lemma RegisteredUserRejected(env: Env, users: map<Id, User>, req: Request,
                               id: Id, name: string, email: string, digest: string, now: int)
    requires Truthy(TokenCandidate(req))
    requires env.verify(TokenCandidate(req).value).Some?
    requires env.verify(TokenCandidate(req).value).value.id == id
    requires id in users && users[id] == NewUser(name, email, digest, now)
    ensures Authenticate(env, users, req) == Unauthorized(NotVerified)
  {
  }

  /** The cookie login issues opens the gate for a verified user whose
      password epoch (if any) is not after the login second, provided
      `jwt.verify` still accepts the token. */
  lemma LoginCookiePassesGate(env: Env, users: map<Id, User>, id: Id, now: nat, header: Option<string>)
    requires id in users && IsVerified(users[id])
    requires TokenAccepted(env, id, now / 1000)
    requires env.sign(id, now / 1000) != ""
    requires users[id].passwordChangedAt.None? || users[id].passwordChangedAt.value <= (now / 1000) * 1000
    ensures var cookie := UserController.SessionCookie(env, env.sign(id, now / 1000), now);
      Authenticate(env, users, Request(Some(cookie.value), header)) == Next(id, users[id])
  {
  }

  /** `updateUser` never moves the password epoch: after any update the gate
      decides the same way for every request, and a session issued before a
      password change keeps working. */
  lemma UpdateKeepsSessions(env: Env, users: map<Id, User>, id: Id, d: UserController.UpdateData, req: Request)
    requires id in users
    ensures var after := users[id := UserController.ApplyUpdate(users[id], d)];
      Authenticate(env, after, req).Next? == Authenticate(env, users, req).Next?
  {
  }

  /** No stored document in any table the controllers can reach carries the
      verification flag, so the gate admits no request at all. */
  lemma StoreAdmitsNobody(store: UserController.UserStore, req: Request)
    requires store.Valid()
    ensures Authenticate(store.env, store.users, req).Unauthorized?
  {
  }

  /** Once a user is deleted, every token naming it is refused. */
  lemma DeletedUserRejected(env: Env, users: map<Id, User>, id: Id, req: Request)
    requires Truthy(TokenCandidate(req))
    requires env.verify(TokenCandidate(req).value).Some?
    requires env.verify(TokenCandidate(req).value).value.id == id
    ensures Authenticate(env, users - {id}, req) == Unauthorized(NotVerified)
  {
  }
}
