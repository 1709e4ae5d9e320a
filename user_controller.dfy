/** The account controllers: registration, login, logout, update and delete
    over the user table, each answering with a status code, a body and what
    it does to the `token` cookie. */
module UserController {
  import opened Wrappers
  import opened Text
  import opened Oracles
  import opened UserSchema

  // ---------------------------------------------------------------------
  // validateStrongPassword
  // ---------------------------------------------------------------------

  predicate IsAsciiLowerLetter(c: char) { 'a' <= c <= 'z' }
  predicate IsAsciiDigit(c: char) { '0' <= c <= '9' }

  /** How many characters of `s` fall in the class `p`. */
  function Count(s: string, p: char -> bool): (n: nat)
    ensures n <= |s|
  {
    if s == [] then 0 else (if p(s[0]) then 1 else 0) + Count(s[1..], p)
  }

  predicate Contains(s: string, p: char -> bool) {
    exists i :: 0 <= i < |s| && p(s[i])
  }

  /** validator sorts each character into the first class it matches, in
      the order upper, lower, digit, symbol, so a letter or digit never
      counts as a symbol whatever the symbol class holds. */
  predicate IsCountedSymbol(isSymbol: char -> bool, c: char) {
    isSymbol(c) && !IsAsciiUpper(c) && !IsAsciiLowerLetter(c) && !IsAsciiDigit(c)
  }

  function SymbolClass(isSymbol: char -> bool): char -> bool {
    c => IsCountedSymbol(isSymbol, c)
  }

  /** The counts `isStrongPassword` compares against its minimums. */
  datatype PasswordAnalysis = PasswordAnalysis(
    length: nat, lowercaseCount: nat, uppercaseCount: nat, numberCount: nat, symbolCount: nat)

  function AnalyzePassword(password: string, isSymbol: char -> bool): PasswordAnalysis {
    PasswordAnalysis(
      JsLength(password),
      Count(password, IsAsciiLowerLetter),
      Count(password, IsAsciiUpper),
      Count(password, IsAsciiDigit),
      Count(password, SymbolClass(isSymbol)))
  }

  /** `isStrongPassword` with minLength 6 (in UTF-16 units) and at least one
      lowercase letter, one uppercase letter, one digit and one symbol. A
      strong password is never blank, so `updateUser` always treats it as a
      field to update. */
  predicate ValidateStrongPassword(password: string, isSymbol: char -> bool)
    ensures ValidateStrongPassword(password, isSymbol) ==>
      JsLength(password) >= MinPasswordLength && Usable(Some(password))
  {
    var a := AnalyzePassword(password, isSymbol);
    CountPositiveIff(password, IsAsciiLowerLetter);
    TrimEmptyIff(password);
    && a.length >= 6
    && a.lowercaseCount >= 1 && a.uppercaseCount >= 1
    && a.numberCount >= 1 && a.symbolCount >= 1
  }

  lemma {:induction false} CountPositiveIff(s: string, p: char -> bool)
    ensures Count(s, p) >= 1 <==> Contains(s, p)
    decreases |s|
  {
    if s != [] {
      CountPositiveIff(s[1..], p);
      if Contains(s[1..], p) {
        var i :| 0 <= i < |s[1..]| && p(s[1..][i]);
        assert p(s[i + 1]);
      }
      if Contains(s, p) && !p(s[0]) {
        var i :| 0 <= i < |s| && p(s[i]);
        assert p(s[1..][i - 1]);
      }
    }
  }

  /** A password is strong exactly when it has at least 6 UTF-16 units and
      contains a lowercase letter, an uppercase letter, a digit and a symbol. */
  lemma StrongPasswordIff(password: string, isSymbol: char -> bool)
    ensures ValidateStrongPassword(password, isSymbol) <==>
      && JsLength(password) >= 6
      && (exists i :: 0 <= i < |password| && IsAsciiLowerLetter(password[i]))
      && (exists i :: 0 <= i < |password| && IsAsciiUpper(password[i]))
      && (exists i :: 0 <= i < |password| && IsAsciiDigit(password[i]))
      && (exists i :: 0 <= i < |password| && IsCountedSymbol(isSymbol, password[i]))
  {
    CountPositiveIff(password, IsAsciiLowerLetter);
    TrimEmptyIff(password);
    CountPositiveIff(password, IsAsciiUpper);
    CountPositiveIff(password, IsAsciiDigit);
    CountPositiveIff(password, SymbolClass(isSymbol));
  }

  // ---------------------------------------------------------------------
  // Responses and the `token` cookie
  // ---------------------------------------------------------------------

  datatype CookieOptions = CookieOptions(httpOnly: bool, secure: bool, sameSite: string, expires: int)

  datatype CookieAction =
    | LeaveCookie
    | SetCookie(name: string, value: string, options: CookieOptions)

  datatype Body =
    /** `res.status(..).json({error})` */
    | JsonError(error: string)
    /** `next(err)`: the error goes to Express's error handler */
    | Forwarded(error: string)
    /** `{status: "success", message, user}` */
    | Success(message: string, user: Option<PublicUser>)
    /** `{status: "success", message}` */
    | SuccessNoUser(message: string)
    /** `{message}` */
    | Plain(message: string)

  datatype Response = Response(status: int, body: Body, cookie: CookieAction)

  const NameRequired := "Name is required"
  const NameTooLong := "Name cannot exceed 50 characters"
  const WeakPassword := "Password must be stronger. At least 6 characters, including a number, a symbol, and mixed case letters"
  const EmailExists := "Email already exists"
  const InvalidCredentials := "Invalid email or password"
  const NoFields := "No fields to update"
  const UserNotFound := "User not found"
  const Registered := "User registred successfully"
  const LoggedIn := "User logged in successfully"
  const LoggedOut := "Logged out successfully"
  const Updated := "User updated successfully"
  const Deleted := "User account and data deleted successfully"
  /** Stands for any error thrown inside a controller and passed to `next`. */
  const InternalError := "internal error"

  function BadRequest(error: string): Response {
    Response(400, JsonError(error), LeaveCookie)
  }

  /** A thrown error reaching Express's default handler, which answers 500. */
  const ServerError := Response(500, Forwarded(InternalError), LeaveCookie)

  const MsPerCookieUnit: nat := 24 * 60 * 1000
  const MsPerDay: nat := 24 * 60 * 60 * 1000

  /** The cookie login sets: the signed token, HTTP-only, `Secure` in
      production, SameSite Strict, expiring `JWT_COOKIE_EXPIRES_IN` units of
      24·60·1000 ms after `now`. */
  function SessionCookie(env: Env, token: string, now: nat): CookieAction {
    SetCookie("token", token, CookieOptions(true, env.production, "Strict", now + env.cookieExpiresIn * MsPerCookieUnit))
  }

  /** The cookie logout and delete set: empty value, expired at the epoch. */
  function ClearedCookie(env: Env): CookieAction {
    SetCookie("token", "", CookieOptions(true, env.production, "Strict", 0))
  }

  /** The session cookie lives `N` units of 24 minutes, so for a positive
      `N` it expires before `N` days have passed. */
  lemma SessionCookieLifetime(env: Env, token: string, now: nat)
    ensures SessionCookie(env, token, now).options.expires - now == env.cookieExpiresIn * 1440000
    ensures env.cookieExpiresIn > 0 ==>
      SessionCookie(env, token, now).options.expires < now + env.cookieExpiresIn * MsPerDay
  {
  }

  /** The clearing cookie has the session cookie's name and flags, so the
      browser replaces it, with an empty value and an expiry in the past. */
  lemma ClearedCookieReplacesSession(env: Env, token: string, now: nat)
    ensures var s, c := SessionCookie(env, token, now), ClearedCookie(env);
      && c.name == s.name && c.options.httpOnly && c.options.httpOnly == s.options.httpOnly
      && c.options.secure == s.options.secure == env.production
      && c.options.sameSite == s.options.sameSite == "Strict"
      && c.value == "" && c.options.expires == 0
  {
  }

  /** `logoutUser`: always 200, always clears the cookie. */
  function Logout(env: Env): (r: Response)
    ensures r.status == 200 && r.cookie == ClearedCookie(env)
    ensures r.cookie.SetCookie? && r.cookie.value == "" && r.cookie.options.expires == 0
  {
    Response(200, Plain(LoggedOut), ClearedCookie(env))
  }

  // ---------------------------------------------------------------------
  // Request predicates
  // ---------------------------------------------------------------------

  /** `field && field.trim()`: present and not all whitespace. */
  predicate Usable(s: Option<string>) {
    s.Some? && s.value != [] && Trim(s.value) != []
  }

  /** The body's email as the schema sees it; an absent email behaves as the
      empty string (it matches no stored user and fails `required`). */
  function EmailText(email: Option<string>): string {
    if email.Some? then email.value else []
  }

  /** Register's checks before the database is consulted. */
  predicate RegisterInputOk(env: Env, name: Option<string>, password: Option<string>) {
    && Truthy(name) && JsLength(name.value) <= MaxNameLength
    && password.Some? && ValidateStrongPassword(password.value, env.isSymbol)
  }

  predicate LoginInputOk(env: Env, email: Option<string>, password: Option<string>) {
    Truthy(email) && env.isEmail(email.value) && Truthy(password)
  }

  /** Some stored user has this (lower-cased) email and its digest accepts
      the password. */
  predicate CredentialsMatch(env: Env, users: map<Id, User>, email: string, password: string) {
    exists id :: id in users && users[id].email == email && env.compare(password, users[id].password)
  }

  /** The `updateData` object `updateUser` builds: the trimmed name if the
      name is usable, the digest of the password if the password is usable. */
  datatype UpdateData = UpdateData(name: Option<string>, password: Option<string>)

  function UpdateFor(env: Env, name: Option<string>, password: Option<string>): (d: UpdateData)
    ensures d.name.Some? <==> Usable(name)
    ensures d.name.Some? ==> d.name.value == Trim(name.value)
    ensures d.name.Some? ==> d.name.value != [] && JsLength(d.name.value) <= JsLength(name.value)
    ensures d.password.Some? <==> Usable(password)
    ensures d.password.Some? ==> d.password.value == env.hash(password.value)
    ensures d == UpdateData(None, None) <==> !Usable(name) && !Usable(password)
  {
    TrimJsLength(if name.Some? then name.value else []);
    UpdateData(
      if Usable(name) then Some(Trim(name.value)) else None,
      if Usable(password) then Some(env.hash(password.value)) else None)
  }

  predicate UpdateInputOk(env: Env, name: Option<string>, password: Option<string>) {
    && (Usable(name) ==> JsLength(name.value) <= MaxNameLength)
    && (Usable(password) ==> ValidateStrongPassword(password.value, env.isSymbol))
    && (Usable(name) || Usable(password))
  }

  /** `findByIdAndUpdate(id, updateData)`: only the fields present in the
      update are replaced. */
  function ApplyUpdate(u: User, d: UpdateData): (v: User)
    ensures v.email == u.email && v.timestamp == u.timestamp
    ensures v.isVerified == u.isVerified && v.passwordChangedAt == u.passwordChangedAt
    ensures d.name.None? ==> v.name == u.name
    ensures d.name.Some? ==> v.name == d.name.value
    ensures d.password.None? ==> v.password == u.password
    ensures d.password.Some? ==> v.password == d.password.value
    ensures d == UpdateData(None, None) ==> v == u
  {
    u.(name := if d.name.Some? then d.name.value else u.name,
       password := if d.password.Some? then d.password.value else u.password)
  }

  /** An accepted update keeps a valid document valid: the trimmed name is
      non-empty and no longer than the checked untrimmed one, and every
      digest meets the password minimum. */
  lemma UpdateKeepsUserValid(env: Env, u: User, name: Option<string>, password: Option<string>)
    requires DigestsLongEnough(env) && UserValid(u, env.isEmail)
    requires UpdateInputOk(env, name, password)
    ensures UserValid(ApplyUpdate(u, UpdateFor(env, name, password)), env.isEmail)
  {
    if Usable(name) {
      TrimJsLength(name.value);
    }
    if password.Some? {
      assert JsLength(env.hash(password.value)) >= MinPasswordLength;
    }
  }

  // ---------------------------------------------------------------------
  // The user table
  // ---------------------------------------------------------------------

  class UserStore {
    const env: Env
    var users: map<Id, User>
    /** The id the next created document receives. */
    var nextId: Id

    /** The table invariant, the fresh-id counter, the digest assumption, and
        the fact that no stored document carries a verification flag (no
        modelled operation writes `isVerified`). */
    ghost predicate Valid()
      reads this
    {
      && TableValid(users, env.isEmail)
      && NoneVerified(users)
      && (forall id :: id in users ==> id < nextId)
      && DigestsLongEnough(env)
    }

    constructor (env: Env)
      requires DigestsLongEnough(env)
      ensures Valid() && users == map[] && this.env == env
    {
      this.env := env;
      users := map[];
      nextId := 0;
    }

    /** `registerUser`. */
    method Register(name: Option<string>, email: Option<string>, password: Option<string>, now: nat)
      returns (r: Response)
      requires Valid()
      modifies this`users, this`nextId
      ensures Valid()
      ensures r.cookie == LeaveCookie
      ensures !Truthy(name) ==> r == BadRequest(NameRequired)
      ensures Truthy(name) && JsLength(name.value) > MaxNameLength ==> r == BadRequest(NameTooLong)
      ensures Truthy(name) && JsLength(name.value) <= MaxNameLength && password.None? ==> r == ServerError
      ensures (Truthy(name) && JsLength(name.value) <= MaxNameLength && password.Some?
               && !ValidateStrongPassword(password.value, env.isSymbol)) ==> r == BadRequest(WeakPassword)
      ensures (RegisterInputOk(env, name, password) && EmailTaken(old(users), ToLower(EmailText(email)))) ==>
                r == Response(400, Forwarded(EmailExists), LeaveCookie)
      ensures (RegisterInputOk(env, name, password) && !EmailTaken(old(users), ToLower(EmailText(email)))
               && !UserValid(NewUser(name.value, EmailText(email), env.hash(password.value), now), env.isEmail)) ==> r == ServerError
      ensures r.status == 201 <==>
                && RegisterInputOk(env, name, password)
                && !EmailTaken(old(users), ToLower(EmailText(email)))
                && UserValid(NewUser(name.value, EmailText(email), env.hash(password.value), now), env.isEmail)
      ensures r.status != 201 ==> users == old(users) && nextId == old(nextId)
      ensures r.status == 201 ==>
                && old(nextId) !in old(users)
                && users == old(users)[old(nextId) := NewUser(name.value, EmailText(email), env.hash(password.value), now)]
                && |users| == |old(users)| + 1
                && nextId == old(nextId) + 1
                && r.body == Success(Registered, Some(ForResponse(old(nextId), users[old(nextId)])))
      ensures r.status == 201 ==>
                && name.Some? && password.Some? && old(nextId) in users
                && users[old(nextId)].name == name.value
                && users[old(nextId)].email == ToLower(EmailText(email))
                && users[old(nextId)].password == env.hash(password.value)
                && users[old(nextId)].timestamp == now
                && users[old(nextId)].isVerified == None && users[old(nextId)].passwordChangedAt == None
    {
      if !Truthy(name) {
        return BadRequest(NameRequired);
      }
      if JsLength(name.value) > MaxNameLength {
        return BadRequest(NameTooLong);
      }
      if password.None? {
        // isStrongPassword throws on a non-string
        return ServerError;
      }
      if !ValidateStrongPassword(password.value, env.isSymbol) {
        return BadRequest(WeakPassword);
      }
      var exist := FindByEmail(users, ToLower(EmailText(email)));
      if exist.Some? {
        return Response(400, Forwarded(EmailExists), LeaveCookie);
      }
      var hashedPassword := env.hash(password.value);
      var newUser := NewUser(name.value, EmailText(email), hashedPassword, now);
      if !UserValid(newUser, env.isEmail) {
        // User.create rejects the document with a ValidationError
        return ServerError;
      }
      InsertKeepsTableValid(users, nextId, newUser, env.isEmail);
      users := users[nextId := newUser];
      r := Response(201, Success(Registered, Some(ForResponse(nextId, newUser))), LeaveCookie);
      nextId := nextId + 1;
    }

    /** `loginUser`. An unknown email and a wrong password give the same
        401 answer; only a successful login sets the cookie. */
    function Login(email: Option<string>, password: Option<string>, now: nat): (r: Response)
      reads this
      requires Valid()
      ensures !LoginInputOk(env, email, password) ==> r == Response(400, Forwarded(InvalidCredentials), LeaveCookie)
      ensures (LoginInputOk(env, email, password)
               && !CredentialsMatch(env, users, ToLower(email.value), password.value)) ==>
                r == Response(401, Forwarded(InvalidCredentials), LeaveCookie)
      ensures r.status == 200 <==>
                LoginInputOk(env, email, password)
                && CredentialsMatch(env, users, ToLower(email.value), password.value)
      ensures r.status == 200 ==>
                exists id :: id in users && users[id].email == ToLower(email.value)
                  && env.compare(password.value, users[id].password)
                  && r == Response(200, Success(LoggedIn, Some(ForResponse(id, users[id]))),
                                   SessionCookie(env, env.sign(id, now / 1000), now))
    {
      if !(Truthy(email) && env.isEmail(email.value) && Truthy(password)) then
        Response(400, Forwarded(InvalidCredentials), LeaveCookie)
      else
        var found := FindByEmail(users, ToLower(email.value));
        if found.None? || !env.compare(password.value, users[found.value].password) then
          Response(401, Forwarded(InvalidCredentials), LeaveCookie)
        else
          var id := found.value;
          Response(200, Success(LoggedIn, Some(ForResponse(id, users[id]))),
                   SessionCookie(env, env.sign(id, now / 1000), now))
    }

    /** `updateUser` for the caller `userId` (the id the authentication gate
        resolved). */
    method Update(userId: Id, name: Option<string>, password: Option<string>) returns (r: Response)
      requires Valid()
      modifies this`users
      ensures Valid()
      ensures r.cookie == LeaveCookie
      ensures Usable(name) && JsLength(name.value) > MaxNameLength ==> r == BadRequest(NameTooLong)
      ensures ((Usable(name) ==> JsLength(name.value) <= MaxNameLength) && Usable(password)
               && !ValidateStrongPassword(password.value, env.isSymbol)) ==> r == BadRequest(WeakPassword)
      ensures !Usable(name) && !Usable(password) ==> r == BadRequest(NoFields)
      ensures r.status == 200 <==> UpdateInputOk(env, name, password)
      ensures r.status != 200 ==> users == old(users)
      ensures r.status == 200 && userId !in old(users) ==>
                users == old(users) && r.body == Success(Updated, None)
      ensures r.status == 200 && userId in old(users) ==>
                && users == old(users)[userId := ApplyUpdate(old(users)[userId], UpdateFor(env, name, password))]
                && r.body == Success(Updated, Some(ForResponse(userId, users[userId])))
      ensures r.status == 200 && userId in old(users) ==>
                && userId in users
                && (Usable(name) ==> users[userId].name == Trim(name.value))
                && (!Usable(name) ==> users[userId].name == old(users)[userId].name)
                && (Usable(password) ==> users[userId].password == env.hash(password.value))
                && (!Usable(password) ==> users[userId].password == old(users)[userId].password)
    {
      var updateData := UpdateData(None, None);
      if name.Some? && name.value != [] && Trim(name.value) != [] {
        if JsLength(name.value) > MaxNameLength {
          return BadRequest(NameTooLong);
        }
        updateData := updateData.(name := Some(Trim(name.value)));
      }
      if password.Some? && password.value != [] && Trim(password.value) != [] {
        if !ValidateStrongPassword(password.value, env.isSymbol) {
          return BadRequest(WeakPassword);
        }
        var hashedPassword := env.hash(password.value);
        updateData := updateData.(password := Some(hashedPassword));
      }
      if updateData == UpdateData(None, None) {
        return BadRequest(NoFields);
      }
      if userId in users {
        var updated := ApplyUpdate(users[userId], updateData);
        UpdateKeepsUserValid(env, users[userId], name, password);
        ReplaceKeepsTableValid(users, userId, updated, env.isEmail);
        users := users[userId := updated];
        r := Response(200, Success(Updated, Some(ForResponse(userId, updated))), LeaveCookie);
      } else {
        // findByIdAndUpdate finds nothing and resolves to null
        r := Response(200, Success(Updated, None), LeaveCookie);
      }
    }

    /** `deleteUser` for the caller `userId`. */
    method Delete(userId: Id) returns (r: Response)
      requires Valid()
      modifies this`users
      ensures Valid()
      ensures userId !in old(users) ==>
                r == Response(404, JsonError(UserNotFound), LeaveCookie) && users == old(users)
      ensures userId in old(users) ==>
                && users == old(users) - {userId}
                && |users| == |old(users)| - 1
                && r == Response(200, SuccessNoUser(Deleted), ClearedCookie(env))
    {
      if userId !in users {
        return Response(404, JsonError(UserNotFound), LeaveCookie);
      }
      RemoveKeepsTableValid(users, userId, env.isEmail);
      users := users - {userId};
      r := Response(200, SuccessNoUser(Deleted), ClearedCookie(env));
    }
  }

  /** Registering and then logging in with the same credentials succeeds
      and issues a session cookie for the new id, provided bcrypt accepts a
      password against its own digest and the address is valid as typed. */
  method RegisterThenLogin(store: UserStore, name: string, email: string, password: string, now: nat)
    returns (registered: Response, loggedIn: Response)
    requires store.Valid() && HashVerifies(store.env, password)
    modifies store
    ensures store.Valid()
    ensures registered.status == 201 && store.env.isEmail(email) ==>
              && loggedIn.status == 200
              && loggedIn.cookie == SessionCookie(store.env, store.env.sign(old(store.nextId), now / 1000), now)
  {
    registered := store.Register(Some(name), Some(email), Some(password), now);
    loggedIn := store.Login(Some(email), Some(password), now);
    if registered.status == 201 && store.env.isEmail(email) {
      var id := old(store.nextId);
      assert store.users[id].email == ToLower(email);
      assert CredentialsMatch(store.env, store.users, ToLower(email), password);
      var found := FindByEmail(store.users, ToLower(email));
      assert found == Some(id);
    }
  }
}
