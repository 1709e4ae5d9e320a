/** The `USer` model: the constraints the schema puts on one stored document,
    and the invariant they impose on the whole table (a map from `_id` to
    document). */
module UserSchema {
  import opened Wrappers
  import opened Text
  import opened Oracles

  const MaxNameLength: nat := 50
  const MinPasswordLength: nat := 6

  /** A stored user. `isVerified` and `passwordChangedAt` are read by the
      authentication gate but not declared by the schema and written by no
      operation modelled here, so they are optional and only ever copied. */
  datatype User = User(
    name: string,
    email: string,
    password: string,
    timestamp: int,
    isVerified: Option<bool>,
    passwordChangedAt: Option<int>)

  /** A user as sent in a response: every field but the password digest. */
  datatype PublicUser = PublicUser(
    id: Id,
    name: string,
    email: string,
    timestamp: int,
    isVerified: Option<bool>,
    passwordChangedAt: Option<int>)

  /** A response record with a digest put back: the inverse of `ForResponse`. */
  function WithPassword(p: PublicUser, digest: string): User {
    User(p.name, p.email, digest, p.timestamp, p.isVerified, p.passwordChangedAt)
  }

  /** The response copy of a document with `password` deleted: it has no
      password field, and putting the stored digest back gives the document
      again, so nothing but the password is dropped. */
  function ForResponse(id: Id, u: User): (p: PublicUser)
    ensures p.id == id && WithPassword(p, u.password) == u
  {
    PublicUser(id, u.name, u.email, u.timestamp, u.isVerified, u.passwordChangedAt)
  }

  /** The schema's per-document validators: `name` required and at most 50
      characters, `email` required, a valid address and lower-cased,
      `password` required and at least 6 characters. (A required string
      fails on the empty string; lengths are JavaScript's UTF-16 lengths.)
      A valid stored address is a fixed point of the `lowercase` setter. */
  predicate UserValid(u: User, isEmail: string -> bool)
    ensures UserValid(u, isEmail) ==> ToLower(u.email) == u.email && 0 < |u.name| <= MaxNameLength
  {
    && u.name != [] && JsLength(u.name) <= MaxNameLength
    && u.email != [] && isEmail(u.email) && IsLowerCased(u.email)
    && JsLength(u.password) >= MinPasswordLength
  }

  /** `unique: true` on `email`. */
  predicate EmailsUnique(users: map<Id, User>) {
    forall a, b :: a in users && b in users && a != b ==> users[a].email != users[b].email
  }

  /** No document carries the `isVerified` flag. */
  predicate NoneVerified(users: map<Id, User>) {
    forall id :: id in users ==> users[id].isVerified.None?
  }

  /** The invariant every table reachable through the controllers keeps.
      In a valid table an address names at most one user. */
  predicate TableValid(users: map<Id, User>, isEmail: string -> bool)
    ensures TableValid(users, isEmail) ==>
      forall a, b :: a in users && b in users && users[a].email == users[b].email ==> a == b
  {
    && (forall id :: id in users ==> UserValid(users[id], isEmail))
    && EmailsUnique(users)
  }

  /** Every digest the hasher produces meets the schema's `minlength`
      (bcrypt digests are 60 characters). Updates bypass the validators, so
      the invariant rests on this. */
  ghost predicate DigestsLongEnough(env: Env) {
    forall p: string :: JsLength(env.hash(p)) >= MinPasswordLength
  }

  /** The document `User.create({name, email, password})` builds at time
      `now`: the email passed through the `lowercase` setter, `timestamp`
      defaulted to the creation time, and no verification state. */
  function NewUser(name: string, email: string, digest: string, now: int): (u: User)
    ensures u.email == ToLower(email) && IsLowerCased(u.email)
    ensures u.timestamp == now && u.password == digest && u.name == name
    ensures u.isVerified == None && u.passwordChangedAt == None
  {
    User(name, ToLower(email), digest, now, None, None)
  }

  /** When `User.create` accepts a document: a non-empty name of at most 50
      UTF-16 units, a non-empty address valid after lower-casing, and a
      digest of at least 6 units. */
  lemma NewUserValidIff(name: string, email: string, digest: string, now: int, isEmail: string -> bool)
    ensures UserValid(NewUser(name, email, digest, now), isEmail) <==>
      && name != [] && JsLength(name) <= MaxNameLength
      && email != [] && isEmail(ToLower(email))
      && JsLength(digest) >= MinPasswordLength
  {
  }

  predicate EmailTaken(users: map<Id, User>, email: string) {
    exists id :: id in users && users[id].email == email
  }

  /** `User.findOne({email})`: the one user holding that (already
      lower-cased) address, if any. */
  function FindByEmail(users: map<Id, User>, email: string): (r: Option<Id>)
    requires EmailsUnique(users)
    ensures r.Some? <==> EmailTaken(users, email)
    ensures r.Some? ==> r.value in users && users[r.value].email == email
    ensures forall id :: id in users && users[id].email == email ==> r == Some(id)
  {
    if EmailTaken(users, email) then
      var id :| id in users && users[id].email == email; Some(id)
    else None
  }

  /** Inserting a valid document under a fresh id with an address not yet
      present keeps the table valid and adds exactly one user. */
  lemma InsertKeepsTableValid(users: map<Id, User>, id: Id, u: User, isEmail: string -> bool)
    requires TableValid(users, isEmail) && id !in users
    requires UserValid(u, isEmail) && !EmailTaken(users, u.email)
    ensures TableValid(users[id := u], isEmail)
    ensures |users[id := u]| == |users| + 1
  {
  }

  /** Replacing a document by a valid one with the same address keeps the
      table valid. */
  lemma ReplaceKeepsTableValid(users: map<Id, User>, id: Id, u: User, isEmail: string -> bool)
    requires TableValid(users, isEmail) && id in users
    requires UserValid(u, isEmail) && u.email == users[id].email
    ensures TableValid(users[id := u], isEmail)
  {
  }

  /** Removing a document keeps the table valid and drops exactly one user. */
  lemma RemoveKeepsTableValid(users: map<Id, User>, id: Id, isEmail: string -> bool)
    requires TableValid(users, isEmail) && id in users
    ensures TableValid(users - {id}, isEmail)
    ensures |users - {id}| == |users| - 1
  {
  }
}
