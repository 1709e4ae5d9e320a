/** The collaborators the account core calls but does not implement: bcrypt,
    jsonwebtoken, the `validator` library's `isEmail` and symbol class, and
    the process configuration. Each is a value handed to the model, so every
    property proved holds for any behaviour of these libraries unless a lemma
    states an assumption about them explicitly. */
module Oracles {
  import opened Wrappers

  /** A user's `_id`. */
  type Id = nat

  /** The payload `jwt.verify` returns for a session token: the `id` it was
      signed with and `iat`, the issue time in whole seconds. */
  datatype Token = Token(id: Id, iat: int)

  datatype Env = Env(
    /** `hashPassword`: bcrypt with cost 12 (the salt is not modelled). */
    hash: string -> string,
    /** `comparePassword(plaintext, digest)`. */
    compare: (string, string) -> bool,
    /** `jwt.sign({id}, JWT_SECRET, {expiresIn})` at the given `iat`. */
    sign: (Id, int) -> string,
    /** `jwt.verify(token, JWT_SECRET)` now; `None` for any thrown error
        (bad signature, malformed or expired token). */
    verify: string -> Option<Token>,
    /** `validator.isEmail`. */
    isEmail: string -> bool,
    /** The symbol class of `validator.isStrongPassword`. */
    isSymbol: char -> bool,
    /** `process.env.NODE_ENV === "production"`. */
    production: bool,
    /** `parseInt(process.env.JWT_COOKIE_EXPIRES_IN, 10)`. */
    cookieExpiresIn: int)

  /** A password checks against its own digest (bcrypt's correctness). */
  predicate HashVerifies(env: Env, password: string) {
    env.compare(password, env.hash(password))
  }

  /** A token signed for `id` at `iat` is still accepted by `jwt.verify`
      (correct secret, not yet expired). */
  predicate TokenAccepted(env: Env, id: Id, iat: int) {
    env.verify(env.sign(id, iat)) == Some(Token(id, iat))
  }
}
