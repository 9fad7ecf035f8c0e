/**
 * The foreign code the auth handlers call, as uninterpreted values:
 * validator.js's `isEmail`, bcryptjs's `hash`/`compare` and jsonwebtoken's
 * `sign`/`verify` under the server's one secret. Clock readings are integer
 * milliseconds since the epoch, passed in as `now`.
 */
module Collaborators {
  import opened Wrappers

  /** The JWT payload: `id` and `email` as signed, `iat`/`exp` in whole seconds. */
  datatype Claims = Claims(id: Option<int>, email: Option<string>, iat: int, exp: int)

  /** `expiresIn: '24h'` of session tokens and `'1h'` of reset tokens, in seconds. */
  const SESSION_LIFETIME_S: nat := 24 * 60 * 60
  const RESET_LIFETIME_S: nat := 60 * 60

  /** The payload of `generateToken(user)` issued at `now`. */
  function SessionClaims(id: int, email: string, now: nat): (c: Claims)
    ensures c.id == Some(id) && c.email == Some(email)
    ensures c.exp - c.iat == SESSION_LIFETIME_S && c.iat * 1000 <= now < (c.iat + 1) * 1000
  {
    Claims(Some(id), Some(email), now / 1000, now / 1000 + SESSION_LIFETIME_S)
  }

  /** The payload of the password-reset token issued at `now`: the email only. */
  function ResetClaims(email: string, now: nat): (c: Claims)
    ensures c.id.None? && c.email == Some(email)
    ensures c.exp - c.iat == RESET_LIFETIME_S && c.iat * 1000 <= now < (c.iat + 1) * 1000
  {
    Claims(None, Some(email), now / 1000, now / 1000 + RESET_LIFETIME_S)
  }

  datatype Services = Services(
    isEmail: string -> bool,                  // validator.js isEmail
    hash: (string, string) -> string,         // bcrypt.hash(password, salt)
    compare: (string, string) -> bool,        // bcrypt.compare(password, hash)
    sign: Claims -> string,                   // jwt.sign(payload, JWT_SECRET)
    verify: (string, nat) -> Option<Claims>   // jwt.verify(token, JWT_SECRET) at a clock reading
  )

  /** bcrypt accepts the password a hash was made from. */
  ghost predicate SoundBcrypt(s: Services) {
    forall password, salt :: s.compare(password, s.hash(password, salt))
  }

  /**
   * A token signed with the secret verifies, giving its payload back, until
   * the second `exp`; signed tokens contain no space (they are three
   * base64url segments joined by dots).
   */
  ghost predicate SoundJwt(s: Services) {
    && (forall c: Claims, now: nat :: now / 1000 < c.exp ==> s.verify(s.sign(c), now) == Some(c))
    && (forall c: Claims :: ' ' !in s.sign(c))
  }
}
