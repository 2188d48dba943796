/**
  bcrypt and JSON Web Tokens as abstract functions.

  The model never looks inside a hash or a signature. A `Crypto` value bundles
  the four primitives the server calls (`bcrypt.hash`, `bcrypt.compare`,
  `jwt.sign`, `jwt.verify`), and `Lawful` states the only facts the model
  relies on:
  - a password always compares equal to any hash of itself;
  - a signed claim set verifies, under the same secret, back to itself exactly
    while the current time is before its `exp` claim (section 4.1.4 of RFC 7519:
    the token must not be accepted on or after the expiration time);
  - whatever `verify` accepts is unexpired;
  - a signed token is a non-empty string without spaces, as the compact
    serialisation of section 7.1 of RFC 7515 (three base64url parts joined by
    dots) always is.
  Salts and the clock are explicit parameters, never hidden state.
 */
module Crypto {
  import opened Wrappers

  /** A bcrypt salt; `bcrypt.hash` draws a fresh one on every call. */
  type Salt = nat

  /** The payload the server signs: `{userId, email, role}` plus the registered
      `iat` and `exp` claims that `expiresIn` adds, in seconds since the epoch. */
  datatype Claims = Claims(userId: int, email: string, role: string, iat: int, exp: int)

  datatype Crypto = Crypto(
    hash: (string, Salt) -> string,
    compare: (string, string) -> bool,
    sign: (Claims, string) -> string,
    verify: (string, string, int) -> Option<Claims>)

  /** `expiresIn: '24h'`, in seconds. */
  const TokenLifetime: int := 24 * 60 * 60

  ghost predicate Lawful(c: Crypto) {
    && (forall p, salt :: c.compare(p, c.hash(p, salt)))
    && (forall cl, secret, now ::
          c.verify(c.sign(cl, secret), secret, now) == if now < cl.exp then Some(cl) else None)
    && (forall token, secret, now ::
          c.verify(token, secret, now).Some? ==> now < c.verify(token, secret, now).value.exp)
    && (forall cl, secret :: c.sign(cl, secret) != "" && ' ' !in c.sign(cl, secret))
  }

  /** The claims `jwt.sign(payload, secret, { expiresIn: '24h' })` embeds when
      called at time `now`. */
  function Issue(userId: int, email: string, role: string, now: int): (cl: Claims)
    ensures cl.exp - cl.iat == TokenLifetime && cl.iat == now
    ensures cl.userId == userId && cl.email == email && cl.role == role
  {
    Claims(userId, email, role, now, now + TokenLifetime)
  }

  /** A token issued at `iat` is accepted exactly during the 24 hours that follow. */
  lemma IssuedTokenLifetime(c: Crypto, secret: string, userId: int, email: string, role: string,
                            iat: int, now: int)
    requires Lawful(c)
    ensures var cl := Issue(userId, email, role, iat);
            c.verify(c.sign(cl, secret), secret, now)
            == if now < iat + TokenLifetime then Some(cl) else None
  {
  }
}
