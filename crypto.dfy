/**
 * bcrypt and jsonwebtoken, seen from the application: abstract functions passed in as
 * values, with the two facts the application relies on stated as predicates that a
 * caller may assume about them.
 */
module Crypto {

  /** A document identifier (a MongoDB ObjectId); only its identity matters here. */
  type ObjectId = nat

  /** A value of a JSON Web Token payload: an ObjectId (as `_id` carries) or a string. */
  datatype ClaimValue = IdClaim(id: ObjectId) | TextClaim(text: string)

  /** A token payload, from claim name to value. */
  type Claims = map<string, ClaimValue>

  /** What jwt.verify yields: the decoded payload, or an error with its message. */
  datatype Verification = Decoded(claims: Claims) | Rejected(message: string)

  datatype Primitives = Primitives(
    hash: (string, nat) -> string,            // bcrypt.hash(plaintext, saltRounds)
    compare: (string, string) -> bool,        // bcrypt.compare(plaintext, digest)
    sign: (Claims, string, string) -> string, // jwt.sign(payload, secret, expiresIn)
    verify: (string, string) -> Verification  // jwt.verify(token, secret)
  )

  /** The secrets and lifetimes read from the environment. */
  datatype Secrets = Secrets(
    accessSecret: string, accessExpiry: string,
    refreshSecret: string, refreshExpiry: string
  )

  /** The bcrypt cost factor the pre-save hook passes. */
  const SaltRounds: nat := 10

  /** bcrypt.compare accepts a plaintext against its own digest. */
  ghost predicate CompareAcceptsHash(p: Primitives) {
    forall pw :: p.compare(pw, p.hash(pw, SaltRounds))
  }

  /** Verifying a token with the secret it was signed with gives back its payload, and tokens are never empty. */
  ghost predicate VerifyInvertsSign(p: Primitives) {
    forall c, secret, expiry ::
      p.verify(p.sign(c, secret, expiry), secret) == Decoded(c) && p.sign(c, secret, expiry) != ""
  }
}
