/** The two cryptographic libraries the backend calls: bcrypt for passwords
    and JSON Web Tokens for identity. Both are foreign code; the model keeps
    only the behaviour the resolvers depend on. */
module Crypto {
  import opened Wrappers
  import opened Schema

  /** Work factor passed to `bcrypt.hash` at registration. */
  const SaltRounds: nat := 10

  /** A symbolic bcrypt digest. The salt is the random input of `bcrypt.hash`
      and is a parameter of the model. The digest keeps the password it was
      made from, so equal passwords verify and distinct ones never collide;
      one-wayness is not modelled. */
  datatype PasswordHash = Bcrypt(cost: nat, salt: nat, password: string)

  function Hash(password: string, cost: nat, salt: nat): PasswordHash {
    Bcrypt(cost, salt, password)
  }

  /** Whether a password matches a stored digest (resolvers.ts:102). */
  predicate Compare(password: string, hash: PasswordHash) {
    hash.password == password
  }

  /** Signing a token that carries a user id (resolvers.ts:107, 126) and
      verifying one (auth.ts:17), both with the one process-wide secret. `verify` yields `None` where the
      library throws (bad signature, malformed token, missing claim). */
  datatype TokenScheme = TokenScheme(sign: Id -> string, verify: string -> Option<Id>)

  /** What a JWT library guarantees: a signed token is a non-empty string
      that verifies back to the user id it was signed with. */
  ghost predicate Sound(tokens: TokenScheme) {
    forall id: Id :: tokens.sign(id) != "" && tokens.verify(tokens.sign(id)) == Some(id)
  }
}
