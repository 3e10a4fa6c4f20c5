/**
 * The tokens package the stores use. Its source is not part of this model:
 * GenerateToken is a stand-in that draws its random material from a
 * parameter and derives the stored digest from the plaintext.
 */
module Tokens {
  import opened Wrappers
  import opened Errors
  import opened Crypto

  /** tokens.ScopeAuth, the scope of authentication tokens. */
  const ScopeAuth: string := "authentication"

  /** tokens.Token; only Hash, UserID, Expiry and Scope are ever stored. */
  datatype Token = Token(plaintext: string, hash: Digest, userId: int, expiry: int, scope: string)

  /**
   * tokens.GenerateToken(userID, ttl, scope) at clock reading `now`.
   * `entropy` is the plaintext made from the random bytes drawn; None stands
   * for a failure of the random source.
   */
  function GenerateToken(userId: int, ttl: int, scope: string, now: int, entropy: Option<string>): (r: Result<Token>)
    ensures r.Ok? <==> entropy.Some?
    ensures r.Err? ==> r.error == ErrTokenGeneration
    ensures r.Ok? ==> r.value.plaintext == entropy.value && r.value.hash == Sha256(r.value.plaintext)
    ensures r.Ok? ==> r.value.userId == userId && r.value.scope == scope && r.value.expiry == now + ttl
  {
    match entropy
    case None => Err(ErrTokenGeneration)
    case Some(plaintext) => Ok(Token(plaintext, Sha256(plaintext), userId, now + ttl, scope))
  }
}
