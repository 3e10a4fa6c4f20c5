/**
 * Stand-ins for the two cryptographic primitives the core calls: SHA-256
 * (token digests) and bcrypt (password hashes). Both are transparent and
 * injective, which is exactly what the code relies on; one-wayness and
 * constant-time comparison are not expressible here and are not modelled.
 */
module Crypto {
  import opened Wrappers
  import opened Errors

  /** A SHA-256 digest, identified with the input it was computed from. */
  datatype Digest = Sha256Of(input: string)

  /** sha256.Sum256 */
  function Sha256(data: string): (d: Digest)
    ensures forall other: string {:trigger Sha256Of(other)} :: d == Sha256Of(other) <==> other == data
  {
    Sha256Of(data)
  }

  /** The bytes held in a password hash field or in the users.password_hash column. */
  datatype Hash =
    | NilHash                                   // a nil []byte: no hash was ever set
    | Bcrypt(cost: nat, salt: nat, key: string) // what GenerateFromPassword produces
    | Malformed                                 // any other byte string

  /** bcrypt.DefaultCost */
  const DefaultCost: nat := 10

  /**
   * bcrypt.GenerateFromPassword. `salt` is the random salt the primitive draws;
   * None stands for every failure of the primitive.
   */
  function GenerateFromPassword(password: string, cost: nat, salt: Option<nat>): (r: Result<Hash>)
    ensures r.Ok? <==> salt.Some?
    ensures r.Err? ==> r.error == ErrHashing
    ensures r.Ok? ==> r.value.Bcrypt? && r.value.cost == cost && r.value.salt == salt.value
  {
    match salt
    case None => Err(ErrHashing)
    case Some(s) => Ok(Bcrypt(cost, s, password))
  }

  /** bcrypt.CompareHashAndPassword: no error exactly on a match. */
  function CompareHashAndPassword(hashed: Hash, password: string): (r: Option<Error>)
    ensures r.None? || r == Some(ErrMismatchedHashAndPassword) || r == Some(ErrMalformedHash)
    ensures r == Some(ErrMalformedHash) <==> !hashed.Bcrypt?
  {
    match hashed
    case Bcrypt(_, _, key) => if key == password then None else Some(ErrMismatchedHashAndPassword)
    case _ => Some(ErrMalformedHash)
  }

  /** A hash generated from `p` is matched by `p` and reported as a plain mismatch for every other password. */
  lemma GeneratedHashMatchesOnlyItsPassword(p: string, q: string, cost: nat, salt: nat)
    ensures GenerateFromPassword(p, cost, Some(salt)).Ok?
    ensures CompareHashAndPassword(GenerateFromPassword(p, cost, Some(salt)).value, q).None? <==> q == p
    ensures q != p ==>
      CompareHashAndPassword(GenerateFromPassword(p, cost, Some(salt)).value, q) == Some(ErrMismatchedHashAndPassword)
  {
  }
}
