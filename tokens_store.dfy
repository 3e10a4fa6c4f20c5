/**
 * The token table: tokens are generated, their digest, owner, expiry and
 * scope inserted, and all tokens of a user in a scope deleted at once.
 */
module TokensStore {
  import opened Wrappers
  import opened Errors
  import opened Crypto
  import opened Tokens
  import opened Database
  import opened UserStore

  /** The row Insert writes for a token: never the plaintext. */
  function RowOf(t: Token): (r: TokenRow)
    ensures r.hash == t.hash && r.userId == t.userId && r.expiry == t.expiry && r.scope == t.scope
  {
    TokenRow(t.hash, t.userId, t.expiry, t.scope)
  }

  /** Whether `DELETE FROM tokens WHERE scope = $1 AND user_id = $2` removes the row. */
  predicate Revoked(t: TokenRow, scope: string, userId: int)
  {
    t.scope == scope && t.userId == userId
  }

  /** The rows the bulk delete keeps, in table order. */
  function TokensWithout(tokens: seq<TokenRow>, scope: string, userId: int): (kept: seq<TokenRow>)
    ensures |kept| <= |tokens|
    ensures forall t :: t in kept ==> t in tokens && !Revoked(t, scope, userId)
  {
    if tokens == [] then []
    else (if Revoked(tokens[0], scope, userId) then [] else [tokens[0]]) + TokensWithout(tokens[1..], scope, userId)
  }

  /** The bulk delete removes every row of that scope and user and keeps every other row. */
  lemma {:induction false} TokensWithoutMembers(tokens: seq<TokenRow>, scope: string, userId: int)
    ensures forall t :: t in TokensWithout(tokens, scope, userId) <==> t in tokens && !Revoked(t, scope, userId)
  {
    if tokens != [] {
      TokensWithoutMembers(tokens[1..], scope, userId);
      assert tokens == [tokens[0]] + tokens[1..];
    }
  }

  /** When no row matches, the bulk delete changes nothing (and succeeds). */
  lemma {:induction false} TokensWithoutNothingMatches(tokens: seq<TokenRow>, scope: string, userId: int)
    requires forall i :: 0 <= i < |tokens| ==> !Revoked(tokens[i], scope, userId)
    ensures TokensWithout(tokens, scope, userId) == tokens
  {
    if tokens != [] {
      TokensWithoutNothingMatches(tokens[1..], scope, userId);
      assert tokens == [tokens[0]] + tokens[1..];
    }
  }

  /** Deleting twice is deleting once. */
  lemma TokensWithoutIdempotent(tokens: seq<TokenRow>, scope: string, userId: int)
    ensures TokensWithout(TokensWithout(tokens, scope, userId), scope, userId) == TokensWithout(tokens, scope, userId)
  {
    var kept := TokensWithout(tokens, scope, userId);
    TokensWithoutMembers(tokens, scope, userId);
    forall i | 0 <= i < |kept| ensures !Revoked(kept[i], scope, userId) {
      assert kept[i] in kept;
    }
    TokensWithoutNothingMatches(kept, scope, userId);
  }

  /** store.PostgresTokensStore over the shared database. */
  class PostgresTokensStore {
    const db: Database

    constructor (db: Database)
      ensures this.db == db
    {
      this.db := db;
    }

    /**
     * CreateNewToken generates a token (`entropy` is the random material;
     * None stands for a failure of the generator) and inserts it. Either
     * failure is returned with no token; only a stored token is returned.
     */
    method CreateNewToken(userId: int, ttl: int, scope: string, now: int, entropy: Option<string>, dbFails: bool)
      returns (token: Option<Token>, err: Option<Error>)
      modifies db`tokens
      ensures err.Some? ==> token.None? && db.tokens == old(db.tokens)
      ensures entropy.None? ==> err == Some(ErrTokenGeneration)
      ensures entropy.Some? && dbFails ==> err == Some(ErrDatabase)
      ensures entropy.Some? && !dbFails ==> err == CheckColumn(db.tokenDigestColumn, "hash")
      ensures err.None? ==>
        && token == Some(GenerateToken(userId, ttl, scope, now, entropy).value)
        && token.value.plaintext == entropy.value && token.value.hash == Sha256(entropy.value)
        && token.value.userId == userId && token.value.scope == scope && token.value.expiry == now + ttl
        && db.tokens == old(db.tokens) + [RowOf(token.value)]
    {
      var generated := GenerateToken(userId, ttl, scope, now, entropy);
      if generated.Err? {
        return None, Some(generated.error);
      }
      err := Insert(generated.value, dbFails);
      if err.Some? {
        return None, err;
      }
      return Some(generated.value), None;
    }

    /** Insert writes digest, user id, expiry and scope into the `hash`, `user_id`, `expiry` and `scope` columns. */
    method Insert(token: Token, dbFails: bool) returns (err: Option<Error>)
      modifies db`tokens
      ensures dbFails ==> err == Some(ErrDatabase)
      ensures !dbFails ==> err == CheckColumn(db.tokenDigestColumn, "hash")
      ensures db.tokens == if err.None? then old(db.tokens) + [RowOf(token)] else old(db.tokens)
    {
      if dbFails {
        return Some(ErrDatabase);
      }
      err := CheckColumn(db.tokenDigestColumn, "hash");
      if err.None? {
        db.tokens := db.tokens + [RowOf(token)];
      }
    }

    /** DeleteAllForUser removes every token of that user in that scope; none is not an error. */
    method DeleteAllForUser(scope: string, userId: int, dbFails: bool) returns (err: Option<Error>)
      modifies db`tokens
      ensures err.None? <==> !dbFails
      ensures err.Some? ==> err.value == ErrDatabase
      ensures db.tokens == if dbFails then old(db.tokens) else TokensWithout(old(db.tokens), scope, userId)
    {
      if dbFails {
        return Some(ErrDatabase);
      }
      db.tokens := TokensWithout(db.tokens, scope, userId);
      return None;
    }
  }

  /**
   * As written, a token is never usable: for a `tokens` table with a single
   * digest column, whatever its name, and whatever the clock, when the
   * insert of a token succeeds the lookup of its plaintext fails on the
   * `token_hash` column.
   */
  method IssueThenAuthenticate(tokensStore: PostgresTokensStore, userStore: PostgresUserStore, userId: int,
                               ttl: int, now: int, later: int, entropy: Option<string>)
    returns (token: Option<Token>, user: User?, err: Option<Error>)
    requires tokensStore.db == userStore.db
    modifies tokensStore.db`tokens
    ensures token.Some? ==> user == null && err == Some(ErrUndefinedColumn("token_hash"))
  {
    var createErr;
    token, createErr := tokensStore.CreateNewToken(userId, ttl, ScopeAuth, now, entropy, false);
    if token.None? {
      return token, null, createErr;
    }
    TokenColumnsDisagree(userStore.db.tokenDigestColumn);
    user, err := userStore.GetUserToken(ScopeAuth, token.value.plaintext, later, false);
  }

  /**
   * With the lookup reading the column the insert writes, an issued token
   * authenticates its user before its expiry and no longer from then on
   * (given that no earlier token of the scope has the same digest).
   */
  method IssueThenAuthenticateCorrected(tokensStore: PostgresTokensStore, userStore: PostgresUserStore, userId: int,
                                        ttl: int, now: int, later: int, entropy: Option<string>)
    returns (token: Option<Token>, user: User?, err: Option<Error>)
    requires tokensStore.db == userStore.db
    requires UserById(userStore.db.users, userId).Some?
    requires entropy.Some? ==> forall i :: 0 <= i < |userStore.db.tokens| ==>
      !(userStore.db.tokens[i].scope == ScopeAuth && userStore.db.tokens[i].hash == Sha256(entropy.value))
    modifies tokensStore.db`tokens
    ensures token.Some? ==> err.None?
    ensures token.Some? && later < now + ttl ==> user != null && user.id == userId
    ensures token.Some? && later >= now + ttl ==> user == null
  {
    var createErr;
    token, createErr := tokensStore.CreateNewToken(userId, ttl, ScopeAuth, now, entropy, false);
    if token.None? {
      return token, null, createErr;
    }
    IssuedTokenAuthenticates(old(userStore.db.users), old(userStore.db.tokens), entropy.value, userId, now + ttl, ScopeAuth, later);
    user, err := userStore.GetUserTokenCorrected(ScopeAuth, token.value.plaintext, later, false);
  }
}
