/**
 * The identity store: the password type (bcrypt hash plus in-memory
 * plaintext), the User record with its anonymous sentinel, and the users
 * table with the lookups by username and by bearer token.
 */
module UserStore {
  import opened Wrappers
  import opened Errors
  import opened Crypto
  import opened Database

  /** store.password: the plaintext, kept in memory only, and its bcrypt hash. */
  class Password {
    var plainText: string
    var hash: Hash

    /** The zero value: an empty plaintext and a nil hash. */
    constructor ()
      ensures plainText == "" && hash == NilHash
    {
      plainText := "";
      hash := NilHash;
    }

    /**
     * password.Set records the plaintext and then hashes it at the default
     * cost. `salt` is the salt bcrypt draws; None stands for a failure of the
     * primitive, which leaves the previous hash in place although the
     * plaintext has already been overwritten.
     */
    method Set(plainText: string, salt: Option<nat>) returns (err: Option<Error>)
      modifies this
      ensures this.plainText == plainText
      ensures err.None? <==> salt.Some?
      ensures err.Some? ==> err.value == ErrHashing && hash == old(hash)
      ensures err.None? ==> hash.Bcrypt? && hash.cost == DefaultCost && hash.salt == salt.value
      ensures err.None? ==> CompareHashAndPassword(hash, plainText).None?
      ensures err.None? ==> forall q :: q != plainText ==> CompareHashAndPassword(hash, q) == Some(ErrMismatchedHashAndPassword)
    {
      this.plainText := plainText;
      var generated := GenerateFromPassword(plainText, DefaultCost, salt);
      if generated.Err? {
        return Some(generated.error);
      }
      hash := generated.value;
      return None;
    }

    /**
     * password.Matches: (true, nil) when bcrypt accepts the candidate,
     * (false, nil) on a plain mismatch, and (false, err) on any other failure
     * of the primitive. True never comes with an error.
     */
    function Matches(plainText: string): (r: (bool, Option<Error>))
      reads this
      ensures !(r.0 && r.1.Some?)
      ensures r.0 <==> CompareHashAndPassword(hash, plainText).None?
      ensures r == (false, None) <==> CompareHashAndPassword(hash, plainText) == Some(ErrMismatchedHashAndPassword)
      ensures r.1.Some? ==> r.1 == CompareHashAndPassword(hash, plainText)
    {
      var err := CompareHashAndPassword(hash, plainText);
      if err.None? then (true, None)
      else if err.value == ErrMismatchedHashAndPassword then (false, None)
      else (false, err)
    }
  }

  /** A password that was set successfully matches exactly its own plaintext, and neither outcome is an error. */
  lemma SetPasswordMatchesOnlyItself(pw: Password, p: string, q: string, salt: nat)
    requires pw.hash == GenerateFromPassword(p, DefaultCost, Some(salt)).value
    ensures pw.Matches(p) == (true, None)
    ensures q != p ==> pw.Matches(q) == (false, None)
  {
    GeneratedHashMatchesOnlyItsPassword(p, q, DefaultCost, salt);
  }

  /** A password that was never set (nil hash) matches nothing and reports a primitive error, not a mismatch. */
  lemma UnsetPasswordIsAnError(pw: Password, q: string)
    requires pw.hash == NilHash
    ensures pw.Matches(q).0 == false && pw.Matches(q).1 == Some(ErrMalformedHash)
  {
  }

  /** store.User. The password is a value inside the record, here an object the user owns. */
  class User {
    var id: int
    var username: string
    var email: string
    const passwordHash: Password
    var bio: string
    var createdAt: int
    var updatedAt: int

    /** The zero value `&User{}`; store.AnonymousUser is one such object, made once. */
    constructor ()
      ensures id == 0 && username == "" && email == "" && bio == "" && createdAt == 0 && updatedAt == 0
      ensures fresh(passwordHash) && passwordHash.plainText == "" && passwordHash.hash == NilHash
    {
      id, username, email, bio, createdAt, updatedAt := 0, "", "", "", 0, 0;
      passwordHash := new Password();
    }

    /** The user scanned from a row of `users`, with an empty plaintext. */
    constructor FromRow(row: UserRow)
      ensures Row() == row
      ensures fresh(passwordHash) && passwordHash.plainText == ""
    {
      id, username, email, bio, createdAt, updatedAt := row.id, row.username, row.email, row.bio, row.createdAt, row.updatedAt;
      passwordHash := new Password();
      new;
      passwordHash.hash := row.passwordHash;
    }

    /** The columns of `users` this user corresponds to. */
    function Row(): UserRow
      reads this, passwordHash
    {
      UserRow(id, username, email, passwordHash.hash, bio, createdAt, updatedAt)
    }

    /** User.IsAnonymous: identity with the sentinel, never a comparison of fields. */
    predicate IsAnonymous(anonymousUser: User)
    {
      this == anonymousUser
    }
  }

  /**
   * A freshly made zero-valued user has every field of the zero-valued
   * sentinel and is still not anonymous: only the sentinel object is.
   */
  method ZeroUserIsNotAnonymous(anonymousUser: User) returns (u: User)
    requires anonymousUser.id == 0 && anonymousUser.username == "" && anonymousUser.email == ""
    requires anonymousUser.bio == "" && anonymousUser.createdAt == 0 && anonymousUser.updatedAt == 0
    requires anonymousUser.passwordHash.hash == NilHash
    ensures fresh(u)
    ensures u.Row() == anonymousUser.Row()
    ensures !u.IsAnonymous(anonymousUser) && anonymousUser.IsAnonymous(anonymousUser)
  {
    u := new User();
  }

  /** The first row of `users` with that username. */
  function UserByUsername(users: seq<UserRow>, username: string): (r: Option<UserRow>)
    ensures r.Some? ==> r.value in users && r.value.username == username
  {
    if users == [] then None
    else if users[0].username == username then Some(users[0])
    else UserByUsername(users[1..], username)
  }

  /** The first row of `users` with that id. */
  function UserById(users: seq<UserRow>, id: int): (r: Option<UserRow>)
  {
    if users == [] then None
    else if users[0].id == id then Some(users[0])
    else UserById(users[1..], id)
  }

  /** The lookup by username finds a row exactly when the table holds one with that username, and it is that row. */
  lemma {:induction false} UserByUsernameFinds(users: seq<UserRow>, username: string)
    ensures UserByUsername(users, username).None? <==> forall i :: 0 <= i < |users| ==> users[i].username != username
    ensures UserByUsername(users, username).Some? ==>
      UserByUsername(users, username).value in users && UserByUsername(users, username).value.username == username
  {
    if users != [] {
      UserByUsernameFinds(users[1..], username);
      if users[0].username != username {
        forall i | 0 < i < |users| ensures users[i] == users[1..][i - 1] {}
      }
    }
  }

  /** The lookup by id finds a row exactly when the table holds one with that id, and it is that row. */
  lemma {:induction false} UserByIdFinds(users: seq<UserRow>, id: int)
    ensures UserById(users, id).None? <==> forall i :: 0 <= i < |users| ==> users[i].id != id
    ensures UserById(users, id).Some? ==> UserById(users, id).value in users && UserById(users, id).value.id == id
  {
    if users != [] {
      UserByIdFinds(users[1..], id);
      if users[0].id != id {
        forall i | 0 < i < |users| ensures users[i] == users[1..][i - 1] {}
      }
    }
  }

  /** Whether a token row authenticates: its scope and digest are the ones presented and it expires strictly after now. */
  predicate LiveMatch(t: TokenRow, scope: string, digest: Digest, now: int)
  {
    t.scope == scope && t.hash == digest && t.expiry > now
  }

  /**
   * The user row the token query joins to: the first token row in table
   * order that matches and whose user exists, then that user.
   */
  function TokenUser(users: seq<UserRow>, tokens: seq<TokenRow>, scope: string, digest: Digest, now: int): (r: Option<UserRow>)
    ensures r.Some? ==> exists t :: t in tokens && LiveMatch(t, scope, digest, now) && r == UserById(users, t.userId)
  {
    if tokens == [] then None
    else if LiveMatch(tokens[0], scope, digest, now) && UserById(users, tokens[0].userId).Some? then
      UserById(users, tokens[0].userId)
    else TokenUser(users, tokens[1..], scope, digest, now)
  }

  /**
   * The token query returns a user exactly when some token row has the scope,
   * the digest and an expiry strictly after now and belongs to a stored user;
   * the user returned is the owner of such a row. An expired token is thus
   * treated exactly like an absent one.
   */
  lemma {:induction false} TokenUserFinds(users: seq<UserRow>, tokens: seq<TokenRow>, scope: string, digest: Digest, now: int)
    ensures TokenUser(users, tokens, scope, digest, now).Some? <==>
      exists i :: 0 <= i < |tokens| && LiveMatch(tokens[i], scope, digest, now) && UserById(users, tokens[i].userId).Some?
    ensures TokenUser(users, tokens, scope, digest, now).Some? ==>
      var u := TokenUser(users, tokens, scope, digest, now).value;
      u in users && exists i :: 0 <= i < |tokens| && LiveMatch(tokens[i], scope, digest, now) && tokens[i].userId == u.id
  {
    if tokens != [] {
      TokenUserFinds(users, tokens[1..], scope, digest, now);
      UserByIdFinds(users, tokens[0].userId);
      if !(LiveMatch(tokens[0], scope, digest, now) && UserById(users, tokens[0].userId).Some?) {
        if exists i :: 0 <= i < |tokens| && LiveMatch(tokens[i], scope, digest, now) && UserById(users, tokens[i].userId).Some? {
          var i :| 0 <= i < |tokens| && LiveMatch(tokens[i], scope, digest, now) && UserById(users, tokens[i].userId).Some?;
          assert i > 0 && tokens[1..][i - 1] == tokens[i];
        }
        if TokenUser(users, tokens, scope, digest, now).Some? {
          var u := TokenUser(users, tokens, scope, digest, now).value;
          var j :| 0 <= j < |tokens[1..]| && LiveMatch(tokens[1..][j], scope, digest, now) && tokens[1..][j].userId == u.id;
          assert tokens[j + 1] == tokens[1..][j];
        }
      }
    }
  }

  /**
   * Token round trip on the tables: a token row just added for a stored user
   * authenticates its plaintext until, and not at or after, its expiry,
   * provided no other row carries the same digest in that scope.
   */
  lemma IssuedTokenAuthenticates(users: seq<UserRow>, tokens: seq<TokenRow>, plaintext: string, userId: int,
                                 expiry: int, scope: string, now: int)
    requires UserById(users, userId).Some?
    requires forall i :: 0 <= i < |tokens| ==> !(tokens[i].scope == scope && tokens[i].hash == Sha256(plaintext))
    ensures var found := TokenUser(users, tokens + [TokenRow(Sha256(plaintext), userId, expiry, scope)], scope, Sha256(plaintext), now);
      && (now < expiry ==> found.Some? && found.value.id == userId)
      && (now >= expiry ==> found.None?)
  {
    var all := tokens + [TokenRow(Sha256(plaintext), userId, expiry, scope)];
    TokenUserFinds(users, all, scope, Sha256(plaintext), now);
    UserByIdFinds(users, userId);
    if now < expiry {
      assert LiveMatch(all[|tokens|], scope, Sha256(plaintext), now);
    }
  }

  /** store.PostgresUserStore over the shared database. */
  class PostgresUserStore {
    const db: Database

    constructor (db: Database)
      ensures this.db == db
    {
      this.db := db;
    }

    /**
     * CreateUser inserts the username, email, password hash (never the
     * plaintext) and bio; the database assigns the id and both timestamps,
     * which are written back into the user. A username already stored
     * violates the unique constraint; the id drawn for the rejected row is
     * not given back to the sequence.
     */
    method CreateUser(user: User, now: int, dbFails: bool) returns (err: Option<Error>)
      requires db.Valid()
      modifies db`users, db`userIdSeq, user
      ensures db.Valid()
      ensures user.username == old(user.username) && user.email == old(user.email) && user.bio == old(user.bio)
      ensures err.None? <==> !dbFails && UserByUsername(old(db.users), user.username).None?
      ensures err.Some? ==> err.value == (if dbFails then ErrDatabase else ErrUniqueViolation)
      ensures err.None? ==>
        && user.id == old(db.userIdSeq) && user.id != 0
        && user.createdAt == now && user.updatedAt == now
        && db.users == old(db.users) + [UserRow(user.id, user.username, user.email, user.passwordHash.hash, user.bio, now, now)]
        && db.userIdSeq == old(db.userIdSeq) + 1
      ensures err.Some? ==>
        && db.users == old(db.users)
        && user.id == old(user.id) && user.createdAt == old(user.createdAt) && user.updatedAt == old(user.updatedAt)
        && db.userIdSeq == old(db.userIdSeq) + (if dbFails then 0 else 1)
    {
      if dbFails {
        return Some(ErrDatabase);
      }
      var id := db.userIdSeq;
      db.userIdSeq := id + 1;
      UserByUsernameFinds(db.users, user.username);
      if UserByUsername(db.users, user.username).Some? {
        return Some(ErrUniqueViolation);
      }
      var row := UserRow(id, user.username, user.email, user.passwordHash.hash, user.bio, now, now);
      db.users := db.users + [row];
      user.id, user.createdAt, user.updatedAt := id, now, now;
      return None;
    }

    /**
     * GetUserByUsername scans the row with that username into a new user;
     * no such row is (nil, nil), not an error.
     */
    method GetUserByUsername(username: string, dbFails: bool) returns (user: User?, err: Option<Error>)
      ensures dbFails ==> user == null && err == Some(ErrDatabase)
      ensures !dbFails ==> err.None?
      ensures err.None? ==> (user == null <==> UserByUsername(db.users, username).None?)
      ensures user != null ==> fresh(user) && fresh(user.passwordHash) && user.passwordHash.plainText == ""
      ensures user != null ==> Some(user.Row()) == UserByUsername(db.users, username) && user.username == username
    {
      if dbFails {
        return null, Some(ErrDatabase);
      }
      var found := UserByUsername(db.users, username);
      UserByUsernameFinds(db.users, username);
      if found.None? {
        return null, None;
      }
      user := new User.FromRow(found.value);
      return user, None;
    }

    /**
     * UpdateUser as written: the statement has four placeholders ($1..$4,
     * the last one selecting the row by username) but only three arguments
     * are passed, so it fails on every call and no row is ever updated.
     */
    method UpdateUser(user: User, dbFails: bool) returns (err: Option<Error>)
      ensures err.Some?
      ensures dbFails ==> err == Some(ErrDatabase)
      ensures !dbFails ==> err == Some(ErrArgumentCount(4, 3))
    {
      if dbFails {
        return Some(ErrDatabase);
      }
      var args := [user.email, user.username, user.bio];
      err := BindArguments(4, |args|);
    }

    /**
     * UpdateUser as evidently intended: the username is passed again as $4.
     * The row with that username gets the new email and bio and updated_at =
     * NOW(); no such row is ErrNoRows, and then nothing changes.
     */
    method UpdateUserCorrected(user: User, now: int, dbFails: bool) returns (err: Option<Error>)
      requires db.Valid()
      modifies db`users
      ensures db.Valid()
      ensures err.Some? ==> db.users == old(db.users)
      ensures err == Some(ErrDatabase) <==> dbFails
      ensures err == Some(ErrNoRows) <==> !dbFails && UserByUsername(old(db.users), user.username).None?
      ensures err.None? ==> db.users == UsersUpdated(old(db.users), user.username, user.email, user.bio, now)
    {
      if dbFails {
        return Some(ErrDatabase);
      }
      var args := [user.email, user.username, user.bio, user.username];
      assert BindArguments(4, |args|).None?;
      UserByUsernameFinds(db.users, user.username);
      if UserByUsername(db.users, user.username).None? {
        return Some(ErrNoRows);
      }
      UsersUpdatedKeepsUsersOk(db.users, db.userIdSeq, user.username, user.email, user.bio, now);
      db.users := UsersUpdated(db.users, user.username, user.email, user.bio, now);
      return None;
    }

    /**
     * GetUserToken as written: it recomputes the SHA-256 digest of the
     * presented plaintext and joins users to the live token rows of the
     * scope, reading the digest from column `token_hash`.
     */
    method GetUserToken(scope: string, plaintext: string, now: int, dbFails: bool) returns (user: User?, err: Option<Error>)
      ensures dbFails ==> user == null && err == Some(ErrDatabase)
      ensures !dbFails ==> err == CheckColumn(db.tokenDigestColumn, "token_hash")
      ensures err.Some? ==> user == null
      ensures err.None? ==> (user == null <==> TokenUser(db.users, db.tokens, scope, Sha256(plaintext), now).None?)
      ensures user != null ==> fresh(user) && fresh(user.passwordHash)
      ensures user != null ==> Some(user.Row()) == TokenUser(db.users, db.tokens, scope, Sha256(plaintext), now)
    {
      user, err := LookupToken("token_hash", scope, plaintext, now, dbFails);
    }

    /** GetUserToken reading the digest from column `hash`, the one Insert writes. */
    method GetUserTokenCorrected(scope: string, plaintext: string, now: int, dbFails: bool) returns (user: User?, err: Option<Error>)
      ensures dbFails ==> user == null && err == Some(ErrDatabase)
      ensures !dbFails ==> err == CheckColumn(db.tokenDigestColumn, "hash")
      ensures err.Some? ==> user == null
      ensures err.None? ==> (user == null <==> TokenUser(db.users, db.tokens, scope, Sha256(plaintext), now).None?)
      ensures user != null ==> fresh(user) && fresh(user.passwordHash)
      ensures user != null ==> Some(user.Row()) == TokenUser(db.users, db.tokens, scope, Sha256(plaintext), now)
    {
      user, err := LookupToken("hash", scope, plaintext, now, dbFails);
    }

    /** The token query reading the digest from `column`; a QueryRow with no row is (nil, nil). */
    method LookupToken(column: string, scope: string, plaintext: string, now: int, dbFails: bool)
      returns (user: User?, err: Option<Error>)
      ensures dbFails ==> user == null && err == Some(ErrDatabase)
      ensures !dbFails ==> err == CheckColumn(db.tokenDigestColumn, column)
      ensures err.Some? ==> user == null
      ensures err.None? ==> (user == null <==> TokenUser(db.users, db.tokens, scope, Sha256(plaintext), now).None?)
      ensures user != null ==> fresh(user) && fresh(user.passwordHash)
      ensures user != null ==> Some(user.Row()) == TokenUser(db.users, db.tokens, scope, Sha256(plaintext), now)
    {
      if dbFails {
        return null, Some(ErrDatabase);
      }
      err := CheckColumn(db.tokenDigestColumn, column);
      if err.Some? {
        return null, err;
      }
      var tokenHash := Sha256(plaintext);
      var found := TokenUser(db.users, db.tokens, scope, tokenHash, now);
      if found.None? {
        return null, None;
      }
      user := new User.FromRow(found.value);
    }
  }

  /** `UPDATE users SET email, username, bio, updated_at WHERE username = $4` with $2 = $4: only email, bio and updated_at change. */
  function UsersUpdated(users: seq<UserRow>, username: string, email: string, bio: string, now: int): (r: seq<UserRow>)
    ensures |r| == |users|
    ensures forall i :: 0 <= i < |users| && users[i].username != username ==> r[i] == users[i]
    ensures forall i :: 0 <= i < |users| && users[i].username == username ==>
      r[i] == users[i].(email := email, bio := bio, updatedAt := now)
  {
    seq(|users|, i requires 0 <= i < |users| =>
      if users[i].username == username then users[i].(email := email, bio := bio, updatedAt := now) else users[i])
  }

  /**
   * Read after update: looking up the updated username finds its row with
   * the new email, bio and updated_at and everything else (id, username,
   * hash, created_at) as before; any other username finds what it found
   * before.
   */
  lemma {:induction false} UsersUpdatedFinds(users: seq<UserRow>, username: string, email: string, bio: string, now: int,
                                             name: string)
    ensures var before := UserByUsername(users, name);
      UserByUsername(UsersUpdated(users, username, email, bio, now), name)
        == if name == username && before.Some? then Some(before.value.(email := email, bio := bio, updatedAt := now))
           else before
  {
    if users != [] {
      var after := UsersUpdated(users, username, email, bio, now);
      assert after[1..] == UsersUpdated(users[1..], username, email, bio, now);
      UsersUpdatedFinds(users[1..], username, email, bio, now, name);
    }
  }

  /** The corrected update keeps ids and usernames, hence the table invariant. */
  lemma UsersUpdatedKeepsUsersOk(users: seq<UserRow>, userIdSeq: int, username: string, email: string, bio: string, now: int)
    requires UsersOk(users, userIdSeq)
    ensures UsersOk(UsersUpdated(users, username, email, bio, now), userIdSeq)
  {
  }

  /**
   * The token digest columns disagree as written: for a `tokens` table
   * with a single digest column, whatever its name, the insert (column
   * `hash`) or the lookup (column `token_hash`) fails, so no issued token
   * can ever authenticate. Reading `hash` in the lookup removes the clash.
   */
  lemma TokenColumnsDisagree(column: string)
    ensures CheckColumn(column, "hash").None? ==> CheckColumn(column, "token_hash").Some?
  {
    assert "hash" != "token_hash" by { assert |"hash"| != |"token_hash"|; }
  }
}
