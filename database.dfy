/**
 * The relational database behind the three stores, as in-memory tables.
 * Each store holds a reference to the one Database, as each Go store holds
 * the one *sql.DB. Id columns are filled from sequences that, as in
 * PostgreSQL, are not rolled back with a transaction.
 */
module Database {
  import opened Wrappers
  import opened Errors
  import opened Crypto

  /** A float64 (entry weight); it is only stored and returned, never computed with. */
  datatype Float64 = Float64(bits: bv64)

  /** A row of `workouts` without its id, which keys the table. */
  datatype WorkoutRow = WorkoutRow(title: string, description: string, durationMinutes: int, caloriesBurned: int)

  /** A row of `workout_entries`. */
  datatype EntryRow = EntryRow(
    id: int, workoutId: int, exerciseName: string, sets: int, reps: Option<int>,
    durationSeconds: Option<int>, weight: Option<Float64>, notes: string, orderIndex: int)

  /** A row of `users`. */
  datatype UserRow = UserRow(
    id: int, username: string, email: string, passwordHash: Hash, bio: string,
    createdAt: int, updatedAt: int)

  /** A row of `tokens`: the plaintext of a token is never stored. */
  datatype TokenRow = TokenRow(hash: Digest, userId: int, expiry: int, scope: string)

  class Database {
    var workouts: map<int, WorkoutRow>
    var workoutEntries: seq<EntryRow>
    var users: seq<UserRow>
    var tokens: seq<TokenRow>
    /** Next values of the id sequences of workouts, workout_entries and users. */
    var workoutIdSeq: int
    var entryIdSeq: int
    var userIdSeq: int
    /** The name of the digest column of `tokens` in the deployed schema. */
    const tokenDigestColumn: string

    ghost predicate Valid()
      reads this
    {
      WorkoutTablesOk(workouts, workoutEntries, workoutIdSeq, entryIdSeq) && UsersOk(users, userIdSeq)
    }

    /** A freshly migrated, empty database. */
    constructor (tokenDigestColumn: string)
      ensures Valid()
      ensures workouts == map[] && workoutEntries == [] && users == [] && tokens == []
      ensures this.tokenDigestColumn == tokenDigestColumn
    {
      workouts, workoutEntries, users, tokens := map[], [], [], [];
      workoutIdSeq, entryIdSeq, userIdSeq := 1, 1, 1;
      this.tokenDigestColumn := tokenDigestColumn;
    }
  }

  /** Ids come from the sequences and are strictly increasing in table order; every entry belongs to a stored workout. */
  ghost predicate WorkoutTablesOk(workouts: map<int, WorkoutRow>, entries: seq<EntryRow>, workoutIdSeq: int, entryIdSeq: int)
  {
    && workoutIdSeq >= 1 && entryIdSeq >= 1
    && (forall id :: id in workouts ==> 1 <= id < workoutIdSeq)
    && (forall i :: 0 <= i < |entries| ==> 1 <= entries[i].id < entryIdSeq && entries[i].workoutId in workouts)
    && (forall i, j :: 0 <= i < j < |entries| ==> entries[i].id < entries[j].id)
  }

  /** Ids come from the sequence and are strictly increasing in table order, and usernames are unique. */
  ghost predicate UsersOk(users: seq<UserRow>, userIdSeq: int)
  {
    && userIdSeq >= 1
    && (forall i :: 0 <= i < |users| ==> 1 <= users[i].id < userIdSeq)
    && (forall i, j :: 0 <= i < j < |users| ==> users[i].id < users[j].id && users[i].username != users[j].username)
  }

  /** A statement naming `column` of a table whose actual column is `actual` fails. */
  function CheckColumn(actual: string, column: string): (r: Option<Error>)
    ensures r.None? <==> column == actual
  {
    if column == actual then None else Some(ErrUndefinedColumn(column))
  }

  /** A statement with `placeholders` parameters bound to `args` arguments fails unless they agree. */
  function BindArguments(placeholders: nat, args: nat): (r: Option<Error>)
    ensures r.None? <==> placeholders == args
  {
    if placeholders == args then None else Some(ErrArgumentCount(placeholders, args))
  }
}
