/**
 * The workout aggregate store: a workout row plus its entry rows, created and
 * replaced inside one transaction, read back with the entries ordered by
 * their order index.
 */
module WorkoutStore {
  import opened Wrappers
  import opened Errors
  import opened Database

  /** store.WorkoutEntry */
  datatype WorkoutEntry = WorkoutEntry(
    id: int, exerciseName: string, sets: int, reps: Option<int>, durationSeconds: Option<int>,
    weight: Option<Float64>, notes: string, orderIndex: int)

  /** The value held by a store.Workout, as a deep comparison sees it. */
  datatype Aggregate = Aggregate(
    id: int, title: string, description: string, durationMinutes: int, caloriesBurned: int,
    entries: seq<WorkoutEntry>)

  /**
   * store.Workout. The store receives it by pointer and writes the assigned
   * ids into it: the workout's own id and, in place, each element of the
   * Entries slice.
   */
  class Workout {
    var id: int
    var title: string
    var description: string
    var durationMinutes: int
    var caloriesBurned: int
    var entries: array<WorkoutEntry>

    constructor (id: int, title: string, description: string, durationMinutes: int, caloriesBurned: int,
                 entries: array<WorkoutEntry>)
      ensures this.id == id && this.title == title && this.description == description
      ensures this.durationMinutes == durationMinutes && this.caloriesBurned == caloriesBurned
      ensures this.entries == entries
    {
      this.id := id;
      this.title := title;
      this.description := description;
      this.durationMinutes := durationMinutes;
      this.caloriesBurned := caloriesBurned;
      this.entries := entries;
    }

    function Value(): Aggregate
      reads this, entries
    {
      Aggregate(id, title, description, durationMinutes, caloriesBurned, entries[..])
    }
  }

  /** The statements the store issues; a fault names the one the database rejects. */
  datatype Stmt =
    | Begin | InsertWorkout | InsertEntry(index: nat) | Commit
    | SelectWorkout | SelectEntries | ScanEntry(index: nat) | RowsErr
    | UpdateWorkoutRow | RowsAffected | DeleteEntries

  /** The parent columns written for a workout. */
  function ParentRow(w: Aggregate): WorkoutRow
  {
    WorkoutRow(w.title, w.description, w.durationMinutes, w.caloriesBurned)
  }

  /** The row an entry insert writes (the entry's id is the one RETURNING gave back). */
  function EntryRowOf(workoutId: int, e: WorkoutEntry): EntryRow
  {
    EntryRow(e.id, workoutId, e.exerciseName, e.sets, e.reps, e.durationSeconds, e.weight, e.notes, e.orderIndex)
  }

  /** The entry a row of the entries query scans into. */
  function EntryOf(r: EntryRow): (e: WorkoutEntry)
    ensures EntryRowOf(r.workoutId, e) == r
  {
    WorkoutEntry(r.id, r.exerciseName, r.sets, r.reps, r.durationSeconds, r.weight, r.notes, r.orderIndex)
  }

  function RowsOf(workoutId: int, es: seq<WorkoutEntry>): (rows: seq<EntryRow>)
    ensures |rows| == |es|
    ensures forall i :: 0 <= i < |es| ==> rows[i] == EntryRowOf(workoutId, es[i])
  {
    seq(|es|, i requires 0 <= i < |es| => EntryRowOf(workoutId, es[i]))
  }

  function EntriesOf(rows: seq<EntryRow>): (es: seq<WorkoutEntry>)
    ensures |es| == |rows|
    ensures forall i :: 0 <= i < |rows| ==> es[i] == EntryOf(rows[i])
  {
    seq(|rows|, i requires 0 <= i < |rows| => EntryOf(rows[i]))
  }

  /** `es` with the first `n` entries given the consecutive ids firstId, firstId + 1, ... */
  function WithIds(es: seq<WorkoutEntry>, firstId: int, n: nat): (r: seq<WorkoutEntry>)
    requires n <= |es|
    ensures |r| == |es|
    ensures forall i :: 0 <= i < n ==> r[i] == es[i].(id := firstId + i)
    ensures forall i :: n <= i < |es| ==> r[i] == es[i]
  {
    seq(|es|, i requires 0 <= i < |es| => if i < n then es[i].(id := firstId + i) else es[i])
  }

  /** Entries in non-decreasing order index. */
  ghost predicate InOrder(es: seq<WorkoutEntry>)
  {
    forall i, j :: 0 <= i < j < |es| ==> es[i].orderIndex <= es[j].orderIndex
  }

  /**
   * Entries in strictly increasing order index: the one arrangement every
   * ordering by order index must produce, whatever it does with ties.
   */
  ghost predicate StrictlyInOrder(es: seq<WorkoutEntry>)
  {
    forall i, j :: 0 <= i < j < |es| ==> es[i].orderIndex < es[j].orderIndex
  }

  ghost predicate RowsInOrder(rows: seq<EntryRow>)
  {
    forall i, j :: 0 <= i < j < |rows| ==> rows[i].orderIndex <= rows[j].orderIndex
  }

  /** `... FROM workout_entries WHERE workout_id = $1`, in table order. */
  function EntryRowsFor(table: seq<EntryRow>, workoutId: int): (rows: seq<EntryRow>)
    ensures |rows| <= |table|
    ensures forall i :: 0 <= i < |rows| ==> rows[i].workoutId == workoutId
  {
    if table == [] then []
    else (if table[0].workoutId == workoutId then [table[0]] else []) + EntryRowsFor(table[1..], workoutId)
  }

  /** The rows `DELETE FROM workout_entries WHERE workout_id = $1` keeps, in table order. */
  function EntryRowsNotFor(table: seq<EntryRow>, workoutId: int): (rows: seq<EntryRow>)
    ensures |rows| <= |table|
    ensures forall i :: 0 <= i < |rows| ==> rows[i].workoutId != workoutId
  {
    if table == [] then []
    else (if table[0].workoutId != workoutId then [table[0]] else []) + EntryRowsNotFor(table[1..], workoutId)
  }

  /** The query selects exactly the rows of the workout, and the delete keeps exactly the others. */
  lemma {:induction false} EntryRowsMembers(table: seq<EntryRow>, workoutId: int)
    ensures forall r :: r in EntryRowsFor(table, workoutId) <==> r in table && r.workoutId == workoutId
    ensures forall r :: r in EntryRowsNotFor(table, workoutId) <==> r in table && r.workoutId != workoutId
  {
    if table != [] {
      EntryRowsMembers(table[1..], workoutId);
      assert table == [table[0]] + table[1..];
    }
  }

  /** Insert `r` into rows ordered by order index, before the first row whose index is not smaller. */
  function InsertByOrderIndex(r: EntryRow, rows: seq<EntryRow>): (result: seq<EntryRow>)
    ensures |result| == |rows| + 1
  {
    if rows == [] then [r]
    else if r.orderIndex <= rows[0].orderIndex then [r] + rows
    else [rows[0]] + InsertByOrderIndex(r, rows[1..])
  }

  /**
   * `ORDER BY order_index`. PostgreSQL leaves the order of rows with equal
   * order index unspecified; this model keeps them in table order.
   */
  function OrderByIndex(rows: seq<EntryRow>): (result: seq<EntryRow>)
    ensures |result| == |rows|
  {
    if rows == [] then [] else InsertByOrderIndex(rows[0], OrderByIndex(rows[1..]))
  }

  /** The head of an insertion is the inserted row or the old head. */
  lemma InsertByOrderIndexHead(r: EntryRow, rows: seq<EntryRow>)
    ensures var result := InsertByOrderIndex(r, rows);
      result[0] == r || (rows != [] && result[0] == rows[0])
  {
  }

  /** Inserting into ordered rows keeps them ordered. */
  lemma {:induction false} InsertByOrderIndexKeepsOrder(r: EntryRow, rows: seq<EntryRow>)
    requires RowsInOrder(rows)
    ensures RowsInOrder(InsertByOrderIndex(r, rows))
  {
    if rows != [] && r.orderIndex > rows[0].orderIndex {
      var rest := InsertByOrderIndex(r, rows[1..]);
      InsertByOrderIndexKeepsOrder(r, rows[1..]);
      InsertByOrderIndexHead(r, rows[1..]);
      assert rows[0].orderIndex <= rest[0].orderIndex;
      var result := [rows[0]] + rest;
      forall i, j | 0 <= i < j < |result| ensures result[i].orderIndex <= result[j].orderIndex {
        if i == 0 {
          assert result[j] == rest[j - 1];
          assert rest[0].orderIndex <= rest[j - 1].orderIndex;
        } else {
          assert result[i] == rest[i - 1] && result[j] == rest[j - 1];
        }
      }
    }
  }

  /** Inserting adds exactly `r` to the rows. */
  lemma {:induction false} InsertByOrderIndexAddsOne(r: EntryRow, rows: seq<EntryRow>)
    ensures multiset(InsertByOrderIndex(r, rows)) == multiset(rows) + multiset{r}
  {
    if rows != [] && r.orderIndex > rows[0].orderIndex {
      assert rows == [rows[0]] + rows[1..];
      InsertByOrderIndexAddsOne(r, rows[1..]);
    }
  }

  /** The ordered rows are a permutation of the selected rows, in non-decreasing order index. */
  lemma {:induction false} OrderByIndexSorts(rows: seq<EntryRow>)
    ensures RowsInOrder(OrderByIndex(rows))
    ensures multiset(OrderByIndex(rows)) == multiset(rows)
  {
    if rows != [] {
      assert rows == [rows[0]] + rows[1..];
      OrderByIndexSorts(rows[1..]);
      InsertByOrderIndexKeepsOrder(rows[0], OrderByIndex(rows[1..]));
      InsertByOrderIndexAddsOne(rows[0], OrderByIndex(rows[1..]));
    }
  }

  /** The aggregate GetWorkoutByID reads for `id` from the given tables; None when no workout row has that id. */
  function StoredWorkout(workouts: map<int, WorkoutRow>, table: seq<EntryRow>, id: int): (r: Option<Aggregate>)
    ensures r.None? <==> id !in workouts
    ensures r.Some? ==> r.value.id == id && ParentRow(r.value) == workouts[id]
    ensures r.Some? ==> |r.value.entries| == |EntryRowsFor(table, id)|
  {
    if id !in workouts then None
    else
      var row := workouts[id];
      Some(Aggregate(id, row.title, row.description, row.durationMinutes, row.caloriesBurned,
                     EntriesOf(OrderByIndex(EntryRowsFor(table, id)))))
  }

  /** The statements CreateWorkout issues for a workout with n entries. */
  predicate CreateIssues(s: Stmt, n: nat)
  {
    s == Begin || s == InsertWorkout || (s.InsertEntry? && s.index < n) || s == Commit
  }

  /** The statements GetWorkoutByID issues: the entries part only when the workout row exists. */
  predicate GetIssues(s: Stmt, found: bool, nRows: nat)
  {
    s == SelectWorkout || (found && (s == SelectEntries || (s.ScanEntry? && s.index < nRows) || s == RowsErr))
  }

  /** The statements UpdateWorkout issues: past the row count only when a row was updated. */
  predicate UpdateIssues(s: Stmt, found: bool, n: nat)
  {
    s == Begin || s == UpdateWorkoutRow || s == RowsAffected
    || (found && (s == DeleteEntries || (s.InsertEntry? && s.index < n) || s == Commit))
  }

  /** Whether the parent insert of CreateWorkout succeeded before `fail`. */
  predicate ParentInserted(fail: Option<Stmt>)
  {
    fail != Some(Begin) && fail != Some(InsertWorkout)
  }

  /** Whether UpdateWorkout got as far as re-inserting entries before `fail`. */
  predicate EntriesReplaced(fail: Option<Stmt>, found: bool)
  {
    found && fail != Some(Begin) && fail != Some(UpdateWorkoutRow) && fail != Some(RowsAffected)
    && fail != Some(DeleteEntries)
  }

  /** How many entry inserts succeed before `fail`, out of n. */
  function EntriesInserted(fail: Option<Stmt>, n: nat): (k: nat)
    ensures k <= n
  {
    if fail.Some? && fail.value.InsertEntry? && fail.value.index < n then fail.value.index else n
  }

  /** store.PostgresWorkoutStore */
  class PostgresWorkoutStore {
    const db: Database

    constructor (db: Database)
      ensures this.db == db
    {
      this.db := db;
    }

    /**
     * The entry-insert loop shared by CreateWorkout and UpdateWorkout: each
     * entry is inserted under `workoutId`, in slice order, and the id the
     * insert returns is written into the slice element. It stops at the
     * first insert that fails, leaving the earlier rows for the caller's
     * rollback.
     */
    method InsertEntries(workoutId: int, entries: array<WorkoutEntry>, fail: Option<Stmt>) returns (err: Option<Error>)
      requires db.Valid() && workoutId in db.workouts
      modifies db, entries
      ensures db.Valid()
      ensures db.workouts == old(db.workouts) && db.workoutIdSeq == old(db.workoutIdSeq)
      ensures db.users == old(db.users) && db.tokens == old(db.tokens) && db.userIdSeq == old(db.userIdSeq)
      ensures var k := EntriesInserted(fail, entries.Length);
        && entries[..] == WithIds(old(entries[..]), old(db.entryIdSeq), k)
        && db.entryIdSeq == old(db.entryIdSeq) + k
        && db.workoutEntries == old(db.workoutEntries) + RowsOf(workoutId, entries[..k])
      ensures err.None? <==> EntriesInserted(fail, entries.Length) == entries.Length
      ensures err.Some? ==> err.value == ErrDatabase
    {
      ghost var payload := entries[..];
      var firstEntryId := db.entryIdSeq;
      var i := 0;
      while i < entries.Length
        modifies db, entries
        invariant 0 <= i <= entries.Length
        invariant forall k :: 0 <= k < i ==> fail != Some(InsertEntry(k))
        invariant entries[..] == WithIds(payload, firstEntryId, i)
        invariant db.entryIdSeq == firstEntryId + i
        invariant db.workoutEntries == old(db.workoutEntries) + RowsOf(workoutId, entries[..i])
        invariant db.workouts == old(db.workouts) && db.workoutIdSeq == old(db.workoutIdSeq)
        invariant db.users == old(db.users) && db.tokens == old(db.tokens) && db.userIdSeq == old(db.userIdSeq)
        invariant WorkoutTablesOk(db.workouts, db.workoutEntries, db.workoutIdSeq, db.entryIdSeq)
      {
        if fail == Some(InsertEntry(i)) {
          assert entries[..i] == entries[..EntriesInserted(fail, entries.Length)];
          return Some(ErrDatabase);
        }
        var entryId := db.entryIdSeq;
        entries[i] := entries[i].(id := entryId);
        var row := EntryRowOf(workoutId, entries[i]);
        AppendEntryKeepsTablesOk(db.workouts, db.workoutEntries, db.workoutIdSeq, entryId, row);
        db.entryIdSeq := entryId + 1;
        db.workoutEntries := db.workoutEntries + [row];
        assert entries[..i + 1] == entries[..i] + [entries[i]];
        i := i + 1;
      }
      assert entries[..i] == entries[..];
      return None;
    }

    /**
     * CreateWorkout inserts the workout, then each entry in slice order, in
     * one transaction. On success the tables hold the new aggregate; on any
     * failure the deferred rollback leaves both tables as they were.
     */
    method CreateWorkout(workout: Workout, fail: Option<Stmt>) returns (created: Workout?, err: Option<Error>)
      requires db.Valid()
      modifies db, workout, workout.entries
      ensures db.Valid()
      ensures db.users == old(db.users) && db.tokens == old(db.tokens) && db.userIdSeq == old(db.userIdSeq)
      ensures err.None? <==> !(fail.Some? && CreateIssues(fail.value, workout.entries.Length))
      ensures err.None? ==> created == workout
      ensures err.None? ==> workout.id != 0 && forall k :: 0 <= k < workout.entries.Length ==> workout.entries[k].id != 0
      ensures err.Some? ==> created == null && err.value == ErrDatabase
      ensures db.workoutIdSeq == old(db.workoutIdSeq) + (if ParentInserted(fail) then 1 else 0)
      ensures db.entryIdSeq ==
        old(db.entryIdSeq) + (if ParentInserted(fail) then EntriesInserted(fail, workout.entries.Length) else 0)
      ensures workout.entries == old(workout.entries)
      ensures workout.title == old(workout.title) && workout.description == old(workout.description)
      ensures workout.durationMinutes == old(workout.durationMinutes)
      ensures workout.caloriesBurned == old(workout.caloriesBurned)
      ensures ParentInserted(fail) ==>
        && workout.id == old(db.workoutIdSeq)
        && workout.entries[..] == WithIds(old(workout.entries[..]), old(db.entryIdSeq),
                                          EntriesInserted(fail, workout.entries.Length))
      ensures !ParentInserted(fail) ==> workout.id == old(workout.id) && workout.entries[..] == old(workout.entries[..])
      ensures err.None? ==>
        && old(db.workoutIdSeq) !in old(db.workouts)
        && db.workouts == old(db.workouts)[workout.id := ParentRow(workout.Value())]
        && db.workoutEntries == old(db.workoutEntries) + RowsOf(workout.id, workout.entries[..])
      ensures err.Some? ==> db.workouts == old(db.workouts) && db.workoutEntries == old(db.workoutEntries)
    {
      if fail == Some(Begin) {
        return null, Some(ErrDatabase);
      }
      var savedWorkouts, savedEntries := db.workouts, db.workoutEntries;
      if fail == Some(InsertWorkout) {
        err := Some(ErrDatabase);
      } else {
        var workoutId := db.workoutIdSeq;
        var row := WorkoutRow(workout.title, workout.description, workout.durationMinutes, workout.caloriesBurned);
        InsertWorkoutKeepsTablesOk(db.workouts, db.workoutEntries, workoutId, db.entryIdSeq, row);
        db.workoutIdSeq := workoutId + 1;
        db.workouts := db.workouts[workoutId := row];
        workout.id := workoutId;
        err := InsertEntries(workoutId, workout.entries, fail);
        if err.None? && fail == Some(Commit) {
          err := Some(ErrDatabase);
        }
      }
      // the deferred rollback; after a commit it has no effect
      if err.Some? {
        db.workouts, db.workoutEntries := savedWorkouts, savedEntries;
        return null, err;
      }
      return workout, None;
    }

    /**
     * GetWorkoutByID reads the workout row, then scans its entries in order
     * index order. A missing row is reported as (nil, nil).
     */
    method GetWorkoutByID(id: int, fail: Option<Stmt>) returns (workout: Workout?, err: Option<Error>)
      requires db.Valid()
      ensures err.Some? ==> workout == null && err.value == ErrDatabase
      ensures err.None? <==>
        !(fail.Some? && GetIssues(fail.value, id in db.workouts, |EntryRowsFor(db.workoutEntries, id)|))
      ensures err.None? ==> (workout == null <==> id !in db.workouts)
      ensures workout != null ==> fresh(workout) && fresh(workout.entries)
      ensures workout != null ==> StoredWorkout(db.workouts, db.workoutEntries, id) == Some(workout.Value())
    {
      if fail == Some(SelectWorkout) {
        return null, Some(ErrDatabase);
      }
      if id !in db.workouts {
        return null, None;
      }
      var row := db.workouts[id];
      if fail == Some(SelectEntries) {
        return null, Some(ErrDatabase);
      }
      var rows := OrderByIndex(EntryRowsFor(db.workoutEntries, id));
      var scanned: seq<WorkoutEntry> := [];
      var i := 0;
      while i < |rows|
        invariant 0 <= i <= |rows|
        invariant scanned == EntriesOf(rows[..i])
        invariant forall k :: 0 <= k < i ==> fail != Some(ScanEntry(k))
      {
        if fail == Some(ScanEntry(i)) {
          return null, Some(ErrDatabase);
        }
        scanned := scanned + [EntryOf(rows[i])];
        i := i + 1;
      }
      assert rows[..i] == rows;
      if fail == Some(RowsErr) {
        return null, Some(ErrDatabase);
      }
      var entries := new WorkoutEntry[|scanned|](k requires 0 <= k < |scanned| => scanned[k]);
      workout := new Workout(id, row.title, row.description, row.durationMinutes, row.caloriesBurned, entries);
      assert entries[..] == scanned;
      return workout, None;
    }

    /**
     * The second half of UpdateWorkout, once the parent row is updated:
     * delete every entry row of the workout, insert the supplied entries in
     * slice order, writing the returned ids back, and commit.
     */
    method ReplaceEntries(workoutId: int, entries: array<WorkoutEntry>, fail: Option<Stmt>) returns (err: Option<Error>)
      requires db.Valid() && workoutId in db.workouts
      modifies db, entries
      ensures db.Valid()
      ensures db.workouts == old(db.workouts) && db.workoutIdSeq == old(db.workoutIdSeq)
      ensures db.entryIdSeq ==
        old(db.entryIdSeq) + (if fail == Some(DeleteEntries) then 0 else EntriesInserted(fail, entries.Length))
      ensures db.users == old(db.users) && db.tokens == old(db.tokens) && db.userIdSeq == old(db.userIdSeq)
      ensures fail == Some(DeleteEntries) ==> entries[..] == old(entries[..])
      ensures fail != Some(DeleteEntries) ==>
        entries[..] == WithIds(old(entries[..]), old(db.entryIdSeq), EntriesInserted(fail, entries.Length))
      ensures err.None? <==>
        fail != Some(DeleteEntries) && fail != Some(Commit) && EntriesInserted(fail, entries.Length) == entries.Length
      ensures err.Some? ==> err.value == ErrDatabase
      ensures err.None? ==> db.workoutEntries == EntryRowsNotFor(old(db.workoutEntries), workoutId) + RowsOf(workoutId, entries[..])
    {
      if fail == Some(DeleteEntries) {
        return Some(ErrDatabase);
      }
      DeleteEntriesKeepsTablesOk(db.workouts, db.workoutEntries, db.workoutIdSeq, db.entryIdSeq, workoutId);
      db.workoutEntries := EntryRowsNotFor(db.workoutEntries, workoutId);
      err := InsertEntries(workoutId, entries, fail);
      if err.None? && fail == Some(Commit) {
        err := Some(ErrDatabase);
      }
    }

    /**
     * UpdateWorkout overwrites the parent columns, fails with ErrNoRows when
     * no row has the workout's id, and otherwise deletes every entry of the
     * workout and inserts the supplied ones, all in one transaction.
     */
    method UpdateWorkout(workout: Workout, fail: Option<Stmt>) returns (err: Option<Error>)
      requires db.Valid()
      modifies db, workout.entries
      ensures db.Valid()
      ensures db.users == old(db.users) && db.tokens == old(db.tokens) && db.userIdSeq == old(db.userIdSeq)
      ensures err.None? <==>
        workout.id in old(db.workouts) && !(fail.Some? && UpdateIssues(fail.value, true, workout.entries.Length))
      ensures err == Some(ErrNoRows) <==>
        workout.id !in old(db.workouts) && fail != Some(Begin) && fail != Some(UpdateWorkoutRow) && fail != Some(RowsAffected)
      ensures err.Some? ==> err.value == ErrNoRows || err.value == ErrDatabase
      ensures db.workoutIdSeq == old(db.workoutIdSeq)
      ensures db.entryIdSeq == old(db.entryIdSeq) +
        (if EntriesReplaced(fail, workout.id in old(db.workouts)) then EntriesInserted(fail, workout.entries.Length) else 0)
      ensures EntriesReplaced(fail, workout.id in old(db.workouts)) ==>
        workout.entries[..] == WithIds(old(workout.entries[..]), old(db.entryIdSeq),
                                       EntriesInserted(fail, workout.entries.Length))
      ensures !EntriesReplaced(fail, workout.id in old(db.workouts)) ==> workout.entries[..] == old(workout.entries[..])
      ensures err.None? ==>
        && db.workouts == old(db.workouts)[workout.id := ParentRow(workout.Value())]
        && db.workoutEntries == EntryRowsNotFor(old(db.workoutEntries), workout.id) + RowsOf(workout.id, workout.entries[..])
      ensures err.Some? ==> db.workouts == old(db.workouts) && db.workoutEntries == old(db.workoutEntries)
    {
      if fail == Some(Begin) {
        return Some(ErrDatabase);
      }
      var savedWorkouts, savedEntries := db.workouts, db.workoutEntries;
      if fail == Some(UpdateWorkoutRow) {
        err := Some(ErrDatabase);
      } else {
        var row := WorkoutRow(workout.title, workout.description, workout.durationMinutes, workout.caloriesBurned);
        var rowsAffected := 0;
        if workout.id in db.workouts {
          UpdateWorkoutKeepsTablesOk(db.workouts, db.workoutEntries, db.workoutIdSeq, db.entryIdSeq, workout.id, row);
          db.workouts := db.workouts[workout.id := row];
          rowsAffected := 1;
        }
        if fail == Some(RowsAffected) {
          err := Some(ErrDatabase);
        } else if rowsAffected == 0 {
          err := Some(ErrNoRows);
        } else {
          err := ReplaceEntries(workout.id, workout.entries, fail);
        }
      }
      // the deferred rollback; after a commit it has no effect
      if err.Some? {
        db.workouts, db.workoutEntries := savedWorkouts, savedEntries;
      }
    }
  }

  /** Appending an entry with the next sequence id, under a stored workout, keeps the tables consistent. */
  lemma AppendEntryKeepsTablesOk(workouts: map<int, WorkoutRow>, entries: seq<EntryRow>, workoutIdSeq: int,
                                 entryIdSeq: int, row: EntryRow)
    requires WorkoutTablesOk(workouts, entries, workoutIdSeq, entryIdSeq)
    requires row.id == entryIdSeq && row.workoutId in workouts
    ensures WorkoutTablesOk(workouts, entries + [row], workoutIdSeq, entryIdSeq + 1)
  {
  }

  /** Inserting a workout row under the next sequence id keeps the tables consistent; the id was free. */
  lemma InsertWorkoutKeepsTablesOk(workouts: map<int, WorkoutRow>, entries: seq<EntryRow>, workoutIdSeq: int,
                                   entryIdSeq: int, row: WorkoutRow)
    requires WorkoutTablesOk(workouts, entries, workoutIdSeq, entryIdSeq)
    ensures workoutIdSeq !in workouts
    ensures WorkoutTablesOk(workouts[workoutIdSeq := row], entries, workoutIdSeq + 1, entryIdSeq)
  {
  }

  /** Overwriting the columns of a stored workout keeps the tables consistent. */
  lemma UpdateWorkoutKeepsTablesOk(workouts: map<int, WorkoutRow>, entries: seq<EntryRow>, workoutIdSeq: int,
                                   entryIdSeq: int, id: int, row: WorkoutRow)
    requires WorkoutTablesOk(workouts, entries, workoutIdSeq, entryIdSeq) && id in workouts
    ensures WorkoutTablesOk(workouts[id := row], entries, workoutIdSeq, entryIdSeq)
  {
  }

  /** Deleting the entries of one workout keeps the tables consistent. */
  lemma DeleteEntriesKeepsTablesOk(workouts: map<int, WorkoutRow>, entries: seq<EntryRow>, workoutIdSeq: int,
                                   entryIdSeq: int, id: int)
    requires WorkoutTablesOk(workouts, entries, workoutIdSeq, entryIdSeq)
    ensures WorkoutTablesOk(workouts, EntryRowsNotFor(entries, id), workoutIdSeq, entryIdSeq)
  {
    IdsStayIncreasing(entries, id);
    EntryRowsMembers(entries, id);
    var kept := EntryRowsNotFor(entries, id);
    forall i | 0 <= i < |kept| ensures 1 <= kept[i].id < entryIdSeq && kept[i].workoutId in workouts {
      assert kept[i] in kept;
    }
  }

  /** Entry ids strictly increase along the table, as rows are appended with sequence ids. */
  ghost predicate IdsIncreasing(rows: seq<EntryRow>)
  {
    forall i, j :: 0 <= i < j < |rows| ==> rows[i].id < rows[j].id
  }

  /** In a table with increasing ids, the first row's id is below that of every row kept from the rest. */
  lemma HeadBelowKept(table: seq<EntryRow>, workoutId: int)
    requires table != [] && IdsIncreasing(table)
    ensures forall r :: r in EntryRowsNotFor(table[1..], workoutId) ==> table[0].id < r.id
  {
    EntryRowsMembers(table[1..], workoutId);
    forall r | r in EntryRowsNotFor(table[1..], workoutId) ensures table[0].id < r.id {
      var k :| 0 <= k < |table[1..]| && table[1..][k] == r;
      assert table[k + 1] == r;
    }
  }

  /** Deleting a workout's entries keeps the remaining ids strictly increasing. */
  lemma {:induction false} IdsStayIncreasing(table: seq<EntryRow>, workoutId: int)
    requires IdsIncreasing(table)
    ensures IdsIncreasing(EntryRowsNotFor(table, workoutId))
  {
    if table != [] {
      assert IdsIncreasing(table[1..]);
      IdsStayIncreasing(table[1..], workoutId);
      var rest := EntryRowsNotFor(table[1..], workoutId);
      if table[0].workoutId != workoutId {
        HeadBelowKept(table, workoutId);
        var kept := [table[0]] + rest;
        assert EntryRowsNotFor(table, workoutId) == kept;
        forall i, j | 0 <= i < j < |kept| ensures kept[i].id < kept[j].id {
          assert kept[j] == rest[j - 1] && kept[j] in rest;
          if i > 0 {
            assert kept[i] == rest[i - 1];
          }
        }
      } else {
        assert EntryRowsNotFor(table, workoutId) == rest;
      }
    }
  }

  /** Selecting a workout's rows distributes over a concatenation of tables. */
  lemma {:induction false} EntryRowsForAppend(t1: seq<EntryRow>, t2: seq<EntryRow>, workoutId: int)
    ensures EntryRowsFor(t1 + t2, workoutId) == EntryRowsFor(t1, workoutId) + EntryRowsFor(t2, workoutId)
  {
    if t1 != [] {
      assert (t1 + t2)[1..] == t1[1..] + t2;
      EntryRowsForAppend(t1[1..], t2, workoutId);
    } else {
      assert t1 + t2 == t2;
    }
  }

  /** No row of a table whose rows all belong to other workouts is selected. */
  lemma {:induction false} EntryRowsForNone(table: seq<EntryRow>, workoutId: int)
    requires forall i :: 0 <= i < |table| ==> table[i].workoutId != workoutId
    ensures EntryRowsFor(table, workoutId) == []
  {
    if table != [] {
      EntryRowsForNone(table[1..], workoutId);
    }
  }

  /** The rows inserted for a workout are all selected again for it, and none for another workout. */
  lemma {:induction false} EntryRowsForInserted(es: seq<WorkoutEntry>, workoutId: int, other: int)
    ensures EntryRowsFor(RowsOf(workoutId, es), workoutId) == RowsOf(workoutId, es)
    ensures other != workoutId ==> EntryRowsFor(RowsOf(workoutId, es), other) == []
  {
    if es != [] {
      assert RowsOf(workoutId, es)[1..] == RowsOf(workoutId, es[1..]);
      EntryRowsForInserted(es[1..], workoutId, other);
    }
  }

  /** After deleting a workout's rows none is selected for it, and every other workout keeps its rows. */
  lemma {:induction false} EntryRowsForAfterDelete(table: seq<EntryRow>, workoutId: int, other: int)
    ensures EntryRowsFor(EntryRowsNotFor(table, workoutId), workoutId) == []
    ensures other != workoutId ==> EntryRowsFor(EntryRowsNotFor(table, workoutId), other) == EntryRowsFor(table, other)
  {
    if table != [] {
      EntryRowsForAfterDelete(table[1..], workoutId, other);
      var rest := EntryRowsNotFor(table[1..], workoutId);
      assert EntryRowsFor(table, other) == EntryRowsFor([table[0]], other) + EntryRowsFor(table[1..], other) by {
        assert [table[0]][1..] == [];
      }
      if table[0].workoutId != workoutId {
        assert EntryRowsNotFor(table, workoutId) == [table[0]] + rest;
        EntryRowsForAppend([table[0]], rest, workoutId);
        EntryRowsForAppend([table[0]], rest, other);
        assert [table[0]][1..] == [];
      } else {
        assert EntryRowsNotFor(table, workoutId) == rest;
        assert [table[0]][1..] == [];
      }
    }
  }

  /** Rows already in order index order are left as they are (the order is stable). */
  lemma {:induction false} OrderByIndexOfOrdered(rows: seq<EntryRow>)
    requires RowsInOrder(rows)
    ensures OrderByIndex(rows) == rows
  {
    if rows != [] {
      OrderByIndexOfOrdered(rows[1..]);
      assert rows == [rows[0]] + rows[1..];
    }
  }

  /** Scanning the rows of inserted entries gives the entries back. */
  lemma EntriesOfRowsOf(workoutId: int, es: seq<WorkoutEntry>)
    ensures EntriesOf(RowsOf(workoutId, es)) == es
  {
    assert forall i :: 0 <= i < |es| ==> EntryOf(EntryRowOf(workoutId, es[i])) == es[i];
  }

  /**
   * GetWorkoutByID answers "not found" exactly for an id with no workout row;
   * otherwise its entries are the rows whose workout_id is that id, all of
   * them, in non-decreasing order index.
   */
  lemma StoredWorkoutEntries(workouts: map<int, WorkoutRow>, table: seq<EntryRow>, id: int)
    ensures StoredWorkout(workouts, table, id).None? <==> id !in workouts
    ensures StoredWorkout(workouts, table, id).Some? ==>
      var w := StoredWorkout(workouts, table, id).value;
      && w.id == id
      && InOrder(w.entries)
      && |w.entries| == |EntryRowsFor(table, id)|
      && (forall k :: 0 <= k < |w.entries| ==> EntryRowOf(id, w.entries[k]) in table)
      && (forall r :: r in table && r.workoutId == id ==> EntryOf(r) in w.entries)
  {
    if id in workouts {
      var selected := EntryRowsFor(table, id);
      var sorted := OrderByIndex(selected);
      OrderByIndexSorts(selected);
      EntryRowsMembers(table, id);
      var es := EntriesOf(sorted);
      forall k | 0 <= k < |es| ensures EntryRowOf(id, es[k]) in table {
        assert sorted[k] in multiset(sorted);
        assert sorted[k] in selected;
      }
      forall r | r in table && r.workoutId == id ensures EntryOf(r) in es {
        assert r in multiset(selected);
        var k :| 0 <= k < |sorted| && sorted[k] == r;
        assert es[k] == EntryOf(r);
      }
    }
  }

  /** Removing the row at `k` removes one occurrence of it. */
  lemma RemoveRow(b: seq<EntryRow>, k: nat)
    requires k < |b|
    ensures b == b[..k] + ([b[k]] + b[k + 1..])
    ensures multiset(b) == multiset(b[..k] + b[k + 1..]) + multiset{b[k]}
  {
    assert b == b[..k] + [b[k]] + b[k + 1..];
  }

  /** Scanning is done row by row. */
  lemma EntriesOfAppend(s: seq<EntryRow>, t: seq<EntryRow>)
    ensures EntriesOf(s + t) == EntriesOf(s) + EntriesOf(t)
  {
  }

  /** One occurrence of `x` can be taken off both sides. */
  lemma CancelRow(p: multiset<EntryRow>, q: multiset<EntryRow>, x: EntryRow)
    requires p + multiset{x} == q + multiset{x}
    ensures p == q
  {
    forall r ensures p[r] == q[r] {
      assert (p + multiset{x})[r] == (q + multiset{x})[r];
    }
  }

  /** Scanning without the row at `k` loses exactly the entry scanned from it. */
  lemma EntriesOfRemove(b: seq<EntryRow>, k: nat)
    requires k < |b|
    ensures multiset(EntriesOf(b)) == multiset(EntriesOf(b[..k] + b[k + 1..])) + multiset{EntryOf(b[k])}
  {
    var b1, b2 := b[..k], b[k + 1..];
    var e1, e2 := EntriesOf(b1), EntriesOf(b2);
    RemoveRow(b, k);
    EntriesOfAppend(b1, [b[k]] + b2);
    EntriesOfAppend([b[k]], b2);
    EntriesOfAppend(b1, b2);
    assert EntriesOf([b[k]]) == [EntryOf(b[k])];
    assert EntriesOf(b) == e1 + ([EntryOf(b[k])] + e2);
    assert multiset(EntriesOf(b)) == multiset(e1) + (multiset{EntryOf(b[k])} + multiset(e2));
    assert multiset(EntriesOf(b1 + b2)) == multiset(e1) + multiset(e2);
  }

  /** Scanning rows that are a permutation of each other gives entries that are a permutation of each other. */
  lemma {:induction false} EntriesOfPermutation(a: seq<EntryRow>, b: seq<EntryRow>)
    requires multiset(a) == multiset(b)
    ensures multiset(EntriesOf(a)) == multiset(EntriesOf(b))
    decreases |a|
  {
    if a == [] {
      assert |b| == |multiset(b)| == 0;
    } else {
      var x := a[0];
      assert x in multiset(b);
      var k :| 0 <= k < |b| && b[k] == x;
      var b' := b[..k] + b[k + 1..];
      assert a[..0] + a[1..] == a[1..];
      RemoveRow(a, 0);
      RemoveRow(b, k);
      CancelRow(multiset(a[1..]), multiset(b'), x);
      EntriesOfPermutation(a[1..], b');
      EntriesOfRemove(a, 0);
      EntriesOfRemove(b, k);
    }
  }

  /**
   * What GetWorkoutByID makes of the rows just written for `es`: a
   * permutation of `es` in non-decreasing order index, and `es` itself when
   * its order indexes are strictly increasing.
   */
  lemma ReadBackEntries(workoutId: int, es: seq<WorkoutEntry>)
    ensures var got := EntriesOf(OrderByIndex(RowsOf(workoutId, es)));
      && InOrder(got)
      && multiset(got) == multiset(es)
      && (StrictlyInOrder(es) ==> got == es)
  {
    var rows := RowsOf(workoutId, es);
    var sorted := OrderByIndex(rows);
    OrderByIndexSorts(rows);
    EntriesOfPermutation(sorted, rows);
    EntriesOfRowsOf(workoutId, es);
    if StrictlyInOrder(es) {
      assert RowsInOrder(rows);
      OrderByIndexOfOrdered(rows);
    }
  }

  /** A workout whose parent row and entry rows are the ones written for `w` reads back as ReadBackEntries says. */
  lemma WrittenWorkoutReadsBack(workouts: map<int, WorkoutRow>, table: seq<EntryRow>, w: Aggregate)
    requires w.id in workouts && workouts[w.id] == ParentRow(w)
    requires EntryRowsFor(table, w.id) == RowsOf(w.id, w.entries)
    ensures var got := StoredWorkout(workouts, table, w.id);
      && got.Some? && got.value.(entries := w.entries) == w
      && InOrder(got.value.entries) && multiset(got.value.entries) == multiset(w.entries)
      && (StrictlyInOrder(w.entries) ==> got == Some(w))
  {
    ReadBackEntries(w.id, w.entries);
  }

  /** After the inserts for a workout whose id no earlier row names, its rows are exactly the inserted ones. */
  lemma CreatedRowsSelected(table: seq<EntryRow>, workoutId: int, es: seq<WorkoutEntry>)
    requires forall i :: 0 <= i < |table| ==> table[i].workoutId != workoutId
    ensures EntryRowsFor(table + RowsOf(workoutId, es), workoutId) == RowsOf(workoutId, es)
  {
    EntryRowsForAppend(table, RowsOf(workoutId, es), workoutId);
    EntryRowsForNone(table, workoutId);
    EntryRowsForInserted(es, workoutId, workoutId);
  }

  /** After the delete and re-inserts for a workout, its rows are exactly the re-inserted ones. */
  lemma UpdatedRowsSelected(table: seq<EntryRow>, workoutId: int, es: seq<WorkoutEntry>)
    ensures EntryRowsFor(EntryRowsNotFor(table, workoutId) + RowsOf(workoutId, es), workoutId) == RowsOf(workoutId, es)
  {
    EntryRowsForAppend(EntryRowsNotFor(table, workoutId), RowsOf(workoutId, es), workoutId);
    EntryRowsForAfterDelete(table, workoutId, workoutId);
    EntryRowsForInserted(es, workoutId, workoutId);
  }

  /** Inserting a workout under a fresh id leaves every other workout as it reads. */
  lemma CreateLeavesOthers(workouts: map<int, WorkoutRow>, table: seq<EntryRow>, w: Aggregate, other: int)
    requires w.id !in workouts && other != w.id
    ensures StoredWorkout(workouts[w.id := ParentRow(w)], table + RowsOf(w.id, w.entries), other)
              == StoredWorkout(workouts, table, other)
  {
    EntryRowsForAppend(table, RowsOf(w.id, w.entries), other);
    EntryRowsForInserted(w.entries, w.id, other);
    assert EntryRowsFor(table, other) + [] == EntryRowsFor(table, other);
  }

  /** Replacing a workout's row and entries leaves every other workout as it reads. */
  lemma UpdateLeavesOthers(workouts: map<int, WorkoutRow>, table: seq<EntryRow>, w: Aggregate, other: int)
    requires other != w.id
    ensures StoredWorkout(workouts[w.id := ParentRow(w)], EntryRowsNotFor(table, w.id) + RowsOf(w.id, w.entries), other)
              == StoredWorkout(workouts, table, other)
  {
    EntryRowsForAppend(EntryRowsNotFor(table, w.id), RowsOf(w.id, w.entries), other);
    EntryRowsForAfterDelete(table, w.id, other);
    EntryRowsForInserted(w.entries, w.id, other);
    assert EntryRowsFor(table, other) + [] == EntryRowsFor(table, other);
  }

  /**
   * Get after create: a workout inserted under a fresh id reads back with
   * the columns that were written and a permutation of its entries in
   * order index order; with strictly increasing order indexes it is the
   * very aggregate that was created. Every other workout reads back as
   * before.
   */
  lemma CreatedWorkoutReadsBack(workouts: map<int, WorkoutRow>, table: seq<EntryRow>, w: Aggregate)
    requires w.id !in workouts
    requires forall i :: 0 <= i < |table| ==> table[i].workoutId in workouts
    ensures var got := StoredWorkout(workouts[w.id := ParentRow(w)], table + RowsOf(w.id, w.entries), w.id);
      && got.Some? && got.value.(entries := w.entries) == w
      && InOrder(got.value.entries) && multiset(got.value.entries) == multiset(w.entries)
      && (StrictlyInOrder(w.entries) ==> got == Some(w))
    ensures forall other :: other != w.id ==>
      StoredWorkout(workouts[w.id := ParentRow(w)], table + RowsOf(w.id, w.entries), other)
        == StoredWorkout(workouts, table, other)
  {
    var rows := RowsOf(w.id, w.entries);
    CreatedRowsSelected(table, w.id, w.entries);
    WrittenWorkoutReadsBack(workouts[w.id := ParentRow(w)], table + rows, w);
    forall other | other != w.id
      ensures StoredWorkout(workouts[w.id := ParentRow(w)], table + rows, other) == StoredWorkout(workouts, table, other)
    {
      CreateLeavesOthers(workouts, table, w, other);
    }
  }

  /**
   * Update replaces wholesale: after the parent columns are overwritten and
   * the entries deleted and re-inserted, the workout reads back with the
   * written columns and a permutation of exactly the supplied entries (none
   * of the old ones), in order index order; with strictly increasing order
   * indexes it is exactly the workout written. Every other workout reads
   * back as before.
   */
  lemma UpdatedWorkoutReadsBack(workouts: map<int, WorkoutRow>, table: seq<EntryRow>, w: Aggregate)
    requires w.id in workouts
    ensures var got := StoredWorkout(workouts[w.id := ParentRow(w)], EntryRowsNotFor(table, w.id) + RowsOf(w.id, w.entries),
                                     w.id);
      && got.Some? && got.value.(entries := w.entries) == w
      && InOrder(got.value.entries) && multiset(got.value.entries) == multiset(w.entries)
      && (StrictlyInOrder(w.entries) ==> got == Some(w))
    ensures forall other :: other != w.id ==>
      StoredWorkout(workouts[w.id := ParentRow(w)], EntryRowsNotFor(table, w.id) + RowsOf(w.id, w.entries), other)
        == StoredWorkout(workouts, table, other)
  {
    var kept := EntryRowsNotFor(table, w.id);
    var rows := RowsOf(w.id, w.entries);
    UpdatedRowsSelected(table, w.id, w.entries);
    WrittenWorkoutReadsBack(workouts[w.id := ParentRow(w)], kept + rows, w);
    forall other | other != w.id
      ensures StoredWorkout(workouts[w.id := ParentRow(w)], kept + rows, other) == StoredWorkout(workouts, table, other)
    {
      UpdateLeavesOthers(workouts, table, w, other);
    }
  }
}
