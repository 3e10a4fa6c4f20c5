# go-fit in Dafny

A model of the core of go-fit, a small workout-tracking HTTP service
written in Go on top of PostgreSQL:

- the workout aggregate store: a workout row plus its entry rows, written in one transaction;
- the user store, with bcrypt password hashes and lookup of a user by an authentication token;
- the token table;
- the authentication middleware;
- the workout, user-registration and login handlers;
- the `id` URL parameter parser.

Layout:

- The database is the class `Database.Database`. It holds four tables:
  - `workouts`, a map from id to parent columns;
  - `workoutEntries`, `users` and `tokens`, each a sequence of rows in insertion order;
  - and the serial-id sequences.
- The three stores are classes over that database. Their methods change the tables in place and state the whole new state.
- A transaction takes a snapshot and restores it on rollback. An id sequence is not restored, as in PostgreSQL.
- The failure of a statement is a parameter:
  - `fail: Option<Stmt>` names the statement of a transaction that the database rejects;
  - `dbFails` makes a single statement fail.
- The handlers are functions from the request and the answers of the stores to the response and the list of store calls made. They are decision chains with early returns.
- The registration handler is a method. It mutates a new user and calls the real user store.
- A Go string is its sequence of bytes, one `char` per byte, so `|s|` is Go's `len(s)`; the password length rule counts bytes, as Go does.
- Time is an integer clock `now`, in seconds.
- Random material becomes a parameter: the bcrypt salt, and the token entropy, where `None` stands for a failure of the generator.
- SHA-256 and bcrypt are transparent injective stand-ins (`Crypto`).

## Model

| member | source | states |
|---|---|---|
| WorkoutStore.PostgresWorkoutStore.CreateWorkout | internal/store/workout_store.go:39-76 | Succeeds exactly when no statement fails. Then it returns the same workout object with non-zero ids written in place into the workout and every entry slot, fields otherwise unchanged, and the tables hold the new parent row and one entry row per entry in slice order. On any failure it returns nil and both tables are as before. The workout sequence advances by one once the parent insert has run, and the entry sequence by the number of entry inserts that ran, even when the transaction rolls back. |
| WorkoutStore.PostgresWorkoutStore.InsertEntries | internal/store/workout_store.go:56-69 | Inserts the entries in slice order under the workout id, writing each returned id into its slice element. It stops at the first failing insert and says how many rows it added; the other tables are untouched. |
| WorkoutStore.PostgresWorkoutStore.GetWorkoutByID | internal/store/workout_store.go:78-119 | A missing workout row gives (nil, nil), not an error. Otherwise it returns a fresh workout equal to `StoredWorkout` of the tables; a failing statement gives (nil, err). |
| WorkoutStore.PostgresWorkoutStore.UpdateWorkout | internal/store/workout_store.go:121-170 | Fails with ErrNoRows exactly when no row has the id, and leaves both tables unchanged on every failure. On success the parent columns are overwritten, and the workout's entry rows are exactly the supplied entries, with new ids written back in place. The workout sequence never moves; the entry sequence advances by the number of entry inserts that ran, rollback or not. |
| WorkoutStore.PostgresWorkoutStore.ReplaceEntries | internal/store/workout_store.go:145-169 | The delete-and-re-insert half of the update: a failing delete changes no entry id; otherwise the entries get consecutive ids from the sequence as far as the inserts got. Success (no failing delete, insert or commit) leaves the other workouts' rows followed by exactly the supplied entries under the workout id. The entry sequence advances by exactly the number of inserts that ran. |
| WorkoutStore.StoredWorkoutEntries | internal/store/workout_store.go:84-112 | The read gives None iff the id has no workout row. Otherwise the entries are all rows whose workout_id is the id and only those, in non-decreasing order_index. |
| WorkoutStore.StoredWorkout | internal/store/workout_store.go:78-119 | The aggregate GetWorkoutByID reads: None iff no workout row has the id; otherwise the id, the columns of that row, and as many entries as the rows with that workout_id (their content and order are StoredWorkoutEntries). |
| WorkoutStore.EntryRowsFor | internal/store/workout_store.go:93-96 | `WHERE workout_id = $1`: never more rows than the table, and every selected row belongs to that workout. |
| WorkoutStore.EntryRowsNotFor | internal/store/workout_store.go:146 | The rows the entries delete keeps: never more than the table, and none belongs to that workout. |
| WorkoutStore.OrderByIndex | internal/store/workout_store.go:93-96 | `ORDER BY order_index` keeps the number of rows; that the result is a permutation in non-decreasing order_index is OrderByIndexSorts. |
| WorkoutStore.CreatedWorkoutReadsBack | internal/store/workout_store.go:51-69 | Get after create: a workout inserted under a fresh id reads back with its columns and a permutation of its entries in non-decreasing order_index; with strictly increasing order_index it is exactly the created aggregate. Every other workout reads back as before. |
| WorkoutStore.UpdatedWorkoutReadsBack | internal/store/workout_store.go:128-163 | Update replaces wholesale: the workout reads back with the new parent fields and a permutation of exactly the supplied entries, none of the old ones, in non-decreasing order_index; with strictly increasing order_index exactly the supplied list. Every other workout is untouched. |
| WorkoutStore.ReadBackEntries | internal/store/workout_store.go:93-111 | Rows written for a list of entries, ordered by order_index and scanned, give a permutation of that list in non-decreasing order_index, and the list itself when its order_index values strictly increase. |
| WorkoutStore.WrittenWorkoutReadsBack | internal/store/workout_store.go:78-119 | A workout whose parent row and selected entry rows are the ones written for it reads back as ReadBackEntries says. |
| WorkoutStore.EntriesOfPermutation | internal/store/workout_store.go:105-111 | Scanning two permutations of the same rows gives two permutations of the same entries. |
| WorkoutStore.CreatedRowsSelected | internal/store/workout_store.go:56-69 | After the inserts of a new workout, its entries query selects exactly the inserted rows. |
| WorkoutStore.UpdatedRowsSelected | internal/store/workout_store.go:146-163 | After the delete and re-inserts of an update, the entries query selects exactly the re-inserted rows. |
| WorkoutStore.CreateLeavesOthers | internal/store/workout_store.go:51-69 | Creating a workout leaves what every other workout id reads unchanged. |
| WorkoutStore.UpdateLeavesOthers | internal/store/workout_store.go:128-163 | Updating a workout leaves what every other workout id reads unchanged. |
| WorkoutStore.OrderByIndexSorts | internal/store/workout_store.go:93-96 | `ORDER BY order_index` gives a permutation (multiset) of the selected rows in non-decreasing order_index. |
| WorkoutStore.OrderByIndexOfOrdered | internal/store/workout_store.go:93-96 | Rows already in order_index order come back unchanged. |
| WorkoutStore.InsertByOrderIndexKeepsOrder | internal/store/workout_store.go:93-96 | One step of the ordering keeps ordered rows ordered. |
| WorkoutStore.InsertByOrderIndexAddsOne | internal/store/workout_store.go:93-96 | One step of the ordering adds exactly the inserted row (multiset). |
| WorkoutStore.InsertByOrderIndexHead | internal/store/workout_store.go:93-96 | The head after one ordering step is the inserted row or the old head. |
| WorkoutStore.EntryRowsMembers | internal/store/workout_store.go:93-96 | The entries query selects exactly the rows with that workout_id, and the entries delete keeps exactly the others. |
| WorkoutStore.EntryRowsForAppend | internal/store/workout_store.go:93-96 | Selecting a workout's rows distributes over appending rows to the table. |
| WorkoutStore.EntryRowsForNone | internal/store/workout_store.go:93-96 | Nothing is selected from rows that all belong to other workouts. |
| WorkoutStore.EntryRowsForInserted | internal/store/workout_store.go:64-65 | The rows inserted for a workout are selected again for it, and for no other workout. |
| WorkoutStore.EntryRowsForAfterDelete | internal/store/workout_store.go:146 | After the delete, nothing is selected for that workout, and every other workout keeps its rows. |
| WorkoutStore.EntriesOfRowsOf | internal/store/workout_store.go:105-111 | Scanning the rows written for entries gives the entries back. |
| WorkoutStore.EntryOf | internal/store/workout_store.go:106-107 | The entry scanned from a row, written back under the same workout, is that row again. |
| WorkoutStore.AppendEntryKeepsTablesOk | internal/store/workout_store.go:64-65 | Appending an entry row with the next sequence id under a stored workout keeps the table invariant: ids unique and increasing, parent present. |
| WorkoutStore.InsertWorkoutKeepsTablesOk | internal/store/workout_store.go:51 | Inserting a parent row under the next sequence id keeps the invariant, and that id was free. |
| WorkoutStore.UpdateWorkoutKeepsTablesOk | internal/store/workout_store.go:132 | Overwriting the columns of a stored workout keeps the invariant. |
| WorkoutStore.DeleteEntriesKeepsTablesOk | internal/store/workout_store.go:146 | Deleting one workout's entries keeps the invariant. |
| WorkoutStore.IdsStayIncreasing | internal/store/workout_store.go:146 | Deleting rows keeps entry ids strictly increasing. |
| WorkoutStore.Workout.constructor | internal/store/workout_store.go:5-12 | The Workout record with its fields and entries slice. |
| WorkoutStore.PostgresWorkoutStore.constructor | internal/store/workout_store.go:29-31 | The store over a database. |
| UserStore.Password.constructor | internal/store/user_store.go:11-14 | The zero password: empty plaintext and a nil hash. |
| UserStore.Password.Set | internal/store/user_store.go:16-24 | The plaintext is always overwritten. A hashing failure returns the error and keeps the old hash. Success stores a DefaultCost bcrypt hash that this password matches and every other password mismatches. |
| UserStore.Password.Matches | internal/store/user_store.go:26-36 | Three outcomes: (true, nil) exactly on a match, (false, nil) exactly on a plain mismatch, (false, err) on any other primitive error. Never true with an error. |
| UserStore.SetPasswordMatchesOnlyItself | internal/store/user_store.go:16-36 | After a successful Set(p), Matches(p) is (true, nil) and Matches(q) is (false, nil) for q ≠ p. |
| UserStore.UnsetPasswordIsAnError | internal/store/user_store.go:26-34 | A nil hash is an error outcome (false, err), not a mismatch. |
| Crypto.GeneratedHashMatchesOnlyItsPassword | internal/store/user_store.go:18-27 | A generated hash is matched by its password and reported as a plain mismatch for every other one. |
| Crypto.GenerateFromPassword | internal/store/user_store.go:18 | Succeeds iff the primitive does; the hash carries the cost and salt. |
| Crypto.CompareHashAndPassword | internal/store/user_store.go:27 | No error, mismatch or malformed-hash; malformed exactly for a hash that is not bcrypt. |
| Crypto.Sha256 | internal/store/user_store.go:115 | The digest is injective. |
| UserStore.User.constructor | internal/store/user_store.go:38-46 | The zero-valued User, with a fresh zero password. |
| UserStore.User.FromRow | internal/store/user_store.go:86 | Scanning a row gives a user whose row is that row. |
| UserStore.ZeroUserIsNotAnonymous | internal/store/user_store.go:48-52 | IsAnonymous is pointer identity: a distinct zero-valued User with the same fields is not anonymous, and the sentinel is. |
| UserStore.PostgresUserStore.constructor | internal/store/user_store.go:58-60 | The store over a database. |
| UserStore.PostgresUserStore.CreateUser | internal/store/user_store.go:69-77 | Succeeds iff no row has the username and the statement runs. Then the user gets the sequence id (non-zero) and the created/updated time, and one row holding the password hash, never the plaintext, is appended. A failure changes no row; a unique violation still consumes a sequence value. |
| UserStore.PostgresUserStore.GetUserByUsername | internal/store/user_store.go:79-94 | (nil, nil) iff no row has the username. Otherwise a fresh user holding exactly that row. |
| UserStore.UserByUsernameFinds | internal/store/user_store.go:83-89 | The lookup is None iff no row has the username, and otherwise gives a row with that username. |
| UserStore.UserByUsername | internal/store/user_store.go:79-94 | The username query returns only a row of the table with that username. |
| UserStore.TokenUser | internal/store/user_store.go:114-132 | The token query returns only the owner of a token row with the scope, the digest and an expiry after now. |
| UserStore.UserByIdFinds | internal/store/user_store.go:118 | The join on user id finds a row with that id iff one exists. |
| UserStore.PostgresUserStore.UpdateUser | internal/store/user_store.go:96-112 | As written: four placeholders and three arguments, so every call fails and no row changes (see Findings). |
| UserStore.PostgresUserStore.UpdateUserCorrected | internal/store/user_store.go:96-112 | With the username bound to $4: ErrNoRows iff no row has the username. Otherwise the matching row gets the new email, username, bio and updated_at, other rows are unchanged, and the table stays valid. |
| UserStore.UsersUpdatedFinds | internal/store/user_store.go:96-112 | Read after update: the username looked up afterwards finds its row with the new email, bio and updated_at and its id, username, hash and created_at unchanged; every other username finds what it found before. |
| UserStore.UsersUpdatedKeepsUsersOk | internal/store/user_store.go:97 | The update keeps the users-table invariant. |
| UserStore.PostgresUserStore.GetUserToken | internal/store/user_store.go:114-132 | As written: reads column `token_hash`. When it resolves, it returns the user of a token row with the scope, digest sha256(plaintext) and expiry > now; otherwise nil, nil. |
| UserStore.PostgresUserStore.GetUserTokenCorrected | internal/store/user_store.go:114-132 | The same lookup reading the column the insert writes. |
| UserStore.PostgresUserStore.LookupToken | internal/store/user_store.go:114-132 | The shared lookup: an error iff the column does not exist; otherwise a user iff a live matching token row exists. |
| UserStore.TokenUserFinds | internal/store/user_store.go:115-119 | A user is found iff some token row has the scope, the digest and expiry strictly after now, and its owner exists; an expired token is the same as an absent one. |
| UserStore.IssuedTokenAuthenticates | internal/store/user_store.go:119 | A token just added authenticates its user strictly before its expiry and not at or after it. |
| UserStore.TokenColumnsDisagree | internal/store/user_store.go:119 | For a tokens table with a single digest column, whatever its name, the insert's column `hash` and the lookup's column `token_hash` cannot both exist. |
| Database.CheckColumn | internal/store/tokens.go:40 | A statement fails on a column the table does not have. |
| Database.BindArguments | internal/store/user_store.go:97-98 | A statement fails unless the argument count equals the placeholder count. |
| Database.Database.constructor | internal/store/database.go:12-22 | A freshly opened, migrated database: empty tables that satisfy the invariant. |
| Tokens.GenerateToken | internal/store/tokens.go:25 | Fails iff the random source does. Otherwise the plaintext, its digest, the user, the scope and expiry = now + ttl. |
| TokensStore.PostgresTokensStore.constructor | internal/store/tokens.go:14-16 | The store over a database. |
| TokensStore.PostgresTokensStore.CreateNewToken | internal/store/tokens.go:24-36 | A generation failure or an insert failure returns the error, no token, and no new row. Success appends exactly one row {digest, user, expiry, scope} and returns the generated token. |
| TokensStore.PostgresTokensStore.Insert | internal/store/tokens.go:38-45 | Appends the token's row, never its plaintext, or fails and changes nothing. |
| TokensStore.PostgresTokensStore.DeleteAllForUser | internal/store/tokens.go:47-54 | Only a database failure is an error. Otherwise the table becomes `TokensWithout` the old one. |
| TokensStore.TokensWithoutMembers | internal/store/tokens.go:48-50 | Every row with that scope and user is removed and every other row is kept. |
| TokensStore.TokensWithout | internal/store/tokens.go:47-54 | The bulk delete keeps no more rows than there were, and only rows of the table outside that scope and user. |
| TokensStore.TokensWithoutNothingMatches | internal/store/tokens.go:52-53 | With no matching row the delete changes nothing. |
| TokensStore.TokensWithoutIdempotent | internal/store/tokens.go:47-53 | Deleting twice is deleting once. |
| TokensStore.IssueThenAuthenticate | internal/store/tokens.go:40 | As written, for a tokens table with a single digest column, a token whose insert succeeded is never accepted: its lookup fails on `token_hash` (see Findings). |
| TokensStore.IssueThenAuthenticateCorrected | internal/store/tokens.go:24-36 | With matching columns, an issued token resolves to its user before now + ttl and to nil from then on. |
| Middleware.SetUser | internal/middleware/middleware.go:21-24 | The request keeps its header and now carries a user. |
| Middleware.GetUserAfterSetUser | internal/middleware/middleware.go:21-32 | GetUser returns exactly what SetUser stored, nil included. |
| Middleware.GetUser | internal/middleware/middleware.go:26-32 | Defined only when the context holds a user (Go panics otherwise); returns that value, nil included. |
| Middleware.Split | internal/middleware/middleware.go:44 | strings.Split on a single space gives at least one piece; that the pieces join back to the header and hold no space is SplitJoin. |
| Middleware.SplitJoin | internal/middleware/middleware.go:44 | Joining the pieces with single spaces gives the header back, and no piece contains a space. |
| Middleware.SplitAfterWord | internal/middleware/middleware.go:44 | A space-free word, a space and a rest split into that word and the pieces of the rest. |
| Middleware.SplitWord | internal/middleware/middleware.go:44 | A string without spaces is one piece. |
| Middleware.BearerHeader | internal/middleware/middleware.go:44-50 | Exactly two pieces with the first "Bearer" iff the header is "Bearer " followed by a space-free token; the token is then the second piece. |
| Middleware.Authenticate | internal/middleware/middleware.go:34-63 | No header: next runs with the anonymous user and no lookup. A malformed header gives 401 with no lookup. Otherwise one lookup in the authentication scope with the token verbatim: an error gives 401 "Invalid token", nil gives 401 "User not found", and a user makes next run with that user. |
| Middleware.RequireAuthenticatedUser | internal/middleware/middleware.go:65-74 | 401 exactly for the anonymous sentinel. Every other user passes with the request unchanged, a nil user included. |
| Middleware.ProtectedHandlerRunsOnlyForTokenUsers | internal/middleware/middleware.go:34-74 | Behind both middlewares the handler runs iff a well-formed bearer token resolved to a user, and it sees that user. |
| WorkoutHandler.HandleGetWorkoutByID | internal/api/workout_handler.go:24-45 | A bad id gives 400 with no store call. Otherwise one fetch: an error gives 500 and nil gives 404. 200 with the workout iff it was found, and no call mutates. |
| WorkoutHandler.HandleCreateWorkout | internal/api/workout_handler.go:47-72 | An undecodable body gives 400. A nil or anonymous user gives 401 with no store call. Otherwise exactly one CreateWorkout with UserID set to the caller's id: 500 on error; 201 on success with the workout sent, its UserID the caller's, its id and its entries' consecutive ids the ones the store assigned. |
| WorkoutHandler.ApplyPatch | internal/api/workout_handler.go:107-121 | Each supplied field overwrites, each absent field keeps its value, and a supplied entries list replaces the entries; the id is kept. |
| WorkoutHandler.MergePatch | internal/api/workout_handler.go:107-121 | The merged workout keeps the id; each field is the patch's value when supplied and the old value otherwise. |
| WorkoutHandler.MergePatchIdempotent | internal/api/workout_handler.go:107-121 | Applying a patch twice is applying it once, and the empty patch changes nothing. |
| WorkoutHandler.MergePatchOverwrites | internal/api/workout_handler.go:107-121 | A patch supplying every field makes the result independent of the old workout, except the id. |
| WorkoutHandler.HandleUpdateWorkout | internal/api/workout_handler.go:74-155 | The check order is 400 (id), 500/404 (fetch), 400 (payload), 401 (nil, anonymous or UserID ≠ caller), 404/500 (owner lookup), 403 (owner ≠ caller); each of these answers is stated with the exact store calls made before it. UpdateWorkout is called iff the caller is identified and equals both owners; on success 200 with the merged workout whose entries carry the consecutive ids the store assigned. It never creates or deletes. |
| WorkoutHandler.HandleDeleteWorkout | internal/api/workout_handler.go:157-202 | The check order is 400 (id), 401 (nil or anonymous, before any owner lookup), 404/500 (owner lookup), 403 (owner ≠ caller). DeleteWorkout is called iff the owner is the caller; ErrNoRows then gives 404, another error 500, and success 204. |
| WorkoutHandler.NonOwnerNeverMutates | internal/api/workout_handler.go:124-201 | When the owner lookup does not name the caller, neither update nor delete makes a mutating store call. |
| WorkoutHandler.OtherUserIsRefused | internal/api/workout_handler.go:124-145 | Another identified user gets 401 from update (the UserID check comes first) and 403 from delete. |
| WorkoutHandler.WithEntryIdsKeepsOrder | internal/store/workout_store.go:146-159 | Writing the assigned ids into the entries keeps their order_index order. |
| WorkoutHandler.CreateAnswerIsWhatGetReads | internal/api/workout_handler.go:64-70 | The 201 body is what GetWorkoutByID then reads for the new id, when the order_index values strictly increase. |
| WorkoutHandler.UpdateAnswerIsWhatGetReads | internal/api/workout_handler.go:147-154 | The 200 body is what GetWorkoutByID then reads for that id, when the order_index values strictly increase. |
| UserHandler.EmailSplitIsForced | internal/api/user_handler.go:38 | In any match of the email pattern the '@' is the first one and the final '.' the last one. |
| UserHandler.MatchEmail | internal/api/user_handler.go:38-39 | The matcher accepts exactly the strings the regular expression `^[a-zA-Z0-9._%+-]+@[a-zA-Z0-9.-]+\.[a-zA-Z]{2,}$` matches (`EmailPattern`). |
| UserHandler.EmailAccepted | internal/api/user_handler.go:38 | "alice@x.com" matches. |
| UserHandler.EmailShortTopLevelRefused | internal/api/user_handler.go:38 | "alice@x.c" does not match: the top-level part needs two letters. |
| UserHandler.EmailWithoutDotRefused | internal/api/user_handler.go:38 | "alice@com" does not match. |
| UserHandler.ValidateRegisterRequest | internal/api/user_handler.go:33-48 | In order: "missing required fields" iff a field is empty; then "invalid email format" iff the pattern fails; then the length message iff the password has fewer than 6 bytes. Valid iff all three checks pass. |
| UserHandler.HandleRegisterUser | internal/api/user_handler.go:50-85 | An undecodable body or an invalid request gives 400 with nothing hashed and no row or sequence change. A hashing failure gives 500 with no row. 201 iff the request is valid, hashing succeeds and the insert succeeds; the new row then holds a bcrypt hash the password matches, and the body is the user without its hash. The user sequence advances by one on 201, and on 500 exactly when the insert reached the table (a rejected duplicate still uses up its id). |
| TokenHandler.HandleCreateToken | internal/api/token_handler.go:33-71 | An undecodable body gives 400 with no call. A lookup error or unknown user gives 401 "internal error". A Matches error or mismatch gives 401 "invalid credentials" with no token call. Only a verified password leads to CreateNewToken(user id, 24h, authentication): 500 on failure, 201 with the plaintext and expiry on success. |
| TokenHandler.OnlyTheRegisteredPasswordLogsIn | internal/api/token_handler.go:42-62 | For a user whose hash was generated from p, logging in with p requests a 24-hour token for that user. Any other password gets 401 without reaching the token store. |
| TokenHandler.UnsetHashNeverLogsIn | internal/api/token_handler.go:49-54 | A user without a usable hash always gets 401 "invalid credentials". |
| Utils.ReadIdParam | internal/utils/utils.go:27-37 | Empty gives "missing or invalid ID parameter". A string that is not an optionally signed decimal, or is out of int64 range, gives "invalid ID parameter". 0 comes with every error. Otherwise the decimal value, within int64. |
| Utils.ParseIntValue | internal/utils/utils.go:32 | strconv.ParseInt(s, 10, 64) is the decimal value iff s is a signed decimal within int64, and an error otherwise. |
| Utils.ParseInt | internal/utils/utils.go:32 | A parsed value is within int64 and comes from a decimal string. |
| Utils.ParseUintFrom | internal/utils/utils.go:32 | A parsed value is at least the accumulated prefix and within uint64, and comes from digits only. |
| Utils.ParseUintFromValue | internal/utils/utils.go:32 | The digit loop with Go's overflow checks gives the digits' value iff it fits in uint64. |
| Utils.ReadIdParamRoundTrip | internal/utils/utils.go:27-37 | Every int64, negatives included, rendered in base 10 parses back to itself. |
| Utils.FormatNatValue | internal/utils/utils.go:32 | The base-10 rendering of n has value n. |

## Left out

- Where the code and the design disagree, the model follows the code. Updating another user's workout gets 401 from the `existingWorkout.UserID` check, which runs before the owner lookup. The 403 branch is reached only when the fetched UserID and the owner lookup disagree (`WorkoutHandler.OtherUserIsRefused`).
- `store.Workout` has no UserID field and `WorkoutStore` has no GetWorkoutOwner or DeleteWorkout, yet the handler uses all three.
  - The handlers take an `OwnedWorkout` (owner id plus aggregate).
  - The outcomes of the owner lookup and the delete are parameters: `Ok(owner)`, `Err(ErrNoRows)` or another error.
- `ORDER BY order_index` leaves rows with equal order index in an unspecified order. The model keeps them in table order, but what is proved about reading a workout back does not depend on that: with ties only a permutation in order_index order is promised, and exact equality only for strictly increasing order_index (`WorkoutStore.CreatedWorkoutReadsBack`, `WorkoutStore.UpdatedWorkoutReadsBack`).
- Column types: `Weight *float64` is an opaque 64-bit value (`Float64(bits)`). `Reps` and `DurationSeconds` are optional ints.
- Every Go `int` field (ids, `Sets`, `Reps`, `DurationSeconds`, `DurationMinutes`, `CaloriesBurned`, `OrderIndex`, and the ids handed out by the sequences) is an unbounded integer: Go's 64-bit width, and PostgreSQL's integer column ranges, are not modelled. Only the `id` URL parameter is range-checked, as strconv.ParseInt does.
- The entry ids a store call assigns are consecutive values of the entry id sequence, as in a database with one writer at a time; the handlers take the first of them (`updated`, `created`) as the store's answer.
- The tokens table has exactly one digest column, named by `Database.Database.tokenDigestColumn`. A schema with both a `hash` and a `token_hash` column is not modelled: there the insert leaves `token_hash` unset, the lookup finds no row and returns (nil, nil) instead of failing, and an issued token still never authenticates.
- The `Vary: Authorization` header, logging and JSON encoding or decoding are left out. A body that fails to decode is the `None` payload.
- `utils.WriteJson`: its own encoding failure is not modelled.
- bcrypt's 72-byte limit, its cost factor's effect, constant-time comparison and the one-wayness of both hashes are left out. The stand-ins are transparent and injective.
- Rows of the tokens table are not checked against a foreign key to users. A token whose user is gone simply finds no user.
- Concurrency between requests is not modelled: each operation runs alone.
- Database bootstrap, migrations, routing and application wiring are not part of this model.
- `WorkoutStore.PostgresWorkoutStore.GetWorkoutByID`: a scan error on a single entry row is not modelled separately. It is one of the statement failures `fail` can name.
- `Middleware.GetUser`: Go panics when the context has no user. This is a precondition, and the handlers require it only on the paths that reach the call.

## Findings

| source | as written | input that shows it | evidently intended | confidence | as-written member | corrected member |
|---|---|---|---|---|---|---|
| internal/store/user_store.go:97-98 | The UPDATE has placeholders $1..$4 but `Exec` passes three arguments, so every call fails before touching a row | any user, e.g. username "alice": the driver reports 4 expected, 3 given | pass `user.Username` as $4, so that the rows-affected check decides | not executed | UserStore.PostgresUserStore.UpdateUser | UserStore.PostgresUserStore.UpdateUserCorrected |
| internal/store/user_store.go:119 | The token lookup filters on `t.token_hash`, while the insert writes column `hash` (internal/store/tokens.go:40), so the column a token's digest is stored in is never the column its lookup compares | issue a token for user 1, then authenticate with its plaintext: the lookup fails on the missing column | filter on `t.hash`, the column the insert writes | not executed | TokensStore.IssueThenAuthenticate | TokensStore.IssueThenAuthenticateCorrected |
