/**
 * The workout HTTP handlers as decision chains: each takes the request's
 * inputs and what the store answers to each call it may make, and gives the
 * response together with the store calls it made, in order.
 *
 * The handlers are written against a store whose Workout carries the owning
 * user's id and which also offers GetWorkoutOwner and DeleteWorkout; the
 * store modelled in WorkoutStore has neither, so here the store is only the
 * answers it gives.
 */
module WorkoutHandler {
  import opened Wrappers
  import opened Errors
  import opened Http
  import opened Utils
  import opened Database
  import opened WorkoutStore
  import opened UserStore
  import opened Middleware

  /** The handlers' store.Workout: the aggregate plus the owning user's id. */
  datatype OwnedWorkout = OwnedWorkout(userId: int, workout: Aggregate)

  /**
   * The update payload: each scalar is a pointer and the entries a slice;
   * None stands for nil, a field the client did not supply.
   */
  datatype WorkoutPatch = WorkoutPatch(
    title: Option<string>, description: Option<string>, durationMinutes: Option<int>,
    caloriesBurned: Option<int>, entries: Option<seq<WorkoutEntry>>)

  /** A call a handler makes to the workout store. */
  datatype StoreCall =
    | GetWorkoutByID(id: int)
    | GetWorkoutOwner(id: int)
    | CreateWorkout(workout: OwnedWorkout)
    | UpdateWorkout(workout: OwnedWorkout)
    | DeleteWorkout(id: int)

  /**
   * The ids the store writes into the workout it is handed: CreateWorkout
   * fills in the workout id, and both CreateWorkout and UpdateWorkout give
   * the entries consecutive ids from the entry id sequence.
   */
  datatype Assigned = Assigned(workoutId: int, firstEntryId: int)

  /** The entries of `w` with the consecutive ids the store assigned from `firstEntryId`. */
  function WithEntryIds(w: Aggregate, firstEntryId: int): Aggregate
  {
    w.(entries := WithIds(w.entries, firstEntryId, |w.entries|))
  }

  predicate IsMutation(c: StoreCall)
  {
    c.CreateWorkout? || c.UpdateWorkout? || c.DeleteWorkout?
  }

  datatype Handled<T> = Handled(response: Response<T>, calls: seq<StoreCall>)

  const FailedToRetrieve: string := "Failed to retrieve workout"
  const WorkoutNotFound: string := "Workout not found"
  const InvalidPayload: string := "Invalid request payload"
  const Unauthenticated: string := "Unauthenticated"
  const FailedToCreate: string := "Failed to create workout"
  const Unauthorized: string := "Unauthorized"
  const FailedToRetrieveOwner: string := "Failed to retrieve workout owner"
  const Forbidden: string := "Forbidden"
  const FailedToUpdate: string := "Failed to update workout"
  const FailedToDelete: string := "Failed to delete workout"

  /** The patch merge: a supplied field overwrites, an absent one keeps the existing value. */
  function MergePatch(w: Aggregate, p: WorkoutPatch): (m: Aggregate)
    ensures m.id == w.id
    ensures m.title == (if p.title.Some? then p.title.value else w.title)
    ensures m.description == (if p.description.Some? then p.description.value else w.description)
    ensures m.durationMinutes == (if p.durationMinutes.Some? then p.durationMinutes.value else w.durationMinutes)
    ensures m.caloriesBurned == (if p.caloriesBurned.Some? then p.caloriesBurned.value else w.caloriesBurned)
    ensures m.entries == (if p.entries.Some? then p.entries.value else w.entries)
  {
    Aggregate(
      w.id,
      if p.title.Some? then p.title.value else w.title,
      if p.description.Some? then p.description.value else w.description,
      if p.durationMinutes.Some? then p.durationMinutes.value else w.durationMinutes,
      if p.caloriesBurned.Some? then p.caloriesBurned.value else w.caloriesBurned,
      if p.entries.Some? then p.entries.value else w.entries)
  }

  /**
   * The merge as the handler performs it, field by field on the fetched
   * workout. A supplied entry list, even an empty one, replaces the old list;
   * the id is never touched.
   */
  method ApplyPatch(existing: Workout, p: WorkoutPatch)
    modifies existing
    ensures existing.Value() == MergePatch(old(existing.Value()), p)
    ensures existing.id == old(existing.id)
    ensures p.title.Some? ==> existing.title == p.title.value
    ensures p.title.None? ==> existing.title == old(existing.title)
    ensures p.description.Some? ==> existing.description == p.description.value
    ensures p.description.None? ==> existing.description == old(existing.description)
    ensures p.durationMinutes.Some? ==> existing.durationMinutes == p.durationMinutes.value
    ensures p.durationMinutes.None? ==> existing.durationMinutes == old(existing.durationMinutes)
    ensures p.caloriesBurned.Some? ==> existing.caloriesBurned == p.caloriesBurned.value
    ensures p.caloriesBurned.None? ==> existing.caloriesBurned == old(existing.caloriesBurned)
    ensures p.entries.Some? ==> fresh(existing.entries) && existing.entries[..] == p.entries.value
    ensures p.entries.None? ==> existing.entries == old(existing.entries)
  {
    if p.title.Some? {
      existing.title := p.title.value;
    }
    if p.description.Some? {
      existing.description := p.description.value;
    }
    if p.durationMinutes.Some? {
      existing.durationMinutes := p.durationMinutes.value;
    }
    if p.caloriesBurned.Some? {
      existing.caloriesBurned := p.caloriesBurned.value;
    }
    if p.entries.Some? {
      var es := p.entries.value;
      existing.entries := new WorkoutEntry[|es|](i requires 0 <= i < |es| => es[i]);
      assert existing.entries[..] == es;
    }
  }

  /** Merging the same patch twice is merging it once, and the empty patch changes nothing. */
  lemma MergePatchIdempotent(w: Aggregate, p: WorkoutPatch)
    ensures MergePatch(MergePatch(w, p), p) == MergePatch(w, p)
    ensures MergePatch(w, WorkoutPatch(None, None, None, None, None)) == w
  {
  }

  /** The supplied fields of the result do not depend on the workout merged into. */
  lemma MergePatchOverwrites(w1: Aggregate, w2: Aggregate, p: WorkoutPatch)
    requires p.title.Some? && p.description.Some? && p.durationMinutes.Some? && p.caloriesBurned.Some? && p.entries.Some?
    ensures MergePatch(w1, p) == MergePatch(w2, p).(id := w1.id)
  {
  }

  /** The objects the handlers read: the user in the request context, if any. */
  function ContextUser(r: Request): set<object>
  {
    if r.contextUser.Some? && r.contextUser.value != null then {r.contextUser.value} else {}
  }

  /** The current user of a request is someone other than the anonymous sentinel. */
  predicate Identified(r: Request, anonymousUser: User)
  {
    r.contextUser.Some? && r.contextUser.value != null && r.contextUser.value != anonymousUser
  }

  /**
   * HandleGetWorkoutByID: a bad id is 400 with the parser's message and
   * no store call; otherwise one read, whose error is 500, whose absent
   * workout is 404, and whose workout is 200. Reading never mutates.
   */
  function HandleGetWorkoutByID(idParam: string, fetched: Result<Option<OwnedWorkout>>): (h: Handled<OwnedWorkout>)
    ensures ReadIdParam(idParam).1.Some? ==>
      h == Handled(Response(StatusBadRequest, ErrorEnvelope(ReadIdParam(idParam).1.value)), [])
    ensures ReadIdParam(idParam).1.None? ==> h.calls == [GetWorkoutByID(ReadIdParam(idParam).0)]
    ensures ReadIdParam(idParam).1.None? && fetched.Err? ==>
      h.response == Response(StatusInternalServerError, ErrorEnvelope(FailedToRetrieve))
    ensures ReadIdParam(idParam).1.None? && fetched == Ok(None) ==>
      h.response == Response(StatusNotFound, ErrorEnvelope(WorkoutNotFound))
    ensures h.response.status == StatusOK <==> ReadIdParam(idParam).1.None? && fetched.Ok? && fetched.value.Some?
    ensures h.response.status == StatusOK ==> h.response.body == Envelope(fetched.value.value)
    ensures forall c :: c in h.calls ==> !IsMutation(c)
  {
    var (workoutId, err) := ReadIdParam(idParam);
    if err.Some? then Handled(Response(StatusBadRequest, ErrorEnvelope(err.value)), [])
    else
      var calls := [GetWorkoutByID(workoutId)];
      match fetched
      case Err(_) => Handled(Response(StatusInternalServerError, ErrorEnvelope(FailedToRetrieve)), calls)
      case Ok(None) => Handled(Response(StatusNotFound, ErrorEnvelope(WorkoutNotFound)), calls)
      case Ok(Some(workout)) => Handled(Response(StatusOK, Envelope(workout)), calls)
  }

  /**
   * HandleCreateWorkout: an undecodable body is 400; a nil or anonymous
   * user is 401 and the store is not called; otherwise the workout, with its
   * user id set to the current user's, is created: 500 on failure, 201 on
   * success with the workout sent, its user id set and the ids the store
   * assigned (`created`) written into it.
   */
  function HandleCreateWorkout(payload: Option<OwnedWorkout>, r: Request, anonymousUser: User,
                               created: Result<Assigned>): (h: Handled<OwnedWorkout>)
    requires payload.Some? ==> r.contextUser.Some?
    reads ContextUser(r)
    ensures payload.None? ==> h == Handled(Response(StatusBadRequest, ErrorEnvelope(InvalidPayload)), [])
    ensures payload.Some? && !Identified(r, anonymousUser) ==>
      h == Handled(Response(StatusUnauthorized, ErrorEnvelope(Unauthenticated)), [])
    ensures h.calls != [] <==> payload.Some? && Identified(r, anonymousUser)
    ensures h.calls != [] ==> h.calls == [CreateWorkout(payload.value.(userId := r.contextUser.value.id))]
    ensures h.calls != [] && created.Err? ==>
      h.response == Response(StatusInternalServerError, ErrorEnvelope(FailedToCreate))
    ensures h.response.status == StatusCreated <==> h.calls != [] && created.Ok?
    ensures h.response.status == StatusCreated ==>
      var sent := payload.value.workout;
      h.response.body == Envelope(OwnedWorkout(r.contextUser.value.id,
                                               WithEntryIds(sent, created.value.firstEntryId).(id := created.value.workoutId)))
  {
    match payload
    case None => Handled(Response(StatusBadRequest, ErrorEnvelope(InvalidPayload)), [])
    case Some(workout) =>
      var currentUser := GetUser(r);
      if currentUser == null || currentUser == anonymousUser then
        Handled(Response(StatusUnauthorized, ErrorEnvelope(Unauthenticated)), [])
      else
        var calls := [CreateWorkout(workout.(userId := currentUser.id))];
        match created
        case Err(_) => Handled(Response(StatusInternalServerError, ErrorEnvelope(FailedToCreate)), calls)
        case Ok(ids) =>
          var createdWorkout := workout.(userId := currentUser.id);
          var stored := WithEntryIds(createdWorkout.workout, ids.firstEntryId).(id := ids.workoutId);
          Handled(Response(StatusCreated, Envelope(createdWorkout.(workout := stored))), calls)
  }

  /** HandleUpdateWorkout gets as far as its authorisation check: good id, workout found, payload decoded. */
  predicate UpdateReachesAuth(idParam: string, fetched: Result<Option<OwnedWorkout>>, payload: Option<WorkoutPatch>)
  {
    ReadIdParam(idParam).1.None? && fetched.Ok? && fetched.value.Some? && payload.Some?
  }

  /**
   * HandleUpdateWorkout, in its order of checks: 400 for a bad id; 500 or
   * 404 from the fetch, before any authorisation; 400 for a bad payload;
   * 401 unless the user is identified and is the fetched workout's user;
   * 404 or 500 from the owner lookup; 403 if the owner is someone else.
   * Only then is the merged workout written: 500 on failure; on success
   * 200 with the merged workout, its entries carrying the ids the store
   * assigned from `updated`, the first new entry id.
   */
  function HandleUpdateWorkout(idParam: string, fetched: Result<Option<OwnedWorkout>>, payload: Option<WorkoutPatch>,
                               r: Request, anonymousUser: User, owner: Result<int>, updated: Result<int>)
    : (h: Handled<OwnedWorkout>)
    requires UpdateReachesAuth(idParam, fetched, payload) ==> r.contextUser.Some?
    reads ContextUser(r)
    ensures ReadIdParam(idParam).1.Some? ==>
      h == Handled(Response(StatusBadRequest, ErrorEnvelope(ReadIdParam(idParam).1.value)), [])
    ensures ReadIdParam(idParam).1.None? ==> |h.calls| >= 1 && h.calls[0] == GetWorkoutByID(ReadIdParam(idParam).0)
    ensures ReadIdParam(idParam).1.None? && fetched.Err? ==>
      h == Handled(Response(StatusInternalServerError, ErrorEnvelope(FailedToRetrieve)), [GetWorkoutByID(ReadIdParam(idParam).0)])
    ensures ReadIdParam(idParam).1.None? && fetched == Ok(None) ==>
      h == Handled(Response(StatusNotFound, ErrorEnvelope(WorkoutNotFound)), [GetWorkoutByID(ReadIdParam(idParam).0)])
    ensures ReadIdParam(idParam).1.None? && fetched.Ok? && fetched.value.Some? && payload.None? ==>
      h == Handled(Response(StatusBadRequest, ErrorEnvelope(InvalidPayload)), [GetWorkoutByID(ReadIdParam(idParam).0)])
    ensures UpdateReachesAuth(idParam, fetched, payload) &&
            !(Identified(r, anonymousUser) && fetched.value.value.userId == r.contextUser.value.id) ==>
      h == Handled(Response(StatusUnauthorized, ErrorEnvelope(Unauthorized)), [GetWorkoutByID(ReadIdParam(idParam).0)])
    ensures UpdateReachesAuth(idParam, fetched, payload) && Identified(r, anonymousUser)
            && fetched.value.value.userId == r.contextUser.value.id && owner == Err(ErrNoRows) ==>
      h == Handled(Response(StatusNotFound, ErrorEnvelope(WorkoutNotFound)),
                   [GetWorkoutByID(ReadIdParam(idParam).0), GetWorkoutOwner(ReadIdParam(idParam).0)])
    ensures UpdateReachesAuth(idParam, fetched, payload) && Identified(r, anonymousUser)
            && fetched.value.value.userId == r.contextUser.value.id && owner.Err? && owner.error != ErrNoRows ==>
      h == Handled(Response(StatusInternalServerError, ErrorEnvelope(FailedToRetrieveOwner)),
                   [GetWorkoutByID(ReadIdParam(idParam).0), GetWorkoutOwner(ReadIdParam(idParam).0)])
    ensures h.response.status == StatusForbidden ==>
      h == Handled(Response(StatusForbidden, ErrorEnvelope(Forbidden)),
                   [GetWorkoutByID(ReadIdParam(idParam).0), GetWorkoutOwner(ReadIdParam(idParam).0)])
    ensures h.response.status == StatusForbidden <==>
      UpdateReachesAuth(idParam, fetched, payload) && Identified(r, anonymousUser)
      && fetched.value.value.userId == r.contextUser.value.id && owner.Ok? && owner.value != r.contextUser.value.id
    ensures (exists c :: c in h.calls && c.UpdateWorkout?) <==>
      UpdateReachesAuth(idParam, fetched, payload) && Identified(r, anonymousUser)
      && fetched.value.value.userId == r.contextUser.value.id && owner == Ok(r.contextUser.value.id)
    ensures (exists c :: c in h.calls && c.UpdateWorkout?) ==>
      var existing := fetched.value.value;
      && h.calls == [GetWorkoutByID(ReadIdParam(idParam).0), GetWorkoutOwner(ReadIdParam(idParam).0),
                     UpdateWorkout(OwnedWorkout(existing.userId, MergePatch(existing.workout, payload.value)))]
      && h.response == (if updated.Err? then Response(StatusInternalServerError, ErrorEnvelope(FailedToUpdate))
                        else Response(StatusOK, Envelope(OwnedWorkout(existing.userId,
                                        WithEntryIds(MergePatch(existing.workout, payload.value), updated.value)))))
    ensures forall c :: c in h.calls ==> !c.CreateWorkout? && !c.DeleteWorkout?
  {
    var (workoutId, err) := ReadIdParam(idParam);
    if err.Some? then Handled(Response(StatusBadRequest, ErrorEnvelope(err.value)), [])
    else
      var fetchCalls := [GetWorkoutByID(workoutId)];
      match fetched
      case Err(_) => Handled(Response(StatusInternalServerError, ErrorEnvelope(FailedToRetrieve)), fetchCalls)
      case Ok(None) => Handled(Response(StatusNotFound, ErrorEnvelope(WorkoutNotFound)), fetchCalls)
      case Ok(Some(existingWorkout)) =>
        match payload
        case None => Handled(Response(StatusBadRequest, ErrorEnvelope(InvalidPayload)), fetchCalls)
        case Some(patch) =>
          var merged := OwnedWorkout(existingWorkout.userId, MergePatch(existingWorkout.workout, patch));
          var currentUser := GetUser(r);
          if currentUser == null || currentUser == anonymousUser || merged.userId != currentUser.id then
            Handled(Response(StatusUnauthorized, ErrorEnvelope(Unauthorized)), fetchCalls)
          else
            var ownerCalls := fetchCalls + [GetWorkoutOwner(workoutId)];
            match owner
            case Err(e) =>
              if e == ErrNoRows then Handled(Response(StatusNotFound, ErrorEnvelope(WorkoutNotFound)), ownerCalls)
              else Handled(Response(StatusInternalServerError, ErrorEnvelope(FailedToRetrieveOwner)), ownerCalls)
            case Ok(workoutOwner) =>
              if workoutOwner != currentUser.id then
                Handled(Response(StatusForbidden, ErrorEnvelope(Forbidden)), ownerCalls)
              else
                var calls := ownerCalls + [UpdateWorkout(merged)];
                assert UpdateWorkout(merged) in calls;
                match updated
                case Err(_) => Handled(Response(StatusInternalServerError, ErrorEnvelope(FailedToUpdate)), calls)
                case Ok(firstEntryId) =>
                  Handled(Response(StatusOK, Envelope(merged.(workout := WithEntryIds(merged.workout, firstEntryId)))), calls)
  }

  /**
   * HandleDeleteWorkout, in its order of checks: 400 for a bad id; 401 for
   * a nil or anonymous user, before any lookup; 404 or 500 from the owner
   * lookup; 403 if the owner is someone else. Only then is the workout
   * deleted: ErrNoRows is 404, another error 500, success 204 with no body.
   */
  function HandleDeleteWorkout(idParam: string, r: Request, anonymousUser: User, owner: Result<int>,
                               deleted: Option<Error>): (h: Handled<()>)
    requires ReadIdParam(idParam).1.None? ==> r.contextUser.Some?
    reads ContextUser(r)
    ensures ReadIdParam(idParam).1.Some? ==>
      h == Handled(Response(StatusBadRequest, ErrorEnvelope(ReadIdParam(idParam).1.value)), [])
    ensures ReadIdParam(idParam).1.None? && !Identified(r, anonymousUser) ==>
      h == Handled(Response(StatusUnauthorized, ErrorEnvelope(Unauthorized)), [])
    ensures ReadIdParam(idParam).1.None? && Identified(r, anonymousUser) ==>
      |h.calls| >= 1 && h.calls[0] == GetWorkoutOwner(ReadIdParam(idParam).0)
    ensures ReadIdParam(idParam).1.None? && Identified(r, anonymousUser) && owner == Err(ErrNoRows) ==>
      h.response == Response(StatusNotFound, ErrorEnvelope(WorkoutNotFound))
    ensures ReadIdParam(idParam).1.None? && Identified(r, anonymousUser) && owner.Err? && owner.error != ErrNoRows ==>
      h.response == Response(StatusInternalServerError, ErrorEnvelope(FailedToRetrieveOwner))
    ensures h.response.status == StatusForbidden <==>
      ReadIdParam(idParam).1.None? && Identified(r, anonymousUser) && owner.Ok? && owner.value != r.contextUser.value.id
    ensures (exists c :: c in h.calls && c.DeleteWorkout?) <==>
      ReadIdParam(idParam).1.None? && Identified(r, anonymousUser) && owner == Ok(r.contextUser.value.id)
    ensures (exists c :: c in h.calls && c.DeleteWorkout?) ==>
      && h.calls == [GetWorkoutOwner(ReadIdParam(idParam).0), DeleteWorkout(ReadIdParam(idParam).0)]
      && h.response == (if deleted == Some(ErrNoRows) then Response(StatusNotFound, ErrorEnvelope(WorkoutNotFound))
                        else if deleted.Some? then Response(StatusInternalServerError, ErrorEnvelope(FailedToDelete))
                        else Response(StatusNoContent, NoBody))
    ensures forall c :: c in h.calls ==> !c.CreateWorkout? && !c.UpdateWorkout?
  {
    var (workoutId, err) := ReadIdParam(idParam);
    if err.Some? then Handled(Response(StatusBadRequest, ErrorEnvelope(err.value)), [])
    else
      var currentUser := GetUser(r);
      if currentUser == null || currentUser == anonymousUser then
        Handled(Response(StatusUnauthorized, ErrorEnvelope(Unauthorized)), [])
      else
        var ownerCalls := [GetWorkoutOwner(workoutId)];
        match owner
        case Err(e) =>
          if e == ErrNoRows then Handled(Response(StatusNotFound, ErrorEnvelope(WorkoutNotFound)), ownerCalls)
          else Handled(Response(StatusInternalServerError, ErrorEnvelope(FailedToRetrieveOwner)), ownerCalls)
        case Ok(workoutOwner) =>
          if workoutOwner != currentUser.id then
            Handled(Response(StatusForbidden, ErrorEnvelope(Forbidden)), ownerCalls)
          else
            var calls := ownerCalls + [DeleteWorkout(workoutId)];
            assert DeleteWorkout(workoutId) in calls;
            if deleted == Some(ErrNoRows) then Handled(Response(StatusNotFound, ErrorEnvelope(WorkoutNotFound)), calls)
            else if deleted.Some? then Handled(Response(StatusInternalServerError, ErrorEnvelope(FailedToDelete)), calls)
            else Handled(Response(StatusNoContent, NoBody), calls)
  }

  /**
   * The store is never mutated on behalf of anyone but the owner: an
   * identified user whose id differs from the owner the store reports gets
   * no update and no delete, whatever else the request holds.
   */
  lemma NonOwnerNeverMutates(idParam: string, fetched: Result<Option<OwnedWorkout>>, payload: Option<WorkoutPatch>,
                             r: Request, anonymousUser: User, owner: Result<int>, updated: Result<int>,
                             deleted: Option<Error>)
    requires r.contextUser.Some?
    requires owner.Ok? ==> r.contextUser.value == null || owner.value != r.contextUser.value.id
    ensures forall c :: c in HandleUpdateWorkout(idParam, fetched, payload, r, anonymousUser, owner, updated).calls ==> !IsMutation(c)
    ensures forall c :: c in HandleDeleteWorkout(idParam, r, anonymousUser, owner, deleted).calls ==> !IsMutation(c)
  {
  }

  /**
   * When the fetched workout's user and the owner lookup agree, another
   * identified user asking to update it is answered 401 by the check on the
   * fetched workout, before the owner lookup; asking to delete it, 403.
   */
  lemma OtherUserIsRefused(idParam: string, w: OwnedWorkout, patch: WorkoutPatch, r: Request, anonymousUser: User,
                           updated: Result<int>, deleted: Option<Error>)
    requires ReadIdParam(idParam).1.None?
    requires Identified(r, anonymousUser) && r.contextUser.value.id != w.userId
    ensures HandleUpdateWorkout(idParam, Ok(Some(w)), Some(patch), r, anonymousUser, Ok(w.userId), updated).response.status
              == StatusUnauthorized
    ensures HandleDeleteWorkout(idParam, r, anonymousUser, Ok(w.userId), deleted).response.status == StatusForbidden
  {
  }

  /** Assigning entry ids leaves the order indexes, and so their order, as they were. */
  lemma WithEntryIdsKeepsOrder(w: Aggregate, firstEntryId: int)
    requires StrictlyInOrder(w.entries)
    ensures StrictlyInOrder(WithEntryIds(w, firstEntryId).entries)
  {
    var es := WithEntryIds(w, firstEntryId).entries;
    assert forall i :: 0 <= i < |es| ==> es[i].orderIndex == w.entries[i].orderIndex;
  }

  /**
   * The 201 body is what a following GET reads: once CreateWorkout has
   * written the workout under the id it was given, with the entry ids it
   * was given, the stored aggregate is exactly the workout in the answer,
   * provided its order indexes are strictly increasing.
   */
  lemma CreateAnswerIsWhatGetReads(workouts: map<int, WorkoutRow>, table: seq<EntryRow>, sent: Aggregate, ids: Assigned)
    requires ids.workoutId !in workouts
    requires forall i :: 0 <= i < |table| ==> table[i].workoutId in workouts
    requires StrictlyInOrder(sent.entries)
    ensures var answered := WithEntryIds(sent, ids.firstEntryId).(id := ids.workoutId);
      StoredWorkout(workouts[ids.workoutId := ParentRow(sent)], table + RowsOf(ids.workoutId, answered.entries), ids.workoutId)
        == Some(answered)
  {
    WithEntryIdsKeepsOrder(sent, ids.firstEntryId);
    CreatedWorkoutReadsBack(workouts, table, WithEntryIds(sent, ids.firstEntryId).(id := ids.workoutId));
  }

  /**
   * The 200 body is what a following GET reads: once UpdateWorkout has
   * rewritten the parent row and replaced the entries by the merged ones
   * with the ids it assigned, the stored aggregate is exactly the workout in
   * the answer, provided its order indexes are strictly increasing.
   */
  lemma UpdateAnswerIsWhatGetReads(workouts: map<int, WorkoutRow>, table: seq<EntryRow>, merged: Aggregate,
                                   firstEntryId: int)
    requires merged.id in workouts
    requires StrictlyInOrder(merged.entries)
    ensures var answered := WithEntryIds(merged, firstEntryId);
      StoredWorkout(workouts[merged.id := ParentRow(merged)],
                    EntryRowsNotFor(table, merged.id) + RowsOf(merged.id, answered.entries), merged.id)
        == Some(answered)
  {
    WithEntryIdsKeepsOrder(merged, firstEntryId);
    UpdatedWorkoutReadsBack(workouts, table, WithEntryIds(merged, firstEntryId));
  }
}
