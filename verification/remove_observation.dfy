/** The "remove an observation" handler: resolve the path's thread, check that the
    observation lies in that thread, check that the caller wrote it, then delete it. */
module ObservationRemoval {
  import opened Store
  import opened Threads

  const ObservationNotFoundMessage: string := "Observation not found for the specified thread and athlete"
  const NotAuthorMessage: string := "You do not have permission to delete this observation"

  /** The athlete of the thread an observation hangs off. The relation is required by
      the schema, so a missing thread row cannot occur in a consistent store; it
      counts as a mismatch here. */
  predicate ThreadOwnedBy(threads: seq<Thread>, threadId: ThreadId, athleteId: AthleteId)
  {
    match ThreadById(threads, threadId)
    case None => false
    case Some(t) => t.athleteId == athleteId
  }

  /** The observation exists and lies in `thread`, which belongs to `athleteId`. */
  predicate InThread(db: Db, athleteId: AthleteId, thread: Thread, observationId: ObservationId)
  {
    && observationId in db.observations
    && ThreadOwnedBy(db.threads, db.observations[observationId].threadId, athleteId)
    && db.observations[observationId].threadId == thread.id
  }

  /** Every check before the author check passes. */
  predicate Located(db: Db, athleteId: AthleteId, areaName: AreaName, observationId: ObservationId)
  {
    ResolveThread(db, athleteId, areaName).Ok?
    && InThread(db, athleteId, ResolveThread(db, athleteId, areaName).value, observationId)
  }

  function RemoveObservation(db: Db, userId: MemberId, athleteId: AthleteId, areaName: AreaName,
                             observationId: ObservationId): (r: Result<Db>)
    ensures ResolveThread(db, athleteId, areaName).Err? ==> r == Err(ResolveThread(db, athleteId, areaName).error)
    ensures ResolveThread(db, athleteId, areaName).Ok? && !Located(db, athleteId, areaName, observationId) ==>
              r == Err(NotFound(ObservationNotFoundMessage))
    // a caller sees Unauthorized only for an observation every NotFound check accepts
    ensures r == Err(Unauthorized(NotAuthorMessage)) <==>
              Located(db, athleteId, areaName, observationId) && db.observations[observationId].memberId != userId
    ensures r.Err? ==> r.error.NotFound? || r.error == Unauthorized(NotAuthorMessage)
    ensures r.Ok? <==> Located(db, athleteId, areaName, observationId) && db.observations[observationId].memberId == userId
    // exactly the target observation is deleted
    ensures r.Ok? ==> observationId in db.observations && observationId !in r.value.observations
    ensures r.Ok? ==> forall id :: id != observationId ==>
              (id in r.value.observations <==> id in db.observations)
              && (id in db.observations ==> r.value.observations[id] == db.observations[id])
    ensures r.Ok? ==> r.value.(observations := db.observations) == db
  {
    match ResolveThread(db, athleteId, areaName)
    case Err(e) => Err(e)
    case Ok(thread) =>
      if !InThread(db, athleteId, thread, observationId) then Err(NotFound(ObservationNotFoundMessage))
      else if db.observations[observationId].memberId != userId then Err(Unauthorized(NotAuthorMessage))
      else Ok(db.(observations := db.observations - {observationId}))
  }

  /** With unique thread ids, the athlete check on the observation's thread adds
      nothing: the observation is found exactly when it exists and lies in the thread
      the path resolves to. */
  lemma AthleteCheckIsImplied(db: Db, athleteId: AthleteId, areaName: AreaName, observationId: ObservationId)
    requires UniqueThreadIds(db.threads)
    requires ResolveThread(db, athleteId, areaName).Ok?
    ensures var thread := ResolveThread(db, athleteId, areaName).value;
            Located(db, athleteId, areaName, observationId) <==>
              observationId in db.observations && db.observations[observationId].threadId == thread.id
  {
  }
}
