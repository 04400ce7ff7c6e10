/** The "update an observation" handler: resolve the path's thread, look the
    observation up by id alone, check that the caller wrote it, then replace its
    content. Unlike removal it never checks that the observation lies in the
    resolved thread. */
module ObservationUpdate {
  import opened Store
  import opened Threads
  import ObservationRemoval

  const ObservationNotFoundMessage: string := "Observation not found"
  const NotAuthorMessage: string := "You are not authorized to update this observation"

  function UpdateObservation(db: Db, userId: MemberId, athleteId: AthleteId, areaName: AreaName,
                             observationId: ObservationId, content: string): (r: Result<Db>)
    ensures ResolveThread(db, athleteId, areaName).Err? ==> r == Err(ResolveThread(db, athleteId, areaName).error)
    ensures ResolveThread(db, athleteId, areaName).Ok? && observationId !in db.observations ==>
              r == Err(NotFound(ObservationNotFoundMessage))
    ensures r == Err(Unauthorized(NotAuthorMessage)) <==>
              && ResolveThread(db, athleteId, areaName).Ok?
              && observationId in db.observations
              && db.observations[observationId].memberId != userId
    ensures r.Err? ==> r.error.NotFound? || r.error == Unauthorized(NotAuthorMessage)
    // success needs only the path's thread to exist: the observation may lie in any thread
    ensures r.Ok? <==> ResolveThread(db, athleteId, areaName).Ok? && observationId in db.observations
                       && db.observations[observationId].memberId == userId
    // only the content of the target observation changes
    ensures r.Ok? ==> r.value.observations.Keys == db.observations.Keys
    ensures r.Ok? ==> var before := db.observations[observationId]; var after := r.value.observations[observationId];
              after.content == content && after.threadId == before.threadId && after.memberId == before.memberId
    ensures r.Ok? ==> forall id :: id in db.observations && id != observationId ==>
              r.value.observations[id] == db.observations[id]
    ensures r.Ok? ==> r.value.(observations := db.observations) == db
  {
    match ResolveThread(db, athleteId, areaName)
    case Err(e) => Err(e)
    case Ok(_) =>
      if observationId !in db.observations then Err(NotFound(ObservationNotFoundMessage))
      else
        var observation := db.observations[observationId];
        if observation.memberId != userId then Err(Unauthorized(NotAuthorMessage))
        else Ok(db.(observations := db.observations[observationId := observation.(content := content)]))
  }

  /** Whatever the removal handler accepts, the update handler accepts too, and a
      caller refused by one as a non-author is refused by the other. */
  lemma UpdateAcceptsWhatRemovalAccepts(db: Db, userId: MemberId, athleteId: AthleteId, areaName: AreaName,
                                        observationId: ObservationId, content: string)
    ensures ObservationRemoval.RemoveObservation(db, userId, athleteId, areaName, observationId).Ok? ==>
              UpdateObservation(db, userId, athleteId, areaName, observationId, content).Ok?
    ensures ObservationRemoval.RemoveObservation(db, userId, athleteId, areaName, observationId).Err? &&
            ObservationRemoval.RemoveObservation(db, userId, athleteId, areaName, observationId).error.Unauthorized? ==>
              UpdateObservation(db, userId, athleteId, areaName, observationId, content)
                == Err(Unauthorized(NotAuthorMessage))
  {
  }

  /** The two handlers part ways on an author's observation that lies outside the
      path's thread: removal reports NotFound, the update goes through. */
  lemma UpdateIgnoresThreadMembership(db: Db, userId: MemberId, athleteId: AthleteId, areaName: AreaName,
                                      observationId: ObservationId, content: string)
    requires ResolveThread(db, athleteId, areaName).Ok?
    requires observationId in db.observations
    requires db.observations[observationId].memberId == userId
    requires db.observations[observationId].threadId != ResolveThread(db, athleteId, areaName).value.id
    ensures ObservationRemoval.RemoveObservation(db, userId, athleteId, areaName, observationId)
              == Err(NotFound(ObservationRemoval.ObservationNotFoundMessage))
    ensures UpdateObservation(db, userId, athleteId, areaName, observationId, content).Ok?
  {
  }
}
