/** The lookup both observation handlers start with: the area named in the path, then
    the athlete's thread in that area. */
module Threads {
  import opened Store

  const AreaNotFoundMessage: string := "Area not found"
  const ThreadNotFoundMessage: string := "Thread not found for the specified area and athlete"

  /** `thread.findFirst` for an athlete and an area. */
  function FindThread(threads: seq<Thread>, athleteId: AthleteId, areaId: AreaId): (r: Option<Thread>)
    ensures r.None? <==> forall i :: 0 <= i < |threads| ==> !(threads[i].athleteId == athleteId && threads[i].areaId == areaId)
    ensures r.Some? ==> r.value in threads && r.value.athleteId == athleteId && r.value.areaId == areaId
  {
    match FirstIndex(threads, (t: Thread) => t.athleteId == athleteId && t.areaId == areaId)
    case None => None
    case Some(i) => Some(threads[i])
  }

  /** The thread row with primary key `id`. */
  function ThreadById(threads: seq<Thread>, id: ThreadId): (r: Option<Thread>)
    ensures r.None? <==> forall i :: 0 <= i < |threads| ==> threads[i].id != id
    ensures r.Some? ==> r.value in threads && r.value.id == id
  {
    match FirstIndex(threads, (t: Thread) => t.id == id)
    case None => None
    case Some(i) => Some(threads[i])
  }

  /** The area of the path, then the athlete's thread in it, checked in that order. */
  function ResolveThread(db: Db, athleteId: AthleteId, areaName: AreaName): (r: Result<Thread>)
    ensures areaName !in db.areaIds ==> r == Err(NotFound(AreaNotFoundMessage))
    ensures areaName in db.areaIds ==>
              (r.Err? <==> FindThread(db.threads, athleteId, db.areaIds[areaName]).None?)
    ensures areaName in db.areaIds && r.Err? ==> r == Err(NotFound(ThreadNotFoundMessage))
    ensures r.Ok? ==> areaName in db.areaIds && r.value in db.threads
                      && r.value.athleteId == athleteId && r.value.areaId == db.areaIds[areaName]
  {
    if areaName !in db.areaIds then Err(NotFound(AreaNotFoundMessage))
    else
      match FindThread(db.threads, athleteId, db.areaIds[areaName])
      case None => Err(NotFound(ThreadNotFoundMessage))
      case Some(t) => Ok(t)
  }
}
