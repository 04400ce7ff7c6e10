/** The relational store the route handlers read and write, as an immutable value.

    Every table the handlers touch is one field of `Db`: rows keyed by a unique id
    become a `map`, the member/area join table becomes a `set` of links, and the two
    tables searched with "first matching row" (threads and athlete-forms) stay `seq`s
    in storage order. A handler that runs in one database transaction is a function
    `Db -> Result<Db>`: `Err` means nothing was written. */
module Store {

  type MemberId = string
  type AthleteId = string
  type AreaId = nat
  type ThreadId = nat
  type ObservationId = int
  type QuestionId = int
  type AthleteFormId = nat

  datatype Option<+T> = None | Some(value: T)

  /** Errors the ORM raises on its own: updating a row that does not exist, and
      writing a value that a unique index already holds. */
  datatype DbFault = MissingRow | DuplicateKey

  /** The closed set of failures a handler can end in. */
  datatype Error =
    | BadRequest(message: string)
    | NotFound(message: string)
    | Unauthorized(message: string)
    | DbRejected(fault: DbFault)

  datatype Result<+T> = Ok(value: T) | Err(error: Error)

  datatype Role = ADMIN | MEMBER

  /** The fixed set of disciplines an area can be named after. */
  datatype AreaName =
    | UNSPECIFIED
    | PSYCHOLOGY
    | PHYSIOTHERAPY
    | NUTRITION
    | NURSING
    | PSYCHOPEDAGOGY
    | PHYSICAL_EDUCATION

  datatype Member = Member(
    id: MemberId,
    name: string,
    email: string,
    phone: Option<string>,
    passwordHash: string,
    role: Role)

  /** One row of the member/area join table. */
  datatype MemberArea = MemberArea(memberId: MemberId, areaId: AreaId)

  datatype Thread = Thread(id: ThreadId, athleteId: AthleteId, areaId: AreaId)

  datatype Observation = Observation(threadId: ThreadId, memberId: MemberId, content: string)

  /** An athlete's copy of a form; `slug` is the slug of the form it instantiates. */
  datatype AthleteForm = AthleteForm(id: AthleteFormId, athleteId: AthleteId, slug: string)

  datatype AnswerValue = Text(text: string) | Choices(choices: seq<string>)

  /** The JSON object stored in an answer row: question id to answer value. */
  type AnswerData = map<QuestionId, AnswerValue>

  datatype Question = Question(title: string, observation: Option<string>)

  datatype Db = Db(
    members: map<MemberId, Member>,
    areaIds: map<AreaName, AreaId>,     // the area table through its unique name
    nextAreaId: AreaId,                 // the id the next created area receives
    memberAreas: set<MemberArea>,
    threads: seq<Thread>,
    observations: map<ObservationId, Observation>,
    athleteForms: seq<AthleteForm>,
    answers: map<AthleteFormId, AnswerData>,  // at most one answer per athlete-form
    questions: map<QuestionId, Question>)

  /** The position of the first row satisfying `p`, as a `findFirst` query sees it. */
  function FirstIndex<T>(rows: seq<T>, p: T -> bool): (r: Option<nat>)
    ensures r.None? <==> forall i :: 0 <= i < |rows| ==> !p(rows[i])
    ensures r.Some? ==> r.value < |rows| && p(rows[r.value])
    ensures r.Some? ==> forall j :: 0 <= j < r.value ==> !p(rows[j])
  {
    if |rows| == 0 then None
    else if p(rows[0]) then Some(0)
    else
      match FirstIndex(rows[1..], p)
      case None => None
      case Some(k) => Some(k + 1)
  }

  /** The ids of the areas `m` is linked to. */
  function LinkedAreaIds(links: set<MemberArea>, m: MemberId): (ids: set<AreaId>)
    ensures forall a :: a in ids <==> MemberArea(m, a) in links
  {
    set l | l in links && l.memberId == m :: l.areaId
  }

  /** The names of the areas `m` is linked to. */
  function LinkedAreaNames(db: Db, m: MemberId): (names: set<AreaName>)
    ensures forall n :: n in names <==> n in db.areaIds && MemberArea(m, db.areaIds[n]) in db.memberAreas
  {
    set n | n in db.areaIds && MemberArea(m, db.areaIds[n]) in db.memberAreas
  }

  /** The ids of the area rows a list of names refers to; names with no row name nothing. */
  function NamedAreaIds(areaIds: map<AreaName, AreaId>, names: seq<AreaName>): set<AreaId>
  {
    set n | n in names && n in areaIds :: areaIds[n]
  }

  /** The join rows linking `m` to each id of `ids`. */
  function LinksTo(m: MemberId, ids: set<AreaId>): (links: set<MemberArea>)
    ensures forall l :: l in links <==> l.memberId == m && l.areaId in ids
  {
    set a | a in ids :: MemberArea(m, a)
  }

  predicate Distinct<T(==)>(xs: seq<T>)
  {
    forall i, j :: 0 <= i < j < |xs| ==> xs[i] != xs[j]
  }

  /** The password rule of both the account and the e-mail handlers: at least six
      characters, counted as a JavaScript string counts them. */
  const MinPasswordLength: nat := 6

  /** The positions of `s` holding a character outside the Basic Multilingual Plane,
      each of which a JavaScript string stores as a surrogate pair. */
  function AstralPositions(s: string): set<nat>
  {
    set i: nat | i < |s| && s[i] as int >= 0x1_0000
  }

  /** The length of `s` as a JavaScript string, in UTF-16 code units. */
  function Utf16Length(s: string): nat
  {
    |s| + |AstralPositions(s)|
  }

  /** The code-unit length lies between the number of characters and twice that,
      and equals the number of characters exactly when no character lies outside the
      Basic Multilingual Plane. */
  lemma Utf16LengthBounds(s: string)
    ensures |s| <= Utf16Length(s) <= 2 * |s|
    ensures Utf16Length(s) == |s| <==> forall i :: 0 <= i < |s| ==> (s[i] as int) < 0x1_0000
  {
    SubsetCard(AstralPositions(s), Indices(|s|));
    if exists i :: 0 <= i < |s| && (s[i] as int) >= 0x1_0000 {
      var i :| 0 <= i < |s| && (s[i] as int) >= 0x1_0000;
      assert i in AstralPositions(s);
    }
  }

  /** The positions `0 .. n - 1`. */
  function Indices(n: nat): (r: set<nat>)
    ensures forall i: int :: i in r <==> 0 <= i < n
    ensures |r| == n
  {
    if n == 0 then {} else Indices(n - 1) + {n - 1}
  }

  lemma {:induction false} SubsetCard<T>(a: set<T>, b: set<T>)
    requires a <= b
    ensures |a| <= |b|
  {
    if a != {} {
      var x :| x in a;
      SubsetCard(a - {x}, b - {x});
    }
  }

  /** Three characters outside the Basic Multilingual Plane make six code units. */
  lemma AstralCharactersCountTwice()
    ensures |"\U{1F600}\U{1F600}\U{1F600}"| == 3
    ensures Utf16Length("\U{1F600}\U{1F600}\U{1F600}") == 6
  {
    var s := "\U{1F600}\U{1F600}\U{1F600}";
    assert AstralPositions(s) == {0, 1, 2};
  }

  predicate EmailInUse(members: map<MemberId, Member>, email: string)
  {
    exists id :: id in members && members[id].email == email
  }

  predicate UniqueEmails(members: map<MemberId, Member>)
  {
    forall a, b :: a in members && b in members && a != b ==> members[a].email != members[b].email
  }

  predicate AreaIdsInjective(areaIds: map<AreaName, AreaId>)
  {
    forall n, n' :: n in areaIds && n' in areaIds && n != n' ==> areaIds[n] != areaIds[n']
  }

  /** The integrity the database schema keeps for members, areas and their links:
      unique e-mails, rows stored under their own id, unique area ids below the
      next one to hand out, and links that point at existing rows. */
  predicate WellFormed(db: Db)
  {
    && UniqueEmails(db.members)
    && (forall id :: id in db.members ==> db.members[id].id == id)
    && AreaIdsInjective(db.areaIds)
    && (forall n :: n in db.areaIds ==> db.areaIds[n] < db.nextAreaId)
    && (forall l :: l in db.memberAreas ==> l.memberId in db.members && l.areaId in db.areaIds.Values)
  }

  /** Distinct thread rows have distinct ids (the id is the primary key). */
  predicate UniqueThreadIds(threads: seq<Thread>)
  {
    forall i, j :: 0 <= i < |threads| && 0 <= j < |threads| && i != j ==> threads[i].id != threads[j].id
  }
}
