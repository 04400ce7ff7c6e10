/** The "create an account" handler: fill in the body defaults, refuse an e-mail that
    is already registered, then, in one transaction, insert the member, create every
    requested area that has no row yet, and link the member to all requested areas. */
module AccountCreation {
  import opened Store

  const DefaultPassword: string := "T21-ARENA-PARK"
  const DefaultAreas: seq<AreaName> := [UNSPECIFIED]
  const DuplicateEmailMessage: string := "User with same e-mail already exists."
  /** Stand-in for the text of a schema-validation failure, which the error-mapping
      layer (not part of this model) writes. */
  const InvalidBodyMessage: string := "Validation error."

  /** The body as sent: the last three fields may be omitted. */
  datatype AccountRequest = AccountRequest(
    name: string,
    email: string,
    phone: string,
    password: Option<string>,
    role: Option<Role>,
    areas: Option<seq<AreaName>>)

  /** The body once its defaults are filled in. */
  datatype AccountBody = AccountBody(
    name: string,
    email: string,
    phone: string,
    password: string,
    role: Role,
    areas: seq<AreaName>)

  function OrElse<T>(o: Option<T>, default: T): T
  {
    match o
    case Some(v) => v
    case None => default
  }

  /** Schema validation of the body: defaults for the omitted fields, and a minimum
      length for the password. */
  function ParseRequest(req: AccountRequest): (r: Result<AccountBody>)
    // the length is counted in UTF-16 code units, as a JavaScript string counts it
    ensures r.Err? <==> req.password.Some? && Utf16Length(req.password.value) < MinPasswordLength
    ensures r.Err? ==> r.error.BadRequest?
    ensures r.Ok? ==> Utf16Length(r.value.password) >= MinPasswordLength
    ensures r.Ok? ==> r.value.name == req.name && r.value.email == req.email && r.value.phone == req.phone
    ensures r.Ok? && req.password.Some? ==> r.value.password == req.password.value
    ensures req.password.None? ==> r.Ok? && r.value.password == DefaultPassword
    ensures r.Ok? && req.role.Some? ==> r.value.role == req.role.value
    ensures r.Ok? && req.role.None? ==> r.value.role == MEMBER
    ensures r.Ok? && req.areas.Some? ==> r.value.areas == req.areas.value
    ensures r.Ok? && req.areas.None? ==> r.value.areas == [UNSPECIFIED]
  {
    var password := OrElse(req.password, DefaultPassword);
    if Utf16Length(password) < MinPasswordLength then Err(BadRequest(InvalidBodyMessage))
    else Ok(AccountBody(req.name, req.email, req.phone, password,
                        OrElse(req.role, MEMBER), OrElse(req.areas, DefaultAreas)))
  }

  /** A password of three characters outside the Basic Multilingual Plane is six
      UTF-16 code units long, so it passes the length rule. */
  lemma AstralPasswordAccepted(req: AccountRequest)
    requires req.password == Some("\U{1F600}\U{1F600}\U{1F600}")
    ensures ParseRequest(req).Ok?
  {
    AstralCharactersCountTwice();
  }

  /** `areasToCreate`: the requested names with no area row, in request order and
      with the request's repetitions. */
  function AreasToCreate(areaIds: map<AreaName, AreaId>, names: seq<AreaName>): (missing: seq<AreaName>)
    ensures forall n :: multiset(missing)[n] == if n in areaIds then 0 else multiset(names)[n]
    ensures forall n :: n in missing <==> n in names && n !in areaIds
  {
    if |names| == 0 then []
    else
      var rest := AreasToCreate(areaIds, names[1..]);
      assert names == [names[0]] + names[1..];
      assert multiset(names) == multiset{names[0]} + multiset(names[1..]);
      assert forall n :: n in names ==> n == names[0] || n in names[1..];
      if names[0] !in areaIds then [names[0]] + rest else rest
  }

  /** What a batch of area creations leaves: the name index, the next free id and
      the ids handed out, in creation order. */
  datatype Created = Created(areaIds: map<AreaName, AreaId>, next: AreaId, ids: seq<AreaId>)

  /** The `area.create` calls, one per name, each row taking the next id. A name
      whose row an earlier call of the same batch created violates the unique index
      on area names. */
  function CreateAreas(areaIds: map<AreaName, AreaId>, next: AreaId, names: seq<AreaName>): (r: Result<Created>)
    requires forall n :: n in names ==> n !in areaIds
    decreases |names|
    ensures r.Ok? <==> Distinct(names)
    ensures r.Err? ==> r.error == DbRejected(DuplicateKey)
    ensures r.Ok? ==> CreatedFrom(areaIds, next, names, r.value)
  {
    if |names| == 0 then Ok(Created(areaIds, next, []))
    else
      var first := names[0];
      if first in names[1..] then
        Err(DbRejected(DuplicateKey))
      else
        assert forall n :: n in names ==> n == first || n in names[1..];
        assert Distinct(names) <==> Distinct(names[1..]) by {
          if Distinct(names[1..]) {
            forall i, j | 0 <= i < j < |names| ensures names[i] != names[j] {
              if i > 0 {
                assert names[i] == names[1..][i-1] && names[j] == names[1..][j-1];
              } else {
                assert names[j] == names[1..][j-1];
              }
            }
          }
        }
        match CreateAreas(areaIds[first := next], next + 1, names[1..])
        case Err(e) => Err(e)
        case Ok(c) =>
          CreatedStep(areaIds, next, names, c);
          Ok(Created(c.areaIds, c.next, [next] + c.ids))
  }

  function NewMember(id: MemberId, body: AccountBody, hash: string -> string): Member
  {
    Member(id, body.name, body.email, Some(body.phone), hash(body.password), body.role)
  }

  /** The area part of the transaction, for a non-empty list: create the missing
      areas, then link `m` to the rows found and the rows created. */
  function LinkAreas(db: Db, m: MemberId, areas: seq<AreaName>): (r: Result<Db>)
    ensures r.Ok? <==> Distinct(AreasToCreate(db.areaIds, areas))
    ensures r.Err? ==> r.error == DbRejected(DuplicateKey)
    ensures r.Ok? ==> r.value.areaIds.Keys == db.areaIds.Keys + (set n | n in areas)
    ensures r.Ok? ==> forall n :: n in db.areaIds ==> r.value.areaIds[n] == db.areaIds[n]
    ensures r.Ok? ==> db.memberAreas <= r.value.memberAreas
    ensures r.Ok? ==> forall l :: l in r.value.memberAreas - db.memberAreas ==> l.memberId == m
    ensures r.Ok? ==> r.value.(areaIds := db.areaIds, nextAreaId := db.nextAreaId, memberAreas := db.memberAreas) == db
  {
    var recordIds := NamedAreaIds(db.areaIds, areas);
    var toCreate := AreasToCreate(db.areaIds, areas);
    match CreateAreas(db.areaIds, db.nextAreaId, toCreate)
    case Err(e) => Err(e)
    case Ok(c) =>
      MissingNamesCovered(db.areaIds, areas, toCreate);
      Ok(db.(areaIds := c.areaIds, nextAreaId := c.next,
             memberAreas := db.memberAreas + LinksTo(m, recordIds + set a | a in c.ids)))
  }

  /** The handler. `newId` is the id the database generates for the member row and
      `hash` stands for the password hashing function. */
  function CreateAccount(db: Db, req: AccountRequest, newId: MemberId, hash: string -> string): (r: Result<Db>)
    requires newId !in db.members
    ensures ParseRequest(req).Err? ==> r.Err? && r.error.BadRequest?
    ensures ParseRequest(req).Ok? && EmailInUse(db.members, req.email) ==>
              r == Err(BadRequest(DuplicateEmailMessage))
    // past those checks, the transaction fails exactly when a missing area name is requested twice
    ensures Accepted(db, req) ==>
              (r.Ok? <==> Distinct(AreasToCreate(db.areaIds, ParseRequest(req).value.areas)))
    ensures r.Ok? ==> r.value.members == db.members[newId := NewMember(newId, ParseRequest(req).value, hash)]
    ensures r.Ok? ==> r.value.areaIds.Keys == db.areaIds.Keys + (set n | n in ParseRequest(req).value.areas)
    ensures r.Ok? ==> forall n :: n in db.areaIds ==> r.value.areaIds[n] == db.areaIds[n]
    ensures r.Ok? ==> db.memberAreas <= r.value.memberAreas
    ensures r.Ok? ==> forall l :: l in r.value.memberAreas - db.memberAreas ==> l.memberId == newId
    ensures r.Ok? ==> r.value.(members := db.members, areaIds := db.areaIds, nextAreaId := db.nextAreaId,
                               memberAreas := db.memberAreas) == db
  {
    match ParseRequest(req)
    case Err(e) => Err(e)
    case Ok(body) =>
      if EmailInUse(db.members, body.email) then Err(BadRequest(DuplicateEmailMessage))
      else Register(db, body, newId, hash)
  }

  /** The transaction: insert the member row, then run the area part when the list
      is non-empty. */
  function Register(db: Db, body: AccountBody, newId: MemberId, hash: string -> string): (r: Result<Db>)
    requires newId !in db.members
    ensures r.Ok? <==> Distinct(AreasToCreate(db.areaIds, body.areas))
    ensures r.Err? ==> r.error == DbRejected(DuplicateKey)
    ensures r.Ok? ==> r.value.members == db.members[newId := NewMember(newId, body, hash)]
    ensures r.Ok? ==> r.value.areaIds.Keys == db.areaIds.Keys + (set n | n in body.areas)
    ensures r.Ok? ==> forall n :: n in db.areaIds ==> r.value.areaIds[n] == db.areaIds[n]
    ensures r.Ok? ==> db.memberAreas <= r.value.memberAreas
    ensures r.Ok? ==> forall l :: l in r.value.memberAreas - db.memberAreas ==> l.memberId == newId
    ensures r.Ok? ==> r.value.(members := db.members, areaIds := db.areaIds, nextAreaId := db.nextAreaId,
                               memberAreas := db.memberAreas) == db
  {
    var db1 := db.(members := db.members[newId := NewMember(newId, body, hash)]);
    if |body.areas| == 0 then
      assert AreasToCreate(db.areaIds, body.areas) == [];
      Ok(db1)
    else LinkAreas(db1, newId, body.areas)
  }

  /** An accepted request inserts the member row, then runs the area part when the
      list is non-empty. */
  lemma AcceptedRequestSteps(db: Db, req: AccountRequest, newId: MemberId, hash: string -> string)
    requires newId !in db.members
    requires Accepted(db, req)
    ensures var body := ParseRequest(req).value;
            var db1 := db.(members := db.members[newId := NewMember(newId, body, hash)]);
            CreateAccount(db, req, newId, hash) == if |body.areas| == 0 then Ok(db1) else LinkAreas(db1, newId, body.areas)
  {
  }

  /** Inserting a member with a fresh id and a free e-mail keeps the store well
      formed, and the new member has no link yet. */
  lemma InsertKeepsWellFormed(db: Db, member: Member)
    requires WellFormed(db)
    requires member.id !in db.members && !EmailInUse(db.members, member.email)
    ensures WellFormed(db.(members := db.members[member.id := member]))
    ensures forall a :: MemberArea(member.id, a) !in db.memberAreas
  {
  }

  lemma MissingNamesCovered(areaIds: map<AreaName, AreaId>, areas: seq<AreaName>, toCreate: seq<AreaName>)
    requires forall n :: n in toCreate <==> n in areas && n !in areaIds
    ensures areaIds.Keys + (set n | n in toCreate) == areaIds.Keys + (set n | n in areas)
  {
  }

  /** The body parsed and the e-mail is free: the request reaches the transaction. */
  predicate Accepted(db: Db, req: AccountRequest)
  {
    ParseRequest(req).Ok? && !EmailInUse(db.members, req.email)
  }

  /** Requesting twice an area that has no row makes the second `area.create` hit
      the unique index, so the whole transaction fails and the member is not created. */
  lemma RepeatedMissingAreaRejected(db: Db, req: AccountRequest, newId: MemberId, hash: string -> string,
                                    i: nat, j: nat)
    requires newId !in db.members
    requires Accepted(db, req)
    requires var areas := ParseRequest(req).value.areas;
             i < j < |areas| && areas[i] == areas[j] && areas[i] !in db.areaIds
    ensures CreateAccount(db, req, newId, hash) == Err(DbRejected(DuplicateKey))
  {
    RepeatedMissingNotDistinct(db.areaIds, ParseRequest(req).value.areas, i, j);
  }

  lemma RepeatedMissingNotDistinct(areaIds: map<AreaName, AreaId>, areas: seq<AreaName>, i: nat, j: nat)
    requires i < j < |areas| && areas[i] == areas[j] && areas[i] !in areaIds
    ensures !Distinct(AreasToCreate(areaIds, areas))
  {
    var toCreate := AreasToCreate(areaIds, areas);
    var n := areas[i];
    assert multiset(areas)[n] >= 2 by {
      assert areas == areas[..j] + [n] + areas[j+1..];
      assert n in areas[..j];
    }
    assert multiset(toCreate)[n] >= 2;
    if Distinct(toCreate) {
      DistinctCountsAtMostOne(toCreate, n);
    }
  }

  lemma {:induction false} DistinctCountsAtMostOne<T>(xs: seq<T>, x: T)
    requires Distinct(xs)
    ensures multiset(xs)[x] <= 1
  {
    if |xs| > 0 {
      assert xs == [xs[0]] + xs[1..];
      assert Distinct(xs[1..]);
      DistinctCountsAtMostOne(xs[1..], x);
      if xs[0] == x {
        assert x !in xs[1..];
      }
    }
  }

  /** An empty area list creates no area and no link. */
  lemma EmptyAreasCreateNothing(db: Db, req: AccountRequest, newId: MemberId, hash: string -> string)
    requires newId !in db.members
    requires Accepted(db, req) && ParseRequest(req).value.areas == []
    ensures var r := CreateAccount(db, req, newId, hash);
            && r.Ok?
            && r.value.areaIds == db.areaIds
            && r.value.nextAreaId == db.nextAreaId
            && r.value.memberAreas == db.memberAreas
  {
  }


  /** What a successful batch of creations promises, as `CreateAreas` states it. */
  predicate CreatedFrom(areaIds: map<AreaName, AreaId>, next: AreaId, names: seq<AreaName>, c: Created)
  {
    && c.areaIds.Keys == areaIds.Keys + (set n | n in names)
    && (forall n :: n in areaIds ==> c.areaIds[n] == areaIds[n])
    && c.next == next + |names| && |c.ids| == |names|
    && (forall i :: 0 <= i < |names| ==> c.ids[i] == next + i && c.areaIds[names[i]] == next + i)
  }

  /** Creating the first name with `next`, then the rest, creates them all. */
  lemma CreatedStep(areaIds: map<AreaName, AreaId>, next: AreaId, names: seq<AreaName>, c: Created)
    requires |names| > 0 && names[0] !in areaIds
    requires CreatedFrom(areaIds[names[0] := next], next + 1, names[1..], c)
    ensures CreatedFrom(areaIds, next, names, Created(c.areaIds, c.next, [next] + c.ids))
  {
  }

  /** A batch of creations keeps the area ids distinct and below the next free id,
      and the ids it hands out are exactly the values it adds. */
  lemma CreatedIdsFresh(areaIds: map<AreaName, AreaId>, next: AreaId, names: seq<AreaName>, c: Created)
    requires CreatedFrom(areaIds, next, names, c)
    requires AreaIdsInjective(areaIds)
    requires forall n :: n in areaIds ==> areaIds[n] < next
    ensures AreaIdsInjective(c.areaIds)
    ensures forall n :: n in c.areaIds ==> c.areaIds[n] < c.next
    ensures c.areaIds.Values == areaIds.Values + (set a | a in c.ids)
  {
  }

  /** The area part of the transaction keeps the schema's integrity when `m` exists. */
  lemma LinkAreasPreservesWellFormed(db: Db, m: MemberId, areas: seq<AreaName>)
    requires WellFormed(db) && m in db.members
    requires LinkAreas(db, m, areas).Ok?
    ensures WellFormed(LinkAreas(db, m, areas).value)
  {
    var toCreate := AreasToCreate(db.areaIds, areas);
    var c := CreateAreas(db.areaIds, db.nextAreaId, toCreate).value;
    CreatedIdsFresh(db.areaIds, db.nextAreaId, toCreate, c);
    var db1 := LinkAreas(db, m, areas).value;
    assert db1.areaIds == c.areaIds;
    forall l | l in db1.memberAreas ensures l.areaId in db1.areaIds.Values {
      if l !in db.memberAreas && l.areaId in NamedAreaIds(db.areaIds, areas) {
        var n :| n in areas && n in db.areaIds && db.areaIds[n] == l.areaId;
        assert c.areaIds[n] == l.areaId;
      }
    }
  }

  /** A created account keeps the schema's integrity: the e-mail is new, the member
      row is stored under its id, created areas take fresh distinct ids, and every
      link points at an existing member and area. */
  lemma CreatePreservesWellFormed(db: Db, req: AccountRequest, newId: MemberId, hash: string -> string)
    requires WellFormed(db)
    requires newId !in db.members
    requires CreateAccount(db, req, newId, hash).Ok?
    ensures WellFormed(CreateAccount(db, req, newId, hash).value)
  {
    var body := ParseRequest(req).value;
    var db1 := db.(members := db.members[newId := NewMember(newId, body, hash)]);
    AcceptedRequestSteps(db, req, newId, hash);
    InsertKeepsWellFormed(db, NewMember(newId, body, hash));
    if |body.areas| > 0 {
      LinkAreasPreservesWellFormed(db1, newId, body.areas);
    }
  }

  /** The names whose ids are in the found rows or the created ones are exactly the
      requested names. */
  lemma LinkedNamesAreRequested(areaIds: map<AreaName, AreaId>, next: AreaId, areas: seq<AreaName>,
                                toCreate: seq<AreaName>, c: Created, linked: set<AreaId>)
    requires forall n :: n in toCreate <==> n in areas && n !in areaIds
    requires CreatedFrom(areaIds, next, toCreate, c)
    requires AreaIdsInjective(c.areaIds)
    requires linked == NamedAreaIds(areaIds, areas) + set a | a in c.ids
    ensures (set n | n in c.areaIds && c.areaIds[n] in linked) == set n | n in areas
  {
  }

  /** When `m` has no link yet, the area part links it to exactly the requested names. */
  lemma LinkAreasNamesRequested(db: Db, m: MemberId, areas: seq<AreaName>)
    requires WellFormed(db)
    requires forall a :: MemberArea(m, a) !in db.memberAreas
    requires LinkAreas(db, m, areas).Ok?
    ensures LinkedAreaNames(LinkAreas(db, m, areas).value, m) == set n | n in areas
  {
    var toCreate := AreasToCreate(db.areaIds, areas);
    var c := CreateAreas(db.areaIds, db.nextAreaId, toCreate).value;
    CreatedIdsFresh(db.areaIds, db.nextAreaId, toCreate, c);
    var linked := NamedAreaIds(db.areaIds, areas) + set a | a in c.ids;
    LinkedNamesAreRequested(db.areaIds, db.nextAreaId, areas, toCreate, c, linked);
    var db1 := db.(areaIds := c.areaIds, nextAreaId := c.next, memberAreas := db.memberAreas + LinksTo(m, linked));
    assert LinkAreas(db, m, areas).value == db1;
    NamesOfLinks(db1, m, c, linked, areas);
  }

  lemma NamesOfLinks(db1: Db, m: MemberId, c: Created, linked: set<AreaId>, areas: seq<AreaName>)
    requires db1.areaIds == c.areaIds
    requires forall a :: MemberArea(m, a) in db1.memberAreas <==> a in linked
    requires (set n | n in c.areaIds && c.areaIds[n] in linked) == set n | n in areas
    ensures LinkedAreaNames(db1, m) == set n | n in areas
  {
  }

  /** The new member's links name exactly the requested areas. */
  lemma LinkedToRequestedAreas(db: Db, req: AccountRequest, newId: MemberId, hash: string -> string)
    requires WellFormed(db)
    requires newId !in db.members
    requires CreateAccount(db, req, newId, hash).Ok?
    ensures LinkedAreaNames(CreateAccount(db, req, newId, hash).value, newId)
            == set n | n in ParseRequest(req).value.areas
  {
    var body := ParseRequest(req).value;
    var db1 := db.(members := db.members[newId := NewMember(newId, body, hash)]);
    AcceptedRequestSteps(db, req, newId, hash);
    InsertKeepsWellFormed(db, NewMember(newId, body, hash));
    if |body.areas| > 0 {
      LinkAreasNamesRequested(db1, newId, body.areas);
    } else {
      assert LinkedAreaNames(db1, newId) == {};
    }
  }
}
