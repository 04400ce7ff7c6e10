/** The body of the "update a member" handler: replace the member's scalar fields,
    then reconcile the member's area links with the requested area names. The whole
    body runs in one transaction, so a failure leaves the store untouched. */
module MemberUpdate {
  import opened Store

  datatype MemberBody = MemberBody(
    name: string,
    email: string,
    phone: Option<string>,
    role: Role,
    areas: seq<AreaName>)

  /** `newAreaIds`: each requested name mapped to its area id, in request order,
      with names that have no area row dropped. */
  function ResolveAreaIds(areaIds: map<AreaName, AreaId>, names: seq<AreaName>): (ids: seq<AreaId>)
    ensures |ids| <= |names|
    ensures forall a :: a in ids <==> a in NamedAreaIds(areaIds, names)
  {
    if |names| == 0 then []
    else
      var rest := ResolveAreaIds(areaIds, names[1..]);
      assert forall n :: n in names ==> n == names[0] || n in names[1..];
      if names[0] in areaIds then [areaIds[names[0]]] + rest else rest
  }

  /** `areasToAdd`: the requested ids the member is not linked to yet. */
  function AreasToAdd(newIds: seq<AreaId>, existing: set<AreaId>): (add: seq<AreaId>)
    ensures |add| <= |newIds|
    ensures forall a :: a in add <==> a in newIds && a !in existing
    ensures add == [] <==> forall a :: a in newIds ==> a in existing
  {
    if |newIds| == 0 then []
    else
      var rest := AreasToAdd(newIds[1..], existing);
      assert forall a :: a in newIds ==> a == newIds[0] || a in newIds[1..];
      if newIds[0] !in existing then [newIds[0]] + rest else rest
  }

  /** `areasToRemove`: the linked ids the request no longer names. */
  function AreasToRemove(existing: set<AreaId>, newIds: seq<AreaId>): (remove: set<AreaId>)
    ensures remove <= existing
    ensures forall a :: a in newIds ==> a !in remove
    ensures forall a :: a in existing && a !in newIds ==> a in remove
  {
    set a | a in existing && a !in newIds
  }

  /** `createMany` of the ids to add (skipping rows that already exist), then
      `deleteMany` of the ids to remove; each only when its list is non-empty. */
  function Reconcile(links: set<MemberArea>, m: MemberId, add: seq<AreaId>, remove: set<AreaId>): set<MemberArea>
  {
    var afterAdd := if |add| > 0 then links + LinksTo(m, set a | a in add) else links;
    if |remove| > 0 then afterAdd - LinksTo(m, remove) else afterAdd
  }

  /** Another member already holds `email`, so the unique index rejects the update. */
  predicate EmailTakenByOther(members: map<MemberId, Member>, memberId: MemberId, email: string)
  {
    exists id :: id in members && id != memberId && members[id].email == email
  }

  function UpdateMember(db: Db, memberId: MemberId, body: MemberBody): (r: Result<Db>)
    ensures r.Err? <==> memberId !in db.members || EmailTakenByOther(db.members, memberId, body.email)
    ensures memberId !in db.members ==> r == Err(DbRejected(MissingRow))
    ensures memberId in db.members && EmailTakenByOther(db.members, memberId, body.email) ==>
              r == Err(DbRejected(DuplicateKey))
    // the four request fields replace the stored ones; nothing else of any member changes
    ensures r.Ok? ==> r.value.members.Keys == db.members.Keys
    ensures r.Ok? ==> forall id :: id in db.members && id != memberId ==> r.value.members[id] == db.members[id]
    ensures r.Ok? ==> var before := db.members[memberId]; var after := r.value.members[memberId];
              && after.name == body.name && after.email == body.email
              && after.phone == body.phone && after.role == body.role
              && after.id == before.id && after.passwordHash == before.passwordHash
    // the member ends up linked to exactly the areas the request names
    ensures r.Ok? ==> LinkedAreaIds(r.value.memberAreas, memberId) == NamedAreaIds(db.areaIds, body.areas)
    // links of other members are neither added nor removed
    ensures r.Ok? ==> forall l: MemberArea :: l.memberId != memberId ==> (l in r.value.memberAreas <==> l in db.memberAreas)
    // no other table is written
    ensures r.Ok? ==> r.value.(members := db.members, memberAreas := db.memberAreas) == db
  {
    if memberId !in db.members then Err(DbRejected(MissingRow))
    else if EmailTakenByOther(db.members, memberId, body.email) then Err(DbRejected(DuplicateKey))
    else Ok(Apply(db, memberId, body))
  }

  /** The writes of a request that the database accepts. */
  function Apply(db: Db, memberId: MemberId, body: MemberBody): (db': Db)
    requires memberId in db.members
    ensures db'.members.Keys == db.members.Keys
    ensures forall id :: id in db.members && id != memberId ==> db'.members[id] == db.members[id]
    ensures LinkedAreaIds(db'.memberAreas, memberId) == NamedAreaIds(db.areaIds, body.areas)
    ensures forall l: MemberArea :: l.memberId != memberId ==> (l in db'.memberAreas <==> l in db.memberAreas)
    ensures db'.(members := db.members, memberAreas := db.memberAreas) == db
  {
      var member := db.members[memberId];
      var members := db.members[memberId := member.(name := body.name, email := body.email,
                                                      phone := body.phone, role := body.role)];
      var existing := LinkedAreaIds(db.memberAreas, memberId);
      var newIds := ResolveAreaIds(db.areaIds, body.areas);
      var add := AreasToAdd(newIds, existing);
      var remove := AreasToRemove(existing, newIds);
      var links := Reconcile(db.memberAreas, memberId, add, remove);
      ReconcileBySets(db.memberAreas, memberId, add, remove);
      db.(members := members, memberAreas := links)
  }

  /** The guards on the two bulk writes change nothing: reconciliation is a set union
      followed by a set difference. */
  lemma ReconcileBySets(links: set<MemberArea>, m: MemberId, add: seq<AreaId>, remove: set<AreaId>)
    ensures Reconcile(links, m, add, remove) == (links + LinksTo(m, set a | a in add)) - LinksTo(m, remove)
  {
  }

  /** Only the set of requested names that have an area row matters: repeating a name,
      reordering the list, or adding unknown names leaves the outcome unchanged. */
  lemma OnlyKnownNameSetMatters(db: Db, memberId: MemberId, b1: MemberBody, b2: MemberBody)
    requires b1.(areas := b2.areas) == b2
    requires forall n :: n in db.areaIds ==> (n in b1.areas <==> n in b2.areas)
    ensures UpdateMember(db, memberId, b1) == UpdateMember(db, memberId, b2)
  {
    if memberId in db.members && !EmailTakenByOther(db.members, memberId, b1.email) {
      SameKnownNamesSameIds(db.areaIds, b1.areas, b2.areas);
      ApplyDependsOnNamedIds(db, memberId, b1, b2);
    }
  }

  lemma SameKnownNamesSameIds(areaIds: map<AreaName, AreaId>, names1: seq<AreaName>, names2: seq<AreaName>)
    requires forall n :: n in areaIds ==> (n in names1 <==> n in names2)
    ensures NamedAreaIds(areaIds, names1) == NamedAreaIds(areaIds, names2)
  {

  }

  /** Two bodies that differ only in area names naming the same ids write the same. */
  lemma ApplyDependsOnNamedIds(db: Db, memberId: MemberId, b1: MemberBody, b2: MemberBody)
    requires memberId in db.members
    requires b1.(areas := b2.areas) == b2
    requires NamedAreaIds(db.areaIds, b1.areas) == NamedAreaIds(db.areaIds, b2.areas)
    ensures Apply(db, memberId, b1) == Apply(db, memberId, b2)
  {

  }

  /** Sending the same body a second time finds nothing to add and nothing to remove,
      and leaves the store as the first request left it. */
  lemma UpdateIsIdempotent(db: Db, memberId: MemberId, body: MemberBody)
    requires UpdateMember(db, memberId, body).Ok?
    ensures var db1 := UpdateMember(db, memberId, body).value;
            var existing := LinkedAreaIds(db1.memberAreas, memberId);
            var newIds := ResolveAreaIds(db1.areaIds, body.areas);
            && AreasToAdd(newIds, existing) == []
            && AreasToRemove(existing, newIds) == {}
            && UpdateMember(db1, memberId, body) == Ok(db1)
  {
    var db1 := UpdateMember(db, memberId, body).value;
    var existing := LinkedAreaIds(db1.memberAreas, memberId);
    var newIds := ResolveAreaIds(db1.areaIds, body.areas);
    var add := AreasToAdd(newIds, existing);
    var remove := AreasToRemove(existing, newIds);
    assert remove == {};
    ReconcileBySets(db1.memberAreas, memberId, add, remove);
    assert Reconcile(db1.memberAreas, memberId, add, remove) == db1.memberAreas;
    var m1 := db1.members[memberId];
    assert m1.(name := body.name, email := body.email, phone := body.phone, role := body.role) == m1;
    assert Apply(db1, memberId, body) == db1;
  }

  /** A successful update keeps the schema's integrity: the new e-mail is held by no one
      else, and every added link points at an existing member and area. */
  lemma UpdatePreservesWellFormed(db: Db, memberId: MemberId, body: MemberBody)
    requires WellFormed(db)
    requires UpdateMember(db, memberId, body).Ok?
    ensures WellFormed(UpdateMember(db, memberId, body).value)
  {
  }
}
