/** The `/api/persons` routes over the record store. Each handler is a method that runs its
    reads and writes in the order the route does; the function next to it says what the
    request answers and what the store holds afterwards, and the lemmas say which invariants
    of the store a successful request keeps. Identifier-format checks are not modelled: every
    id is taken as well formed. */
module PersonRoutes {
  import opened Collections
  import opened Persons
  import opened RelationshipUtils
  import opened Storage
  import opened StoreEdits
  import Graphs
  import Text

  /** A Joi `string()` that is absent, or present, non-empty and at most `max` long. */
  predicate OptionalUpTo(s: Option<string>, max: nat)
  {
    s.None? || 1 <= |s.value| <= max
  }

  /** A Joi `string()` with no length bound: absent, or present and non-empty. */
  predicate OptionalNonEmpty(s: Option<string>)
  {
    s.None? || s.value != ""
  }

  /** `/^[\+]?[\d]{1,16}$/`: an optional plus sign, then one to sixteen decimal digits. */
  predicate IsPhoneNumber(s: string)
  {
    var digits := if |s| > 0 && s[0] == '+' then s[1..] else s;
    1 <= |digits| <= 16 && forall i :: 0 <= i < |digits| ==> Text.IsDigit(digits[i])
  }

  predicate OptionalPhone(s: Option<string>)
  {
    s.None? || IsPhoneNumber(s.value)
  }

  /** `createPersonSchema`, for the constraints it puts on lengths, counts and the phone
      pattern. */
  predicate CreateInputValid(input: PersonInput)
  {
    && 1 <= |input.firstName| <= 50
    && 1 <= |input.lastName| <= 50
    && OptionalNonEmpty(input.email)
    && OptionalUpTo(input.placeOfBirth, 100)
    && OptionalPhone(input.phoneNumber)
    && OptionalNonEmpty(input.profilePhoto)
    && |input.parentIds| <= 2
    && OptionalNonEmpty(input.spouseId)
    && OptionalUpTo(input.notes, 1000)
  }

  /** The body of an update request: only the supplied fields are present. */
  datatype PersonUpdate = PersonUpdate(
    firstName: Option<string>,
    lastName: Option<string>,
    email: Option<string>,
    dateOfBirth: Option<Time>,
    placeOfBirth: Option<string>,
    phoneNumber: Option<string>,
    profilePhoto: Option<string>,
    notes: Option<string>)

  /** `updatePersonSchema`. */
  predicate UpdateInputValid(u: PersonUpdate)
  {
    && OptionalUpTo(u.firstName, 50)
    && OptionalUpTo(u.lastName, 50)
    && OptionalNonEmpty(u.email)
    && OptionalUpTo(u.placeOfBirth, 100)
    && OptionalPhone(u.phoneNumber)
    && OptionalNonEmpty(u.profilePhoto)
    && OptionalUpTo(u.notes, 1000)
  }

  /** A supplied value that JavaScript treats as true. */
  predicate Truthy(s: Option<string>)
  {
    s.Some? && s.value != ""
  }

  function Override<T>(current: T, supplied: Option<T>): T
  {
    if supplied.Some? then supplied.value else current
  }

  function OverrideOptional<T>(current: Option<T>, supplied: Option<T>): Option<T>
  {
    if supplied.Some? then supplied else current
  }

  /** `{...existing, ...update, updatedAt}`, then `fullName` recomputed when a first or last
      name was supplied. */
  function MergeUpdate(p: Person, u: PersonUpdate, now: Time): (r: Person)
    ensures r.id == p.id && r.parentIds == p.parentIds && r.childrenIds == p.childrenIds
    ensures r.spouseId == p.spouseId && r.createdAt == p.createdAt && r.updatedAt == now
    ensures r.firstName == (if u.firstName.Some? then u.firstName.value else p.firstName)
    ensures r.lastName == (if u.lastName.Some? then u.lastName.value else p.lastName)
    ensures Truthy(u.firstName) || Truthy(u.lastName) ==> NameConsistent(r)
    ensures !Truthy(u.firstName) && !Truthy(u.lastName) ==> r.fullName == p.fullName
  {
    var merged := p.(
      firstName := Override(p.firstName, u.firstName),
      lastName := Override(p.lastName, u.lastName),
      email := OverrideOptional(p.email, u.email),
      dateOfBirth := OverrideOptional(p.dateOfBirth, u.dateOfBirth),
      placeOfBirth := OverrideOptional(p.placeOfBirth, u.placeOfBirth),
      phoneNumber := OverrideOptional(p.phoneNumber, u.phoneNumber),
      profilePhoto := OverrideOptional(p.profilePhoto, u.profilePhoto),
      notes := OverrideOptional(p.notes, u.notes),
      updatedAt := now);
    if Truthy(u.firstName) || Truthy(u.lastName) then
      merged.(fullName := merged.firstName + " " + merged.lastName)
    else
      merged
  }

  /** A valid update never leaves `fullName` stale: a supplied name is never empty, so
      supplying one always triggers the recomputation. */
  lemma UpdateKeepsNameConsistent(p: Person, u: PersonUpdate, now: Time)
    requires UpdateInputValid(u) && NameConsistent(p)
    ensures NameConsistent(MergeUpdate(p, u, now))
  {
  }

  /** The answer to a create request and the store after it. */
  function CreateOutcome(m: Records, input: PersonInput, newId: Id, now: Time): (Result<Person>, Records)
  {
    if !CreateInputValid(input) then (Err(ValidationError), m)
    else if exists pid :: pid in input.parentIds && pid !in m then (Err(ParentNotFound), m)
    else if |input.parentIds| > 2 then (Err(ErrorCode.TooManyParents), m)
    else
      var p := CreatePerson(input, newId, now);
      (Ok(p), LinkNewChild(m[p.id := p], input.parentIds, p, now))
  }

  /** Filing a fresh childless record whose parents are all stored, then linking it from
      them, keeps a consistent store consistent. */
  lemma LinkedChildConsistent(m: Records, p: Person, now: Time)
    requires Consistent(m) && p.id !in m && p.childrenIds == []
    requires forall pid :: pid in p.parentIds ==> pid in m
    ensures Consistent(LinkNewChild(m[p.id := p], p.parentIds, p, now))
  {
    var pids := p.parentIds;
    var m0 := m[p.id := p];
    var m' := LinkNewChild(m0, pids, p, now);
    LinkNewChildEffect(m0, pids, p, now);
    forall k | k in m'
      ensures m'[k].id == k && m'[k].parentIds == m0[k].parentIds
      ensures forall c :: c in m'[k].childrenIds <==> c in m0[k].childrenIds || (k in pids && c == p.id)
    {
      if k in pids {
        CountPositive(pids, k);
        var s, t := m0[k].childrenIds, Repeat(p.id, Count(pids, k));
        assert t[0] == p.id;
        assert forall c :: c in s + t <==> c in s || c in t;
      }
    }
    forall k, pid | k in m' && pid in m'[k].parentIds
      ensures pid in m' && k in m'[pid].childrenIds
    {
      if k != p.id {
        assert k in m[pid].childrenIds;
      }
    }
    forall k, cid | k in m' && cid in m'[k].childrenIds
      ensures cid in m' && k in m'[cid].parentIds
    {
      if cid != p.id {
        assert cid in m[k].childrenIds;
      }
    }
  }

  /** A successful create with a fresh id adds exactly the new record; a consistent store
      stays consistent and no record gets a third parent. */
  lemma CreateKeepsConsistent(m: Records, input: PersonInput, newId: Id, now: Time)
    requires Consistent(m) && newId !in m
    requires CreateOutcome(m, input, newId, now).0.Ok?
    ensures var (r, m') := CreateOutcome(m, input, newId, now);
      && m'.Keys == m.Keys + {newId}
      && m'[newId] == r.value
      && Consistent(m')
      && (ParentsBounded(m) ==> ParentsBounded(m'))
  {
    var p := CreatePerson(input, newId, now);
    LinkNewChildEffect(m[newId := p], input.parentIds, p, now);
    LinkedChildConsistent(m, p, now);
  }

  /** The answer to an update request and the store after it. */
  function UpdateOutcome(m: Records, id: Id, u: PersonUpdate, now: Time): (Result<Person>, Records)
  {
    if !UpdateInputValid(u) then (Err(ValidationError), m)
    else if id !in m then (Err(PersonNotFound), m)
    else
      var p := MergeUpdate(m[id], u, now);
      (Ok(p), m[id := p])
  }

  /** An update touches one record and none of its links. */
  lemma UpdateKeepsConsistent(m: Records, id: Id, u: PersonUpdate, now: Time)
    requires Consistent(m)
    ensures var (r, m') := UpdateOutcome(m, id, u, now);
      && m'.Keys == m.Keys
      && (forall k :: k in m && k != id ==> m'[k] == m[k])
      && Consistent(m')
      && (ParentsBounded(m) ==> ParentsBounded(m'))
  {
  }

  /** The `strategy` query parameter, `'orphan'` when absent or empty. */
  function EffectiveStrategy(strategy: Option<string>): string
  {
    if strategy.None? || strategy.value == "" then "orphan" else strategy.value
  }

  /** The `data` of a successful delete. */
  datatype DeleteSummary = DeleteSummary(id: Id, strategy: string, childrenAffected: nat)

  /** The answer to a delete request and the store after it, given the ids of the descendant
      snapshot a cascade works through. */
  function DeleteOutcome(m: Records, id: Id, strategy: Option<string>, descendants: seq<Id>, now: Time)
    : (Result<DeleteSummary>, Records)
  {
    if id !in m then (Err(PersonNotFound), m)
    else
      var s := EffectiveStrategy(strategy);
      if s != "orphan" && s != "cascade" then (Err(InvalidDeletionStrategy), m)
      else
        var person := m[id];
        var m1 :=
          if |person.childrenIds| == 0 then m
          else if s == "cascade" then CleanupAll(m, descendants, now)
          else DropParentFrom(m, person.childrenIds, person, now);
        (Ok(DeleteSummary(id, s, |person.childrenIds|)), DropChildFrom(m1, person.parentIds, person, now) - {id})
  }

  /** The descendant snapshot a delete works through: the ids of the stored records one or
      more `childrenIds` steps below the person, when it cascades over children; none
      otherwise. */
  ghost predicate DescendantSnapshot(m: Records, id: Id, strategy: Option<string>, descendants: seq<Id>)
  {
    if id in m && EffectiveStrategy(strategy) == "cascade" && |m[id].childrenIds| > 0 then
      && (forall x :: x in descendants ==> x in m && Graphs.ProperlyReachable(StoreGraph(m, Down), id, x))
      && (forall k :: k in m && Graphs.ProperlyReachable(StoreGraph(m, Down), id, k) ==> k in descendants)
    else
      descendants == []
  }

  /** A successful delete removes the person (and, cascading, its descendants); the orphan
      strategy is exactly `deletePersonAndCleanup`; a consistent store stays consistent, so
      no surviving record names a deleted one. */
  lemma DeleteKeepsConsistent(m: Records, id: Id, strategy: Option<string>, descendants: seq<Id>, now: Time)
    requires Consistent(m) && DescendantSnapshot(m, id, strategy, descendants)
    requires DeleteOutcome(m, id, strategy, descendants, now).0.Ok?
    ensures var (r, m') := DeleteOutcome(m, id, strategy, descendants, now);
      && Consistent(m')
      && m'.Keys == m.Keys - {id} - set x | x in descendants
      && (EffectiveStrategy(strategy) == "orphan" ==> m' == Cleanup(m, id, now))
  {
    var person := m[id];
    var m' := DeleteOutcome(m, id, strategy, descendants, now).1;
    if |person.childrenIds| == 0 || EffectiveStrategy(strategy) == "orphan" {
      assert DropParentFrom(m, [], person, now) == m;
      assert m' == Orphan(m, id, now);
      OrphanIsCleanup(m, id, now);
      CleanupKeepsConsistent(m, id, now);
    } else {
      var g := StoreGraph(m, Down);
      forall c | c in person.childrenIds ensures c in descendants {
        Graphs.ReachableRefl(g, c);
        Graphs.ReachablePrepend(g, id, c, c);
      }
      CascadeKeepsConsistent(m, id, descendants, now);
    }
  }

  /** The answer to an add-child request and the store after it. */
  ghost function AddChildOutcome(m: Records, parentId: Id, childId: Id, now: Time): (Result<Pair>, Records)
  {
    if parentId !in m then (Err(ParentNotFound), m)
    else if childId !in m then (Err(ChildNotFound), m)
    else
      var parent, child := m[parentId], m[childId];
      if child.id in parent.childrenIds then (Err(RelationshipExists), m)
      else if |child.parentIds| >= 2 then (Err(ErrorCode.TooManyParents), m)
      else if Graphs.Reachable(StoreGraph(m, Up), parent.id, child.id) then (Err(CircularRelationship), m)
      else
        var pair := AddChildRelationship(parent, child, now);
        (Ok(pair), m[parent.id := pair.parent][child.id := pair.child])
  }

  /** Writing back both sides of `addChildRelationship` for two distinct stored records keeps
      a consistent store consistent. */
  lemma LinkedPairConsistent(m: Records, parentId: Id, childId: Id, now: Time)
    requires Consistent(m) && parentId in m && childId in m && parentId != childId
    ensures var pair := AddChildRelationship(m[parentId], m[childId], now);
      Consistent(m[parentId := pair.parent][childId := pair.child])
  {
    var pair := AddChildRelationship(m[parentId], m[childId], now);
    var m' := m[parentId := pair.parent][childId := pair.child];
    forall k | k in m'
      ensures m'[k].id == k
      ensures m'[k].parentIds == if k == childId then m[k].parentIds + [parentId] else m[k].parentIds
      ensures m'[k].childrenIds == if k == parentId then m[k].childrenIds + [childId] else m[k].childrenIds
    {
    }
    forall k, pid | k in m' && pid in m'[k].parentIds
      ensures pid in m' && k in m'[pid].childrenIds
    {
      if !(k == childId && pid == parentId) {
        assert pid in m[k].parentIds;
      }
    }
    forall k, cid | k in m' && cid in m'[k].childrenIds
      ensures cid in m' && k in m'[cid].parentIds
    {
      if !(k == parentId && cid == childId) {
        assert cid in m[k].childrenIds;
      }
    }
  }

  /** The same write adds exactly the edge from the child to the parent to the parent
      graph. */
  lemma LinkedPairGraph(m: Records, parentId: Id, childId: Id, now: Time)
    requires KeyedById(m) && parentId in m && childId in m && parentId != childId
    ensures var pair := AddChildRelationship(m[parentId], m[childId], now);
      StoreGraph(m[parentId := pair.parent][childId := pair.child], Up)
        == Graphs.AddEdge(StoreGraph(m, Up), childId, parentId)
  {
    var pair := AddChildRelationship(m[parentId], m[childId], now);
    var g, g' := StoreGraph(m, Up), StoreGraph(m[parentId := pair.parent][childId := pair.child], Up);
    forall a | a in g' ensures g'[a] == Graphs.AddEdge(g, childId, parentId)[a] {
    }
    Graphs.SameGraph(g', Graphs.AddEdge(g, childId, parentId));
  }

  /** A successful link writes exactly the parent and the child; it keeps a consistent store
      consistent and leaves the child with at most two parents. */
  lemma AddChildKeepsInvariants(m: Records, parentId: Id, childId: Id, now: Time)
    requires Consistent(m)
    requires AddChildOutcome(m, parentId, childId, now).0.Ok?
    ensures var (r, m') := AddChildOutcome(m, parentId, childId, now);
      && parentId != childId
      && m'.Keys == m.Keys
      && (forall k :: k in m && k != parentId && k != childId ==> m'[k] == m[k])
      && m'[parentId].childrenIds == m[parentId].childrenIds + [childId]
      && m'[childId].parentIds == m[childId].parentIds + [parentId]
      && |m'[childId].parentIds| <= 2
      && Consistent(m')
      && (ParentsBounded(m) ==> ParentsBounded(m'))
  {
    if parentId == childId {
      Graphs.ReachableRefl(StoreGraph(m, Up), parentId);
    }
    var pair := AddChildRelationship(m[parentId], m[childId], now);
    assert AddChildOutcome(m, parentId, childId, now).1 == m[parentId := pair.parent][childId := pair.child];
    LinkedPairConsistent(m, parentId, childId, now);
  }

  /** A successful link keeps the parent graph acyclic. */
  lemma AddChildKeepsAcyclic(m: Records, parentId: Id, childId: Id, now: Time)
    requires Consistent(m) && Graphs.Acyclic(StoreGraph(m, Up))
    requires AddChildOutcome(m, parentId, childId, now).0.Ok?
    ensures Graphs.Acyclic(StoreGraph(AddChildOutcome(m, parentId, childId, now).1, Up))
  {
    var g := StoreGraph(m, Up);
    if parentId == childId {
      Graphs.ReachableRefl(g, parentId);
    }
    var pair := AddChildRelationship(m[parentId], m[childId], now);
    assert AddChildOutcome(m, parentId, childId, now).1 == m[parentId := pair.parent][childId := pair.child];
    LinkedPairGraph(m, parentId, childId, now);
    Graphs.AddEdgeKeepsAcyclic(g, childId, parentId);
  }

  /** The cycle check refuses exactly the links that would close a cycle of the parent
      graph. */
  lemma AddChildRefusesOnlyCycles(m: Records, parentId: Id, childId: Id, now: Time)
    requires KeyedById(m)
    requires AddChildOutcome(m, parentId, childId, now).0 == Err(CircularRelationship)
    ensures !Graphs.Acyclic(Graphs.AddEdge(StoreGraph(m, Up), childId, parentId))
  {
    Graphs.AddEdgeCreatesCycle(StoreGraph(m, Up), childId, parentId);
  }

  /** The answer to a remove-child request and the store after it. */
  function RemoveChildOutcome(m: Records, parentId: Id, childId: Id, now: Time): (Result<Pair>, Records)
  {
    if parentId !in m then (Err(ParentNotFound), m)
    else if childId !in m then (Err(ChildNotFound), m)
    else
      var parent, child := m[parentId], m[childId];
      if child.id !in parent.childrenIds then (Err(RelationshipNotExists), m)
      else
        var pair := RemoveChildRelationship(parent, child, now);
        (Ok(pair), m[parent.id := pair.parent][child.id := pair.child])
  }

  /** Writing back both sides of `removeChildRelationship` for two distinct stored records
      keeps a consistent store consistent. */
  lemma UnlinkedPairConsistent(m: Records, parentId: Id, childId: Id, now: Time)
    requires Consistent(m) && parentId in m && childId in m && parentId != childId
    ensures var pair := RemoveChildRelationship(m[parentId], m[childId], now);
      Consistent(m[parentId := pair.parent][childId := pair.child])
  {
    var pair := RemoveChildRelationship(m[parentId], m[childId], now);
    var m' := m[parentId := pair.parent][childId := pair.child];
    forall k | k in m'
      ensures m'[k].id == k
      ensures forall x :: x in m'[k].parentIds ==> x in m[k].parentIds && !(k == childId && x == parentId)
      ensures forall x :: x in m'[k].childrenIds ==> x in m[k].childrenIds && !(k == parentId && x == childId)
    {
    }
    forall k, pid | k in m' && pid in m'[k].parentIds
      ensures pid in m' && k in m'[pid].childrenIds
    {
      assert k in m[pid].childrenIds;
    }
    forall k, cid | k in m' && cid in m'[k].childrenIds
      ensures cid in m' && k in m'[cid].parentIds
    {
      assert k in m[cid].parentIds;
    }
  }

  /** A successful unlink of two distinct records writes exactly those two, each without the
      other, and keeps a consistent store consistent. */
  lemma RemoveChildKeepsConsistent(m: Records, parentId: Id, childId: Id, now: Time)
    requires Consistent(m) && parentId != childId
    requires RemoveChildOutcome(m, parentId, childId, now).0.Ok?
    ensures var (r, m') := RemoveChildOutcome(m, parentId, childId, now);
      && m'.Keys == m.Keys
      && (forall k :: k in m && k != parentId && k != childId ==> m'[k] == m[k])
      && childId !in m'[parentId].childrenIds && parentId !in m'[childId].parentIds
      && Consistent(m')
      && (ParentsBounded(m) ==> ParentsBounded(m'))
  {
    UnlinkedPairConsistent(m, parentId, childId, now);
  }

  /** Every route writes each record under that record's own id, so a store filing every
      record under its id stays so, whatever the answer; and a consistent store stays
      consistent, under the conditions the lemmas above name. */
  lemma CreatePreserves(m: Records, input: PersonInput, newId: Id, now: Time)
    ensures KeyedById(m) ==> KeyedById(CreateOutcome(m, input, newId, now).1)
    ensures Consistent(m) && newId !in m ==> Consistent(CreateOutcome(m, input, newId, now).1)
  {
    var p := CreatePerson(input, newId, now);
    LinkNewChildEffect(m[p.id := p], input.parentIds, p, now);
    if Consistent(m) && newId !in m && CreateOutcome(m, input, newId, now).0.Ok? {
      CreateKeepsConsistent(m, input, newId, now);
    }
  }

  lemma UpdatePreserves(m: Records, id: Id, u: PersonUpdate, now: Time)
    ensures KeyedById(m) ==> KeyedById(UpdateOutcome(m, id, u, now).1)
    ensures Consistent(m) ==> Consistent(UpdateOutcome(m, id, u, now).1)
  {
    if Consistent(m) {
      UpdateKeepsConsistent(m, id, u, now);
    }
  }

  lemma DeletePreserves(m: Records, id: Id, strategy: Option<string>, descendants: seq<Id>, now: Time)
    requires DescendantSnapshot(m, id, strategy, descendants)
    ensures KeyedById(m) ==> KeyedById(DeleteOutcome(m, id, strategy, descendants, now).1)
    ensures Consistent(m) ==> Consistent(DeleteOutcome(m, id, strategy, descendants, now).1)
  {
    if Consistent(m) && DeleteOutcome(m, id, strategy, descendants, now).0.Ok? {
      DeleteKeepsConsistent(m, id, strategy, descendants, now);
    }
    if id in m {
      var person := m[id];
      var m1 :=
        if |person.childrenIds| == 0 then m
        else if EffectiveStrategy(strategy) == "cascade" then CleanupAll(m, descendants, now)
        else DropParentFrom(m, person.childrenIds, person, now);
      DropParentFromEffect(m, person.childrenIds, person, now);
      CleanupAllKeepsKeyed(m, descendants, now);
      DropChildFromEffect(m1, person.parentIds, person, now);
    }
  }

  lemma AddChildPreserves(m: Records, parentId: Id, childId: Id, now: Time)
    ensures KeyedById(m) ==> KeyedById(AddChildOutcome(m, parentId, childId, now).1)
    ensures Consistent(m) ==> Consistent(AddChildOutcome(m, parentId, childId, now).1)
  {
    if Consistent(m) && AddChildOutcome(m, parentId, childId, now).0.Ok? {
      AddChildKeepsInvariants(m, parentId, childId, now);
    }
  }

  lemma RemoveChildPreserves(m: Records, parentId: Id, childId: Id, now: Time)
    ensures KeyedById(m) ==> KeyedById(RemoveChildOutcome(m, parentId, childId, now).1)
    ensures Consistent(m) && parentId != childId ==> Consistent(RemoveChildOutcome(m, parentId, childId, now).1)
  {
    if Consistent(m) && parentId != childId && RemoveChildOutcome(m, parentId, childId, now).0.Ok? {
      RemoveChildKeepsConsistent(m, parentId, childId, now);
    }
  }

  /** `getAllPersons`: every stored record, read back document by document. */
  method GetAllPersons(store: Store) returns (ps: seq<Person>)
    ensures |ps| == |store.persons|
    ensures forall i :: 0 <= i < |ps| ==> ps[i] in store.persons.Values
    ensures forall k :: k in store.persons ==> store.persons[k] in ps
    ensures store.Valid() ==> Lists(ps, store.persons)
  {
    var files := store.ListIds();
    ps := [];
    ghost var names: seq<Id> := [];
    var rest := files;
    while rest != {}
      invariant rest <= files && files == store.persons.Keys
      invariant |names| == |ps| && |ps| + |rest| == |files|
      invariant forall i :: 0 <= i < |ps| ==> names[i] in files && names[i] !in rest && ps[i] == store.persons[names[i]]
      invariant forall i, j :: 0 <= i < j < |names| ==> names[i] != names[j]
      invariant forall k :: k in files && k !in rest ==> k in names
      decreases |rest|
    {
      var file :| file in rest;
      var person := store.Read(file);
      if person.Some? {
        ps := ps + [person.value];
        names := names + [file];
      }
      rest := rest - {file};
    }
    ReadBackListed(store.persons, ps, names);
  }

  /** Records read back under distinct names covering every key list the store. */
  lemma ReadBackListed(m: Records, ps: seq<Person>, names: seq<Id>)
    requires |names| == |ps| == |m|
    requires forall i :: 0 <= i < |ps| ==> names[i] in m && ps[i] == m[names[i]]
    requires forall i, j :: 0 <= i < j < |names| ==> names[i] != names[j]
    requires forall k :: k in m ==> k in names
    ensures forall i :: 0 <= i < |ps| ==> ps[i] in m.Values
    ensures forall k :: k in m ==> m[k] in ps
    ensures KeyedById(m) ==> Lists(ps, m)
  {
    forall k | k in m ensures m[k] in ps {
      var i :| 0 <= i < |names| && names[i] == k;
      assert ps[i] == m[k];
    }
  }

  /** `GET /api/persons`: every stored record, and how many there are. */
  method ListPersons(store: Store) returns (data: seq<Person>, count: nat)
    ensures count == |data| == |store.persons|
    ensures forall i :: 0 <= i < |data| ==> data[i] in store.persons.Values
    ensures forall k :: k in store.persons ==> store.persons[k] in data
  {
    data := GetAllPersons(store);
    count := |data|;
  }

  /** `GET /api/persons/:id`. */
  method GetPerson(store: Store, id: Id) returns (r: Result<Person>)
    ensures id in store.persons ==> r == Ok(store.persons[id])
    ensures id !in store.persons ==> r == Err(PersonNotFound)
  {
    var person := store.Read(id);
    if person.None? {
      return Err(PersonNotFound);
    }
    r := Ok(person.value);
  }

  /** The existence check of the create route: some listed parent that is not stored, if
      any. */
  method FindMissingParent(store: Store, ids: seq<Id>) returns (missing: Option<Id>)
    ensures missing.None? <==> forall pid :: pid in ids ==> pid in store.persons
    ensures missing.Some? ==> missing.value in ids && missing.value !in store.persons
  {
    var i := 0;
    while i < |ids|
      invariant 0 <= i <= |ids|
      invariant forall j :: 0 <= j < i ==> ids[j] in store.persons
    {
      var parent := store.Read(ids[i]);
      if parent.None? {
        return Some(ids[i]);
      }
      i := i + 1;
    }
    return None;
  }

  /** The linking loop of the create route. */
  method LinkParents(store: Store, ids: seq<Id>, child: Person, now: Time)
    modifies store
    ensures store.persons == LinkNewChild(old(store.persons), ids, child, now)
    ensures store.tree == old(store.tree)
  {
    ghost var m0 := store.persons;
    var i := 0;
    while i < |ids|
      invariant 0 <= i <= |ids|
      invariant store.persons == LinkNewChild(m0, ids[..i], child, now)
      invariant store.tree == old(store.tree)
    {
      var parentId := ids[i];
      var parent := store.Read(parentId);
      if parent.Some? {
        var pair := AddChildRelationship(parent.value, child, now);
        store.Write(parentId, pair.parent);
      }
      assert ids[..i + 1][..i] == ids[..i];
      i := i + 1;
    }
    assert ids[..i] == ids;
  }

  /** `POST /api/persons`. */
  method CreatePersonRoute(store: Store, input: PersonInput, newId: Id, now: Time) returns (r: Result<Person>)
    modifies store
    ensures (r, store.persons) == CreateOutcome(old(store.persons), input, newId, now)
    ensures store.tree == old(store.tree)
    ensures old(store.Valid()) ==> store.Valid()
    ensures old(Consistent(store.persons)) && newId !in old(store.persons) ==> Consistent(store.persons)
  {
    CreatePreserves(store.persons, input, newId, now);
    if !CreateInputValid(input) {
      return Err(ValidationError);
    }
    if |input.parentIds| > 0 {
      var missing := FindMissingParent(store, input.parentIds);
      if missing.Some? {
        return Err(ParentNotFound);
      }
      if |input.parentIds| > 2 {
        return Err(ErrorCode.TooManyParents);
      }
    }
    var person := CreatePerson(input, newId, now);
    store.Write(person.id, person);
    if |input.parentIds| > 0 {
      LinkParents(store, input.parentIds, person, now);
    }
    r := Ok(person);
  }

  /** `PUT /api/persons/:id`. */
  method UpdatePersonRoute(store: Store, id: Id, u: PersonUpdate, now: Time) returns (r: Result<Person>)
    modifies store
    ensures (r, store.persons) == UpdateOutcome(old(store.persons), id, u, now)
    ensures store.tree == old(store.tree)
    ensures old(store.Valid()) ==> store.Valid()
    ensures old(Consistent(store.persons)) ==> Consistent(store.persons)
  {
    UpdatePreserves(store.persons, id, u, now);
    if !UpdateInputValid(u) {
      return Err(ValidationError);
    }
    var existing := store.Read(id);
    if existing.None? {
      return Err(PersonNotFound);
    }
    var updated := MergeUpdate(existing.value, u, now);
    store.Write(id, updated);
    r := Ok(updated);
  }

  /** The loop over `person.parentIds` that drops `person` from each stored parent's
      children. */
  method UnlinkFromParents(store: Store, person: Person, now: Time)
    modifies store
    ensures store.persons == DropChildFrom(old(store.persons), person.parentIds, person, now)
    ensures store.tree == old(store.tree)
  {
    ghost var m0 := store.persons;
    var ids := person.parentIds;
    var i := 0;
    while i < |ids|
      invariant 0 <= i <= |ids|
      invariant store.persons == DropChildFrom(m0, ids[..i], person, now)
      invariant store.tree == old(store.tree)
    {
      var parentId := ids[i];
      var parent := store.Read(parentId);
      if parent.Some? {
        var pair := RemoveChildRelationship(parent.value, person, now);
        store.Write(parentId, pair.parent);
      }
      assert ids[..i + 1][..i] == ids[..i];
      i := i + 1;
    }
    assert ids[..i] == ids;
  }

  /** The loop over `person.childrenIds` that drops `person` from each stored child's
      parents. */
  method UnlinkFromChildren(store: Store, person: Person, now: Time)
    modifies store
    ensures store.persons == DropParentFrom(old(store.persons), person.childrenIds, person, now)
    ensures store.tree == old(store.tree)
  {
    ghost var m0 := store.persons;
    var ids := person.childrenIds;
    var i := 0;
    while i < |ids|
      invariant 0 <= i <= |ids|
      invariant store.persons == DropParentFrom(m0, ids[..i], person, now)
      invariant store.tree == old(store.tree)
    {
      var childId := ids[i];
      var child := store.Read(childId);
      if child.Some? {
        var pair := RemoveChildRelationship(person, child.value, now);
        store.Write(childId, pair.child);
      }
      assert ids[..i + 1][..i] == ids[..i];
      i := i + 1;
    }
    assert ids[..i] == ids;
  }

  /** `deletePersonAndCleanup`. */
  method DeletePersonAndCleanup(store: Store, id: Id, now: Time)
    modifies store
    ensures store.persons == Cleanup(old(store.persons), id, now)
    ensures store.tree == old(store.tree)
  {
    var person := store.Read(id);
    if person.None? {
      return;
    }
    UnlinkFromParents(store, person.value, now);
    UnlinkFromChildren(store, person.value, now);
    store.Delete(id);
  }

  /** Each descendant `getDescendants` finds in a listing of a keyed store is a stored
      descendant. */
  lemma DescendantsSound(m: Records, all: seq<Person>, found: seq<Person>, id: Id)
    requires KeyedById(m) && Lists(all, m)
    requires forall k :: 0 <= k < |found| ==>
      Lookup(all, found[k].id) == Some(found[k]) && Graphs.ProperlyReachable(LinkGraph(all, Down), id, found[k].id)
    ensures forall x :: x in IdsInOrder(found) ==> x in m && Graphs.ProperlyReachable(StoreGraph(m, Down), id, x)
  {
    var ds := IdsInOrder(found);
    ListingGraph(all, m, Down);
    LookupInListing(all, m, id);
    forall x | x in ds ensures x in m {
      var k :| 0 <= k < |ds| && ds[k] == x;
      assert x in IdsOf(all);
    }
  }

  /** Every stored descendant is among those `getDescendants` finds in a listing of a keyed
      store. */
  lemma DescendantsComplete(m: Records, all: seq<Person>, found: seq<Person>, id: Id)
    requires KeyedById(m) && Lists(all, m)
    requires forall x :: x in IdsOf(all) && Graphs.ProperlyReachable(LinkGraph(all, Down), id, x) ==>
      Lookup(all, x).value in found
    ensures forall x :: x in m && Graphs.ProperlyReachable(StoreGraph(m, Down), id, x) ==> x in IdsInOrder(found)
  {
    var ds := IdsInOrder(found);
    ListingGraph(all, m, Down);
    forall x | x in m && Graphs.ProperlyReachable(StoreGraph(m, Down), id, x) ensures x in ds {
      LookupInListing(all, m, x);
      var k :| 0 <= k < |found| && found[k] == m[x];
      assert ds[k] == x;
    }
  }

  /** The cascade loop: `deletePersonAndCleanup` for each found descendant in turn. */
  method CleanupEach(store: Store, found: seq<Person>, now: Time)
    modifies store
    ensures store.persons == CleanupAll(old(store.persons), IdsInOrder(found), now)
    ensures store.tree == old(store.tree)
  {
    ghost var m0 := store.persons;
    ghost var ds := IdsInOrder(found);
    var i := 0;
    while i < |found|
      invariant 0 <= i <= |found|
      invariant store.persons == CleanupAll(m0, ds[..i], now)
      invariant store.tree == old(store.tree)
    {
      DeletePersonAndCleanup(store, found[i].id, now);
      assert ds[..i + 1][..i] == ds[..i];
      i := i + 1;
    }
    assert ds[..i] == ds;
  }

  /** `DELETE /api/persons/:id?strategy=...`. The ghost result is the descendant snapshot a
      cascade works through. */
  method DeletePersonRoute(store: Store, id: Id, strategy: Option<string>, now: Time)
    returns (r: Result<DeleteSummary>, ghost descendants: seq<Id>)
    requires store.Valid()
    modifies store
    ensures DescendantSnapshot(old(store.persons), id, strategy, descendants)
    ensures (r, store.persons) == DeleteOutcome(old(store.persons), id, strategy, descendants, now)
    ensures store.tree == old(store.tree)
    ensures store.Valid()
    ensures old(Consistent(store.persons)) ==> Consistent(store.persons)
  {
    descendants := [];
    var person := store.Read(id);
    if person.None? {
      r := Err(PersonNotFound);
      return;
    }
    var s := EffectiveStrategy(strategy);
    if s != "orphan" && s != "cascade" {
      r := Err(InvalidDeletionStrategy);
      return;
    }
    ghost var m0 := store.persons;
    var p := person.value;
    if |p.childrenIds| > 0 {
      if s == "cascade" {
        var all := GetAllPersons(store);
        var found := GetDescendants(all, p.id);
        descendants := IdsInOrder(found);
        DescendantsSound(m0, all, found, id);
        DescendantsComplete(m0, all, found, id);
        CleanupEach(store, found, now);
      } else {
        UnlinkFromChildren(store, p, now);
      }
    }
    UnlinkFromParents(store, p, now);
    store.Delete(id);
    r := Ok(DeleteSummary(id, s, |p.childrenIds|));
    DeletePreserves(m0, id, strategy, descendants, now);
  }

  /** `POST /api/persons/:id/children`. */
  method AddChildRoute(store: Store, parentId: Id, childId: Id, now: Time) returns (r: Result<Pair>)
    requires store.Valid()
    modifies store
    ensures (r, store.persons) == AddChildOutcome(old(store.persons), parentId, childId, now)
    ensures store.tree == old(store.tree)
    ensures store.Valid()
    ensures old(Consistent(store.persons)) ==> Consistent(store.persons)
  {
    AddChildPreserves(store.persons, parentId, childId, now);
    var parent := store.Read(parentId);
    var child := store.Read(childId);
    if parent.None? {
      return Err(ParentNotFound);
    }
    if child.None? {
      return Err(ChildNotFound);
    }
    if child.value.id in parent.value.childrenIds {
      return Err(RelationshipExists);
    }
    if |child.value.parentIds| >= 2 {
      return Err(ErrorCode.TooManyParents);
    }
    var all := GetAllPersons(store);
    var circular := HasCircularRelationship(all, parent.value.id, child.value.id);
    ListingGraph(all, store.persons, Up);
    if circular {
      return Err(CircularRelationship);
    }
    var pair := AddChildRelationship(parent.value, child.value, now);
    store.Write(parent.value.id, pair.parent);
    store.Write(child.value.id, pair.child);
    r := Ok(pair);
  }

  /** `DELETE /api/persons/:parentId/children/:childId`. */
  method RemoveChildRoute(store: Store, parentId: Id, childId: Id, now: Time) returns (r: Result<Pair>)
    modifies store
    ensures (r, store.persons) == RemoveChildOutcome(old(store.persons), parentId, childId, now)
    ensures store.tree == old(store.tree)
    ensures old(store.Valid()) ==> store.Valid()
    ensures old(Consistent(store.persons)) && parentId != childId ==> Consistent(store.persons)
  {
    RemoveChildPreserves(store.persons, parentId, childId, now);
    var parent := store.Read(parentId);
    var child := store.Read(childId);
    if parent.None? {
      return Err(ParentNotFound);
    }
    if child.None? {
      return Err(ChildNotFound);
    }
    if child.value.id !in parent.value.childrenIds {
      return Err(RelationshipNotExists);
    }
    var pair := RemoveChildRelationship(parent.value, child.value, now);
    store.Write(parent.value.id, pair.parent);
    store.Write(child.value.id, pair.child);
    r := Ok(pair);
  }
}
