/** The person record shared by the backend and the frontend, and the two graphs its
    link lists induce: "up" along `parentIds`, "down" along `childrenIds`. */
module Persons {
  import opened Collections
  import Graphs

  type Id = string

  /** A `Date`, as milliseconds since the epoch. */
  type Time = int

  datatype Person = Person(
    id: Id,
    firstName: string,
    lastName: string,
    fullName: string,
    email: Option<string>,
    dateOfBirth: Option<Time>,
    placeOfBirth: Option<string>,
    phoneNumber: Option<string>,
    profilePhoto: Option<string>,
    parentIds: seq<Id>,
    childrenIds: seq<Id>,
    spouseId: Option<Id>,
    notes: Option<string>,
    createdAt: Time,
    updatedAt: Time)

  /** The fields a caller supplies when creating a person. */
  datatype PersonInput = PersonInput(
    firstName: string,
    lastName: string,
    email: Option<string>,
    dateOfBirth: Option<Time>,
    placeOfBirth: Option<string>,
    phoneNumber: Option<string>,
    profilePhoto: Option<string>,
    parentIds: seq<Id>,
    spouseId: Option<Id>,
    notes: Option<string>)

  datatype FamilyTree = FamilyTree(
    id: string,
    name: string,
    rootPersonIds: seq<Id>,
    persons: seq<Person>,
    createdAt: Time,
    updatedAt: Time)

  /** `fullName` is `firstName`, one space, `lastName`. */
  predicate NameConsistent(p: Person)
  {
    p.fullName == p.firstName + " " + p.lastName
  }

  function IdsOf(ps: seq<Person>): set<Id>
  {
    set p | p in ps :: p.id
  }

  /** The ids of `ps`, in order. */
  function IdsInOrder(ps: seq<Person>): (r: seq<Id>)
    ensures |r| == |ps| && forall k :: 0 <= k < |ps| ==> r[k] == ps[k].id
  {
    seq(|ps|, k requires 0 <= k < |ps| => ps[k].id)
  }

  /** `ps.find(p => p.id === id)`: the first record carrying `id`. */
  function Lookup(ps: seq<Person>, id: Id): (r: Option<Person>)
    ensures r.None? <==> id !in IdsOf(ps)
    ensures r.Some? ==> r.value in ps && r.value.id == id
  {
    if ps == [] then None
    else if ps[0].id == id then Some(ps[0])
    else
      assert IdsOf(ps) == {ps[0].id} + IdsOf(ps[1..]) by {
        assert forall p :: p in ps <==> p == ps[0] || p in ps[1..];
      }
      Lookup(ps[1..], id)
  }

  /** `Lookup` returns the first record carrying the id. */
  lemma {:induction false} LookupFirst(ps: seq<Person>, id: Id) returns (i: nat)
    requires id in IdsOf(ps)
    ensures i < |ps| && ps[i] == Lookup(ps, id).value
    ensures forall j :: 0 <= j < i ==> ps[j].id != id
  {
    if ps[0].id == id {
      i := 0;
    } else {
      assert IdsOf(ps) == {ps[0].id} + IdsOf(ps[1..]) by {
        assert forall p :: p in ps <==> p == ps[0] || p in ps[1..];
      }
      var k := LookupFirst(ps[1..], id);
      i := k + 1;
    }
  }

  /** The number of records whose id is not in `visited`: the measure of every walk that
      marks ids as visited. */
  function UnvisitedCount(ps: seq<Person>, visited: set<Id>): nat
  {
    if ps == [] then 0 else (if ps[0].id in visited then 0 else 1) + UnvisitedCount(ps[1..], visited)
  }

  lemma {:induction false} UnvisitedCountMonotone(ps: seq<Person>, visited: set<Id>, seen: set<Id>)
    requires visited <= seen
    ensures UnvisitedCount(ps, seen) <= UnvisitedCount(ps, visited)
  {
    if ps != [] {
      UnvisitedCountMonotone(ps[1..], visited, seen);
    }
  }

  /** Visiting the id of a record shrinks the measure. */
  lemma {:induction false} UnvisitedCountShrinks(ps: seq<Person>, visited: set<Id>, seen: set<Id>, x: Id)
    requires visited <= seen && x in seen && x !in visited && x in IdsOf(ps)
    ensures UnvisitedCount(ps, seen) < UnvisitedCount(ps, visited)
  {
    if ps[0].id == x {
      UnvisitedCountMonotone(ps[1..], visited, seen);
    } else {
      assert x in IdsOf(ps[1..]) by {
        var p :| p in ps && p.id == x;
        assert p in ps[1..];
      }
      UnvisitedCountShrinks(ps[1..], visited, seen, x);
    }
  }

  datatype Direction = Up | Down

  /** The link list followed in direction `dir`. */
  function Links(p: Person, dir: Direction): seq<Id>
  {
    match dir
    case Up => p.parentIds
    case Down => p.childrenIds
  }

  /** The graph a list of records induces: each present id steps to the links of its first
      record; an absent id has no successors. */
  function LinkGraph(ps: seq<Person>, dir: Direction): (g: Graphs.Graph)
    ensures g.Keys == IdsOf(ps)
    ensures forall id :: id in IdsOf(ps) ==> Graphs.Step(g, id) == Links(Lookup(ps, id).value, dir)
  {
    map id | id in IdsOf(ps) :: Links(Lookup(ps, id).value, dir)
  }

  /** The same graph over a store keyed by id. */
  function StoreGraph(m: map<Id, Person>, dir: Direction): (g: Graphs.Graph)
    ensures g.Keys == m.Keys
    ensures forall id :: id in m ==> Graphs.Step(g, id) == Links(m[id], dir)
  {
    map id | id in m :: Links(m[id], dir)
  }

  /** Every stored record sits under its own id. */
  ghost predicate KeyedById(m: map<Id, Person>)
  {
    forall k :: k in m ==> m[k].id == k
  }

  /** `ps` lists exactly the records of `m`, each once. */
  ghost predicate Lists(ps: seq<Person>, m: map<Id, Person>)
  {
    && |ps| == |m|
    && (forall i :: 0 <= i < |ps| ==> ps[i].id in m && m[ps[i].id] == ps[i])
    && (forall i, j :: 0 <= i < j < |ps| ==> ps[i].id != ps[j].id)
    && (forall k :: k in m ==> m[k] in ps)
  }

  /** Finding an id in a listing of a keyed store is reading the store. */
  lemma LookupInListing(ps: seq<Person>, m: map<Id, Person>, id: Id)
    requires KeyedById(m) && Lists(ps, m)
    ensures id in m ==> Lookup(ps, id) == Some(m[id])
    ensures id !in m ==> Lookup(ps, id) == None
    ensures IdsOf(ps) == m.Keys
  {
    forall k | k in m ensures k in IdsOf(ps) {
      assert m[k] in ps;
    }
    if id in m {
      var r := Lookup(ps, id);
      assert r.value in ps;
    }
  }

  lemma ListingStep(ps: seq<Person>, m: map<Id, Person>, dir: Direction, id: Id)
    requires KeyedById(m) && Lists(ps, m) && id in m
    ensures id in LinkGraph(ps, dir) && LinkGraph(ps, dir)[id] == Links(m[id], dir)
  {
    LookupInListing(ps, m, id);
  }

  /** Reachability questions asked of a listing are questions about the store. */
  lemma ListingGraph(ps: seq<Person>, m: map<Id, Person>, dir: Direction)
    requires KeyedById(m) && Lists(ps, m)
    ensures LinkGraph(ps, dir) == StoreGraph(m, dir)
  {
    var g1, g2 := LinkGraph(ps, dir), StoreGraph(m, dir);
    LookupInListing(ps, m, "");
    forall id | id in g1 ensures id in g2 && g1[id] == g2[id] {
      ListingStep(ps, m, dir, id);
    }
    Graphs.SameGraph(g1, g2);
  }
}
