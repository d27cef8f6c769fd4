/** The backend's relationship engine: building person records, linking and unlinking a
    parent and a child, the two-parent limit, the upward cycle check, ancestor and
    descendant collection, and the whole-dataset integrity report. */
module RelationshipUtils {
  import opened Collections
  import opened Persons
  import Graphs
  import Walks

  /** The caller-supplied fields of a record. */
  function InputOf(p: Person): PersonInput
  {
    PersonInput(p.firstName, p.lastName, p.email, p.dateOfBirth, p.placeOfBirth, p.phoneNumber,
                p.profilePhoto, p.parentIds, p.spouseId, p.notes)
  }

  /** `createPerson`: the generated id and the clock reading are parameters. */
  function CreatePerson(input: PersonInput, id: Id, now: Time): (p: Person)
    ensures InputOf(p) == input
    ensures p.id == id && NameConsistent(p)
    ensures p.childrenIds == [] && p.createdAt == now && p.updatedAt == now
  {
    Person(id, input.firstName, input.lastName, input.firstName + " " + input.lastName,
           input.email, input.dateOfBirth, input.placeOfBirth, input.phoneNumber, input.profilePhoto,
           input.parentIds, [], input.spouseId, input.notes, now, now)
  }

  /** `updateFullName`: recomputes `fullName` and stamps the record, nothing else. */
  function UpdateFullName(p: Person, now: Time): (r: Person)
    ensures NameConsistent(r) && r.updatedAt == now
    ensures r.(fullName := p.fullName, updatedAt := p.updatedAt) == p
  {
    p.(fullName := p.firstName + " " + p.lastName, updatedAt := now)
  }

  /** On a record whose name is already consistent, `updateFullName` only moves the stamp;
      applying it twice is applying it once. */
  lemma UpdateFullNameIdempotent(p: Person, t1: Time, t2: Time)
    ensures UpdateFullName(UpdateFullName(p, t1), t2) == UpdateFullName(p, t2)
    ensures NameConsistent(p) ==> UpdateFullName(p, t1) == p.(updatedAt := t1)
  {
  }

  datatype Pair = Pair(parent: Person, child: Person)

  /** `addChildRelationship`: each side's list gains the other's id at its end. */
  function AddChildRelationship(parent: Person, child: Person, now: Time): (r: Pair)
    ensures |r.parent.childrenIds| == |parent.childrenIds| + 1
    ensures r.parent.childrenIds[..|parent.childrenIds|] == parent.childrenIds
    ensures r.parent.childrenIds[|parent.childrenIds|] == child.id
    ensures |r.child.parentIds| == |child.parentIds| + 1
    ensures r.child.parentIds[..|child.parentIds|] == child.parentIds
    ensures r.child.parentIds[|child.parentIds|] == parent.id
    ensures r.parent.(childrenIds := parent.childrenIds, updatedAt := parent.updatedAt) == parent
    ensures r.child.(parentIds := child.parentIds, updatedAt := child.updatedAt) == child
    ensures r.parent.updatedAt == now && r.child.updatedAt == now
  {
    Pair(parent.(childrenIds := parent.childrenIds + [child.id], updatedAt := now),
         child.(parentIds := child.parentIds + [parent.id], updatedAt := now))
  }

  /** `removeChildRelationship`: every occurrence of the other's id leaves each side's list,
      the remaining entries keep their order, and no other entry is lost. */
  function RemoveChildRelationship(parent: Person, child: Person, now: Time): (r: Pair)
    ensures child.id !in r.parent.childrenIds && parent.id !in r.child.parentIds
    ensures IsSubsequence(r.parent.childrenIds, parent.childrenIds)
    ensures IsSubsequence(r.child.parentIds, child.parentIds)
    ensures |r.parent.childrenIds| == |parent.childrenIds| - Count(parent.childrenIds, child.id)
    ensures |r.child.parentIds| == |child.parentIds| - Count(child.parentIds, parent.id)
    ensures r.parent.(childrenIds := parent.childrenIds, updatedAt := parent.updatedAt) == parent
    ensures r.child.(parentIds := child.parentIds, updatedAt := child.updatedAt) == child
    ensures r.parent.updatedAt == now && r.child.updatedAt == now
  {
    RemoveAllIsSubsequence(parent.childrenIds, child.id);
    RemoveAllIsSubsequence(child.parentIds, parent.id);
    RemoveAllLength(parent.childrenIds, child.id);
    RemoveAllLength(child.parentIds, parent.id);
    Pair(parent.(childrenIds := RemoveAll(parent.childrenIds, child.id), updatedAt := now),
         child.(parentIds := RemoveAll(child.parentIds, parent.id), updatedAt := now))
  }

  /** Linking a pair that was not linked and then unlinking it restores both records, apart
      from the stamp. */
  lemma AddThenRemove(parent: Person, child: Person, t1: Time, t2: Time)
    requires child.id !in parent.childrenIds && parent.id !in child.parentIds
    ensures var a := AddChildRelationship(parent, child, t1);
            RemoveChildRelationship(a.parent, a.child, t2) == Pair(parent.(updatedAt := t2), child.(updatedAt := t2))
  {
    RemoveAllAppendOne(parent.childrenIds, child.id);
    RemoveAllAppendOne(child.parentIds, parent.id);
  }

  /** Unlinking twice is unlinking once. */
  lemma RemoveTwice(parent: Person, child: Person, t1: Time, t2: Time)
    ensures var r := RemoveChildRelationship(parent, child, t1);
            RemoveChildRelationship(r.parent, r.child, t2) == Pair(r.parent.(updatedAt := t2), r.child.(updatedAt := t2))
  {
    RemoveAllIdempotent(parent.childrenIds, child.id);
    RemoveAllIdempotent(child.parentIds, parent.id);
  }

  /** `validateParentCount`. */
  function ValidateParentCount(p: Person): (ok: bool)
    ensures ok <==> |p.parentIds| <= 2
  {
    |p.parentIds| <= 2
  }

  /** The upward graph: each present person steps to its parents. */
  function UpGraph(ps: seq<Person>): Graphs.Graph
  {
    LinkGraph(ps, Up)
  }

  /** `checkAncestors`, the recursive walk of `hasCircularRelationship`. Ids in `visited` and
      not on the current walk (`pending`) have all their parents in `visited`; `childId` is
      never visited, because reaching it ends the walk. */
  method CheckAncestors(ps: seq<Person>, childId: Id, personId: Id, visited: set<Id>, ghost pending: set<Id>)
    returns (found: bool, seen: set<Id>)
    requires Graphs.ClosedExcept(UpGraph(ps), visited, pending) && childId !in visited
    ensures found ==> Graphs.Reachable(UpGraph(ps), personId, childId)
    ensures !found ==> visited <= seen && personId in seen && childId !in seen
    ensures !found ==> Graphs.ClosedExcept(UpGraph(ps), seen, pending)
    decreases UnvisitedCount(ps, visited), 1
  {
    if personId in visited {
      return false, visited;
    }
    if personId == childId {
      Graphs.ReachableRefl(UpGraph(ps), personId);
      return true, visited;
    }
    Graphs.ClosedEnter(UpGraph(ps), visited, pending, personId);
    seen := visited + {personId};
    var person := Lookup(ps, personId);
    if person.None? {
      Graphs.ClosedLeave(UpGraph(ps), seen, pending, personId);
      return false, seen;
    }
    found, seen := SomeParentReaches(ps, childId, personId, person.value.parentIds, visited, seen, pending);
  }

  /** `person.parentIds.some(pid => checkAncestors(pid))`: stops at the first parent from
      which `childId` is reached. */
  method SomeParentReaches(ps: seq<Person>, childId: Id, personId: Id, parents: seq<Id>, ghost visited: set<Id>,
                           seen0: set<Id>, ghost pending: set<Id>)
    returns (found: bool, seen: set<Id>)
    requires personId in IdsOf(ps) && personId !in visited && visited <= seen0 && personId in seen0
    requires childId !in seen0 && Graphs.Step(UpGraph(ps), personId) == parents
    requires Graphs.ClosedExcept(UpGraph(ps), seen0, pending + {personId})
    ensures found ==> Graphs.Reachable(UpGraph(ps), personId, childId)
    ensures !found ==> seen0 <= seen && childId !in seen && Graphs.ClosedExcept(UpGraph(ps), seen, pending)
    decreases UnvisitedCount(ps, visited), 0
  {
    ghost var g := UpGraph(ps);
    seen := seen0;
    var i := 0;
    while i < |parents|
      invariant 0 <= i <= |parents|
      invariant seen0 <= seen && childId !in seen
      invariant Graphs.ClosedExcept(g, seen, pending + {personId})
      invariant forall j :: 0 <= j < i ==> parents[j] in seen
    {
      UnvisitedCountShrinks(ps, visited, seen, personId);
      var f, before := false, seen;
      f, seen := CheckAncestors(ps, childId, parents[i], seen, pending + {personId});
      if f {
        Graphs.ReachablePrepend(g, personId, parents[i], childId);
        return true, seen;
      }
      forall j | 0 <= j < i + 1 ensures parents[j] in seen {
        if j < i {
          assert parents[j] in before;
        }
      }
      i := i + 1;
    }
    Graphs.ClosedLeave(g, seen, pending, personId);
    return false, seen;
  }

  /** `hasCircularRelationship(ps, parentId, childId)`: whether `childId` is `parentId` or
      one of its recorded ancestors, following `parentIds` through present persons. */
  method HasCircularRelationship(ps: seq<Person>, parentId: Id, childId: Id) returns (r: bool)
    ensures r <==> Graphs.Reachable(UpGraph(ps), parentId, childId)
  {
    var seen;
    r, seen := CheckAncestors(ps, childId, parentId, {}, {});
    if !r && Graphs.Reachable(UpGraph(ps), parentId, childId) {
      Graphs.ClosedSetContainsReachable(UpGraph(ps), seen, parentId, childId);
      assert false;
    }
  }

  /** Every collected record is the present record of its id, one or more steps from `root`. */
  ghost predicate Collected(ps: seq<Person>, dir: Direction, root: Id, acc: seq<Person>)
  {
    forall k :: 0 <= k < |acc| ==>
      Lookup(ps, acc[k].id) == Some(acc[k]) && Graphs.ProperlyReachable(LinkGraph(ps, dir), root, acc[k].id)
  }

  /** Every present successor of a finished id has been collected. */
  ghost predicate PushedFrom(ps: seq<Person>, dir: Direction, visited: set<Id>, pending: set<Id>, acc: seq<Person>)
  {
    forall v, c {:trigger c in Graphs.Step(LinkGraph(ps, dir), v)} :: v in visited && v !in pending && c in Graphs.Step(LinkGraph(ps, dir), v) && c in IdsOf(ps) ==>
      Lookup(ps, c).value in acc
  }

  /** `collectDescendants` / `collectAncestors`: the shared recursive walk. */
  method Collect(ps: seq<Person>, dir: Direction, ghost root: Id, id: Id, visited: set<Id>, acc: seq<Person>, ghost pending: set<Id>)
    returns (seen: set<Id>, out: seq<Person>)
    requires Graphs.Reachable(LinkGraph(ps, dir), root, id)
    requires Graphs.KeyClosedExcept(LinkGraph(ps, dir), visited, pending)
    requires PushedFrom(ps, dir, visited, pending, acc)
    requires Collected(ps, dir, root, acc)
    ensures visited <= seen && id in seen
    ensures Graphs.KeyClosedExcept(LinkGraph(ps, dir), seen, pending)
    ensures PushedFrom(ps, dir, seen, pending, out)
    ensures Collected(ps, dir, root, out)
    ensures forall x :: x in acc ==> x in out
    ensures seen == Walks.Walk(ps, dir, id, visited, acc).seen && out == Walks.Walk(ps, dir, id, visited, acc).out
    decreases UnvisitedCount(ps, visited), 2
  {
    if id in visited {
      return visited, acc;
    }
    Graphs.KeyClosedEnter(LinkGraph(ps, dir), visited, pending, id);
    seen, out := visited + {id}, acc;
    var person := Lookup(ps, id);
    if person.None? {
      Graphs.KeyClosedLeave(LinkGraph(ps, dir), seen, pending, id);
      return;
    }
    seen, out := CollectLinks(ps, dir, root, id, Links(person.value, dir), visited, seen, out, pending);
  }

  /** The `forEach` over the links of `id`: a present target is pushed, then walked, before
      the walk asks whether it was visited. */
  method CollectLinks(ps: seq<Person>, dir: Direction, ghost root: Id, id: Id, links: seq<Id>, ghost visited: set<Id>,
                      seen0: set<Id>, acc: seq<Person>, ghost pending: set<Id>)
    returns (seen: set<Id>, out: seq<Person>)
    requires id in IdsOf(ps) && id !in visited && visited <= seen0 && id in seen0
    requires Graphs.Step(LinkGraph(ps, dir), id) == links
    requires Graphs.Reachable(LinkGraph(ps, dir), root, id)
    requires Graphs.KeyClosedExcept(LinkGraph(ps, dir), seen0, pending + {id})
    requires PushedFrom(ps, dir, seen0, pending + {id}, acc)
    requires Collected(ps, dir, root, acc)
    ensures seen0 <= seen
    ensures Graphs.KeyClosedExcept(LinkGraph(ps, dir), seen, pending)
    ensures PushedFrom(ps, dir, seen, pending, out)
    ensures Collected(ps, dir, root, out)
    ensures forall x :: x in acc ==> x in out
    ensures seen == Walks.WalkLinks(ps, dir, id, visited, links, 0, seen0, acc).seen
    ensures out == Walks.WalkLinks(ps, dir, id, visited, links, 0, seen0, acc).out
    decreases UnvisitedCount(ps, visited), 1
  {
    seen, out := seen0, acc;
    var i := 0;
    while i < |links|
      invariant 0 <= i <= |links|
      invariant seen0 <= seen
      invariant Graphs.KeyClosedExcept(LinkGraph(ps, dir), seen, pending + {id})
      invariant PushedFrom(ps, dir, seen, pending + {id}, out)
      invariant Collected(ps, dir, root, out)
      invariant forall x :: x in acc ==> x in out
      invariant Walked(ps, links[..i], seen, out)
      invariant Walks.WalkLinks(ps, dir, id, visited, links, 0, seen0, acc).seen == Walks.WalkLinks(ps, dir, id, visited, links, i, seen, out).seen
      invariant Walks.WalkLinks(ps, dir, id, visited, links, 0, seen0, acc).out == Walks.WalkLinks(ps, dir, id, visited, links, i, seen, out).out
    {
      ghost var seenBefore, outBefore := seen, out;
      seen, out := CollectLink(ps, dir, root, id, links[i], visited, seen, out, pending);
      WalkedGrows(ps, links, i, seenBefore, outBefore, seen, out);
      i := i + 1;
    }
    assert links[..i] == links;
    Graphs.KeyClosedLeave(LinkGraph(ps, dir), seen, pending, id);
    PushedLeave(ps, dir, seen, pending, out, id);
  }

  /** Every present id of `done` is visited and its record collected. */
  ghost predicate Walked(ps: seq<Person>, done: seq<Id>, seen: set<Id>, out: seq<Person>)
  {
    forall c :: c in done && c in IdsOf(ps) ==> c in seen && Lookup(ps, c).value in out
  }

  lemma WalkedGrows(ps: seq<Person>, links: seq<Id>, i: nat, seen: set<Id>, out: seq<Person>, seen': set<Id>, out': seq<Person>)
    requires i < |links|
    requires Walked(ps, links[..i], seen, out) && seen <= seen' && forall x :: x in out ==> x in out'
    requires links[i] in IdsOf(ps) ==> links[i] in seen' && Lookup(ps, links[i]).value in out'
    ensures Walked(ps, links[..i + 1], seen', out')
  {
    assert links[..i + 1] == links[..i] + [links[i]];
  }

  /** Finishing `id` once the records of all its present successors are collected. */
  lemma PushedLeave(ps: seq<Person>, dir: Direction, seen: set<Id>, pending: set<Id>, out: seq<Person>, id: Id)
    requires PushedFrom(ps, dir, seen, pending + {id}, out)
    requires forall c :: c in Graphs.Step(LinkGraph(ps, dir), id) && c in IdsOf(ps) ==> Lookup(ps, c).value in out
    ensures PushedFrom(ps, dir, seen, pending, out)
  {
  }

  /** One turn of that `forEach`: push the record of `target` if it is present, then walk it. */
  method CollectLink(ps: seq<Person>, dir: Direction, ghost root: Id, id: Id, target: Id, ghost visited: set<Id>,
                     seen0: set<Id>, acc: seq<Person>, ghost pending: set<Id>)
    returns (seen: set<Id>, out: seq<Person>)
    requires id in IdsOf(ps) && id !in visited && visited <= seen0 && id in seen0
    requires target in Graphs.Step(LinkGraph(ps, dir), id)
    requires Graphs.Reachable(LinkGraph(ps, dir), root, id)
    requires Graphs.KeyClosedExcept(LinkGraph(ps, dir), seen0, pending + {id})
    requires PushedFrom(ps, dir, seen0, pending + {id}, acc)
    requires Collected(ps, dir, root, acc)
    ensures seen0 <= seen
    ensures Graphs.KeyClosedExcept(LinkGraph(ps, dir), seen, pending + {id})
    ensures PushedFrom(ps, dir, seen, pending + {id}, out)
    ensures Collected(ps, dir, root, out)
    ensures forall x :: x in acc ==> x in out
    ensures target in IdsOf(ps) ==> target in seen && Lookup(ps, target).value in out
    ensures seen == Walks.WalkLink(ps, dir, id, visited, target, seen0, acc).seen
    ensures out == Walks.WalkLink(ps, dir, id, visited, target, seen0, acc).out
    decreases UnvisitedCount(ps, visited), 0
  {
    seen, out := seen0, acc;
    var next := Lookup(ps, target);
    if next.Some? {
      Graphs.ReachableAppend(LinkGraph(ps, dir), root, id, target);
      Pushed(ps, dir, root, seen, pending + {id}, out, next.value);
      out := out + [next.value];
      UnvisitedCountShrinks(ps, visited, seen, id);
      seen, out := Collect(ps, dir, root, target, seen, out, pending + {id});
    }
  }

  /** Pushing a sound record keeps what was collected and pushed. */
  lemma Pushed(ps: seq<Person>, dir: Direction, root: Id, seen: set<Id>, pending: set<Id>, acc: seq<Person>, p: Person)
    requires PushedFrom(ps, dir, seen, pending, acc) && Collected(ps, dir, root, acc)
    requires Lookup(ps, p.id) == Some(p) && Graphs.ProperlyReachable(LinkGraph(ps, dir), root, p.id)
    ensures PushedFrom(ps, dir, seen, pending, acc + [p]) && Collected(ps, dir, root, acc + [p])
    ensures p in acc + [p]
  {
  }

  /** A walk from `root` started with nothing visited enters exactly the region of `root`,
      each id once, and pushes every record once per link naming it from that region. */
  lemma WalkRegion(ps: seq<Person>, dir: Direction, root: Id, seen: set<Id>, r: seq<Person>, q: Person)
    requires seen == Walks.Walk(ps, dir, root, {}, []).seen && r == Walks.Walk(ps, dir, root, {}, []).out
    requires Graphs.KeyClosedExcept(LinkGraph(ps, dir), seen, {}) && Collected(ps, dir, root, r)
    ensures Walks.Enumerates(ps, dir, root, Walks.Walk(ps, dir, root, {}, []).order)
    ensures Count(r, q) == Walks.LinkCount(ps, dir, Walks.Walk(ps, dir, root, {}, []).order, q)
  {
    var g := LinkGraph(ps, dir);
    var w := Walks.Walk(ps, dir, root, {}, []);
    Walks.WalkCounts(ps, dir, root, {}, [], q);
    forall x ensures x in w.order <==> Walks.InRegion(ps, dir, root, x) {
      if x in w.order && x != root {
        var k :| 0 <= k < |r| && r[k] == Lookup(ps, x).value;
      }
      if x != root && x in IdsOf(ps) && Graphs.ProperlyReachable(g, root, x) {
        Graphs.ReachableRefl(g, root);
        Graphs.KeyClosedSetContainsReachable(g, seen, root, x);
      }
    }
  }

  /** The records collected from `personId`: sound and complete for proper reachability, and
      each record as many times as links name it from `personId` and the ids below it; on
      tree-shaped data, once. */
  method CollectFrom(ps: seq<Person>, dir: Direction, personId: Id) returns (r: seq<Person>)
    ensures Collected(ps, dir, personId, r)
    ensures forall id :: id in IdsOf(ps) && Graphs.ProperlyReachable(LinkGraph(ps, dir), personId, id) ==>
      Lookup(ps, id).value in r
    ensures forall vs, q :: Walks.Enumerates(ps, dir, personId, vs) ==> Count(r, q) == Walks.LinkCount(ps, dir, vs, q)
    ensures Walks.TreeBelow(ps, dir, personId) ==> forall k :: 0 <= k < |r| ==> Count(r, r[k]) == 1
  {
    ghost var g := LinkGraph(ps, dir);
    Graphs.ReachableRefl(g, personId);
    var seen;
    seen, r := Collect(ps, dir, personId, personId, {}, [], {});
    forall id | id in IdsOf(ps) && Graphs.ProperlyReachable(g, personId, id)
      ensures Lookup(ps, id).value in r
    {
      var u := Graphs.ProperlyReachableLastStep(g, personId, id);
      Graphs.KeyClosedSetContainsReachable(g, seen, personId, u);
    }
    ghost var order := Walks.Walk(ps, dir, personId, {}, []).order;
    forall vs, q | Walks.Enumerates(ps, dir, personId, vs) ensures Count(r, q) == Walks.LinkCount(ps, dir, vs, q) {
      WalkRegion(ps, dir, personId, seen, r, q);
      Walks.LinkCountPermutation(ps, dir, vs, order, q);
    }
    if Walks.TreeBelow(ps, dir, personId) {
      forall k | 0 <= k < |r| ensures Count(r, r[k]) == 1 {
        WalkRegion(ps, dir, personId, seen, r, r[k]);
        Walks.TreeCountsOnce(ps, dir, personId, order, r[k]);
      }
    }
  }

  /** `getDescendants`: present records one or more `childrenIds` steps below `personId`.
      A record is returned once for every `childrenIds` entry naming it from `personId` or
      from a person below it, because the walk pushes a child before asking whether it was
      visited: once each when no one below is listed twice, twice at the foot of a diamond. */
  method GetDescendants(ps: seq<Person>, personId: Id) returns (r: seq<Person>)
    ensures forall k :: 0 <= k < |r| ==>
      Lookup(ps, r[k].id) == Some(r[k]) && Graphs.ProperlyReachable(LinkGraph(ps, Down), personId, r[k].id)
    ensures forall id :: id in IdsOf(ps) && Graphs.ProperlyReachable(LinkGraph(ps, Down), personId, id) ==>
      Lookup(ps, id).value in r
    ensures forall vs, q :: Walks.Enumerates(ps, Down, personId, vs) ==> Count(r, q) == Walks.LinkCount(ps, Down, vs, q)
    ensures Walks.TreeBelow(ps, Down, personId) ==> forall k :: 0 <= k < |r| ==> Count(r, r[k]) == 1
    ensures forall a, b, c, d :: Walks.Diamond(ps, a, b, c, d) && personId == a.id ==> Count(r, d) == 2
  {
    r := CollectFrom(ps, Down, personId);
    forall a, b, c, d | Walks.Diamond(ps, a, b, c, d) && personId == a.id ensures Count(r, d) == 2 {
      var vs := Walks.RegionListed(ps, Down, personId);
      Walks.DiamondCountsTwice(ps, a, b, c, d, vs);
    }
  }

  /** `getAncestors`: present records one or more `parentIds` steps above `personId`, each
      once for every `parentIds` entry naming it from `personId` or from a person above it. */
  method GetAncestors(ps: seq<Person>, personId: Id) returns (r: seq<Person>)
    ensures forall k :: 0 <= k < |r| ==>
      Lookup(ps, r[k].id) == Some(r[k]) && Graphs.ProperlyReachable(LinkGraph(ps, Up), personId, r[k].id)
    ensures forall id :: id in IdsOf(ps) && Graphs.ProperlyReachable(LinkGraph(ps, Up), personId, id) ==>
      Lookup(ps, id).value in r
    ensures forall vs, q :: Walks.Enumerates(ps, Up, personId, vs) ==> Count(r, q) == Walks.LinkCount(ps, Up, vs, q)
    ensures Walks.TreeBelow(ps, Up, personId) ==> forall k :: 0 <= k < |r| ==> Count(r, r[k]) == 1
  {
    r := CollectFrom(ps, Up, personId);
  }

  /** One finding of `validateTreeIntegrity`, carrying the records its message names. */
  datatype IntegrityError =
    | TooManyParents(person: Person)
    | MissingParent(person: Person, parentId: Id)
    | ParentLacksChild(parent: Person, person: Person)
    | MissingChild(person: Person, childId: Id)
    | ChildLacksParent(child: Person, person: Person)
    | Circular(person: Person, childId: Id)

  /** The message text the source pushes for each finding. */
  function Message(e: IntegrityError): string
  {
    match e
    case TooManyParents(p) => "Person " + p.fullName + " has more than 2 parents"
    case MissingParent(p, pid) => "Person " + p.fullName + " references non-existent parent " + pid
    case ParentLacksChild(q, p) => "Parent " + q.fullName + " doesn't have " + p.fullName + " in their children list"
    case MissingChild(p, cid) => "Person " + p.fullName + " references non-existent child " + cid
    case ChildLacksParent(c, p) => "Child " + c.fullName + " doesn't have " + p.fullName + " in their parents list"
    case Circular(p, _) => "Circular relationship detected involving " + p.fullName
  }

  /** The parent `pid` of `p` exists and lists `p` among its children. */
  ghost predicate ParentOk(ps: seq<Person>, p: Person, pid: Id)
  {
    Lookup(ps, pid).Some? && p.id in Lookup(ps, pid).value.childrenIds
  }

  /** The child `cid` of `p` exists and lists `p` among its parents. */
  ghost predicate ChildOk(ps: seq<Person>, p: Person, cid: Id)
  {
    Lookup(ps, cid).Some? && p.id in Lookup(ps, cid).value.parentIds
  }

  /** Everything `validateTreeIntegrity` checks of one person. */
  ghost predicate PersonSound(ps: seq<Person>, p: Person)
  {
    && |p.parentIds| <= 2
    && (forall k :: 0 <= k < |p.parentIds| ==> ParentOk(ps, p, p.parentIds[k]))
    && (forall k :: 0 <= k < |p.childrenIds| ==> ChildOk(ps, p, p.childrenIds[k]))
    && (forall k :: 0 <= k < |p.childrenIds| ==> !Graphs.Reachable(UpGraph(ps), p.id, p.childrenIds[k]))
  }

  ghost predicate Integrity(ps: seq<Person>)
  {
    forall p :: p in ps ==> PersonSound(ps, p)
  }

  /** A reported finding describes a real defect of the dataset. */
  ghost predicate Genuine(ps: seq<Person>, e: IntegrityError)
  {
    match e
    case TooManyParents(p) => p in ps && |p.parentIds| > 2
    case MissingParent(p, pid) => p in ps && pid in p.parentIds && Lookup(ps, pid).None?
    case ParentLacksChild(q, p) => p in ps && q.id in p.parentIds && Lookup(ps, q.id) == Some(q) && p.id !in q.childrenIds
    case MissingChild(p, cid) => p in ps && cid in p.childrenIds && Lookup(ps, cid).None?
    case ChildLacksParent(c, p) => p in ps && c.id in p.childrenIds && Lookup(ps, c.id) == Some(c) && p.id !in c.parentIds
    case Circular(p, cid) => p in ps && cid in p.childrenIds && Graphs.Reachable(UpGraph(ps), p.id, cid)
  }

  /** The body of the `forEach` over persons, for one person: parent count, then parents,
      then children, then cycles. */
  method CheckPerson(ps: seq<Person>, p: Person) returns (errs: seq<IntegrityError>)
    requires p in ps
    ensures errs == [] <==> PersonSound(ps, p)
    ensures forall k :: 0 <= k < |errs| ==> Genuine(ps, errs[k])
    ensures !ValidateParentCount(p) <==> |errs| > 0 && errs[0] == TooManyParents(p)
  {
    errs := [];
    if !ValidateParentCount(p) {
      errs := errs + [TooManyParents(p)];
    }
    var parentErrs := CheckParents(ps, p);
    var childErrs := CheckChildren(ps, p);
    var cycleErrs := CheckCycles(ps, p);
    errs := errs + parentErrs + childErrs + cycleErrs;
  }

  /** The `forEach` over `parentIds`. */
  method CheckParents(ps: seq<Person>, p: Person) returns (errs: seq<IntegrityError>)
    requires p in ps
    ensures errs == [] <==> forall k :: 0 <= k < |p.parentIds| ==> ParentOk(ps, p, p.parentIds[k])
    ensures forall k :: 0 <= k < |errs| ==> Genuine(ps, errs[k])
  {
    errs := [];
    var i := 0;
    while i < |p.parentIds|
      invariant 0 <= i <= |p.parentIds|
      invariant forall k :: 0 <= k < |errs| ==> Genuine(ps, errs[k])
      invariant errs == [] <==> forall k :: 0 <= k < i ==> ParentOk(ps, p, p.parentIds[k])
    {
      var pid := p.parentIds[i];
      var parent := Lookup(ps, pid);
      if parent.None? {
        errs := errs + [MissingParent(p, pid)];
      } else if p.id !in parent.value.childrenIds {
        errs := errs + [ParentLacksChild(parent.value, p)];
      }
      i := i + 1;
    }
  }

  /** The `forEach` over `childrenIds` checking each child. */
  method CheckChildren(ps: seq<Person>, p: Person) returns (errs: seq<IntegrityError>)
    requires p in ps
    ensures errs == [] <==> forall k :: 0 <= k < |p.childrenIds| ==> ChildOk(ps, p, p.childrenIds[k])
    ensures forall k :: 0 <= k < |errs| ==> Genuine(ps, errs[k])
  {
    errs := [];
    var i := 0;
    while i < |p.childrenIds|
      invariant 0 <= i <= |p.childrenIds|
      invariant forall k :: 0 <= k < |errs| ==> Genuine(ps, errs[k])
      invariant errs == [] <==> forall k :: 0 <= k < i ==> ChildOk(ps, p, p.childrenIds[k])
    {
      var cid := p.childrenIds[i];
      var child := Lookup(ps, cid);
      if child.None? {
        errs := errs + [MissingChild(p, cid)];
      } else if p.id !in child.value.parentIds {
        errs := errs + [ChildLacksParent(child.value, p)];
      }
      i := i + 1;
    }
  }

  /** The `forEach` over `childrenIds` asking the cycle check. */
  method CheckCycles(ps: seq<Person>, p: Person) returns (errs: seq<IntegrityError>)
    requires p in ps
    ensures errs == [] <==> forall k :: 0 <= k < |p.childrenIds| ==> !Graphs.Reachable(UpGraph(ps), p.id, p.childrenIds[k])
    ensures forall k :: 0 <= k < |errs| ==> Genuine(ps, errs[k])
  {
    errs := [];
    var i := 0;
    while i < |p.childrenIds|
      invariant 0 <= i <= |p.childrenIds|
      invariant forall k :: 0 <= k < |errs| ==> Genuine(ps, errs[k])
      invariant errs == [] <==> forall k :: 0 <= k < i ==> !Graphs.Reachable(UpGraph(ps), p.id, p.childrenIds[k])
    {
      var circular := HasCircularRelationship(ps, p.id, p.childrenIds[i]);
      if circular {
        errs := errs + [Circular(p, p.childrenIds[i])];
      }
      i := i + 1;
    }
  }

  /** `validateTreeIntegrity`: valid exactly when no finding is reported, which is exactly
      when every person passes every check; every finding is genuine, and the report holds
      one message per finding, in order. */
  method ValidateTreeIntegrity(ps: seq<Person>) returns (isValid: bool, errors: seq<IntegrityError>, messages: seq<string>)
    ensures isValid <==> errors == []
    ensures isValid <==> Integrity(ps)
    ensures forall k :: 0 <= k < |errors| ==> Genuine(ps, errors[k])
    ensures |messages| == |errors| && forall k :: 0 <= k < |errors| ==> messages[k] == Message(errors[k])
  {
    errors := [];
    var i := 0;
    while i < |ps|
      invariant 0 <= i <= |ps|
      invariant forall k :: 0 <= k < |errors| ==> Genuine(ps, errors[k])
      invariant errors == [] <==> forall k :: 0 <= k < i ==> PersonSound(ps, ps[k])
    {
      var errs := CheckPerson(ps, ps[i]);
      errors := errors + errs;
      i := i + 1;
    }
    isValid := |errors| == 0;
    messages := seq(|errors|, k requires 0 <= k < |errors| => Message(errors[k]));
  }

  /** Links are symmetric and no link dangles. */
  ghost predicate Symmetric(ps: seq<Person>)
  {
    forall p :: p in ps ==>
      && (forall k :: 0 <= k < |p.parentIds| ==> ParentOk(ps, p, p.parentIds[k]))
      && (forall k :: 0 <= k < |p.childrenIds| ==> ChildOk(ps, p, p.childrenIds[k]))
  }

  ghost predicate ParentCountsOk(ps: seq<Person>)
  {
    forall p :: p in ps ==> |p.parentIds| <= 2
  }

  /** The dataset meets the parent bound exactly when `validateParentCount` accepts every
      record, and one record it refuses fails the whole integrity report. */
  lemma ParentCountsValidated(ps: seq<Person>)
    ensures ParentCountsOk(ps) <==> forall p :: p in ps ==> ValidateParentCount(p)
    ensures (exists p :: p in ps && !ValidateParentCount(p)) ==> !Integrity(ps)
  {
  }

  /** A dataset passes the integrity report exactly when its links are symmetric and never
      dangle, nobody has more than two parents, and the parent graph has no cycle. */
  lemma IntegrityCharacterised(ps: seq<Person>)
    ensures Integrity(ps) <==> Symmetric(ps) && ParentCountsOk(ps) && Graphs.Acyclic(UpGraph(ps))
  {
    var g := UpGraph(ps);
    if Symmetric(ps) && ParentCountsOk(ps) && Graphs.Acyclic(g) {
      forall p, k | p in ps && 0 <= k < |p.childrenIds|
        ensures !Graphs.Reachable(g, p.id, p.childrenIds[k])
      {
        var c := p.childrenIds[k];
        assert ChildOk(ps, p, c);
        assert p.id in Graphs.Step(g, c);
      }
    }
    if Integrity(ps) {
      forall a, b | b in Graphs.Step(g, a) ensures !Graphs.Reachable(g, b, a) {
        var q := Lookup(ps, a).value;
        assert q in ps && PersonSound(ps, q);
        var k :| 0 <= k < |q.parentIds| && q.parentIds[k] == b;
        assert ParentOk(ps, q, b);
        var r := Lookup(ps, b).value;
        assert r in ps && PersonSound(ps, r);
        var j :| 0 <= j < |r.childrenIds| && r.childrenIds[j] == a;
      }
    }
  }
}
