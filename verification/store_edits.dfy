/** What the person routes do to the stored records, as functions of the records before the
    request: the loops that unlink a person from its parents or children, the cleanup that
    deletes one person, and the link-symmetry invariant those edits keep. */
module StoreEdits {
  import opened Collections
  import opened Persons
  import opened RelationshipUtils
  import Graphs

  type Records = map<Id, Person>

  /** Every link has its mirror image and names a stored record. */
  ghost predicate Consistent(m: Records)
  {
    && KeyedById(m)
    && (forall k, pid {:trigger pid in m[k].parentIds} :: k in m && pid in m[k].parentIds ==> pid in m && k in m[pid].childrenIds)
    && (forall k, cid {:trigger cid in m[k].childrenIds} :: k in m && cid in m[k].childrenIds ==> cid in m && k in m[cid].parentIds)
  }

  /** No stored record has more than two parents. */
  ghost predicate ParentsBounded(m: Records)
  {
    forall k :: k in m ==> |m[k].parentIds| <= 2
  }

  /** The store-wide bound is `validateParentCount` accepting every stored record. */
  lemma ParentsBoundedValidated(m: Records)
    ensures ParentsBounded(m) <==> forall k :: k in m ==> ValidateParentCount(m[k])
  {
  }

  /** Every record of `m'` was in `m`, with no link `m` did not have. */
  ghost predicate LinksShrink(m: Records, m': Records)
  {
    forall k :: k in m' ==>
      && k in m
      && (forall c :: c in m'[k].childrenIds ==> c in m[k].childrenIds)
      && (forall c :: c in m'[k].parentIds ==> c in m[k].parentIds)
  }

  /** `q` after `removeChildRelationship(q, <person with id x>)`, parent side. */
  function WithoutChild(q: Person, x: Id, now: Time): Person
  {
    q.(childrenIds := RemoveAll(q.childrenIds, x), updatedAt := now)
  }

  /** `q` after `removeChildRelationship(<person with id x>, q)`, child side. */
  function WithoutParent(q: Person, x: Id, now: Time): Person
  {
    q.(parentIds := RemoveAll(q.parentIds, x), updatedAt := now)
  }

  /** The loop `for (parentId of ids)` that reads each listed parent still stored and writes
      it back without `person` among its children. */
  function DropChildFrom(m: Records, ids: seq<Id>, person: Person, now: Time): Records
    decreases |ids|
  {
    if ids == [] then m
    else
      var m1 := DropChildFrom(m, ids[..|ids| - 1], person, now);
      var pid := ids[|ids| - 1];
      if pid in m1 then m1[pid := RemoveChildRelationship(m1[pid], person, now).parent] else m1
  }

  /** The loop `for (childId of ids)` that reads each listed child still stored and writes it
      back without `person` among its parents. */
  function DropParentFrom(m: Records, ids: seq<Id>, person: Person, now: Time): Records
    decreases |ids|
  {
    if ids == [] then m
    else
      var m1 := DropParentFrom(m, ids[..|ids| - 1], person, now);
      var cid := ids[|ids| - 1];
      if cid in m1 then m1[cid := RemoveChildRelationship(person, m1[cid], now).child] else m1
  }

  lemma WithoutChildTwice(q: Person, x: Id, now: Time)
    ensures WithoutChild(WithoutChild(q, x, now), x, now) == WithoutChild(q, x, now)
  {
    RemoveAllIdempotent(q.childrenIds, x);
  }

  lemma WithoutParentTwice(q: Person, x: Id, now: Time)
    ensures WithoutParent(WithoutParent(q, x, now), x, now) == WithoutParent(q, x, now)
  {
    RemoveAllIdempotent(q.parentIds, x);
  }

  /** Unlinking from a list of parents touches exactly the listed records that are stored,
      each once however often it is listed. */
  lemma {:induction false} DropChildFromEffect(m: Records, ids: seq<Id>, person: Person, now: Time)
    ensures DropChildFrom(m, ids, person, now).Keys == m.Keys
    ensures forall k :: k in m ==>
      DropChildFrom(m, ids, person, now)[k] == if k in ids then WithoutChild(m[k], person.id, now) else m[k]
    decreases |ids|
  {
    if ids != [] {
      var init := ids[..|ids| - 1];
      var pid := ids[|ids| - 1];
      DropChildFromEffect(m, init, person, now);
      assert ids == init + [pid];
      if pid in m && pid in init {
        WithoutChildTwice(m[pid], person.id, now);
      }
    }
  }

  lemma {:induction false} DropParentFromEffect(m: Records, ids: seq<Id>, person: Person, now: Time)
    ensures DropParentFrom(m, ids, person, now).Keys == m.Keys
    ensures forall k :: k in m ==>
      DropParentFrom(m, ids, person, now)[k] == if k in ids then WithoutParent(m[k], person.id, now) else m[k]
    decreases |ids|
  {
    if ids != [] {
      var init := ids[..|ids| - 1];
      var cid := ids[|ids| - 1];
      DropParentFromEffect(m, init, person, now);
      assert ids == init + [cid];
      if cid in m && cid in init {
        WithoutParentTwice(m[cid], person.id, now);
      }
    }
  }

  /** `deletePersonAndCleanup(id)`: nothing when `id` is not stored; otherwise the person is
      unlinked from its parents, then from its children, then deleted. */
  function Cleanup(m: Records, id: Id, now: Time): Records
  {
    if id !in m then m
    else
      var person := m[id];
      DropParentFrom(DropChildFrom(m, person.parentIds, person, now), person.childrenIds, person, now) - {id}
  }

  /** The record `k` after the cleanup of `id`. */
  lemma CleanupEffect(m: Records, id: Id, now: Time)
    requires id in m
    ensures Cleanup(m, id, now).Keys == m.Keys - {id}
    ensures forall k :: k in m && k != id ==>
      Cleanup(m, id, now)[k] ==
        var q := if k in m[id].parentIds then WithoutChild(m[k], m[id].id, now) else m[k];
        if k in m[id].childrenIds then WithoutParent(q, m[id].id, now) else q
  {
    var person := m[id];
    var m1 := DropChildFrom(m, person.parentIds, person, now);
    DropChildFromEffect(m, person.parentIds, person, now);
    DropParentFromEffect(m1, person.childrenIds, person, now);
  }

  /** Each surviving record loses `id` from its parents when it is a child of the person and
      from its children when it is a parent of the person, and nothing else. */
  lemma CleanupLinks(m: Records, id: Id, now: Time)
    requires KeyedById(m) && id in m
    ensures var r, P, C := Cleanup(m, id, now), m[id].parentIds, m[id].childrenIds;
      && r.Keys == m.Keys - {id}
      && forall k :: k in r ==>
        && r[k].parentIds == (if k in C then RemoveAll(m[k].parentIds, id) else m[k].parentIds)
        && r[k].childrenIds == (if k in P then RemoveAll(m[k].childrenIds, id) else m[k].childrenIds)
        && r[k].id == k
  {
    CleanupEffect(m, id, now);
  }

  /** Deleting a person from a consistent store leaves it consistent: the only records
      naming it are its own parents and children, and those links are removed. */
  lemma CleanupKeepsConsistent(m: Records, id: Id, now: Time)
    requires Consistent(m)
    ensures Consistent(Cleanup(m, id, now))
    ensures Cleanup(m, id, now).Keys == m.Keys - {id}
    ensures LinksShrink(m, Cleanup(m, id, now))
  {
    if id in m {
      var r := Cleanup(m, id, now);
      CleanupLinks(m, id, now);
      forall k, pid | k in r && pid in r[k].parentIds
        ensures pid in r && k in r[pid].childrenIds
      {
        assert pid in m[k].parentIds;
      }
      forall k, cid | k in r && cid in r[k].childrenIds
        ensures cid in r && k in r[cid].parentIds
      {
        assert cid in m[k].childrenIds;
      }
    }
  }

  /** The cascade loop `for (descendant of descendants) deletePersonAndCleanup(...)`. */
  function CleanupAll(m: Records, ids: seq<Id>, now: Time): Records
    decreases |ids|
  {
    if ids == [] then m else Cleanup(CleanupAll(m, ids[..|ids| - 1], now), ids[|ids| - 1], now)
  }

  lemma {:induction false} CleanupAllKeepsConsistent(m: Records, ids: seq<Id>, now: Time)
    requires Consistent(m)
    ensures Consistent(CleanupAll(m, ids, now))
    ensures CleanupAll(m, ids, now).Keys == m.Keys - set x | x in ids
    ensures LinksShrink(m, CleanupAll(m, ids, now))
    decreases |ids|
  {
    if ids != [] {
      var init := ids[..|ids| - 1];
      var m1 := CleanupAll(m, init, now);
      CleanupAllKeepsConsistent(m, init, now);
      CleanupKeepsConsistent(m1, ids[|ids| - 1], now);
      assert ids == init + [ids[|ids| - 1]];
      assert (set x | x in ids) == (set x | x in init) + {ids[|ids| - 1]};
    }
  }

  /** Deleting a person rewrites the other records only under their own ids, so a store
      filing every record under its id stays so. */
  lemma CleanupKeepsKeyed(m: Records, id: Id, now: Time)
    ensures KeyedById(m) ==> KeyedById(Cleanup(m, id, now))
  {
    if id in m {
      var person := m[id];
      DropChildFromEffect(m, person.parentIds, person, now);
      DropParentFromEffect(DropChildFrom(m, person.parentIds, person, now), person.childrenIds, person, now);
    }
  }

  lemma {:induction false} CleanupAllKeepsKeyed(m: Records, ids: seq<Id>, now: Time)
    ensures KeyedById(m) ==> KeyedById(CleanupAll(m, ids, now))
    decreases |ids|
  {
    if ids != [] {
      CleanupAllKeepsKeyed(m, ids[..|ids| - 1], now);
      CleanupKeepsKeyed(CleanupAll(m, ids[..|ids| - 1], now), ids[|ids| - 1], now);
    }
  }

  /** The orphan strategy: each child loses the person from its parents, then each parent
      loses it from its children, then the person is deleted. */
  function Orphan(m: Records, id: Id, now: Time): Records
    requires id in m
  {
    var person := m[id];
    DropChildFrom(DropParentFrom(m, person.childrenIds, person, now), person.parentIds, person, now) - {id}
  }

  /** Unlinking the children first and the parents second, as the orphan strategy does, ends
      where `deletePersonAndCleanup` ends. */
  lemma OrphanIsCleanup(m: Records, id: Id, now: Time)
    requires id in m
    ensures Orphan(m, id, now) == Cleanup(m, id, now)
  {
    var person := m[id];
    var m1 := DropParentFrom(m, person.childrenIds, person, now);
    DropParentFromEffect(m, person.childrenIds, person, now);
    DropChildFromEffect(m1, person.parentIds, person, now);
    CleanupEffect(m, id, now);
  }

  /** The cascade strategy: each id of the descendant snapshot is cleaned up in turn, then
      the person's recorded parents still stored lose it from their children, then it is
      deleted. */
  function Cascade(m: Records, id: Id, descendants: seq<Id>, now: Time): Records
    requires id in m
  {
    var person := m[id];
    DropChildFrom(CleanupAll(m, descendants, now), person.parentIds, person, now) - {id}
  }

  /** After the cleanups of a snapshot listing every child of `id`, what is left of `id`
      has no child, and only its recorded parents still name it as a child. */
  lemma CascadeRemainder(m: Records, id: Id, descendants: seq<Id>, now: Time)
    requires Consistent(m) && id in m
    requires forall c :: c in m[id].childrenIds ==> c in descendants
    ensures var m' := CleanupAll(m, descendants, now);
      && Consistent(m')
      && (id in m' ==> forall c :: c !in m'[id].childrenIds)
      && (forall k :: k in m' && id in m'[k].childrenIds ==> k in m[id].parentIds)
  {
    var m' := CleanupAll(m, descendants, now);
    CleanupAllKeepsConsistent(m, descendants, now);
    assert forall c :: c in m[id].childrenIds ==> c in (set x | x in descendants);
  }

  /** A cascade whose snapshot lists every child of the person leaves a consistent store
      consistent: no surviving record names a deleted one. */
  lemma CascadeKeepsConsistent(m: Records, id: Id, descendants: seq<Id>, now: Time)
    requires Consistent(m) && id in m
    requires forall c :: c in m[id].childrenIds ==> c in descendants
    ensures Consistent(Cascade(m, id, descendants, now))
    ensures Cascade(m, id, descendants, now).Keys == m.Keys - {id} - set x | x in descendants
  {
    var person := m[id];
    var P := person.parentIds;
    var m' := CleanupAll(m, descendants, now);
    CleanupAllKeepsConsistent(m, descendants, now);
    CascadeRemainder(m, id, descendants, now);
    DropChildFromEffect(m', P, person, now);
    var r := Cascade(m, id, descendants, now);
    forall k | k in r
      ensures r[k].parentIds == m'[k].parentIds
      ensures r[k].childrenIds == (if k in P then RemoveAll(m'[k].childrenIds, id) else m'[k].childrenIds)
      ensures r[k].id == k
    {
    }
    forall k, pid | k in r && pid in r[k].parentIds
      ensures pid in r && k in r[pid].childrenIds
    {
      assert pid in m' && k in m'[pid].childrenIds;
    }
    forall k, cid | k in r && cid in r[k].childrenIds
      ensures cid in r && k in r[cid].parentIds
    {
      assert cid in m'[k].childrenIds;
      assert cid in m' && k in m'[cid].parentIds;
    }
  }

  /** The loop of the create route that reads each listed parent still stored and writes it
      back with `child` appended to its children. */
  function LinkNewChild(m: Records, ids: seq<Id>, child: Person, now: Time): Records
    decreases |ids|
  {
    if ids == [] then m
    else
      var m1 := LinkNewChild(m, ids[..|ids| - 1], child, now);
      var pid := ids[|ids| - 1];
      if pid in m1 then m1[pid := AddChildRelationship(m1[pid], child, now).parent] else m1
  }

  /** Each listed parent that is stored gains the child's id at the end of its children,
      once per time it is listed; no other record changes. */
  lemma {:induction false} LinkNewChildEffect(m: Records, ids: seq<Id>, child: Person, now: Time)
    ensures LinkNewChild(m, ids, child, now).Keys == m.Keys
    ensures forall k :: k in m ==>
      LinkNewChild(m, ids, child, now)[k] ==
        if k in ids then m[k].(childrenIds := m[k].childrenIds + Repeat(child.id, Count(ids, k)), updatedAt := now)
        else m[k]
    decreases |ids|
  {
    if ids != [] {
      var init := ids[..|ids| - 1];
      var pid := ids[|ids| - 1];
      LinkNewChildEffect(m, init, child, now);
      assert ids == init + [pid];
      forall k | k in m
        ensures Count(ids, k) == Count(init, k) + (if k == pid then 1 else 0)
      {
        CountAppend(init, [pid], k);
      }
      if pid in m {
        CountPositive(init, pid);
        RepeatSnoc(child.id, Count(init, pid));
      }
    }
  }
}
