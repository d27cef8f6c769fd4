/** The `/api/tree` routes: reading the tree with its current records, initialising it with
    one or two root people, and deleting everything. Generated ids and clock readings are
    parameters. */
module TreeRoutes {
  import opened Collections
  import opened Persons
  import opened RelationshipUtils
  import opened Storage
  import opened StoreEdits
  import opened PersonRoutes
  import Text

  /** `initializeTreeSchema`: one or two parents, each a valid create body. */
  predicate InitializeInputValid(parents: seq<PersonInput>)
  {
    1 <= |parents| <= 2 && forall i :: 0 <= i < |parents| ==> CreateInputValid(parents[i])
  }

  /** A root person: created from its input with no parents and no spouse. */
  function RootOf(input: PersonInput, id: Id, now: Time): Person
  {
    CreatePerson(input.(parentIds := [], spouseId := None), id, now)
  }

  /** The created parents, made each other's spouse when there are two. */
  function Roots(inputs: seq<PersonInput>, ids: seq<Id>, now: Time): (roots: seq<Person>)
    requires |ids| == |inputs|
    ensures |roots| == |inputs|
    ensures forall i :: 0 <= i < |roots| ==>
      && roots[i].id == ids[i] && roots[i].parentIds == [] && roots[i].childrenIds == []
      && NameConsistent(roots[i])
      && InputOf(roots[i]) == inputs[i].(parentIds := [], spouseId := roots[i].spouseId)
      && roots[i].createdAt == now && roots[i].updatedAt == now
    ensures |roots| == 2 ==> roots[0].spouseId == Some(ids[1]) && roots[1].spouseId == Some(ids[0])
    ensures |roots| != 2 ==> forall i :: 0 <= i < |roots| ==> roots[i].spouseId == None
  {
    var created := seq(|inputs|, i requires 0 <= i < |inputs| => RootOf(inputs[i], ids[i], now));
    if |created| == 2 then
      [created[0].(spouseId := Some(created[1].id)), created[1].(spouseId := Some(created[0].id))]
    else
      created
  }

  /** The tree's name: the root's full name, or both joined by " & ", then "'s Family Tree". */
  function TreeName(roots: seq<Person>): string
    requires 1 <= |roots| <= 2
  {
    if |roots| == 1 then roots[0].fullName + "'s Family Tree"
    else roots[0].fullName + " & " + roots[1].fullName + "'s Family Tree"
  }

  /** `tree-${Date.now()}`. */
  function TreeId(clock: nat): string
  {
    "tree-" + Text.NatToString(clock)
  }

  /** The save loop: each record written under its own id, in order. */
  function Filed(m: Records, ps: seq<Person>): Records
    decreases |ps|
  {
    if ps == [] then m else Filed(m, ps[..|ps| - 1])[ps[|ps| - 1].id := ps[|ps| - 1]]
  }

  lemma {:induction false} FiledKeys(m: Records, ps: seq<Person>)
    ensures Filed(m, ps).Keys == m.Keys + IdsOf(ps)
    decreases |ps|
  {
    if ps != [] {
      var init, last := ps[..|ps| - 1], ps[|ps| - 1];
      FiledKeys(m, init);
      assert ps == init + [last];
      assert IdsOf(ps) == IdsOf(init) + {last.id};
    }
  }

  /** Filing leaves every other id with its record. */
  lemma {:induction false} FiledElsewhere(m: Records, ps: seq<Person>, k: Id)
    requires forall i :: 0 <= i < |ps| ==> ps[i].id != k
    ensures k in m ==> k in Filed(m, ps) && Filed(m, ps)[k] == m[k]
    decreases |ps|
  {
    if ps != [] {
      FiledElsewhere(m, ps[..|ps| - 1], k);
    }
  }

  /** Filing records with distinct ids stores each as is. */
  lemma {:induction false} FiledStores(m: Records, ps: seq<Person>, i: nat)
    requires i < |ps|
    requires forall j :: i < j < |ps| ==> ps[j].id != ps[i].id
    ensures ps[i].id in Filed(m, ps) && Filed(m, ps)[ps[i].id] == ps[i]
    decreases |ps|
  {
    if i < |ps| - 1 {
      FiledStores(m, ps[..|ps| - 1], i);
    }
  }

  /** Filing writes each record under its own id. */
  lemma {:induction false} FiledKeepsKeyed(m: Records, ps: seq<Person>)
    ensures KeyedById(m) ==> KeyedById(Filed(m, ps))
    decreases |ps|
  {
    if ps != [] {
      FiledKeepsKeyed(m, ps[..|ps| - 1]);
    }
  }

  /** Filing records that are new, distinct and without links keeps a store consistent. */
  lemma {:induction false} FiledUnlinkedConsistent(m: Records, ps: seq<Person>)
    requires Consistent(m)
    requires forall i :: 0 <= i < |ps| ==> ps[i].id !in m && ps[i].parentIds == [] && ps[i].childrenIds == []
    requires forall i, j :: 0 <= i < j < |ps| ==> ps[i].id != ps[j].id
    ensures Consistent(Filed(m, ps))
    ensures ParentsBounded(m) ==> ParentsBounded(Filed(m, ps))
    decreases |ps|
  {
    if ps != [] {
      var init, last := ps[..|ps| - 1], ps[|ps| - 1];
      var m1 := Filed(m, init);
      FiledUnlinkedConsistent(m, init);
      FiledKeys(m, init);
      assert last.id !in IdsOf(init);
      var m' := m1[last.id := last];
      forall k, pid | k in m' && pid in m'[k].parentIds
        ensures pid in m' && k in m'[pid].childrenIds
      {
        assert pid in m1[k].parentIds;
      }
      forall k, cid | k in m' && cid in m'[k].childrenIds
        ensures cid in m' && k in m'[cid].parentIds
      {
        assert cid in m1[k].childrenIds;
      }
    }
  }

  /** The answer to an initialise request, the records and the tree document after it. */
  function InitializeOutcome(m: Records, t: Option<FamilyTree>, inputs: seq<PersonInput>, ids: seq<Id>,
                             now: Time, clock: nat): (Result<FamilyTree>, Records, Option<FamilyTree>)
    requires |ids| == |inputs|
  {
    if !InitializeInputValid(inputs) then (Err(ValidationError), m, t)
    else if t.Some? then (Err(TreeAlreadyExists), m, t)
    else
      var roots := Roots(inputs, ids, now);
      var tree := FamilyTree(TreeId(clock), TreeName(roots), IdsInOrder(roots), roots, now, now);
      (Ok(tree), Filed(m, roots), Some(tree))
  }

  /** A successful initialisation stores the tree whose roots are exactly the new people, in
      input order, without links; two roots are each other's spouse; the name is built from
      their full names. Every rejection changes nothing. */
  lemma InitializedTree(m: Records, t: Option<FamilyTree>, inputs: seq<PersonInput>, ids: seq<Id>,
                        now: Time, clock: nat)
    requires |ids| == |inputs|
    ensures var (r, m', t') := InitializeOutcome(m, t, inputs, ids, now, clock);
      && (r.Ok? <==> InitializeInputValid(inputs) && t.None?)
      && (r.Err? ==> m' == m && t' == t)
      && (r.Ok? ==>
        && t' == Some(r.value)
        && r.value.rootPersonIds == ids
        && |r.value.persons| == |inputs|
        && (forall i :: 0 <= i < |inputs| ==>
              r.value.persons[i].id == ids[i] && r.value.persons[i].parentIds == [] && r.value.persons[i].childrenIds == [])
        && (|inputs| == 2 ==>
              && r.value.persons[0].spouseId == Some(ids[1]) && r.value.persons[1].spouseId == Some(ids[0])
              && r.value.name == inputs[0].firstName + " " + inputs[0].lastName + " & "
                                 + inputs[1].firstName + " " + inputs[1].lastName + "'s Family Tree")
        && (|inputs| == 1 ==>
              && r.value.persons[0].spouseId == None
              && r.value.name == inputs[0].firstName + " " + inputs[0].lastName + "'s Family Tree"))
  {
    var (r, m', t') := InitializeOutcome(m, t, inputs, ids, now, clock);
    if r.Ok? {
      var roots := Roots(inputs, ids, now);
      assert IdsInOrder(roots) == ids;
      forall i | 0 <= i < |inputs|
        ensures roots[i].firstName == inputs[i].firstName && roots[i].lastName == inputs[i].lastName
      {
        assert InputOf(roots[i]).firstName == inputs[i].firstName;
        assert InputOf(roots[i]).lastName == inputs[i].lastName;
      }
    }
  }

  /** Initialising over a consistent store with fresh, distinct ids files each root under its
      id and keeps the store consistent. */
  lemma InitializeKeepsConsistent(m: Records, t: Option<FamilyTree>, inputs: seq<PersonInput>, ids: seq<Id>,
                                  now: Time, clock: nat)
    requires |ids| == |inputs|
    requires Consistent(m)
    requires forall i :: 0 <= i < |ids| ==> ids[i] !in m
    requires forall i, j :: 0 <= i < j < |ids| ==> ids[i] != ids[j]
    requires InitializeOutcome(m, t, inputs, ids, now, clock).0.Ok?
    ensures var (r, m', t') := InitializeOutcome(m, t, inputs, ids, now, clock);
      && m'.Keys == m.Keys + (set i | 0 <= i < |ids| :: ids[i])
      && (forall i :: 0 <= i < |ids| ==> m'[ids[i]] == r.value.persons[i])
      && (forall k :: k in m ==> m'[k] == m[k])
      && Consistent(m')
      && (ParentsBounded(m) ==> ParentsBounded(m'))
  {
    FiledRoots(m, inputs, ids, now);
  }

  /** An initialisation files every record under its own id, whatever the answer, and keeps a
      consistent store consistent when the new ids are fresh and distinct. */
  lemma InitializePreserves(m: Records, t: Option<FamilyTree>, inputs: seq<PersonInput>, ids: seq<Id>,
                            now: Time, clock: nat)
    requires |ids| == |inputs|
    ensures KeyedById(m) ==> KeyedById(InitializeOutcome(m, t, inputs, ids, now, clock).1)
    ensures Consistent(m) && FreshIds(m, ids) ==> Consistent(InitializeOutcome(m, t, inputs, ids, now, clock).1)
  {
    FiledKeepsKeyed(m, Roots(inputs, ids, now));
    if Consistent(m) && FreshIds(m, ids) && InitializeOutcome(m, t, inputs, ids, now, clock).0.Ok? {
      InitializeKeepsConsistent(m, t, inputs, ids, now, clock);
    }
  }

  /** The ids are distinct and none is stored yet. */
  ghost predicate FreshIds(m: Records, ids: seq<Id>)
  {
    && (forall i :: 0 <= i < |ids| ==> ids[i] !in m)
    && (forall i, j :: 0 <= i < j < |ids| ==> ids[i] != ids[j])
  }

  /** Filing the new roots under their fresh ids adds exactly those ids, stores each root
      under its id, leaves the other records alone and keeps the store consistent. */
  lemma FiledRoots(m: Records, inputs: seq<PersonInput>, ids: seq<Id>, now: Time)
    requires |ids| == |inputs|
    requires Consistent(m)
    requires forall i :: 0 <= i < |ids| ==> ids[i] !in m
    requires forall i, j :: 0 <= i < j < |ids| ==> ids[i] != ids[j]
    ensures var roots := Roots(inputs, ids, now);
      var m' := Filed(m, roots);
      && m'.Keys == m.Keys + (set i | 0 <= i < |ids| :: ids[i])
      && (forall i :: 0 <= i < |ids| ==> m'[ids[i]] == roots[i])
      && (forall k :: k in m ==> m'[k] == m[k])
      && Consistent(m')
      && (ParentsBounded(m) ==> ParentsBounded(m'))
  {
    var roots := Roots(inputs, ids, now);
    var m' := Filed(m, roots);
    FiledKeys(m, roots);
    RootIds(inputs, ids, now);
    forall i | 0 <= i < |ids| ensures m'[ids[i]] == roots[i] {
      FiledStores(m, roots, i);
    }
    forall k | k in m ensures m'[k] == m[k] {
      FiledElsewhere(m, roots, k);
    }
    FiledUnlinkedConsistent(m, roots);
  }

  /** The new roots carry exactly the given ids. */
  lemma RootIds(inputs: seq<PersonInput>, ids: seq<Id>, now: Time)
    requires |ids| == |inputs|
    ensures IdsOf(Roots(inputs, ids, now)) == set i | 0 <= i < |ids| :: ids[i]
  {
    var roots := Roots(inputs, ids, now);
    forall x | x in IdsOf(roots) ensures exists i :: 0 <= i < |ids| && ids[i] == x {
      var p :| p in roots && p.id == x;
      var i :| 0 <= i < |roots| && roots[i] == p;
    }
    forall i | 0 <= i < |ids| ensures ids[i] in IdsOf(roots) {
      assert roots[i] in roots;
    }
  }

  /** The initialise route. */
  method InitializeFamilyTree(store: Store, inputs: seq<PersonInput>, ids: seq<Id>, now: Time, clock: nat)
    returns (r: Result<FamilyTree>)
    requires |ids| == |inputs|
    modifies store
    ensures (r, store.persons, store.tree) == InitializeOutcome(old(store.persons), old(store.tree), inputs, ids, now, clock)
    ensures old(store.Valid()) ==> store.Valid()
    ensures old(Consistent(store.persons)) && FreshIds(old(store.persons), ids) ==> Consistent(store.persons)
  {
    InitializePreserves(store.persons, store.tree, inputs, ids, now, clock);
    if !InitializeInputValid(inputs) {
      return Err(ValidationError);
    }
    var existing := store.ReadTree();
    if existing.Some? {
      return Err(TreeAlreadyExists);
    }
    var created: seq<Person> := [];
    var rootPersonIds: seq<Id> := [];
    var i := 0;
    while i < |inputs|
      invariant 0 <= i <= |inputs|
      invariant created == seq(i, k requires 0 <= k < i => RootOf(inputs[k], ids[k], now))
      invariant rootPersonIds == ids[..i]
    {
      var parent := CreatePerson(inputs[i].(parentIds := [], spouseId := None), ids[i], now);
      created := created + [parent];
      rootPersonIds := rootPersonIds + [parent.id];
      i := i + 1;
    }
    if |created| == 2 {
      created := [created[0].(spouseId := Some(created[1].id)), created[1].(spouseId := Some(created[0].id))];
    }
    assert created == Roots(inputs, ids, now);
    assert rootPersonIds == IdsInOrder(created);
    SaveAll(store, created);
    var name := if |created| == 1 then created[0].fullName + "'s Family Tree"
                else created[0].fullName + " & " + created[1].fullName + "'s Family Tree";
    var tree := FamilyTree("tree-" + Text.NatToString(clock), name, rootPersonIds, created, now, now);
    store.WriteTree(tree);
    r := Ok(tree);
  }

  /** The save loop of the initialise route. */
  method SaveAll(store: Store, ps: seq<Person>)
    modifies store
    ensures store.persons == Filed(old(store.persons), ps)
    ensures store.tree == old(store.tree)
  {
    ghost var m0 := store.persons;
    var i := 0;
    while i < |ps|
      invariant 0 <= i <= |ps|
      invariant store.persons == Filed(m0, ps[..i])
      invariant store.tree == old(store.tree)
    {
      store.Write(ps[i].id, ps[i]);
      assert ps[..i + 1][..i] == ps[..i];
      i := i + 1;
    }
    assert ps[..i] == ps;
  }

  /** `GET /api/tree`: nothing before initialisation; afterwards the stored metadata with
      every current record and the current time. */
  method GetFamilyTree(store: Store, now: Time) returns (r: Option<FamilyTree>)
    ensures store.tree.None? <==> r.None?
    ensures r.Some? ==>
      && r.value.(persons := store.tree.value.persons, updatedAt := store.tree.value.updatedAt) == store.tree.value
      && r.value.updatedAt == now
      && |r.value.persons| == |store.persons|
      && (forall k :: k in store.persons ==> store.persons[k] in r.value.persons)
      && (forall i :: 0 <= i < |r.value.persons| ==> r.value.persons[i] in store.persons.Values)
  {
    var meta := store.ReadTree();
    if meta.None? {
      return None;
    }
    var persons := GetAllPersons(store);
    r := Some(meta.value.(persons := persons, updatedAt := now));
  }

  /** `DELETE /api/tree`: every person document, then the metadata. */
  method DeleteFamilyTree(store: Store)
    modifies store
    ensures store.persons == map[] && store.tree == None
    ensures store.Valid()
  {
    var files := store.ListIds();
    var rest := files;
    while rest != {}
      invariant store.persons.Keys == rest
      decreases |rest|
    {
      var file :| file in rest;
      store.Delete(file);
      rest := rest - {file};
    }
    store.DeleteTree();
    assert store.persons.Keys == {};
  }
}
