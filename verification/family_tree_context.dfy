/** The client-side store of the tree view: `familyTreeReducer` over the loaded tree, the
    person list, the selection and the loading and error flags. */
module FamilyTreeContext {
  import opened Collections
  import opened Persons

  datatype TreeState = TreeState(
    familyTree: Option<FamilyTree>,
    persons: seq<Person>,
    selectedPersonId: Option<Id>,
    loading: bool,
    error: Option<string>)

  datatype TreeAction =
    | SetLoading(loading: bool)
    | SetError(error: Option<string>)
    | SetFamilyTree(tree: FamilyTree)
    | SetPersons(persons: seq<Person>)
    | AddPerson(person: Person)
    | UpdatePerson(person: Person)
    | DeletePerson(id: Id)
    | SelectPerson(selection: Option<Id>)
    | ClearTree
      /** An action whose type no case of the reducer names. */
    | Unrecognised

  const InitialState := TreeState(None, [], None, false, None)

  /** `persons.map(p => p.id === q.id ? q : p)`. */
  function Replace(ps: seq<Person>, q: Person): (r: seq<Person>)
    ensures |r| == |ps|
    ensures forall i :: 0 <= i < |ps| ==> r[i] == if ps[i].id == q.id then q else ps[i]
  {
    if ps == [] then [] else [if ps[0].id == q.id then q else ps[0]] + Replace(ps[1..], q)
  }

  /** `persons.filter(p => p.id !== id)`. */
  function WithoutId(ps: seq<Person>, id: Id): seq<Person>
  {
    Filter(ps, (p: Person) => p.id != id)
  }

  /** The loaded tree, if any, with its person list replaced. */
  function WithPersons(t: Option<FamilyTree>, ps: seq<Person>): Option<FamilyTree>
  {
    if t.Some? then Some(t.value.(persons := ps)) else None
  }

  /** `familyTreeReducer`. */
  function Reduce(s: TreeState, a: TreeAction): TreeState
  {
    match a
    case SetLoading(b) => s.(loading := b)
    case SetError(e) => s.(error := e, loading := false)
    case SetFamilyTree(t) => s.(familyTree := Some(t), persons := t.persons, loading := false, error := None)
    case SetPersons(ps) => s.(persons := ps)
    case AddPerson(p) =>
      s.(persons := s.persons + [p],
         familyTree := if s.familyTree.Some? then Some(s.familyTree.value.(persons := s.familyTree.value.persons + [p])) else None)
    case UpdatePerson(p) =>
      var updated := Replace(s.persons, p);
      s.(persons := updated, familyTree := WithPersons(s.familyTree, updated))
    case DeletePerson(id) =>
      var kept := WithoutId(s.persons, id);
      s.(persons := kept, familyTree := WithPersons(s.familyTree, kept),
         selectedPersonId := if s.selectedPersonId == Some(id) then None else s.selectedPersonId)
    case SelectPerson(id) => s.(selectedPersonId := id)
    case ClearTree => InitialState
    case Unrecognised => s
  }

  /** The loaded tree, if any, lists exactly the state's persons. */
  predicate Mirrored(s: TreeState)
  {
    s.familyTree.Some? ==> s.familyTree.value.persons == s.persons
  }

  /** Every action but `SET_PERSONS` keeps the loaded tree in step with the person list;
      loading a tree, updating, deleting and clearing put it in step whatever came before.
      The loaded tree is never dropped except by `CLEAR_TREE` and never invented except by
      `SET_FAMILY_TREE`. */
  lemma ReducerKeepsMirror(s: TreeState, a: TreeAction)
    ensures !a.SetPersons? && Mirrored(s) ==> Mirrored(Reduce(s, a))
    ensures a.SetFamilyTree? || a.UpdatePerson? || a.DeletePerson? || a.ClearTree? ==> Mirrored(Reduce(s, a))
    ensures !a.ClearTree? && !a.SetFamilyTree? ==> (Reduce(s, a).familyTree.Some? <==> s.familyTree.Some?)
  {
  }

  /** `UPDATE_PERSON` puts the payload in place of every record with its id, leaves the
      other records where they were, and is idempotent. */
  lemma UpdatePersonEffect(s: TreeState, p: Person)
    ensures var r := Reduce(s, UpdatePerson(p));
      && |r.persons| == |s.persons|
      && (forall i :: 0 <= i < |s.persons| && s.persons[i].id != p.id ==> r.persons[i] == s.persons[i])
      && (forall q :: q in r.persons && q.id == p.id ==> q == p)
      && (p in r.persons <==> p.id in IdsOf(s.persons))
      && Reduce(r, UpdatePerson(p)) == r
      && r.selectedPersonId == s.selectedPersonId && r.loading == s.loading && r.error == s.error
  {
    ReplaceMeans(s.persons, p);
  }

  /** After the replacement every record with the payload's id is the payload, the payload
      is present exactly when its id was, and replacing again changes nothing. */
  lemma ReplaceMeans(ps: seq<Person>, p: Person)
    ensures forall q :: q in Replace(ps, p) && q.id == p.id ==> q == p
    ensures p in Replace(ps, p) <==> p.id in IdsOf(ps)
    ensures Replace(Replace(ps, p), p) == Replace(ps, p)
  {
    var r := Replace(ps, p);
    if p.id in IdsOf(ps) {
      var q :| q in ps && q.id == p.id;
      var i :| 0 <= i < |ps| && ps[i] == q;
      assert r[i] == p;
    }
    assert Replace(r, p) == r;
  }

  /** `DELETE_PERSON` keeps exactly the records with other ids, as many times as before and
      in their order, and clears the selection exactly when it was the deleted id, leaving
      any other selection as it was. */
  lemma DeletePersonEffect(s: TreeState, id: Id)
    ensures var r := Reduce(s, DeletePerson(id));
      && (forall q :: q in r.persons <==> q in s.persons && q.id != id)
      && (forall q :: Count(r.persons, q) == if q.id == id then 0 else Count(s.persons, q))
      && IsSubsequence(r.persons, s.persons)
      && (id !in IdsOf(s.persons) ==> r.persons == s.persons)
      && (r.selectedPersonId.None? <==> s.selectedPersonId.None? || s.selectedPersonId == Some(id))
      && (s.selectedPersonId != Some(id) ==> r.selectedPersonId == s.selectedPersonId)
  {
    var keep := (p: Person) => p.id != id;
    forall q ensures Count(Filter(s.persons, keep), q) == if q.id == id then 0 else Count(s.persons, q) {
      FilterCount(s.persons, keep, q);
    }
    FilterIsSubsequence(s.persons, keep);
    if id !in IdsOf(s.persons) {
      FilterKeepsAll(s.persons, keep);
    }
  }

  /** Adding a person with a new id and deleting it again restores the person list, and the
      loaded tree too when it was in step. */
  lemma AddThenDelete(s: TreeState, p: Person)
    requires p.id !in IdsOf(s.persons)
    ensures var r := Reduce(Reduce(s, AddPerson(p)), DeletePerson(p.id));
      && r.persons == s.persons
      && (Mirrored(s) ==> r.familyTree == s.familyTree)
  {
    WithoutAppended(s.persons, p);
  }

  /** Removing the id of a person appended to a list without that id gives the list back. */
  lemma WithoutAppended(ps: seq<Person>, p: Person)
    requires p.id !in IdsOf(ps)
    ensures WithoutId(ps + [p], p.id) == ps
  {
    var keep := (q: Person) => q.id != p.id;
    FilterAppend(ps, [p], keep);
    FilterKeepsAll(ps, keep);
    assert Filter([p], keep) == [];
  }

  /** The flag actions touch only their fields: `SET_LOADING`, `SET_PERSONS` and
      `SELECT_PERSON` change their own field alone, `SET_ERROR` always ends loading, and
      `SET_FAMILY_TREE` takes its person list from the tree and clears loading and the
      error. `CLEAR_TREE` returns the initial state; an unrecognised action changes
      nothing. */
  lemma ReducerFieldEffects(s: TreeState, a: TreeAction)
    ensures a.SetLoading? ==> Reduce(s, a) == s.(loading := a.loading)
    ensures a.SetPersons? ==> Reduce(s, a) == s.(persons := a.persons)
    ensures a.SelectPerson? ==> Reduce(s, a) == s.(selectedPersonId := a.selection)
    ensures a.SetError? ==> !Reduce(s, a).loading && Reduce(s, a).error == a.error
    ensures a.SetFamilyTree? ==>
      var r := Reduce(s, a);
      r.persons == a.tree.persons && !r.loading && r.error.None? && r.selectedPersonId == s.selectedPersonId
    ensures a.ClearTree? ==> Reduce(s, a) == InitialState
    ensures a.Unrecognised? ==> Reduce(s, a) == s
  {
  }
}
