/** The "Add Child" dialog: which of the loaded persons it offers to link as a child of
    the given parent, and how that choice meets the server's own checks on the link. */
module AddChildModal {
  import opened Collections
  import opened Persons
  import opened Storage
  import opened StoreEdits
  import PersonRoutes
  import Graphs

  /** A person the dialog offers: not the parent, not already its child, and with fewer
      than two parents. */
  predicate Eligible(parent: Person, p: Person)
  {
    p.id != parent.id && parent.id !in p.parentIds && |p.parentIds| < 2
  }

  /** `availablePersons`. */
  function AvailablePersons(ps: seq<Person>, parent: Person): seq<Person>
  {
    Filter(ps, (p: Person) => Eligible(parent, p))
  }

  /** The dialog offers exactly the eligible persons of the list, in the list's order. */
  lemma AvailableMeans(ps: seq<Person>, parent: Person)
    ensures forall p :: p in AvailablePersons(ps, parent) <==> p in ps && Eligible(parent, p)
    ensures IsSubsequence(AvailablePersons(ps, parent), ps)
  {
    FilterIsSubsequence(ps, (p: Person) => Eligible(parent, p));
  }

  /** "Link Existing Person" is offered, and the "no existing persons" notice withheld,
      exactly when some loaded person is eligible. */
  predicate LinkOffered(ps: seq<Person>, parent: Person)
  {
    |AvailablePersons(ps, parent)| > 0
  }

  lemma LinkOfferedMeans(ps: seq<Person>, parent: Person)
    ensures LinkOffered(ps, parent) <==> exists p :: p in ps && Eligible(parent, p)
  {
    AvailableMeans(ps, parent);
    if LinkOffered(ps, parent) {
      assert AvailablePersons(ps, parent)[0] in AvailablePersons(ps, parent);
    }
  }

  /** With the person list in step with a consistent store and the dialog's parent record
      current, the server refuses an offered person neither as missing, nor as already
      linked, nor for having two parents: it either links it or refuses it as circular. */
  lemma OfferedPassesServerChecks(m: Records, ps: seq<Person>, parent: Person, child: Person, now: Time)
    requires Consistent(m) && Lists(ps, m)
    requires parent.id in m && m[parent.id] == parent
    requires child in AvailablePersons(ps, parent)
    ensures var r := PersonRoutes.AddChildOutcome(m, parent.id, child.id, now).0;
      r.Ok? || r == Err(CircularRelationship)
    ensures PersonRoutes.AddChildOutcome(m, parent.id, child.id, now).0 == Err(CircularRelationship) <==>
      Graphs.Reachable(StoreGraph(m, Up), parent.id, child.id)
  {
    AvailableMeans(ps, parent);
    var i :| 0 <= i < |ps| && ps[i] == child;
    assert child.id in m && m[child.id] == child;
  }

  /** The dialog does not look at ancestry: an ancestor of the parent with a free parent
      slot is offered, and the server then refuses the link as circular. */
  lemma AncestorOfferedButRefused(m: Records, ps: seq<Person>, parent: Person, ancestor: Person, now: Time)
    requires Consistent(m) && Lists(ps, m)
    requires parent.id in m && m[parent.id] == parent
    requires ancestor in ps && ancestor.id in parent.parentIds && |ancestor.parentIds| < 2
    requires Graphs.Acyclic(StoreGraph(m, Up))
    ensures ancestor in AvailablePersons(ps, parent)
    ensures PersonRoutes.AddChildOutcome(m, parent.id, ancestor.id, now).0 == Err(CircularRelationship)
  {
    var g := StoreGraph(m, Up);
    assert ancestor.id in m && m[ancestor.id] == ancestor by {
      var i :| 0 <= i < |ps| && ps[i] == ancestor;
    }
    assert ancestor.id in Graphs.Step(g, parent.id);
    Graphs.ReachableRefl(g, ancestor.id);
    Graphs.ReachableRefl(g, parent.id);
    if parent.id in Graphs.Step(g, ancestor.id) {
      Graphs.ReachableAppend(g, ancestor.id, ancestor.id, parent.id);
    }
    AvailableMeans(ps, parent);
    Graphs.ReachableAppend(g, parent.id, parent.id, ancestor.id);
    OfferedPassesServerChecks(m, ps, parent, ancestor, now);
  }
}
