/** The tree view's pure logic: the node tree handed to the drawing library
    (`buildTreeNode` and the root choice of `treeData`), the hover highlight
    (`isRelatedToPerson`) and keyboard navigation between relatives
    (`navigateToRelative`), which reports the id it would select instead of calling
    `onNodeClick`. */
module TreeVisualization {
  import opened Collections
  import opened Persons
  import opened Graphs
  import Text

  /** The node attributes, as strings, the way the drawing library takes them. */
  datatype Attributes = Attributes(
    personId: Id,
    isSelected: string,
    isHighlighted: string,
    generation: string,
    relationshipType: string)

  datatype TreeNode = TreeNode(name: string, attributes: Option<Attributes>, children: Option<seq<TreeNode>>)

  function Flag(b: bool): string
  {
    if b then "true" else "false"
  }

  /** An optional id that JavaScript treats as true: present and non-empty. */
  predicate Truthy(id: Option<Id>)
  {
    id.Some? && id.value != ""
  }

  /** `xs.filter(x => ys.includes(x)).length > 0`. */
  predicate Overlap(xs: seq<Id>, ys: seq<Id>)
  {
    |Filter(xs, x => x in ys)| > 0
  }

  lemma OverlapMeans(xs: seq<Id>, ys: seq<Id>)
    ensures Overlap(xs, ys) <==> exists x :: x in xs && x in ys
  {
    var r := Filter(xs, x => x in ys);
    if |r| > 0 {
      assert r[0] in xs && r[0] in ys;
    }
    if x :| x in xs && x in ys {
      var i :| 0 <= i < |xs| && xs[i] == x;
      assert xs[i] in r;
    }
  }

  /** Whether one record links to the other in either list, or they share a parent. */
  predicate Kin(p: Person, q: Person)
  {
    p.id in q.parentIds || p.id in q.childrenIds || q.id in p.parentIds || q.id in p.childrenIds
    || exists x :: x in p.parentIds && x in q.parentIds
  }

  /** `isRelatedToPerson`. */
  function IsRelatedToPerson(personId: Id, hoveredId: Id, ps: seq<Person>): bool
  {
    if personId == hoveredId then true
    else
      match Lookup(ps, hoveredId)
      case None => false
      case Some(hovered) =>
        match Lookup(ps, personId)
        case None => false
        case Some(person) =>
          if personId in hovered.parentIds || personId in hovered.childrenIds then true
          else if hoveredId in person.parentIds || hoveredId in person.childrenIds then true
          else Overlap(person.parentIds, hovered.parentIds)
  }

  /** A person is related to itself; two different ids are related exactly when both are
      listed and their records link to each other or share a parent. */
  lemma IsRelatedMeans(personId: Id, hoveredId: Id, ps: seq<Person>)
    ensures IsRelatedToPerson(personId, personId, ps)
    ensures personId != hoveredId ==>
      (IsRelatedToPerson(personId, hoveredId, ps) <==>
        personId in IdsOf(ps) && hoveredId in IdsOf(ps)
        && Kin(Lookup(ps, personId).value, Lookup(ps, hoveredId).value))
  {
    if personId != hoveredId && personId in IdsOf(ps) && hoveredId in IdsOf(ps) {
      OverlapMeans(Lookup(ps, personId).value.parentIds, Lookup(ps, hoveredId).value.parentIds);
    }
  }

  /** Highlighting is symmetric: hovering over either of two persons highlights the
      other. */
  lemma IsRelatedSymmetric(a: Id, b: Id, ps: seq<Person>)
    ensures IsRelatedToPerson(a, b, ps) == IsRelatedToPerson(b, a, ps)
  {
    IsRelatedMeans(a, b, ps);
    IsRelatedMeans(b, a, ps);
  }

  /** The relationship type of a node, decided in this order: generation 0, no parents,
      some children, otherwise. */
  function Role(p: Person, generation: nat): (r: string)
    ensures r == "root" <==> generation == 0 || |p.parentIds| == 0
    ensures r == "parent" <==> generation > 0 && |p.parentIds| > 0 && |p.childrenIds| > 0
    ensures r == "child" <==> generation > 0 && |p.parentIds| > 0 && |p.childrenIds| == 0
  {
    if generation == 0 then "root"
    else if |p.parentIds| == 0 && generation > 0 then "root"
    else if |p.childrenIds| > 0 then "parent"
    else "child"
  }

  /** `childIds.map(id => ps.find(...)).filter(defined)`: the listed records of the ids, in
      their order, missing ids skipped. */
  function ExistingChildren(ps: seq<Person>, childIds: seq<Id>): (r: seq<Person>)
    ensures |r| <= |childIds|
    ensures forall c :: c in r ==> c in ps && c.id in childIds
    ensures forall id :: id in childIds && id in IdsOf(ps) ==> Lookup(ps, id).value in r
    ensures IsSubsequence(IdsInOrder(r), childIds)
  {
    if childIds == [] then []
    else
      var rest := ExistingChildren(ps, childIds[1..]);
      match Lookup(ps, childIds[0])
      case None => rest
      case Some(c) =>
        assert IdsInOrder([c] + rest)[1..] == IdsInOrder(rest);
        [c] + rest
  }

  /** The drawn children are exactly the ids `find` resolves, in their order and repeats
      included, each drawn as the first record carrying its id. */
  lemma {:induction false} ExistingChildrenExact(ps: seq<Person>, childIds: seq<Id>)
    ensures IdsInOrder(ExistingChildren(ps, childIds)) == Filter(childIds, (id: Id) => id in IdsOf(ps))
    ensures forall c :: c in ExistingChildren(ps, childIds) ==> Lookup(ps, c.id) == Some(c)
  {
    var keep := (id: Id) => id in IdsOf(ps);
    if childIds != [] {
      ExistingChildrenExact(ps, childIds[1..]);
      var rest := ExistingChildren(ps, childIds[1..]);
      var x := childIds[0];
      if x in IdsOf(ps) {
        var c := Lookup(ps, x).value;
        assert ExistingChildren(ps, childIds) == [c] + rest;
        assert Filter(childIds, keep) == [x] + Filter(childIds[1..], keep);
        assert IdsInOrder([c] + rest) == [c.id] + IdsInOrder(rest);
      } else {
        assert ExistingChildren(ps, childIds) == rest;
        assert Filter(childIds, keep) == Filter(childIds[1..], keep);
      }
    }
  }

  /** Every id is carried by one record only. */
  predicate UniqueIds(ps: seq<Person>)
  {
    forall i, j :: 0 <= i < |ps| && 0 <= j < |ps| && ps[i].id == ps[j].id ==> i == j
  }

  /** What `buildTreeNode` needs to terminate: one record per id, and no id a descendant
      of itself along `childrenIds`. */
  ghost predicate TreeShaped(ps: seq<Person>)
  {
    UniqueIds(ps) && Acyclic(LinkGraph(ps, Down))
  }

  lemma LookupUnique(ps: seq<Person>, p: Person)
    requires UniqueIds(ps) && p in ps
    ensures Lookup(ps, p.id) == Some(p)
  {
    assert p.id in IdsOf(ps);
    var q := Lookup(ps, p.id).value;
    var i :| 0 <= i < |ps| && ps[i] == p;
    var j :| 0 <= j < |ps| && ps[j] == q;
  }

  /** The walk from the root down to `person`: every id in `ancestors` leads down to it. */
  ghost predicate OnWalk(ps: seq<Person>, person: Person, ancestors: set<Id>)
  {
    person in ps && person.id in ancestors && ancestors <= IdsOf(ps)
    && forall a :: a in ancestors ==> Reachable(LinkGraph(ps, Down), a, person.id)
  }

  /** Going down to a listed child extends the walk: the child is not on it yet, since the
      graph is acyclic, and the number of ids off the walk shrinks. */
  lemma ChildExtendsWalk(ps: seq<Person>, parent: Person, ancestors: set<Id>, c: Person)
    requires TreeShaped(ps) && OnWalk(ps, parent, ancestors)
    requires c in ps && c.id in parent.childrenIds
    ensures c.id !in ancestors
    ensures OnWalk(ps, c, ancestors + {c.id})
    ensures UnvisitedCount(ps, ancestors + {c.id}) < UnvisitedCount(ps, ancestors)
  {
    var g := LinkGraph(ps, Down);
    LookupUnique(ps, parent);
    assert c.id in Step(g, parent.id);
    forall a | a in ancestors
      ensures Reachable(g, a, c.id)
    {
      ReachableAppend(g, a, parent.id, c.id);
    }
    ReachableRefl(g, c.id);
    assert c.id in IdsOf(ps);
    UnvisitedCountShrinks(ps, ancestors, ancestors + {c.id}, c.id);
  }

  /** The attributes of the node of `p` at `generation`: selected exactly when its id is the
      selection, highlighted exactly when it is related to a hovered person, and the role
      for its generation. */
  function NodeAttributes(ps: seq<Person>, p: Person, selected: Option<Id>, hovered: Option<Id>,
                          generation: nat): Attributes
  {
    Attributes(p.id, Flag(selected == Some(p.id)),
               Flag(Truthy(hovered) && IsRelatedToPerson(p.id, hovered.value, ps)),
               Text.NatToString(generation), Role(p, generation))
  }

  /** `n` draws `p` at `generation`: its name, its attributes (selected exactly when its id
      is the selection, highlighted exactly when related to a hovered person, the role for
      its generation), and below it the drawings of its listed children, one generation
      down, all the way to the leaves. */
  ghost predicate Drawn(ps: seq<Person>, n: TreeNode, p: Person, selected: Option<Id>, hovered: Option<Id>,
                        generation: nat, ancestors: set<Id>)
    requires TreeShaped(ps) && OnWalk(ps, p, ancestors)
    decreases UnvisitedCount(ps, ancestors), 1
  {
    && n.name == p.fullName
    && n.attributes == Some(NodeAttributes(ps, p, selected, hovered, generation))
    && (n.children.None? <==> ExistingChildren(ps, p.childrenIds) == [])
    && (n.children.Some? ==>
          AllDrawn(ps, n.children.value, ExistingChildren(ps, p.childrenIds), p, selected, hovered, generation + 1, ancestors))
  }

  /** `nodes` draw the children `persons` of `parent`, in order, each at `generation`. */
  ghost predicate AllDrawn(ps: seq<Person>, nodes: seq<TreeNode>, persons: seq<Person>, parent: Person,
                           selected: Option<Id>, hovered: Option<Id>, generation: nat, ancestors: set<Id>)
    requires TreeShaped(ps) && OnWalk(ps, parent, ancestors)
    requires forall c :: c in persons ==> c in ps && c.id in parent.childrenIds
    decreases UnvisitedCount(ps, ancestors), 0, |persons|
  {
    if persons == [] then nodes == []
    else
      ChildExtendsWalk(ps, parent, ancestors, persons[0]);
      && |nodes| == |persons|
      && Drawn(ps, nodes[0], persons[0], selected, hovered, generation, ancestors + {persons[0].id})
      && AllDrawn(ps, nodes[1..], persons[1..], parent, selected, hovered, generation, ancestors)
  }

  /** `n` draws `p` as the top of a walk. */
  ghost predicate DrawnFrom(ps: seq<Person>, n: TreeNode, p: Person, selected: Option<Id>, hovered: Option<Id>,
                            generation: nat)
    requires TreeShaped(ps) && p in ps
  {
    WalkStarts(ps, p);
    Drawn(ps, n, p, selected, hovered, generation, {p.id})
  }

  /** `nodes` draw the `roots`, in order, each as the top of its own walk at generation 1. */
  ghost predicate RootsDrawn(ps: seq<Person>, nodes: seq<TreeNode>, roots: seq<Person>, selected: Option<Id>,
                             hovered: Option<Id>)
    requires TreeShaped(ps) && forall p :: p in roots ==> p in ps
  {
    if roots == [] then nodes == []
    else
      && |nodes| == |roots|
      && DrawnFrom(ps, nodes[0], roots[0], selected, hovered, 1)
      && RootsDrawn(ps, nodes[1..], roots[1..], selected, hovered)
  }

  /** `buildTreeNode`: the node of `person` at `generation`, above the nodes of its listed
      children in `childrenIds` order, each one generation deeper; `children` is absent when
      there are none. `ancestors` is the walk down from the root, which only the proof of
      termination uses. */
  function BuildTreeNode(ps: seq<Person>, person: Person, selected: Option<Id>, hovered: Option<Id>,
                         generation: nat, ghost ancestors: set<Id>): (r: TreeNode)
    requires TreeShaped(ps) && OnWalk(ps, person, ancestors)
    ensures r.name == person.fullName && r.attributes.Some?
    ensures r.attributes.value.personId == person.id
    ensures r.attributes.value.isSelected == "true" <==> selected == Some(person.id)
    ensures r.attributes.value.isSelected == Flag(selected == Some(person.id))
    ensures r.attributes.value.isHighlighted == Flag(Truthy(hovered) && IsRelatedToPerson(person.id, hovered.value, ps))
    ensures r.attributes.value.generation == Text.NatToString(generation)
    ensures r.attributes.value.relationshipType == Role(person, generation)
    ensures r.children.None? <==> ExistingChildren(ps, person.childrenIds) == []
    ensures r.children.Some? ==> NodesOf(r.children.value, ExistingChildren(ps, person.childrenIds), generation + 1)
    ensures Drawn(ps, r, person, selected, hovered, generation, ancestors)
    decreases UnvisitedCount(ps, ancestors), 1
  {
    var children := BuildChildren(ps, person, person.childrenIds, selected, hovered, generation, ancestors);
    var highlighted := if Truthy(hovered) then IsRelatedToPerson(person.id, hovered.value, ps) else false;
    TreeNode(
      person.fullName,
      Some(Attributes(person.id, Flag(selected == Some(person.id)), Flag(highlighted),
                      Text.NatToString(generation), Role(person, generation))),
      if |children| > 0 then Some(children) else None)
  }

  /** `nodes` are the nodes of `persons`, in their order, at `generation`. */
  predicate NodesOf(nodes: seq<TreeNode>, persons: seq<Person>, generation: nat)
  {
    |nodes| == |persons|
    && forall i :: 0 <= i < |nodes| ==>
      nodes[i].name == persons[i].fullName && nodes[i].attributes.Some?
      && nodes[i].attributes.value.personId == persons[i].id
      && nodes[i].attributes.value.generation == Text.NatToString(generation)
  }

  /** The nodes of the listed children among `childIds`, one generation below `parent`. */
  function BuildChildren(ps: seq<Person>, parent: Person, childIds: seq<Id>, selected: Option<Id>,
                         hovered: Option<Id>, generation: nat, ghost ancestors: set<Id>): (r: seq<TreeNode>)
    requires TreeShaped(ps) && OnWalk(ps, parent, ancestors)
    requires forall id :: id in childIds ==> id in parent.childrenIds
    ensures NodesOf(r, ExistingChildren(ps, childIds), generation + 1)
    ensures AllDrawn(ps, r, ExistingChildren(ps, childIds), parent, selected, hovered, generation + 1, ancestors)
    decreases UnvisitedCount(ps, ancestors), 0, |childIds|
  {
    if childIds == [] then []
    else
      var rest := BuildChildren(ps, parent, childIds[1..], selected, hovered, generation, ancestors);
      match Lookup(ps, childIds[0])
      case None =>
        assert ExistingChildren(ps, childIds) == ExistingChildren(ps, childIds[1..]);
        rest
      case Some(c) =>
        assert ExistingChildren(ps, childIds) == [c] + ExistingChildren(ps, childIds[1..]);
        ChildExtendsWalk(ps, parent, ancestors, c);
        var node := BuildTreeNode(ps, c, selected, hovered, generation + 1, ancestors + {c.id});
        NodesOfCons(node, rest, c, ExistingChildren(ps, childIds[1..]), generation + 1);
        assert ([node] + rest)[1..] == rest;
        [node] + rest
  }

  lemma NodesOfCons(node: TreeNode, nodes: seq<TreeNode>, p: Person, persons: seq<Person>, generation: nat)
    requires node.name == p.fullName && node.attributes.Some? && node.attributes.value.personId == p.id
    requires node.attributes.value.generation == Text.NatToString(generation)
    requires NodesOf(nodes, persons, generation)
    ensures NodesOf([node] + nodes, [p] + persons, generation)
  {
    assert forall i :: 1 <= i < |nodes| + 1 ==> ([node] + nodes)[i] == nodes[i - 1] && ([p] + persons)[i] == persons[i - 1];
  }

  /** A person listed by two parents is among the children of both. */
  lemma SharedChildUnderBoth(ps: seq<Person>, p1: Person, p2: Person, childId: Id)
    requires childId in p1.childrenIds && childId in p2.childrenIds && childId in IdsOf(ps)
    ensures Lookup(ps, childId).value in ExistingChildren(ps, p1.childrenIds)
    ensures Lookup(ps, childId).value in ExistingChildren(ps, p2.childrenIds)
  {
  }

  /** `persons.filter(p => p.parentIds.length === 0)`. */
  function RootPersons(ps: seq<Person>): seq<Person>
  {
    Filter(ps, (p: Person) => |p.parentIds| == 0)
  }

  /** A walk starts at any listed person. */
  lemma WalkStarts(ps: seq<Person>, p: Person)
    requires p in ps
    ensures OnWalk(ps, p, {p.id})
  {
    ReachableRefl(LinkGraph(ps, Down), p.id);
  }

  /** `rootPersons.map(p => buildTreeNode(p, ..., 1, 'root'))`. */
  function BuildRoots(ps: seq<Person>, roots: seq<Person>, selected: Option<Id>, hovered: Option<Id>): (r: seq<TreeNode>)
    requires TreeShaped(ps) && forall p :: p in roots ==> p in ps
    ensures NodesOf(r, roots, 1)
    ensures RootsDrawn(ps, r, roots, selected, hovered)
  {
    if roots == [] then []
    else
      var p := roots[0];
      WalkStarts(ps, p);
      var node := BuildTreeNode(ps, p, selected, hovered, 1, {p.id});
      var rest := BuildRoots(ps, roots[1..], selected, hovered);
      NodesOfCons(node, rest, p, roots[1..], 1);
      assert [p] + roots[1..] == roots;
      assert ([node] + rest)[1..] == rest;
      [node] + rest
  }

  const VirtualRoot := "virtual-root"

  /** `treeData`. */
  function TreeData(ps: seq<Person>, selected: Option<Id>, hovered: Option<Id>): Option<TreeNode>
    requires TreeShaped(ps)
  {
    if ps == [] then None
    else
      var roots := RootPersons(ps);
      if |roots| == 0 then
        ReachableRefl(LinkGraph(ps, Down), ps[0].id);
        Some(BuildTreeNode(ps, ps[0], selected, hovered, 0, {ps[0].id}))
      else if |roots| > 1 then
        Some(TreeNode("Family Tree", Some(Attributes(VirtualRoot, "false", "false", "0", VirtualRoot)),
                      Some(BuildRoots(ps, roots, selected, hovered))))
      else
        ReachableRefl(LinkGraph(ps, Down), roots[0].id);
        Some(BuildTreeNode(ps, roots[0], selected, hovered, 0, {roots[0].id}))
  }

  /** The root choice: nothing for no persons; the first person when nobody is parentless;
      the only parentless person at generation 0; otherwise a virtual root whose children
      are the parentless persons, in order, at generation 1. */
  lemma TreeDataRoots(ps: seq<Person>, selected: Option<Id>, hovered: Option<Id>)
    requires TreeShaped(ps)
    ensures TreeData(ps, selected, hovered).None? <==> ps == []
    ensures ps != [] && RootPersons(ps) == [] ==>
      var a := TreeData(ps, selected, hovered).value.attributes.value;
      a.personId == ps[0].id && a.generation == "0" && a.relationshipType == "root"
    ensures |RootPersons(ps)| == 1 ==>
      var a := TreeData(ps, selected, hovered).value.attributes.value;
      a.personId == RootPersons(ps)[0].id && a.generation == "0" && a.relationshipType == "root"
    ensures |RootPersons(ps)| > 1 ==>
      var t := TreeData(ps, selected, hovered).value;
      t.attributes.value.personId == VirtualRoot && t.children.Some?
      && NodesOf(t.children.value, RootPersons(ps), 1)
    ensures ps != [] && RootPersons(ps) == [] ==>
      DrawnFrom(ps, TreeData(ps, selected, hovered).value, ps[0], selected, hovered, 0)
    ensures |RootPersons(ps)| == 1 ==>
      RootPersons(ps)[0] in ps && DrawnFrom(ps, TreeData(ps, selected, hovered).value, RootPersons(ps)[0], selected, hovered, 0)
    ensures |RootPersons(ps)| > 1 ==>
      var t := TreeData(ps, selected, hovered).value;
      t.children.Some? && RootsDrawn(ps, t.children.value, RootPersons(ps), selected, hovered)
  {
    if ps != [] && RootPersons(ps) == [] {
      assert Text.NatToString(0) == "0";
    }
    if |RootPersons(ps)| == 1 {
      assert Text.NatToString(0) == "0";
      assert RootPersons(ps)[0] in RootPersons(ps);
    }
  }

  /** A keyboard move: arrow up, arrow down, arrow left, arrow right. */
  datatype Move = ToParent | ToChild | SiblingLeft | SiblingRight

  /** `findIndex` by id: -1 when no record carries it. */
  function IndexOf(ps: seq<Person>, id: Id): (r: int)
    ensures -1 <= r < |ps|
    ensures r == -1 <==> forall i :: 0 <= i < |ps| ==> ps[i].id != id
    ensures r >= 0 ==> ps[r].id == id && forall j :: 0 <= j < r ==> ps[j].id != id
  {
    if ps == [] then -1
    else if ps[0].id == id then 0
    else
      var k := IndexOf(ps[1..], id);
      if k == -1 then -1 else k + 1
  }

  /** `person.parentIds.some(id => current.parentIds.includes(id))`, with both lists
      non-empty. */
  predicate SharesParent(person: Person, current: Person)
  {
    |person.parentIds| > 0 && |current.parentIds| > 0
    && exists i :: 0 <= i < |person.parentIds| && person.parentIds[i] in current.parentIds
  }

  /** The `siblings` of `navigateToRelative` as written: the persons sharing a parent with
      the current one, the current one left out. */
  function SiblingsAsWritten(ps: seq<Person>, current: Person, selected: Id): seq<Person>
  {
    Filter(ps, (p: Person) => p.id != selected && SharesParent(p, current))
  }

  /** The index the arrow keys move to among `n` siblings from `currentIndex`, wrapping
      round at both ends. */
  function NextIndex(move: Move, currentIndex: int, n: nat): (r: int)
    requires n > 0 && -1 <= currentIndex < n
    ensures 0 <= r < n
  {
    if move == SiblingLeft then (if currentIndex > 0 then currentIndex - 1 else n - 1)
    else (if currentIndex < n - 1 then currentIndex + 1 else 0)
  }

  /** The id `navigateToRelative` selects, if any. `corrected` picks the sibling rule:
      `SiblingsAsWritten` when false, `Family` when true. */
  function NavigateWith(ps: seq<Person>, selected: Option<Id>, move: Move, corrected: bool): (r: Option<Id>)
  {
    if !Truthy(selected) then
      var roots := RootPersons(ps);
      if |roots| > 0 then Some(roots[0].id) else None
    else
      match Lookup(ps, selected.value)
      case None => None
      case Some(current) =>
        match move
        case ToParent => if |current.parentIds| > 0 then Some(current.parentIds[0]) else None
        case ToChild => if |current.childrenIds| > 0 then Some(current.childrenIds[0]) else None
        case _ =>
          var family := if corrected then Family(ps, current) else SiblingsAsWritten(ps, current, selected.value);
          SiblingStep(family, selected.value, move)
  }

  /** The sibling `siblings[nextIndex]` that an arrow key selects, if there are siblings. */
  function SiblingStep(family: seq<Person>, selected: Id, move: Move): Option<Id>
  {
    if |family| > 0 then Some(family[NextIndex(move, IndexOf(family, selected), |family|)].id) else None
  }

  /** Left and right from a person that is present move within its siblings. */
  lemma SiblingMove(ps: seq<Person>, selected: Id, move: Move, corrected: bool)
    requires selected != "" && selected in IdsOf(ps) && (move == SiblingLeft || move == SiblingRight)
    ensures var current := Lookup(ps, selected).value;
      NavigateWith(ps, Some(selected), move, corrected) ==
        SiblingStep(if corrected then Family(ps, current) else SiblingsAsWritten(ps, current, selected), selected, move)
  {
  }

  /** `navigateToRelative` as written. */
  function NavigateAsWritten(ps: seq<Person>, selected: Option<Id>, move: Move): Option<Id>
  {
    NavigateWith(ps, selected, move, false)
  }

  /** Up and down select the first parent and the first child, when there is one; with
      nothing selected any move selects the first parentless person. */
  lemma NavigateVertical(ps: seq<Person>, selected: Option<Id>, move: Move)
    ensures !Truthy(selected) ==>
      NavigateAsWritten(ps, selected, move) == if |RootPersons(ps)| > 0 then Some(RootPersons(ps)[0].id) else None
    ensures Truthy(selected) && selected.value !in IdsOf(ps) ==> NavigateAsWritten(ps, selected, move).None?
    ensures Truthy(selected) && selected.value in IdsOf(ps) && move == ToParent ==>
      var current := Lookup(ps, selected.value).value;
      NavigateAsWritten(ps, selected, move) == if |current.parentIds| > 0 then Some(current.parentIds[0]) else None
    ensures Truthy(selected) && selected.value in IdsOf(ps) && move == ToChild ==>
      var current := Lookup(ps, selected.value).value;
      NavigateAsWritten(ps, selected, move) == if |current.childrenIds| > 0 then Some(current.childrenIds[0]) else None
  {
  }

  /** As written, the current person is never among its own `siblings`, so its index is
      always -1: left always selects the last sibling and right always the first, wherever
      the current person stands. */
  lemma SiblingNavigationIgnoresPosition(ps: seq<Person>, selected: Id, move: Move)
    requires selected != "" && selected in IdsOf(ps) && (move == SiblingLeft || move == SiblingRight)
    ensures var siblings := SiblingsAsWritten(ps, Lookup(ps, selected).value, selected);
      && IndexOf(siblings, selected) == -1
      && NavigateAsWritten(ps, Some(selected), move) ==
        if |siblings| == 0 then None
        else if move == SiblingLeft then Some(siblings[|siblings| - 1].id)
        else Some(siblings[0].id)
  {
  }

  /** Three children `a`, `b`, `c` of one parent, listed in that order: pressing right
      from `b` goes back to `a`, and right from `a` goes to `b`, so right never reaches
      `c` from either. */
  lemma SiblingNavigationCounterexample(parentId: Id, a: Person, b: Person, c: Person)
    requires a.parentIds == [parentId] && b.parentIds == [parentId] && c.parentIds == [parentId]
    requires a.id != "" && b.id != "" && a.id != b.id && a.id != c.id && b.id != c.id
    ensures NavigateAsWritten([a, b, c], Some(b.id), SiblingRight) == Some(a.id)
    ensures NavigateAsWritten([a, b, c], Some(a.id), SiblingRight) == Some(b.id)
  {
    ThreeLookups(a, b, c);
    SiblingMove([a, b, c], b.id, SiblingRight, false);
    SiblingMove([a, b, c], a.id, SiblingRight, false);
    SiblingsOfThree(parentId, a, b, c);
  }

  /** Among three children of one parent, as written, `b`'s siblings are `a` and `c` and
      `a`'s are `b` and `c`. */
  lemma SiblingsOfThree(parentId: Id, a: Person, b: Person, c: Person)
    requires a.parentIds == [parentId] && b.parentIds == [parentId] && c.parentIds == [parentId]
    requires a.id != b.id && a.id != c.id && b.id != c.id
    ensures SiblingsAsWritten([a, b, c], b, b.id) == [a, c]
    ensures SiblingsAsWritten([a, b, c], a, a.id) == [b, c]
  {
    assert SharesParent(a, b) && SharesParent(c, b) && SharesParent(b, a) && SharesParent(c, a) by {
      assert parentId == a.parentIds[0];
    }
    assert [a, b, c][1..] == [b, c] && [b, c][1..] == [c];
    assert SiblingsAsWritten([c], b, b.id) == [c] + SiblingsAsWritten([], b, b.id);
    assert SiblingsAsWritten([b, c], b, b.id) == SiblingsAsWritten([c], b, b.id);
    assert SiblingsAsWritten([c], a, a.id) == [c] + SiblingsAsWritten([], a, a.id);
    assert SiblingsAsWritten([b, c], a, a.id) == [b] + SiblingsAsWritten([c], a, a.id);
  }

  /** In the list `[a, b, c]` of persons with distinct ids, each id is found at its own
      record. */
  lemma ThreeLookups(a: Person, b: Person, c: Person)
    requires a.id != b.id && a.id != c.id && b.id != c.id
    ensures Lookup([a, b, c], a.id) == Some(a)
    ensures Lookup([a, b, c], b.id) == Some(b)
    ensures Lookup([a, b, c], c.id) == Some(c)
  {
    assert [a, b, c][1..] == [b, c] && [b, c][1..] == [c];
  }

  /** In the list `[a, b, c]` of persons with distinct ids, each id is at its own
      position. */
  lemma IndexOfThree(a: Person, b: Person, c: Person)
    requires a.id != b.id && a.id != c.id && b.id != c.id
    ensures IndexOf([a, b, c], a.id) == 0
    ensures IndexOf([a, b, c], b.id) == 1
    ensures IndexOf([a, b, c], c.id) == 2
  {
    assert [a, b, c][1..] == [b, c] && [b, c][1..] == [c];
    assert IndexOf([c], c.id) == 0;
    assert IndexOf([b, c], c.id) == 1;
  }

  /** Each of three children of one parent has all three as its family. */
  lemma FamilyOfThree(parentId: Id, a: Person, b: Person, c: Person, x: Person)
    requires a.parentIds == [parentId] && b.parentIds == [parentId] && c.parentIds == [parentId]
    requires x.parentIds == [parentId]
    ensures Family([a, b, c], x) == [a, b, c]
  {
    assert SharesParent(a, x) && SharesParent(b, x) && SharesParent(c, x) by {
      assert parentId == x.parentIds[0];
    }
    assert [a, b, c][1..] == [b, c] && [b, c][1..] == [c];
    assert Family([c], x) == [c] + Family([], x);
    assert Family([b, c], x) == [b] + Family([c], x);
  }

  /** The corrected sibling rule: the persons sharing a parent with the current one, the
      current one included, so that it has a position to move from. */
  function Family(ps: seq<Person>, current: Person): seq<Person>
  {
    Filter(ps, (p: Person) => SharesParent(p, current))
  }

  /** `navigateToRelative` with the corrected sibling rule. */
  function Navigate(ps: seq<Person>, selected: Option<Id>, move: Move): Option<Id>
  {
    NavigateWith(ps, selected, move, true)
  }

  /** Moving right from position `i` of `n` goes to `(i + 1) % n`, moving left to
      `(i - 1 + n) % n`. */
  lemma NextIndexWraps(i: int, n: nat)
    requires 0 <= i < n
    ensures NextIndex(SiblingRight, i, n) == (i + 1) % n
    ensures NextIndex(SiblingLeft, i, n) == (i - 1 + n) % n
  {
    if i == n - 1 {
      assert (i + 1) % n == n % n == 0;
    } else {
      assert (i + 1) % n == i + 1;
    }
    if i == 0 {
      assert (i - 1 + n) % n == n - 1;
    } else {
      assert (i - 1 + n) % n == ((i - 1) + n) % n == i - 1;
    }
  }

  /** With the corrected rule, left and right select the neighbours of the current person
      in its family, wrapping round at both ends. */
  lemma SiblingNavigationMovesByOne(ps: seq<Person>, selected: Id, move: Move)
    requires selected != "" && selected in IdsOf(ps) && (move == SiblingLeft || move == SiblingRight)
    requires |Lookup(ps, selected).value.parentIds| > 0
    ensures var family := Family(ps, Lookup(ps, selected).value);
      var i := IndexOf(family, selected);
      && 0 <= i < |family| && family[i].id == selected
      && Navigate(ps, Some(selected), move) == Some(Neighbour(family, i, move).id)
  {
    var family := Family(ps, Lookup(ps, selected).value);
    CurrentInFamily(ps, selected);
    SiblingMove(ps, selected, move, true);
    SiblingStepWraps(family, selected, move);
  }

  /** A person with a parent is in its own family. */
  lemma CurrentInFamily(ps: seq<Person>, selected: Id)
    requires selected in IdsOf(ps) && |Lookup(ps, selected).value.parentIds| > 0
    ensures IndexOf(Family(ps, Lookup(ps, selected).value), selected) >= 0
  {
    var current := Lookup(ps, selected).value;
    assert SharesParent(current, current) by {
      assert current.parentIds[0] in current.parentIds;
    }
    var family := Family(ps, current);
    var j :| 0 <= j < |ps| && ps[j] == current;
    assert current in family;
    var k :| 0 <= k < |family| && family[k] == current;
    assert family[k].id == selected;
  }

  /** The person after position `i` in `family` when moving right, before it when moving
      left, wrapping round at both ends. */
  function Neighbour(family: seq<Person>, i: int, move: Move): Person
    requires 0 <= i < |family|
  {
    if move == SiblingRight then family[(i + 1) % |family|] else family[(i - 1 + |family|) % |family|]
  }

  /** From a position in the family, left and right go to the neighbouring positions. */
  lemma SiblingStepWraps(family: seq<Person>, selected: Id, move: Move)
    requires IndexOf(family, selected) >= 0 && (move == SiblingLeft || move == SiblingRight)
    ensures SiblingStep(family, selected, move) == Some(Neighbour(family, IndexOf(family, selected), move).id)
  {
    NextIndexWraps(IndexOf(family, selected), |family|);
  }

  /** The same three children with the corrected rule: right goes from `a` to `b`, from
      `b` to `c` and from `c` back to `a`. */
  lemma SiblingNavigationCycles(parentId: Id, a: Person, b: Person, c: Person)
    requires a.parentIds == [parentId] && b.parentIds == [parentId] && c.parentIds == [parentId]
    requires a.id != "" && b.id != "" && c.id != "" && a.id != b.id && a.id != c.id && b.id != c.id
    ensures Navigate([a, b, c], Some(a.id), SiblingRight) == Some(b.id)
    ensures Navigate([a, b, c], Some(b.id), SiblingRight) == Some(c.id)
    ensures Navigate([a, b, c], Some(c.id), SiblingRight) == Some(a.id)
  {
    ThreeLookups(a, b, c);
    FamilyOfThree(parentId, a, b, c, a);
    FamilyOfThree(parentId, a, b, c, b);
    FamilyOfThree(parentId, a, b, c, c);
    SiblingMove([a, b, c], a.id, SiblingRight, true);
    SiblingMove([a, b, c], b.id, SiblingRight, true);
    SiblingMove([a, b, c], c.id, SiblingRight, true);
    IndexOfThree(a, b, c);
  }
}
