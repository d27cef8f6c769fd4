/** The value the ancestor/descendant walk of the backend computes, written as functions, and
    how often it pushes each record. The walk pushes the record of every present link target
    BEFORE asking whether that target was visited, so a record is pushed once per link that
    names it from an id the walk enters: once on tree-shaped data, twice at the bottom of a
    diamond. */
module Walks {
  import opened Collections
  import opened Persons
  import Graphs

  /** The state of a walk: the ids entered so far, the records pushed so far, and the ids
      entered by this call in the order it entered them. */
  datatype Trail = Trail(seen: set<Id>, out: seq<Person>, order: seq<Id>)

  /** The walk from `id` with `visited` already entered and `acc` already pushed. */
  ghost function Walk(ps: seq<Person>, dir: Direction, id: Id, visited: set<Id>, acc: seq<Person>): (t: Trail)
    ensures visited <= t.seen && id in t.seen
    decreases UnvisitedCount(ps, visited), 2, 0
  {
    if id in visited then Trail(visited, acc, [])
    else
      match Lookup(ps, id)
      case None => Trail(visited + {id}, acc, [id])
      case Some(p) =>
        var t := WalkLinks(ps, dir, id, visited, Links(p, dir), 0, visited + {id}, acc);
        Trail(t.seen, t.out, [id] + t.order)
  }

  /** The links `links[i..]` of the present id `id`, entered when `outer` was the visited set. */
  ghost function WalkLinks(ps: seq<Person>, dir: Direction, id: Id, outer: set<Id>, links: seq<Id>, i: nat,
                           seen: set<Id>, acc: seq<Person>): (t: Trail)
    requires id in IdsOf(ps) && id !in outer && outer <= seen && id in seen && i <= |links|
    ensures seen <= t.seen
    decreases UnvisitedCount(ps, outer), 1, |links| - i
  {
    if i == |links| then Trail(seen, acc, [])
    else
      var w := WalkLink(ps, dir, id, outer, links[i], seen, acc);
      var rest := WalkLinks(ps, dir, id, outer, links, i + 1, w.seen, w.out);
      Trail(rest.seen, rest.out, w.order + rest.order)
  }

  /** One link: a present target is pushed, then walked; an absent one is skipped. */
  ghost function WalkLink(ps: seq<Person>, dir: Direction, id: Id, outer: set<Id>, target: Id,
                          seen: set<Id>, acc: seq<Person>): (t: Trail)
    requires id in IdsOf(ps) && id !in outer && outer <= seen && id in seen
    ensures seen <= t.seen
    decreases UnvisitedCount(ps, outer), 0, 0
  {
    match Lookup(ps, target)
    case None => Trail(seen, acc, [])
    case Some(c) =>
      UnvisitedCountShrinks(ps, outer, seen, id);
      Walk(ps, dir, target, seen, acc + [c])
  }

  /** How many links of `v` name the record `q`. Only the first record carrying an id is
      ever pushed, so a later duplicate is named by none. */
  ghost function InLinks(ps: seq<Person>, dir: Direction, v: Id, q: Person): nat
  {
    if Lookup(ps, q.id) == Some(q) then Count(Graphs.Step(LinkGraph(ps, dir), v), q.id) else 0
  }

  /** The links naming `q` from all the ids of `vs`. */
  ghost function LinkCount(ps: seq<Person>, dir: Direction, vs: seq<Id>, q: Person): nat
  {
    if vs == [] then 0 else InLinks(ps, dir, vs[0], q) + LinkCount(ps, dir, vs[1..], q)
  }

  /** The ids a walk from `root` enters: `root` and every present id one or more steps away. */
  ghost predicate InRegion(ps: seq<Person>, dir: Direction, root: Id, v: Id)
  {
    v == root || (v in IdsOf(ps) && Graphs.ProperlyReachable(LinkGraph(ps, dir), root, v))
  }

  /** `vs` lists the region of `root`, each id once. */
  ghost predicate Enumerates(ps: seq<Person>, dir: Direction, root: Id, vs: seq<Id>)
  {
    NoDuplicates(vs) && forall v :: v in vs <==> InRegion(ps, dir, root, v)
  }

  /** No id is linked from two ids of the region, nor twice from one. */
  ghost predicate TreeBelow(ps: seq<Person>, dir: Direction, root: Id)
  {
    (forall u, v, c {:trigger c in Graphs.Step(LinkGraph(ps, dir), u), c in Graphs.Step(LinkGraph(ps, dir), v)} ::
       (InRegion(ps, dir, root, u) && InRegion(ps, dir, root, v) &&
        c in Graphs.Step(LinkGraph(ps, dir), u) && c in Graphs.Step(LinkGraph(ps, dir), v)) ==> u == v) &&
    (forall u :: InRegion(ps, dir, root, u) ==> NoDuplicates(Graphs.Step(LinkGraph(ps, dir), u)))
  }

  /** Every region can be listed. */
  lemma RegionListed(ps: seq<Person>, dir: Direction, root: Id) returns (vs: seq<Id>)
    ensures Enumerates(ps, dir, root, vs)
  {
    vs := SeqOfSet(set v | v in IdsOf(ps) + {root} && InRegion(ps, dir, root, v));
  }

  lemma {:induction false} LinkCountAppend(ps: seq<Person>, dir: Direction, a: seq<Id>, b: seq<Id>, q: Person)
    ensures LinkCount(ps, dir, a + b, q) == LinkCount(ps, dir, a, q) + LinkCount(ps, dir, b, q)
  {
    if a == [] {
      assert a + b == b;
    } else {
      assert (a + b)[1..] == a[1..] + b;
      LinkCountAppend(ps, dir, a[1..], b, q);
    }
  }

  /** What a walk pushes and enters. Each record is pushed once per link naming it from an id
      the walk enters; the entered ids are new and listed once; every entered id other than
      the start has its record pushed. */
  lemma {:induction false} WalkCounts(ps: seq<Person>, dir: Direction, id: Id, visited: set<Id>, acc: seq<Person>, q: Person)
    ensures var t := Walk(ps, dir, id, visited, acc);
      Count(t.out, q) == Count(acc, q) + LinkCount(ps, dir, t.order, q) &&
      NoDuplicates(t.order) && (forall x :: x in t.order <==> x in t.seen && x !in visited) &&
      (forall x :: x in t.order && x != id ==> Lookup(ps, x).Some? && Lookup(ps, x).value in t.out)
    decreases UnvisitedCount(ps, visited), 2, 0
  {
    if id !in visited && Lookup(ps, id).Some? {
      var p := Lookup(ps, id).value;
      var t := WalkLinks(ps, dir, id, visited, Links(p, dir), 0, visited + {id}, acc);
      WalkLinksCounts(ps, dir, id, visited, Links(p, dir), 0, visited + {id}, acc, q);
      assert Links(p, dir)[0..] == Links(p, dir);
      assert Walk(ps, dir, id, visited, acc).order == [id] + t.order;
      assert LinkCount(ps, dir, [id] + t.order, q) == InLinks(ps, dir, id, q) + LinkCount(ps, dir, t.order, q) by {
        assert ([id] + t.order)[1..] == t.order;
      }
    }
  }

  lemma {:induction false} WalkLinksCounts(ps: seq<Person>, dir: Direction, id: Id, outer: set<Id>, links: seq<Id>, i: nat,
                                           seen: set<Id>, acc: seq<Person>, q: Person)
    requires id in IdsOf(ps) && id !in outer && outer <= seen && id in seen && i <= |links|
    ensures var t := WalkLinks(ps, dir, id, outer, links, i, seen, acc);
      Count(t.out, q) == Count(acc, q) + (if Lookup(ps, q.id) == Some(q) then Count(links[i..], q.id) else 0)
                         + LinkCount(ps, dir, t.order, q) &&
      NoDuplicates(t.order) && (forall x :: x in t.order <==> x in t.seen && x !in seen) &&
      (forall x :: x in t.order ==> Lookup(ps, x).Some? && Lookup(ps, x).value in t.out)
    decreases UnvisitedCount(ps, outer), 1, |links| - i
  {
    if i < |links| {
      var w := WalkLink(ps, dir, id, outer, links[i], seen, acc);
      var rest := WalkLinks(ps, dir, id, outer, links, i + 1, w.seen, w.out);
      WalkLinkCounts(ps, dir, id, outer, links[i], seen, acc, q);
      WalkLinksCounts(ps, dir, id, outer, links, i + 1, w.seen, w.out, q);
      LinkCountAppend(ps, dir, w.order, rest.order, q);
      assert links[i..][1..] == links[i + 1..];
      JoinedOrder(w.order, rest.order, seen, w.seen, rest.seen);
      forall x | x in w.order ensures Lookup(ps, x).value in rest.out {
        var y := Lookup(ps, x).value;
        CountPositive(w.out, y);
        WalkLinksCounts(ps, dir, id, outer, links, i + 1, w.seen, w.out, y);
        CountPositive(rest.out, y);
      }
    }
  }

  lemma {:induction false} WalkLinkCounts(ps: seq<Person>, dir: Direction, id: Id, outer: set<Id>, target: Id,
                                          seen: set<Id>, acc: seq<Person>, q: Person)
    requires id in IdsOf(ps) && id !in outer && outer <= seen && id in seen
    ensures var t := WalkLink(ps, dir, id, outer, target, seen, acc);
      Count(t.out, q) == Count(acc, q) + (if Lookup(ps, target) == Some(q) then 1 else 0)
                         + LinkCount(ps, dir, t.order, q) &&
      NoDuplicates(t.order) && (forall x :: x in t.order <==> x in t.seen && x !in seen) &&
      (forall x :: x in t.order ==> Lookup(ps, x).Some? && Lookup(ps, x).value in t.out)
    decreases UnvisitedCount(ps, outer), 0, 0
  {
    if Lookup(ps, target).Some? {
      var c := Lookup(ps, target).value;
      UnvisitedCountShrinks(ps, outer, seen, id);
      WalkCounts(ps, dir, target, seen, acc + [c], q);
      CountAppend(acc, [c], q);
      var t := Walk(ps, dir, target, seen, acc + [c]);
      if target in t.order {
        CountAppend(acc, [c], c);
        WalkCounts(ps, dir, target, seen, acc + [c], c);
        CountPositive(t.out, c);
      }
    }
  }

  /** Two runs of entries, each new for its stretch of the walk, join without repeats. */
  lemma JoinedOrder(a: seq<Id>, b: seq<Id>, s0: set<Id>, s1: set<Id>, s2: set<Id>)
    requires NoDuplicates(a) && NoDuplicates(b) && s0 <= s1 <= s2
    requires forall x :: x in a <==> x in s1 && x !in s0
    requires forall x :: x in b <==> x in s2 && x !in s1
    ensures NoDuplicates(a + b) && forall x :: x in a + b <==> x in s2 && x !in s0
  {
    forall i, j | 0 <= i < j < |a + b| ensures (a + b)[i] != (a + b)[j] {
      if i < |a| && j >= |a| {
        assert (a + b)[i] in a && (a + b)[j] in b;
      }
    }
  }

  /** Taking the id at `k` out of the sum. */
  lemma LinkCountDrop(ps: seq<Person>, dir: Direction, ws: seq<Id>, k: nat, q: Person)
    requires k < |ws|
    ensures LinkCount(ps, dir, ws, q) == InLinks(ps, dir, ws[k], q) + LinkCount(ps, dir, ws[..k] + ws[k + 1..], q)
  {
    assert ws == ws[..k] + ([ws[k]] + ws[k + 1..]);
    LinkCountAppend(ps, dir, ws[..k], [ws[k]] + ws[k + 1..], q);
    assert ([ws[k]] + ws[k + 1..])[1..] == ws[k + 1..];
    LinkCountAppend(ps, dir, ws[..k], ws[k + 1..], q);
  }

  /** The count over the region does not depend on the order the region is listed in. */
  lemma {:induction false} LinkCountPermutation(ps: seq<Person>, dir: Direction, vs: seq<Id>, ws: seq<Id>, q: Person)
    requires NoDuplicates(vs) && NoDuplicates(ws) && forall x :: x in vs <==> x in ws
    ensures LinkCount(ps, dir, vs, q) == LinkCount(ps, dir, ws, q)
    decreases |vs|
  {
    if vs == [] {
      assert forall i :: 0 <= i < |ws| ==> ws[i] in vs;
    } else {
      assert vs[0] in ws;
      var k :| 0 <= k < |ws| && ws[k] == vs[0];
      LinkCountDrop(ps, dir, ws, k, q);
      var rest := ws[..k] + ws[k + 1..];
      DropAt(ws, k);
      DropFirst(vs);
      assert forall x :: x in vs[1..] <==> x in rest;
      LinkCountPermutation(ps, dir, vs[1..], rest, q);
    }
  }

  /** When the ids of `us` are the only ids of `vs` whose links name `q`, summing over `vs`
      is summing over `us`. */
  lemma {:induction false} LinkCountSupport(ps: seq<Person>, dir: Direction, vs: seq<Id>, us: seq<Id>, q: Person)
    requires NoDuplicates(vs) && NoDuplicates(us) && forall u :: u in us ==> u in vs
    requires forall v :: v in vs && v !in us ==> InLinks(ps, dir, v, q) == 0
    ensures LinkCount(ps, dir, vs, q) == LinkCount(ps, dir, us, q)
    decreases |vs|
  {
    if vs == [] {
      assert forall i :: 0 <= i < |us| ==> us[i] in vs;
    } else {
      DropFirst(vs);
      if vs[0] in us {
        var k :| 0 <= k < |us| && us[k] == vs[0];
        var rest := us[..k] + us[k + 1..];
        LinkCountDrop(ps, dir, us, k, q);
        DropAt(us, k);
        assert forall u :: u in rest ==> u in vs[1..];
        LinkCountSupport(ps, dir, vs[1..], rest, q);
      } else {
        LinkCountSupport(ps, dir, vs[1..], us, q);
      }
    }
  }

  /** A region with no id linked twice: every record below the root is named exactly once. */
  lemma TreeCountsOnce(ps: seq<Person>, dir: Direction, root: Id, vs: seq<Id>, q: Person)
    requires Enumerates(ps, dir, root, vs) && TreeBelow(ps, dir, root)
    requires Lookup(ps, q.id) == Some(q) && Graphs.ProperlyReachable(LinkGraph(ps, dir), root, q.id)
    ensures LinkCount(ps, dir, vs, q) == 1
  {
    var g := LinkGraph(ps, dir);
    var u := Graphs.ProperlyReachableLastStep(g, root, q.id);
    assert InRegion(ps, dir, root, u) by {
      if u != root {
        assert u in g;
        var path :| Graphs.IsPath(g, path) && path[0] == root && path[|path| - 1] == u;
        assert |path| >= 2;
      }
    }
    CountNoDuplicates(Graphs.Step(g, u), q.id);
    forall v | v in vs && v !in [u] ensures InLinks(ps, dir, v, q) == 0 {
      CountPositive(Graphs.Step(g, v), q.id);
    }
    LinkCountSupport(ps, dir, vs, [u], q);
    assert [u][1..] == [];
  }

  /** In a list whose ids are distinct, each record is the one found for its id. */
  lemma {:induction false} LookupAt(ps: seq<Person>, k: nat)
    requires k < |ps| && forall j :: 0 <= j < k ==> ps[j].id != ps[k].id
    ensures Lookup(ps, ps[k].id) == Some(ps[k])
  {
    if k > 0 {
      LookupAt(ps[1..], k - 1);
    }
  }

  lemma StepOf(ps: seq<Person>, dir: Direction, p: Person)
    requires Lookup(ps, p.id) == Some(p)
    ensures Graphs.Step(LinkGraph(ps, dir), p.id) == Links(p, dir)
  {
  }

  /** The list `[a, b, c, d]` of people with distinct ids holds those four ids, each found at
      its own record. */
  lemma FourRecords(ps: seq<Person>, a: Person, b: Person, c: Person, d: Person)
    requires ps == [a, b, c, d]
    requires a.id != b.id && a.id != c.id && a.id != d.id && b.id != c.id && b.id != d.id && c.id != d.id
    ensures IdsOf(ps) == {a.id, b.id, c.id, d.id}
    ensures Lookup(ps, a.id) == Some(a) && Lookup(ps, b.id) == Some(b)
    ensures Lookup(ps, c.id) == Some(c) && Lookup(ps, d.id) == Some(d)
  {
    FourLookups(ps);
    assert ps[0] == a && ps[1] == b && ps[2] == c && ps[3] == d;
  }

  lemma FourLookups(ps: seq<Person>)
    requires |ps| == 4 && forall i, j :: 0 <= i < j < 4 ==> ps[i].id != ps[j].id
    ensures forall k :: 0 <= k < 4 ==> Lookup(ps, ps[k].id) == Some(ps[k])
  {
    forall k | 0 <= k < 4 ensures Lookup(ps, ps[k].id) == Some(ps[k]) {
      LookupAt(ps, k);
    }
  }

  /** The people of a diamond: ids `a`..`d` only, A over B and C, both over D. */
  ghost predicate Diamond(ps: seq<Person>, a: Person, b: Person, c: Person, d: Person)
  {
    IdsOf(ps) == {a.id, b.id, c.id, d.id} &&
    Lookup(ps, a.id) == Some(a) && Lookup(ps, b.id) == Some(b) &&
    Lookup(ps, c.id) == Some(c) && Lookup(ps, d.id) == Some(d) &&
    a.id != b.id && a.id != c.id && a.id != d.id && b.id != c.id && b.id != d.id && c.id != d.id &&
    a.childrenIds == [b.id, c.id] && b.childrenIds == [d.id] && c.childrenIds == [d.id] && d.childrenIds == []
  }

  /** The list `[a, b, c, d]`, A over B and C, both over D, is a diamond. */
  lemma DiamondList(a: Person, b: Person, c: Person, d: Person)
    requires a.id != b.id && a.id != c.id && a.id != d.id && b.id != c.id && b.id != d.id && c.id != d.id
    requires a.childrenIds == [b.id, c.id] && b.childrenIds == [d.id] && c.childrenIds == [d.id] && d.childrenIds == []
    ensures Diamond([a, b, c, d], a, b, c, d)
  {
    FourRecords([a, b, c, d], a, b, c, d);
  }

  /** In a diamond, B and C each name D once, A and D not at all, and B and C lie below A. */
  lemma DiamondLinks(ps: seq<Person>, a: Person, b: Person, c: Person, d: Person)
    requires Diamond(ps, a, b, c, d)
    ensures InLinks(ps, Down, a.id, d) == 0 && InLinks(ps, Down, d.id, d) == 0
    ensures InLinks(ps, Down, b.id, d) == 1 && InLinks(ps, Down, c.id, d) == 1
    ensures InRegion(ps, Down, a.id, b.id) && InRegion(ps, Down, a.id, c.id)
  {
    var g := LinkGraph(ps, Down);
    StepOf(ps, Down, a);
    StepOf(ps, Down, b);
    StepOf(ps, Down, c);
    StepOf(ps, Down, d);
    CountPositive([b.id, c.id], d.id);
    assert Count([d.id], d.id) == 1 by {
      assert [d.id][1..] == [];
    }
    Graphs.ReachableRefl(g, b.id);
    Graphs.ReachablePrepend(g, a.id, b.id, b.id);
    Graphs.ReachableRefl(g, c.id);
    Graphs.ReachablePrepend(g, a.id, c.id, c.id);
  }

  /** Only B and C name D among the ids of a diamond. */
  lemma DiamondOthers(ps: seq<Person>, a: Person, b: Person, c: Person, d: Person)
    requires IdsOf(ps) == {a.id, b.id, c.id, d.id}
    requires InLinks(ps, Down, a.id, d) == 0 && InLinks(ps, Down, d.id, d) == 0
    ensures forall v :: v in IdsOf(ps) + {a.id} && v != b.id && v != c.id ==> InLinks(ps, Down, v, d) == 0
  {
    forall v | v in IdsOf(ps) + {a.id} && v != b.id && v != c.id ensures InLinks(ps, Down, v, d) == 0 {
      assert v == a.id || v == d.id;
    }
  }

  /** Summing over ids of which exactly two name `q`, once each. */
  lemma LinkCountTwo(ps: seq<Person>, dir: Direction, vs: seq<Id>, u1: Id, u2: Id, q: Person)
    requires NoDuplicates(vs) && u1 in vs && u2 in vs && u1 != u2
    requires InLinks(ps, dir, u1, q) == 1 && InLinks(ps, dir, u2, q) == 1
    requires forall v :: v in vs && v != u1 && v != u2 ==> InLinks(ps, dir, v, q) == 0
    ensures LinkCount(ps, dir, vs, q) == 2
  {
    assert NoDuplicates([u1, u2]);
    LinkCountSupport(ps, dir, vs, [u1, u2], q);
    assert LinkCount(ps, dir, [u2], q) == 1 by {
      assert [u2][1..] == [];
    }
    assert [u1, u2][1..] == [u2];
  }

  /** Two ids of the region naming `q` once each, and no other id of the list or the root
      naming it: `q` is named twice over the region. */
  lemma RegionCountsTwice(ps: seq<Person>, dir: Direction, root: Id, vs: seq<Id>, u1: Id, u2: Id, q: Person)
    requires Enumerates(ps, dir, root, vs)
    requires u1 != u2 && InRegion(ps, dir, root, u1) && InRegion(ps, dir, root, u2)
    requires InLinks(ps, dir, u1, q) == 1 && InLinks(ps, dir, u2, q) == 1
    requires forall v :: v in IdsOf(ps) + {root} && v != u1 && v != u2 ==> InLinks(ps, dir, v, q) == 0
    ensures LinkCount(ps, dir, vs, q) == 2
  {
    LinkCountTwo(ps, dir, vs, u1, u2, q);
  }

  /** In a diamond D is named by two ids of the region of A. */
  lemma DiamondCountsTwice(ps: seq<Person>, a: Person, b: Person, c: Person, d: Person, vs: seq<Id>)
    requires Diamond(ps, a, b, c, d) && Enumerates(ps, Down, a.id, vs)
    ensures LinkCount(ps, Down, vs, d) == 2
  {
    DiamondLinks(ps, a, b, c, d);
    DiamondOthers(ps, a, b, c, d);
    RegionCountsTwice(ps, Down, a.id, vs, b.id, c.id, d);
  }
}
