/** Reachability over a directed graph given as adjacency lists keyed by id. The person
    records induce two such graphs: one following `parentIds`, one following `childrenIds`.
    An id that is not a key has no successors: a dangling reference is a dead end. */
module Graphs {

  type Graph = map<string, seq<string>>

  function Step(g: Graph, a: string): seq<string>
  {
    if a in g then g[a] else []
  }

  /** Consecutive entries of `path` are joined by edges of `g`. */
  ghost predicate IsPath(g: Graph, path: seq<string>)
  {
    |path| >= 1 && forall i :: 0 <= i < |path| - 1 ==> path[i + 1] in Step(g, path[i])
  }

  /** `b` is reached from `a` by zero or more edges. */
  ghost predicate Reachable(g: Graph, a: string, b: string)
  {
    exists path :: IsPath(g, path) && path[0] == a && path[|path| - 1] == b
  }

  /** `b` is reached from `a` by one or more edges. */
  ghost predicate ProperlyReachable(g: Graph, a: string, b: string)
  {
    exists path :: IsPath(g, path) && |path| >= 2 && path[0] == a && path[|path| - 1] == b
  }

  /** No edge closes a cycle, i.e. no id is properly reachable from itself. */
  ghost predicate Acyclic(g: Graph)
  {
    forall a, b :: b in Step(g, a) ==> !Reachable(g, b, a)
  }

  /** Every id of `visited` outside `pending` has all its successors in `visited`. */
  ghost predicate ClosedExcept(g: Graph, visited: set<string>, pending: set<string>)
  {
    forall v, c {:trigger c in Step(g, v)} :: v in visited && v !in pending && c in Step(g, v) ==> c in visited
  }

  /** Like `ClosedExcept`, for successors that are themselves keys of `g`. */
  ghost predicate KeyClosedExcept(g: Graph, visited: set<string>, pending: set<string>)
  {
    forall v, c {:trigger c in Step(g, v)} :: v in visited && v !in pending && c in Step(g, v) && c in g ==> c in visited
  }

  /** Starting to explore `x`: it joins the visited set as a pending id. */
  lemma ClosedEnter(g: Graph, visited: set<string>, pending: set<string>, x: string)
    requires ClosedExcept(g, visited, pending)
    ensures ClosedExcept(g, visited + {x}, pending + {x})
  {
  }

  /** Finishing `x`: once its successors are visited, it is no longer pending. */
  lemma ClosedLeave(g: Graph, visited: set<string>, pending: set<string>, x: string)
    requires ClosedExcept(g, visited, pending + {x}) && x in visited
    requires forall c :: c in Step(g, x) ==> c in visited
    ensures ClosedExcept(g, visited, pending)
  {
  }

  lemma KeyClosedEnter(g: Graph, visited: set<string>, pending: set<string>, x: string)
    requires KeyClosedExcept(g, visited, pending)
    ensures KeyClosedExcept(g, visited + {x}, pending + {x})
  {
  }

  lemma KeyClosedLeave(g: Graph, visited: set<string>, pending: set<string>, x: string)
    requires KeyClosedExcept(g, visited, pending + {x}) && x in visited
    requires forall c :: c in Step(g, x) && c in g ==> c in visited
    ensures KeyClosedExcept(g, visited, pending)
  {
  }

  /** `g` after giving `a` one more successor `b`, appended at the end of its list. */
  function AddEdge(g: Graph, a: string, b: string): (r: Graph)
    ensures Step(r, a) == Step(g, a) + [b]
    ensures forall x :: x != a ==> Step(r, x) == Step(g, x)
  {
    g[a := Step(g, a) + [b]]
  }

  lemma SameGraph(g1: Graph, g2: Graph)
    requires g1.Keys == g2.Keys && forall a :: a in g1 ==> g1[a] == g2[a]
    ensures g1 == g2
  {
  }

  lemma ReachableRefl(g: Graph, a: string)
    ensures Reachable(g, a, a)
  {
    assert IsPath(g, [a]);
  }

  lemma ReachablePrepend(g: Graph, a: string, b: string, c: string)
    requires b in Step(g, a) && Reachable(g, b, c)
    ensures Reachable(g, a, c) && ProperlyReachable(g, a, c)
  {
    var path :| IsPath(g, path) && path[0] == b && path[|path| - 1] == c;
    var longer := [a] + path;
    forall i | 0 <= i < |longer| - 1 ensures longer[i + 1] in Step(g, longer[i]) {
      if i == 0 {
        assert longer[1] == b;
      } else {
        assert longer[i] == path[i - 1] && longer[i + 1] == path[i];
      }
    }
    assert IsPath(g, longer) && |longer| >= 2 && longer[0] == a && longer[|longer| - 1] == c;
  }

  lemma ReachableAppend(g: Graph, a: string, b: string, c: string)
    requires Reachable(g, a, b) && c in Step(g, b)
    ensures Reachable(g, a, c) && ProperlyReachable(g, a, c)
  {
    var path :| IsPath(g, path) && path[0] == a && path[|path| - 1] == b;
    var longer := path + [c];
    assert forall i :: 0 <= i < |longer| - 1 ==> longer[i + 1] in Step(g, longer[i]) by {
      forall i | 0 <= i < |longer| - 1 ensures longer[i + 1] in Step(g, longer[i]) {
        if i < |path| - 1 { assert longer[i] == path[i] && longer[i + 1] == path[i + 1]; }
      }
    }
    assert IsPath(g, longer);
  }

  lemma ReachableTrans(g: Graph, a: string, b: string, c: string)
    requires Reachable(g, a, b) && Reachable(g, b, c)
    ensures Reachable(g, a, c)
  {
    var p1 :| IsPath(g, p1) && p1[0] == a && p1[|p1| - 1] == b;
    var p2 :| IsPath(g, p2) && p2[0] == b && p2[|p2| - 1] == c;
    var p := p1 + p2[1..];
    assert forall i :: 0 <= i < |p| - 1 ==> p[i + 1] in Step(g, p[i]) by {
      forall i | 0 <= i < |p| - 1 ensures p[i + 1] in Step(g, p[i]) {
        if i < |p1| - 1 {
          assert p[i] == p1[i] && p[i + 1] == p1[i + 1];
        } else {
          var j := i - |p1| + 1;
          assert p[i] == p2[j] && p[i + 1] == p2[j + 1];
        }
      }
    }
    assert IsPath(g, p);
  }

  lemma ProperlyReachableIsReachable(g: Graph, a: string, b: string)
    requires ProperlyReachable(g, a, b)
    ensures Reachable(g, a, b)
  {
  }

  /** A proper path starts with an edge. */
  lemma ProperlyReachableFirstStep(g: Graph, a: string, b: string) returns (c: string)
    requires ProperlyReachable(g, a, b)
    ensures c in Step(g, a) && Reachable(g, c, b)
  {
    var path :| IsPath(g, path) && |path| >= 2 && path[0] == a && path[|path| - 1] == b;
    c := path[1];
    assert IsPath(g, path[1..]);
  }

  /** Walking from a closed set never leaves it. */
  lemma {:induction false} ClosedSetContainsReachable(g: Graph, visited: set<string>, a: string, b: string)
    requires ClosedExcept(g, visited, {}) && a in visited && Reachable(g, a, b)
    ensures b in visited
  {
    var path :| IsPath(g, path) && path[0] == a && path[|path| - 1] == b;
    var i := 0;
    while i < |path| - 1
      invariant 0 <= i <= |path| - 1
      invariant path[i] in visited
    {
      assert path[i + 1] in Step(g, path[i]);
      i := i + 1;
    }
  }

  /** Walking from a key-closed set never reaches a key outside it. */
  lemma {:induction false} KeyClosedSetContainsReachable(g: Graph, visited: set<string>, a: string, b: string)
    requires KeyClosedExcept(g, visited, {}) && a in visited && b in g && Reachable(g, a, b)
    ensures b in visited
  {
    var path :| IsPath(g, path) && path[0] == a && path[|path| - 1] == b;
    var i := 0;
    while i < |path| - 1
      invariant 0 <= i <= |path| - 1
      invariant path[i] in visited
    {
      assert path[i + 1] in Step(g, path[i]);
      if i + 1 < |path| - 1 {
        assert path[i + 2] in Step(g, path[i + 1]);
      }
      i := i + 1;
    }
  }

  /** A proper path ends with an edge. */
  lemma ProperlyReachableLastStep(g: Graph, a: string, b: string) returns (u: string)
    requires ProperlyReachable(g, a, b)
    ensures Reachable(g, a, u) && b in Step(g, u)
  {
    var path :| IsPath(g, path) && |path| >= 2 && path[0] == a && path[|path| - 1] == b;
    u := path[|path| - 2];
    assert IsPath(g, path[..|path| - 1]);
  }

  /** A path of `AddEdge(g, a, b)` either avoids the new edge or passes through it. */
  lemma {:induction false} PathAfterAddEdge(g: Graph, a: string, b: string, path: seq<string>)
    requires IsPath(AddEdge(g, a, b), path)
    ensures Reachable(g, path[0], path[|path| - 1])
         || (Reachable(g, path[0], a) && Reachable(g, b, path[|path| - 1]))
  {
    var g' := AddEdge(g, a, b);
    if |path| == 1 {
      ReachableRefl(g, path[0]);
    } else {
      var x, x1, y := path[0], path[1], path[|path| - 1];
      assert IsPath(g', path[1..]);
      PathAfterAddEdge(g, a, b, path[1..]);
      assert x1 in Step(g', x);
      if x1 in Step(g, x) {
        if Reachable(g, x1, y) {
          ReachablePrepend(g, x, x1, y);
        } else {
          ReachablePrepend(g, x, x1, a);
        }
      } else {
        assert x == a && x1 == b;
        ReachableRefl(g, a);
        if Reachable(g, x1, y) {
          assert Reachable(g, b, y);
        }
      }
    }
  }

  lemma ReachableAfterAddEdge(g: Graph, a: string, b: string, x: string, y: string)
    requires Reachable(AddEdge(g, a, b), x, y)
    ensures Reachable(g, x, y) || (Reachable(g, x, a) && Reachable(g, b, y))
  {
    var path :| IsPath(AddEdge(g, a, b), path) && path[0] == x && path[|path| - 1] == y;
    PathAfterAddEdge(g, a, b, path);
  }

  /** Giving `a` the new successor `b` keeps the graph acyclic exactly when `a` was not
      already reachable from `b`: the question the cycle check answers before linking. */
  lemma AddEdgeKeepsAcyclic(g: Graph, a: string, b: string)
    requires Acyclic(g) && !Reachable(g, b, a)
    ensures Acyclic(AddEdge(g, a, b))
  {
    var g' := AddEdge(g, a, b);
    forall u, v | v in Step(g', u) ensures !Reachable(g', v, u) {
      if Reachable(g', v, u) {
        ReachableAfterAddEdge(g, a, b, v, u);
        if v in Step(g, u) && !Reachable(g, v, u) {
          // b reaches u, u steps to v, v reaches a: a path from b to a in g
          ReachableAppend(g, b, u, v);
          ReachableTrans(g, b, v, a);
        }
        assert false;
      }
    }
  }

  /** The converse: if `a` is reachable from `b`, the new edge closes a cycle. */
  lemma AddEdgeCreatesCycle(g: Graph, a: string, b: string)
    requires Reachable(g, b, a)
    ensures !Acyclic(AddEdge(g, a, b))
  {
    var g' := AddEdge(g, a, b);
    var path :| IsPath(g, path) && path[0] == b && path[|path| - 1] == a;
    assert IsPath(g', path) by {
      forall i | 0 <= i < |path| - 1 ensures path[i + 1] in Step(g', path[i]) {
        assert path[i + 1] in Step(g, path[i]);
        if path[i] == a {
          assert Step(g', a) == Step(g, a) + [b];
        }
      }
    }
    assert b in Step(g', a);
  }
}
