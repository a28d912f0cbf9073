/** Finite directed graphs over file names, and reachability in them. */
module Graphs {
  import opened Common

  /** An adjacency map with its keys in insertion order, as a JavaScript `Map`
      holds them. A successor need not be a key. */
  datatype Graph = Graph(keys: seq<string>, succ: map<string, seq<string>>)

  ghost predicate ValidGraph(g: Graph) {
    (forall k :: k in g.keys <==> k in g.succ) && NoDup(g.keys)
  }

  /** `graph.get(node) ?? []` */
  function Succ(g: Graph, x: string): seq<string> {
    if x in g.succ then g.succ[x] else []
  }

  /** `y` is in the list that the map holds for `x`. */
  predicate Edge(g: Graph, x: string, y: string) {
    x in g.succ && y in g.succ[x]
  }

  /** What the loops walk over, and what the theorems call an edge, is what the map holds. */
  lemma SuccIsEdges(g: Graph, x: string, y: string)
    ensures y in Succ(g, x) <==> x in g.succ && y in g.succ[x]
    ensures Edge(g, x, y) <==> x in g.succ && y in g.succ[x]
  {
  }

  /** Every name the graph mentions. */
  ghost function Nodes(g: Graph): set<string> {
    g.succ.Keys + (set x, y | x in g.succ && y in g.succ[x] :: y)
  }

  lemma EdgeInNodes(g: Graph, x: string, y: string)
    requires Edge(g, x, y)
    ensures x in g.succ && x in Nodes(g) && y in Nodes(g)
  {
  }

  ghost predicate IsPath(g: Graph, p: seq<string>) {
    |p| > 0 && forall i, j {:trigger p[i], p[j]} :: 0 <= i && j == i + 1 && j < |p| ==> Edge(g, p[i], p[j])
  }

  ghost predicate PathFromTo(g: Graph, p: seq<string>, x: string, y: string) {
    IsPath(g, p) && p[0] == x && p[|p| - 1] == y
  }

  ghost predicate Reach(g: Graph, x: string, y: string) {
    exists p :: PathFromTo(g, p, x, y)
  }

  lemma ReachRefl(g: Graph, x: string)
    ensures Reach(g, x, x)
  {
    assert PathFromTo(g, [x], x, x);
  }

  lemma ReachEdge(g: Graph, x: string, y: string)
    requires Edge(g, x, y)
    ensures Reach(g, x, y)
  {
    assert PathFromTo(g, [x, y], x, y);
  }

  lemma ReachTrans(g: Graph, x: string, y: string, z: string)
    requires Reach(g, x, y) && Reach(g, y, z)
    ensures Reach(g, x, z)
  {
    var p :| PathFromTo(g, p, x, y);
    var q :| PathFromTo(g, q, y, z);
    var r := p + q[1..];
    forall i | 0 <= i < |r| - 1
      ensures Edge(g, r[i], r[i + 1])
    {
      if i < |p| - 1 {
        assert r[i] == p[i] && r[i + 1] == p[i + 1];
      } else {
        var k := i - (|p| - 1);
        assert r[i] == q[k] && r[i + 1] == q[k + 1];
      }
    }
    assert PathFromTo(g, r, x, z);
  }

  lemma ReachThenEdge(g: Graph, x: string, y: string, z: string)
    requires Reach(g, x, y) && Edge(g, y, z)
    ensures Reach(g, x, z)
  {
    ReachEdge(g, y, z);
    ReachTrans(g, x, y, z);
  }

  /** The first edge of a non-trivial walk. */
  lemma FirstStep(g: Graph, x: string, y: string) returns (u: string)
    requires Reach(g, x, y) && x != y
    ensures Edge(g, x, u) && Reach(g, u, y)
  {
    var p :| PathFromTo(g, p, x, y);
    u := p[1];
    assert Edge(g, p[0], p[1]);
    var q := p[1..];
    forall i | 0 <= i < |q| - 1
      ensures Edge(g, q[i], q[i + 1])
    {
      assert Edge(g, p[i + 1], p[i + 2]);
    }
    assert PathFromTo(g, q, u, y);
  }

  /** A walk that starts inside `s` and ends outside crosses an edge out of `s`. */
  lemma {:induction false} Exit(g: Graph, s: set<string>, p: seq<string>) returns (u: string, v: string)
    requires IsPath(g, p) && p[0] in s && p[|p| - 1] !in s
    ensures u in s && v !in s && Edge(g, u, v)
    ensures Reach(g, p[0], u) && Reach(g, v, p[|p| - 1])
    decreases |p|
  {
    assert Edge(g, p[0], p[1]);
    var q := p[1..];
    forall i | 0 <= i < |q| - 1
      ensures Edge(g, q[i], q[i + 1])
    {
      assert Edge(g, p[i + 1], p[i + 2]);
    }
    if p[1] in s {
      u, v := Exit(g, s, q);
      ReachEdge(g, p[0], p[1]);
      ReachTrans(g, p[0], p[1], u);
    } else {
      u, v := p[0], p[1];
      ReachRefl(g, u);
      assert PathFromTo(g, q, v, p[|p| - 1]);
    }
  }

  lemma ReachExit(g: Graph, s: set<string>, x: string, y: string) returns (u: string, v: string)
    requires Reach(g, x, y) && x in s && y !in s
    ensures u in s && v !in s && Edge(g, u, v)
    ensures Reach(g, x, u) && Reach(g, v, y)
  {
    var p :| PathFromTo(g, p, x, y);
    u, v := Exit(g, s, p);
  }

  ghost predicate Closed(g: Graph, s: set<string>) {
    forall u, v :: u in s && Edge(g, u, v) ==> v in s
  }

  lemma ReachStaysIn(g: Graph, s: set<string>, x: string, y: string)
    requires Closed(g, s) && x in s && Reach(g, x, y)
    ensures y in s
  {
    if y !in s {
      var u, v := ReachExit(g, s, x, y);
      assert false;
    }
  }

  /** A strongly connected component: mutually reachable, and maximal so. */
  ghost predicate IsScc(g: Graph, c: set<string>) {
    && c != {}
    && (forall x, y :: x in c && y in c ==> Reach(g, x, y))
    && (forall x, y :: x in c && Reach(g, x, y) && Reach(g, y, x) ==> y in c)
  }

  /** More than one node, or an edge from a node to itself. */
  ghost predicate Cyclic(g: Graph, c: set<string>) {
    (exists x, y :: x in c && y in c && x != y) || (exists x :: x in c && Edge(g, x, x))
  }

  lemma SccsOverlapOnlyIfEqual(g: Graph, c: set<string>, d: set<string>, x: string)
    requires IsScc(g, c) && IsScc(g, d) && x in c && x in d
    ensures c == d
  {
    forall y | y in c ensures y in d { assert Reach(g, x, y) && Reach(g, y, x); }
    forall y | y in d ensures y in c { assert Reach(g, x, y) && Reach(g, y, x); }
  }

  /** No closed walk of one edge or more. */
  ghost predicate Acyclic(g: Graph) {
    forall x, y :: Edge(g, x, y) ==> !Reach(g, y, x)
  }

  /** The map leads from the `i`-th name to the next. */
  predicate StepAt(g: Graph, p: seq<string>, i: nat)
    requires i + 1 < |p|
  {
    p[i] in g.succ && p[i + 1] in g.succ[p[i]]
  }

  /** A walk of one edge or more along the map that ends where it starts. */
  ghost predicate ClosedWalk(g: Graph, p: seq<string>) {
    |p| >= 2 && p[0] == p[|p| - 1] && forall i :: 0 <= i < |p| - 1 ==> StepAt(g, p, i)
  }

  lemma ClosedWalkMeansCycle(g: Graph, p: seq<string>)
    requires ClosedWalk(g, p)
    ensures !Acyclic(g)
  {
    var q := p[1..];
    assert StepAt(g, p, 0);
    forall i | 0 <= i < |q| - 1
      ensures Edge(g, q[i], q[i + 1])
    {
      assert StepAt(g, p, i + 1);
    }
    assert PathFromTo(g, q, p[1], p[0]);
    assert Edge(g, p[0], p[1]) && Reach(g, p[1], p[0]);
  }

  lemma PathCons(g: Graph, x: string, q: seq<string>)
    requires IsPath(g, q) && Edge(g, x, q[0])
    ensures IsPath(g, [x] + q)
  {
    var p := [x] + q;
    forall i | 0 <= i < |p| - 1
      ensures Edge(g, p[i], p[i + 1])
    {
      if i > 0 {
        var k := i - 1;
        assert p[i] == q[k] && p[i + 1] == q[k + 1] && Edge(g, q[k], q[k + 1]);
      }
    }
  }

  lemma PathIsClosedWalk(g: Graph, p: seq<string>)
    requires IsPath(g, p) && |p| >= 2 && p[0] == p[|p| - 1]
    ensures ClosedWalk(g, p)
  {
    forall i | 0 <= i < |p| - 1
      ensures StepAt(g, p, i)
    {
      assert Edge(g, p[i], p[i + 1]);
    }
  }

  lemma CycleMeansClosedWalk(g: Graph) returns (p: seq<string>)
    requires !Acyclic(g)
    ensures ClosedWalk(g, p)
  {
    var x, y :| Edge(g, x, y) && Reach(g, y, x);
    var q :| PathFromTo(g, q, y, x);
    p := [x] + q;
    PathCons(g, x, q);
    PathIsClosedWalk(g, p);
  }

  lemma AcyclicIffNoClosedWalk(g: Graph)
    ensures Acyclic(g) <==> forall p :: !ClosedWalk(g, p)
  {
    forall p ensures ClosedWalk(g, p) ==> !Acyclic(g) {
      if ClosedWalk(g, p) { ClosedWalkMeansCycle(g, p); }
    }
    if !Acyclic(g) {
      var p := CycleMeansClosedWalk(g);
    }
  }

  ghost function SccOf(g: Graph, x: string): set<string> {
    {x} + set y | y in Nodes(g) && Reach(g, x, y) && Reach(g, y, x)
  }

  lemma ReachInNodes(g: Graph, x: string, y: string)
    requires Reach(g, x, y) && x != y
    ensures x in Nodes(g) && y in Nodes(g)
  {
    var p :| PathFromTo(g, p, x, y);
    assert Edge(g, p[0], p[1]);
    assert Edge(g, p[|p| - 2], p[|p| - 2 + 1]);
    EdgeInNodes(g, p[0], p[1]);
    EdgeInNodes(g, p[|p| - 2], p[|p| - 1]);
  }

  lemma SccOfIsScc(g: Graph, x: string)
    ensures IsScc(g, SccOf(g, x)) && x in SccOf(g, x)
  {
    var c := SccOf(g, x);
    ReachRefl(g, x);
    forall u, v | u in c && v in c
      ensures Reach(g, u, v)
    {
      ReachTrans(g, u, x, v);
    }
    forall u, v | u in c && Reach(g, u, v) && Reach(g, v, u)
      ensures v in c
    {
      ReachTrans(g, x, u, v);
      ReachTrans(g, v, u, x);
      if v != x { ReachInNodes(g, x, v); }
    }
  }

  /** A graph is acyclic exactly when none of its components is cyclic. */
  lemma AcyclicIffNoCyclicScc(g: Graph)
    ensures Acyclic(g) <==> forall c :: IsScc(g, c) ==> !Cyclic(g, c)
  {
    if Acyclic(g) {
      forall c | IsScc(g, c)
        ensures !Cyclic(g, c)
      {
        if x, y :| x in c && y in c && x != y {
          var u := FirstStep(g, x, y);
          ReachTrans(g, u, y, x);
          assert false;
        } else if x :| x in c && Edge(g, x, x) {
          ReachRefl(g, x);
          assert false;
        }
      }
    }
    if forall c :: IsScc(g, c) ==> !Cyclic(g, c) {
      forall x, y | Edge(g, x, y)
        ensures !Reach(g, y, x)
      {
        if Reach(g, y, x) {
          var c := SccOf(g, x);
          SccOfIsScc(g, x);
          ReachEdge(g, x, y);
          assert y in c;
          assert Cyclic(g, c);
        }
      }
    }
  }
}
