/** `findCycleWitness`: a depth-first search for one closed walk inside a component. */
module CycleWitness {
  import opened Common
  import opened Graphs

  /** A closed walk inside `c` that repeats no node but its ends. */
  ghost predicate SimpleCycle(g: Graph, c: set<string>, w: seq<string>) {
    && |w| >= 2 && IsPath(g, w)
    && w[0] == w[|w| - 1]
    && NoDup(w[..|w| - 1])
    && (forall x :: x in w ==> x in c)
  }

  ghost predicate PathIn(g: Graph, c: set<string>, p: seq<string>, x: string, y: string) {
    PathFromTo(g, p, x, y) && forall z :: z in p ==> z in c
  }

  ghost predicate ReachIn(g: Graph, c: set<string>, x: string, y: string) {
    exists p :: PathIn(g, c, p, x, y)
  }

  /** Some closed walk inside `c` can be reached from `start` without leaving `c`. */
  ghost predicate CycleFrom(g: Graph, c: set<string>, start: string) {
    exists x, y :: ReachIn(g, c, start, x) && Edge(g, x, y) && y in c && ReachIn(g, c, y, x)
  }

  /** Every edge inside `c` from a finished node leads to a node finished earlier. */
  ghost predicate Ranked(g: Graph, c: set<string>, finished: seq<string>) {
    forall k, y :: 0 <= k < |finished| && y in c && Edge(g, finished[k], y) ==> y in finished[..k]
  }

  lemma {:induction false} RankedPathsDescend(g: Graph, c: set<string>, finished: seq<string>, p: seq<string>, k: nat) returns (j: nat)
    requires Ranked(g, c, finished) && k < |finished|
    requires IsPath(g, p) && p[0] == finished[k] && forall z :: z in p ==> z in c
    ensures j <= k && finished[j] == p[|p| - 1]
    decreases |p|
  {
    if |p| == 1 {
      j := k;
    } else {
      assert Edge(g, p[0], p[1]) && p[1] in p;
      var i :| 0 <= i < k && finished[i] == p[1];
      forall e | 0 <= e < |p[1..]| - 1
        ensures Edge(g, p[1..][e], p[1..][e + 1])
      {
        assert Edge(g, p[e + 1], p[e + 2]);
      }
      j := RankedPathsDescend(g, c, finished, p[1..], i);
    }
  }

  lemma RankedHasNoCycle(g: Graph, c: set<string>, finished: seq<string>, start: string)
    requires Ranked(g, c, finished) && NoDup(finished) && start in finished
    ensures !CycleFrom(g, c, start)
  {
    if CycleFrom(g, c, start) {
      var x, y :| ReachIn(g, c, start, x) && Edge(g, x, y) && y in c && ReachIn(g, c, y, x);
      var p :| PathIn(g, c, p, start, x);
      var q :| PathIn(g, c, q, y, x);
      var k :| 0 <= k < |finished| && finished[k] == start;
      var i := RankedPathsDescend(g, c, finished, p, k);
      var j :| 0 <= j < i && finished[j] == y;
      var l := RankedPathsDescend(g, c, finished, q, j);
    }
  }

  lemma PathTail(g: Graph, p: seq<string>, i: nat)
    requires IsPath(g, p) && i < |p|
    ensures IsPath(g, p[i..]) && IsPath(g, p[..i + 1])
  {
    forall k | 0 <= k < |p[i..]| - 1
      ensures Edge(g, p[i..][k], p[i..][k + 1])
    {
      assert Edge(g, p[i + k], p[i + k + 1]);
    }
  }

  /** Walks between members of a component never leave it. */
  lemma SccReachIn(g: Graph, c: set<string>, x: string, y: string)
    requires IsScc(g, c) && x in c && y in c
    ensures ReachIn(g, c, x, y)
  {
    var p :| PathFromTo(g, p, x, y);
    forall z | z in p
      ensures z in c
    {
      var i :| 0 <= i < |p| && p[i] == z;
      PathTail(g, p, i);
      assert PathFromTo(g, p[..i + 1], x, z) && PathFromTo(g, p[i..], z, y);
      ReachTrans(g, z, y, x);
    }
    assert PathIn(g, c, p, x, y);
  }

  lemma CyclicSccHasCycle(g: Graph, c: set<string>, start: string)
    requires IsScc(g, c) && Cyclic(g, c) && start in c
    ensures CycleFrom(g, c, start)
  {
    var x, y;
    if u, v :| u in c && v in c && u != v {
      x := u;
      y := FirstStep(g, u, v);
      ReachTrans(g, y, v, u);
      ReachEdge(g, x, y);
    } else {
      x :| x in c && Edge(g, x, x);
      y := x;
    }
    SccReachIn(g, c, start, x);
    SccReachIn(g, c, y, x);
  }

  function First(path: seq<string>, node: string): string {
    if path == [] then node else path[0]
  }

  class WitnessSearch {
    const graph: Graph
    const componentSet: set<string>
    var activePath: seq<string>
    var visited: set<string>
    /** The nodes whose visit returned `null`, in the order they did. */
    ghost var finished: seq<string>

    constructor (graph: Graph, componentSet: set<string>)
      ensures this.graph == graph && this.componentSet == componentSet
      ensures Valid() && activePath == [] && visited == {} && finished == []
    {
      this.graph, this.componentSet := graph, componentSet;
      activePath, visited, finished := [], {}, [];
    }

    ghost predicate Valid()
      reads this
    {
      && NoDup(activePath) && NoDup(finished)
      && (forall x :: x in visited <==> x in activePath || x in finished)
      && (forall x :: x in activePath ==> x in componentSet && x !in finished)
      && (activePath != [] ==> IsPath(graph, activePath))
      && Ranked(graph, componentSet, finished)
    }

    /** `const visit = (node) => …` */
    method Visit(node: string) returns (r: Option<seq<string>>)
      requires Valid() && node in componentSet && node !in visited
      requires activePath != [] ==> Edge(graph, activePath[|activePath| - 1], node)
      modifies this
      ensures r.None? ==> Valid() && activePath == old(activePath)
      ensures r.None? ==> old(finished) <= finished && node in finished
      ensures r.None? ==> old(visited) <= visited
      ensures r.Some? ==> SimpleCycle(graph, componentSet, r.value)
      ensures r.Some? ==> ReachIn(graph, componentSet, First(old(activePath), node), r.value[0])
      decreases componentSet - visited, 0
    {
      hide IsPath, Ranked, ReachIn, SimpleCycle, Edge, Succ;
      PathSnoc(graph, activePath, node);
      activePath := activePath + [node];
      visited := visited + {node};
      ghost var path := activePath;
      var successors := Succ(graph, node);
      for i := 0 to |successors|
        invariant Valid() && activePath == path
        invariant old(finished) <= finished && old(visited) + {node} <= visited
        invariant forall k :: 0 <= k < i && successors[k] in componentSet ==> successors[k] in finished
      {
        assert Edge(graph, node, successors[i]) by { EdgeAt(graph, node, i); }
        r := Advance(node, successors[i]);
        if r.Some? {
          return;
        }
      }
      activePath := activePath[..|activePath| - 1];
      assert activePath == old(activePath);
      FinishNode(graph, componentSet, finished, node);
      finished := finished + [node];
      r := None;
    }

    /** One iteration of the loop over `graph.get(node)`. */
    method Advance(node: string, next: string) returns (r: Option<seq<string>>)
      requires Valid() && Edge(graph, node, next)
      requires activePath != [] && activePath[|activePath| - 1] == node
      modifies this
      ensures r.None? ==> Valid() && activePath == old(activePath)
      ensures r.None? ==> old(finished) <= finished && old(visited) <= visited
      ensures r.None? && next in componentSet ==> next in finished
      ensures r.Some? ==> SimpleCycle(graph, componentSet, r.value)
      ensures r.Some? ==> ReachIn(graph, componentSet, old(activePath[0]), r.value[0])
      decreases componentSet - visited, 1
    {
      hide IsPath, Ranked, ReachIn, SimpleCycle, Edge;
      if next !in componentSet {
        return None;
      }
      if next in activePath {
        var existingIndex :| 0 <= existingIndex < |activePath| && activePath[existingIndex] == next;
        CycleFound(graph, componentSet, activePath, existingIndex);
        return Some(activePath[existingIndex..] + [next]);
      }
      r := None;
      if next !in visited {
        r := Visit(next);
      }
    }
  }

  lemma PathSnoc(g: Graph, path: seq<string>, node: string)
    requires path != [] ==> IsPath(g, path) && Edge(g, path[|path| - 1], node)
    ensures IsPath(g, path + [node])
  {
  }

  lemma EdgeAt(g: Graph, node: string, i: nat)
    requires i < |Succ(g, node)|
    ensures Edge(g, node, Succ(g, node)[i])
  {
  }

  lemma FinishNode(g: Graph, c: set<string>, finished: seq<string>, node: string)
    requires Ranked(g, c, finished)
    requires forall k :: 0 <= k < |Succ(g, node)| && Succ(g, node)[k] in c ==> Succ(g, node)[k] in finished
    ensures Ranked(g, c, finished + [node])
  {
    var f := finished + [node];
    forall k, y | 0 <= k < |f| && y in c && Edge(g, f[k], y)
      ensures y in f[..k]
    {
      if k < |finished| {
        assert f[..k] == finished[..k];
      } else {
        assert f[..k] == finished;
        var e :| 0 <= e < |Succ(g, node)| && Succ(g, node)[e] == y;
      }
    }
  }

  lemma CycleFound(g: Graph, c: set<string>, path: seq<string>, i: nat)
    requires i < |path| && IsPath(g, path) && NoDup(path) && forall x :: x in path ==> x in c
    requires Edge(g, path[|path| - 1], path[i])
    ensures SimpleCycle(g, c, path[i..] + [path[i]])
    ensures ReachIn(g, c, path[0], path[i])
  {
    PathTail(g, path, i);
    var w := path[i..] + [path[i]];
    assert w[..|w| - 1] == path[i..];
    forall k | 0 <= k < |w| - 1
      ensures Edge(g, w[k], w[k + 1])
    {
      if k < |path[i..]| - 1 {
        assert Edge(g, path[i..][k], path[i..][k + 1]);
      }
    }
    assert PathIn(g, c, path[..i + 1], path[0], path[i]);
  }

  /** For any component and graph: a simple closed walk inside the component when one
      can be reached from its first node, and the component itself otherwise. */
  method FindCycleWitness(component: seq<string>, graph: Graph) returns (w: seq<string>)
    ensures component == [] || component[0] == "" ==> w == []
    ensures component != [] && component[0] != "" && CycleFrom(graph, Elems(component), component[0]) ==>
              SimpleCycle(graph, Elems(component), w)
    ensures component != [] && component[0] != "" && !CycleFrom(graph, Elems(component), component[0]) ==>
              w == component
  {
    if component == [] || component[0] == "" {
      return [];
    }
    var search := new WitnessSearch(graph, Elems(component));
    var found := search.Visit(component[0]);
    if found.Some? {
      w := found.value;
      FoundMeansCycle(graph, Elems(component), component[0], w);
    } else {
      w := component;
      RankedHasNoCycle(graph, Elems(component), search.finished, component[0]);
    }
  }

  lemma FoundMeansCycle(g: Graph, c: set<string>, start: string, w: seq<string>)
    requires SimpleCycle(g, c, w) && ReachIn(g, c, start, w[0])
    ensures CycleFrom(g, c, start)
  {
    assert Edge(g, w[0], w[0 + 1]);
    PathTail(g, w, 1);
    assert PathIn(g, c, w[1..], w[1], w[0]);
  }

  /** On every reported component the search never falls through to `?? component`. */
  lemma WitnessNeverFallsThrough(g: Graph, component: seq<string>)
    requires IsScc(g, Elems(component)) && Cyclic(g, Elems(component))
    ensures component != [] && CycleFrom(g, Elems(component), component[0])
  {
    assert component[0] in Elems(component);
    CyclicSccHasCycle(g, Elems(component), component[0]);
  }
}
