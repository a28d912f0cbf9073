/** What every step of Tarjan's search keeps, stated over snapshots of its state. */
module TarjanInvariant {
  import opened Common
  import opened Graphs

  /** The mutable state of the search. `sccs` collects the node sets popped so far. */
  datatype Search = Search(
    next: nat,
    stack: seq<string>,
    index: map<string, nat>,
    low: map<string, nat>,
    sccs: set<set<string>>)

  /** Nodes that were visited and have left the stack. */
  ghost function Done(s: Search): set<string> {
    s.index.Keys - Elems(s.stack)
  }

  ghost predicate StackOrdered(s: Search) {
    && NoDup(s.stack)
    && (forall x :: x in s.stack ==> x in s.index)
    && (forall i, j :: 0 <= i < j < |s.stack| ==> s.index[s.stack[i]] < s.index[s.stack[j]])
    && (forall x :: x in s.index ==> s.index[x] < s.next)
  }

  /** `gray` nodes are those whose visit has not returned; the other visited nodes
      have had all their successors visited, and done nodes lead only to done nodes. */
  ghost predicate EdgesScanned(g: Graph, gray: set<string>, s: Search) {
    && (forall x, y :: x in s.index && x !in gray && Edge(g, x, y) ==> y in s.index)
    && Closed(g, Done(s))
  }

  /** A gray node reaches everything above it on the stack, and everything on the
      stack reaches a gray node at or below itself. */
  ghost predicate StackReach(g: Graph, gray: set<string>, s: Search) {
    && (forall i, j :: 0 <= i <= j < |s.stack| && s.stack[i] in gray ==> Reach(g, s.stack[i], s.stack[j]))
    && (forall j :: 0 <= j < |s.stack| ==> ReachesGray(g, gray, s.stack, j))
  }

  ghost predicate ReachesGray(g: Graph, gray: set<string>, stack: seq<string>, j: nat)
    requires j < |stack|
  {
    exists i :: 0 <= i <= j && stack[i] in gray && Reach(g, stack[j], stack[i])
  }

  ghost predicate PoppedAreSccs(g: Graph, s: Search) {
    && (forall c :: c in s.sccs ==> IsScc(g, c) && c <= Done(s) && "" !in c)
    && (forall x :: x in Done(s) ==> exists c :: c in s.sccs && x in c)
  }

  ghost predicate Inv(g: Graph, gray: set<string>, s: Search) {
    && s.index.Keys <= Nodes(g)
    && gray <= Elems(s.stack)
    && StackOrdered(s)
    && EdgesScanned(g, gray, s)
    && StackReach(g, gray, s)
    && PoppedAreSccs(g, s)
  }

  /** What was recorded before a visit is not changed by it. */
  ghost predicate Keeps(s0: Search, s1: Search) {
    && s0.next <= s1.next
    && s0.stack <= s1.stack
    && (forall x :: x in s0.index ==> x in s1.index && s1.index[x] == s0.index[x])
    && (forall x :: x in s0.low ==> x in s1.low && s1.low[x] == s0.low[x])
    && s0.sccs <= s1.sccs
  }

  /** `low` bounds the index of every node of `base` that an edge from `from` leads to. */
  ghost predicate LowBounds(g: Graph, low: nat, from: seq<string>, base: seq<string>, s: Search) {
    forall u, v :: u in from && v in base && v in s.index && Edge(g, u, v) ==> low <= s.index[v]
  }

  /** `low` is the index of a stack node that `node` reaches. */
  ghost predicate LowWitnessed(g: Graph, node: string, low: nat, s: Search) {
    exists v :: v in s.stack && v in s.index && s.index[v] == low && Reach(g, node, v)
  }

  /** What a finished visit of `node` promises to the visit that called it. */
  ghost predicate Visited(g: Graph, node: string, s0: Search, s1: Search) {
    && Keeps(s0, s1)
    && node in s1.index && node in s1.low
    && s0.next <= s1.index[node]
    && s1.low[node] <= s1.index[node]
    && LowBounds(g, s1.low[node], s1.stack[|s0.stack|..], s0.stack, s1)
    && (s1.low[node] == s1.index[node] || LowWitnessed(g, node, s1.low[node], s1))
  }

  /** The state inside the visit of `node` once its first `i` successors are handled. */
  ghost predicate Scanning(g: Graph, gray: set<string>, node: string, s0: Search, s: Search, i: nat)
    requires i <= |Succ(g, node)|
  {
    Inv(g, gray + {node}, s) && Links(g, node, s0, s, i)
  }

  /** What the successors handled so far have told `node`. */
  ghost predicate Links(g: Graph, node: string, s0: Search, s: Search, i: nat)
    requires i <= |Succ(g, node)|
  {
    && Keeps(s0, s)
    && s0.stack + [node] <= s.stack
    && (forall x :: x in s0.stack ==> x in s.index)
    && node in s.index && node in s.low
    && s.index[node] == s0.next
    && s.low[node] <= s.index[node]
    && (forall k :: 0 <= k < i ==> Succ(g, node)[k] in s.index)
    && (forall k :: 0 <= k < i && Succ(g, node)[k] in s0.stack ==> s.low[node] <= s.index[Succ(g, node)[k]])
    && LowBounds(g, s.low[node], s.stack[|s0.stack| + 1..], s0.stack, s)
    && LowWitnessed(g, node, s.low[node], s)
  }

  function Enter(s: Search, node: string): Search {
    s.(next := s.next + 1, stack := s.stack + [node], index := s.index[node := s.next], low := s.low[node := s.next])
  }

  function Lower(s: Search, node: string, bound: nat): Search
    requires node in s.low
  {
    s.(low := s.low[node := if s.low[node] <= bound then s.low[node] else bound])
  }

  lemma EnterKeepsStackReach(g: Graph, gray: set<string>, node: string, s: Search)
    requires StackReach(g, gray, s) && node !in s.stack
    requires forall x :: x in gray ==> Reach(g, x, node)
    ensures StackReach(g, gray + {node}, Enter(s, node))
  {
    var t := Enter(s, node);
    var m := |s.stack|;
    hide Reach;
    ReachRefl(g, node);
    assert t.stack[m] == node;
    forall j | 0 <= j < |t.stack|
      ensures ReachesGray(g, gray + {node}, t.stack, j)
    {
      if j < m {
        assert ReachesGray(g, gray, s.stack, j);
        var i :| 0 <= i <= j && s.stack[i] in gray && Reach(g, s.stack[j], s.stack[i]);
        assert t.stack[i] == s.stack[i] && t.stack[j] == s.stack[j];
      }
    }
    forall i, j | 0 <= i <= j < |t.stack| && t.stack[i] in gray + {node}
      ensures Reach(g, t.stack[i], t.stack[j])
    {
      if j < m {
        assert t.stack[i] == s.stack[i] && t.stack[j] == s.stack[j];
      }
    }
  }

  lemma EnterKeepsInv(g: Graph, gray: set<string>, node: string, s: Search)
    requires Inv(g, gray, s) && node in Nodes(g) && node !in s.index
    requires forall x :: x in gray ==> Reach(g, x, node)
    ensures Inv(g, gray + {node}, Enter(s, node))
  {
    var t := Enter(s, node);
    assert node !in s.stack;
    assert Elems(t.stack) == Elems(s.stack) + {node};
    assert Done(t) == Done(s);
    EnterKeepsStackReach(g, gray, node, s);
    hide StackReach, Reach, IsScc;
  }

  lemma EnterScans(g: Graph, gray: set<string>, node: string, s: Search)
    requires Inv(g, gray, s) && node in Nodes(g) && node !in s.index && node !in s.low
    requires forall x :: x in gray ==> Reach(g, x, node)
    ensures Scanning(g, gray, node, s, Enter(s, node), 0)
  {
    var t := Enter(s, node);
    EnterKeepsInv(g, gray, node, s);
    ReachRefl(g, node);
    hide EdgesScanned, StackReach, PoppedAreSccs, Reach;
    assert t.stack[|s.stack|] == node;
    assert LowWitnessed(g, node, t.low[node], t);
  }

  /** Lowering the node's link touches no other part of the state. */
  lemma LowerKeepsInv(g: Graph, gray: set<string>, s: Search, node: string, bound: nat)
    requires Inv(g, gray, s) && node in s.low
    ensures Inv(g, gray, Lower(s, node, bound))
  {
    assert Done(Lower(s, node, bound)) == Done(s);
  }

  lemma PrefixMembers<T>(a: seq<T>, b: seq<T>)
    requires a <= b
    ensures forall x :: x in a ==> x in b
  {
    forall x | x in a ensures x in b {
      var k :| 0 <= k < |a| && a[k] == x;
      assert b[k] == x;
    }
  }

  lemma TreeEdgeLowBounds(g: Graph, node: string, next: string, s0: Search, s: Search, t: Search)
    requires s0.stack + [node] <= s.stack && node in s.low && node in t.low && s.low[node] == t.low[node]
    requires forall x :: x in s0.stack ==> x in s.index
    requires LowBounds(g, s.low[node], s.stack[|s0.stack| + 1..], s0.stack, s)
    requires Visited(g, next, s, t)
    ensures LowBounds(g, Lower(t, node, t.low[next]).low[node], t.stack[|s0.stack| + 1..], s0.stack, t)
  {
    var m := |s0.stack| + 1;
    var low := Lower(t, node, t.low[next]).low[node];
    PrefixMembers(s0.stack, s.stack);
    forall u, v | u in t.stack[m..] && v in s0.stack && v in t.index && Edge(g, u, v)
      ensures low <= t.index[v]
    {
      var k :| m <= k < |t.stack| && t.stack[k] == u;
      assert v in s.stack && v in s.index;
      if k < |s.stack| {
        assert s.stack[k] == u && u in s.stack[m..];
      } else {
        assert u in t.stack[|s.stack|..];
      }
    }
  }

  lemma TreeEdgeLowWitnessed(g: Graph, node: string, next: string, s: Search, t: Search)
    requires Edge(g, node, next)
    requires node in s.low && node in s.index && s.low[node] <= s.index[node] < s.next
    requires LowWitnessed(g, node, s.low[node], s) && Visited(g, next, s, t)
    requires node in t.low
    ensures LowWitnessed(g, node, Lower(t, node, t.low[next]).low[node], Lower(t, node, t.low[next]))
  {
    PrefixMembers(s.stack, t.stack);
    if s.low[node] <= t.low[next] {
      var v :| v in s.stack && v in s.index && s.index[v] == s.low[node] && Reach(g, node, v);
      assert v in t.stack;
    } else {
      var v :| v in t.stack && v in t.index && t.index[v] == t.low[next] && Reach(g, next, v);
      ReachEdge(g, node, next);
      ReachTrans(g, node, next, v);
    }
  }

  /** After the recursive visit of an unvisited successor. */
  lemma AfterTreeEdge(g: Graph, node: string, s0: Search, s: Search, i: nat, t: Search)
    requires i < |Succ(g, node)| && Links(g, node, s0, s, i)
    requires node !in s0.low && node !in s0.index && s.index[node] < s.next
    requires Succ(g, node)[i] !in s.index && Visited(g, Succ(g, node)[i], s, t)
    ensures Links(g, node, s0, Lower(t, node, t.low[Succ(g, node)[i]]), i + 1)
  {
    var next := Succ(g, node)[i];
    TreeEdgeLowBounds(g, node, next, s0, s, t);
    TreeEdgeLowWitnessed(g, node, next, s, t);
    assert next !in s0.stack by { PrefixMembers(s0.stack, s.stack); }
  }

  lemma NothingVisited(g: Graph)
    ensures Inv(g, {}, Search(0, [], map[], map[], {}))
  {
  }

  lemma VisitedGrows(g: Graph, node: string, s0: Search, s1: Search)
    requires Visited(g, node, s0, s1)
    ensures s0.index.Keys + {node} <= s1.index.Keys
  {
  }

  /** What the visit of `node` may rely on between two successors. */
  lemma ScanFacts(g: Graph, gray: set<string>, node: string, s0: Search, s: Search, i: nat)
    requires i <= |Succ(g, node)| && Scanning(g, gray, node, s0, s, i)
    ensures Inv(g, gray + {node}, s)
    ensures s0.index.Keys + {node} <= s.index.Keys <= Nodes(g)
    ensures s0.stack <= s.stack
    ensures node in s.low && s.index[node] < s.next
    ensures |s0.stack| < |s.stack| && s.stack[|s0.stack|] == node
    ensures NoDup(s.stack)
    ensures forall x :: x in s.stack ==> x in s.index
  {
  }

  lemma AfterTreeVisit(g: Graph, gray: set<string>, node: string, s0: Search, s: Search, i: nat, t: Search)
    requires i < |Succ(g, node)| && Scanning(g, gray, node, s0, s, i)
    requires node !in s0.low && node !in s0.index
    requires Succ(g, node)[i] !in s.index
    requires Inv(g, gray + {node}, t) && Visited(g, Succ(g, node)[i], s, t)
    ensures node in t.low && Succ(g, node)[i] in t.low
    ensures Scanning(g, gray, node, s0, Lower(t, node, t.low[Succ(g, node)[i]]), i + 1)
  {
    ScanFacts(g, gray, node, s0, s, i);
    AfterTreeEdge(g, node, s0, s, i, t);
    LowerKeepsInv(g, gray + {node}, t, node, t.low[Succ(g, node)[i]]);
  }

  /** After an edge to a node visited before. */
  lemma AfterVisitedEdge(g: Graph, gray: set<string>, node: string, s0: Search, s: Search, i: nat)
    requires i < |Succ(g, node)| && Scanning(g, gray, node, s0, s, i)
    requires node !in s0.low
    requires Succ(g, node)[i] in s.index
    ensures node in s.low
    ensures Scanning(g, gray, node, s0,
              if Succ(g, node)[i] in s.stack then Lower(s, node, s.index[Succ(g, node)[i]]) else s, i + 1)
  {
    if Succ(g, node)[i] in s.stack {
      AfterStackEdge(g, node, s0, s, i);
      LowerKeepsInv(g, gray + {node}, s, node, s.index[Succ(g, node)[i]]);
    } else {
      AfterDoneEdge(g, node, s0, s, i);
    }
  }

  /** After an edge to a node that is on the stack. */
  lemma AfterStackEdge(g: Graph, node: string, s0: Search, s: Search, i: nat)
    requires i < |Succ(g, node)| && Links(g, node, s0, s, i)
    requires node !in s0.low
    requires Succ(g, node)[i] in s.stack && Succ(g, node)[i] in s.index
    ensures Links(g, node, s0, Lower(s, node, s.index[Succ(g, node)[i]]), i + 1)
  {
    var next := Succ(g, node)[i];
    var r := Lower(s, node, s.index[next]);
    ReachEdge(g, node, next);
    assert LowWitnessed(g, node, r.low[node], r);
  }

  /** After an edge to a node whose component is already popped. */
  lemma AfterDoneEdge(g: Graph, node: string, s0: Search, s: Search, i: nat)
    requires i < |Succ(g, node)| && Links(g, node, s0, s, i)
    requires Succ(g, node)[i] in s.index && Succ(g, node)[i] !in s.stack
    ensures Links(g, node, s0, s, i + 1)
  {
    PrefixMembers(s0.stack, s.stack);
  }

  /** The last scan step hands its bounds to the caller. */
  lemma SuccessorsScanned(g: Graph, node: string, s0: Search, s: Search)
    requires Links(g, node, s0, s, |Succ(g, node)|)
    ensures forall y :: Edge(g, node, y) ==> y in s.index
    ensures LowBounds(g, s.low[node], s.stack[|s0.stack|..], s0.stack, s)
  {
    forall y | Edge(g, node, y)
      ensures y in s.index
    {
      var k :| 0 <= k < |Succ(g, node)| && Succ(g, node)[k] == y;
    }
    forall u, v | u in s.stack[|s0.stack|..] && v in s0.stack && v in s.index && Edge(g, u, v)
      ensures s.low[node] <= s.index[v]
    {
      var k :| |s0.stack| <= k < |s.stack| && s.stack[k] == u;
      if k == |s0.stack| {
        var e :| 0 <= e < |Succ(g, node)| && Succ(g, node)[e] == v;
      } else {
        assert u in s.stack[|s0.stack| + 1..];
      }
    }
  }

  /** A link below the node's own index leads to a gray node deeper on the stack. */
  lemma LinkFindsGray(g: Graph, gray: set<string>, node: string, m: nat, s: Search) returns (a: nat)
    requires StackOrdered(s) && StackReach(g, gray + {node}, s)
    requires m < |s.stack| && s.stack[m] == node && node in s.low
    requires s.low[node] < s.index[node] && LowWitnessed(g, node, s.low[node], s)
    ensures a < m && s.stack[a] in gray && Reach(g, node, s.stack[a])
  {
    var v :| v in s.stack && v in s.index && s.index[v] == s.low[node] && Reach(g, node, v);
    var b :| 0 <= b < |s.stack| && s.stack[b] == v;
    assert b < m;
    assert ReachesGray(g, gray + {node}, s.stack, b);
    a :| 0 <= a <= b && s.stack[a] in gray + {node} && Reach(g, s.stack[b], s.stack[a]);
    ReachTrans(g, node, v, s.stack[a]);
  }

  /** A visit that ends below a gray node leaves its nodes on the stack. */
  lemma LeaveOnStack(g: Graph, gray: set<string>, node: string, s0: Search, s: Search)
    requires gray <= Elems(s0.stack) && node !in s0.stack
    requires Scanning(g, gray, node, s0, s, |Succ(g, node)|)
    requires s.low[node] != s.index[node]
    ensures Inv(g, gray, s) && Visited(g, node, s0, s)
  {
    var m := |s0.stack|;
    assert s.stack[m] == node;
    var a := LinkFindsGray(g, gray, node, m, s);
    SuccessorsScanned(g, node, s0, s);
    assert StackReach(g, gray, s) by {
      forall j | 0 <= j < |s.stack|
        ensures ReachesGray(g, gray, s.stack, j)
      {
        GrayBelow(g, gray, node, m, a, s, j);
      }
    }
    assert gray <= Elems(s.stack) by { PrefixMembers(s0.stack, s.stack); }
    assert Inv(g, gray, s);
  }

  lemma GrayBelow(g: Graph, gray: set<string>, node: string, m: nat, a: nat, s: Search, j: nat)
    requires NoDup(s.stack) && j < |s.stack| && m < |s.stack| && s.stack[m] == node
    requires a < m && s.stack[a] in gray && Reach(g, node, s.stack[a])
    requires ReachesGray(g, gray + {node}, s.stack, j)
    ensures ReachesGray(g, gray, s.stack, j)
  {
    var i :| 0 <= i <= j && s.stack[i] in gray + {node} && Reach(g, s.stack[j], s.stack[i]);
    if s.stack[i] == node {
      assert i == m;
      ReachTrans(g, s.stack[j], node, s.stack[a]);
      assert 0 <= a <= j;
    }
  }

  function Pop(s: Search, m: nat): Search
    requires m <= |s.stack|
  {
    s.(stack := s.stack[..m], sccs := s.sccs + {Elems(s.stack[m..])})
  }

  /** The nodes from `node` upwards reach `node` and are reached by it. */
  lemma SegmentMutual(g: Graph, gray: set<string>, node: string, m: nat, s: Search, j: nat)
    requires NoDup(s.stack) && StackReach(g, gray + {node}, s)
    requires m <= j < |s.stack| && s.stack[m] == node
    requires gray <= Elems(s.stack[..m])
    ensures Reach(g, s.stack[j], node) && Reach(g, node, s.stack[j])
  {
    assert s.stack[m] in gray + {node};
    assert ReachesGray(g, gray + {node}, s.stack, j);
    var i :| 0 <= i <= j && s.stack[i] in gray + {node} && Reach(g, s.stack[j], s.stack[i]);
    assert i <= m by {
      if s.stack[i] in gray {
        assert s.stack[i] in s.stack[..m];
        var k :| 0 <= k < m && s.stack[k] == s.stack[i];
      }
    }
    assert Reach(g, s.stack[i], s.stack[m]);
    ReachTrans(g, s.stack[j], s.stack[i], node);
  }

  /** No edge leaves the segment except into components popped before. */
  lemma SegmentClosed(g: Graph, gray: set<string>, node: string, m: nat, s: Search)
    requires StackOrdered(s) && EdgesScanned(g, gray + {node}, s)
    requires m < |s.stack| && s.stack[m] == node && gray <= Elems(s.stack[..m])
    requires forall y :: Edge(g, node, y) ==> y in s.index
    requires LowBounds(g, s.index[node], s.stack[m..], s.stack[..m], s)
    ensures Closed(g, Done(s) + Elems(s.stack[m..]))
  {
    var c := Elems(s.stack[m..]);
    forall u, v | u in Done(s) + c && Edge(g, u, v)
      ensures v in Done(s) + c
    {
      if u in c {
        SplitStack(s, m);
        assert u !in s.stack[..m];
        assert v in s.index;
        if v in s.stack[..m] {
          assert false;
        }
      }
    }
  }

  /** A visit whose link equals its index has a whole component above it on the stack. */
  lemma SegmentIsScc(g: Graph, gray: set<string>, node: string, m: nat, s: Search)
    requires Inv(g, gray + {node}, s)
    requires m < |s.stack| && s.stack[m] == node && gray <= Elems(s.stack[..m])
    requires forall y :: Edge(g, node, y) ==> y in s.index
    requires LowBounds(g, s.index[node], s.stack[m..], s.stack[..m], s)
    ensures IsScc(g, Elems(s.stack[m..]))
  {
    var c := Elems(s.stack[m..]);
    assert node in s.stack[m..];
    forall x | x in c
      ensures Reach(g, x, node) && Reach(g, node, x)
    {
      var j :| m <= j < |s.stack| && s.stack[j] == x;
      SegmentMutual(g, gray, node, m, s, j);
    }
    forall x, y | x in c && y in c
      ensures Reach(g, x, y)
    {
      ReachTrans(g, x, node, y);
    }
    SegmentClosed(g, gray, node, m, s);
    SplitStack(s, m);
    forall x, y | x in c && Reach(g, x, y) && Reach(g, y, x)
      ensures y in c
    {
      ReachStaysIn(g, Done(s) + c, x, y);
      if y in Done(s) {
        ReachStaysIn(g, Done(s), y, x);
      }
    }
  }

  lemma PopKeepsStackReach(g: Graph, gray: set<string>, node: string, m: nat, s: Search)
    requires NoDup(s.stack) && StackReach(g, gray + {node}, s)
    requires m < |s.stack| && s.stack[m] == node
    ensures StackReach(g, gray, Pop(s, m))
  {
    var t := Pop(s, m);
    forall j | 0 <= j < |t.stack|
      ensures ReachesGray(g, gray, t.stack, j)
    {
      assert ReachesGray(g, gray + {node}, s.stack, j);
      var i :| 0 <= i <= j && s.stack[i] in gray + {node} && Reach(g, s.stack[j], s.stack[i]);
      assert s.stack[i] != s.stack[m];
      assert t.stack[i] == s.stack[i] && t.stack[j] == s.stack[j];
    }
    forall i, j | 0 <= i <= j < |t.stack| && t.stack[i] in gray
      ensures Reach(g, t.stack[i], t.stack[j])
    {
      assert t.stack[i] == s.stack[i] && t.stack[j] == s.stack[j];
    }
  }

  lemma PopKeepsPopped(g: Graph, s: Search, m: nat)
    requires PoppedAreSccs(g, s) && StackOrdered(s) && m <= |s.stack|
    requires IsScc(g, Elems(s.stack[m..])) && "" !in s.stack[m..]
    ensures PoppedAreSccs(g, Pop(s, m))
    ensures Done(Pop(s, m)) == Done(s) + Elems(s.stack[m..])
  {
    var c := Elems(s.stack[m..]);
    SplitStack(s, m);
    hide StackOrdered, IsScc;
    assert Done(Pop(s, m)) == Done(s) + c;
    assert c in Pop(s, m).sccs;
  }

  lemma PopKeepsOrder(s: Search, m: nat)
    requires StackOrdered(s) && m <= |s.stack|
    ensures StackOrdered(Pop(s, m))
  {
    assert forall x :: x in s.stack[..m] ==> x in s.stack;
  }

  lemma PopKeepsScanned(g: Graph, gray: set<string>, node: string, m: nat, s: Search)
    requires EdgesScanned(g, gray + {node}, s) && m <= |s.stack|
    requires forall y :: Edge(g, node, y) ==> y in s.index
    requires Closed(g, Done(s) + Elems(s.stack[m..]))
    requires Done(Pop(s, m)) == Done(s) + Elems(s.stack[m..])
    ensures EdgesScanned(g, gray, Pop(s, m))
  {
  }

  lemma PopKeepsInv(g: Graph, gray: set<string>, node: string, m: nat, s: Search)
    requires Inv(g, gray + {node}, s)
    requires m < |s.stack| && s.stack[m] == node && gray <= Elems(s.stack[..m])
    requires forall y :: Edge(g, node, y) ==> y in s.index
    requires LowBounds(g, s.index[node], s.stack[m..], s.stack[..m], s)
    requires "" !in s.stack[m..]
    ensures Inv(g, gray, Pop(s, m)) && IsScc(g, Elems(s.stack[m..]))
  {
    SegmentIsScc(g, gray, node, m, s);
    SegmentClosed(g, gray, node, m, s);
    PopKeepsPopped(g, s, m);
    PopKeepsStackReach(g, gray, node, m, s);
    PopKeepsScanned(g, gray, node, m, s);
    PopKeepsOrder(s, m);
  }

  lemma PopComponent(g: Graph, gray: set<string>, node: string, s0: Search, s: Search)
    requires gray <= Elems(s0.stack)
    requires Scanning(g, gray, node, s0, s, |Succ(g, node)|)
    requires s.low[node] == s.index[node]
    requires "" !in s.stack[|s0.stack|..]
    ensures Inv(g, gray, Pop(s, |s0.stack|)) && Visited(g, node, s0, Pop(s, |s0.stack|))
    ensures IsScc(g, Elems(s.stack[|s0.stack|..]))
  {
    var m := |s0.stack|;
    assert s.stack[..m] == s0.stack && s.stack[m] == node;
    SuccessorsScanned(g, node, s0, s);
    hide Inv, IsScc, Visited;
    PopKeepsInv(g, gray, node, m, s);
    PopFinishesVisit(g, node, s0, s);
  }

  lemma PopFinishesVisit(g: Graph, node: string, s0: Search, s: Search)
    requires Links(g, node, s0, s, |Succ(g, node)|) && s.low[node] == s.index[node]
    ensures Visited(g, node, s0, Pop(s, |s0.stack|))
  {
    assert s.stack[..|s0.stack|] == s0.stack;
    assert Pop(s, |s0.stack|).stack[|s0.stack|..] == [];
  }

  lemma SplitStack(s: Search, m: nat)
    requires StackOrdered(s) && m <= |s.stack|
    ensures s.index.Keys - Elems(s.stack[..m]) == Done(s) + Elems(s.stack[m..])
    ensures Elems(s.stack[..m]) !! Elems(s.stack[m..])
    ensures Elems(s.stack) == Elems(s.stack[..m]) + Elems(s.stack[m..])
  {
    assert s.stack == s.stack[..m] + s.stack[m..];
    assert forall x :: x in s.stack <==> x in s.stack[..m] || x in s.stack[m..];
  }
}
