/** `collectStronglyConnectedComponents`: Tarjan's algorithm over mutable fields. */
module ImportCycles {
  import opened Common
  import opened Graphs
  import opened TarjanInvariant
  import opened Sorting

  datatype Outcome = Components(list: seq<seq<string>>) | StackUnderflow

  /** The reported list, as node sets: exactly the cyclic ones among `sccs`, once each. */
  ghost predicate Lists(g: Graph, components: seq<seq<string>>, sccs: set<set<string>>) {
    && (forall i :: 0 <= i < |components| ==>
          NoDup(components[i]) && Elems(components[i]) in sccs && Cyclic(g, Elems(components[i])))
    && (forall c :: c in sccs && Cyclic(g, c) ==> exists i :: 0 <= i < |components| && Elems(components[i]) == c)
    && (forall i, j :: 0 <= i < j < |components| ==> Elems(components[i]) != Elems(components[j]))
  }

  lemma ListsAdds(g: Graph, components: seq<seq<string>>, sccs: set<set<string>>, c: seq<string>)
    requires Lists(g, components, sccs) && Elems(c) !in sccs && NoDup(c) && Cyclic(g, Elems(c))
    ensures Lists(g, components + [c], sccs + {Elems(c)})
  {
    var l := components + [c];
    assert l[|components|] == c;
    forall d | d in sccs + {Elems(c)} && Cyclic(g, d)
      ensures exists i :: 0 <= i < |l| && Elems(l[i]) == d
    {
      if d in sccs {
        var i :| 0 <= i < |components| && Elems(components[i]) == d;
        assert l[i] == components[i];
      }
    }
  }

  lemma ListsSkips(g: Graph, components: seq<seq<string>>, sccs: set<set<string>>, c: set<string>)
    requires Lists(g, components, sccs) && !Cyclic(g, c)
    ensures Lists(g, components, sccs + {c})
  {
  }

  ghost predicate EachSorted(components: seq<seq<string>>, leq: (string, string) -> bool) {
    TotalPreorder(leq) ==> forall c :: c in components ==> SortedBy(c, leq)
  }

  lemma EachSortedAdds(components: seq<seq<string>>, c: seq<string>, leq: (string, string) -> bool)
    requires EachSorted(components, leq)
    ensures EachSorted(components + [Sorted(c, leq)], leq)
  {
    if TotalPreorder(leq) { SortedIsSorted(c, leq); }
  }

  /** The nodes popped off the stack, last pushed first. */
  function Reversed(s: seq<string>): (r: seq<string>)
    ensures |r| == |s|
    ensures forall k :: 0 <= k < |s| ==> r[k] == s[|s| - 1 - k]
  {
    if s == [] then [] else Reversed(s[1..]) + [s[0]]
  }

  lemma ReversedNoDup(s: seq<string>)
    requires NoDup(s)
    ensures NoDup(Reversed(s)) && Elems(Reversed(s)) == Elems(s)
  {
    var r := Reversed(s);
    forall x | x in s ensures x in r {
      var k :| 0 <= k < |s| && s[k] == x;
      assert r[|s| - 1 - k] == x;
    }
  }

  lemma ReversedSnoc(s: seq<string>, x: string)
    ensures Reversed([x] + s) == Reversed(s) + [x]
  {
    assert ([x] + s)[1..] == s;
  }

  /** One pop, with `s[..k]` left on the stack. */
  lemma PopOne(s: seq<string>, k: nat)
    requires NoDup(s) && k < |s|
    ensures Elems(s[..k]) == Elems(s[..k + 1]) - {s[k]}
    ensures Reversed(s[k..]) == Reversed(s[k + 1..]) + [s[k]]
    ensures "" !in s[k..] <==> s[k] != "" && "" !in s[k + 1..]
  {
    assert s[..k + 1] == s[..k] + [s[k]];
    assert s[k..] == [s[k]] + s[k + 1..];
    ReversedSnoc(s[k + 1..], s[k]);
  }

  class ComponentSearch {
    const graph: Graph
    const leq: (string, string) -> bool
    var nextIndex: nat
    var stack: seq<string>
    var onStack: set<string>
    var indexByNode: map<string, nat>
    var lowLinkByNode: map<string, nat>
    var components: seq<seq<string>>
    ghost var sccs: set<set<string>>

    constructor (graph: Graph, leq: (string, string) -> bool)
      ensures this.graph == graph && this.leq == leq
      ensures Now() == Search(0, [], map[], map[], {}) && Valid() && components == []
    {
      this.graph, this.leq := graph, leq;
      nextIndex, stack, onStack := 0, [], {};
      indexByNode, lowLinkByNode := map[], map[];
      components, sccs := [], {};
    }

    ghost function Now(): Search
      reads this
    {
      Search(nextIndex, stack, indexByNode, lowLinkByNode, sccs)
    }

    /** The redundant views of the state agree, and `components` is what was popped so far. */
    ghost predicate Valid()
      reads this
    {
      && onStack == Elems(stack) && indexByNode.Keys == lowLinkByNode.Keys
      && Lists(graph, components, sccs) && EachSorted(components, leq)
    }

    method Push(node: string)
      requires Valid() && node !in indexByNode
      modifies `indexByNode, `lowLinkByNode, `nextIndex, `stack, `onStack
      ensures Valid() && Now() == Enter(old(Now()), node)
    {
      indexByNode := indexByNode[node := nextIndex];
      lowLinkByNode := lowLinkByNode[node := nextIndex];
      nextIndex := nextIndex + 1;
      stack := stack + [node];
      onStack := onStack + {node};
    }

    method LowerLink(node: string, bound: nat)
      requires Valid() && node in lowLinkByNode
      modifies `lowLinkByNode
      ensures Valid() && Now() == Lower(old(Now()), node, bound)
    {
      lowLinkByNode := lowLinkByNode[node := Min(lowLinkByNode[node], bound)];
    }

    /** `const visit = (node) => …`. The result is false where the original throws
        "Import cycle stack underflow"; `gray` names the visits in progress. */
    method Visit(node: string, ghost gray: set<string>) returns (ok: bool)
      requires Valid() && Inv(graph, gray, Now())
      requires node in Nodes(graph) && node !in indexByNode
      requires forall x :: x in gray ==> Reach(graph, x, node)
      modifies this
      ensures ok ==> Valid() && Inv(graph, gray, Now()) && Visited(graph, node, old(Now()), Now())
      ensures !ok ==> "" in Nodes(graph)
      decreases Nodes(graph) - indexByNode.Keys, 0
    {
      ghost var s0 := Now();
      assert gray <= Elems(s0.stack) && node !in s0.stack;
      hide Inv, Visited, Done, StackOrdered, Links, Scanning, Lists, EachSorted, Nodes, Reach;
      EnterScans(graph, gray, node, s0);
      Push(node);

      ok := ScanSuccessors(node, gray, s0);
      if !ok {
        return;
      }
      ok := Finish(node, gray, s0);
    }

    /** The loop over `graph.get(node)`. */
    method ScanSuccessors(node: string, ghost gray: set<string>, ghost s0: Search) returns (ok: bool)
      requires Valid() && Scanning(graph, gray, node, s0, Now(), 0)
      requires node !in s0.index && node !in s0.low
      requires forall x :: x in gray ==> Reach(graph, x, node)
      modifies this
      ensures ok ==> Valid() && Scanning(graph, gray, node, s0, Now(), |Succ(graph, node)|)
      ensures !ok ==> "" in Nodes(graph)
      decreases Nodes(graph) - s0.index.Keys - {node}, 2
    {
      hide Inv, Visited, Scanning, Lists, EachSorted, Nodes, Reach;
      var successors := Succ(graph, node);
      for i := 0 to |successors|
        invariant Valid() && Scanning(graph, gray, node, s0, Now(), i)
      {
        ok := ScanSuccessor(node, i, gray, s0);
        if !ok {
          return;
        }
      }
      ok := true;
    }

    /** One iteration of the loop over `graph.get(node)`. */
    method ScanSuccessor(node: string, i: nat, ghost gray: set<string>, ghost s0: Search) returns (ok: bool)
      requires i < |Succ(graph, node)|
      requires Valid() && Scanning(graph, gray, node, s0, Now(), i)
      requires node !in s0.index && node !in s0.low
      requires forall x :: x in gray ==> Reach(graph, x, node)
      modifies this
      ensures ok ==> Valid() && Scanning(graph, gray, node, s0, Now(), i + 1)
      ensures !ok ==> "" in Nodes(graph)
      decreases Nodes(graph) - s0.index.Keys - {node}, 1
    {
      hide Inv, Visited, Done, StackOrdered, Links, Scanning, Lists, EachSorted, Nodes, Reach;
      ghost var s := Now();
      ScanFacts(graph, gray, node, s0, s, i);
      var next := Succ(graph, node)[i];
      ok := true;
      if next !in indexByNode {
        GrayReachesNext(graph, gray, node, next);
        ok := Visit(next, gray + {node});
        if ok {
          AfterTreeVisit(graph, gray, node, s0, s, i, Now());
          LowerLink(node, lowLinkByNode[next]);
        }
      } else if next in onStack {
        AfterVisitedEdge(graph, gray, node, s0, s, i);
        LowerLink(node, indexByNode[next]);
      } else {
        AfterVisitedEdge(graph, gray, node, s0, s, i);
      }
    }

    /** What a visit does once its successors are scanned. */
    method Finish(node: string, ghost gray: set<string>, ghost s0: Search) returns (ok: bool)
      requires Valid() && gray <= Elems(s0.stack) && node !in s0.stack
      requires Scanning(graph, gray, node, s0, Now(), |Succ(graph, node)|)
      modifies this
      ensures ok ==> Valid() && Inv(graph, gray, Now()) && Visited(graph, node, s0, Now())
      ensures !ok ==> "" in Nodes(graph)
    {
      hide Inv, Visited, Links, Scanning, Lists, EachSorted, Nodes, Reach;
      ScanFacts(graph, gray, node, s0, Now(), |Succ(graph, node)|);
      if lowLinkByNode[node] != indexByNode[node] {
        LeaveOnStack(graph, gray, node, s0, Now());
        return true;
      }
      ghost var s := Now();
      assert s.stack[|s0.stack|] == node;
      var component: seq<string>;
      ok, component := PopSegment(node, |s0.stack|);
      if ok {
        Report(node, component, gray, s0, s);
      } else {
        assert "" in s.stack;
      }
    }

    /** The `do … while (current !== node)` loop. It stops early on an empty name,
        which the original takes for an exhausted stack; that the stack itself is
        never exhausted is part of the proof. */
    method PopSegment(node: string, ghost m: nat) returns (ok: bool, component: seq<string>)
      requires m < |stack| && stack[m] == node && onStack == Elems(stack)
      requires NoDup(stack)
      modifies `stack, `onStack
      ensures ok ==> stack == old(stack[..m]) && component == Reversed(old(stack[m..]))
      ensures ok ==> onStack == Elems(stack)
      ensures ok <==> "" !in old(stack[m..])
    {
      ghost var all := stack;
      assert forall k :: m < k < |all| ==> all[k] != all[m];
      hide NoDup, Elems, Reversed;
      component := [];
      var current := "";
      var more := true;
      while more
        invariant m <= |stack| <= |all| && stack == all[..|stack|]
        invariant component == Reversed(all[|stack|..])
        invariant onStack == Elems(stack)
        invariant "" !in all[|stack|..]
        invariant more <==> m < |stack|
        decreases |stack|
      {
        ghost var k := |stack| - 1;
        current := stack[|stack| - 1];
        PopOne(all, k);
        if current == "" {
          assert all[m..][k - m] == "";
          return false, component;
        }
        stack := stack[..|stack| - 1];
        onStack := onStack - {current};
        component := component + [current];
        more := current != node;
      }
      ok := true;
    }

    /** The report of a popped component, when it is a cycle. */
    method Report(node: string, component: seq<string>, ghost gray: set<string>, ghost s0: Search, ghost s: Search)
      requires gray <= Elems(s0.stack)
      requires Scanning(graph, gray, node, s0, s, |Succ(graph, node)|) && s.low[node] == s.index[node]
      requires stack == s0.stack && Now() == s.(stack := s.stack[..|s0.stack|])
      requires component == Reversed(s.stack[|s0.stack|..]) && "" !in s.stack[|s0.stack|..]
      requires Valid()
      modifies `components, `sccs
      ensures Valid() && Inv(graph, gray, Now()) && Visited(graph, node, s0, Now())
    {
      hide Inv, Visited, Scanning, Lists, EachSorted, Nodes, Reach;
      ghost var m := |s0.stack|;
      ScanFacts(graph, gray, node, s0, s, |Succ(graph, node)|);
      PopComponent(graph, gray, node, s0, s);
      ReportKeepsLists(graph, gray + {node}, s, m, node, component, components, leq);
      if |component| > 1 || node in Succ(graph, node) {
        EachSortedAdds(components, component, leq);
        components := components + [Sorted(component, leq)];
      }
      sccs := sccs + {Elems(component)};
      assert Now() == Pop(s, m);
    }
  }

  lemma SortedComponent(component: seq<string>, leq: (string, string) -> bool)
    requires NoDup(component)
    ensures NoDup(Sorted(component, leq)) && Elems(Sorted(component, leq)) == Elems(component)
  {
    SortedPermutes(component, leq);
    NoDupPermuted(component, Sorted(component, leq));
  }

  lemma ReportKeepsLists(g: Graph, gray: set<string>, s: Search, m: nat, node: string, component: seq<string>,
                         components: seq<seq<string>>, leq: (string, string) -> bool)
    requires Inv(g, gray, s) && m < |s.stack| && s.stack[m] == node
    requires component == Reversed(s.stack[m..]) && Lists(g, components, s.sccs)
    ensures Elems(component) == Elems(s.stack[m..])
    ensures |component| > 1 || node in Succ(g, node) ==>
              Lists(g, components + [Sorted(component, leq)], s.sccs + {Elems(component)})
    ensures !(|component| > 1 || node in Succ(g, node)) ==> Lists(g, components, s.sccs + {Elems(component)})
  {
    ComponentIsSegment(g, gray, s, m, node, component);
    if |component| > 1 || node in Succ(g, node) {
      SortedComponent(component, leq);
      ListsAdds(g, components, s.sccs, Sorted(component, leq));
    } else {
      ListsSkips(g, components, s.sccs, Elems(component));
    }
  }

  lemma ComponentIsSegment(g: Graph, gray: set<string>, s: Search, m: nat, node: string, component: seq<string>)
    requires Inv(g, gray, s) && m < |s.stack| && s.stack[m] == node
    requires component == Reversed(s.stack[m..])
    ensures NoDup(component) && Elems(component) == Elems(s.stack[m..])
    ensures Elems(component) !in s.sccs
    ensures Cyclic(g, Elems(component)) <==> |component| > 1 || Edge(g, node, node)
  {
    ReversedNoDup(s.stack[m..]);
    assert s.stack[m..][0] == node;
    assert node in Elems(component) && node !in Done(s);
    var c := Elems(component);
    if |component| > 1 {
      assert component[0] in c && component[1] in c && component[0] != component[1];
    } else {
      assert component == [node];
      assert c == {node};
    }
  }

  lemma GrayReachesNext(g: Graph, gray: set<string>, node: string, next: string)
    requires forall x :: x in gray ==> Reach(g, x, node)
    requires Edge(g, node, next)
    ensures forall x :: x in gray + {node} ==> Reach(g, x, next)
    ensures next in Nodes(g)
  {
    EdgeInNodes(g, node, next);
    ReachRefl(g, node);
    forall x | x in gray + {node} ensures Reach(g, x, next) {
      ReachThenEdge(g, x, node, next);
    }
  }

  // ----- the whole pass -----

  /** `files.toSorted(…).join("\n")` */
  function CycleSignature(files: seq<string>, leq: (string, string) -> bool): string {
    JoinLines(Sorted(files, leq))
  }

  function JoinLines(lines: seq<string>): string {
    if |lines| == 0 then "" else if |lines| == 1 then lines[0] else lines[0] + "\n" + JoinLines(lines[1..])
  }

  /** Longer components first, then by signature. */
  predicate ComponentLeq(a: seq<string>, b: seq<string>, leq: (string, string) -> bool) {
    |a| > |b| || (|a| == |b| && leq(CycleSignature(a, leq), CycleSignature(b, leq)))
  }

  function LongerFirst(leq: (string, string) -> bool): (seq<string>, seq<string>) -> bool {
    (a, b) => ComponentLeq(a, b, leq)
  }

  lemma ComponentLeqTotal(leq: (string, string) -> bool)
    requires TotalPreorder(leq)
    ensures TotalPreorder(LongerFirst(leq))
  {
  }

  /** Exactly the cyclic strongly connected components, each listed once, none overlapping. */
  ghost predicate ReportsCycles(g: Graph, list: seq<seq<string>>) {
    && (forall i :: 0 <= i < |list| ==> NoDup(list[i]) && IsScc(g, Elems(list[i])) && Cyclic(g, Elems(list[i])))
    && (forall c :: IsScc(g, c) && Cyclic(g, c) ==> exists i :: 0 <= i < |list| && Elems(list[i]) == c)
    && (forall i, j :: 0 <= i < j < |list| ==> Elems(list[i]) !! Elems(list[j]))
  }

  /** With no visit in progress every visited node is in a popped component. */
  lemma IdleMeansDone(g: Graph, s: Search)
    requires Inv(g, {}, s)
    ensures s.stack == [] && Done(s) == s.index.Keys
  {
    assert |s.stack| > 0 ==> ReachesGray(g, {}, s.stack, 0);
  }

  lemma KeysCoverNodes(g: Graph, s: Search)
    requires ValidGraph(g) && Inv(g, {}, s)
    requires forall k :: 0 <= k < |g.keys| ==> g.keys[k] in s.index
    ensures Done(s) == Nodes(g)
  {
    IdleMeansDone(g, s);
    forall x | x in Nodes(g)
      ensures x in s.index
    {
      if x in g.succ {
        assert x in g.keys;
      } else {
        var k :| k in g.succ && x in g.succ[k];
        assert k in g.keys;
        assert Edge(g, k, x);
      }
    }
  }

  lemma PoppedListIsReport(g: Graph, s: Search, list: seq<seq<string>>)
    requires Inv(g, {}, s) && Done(s) == Nodes(g) && Lists(g, list, s.sccs)
    ensures ReportsCycles(g, list)
  {
    forall c | IsScc(g, c) && Cyclic(g, c)
      ensures c in s.sccs
    {
      var x := CyclicMember(g, c);
      var d :| d in s.sccs && x in d;
      SccsOverlapOnlyIfEqual(g, c, d, x);
    }
    forall i, j | 0 <= i < j < |list|
      ensures Elems(list[i]) !! Elems(list[j])
    {
      if x :| x in Elems(list[i]) && x in Elems(list[j]) {
        SccsOverlapOnlyIfEqual(g, Elems(list[i]), Elems(list[j]), x);
      }
    }
  }

  lemma CyclicMember(g: Graph, c: set<string>) returns (x: string)
    requires IsScc(g, c) && Cyclic(g, c)
    ensures x in c && x in Nodes(g)
  {
    if y, z :| y in c && z in c && y != z {
      x := y;
      ReachInNodes(g, y, z);
    } else {
      x :| x in c && Edge(g, x, x);
      EdgeInNodes(g, x, x);
    }
  }

  lemma {:induction false} PairwiseDisjointAfterInsert(x: seq<string>, s: seq<seq<string>>,
                                                      leq: (seq<string>, seq<string>) -> bool)
    requires forall i, j :: 0 <= i < j < |s| ==> Elems(s[i]) !! Elems(s[j])
    requires forall i :: 0 <= i < |s| ==> Elems(x) !! Elems(s[i])
    ensures forall i, j :: 0 <= i < j < |Insert(x, s, leq)| ==> Elems(Insert(x, s, leq)[i]) !! Elems(Insert(x, s, leq)[j])
  {
    if s != [] && !leq(x, s[0]) {
      PairwiseDisjointAfterInsert(x, s[1..], leq);
      InsertPermutes(x, s[1..], leq);
      var t := Insert(x, s[1..], leq);
      forall j | 0 <= j < |t|
        ensures Elems(s[0]) !! Elems(t[j])
      {
        assert t[j] in multiset(t);
        assert t[j] in multiset([x] + s[1..]);
        assert t[j] == x || t[j] in s[1..];
      }
    }
  }

  lemma {:induction false} SortingKeepsDisjoint(s: seq<seq<string>>, leq: (seq<string>, seq<string>) -> bool)
    requires forall i, j :: 0 <= i < j < |s| ==> Elems(s[i]) !! Elems(s[j])
    ensures forall i, j :: 0 <= i < j < |Sorted(s, leq)| ==> Elems(Sorted(s, leq)[i]) !! Elems(Sorted(s, leq)[j])
  {
    if s != [] {
      SortingKeepsDisjoint(s[1..], leq);
      SortedPermutes(s[1..], leq);
      forall i | 0 <= i < |Sorted(s[1..], leq)|
        ensures Elems(s[0]) !! Elems(Sorted(s[1..], leq)[i])
      {
        assert Sorted(s[1..], leq)[i] in s[1..];
      }
      PairwiseDisjointAfterInsert(s[0], Sorted(s[1..], leq), leq);
    }
  }

  lemma SortingKeepsReport(g: Graph, list: seq<seq<string>>, leq: (seq<string>, seq<string>) -> bool)
    requires ReportsCycles(g, list)
    ensures ReportsCycles(g, Sorted(list, leq))
  {
    var t := Sorted(list, leq);
    SortedPermutes(list, leq);
    SortingKeepsDisjoint(list, leq);
    forall i | 0 <= i < |t|
      ensures NoDup(t[i]) && IsScc(g, Elems(t[i])) && Cyclic(g, Elems(t[i]))
    {
      assert t[i] in list;
    }
    forall c | IsScc(g, c) && Cyclic(g, c)
      ensures exists i :: 0 <= i < |t| && Elems(t[i]) == c
    {
      var i :| 0 <= i < |list| && Elems(list[i]) == c;
      assert list[i] in t;
    }
  }

  /** Longer components come first, then the joined lines decide, and each component is sorted. */
  ghost predicate InOrder(list: seq<seq<string>>, leq: (string, string) -> bool) {
    && (forall i, j :: 0 <= i < j < |list| ==> |list[i]| >= |list[j]|)
    && (forall i, j :: 0 <= i < j < |list| && |list[i]| == |list[j]| ==> leq(JoinLines(list[i]), JoinLines(list[j])))
    && (forall c :: c in list ==> SortedBy(c, leq))
  }

  /** Lines are joined by line breaks, and by nothing else. */
  lemma {:induction false} JoinLinesAppend(a: seq<string>, b: seq<string>)
    requires a != [] && b != []
    ensures JoinLines(a + b) == JoinLines(a) + "\n" + JoinLines(b)
    ensures |a| == 1 ==> JoinLines(a) == a[0]
  {
    assert (a + b)[1..] == a[1..] + b;
    if |a| > 1 {
      JoinLinesAppend(a[1..], b);
      assert a[0] + "\n" + (JoinLines(a[1..]) + "\n" + JoinLines(b)) == a[0] + "\n" + JoinLines(a[1..]) + "\n" + JoinLines(b);
    }
  }

  lemma SortedComponentsInOrder(list: seq<seq<string>>, leq: (string, string) -> bool)
    requires TotalPreorder(leq) && SortedBy(list, LongerFirst(leq)) && forall c :: c in list ==> SortedBy(c, leq)
    ensures InOrder(list, leq)
  {
    forall i | 0 <= i < |list| ensures CycleSignature(list[i], leq) == JoinLines(list[i]) {
      SortedStays(list[i], leq);
    }
  }

  lemma SortedListInOrder(list: seq<seq<string>>, leq: (string, string) -> bool)
    requires TotalPreorder(leq) && EachSorted(list, leq)
    ensures InOrder(Sorted(list, LongerFirst(leq)), leq)
  {
    ComponentLeqTotal(leq);
    SortedIsSorted(list, LongerFirst(leq));
    SortedPermutes(list, LongerFirst(leq));
    hide TotalPreorder, Sorted, InOrder, ComponentLeq;
    SortedComponentsInOrder(Sorted(list, LongerFirst(leq)), leq);
  }

  /** What is returned once every key has been visited. */
  lemma SortedListIsReport(g: Graph, s: Search, list: seq<seq<string>>, leq: (string, string) -> bool)
    requires ValidGraph(g) && Inv(g, {}, s) && Lists(g, list, s.sccs) && EachSorted(list, leq)
    requires forall k :: 0 <= k < |g.keys| ==> g.keys[k] in s.index
    ensures "" !in Nodes(g) && ReportsCycles(g, Sorted(list, LongerFirst(leq)))
    ensures TotalPreorder(leq) ==> InOrder(Sorted(list, LongerFirst(leq)), leq)
  {
    KeysCoverNodes(g, s);
    PoppedListIsReport(g, s, list);
    SortingKeepsReport(g, list, LongerFirst(leq));
    if TotalPreorder(leq) {
      SortedListInOrder(list, leq);
    }
  }

  lemma KeyIsNode(g: Graph, i: nat)
    requires ValidGraph(g) && i < |g.keys|
    ensures g.keys[i] in Nodes(g)
  {
    assert g.keys[i] in g.keys;
  }

  /** For every graph: the components are exactly the cyclic strongly connected ones,
      and the throw happens exactly when the empty name is a node. */
  method CollectStronglyConnectedComponents(graph: Graph, leq: (string, string) -> bool) returns (r: Outcome)
    requires ValidGraph(graph)
    ensures r.StackUnderflow? <==> "" in Nodes(graph)
    ensures r.Components? ==> ReportsCycles(graph, r.list)
    ensures r.Components? && TotalPreorder(leq) ==> InOrder(r.list, leq)
  {
    hide Inv, Visited, Lists, EachSorted, Nodes, Reach, ReportsCycles, InOrder;
    var search := new ComponentSearch(graph, leq);
    NothingVisited(graph);
    var ok := true;
    for i := 0 to |graph.keys|
      invariant fresh(search) && search.graph == graph && search.leq == leq
      invariant search.Valid() && Inv(graph, {}, search.Now())
      invariant forall k :: 0 <= k < i ==> graph.keys[k] in search.indexByNode
    {
      if graph.keys[i] !in search.indexByNode {
        ghost var before := search.Now();
        KeyIsNode(graph, i);
        ok := search.Visit(graph.keys[i], {});
        if !ok {
          return StackUnderflow;
        }
        VisitedGrows(graph, graph.keys[i], before, search.Now());
      }
    }
    SortedListIsReport(graph, search.Now(), search.components, leq);
    r := Components(Sorted(search.components, LongerFirst(leq)));
  }

  /** The verdict `components.length === 0`: no report exactly when no import cycle exists. */
  lemma EmptyReportIffAcyclic(g: Graph, list: seq<seq<string>>)
    requires ReportsCycles(g, list)
    ensures list == [] <==> Acyclic(g)
  {
    AcyclicIffNoCyclicScc(g);
    if list != [] {
      assert IsScc(g, Elems(list[0])) && Cyclic(g, Elems(list[0]));
    }
  }
}
