/** `main` of the import-cycle check: the verdict and the witnesses it prints. */
module ImportCycleCheck {
  import opened Common
  import opened Graphs
  import ImportCycles
  import CycleWitness

  datatype Verdict = Clean | Cycles(witnesses: seq<seq<string>>) | Crashed

  ghost predicate ClosedWalkOfScc(g: Graph, w: seq<string>) {
    exists c :: IsScc(g, c) && CycleWitness.SimpleCycle(g, c, w)
  }

  /** For graphs without the empty name: exit 0 exactly when no import cycle exists, and
      otherwise one simple closed walk for each cyclic component, inside that component. */
  method Check(graph: Graph, leq: (string, string) -> bool) returns (v: Verdict)
    requires ValidGraph(graph)
    ensures v.Crashed? <==> "" in Nodes(graph)
    ensures "" !in Nodes(graph) ==> (v.Clean? <==> forall p :: !ClosedWalk(graph, p))
    ensures "" !in Nodes(graph) ==> (v.Clean? <==> Acyclic(graph))
    ensures v.Cycles? ==>
              forall c :: IsScc(graph, c) && Cyclic(graph, c) ==>
                exists i :: 0 <= i < |v.witnesses| && CycleWitness.SimpleCycle(graph, c, v.witnesses[i])
    ensures v.Cycles? ==>
              forall i :: 0 <= i < |v.witnesses| ==> ClosedWalk(graph, v.witnesses[i]) && ClosedWalkOfScc(graph, v.witnesses[i])
  {
    AcyclicIffNoClosedWalk(graph);
    hide ClosedWalk, CycleWitness.SimpleCycle, CycleWitness.CycleFrom, IsScc, Cyclic, Acyclic, NoDup;
    var outcome := ImportCycles.CollectStronglyConnectedComponents(graph, leq);
    if outcome.StackUnderflow? {
      return Crashed;
    }
    var components := outcome.list;
    ImportCycles.EmptyReportIffAcyclic(graph, components);
    if components == [] {
      return Clean;
    }
    var witnesses: seq<seq<string>> := [];
    for i := 0 to |components|
      invariant |witnesses| == i && ImportCycles.ReportsCycles(graph, components)
      invariant forall k :: 0 <= k < i ==> CycleWitness.SimpleCycle(graph, Elems(components[k]), witnesses[k])
    {
      CycleWitness.WitnessNeverFallsThrough(graph, components[i]);
      NamesNonEmpty(graph, components[i]);
      var w := CycleWitness.FindCycleWitness(components[i], graph);
      witnesses := witnesses + [w];
    }
    WitnessesCover(graph, components, witnesses);
    v := Cycles(witnesses);
  }

  lemma WitnessesCover(g: Graph, components: seq<seq<string>>, witnesses: seq<seq<string>>)
    requires ImportCycles.ReportsCycles(g, components) && |witnesses| == |components|
    requires forall k :: 0 <= k < |components| ==> CycleWitness.SimpleCycle(g, Elems(components[k]), witnesses[k])
    ensures forall c :: IsScc(g, c) && Cyclic(g, c) ==>
              exists i :: 0 <= i < |witnesses| && CycleWitness.SimpleCycle(g, c, witnesses[i])
    ensures forall i :: 0 <= i < |witnesses| ==> ClosedWalk(g, witnesses[i]) && ClosedWalkOfScc(g, witnesses[i])
  {
    forall i | 0 <= i < |witnesses| ensures ClosedWalk(g, witnesses[i]) {
      PathIsClosedWalk(g, witnesses[i]);
    }
    forall c | IsScc(g, c) && Cyclic(g, c)
      ensures exists i :: 0 <= i < |witnesses| && CycleWitness.SimpleCycle(g, c, witnesses[i])
    {
      var i :| 0 <= i < |components| && Elems(components[i]) == c;
      assert CycleWitness.SimpleCycle(g, c, witnesses[i]);
    }
  }

  lemma NamesNonEmpty(g: Graph, component: seq<string>)
    requires IsScc(g, Elems(component)) && Cyclic(g, Elems(component)) && "" !in Nodes(g)
    requires component != []
    ensures component[0] != ""
  {
    var x := component[0];
    assert x in Elems(component);
    if y :| y in Elems(component) && y != x {
      ReachInNodes(g, x, y);
    } else {
      EdgeInNodes(g, x, x);
    }
  }
}
