/** The merge of foundation models and inference profiles in `discoverBedrockModels`. */
module BedrockMerge {
  import opened Common
  import opened Sorting

  datatype Cost = Cost(input: int, output: int, cacheRead: int, cacheWrite: int)

  const DEFAULT_COST := Cost(0, 0, 0, 0)

  datatype Model = Model(id: string, name: string, reasoning: bool, input: seq<string>, cost: Cost,
                         contextWindow: int, maxTokens: int)

  /** A profile summary: `providers` are the normalised providers named by its model ARNs,
      `baseModelId` is what `resolveBaseModelId` finds. */
  datatype Profile = Profile(id: string, blankId: bool, name: string, active: bool,
                             providers: seq<string>, baseModelId: Option<string>)

  datatype Defaults = Defaults(contextWindow: int, maxTokens: int)

  /** What the map `foundationModels` holds: the last model with a normalised id. */
  function LastWithId(models: seq<Model>, norm: string -> string, id: string): Option<Model> {
    if models == [] then None
    else if norm(models[|models| - 1].id) == id then Some(models[|models| - 1])
    else LastWithId(models[..|models| - 1], norm, id)
  }

  function IdsOf(models: seq<Model>, norm: string -> string): set<string> {
    set m | m in models :: norm(m.id)
  }

  predicate Wanted(p: Profile, providerFilter: seq<string>) {
    !p.blankId && p.active && (providerFilter == [] || exists i :: 0 <= i < |p.providers| && p.providers[i] in providerFilter)
  }

  /** The capabilities of a profile: those of its foundation model, or the defaults. */
  ghost predicate Inherits(m: Model, p: Profile, foundation: seq<Model>, norm: string -> string, defaults: Defaults) {
    && m.id == p.id && m.name == p.name
    && match (if p.baseModelId.Some? then LastWithId(foundation, norm, norm(p.baseModelId.value)) else None)
       case Some(base) =>
         m.reasoning == base.reasoning && m.input == base.input && m.cost == base.cost
         && m.contextWindow == base.contextWindow && m.maxTokens == base.maxTokens
       case None =>
         !m.reasoning && m.input == ["text"] && m.cost == DEFAULT_COST
         && m.contextWindow == defaults.contextWindow && m.maxTokens == defaults.maxTokens
  }

  /** Apart from its id and name a profile is its foundation model, or the plain default. */
  lemma InheritsAll(m: Model, p: Profile, foundation: seq<Model>, norm: string -> string, defaults: Defaults)
    requires Inherits(m, p, foundation, norm, defaults)
    ensures var base := if p.baseModelId.Some? then LastWithId(foundation, norm, norm(p.baseModelId.value)) else None;
            m == if base.Some? then base.value.(id := p.id, name := p.name)
                 else Model(p.id, p.name, false, ["text"], Cost(0, 0, 0, 0), defaults.contextWindow, defaults.maxTokens)
  {
  }

  function WantedProfiles(profiles: seq<Profile>, providerFilter: seq<string>): seq<Profile> {
    if profiles == [] then []
    else
      var front, last := WantedProfiles(profiles[..|profiles| - 1], providerFilter), profiles[|profiles| - 1];
      if Wanted(last, providerFilter) then front + [last] else front
  }

  /** The wanted profiles are a filter: part by part, and in order. */
  lemma {:induction false} WantedIsFilter(a: seq<Profile>, b: seq<Profile>, providerFilter: seq<string>)
    ensures WantedProfiles(a + b, providerFilter) == WantedProfiles(a, providerFilter) + WantedProfiles(b, providerFilter)
  {
    if b == [] {
      assert a + b == a;
    } else {
      assert (a + b)[..|a + b| - 1] == a + b[..|b| - 1];
      hide Wanted;
      WantedIsFilter(a, b[..|b| - 1], providerFilter);
    }
  }

  /** An active profile with a name of its own, whose models pass the provider filter. */
  ghost predicate Passes(p: Profile, providerFilter: seq<string>) {
    p.active && !p.blankId && (providerFilter == [] || exists provider :: provider in p.providers && provider in providerFilter)
  }

  lemma {:induction false} WantedMembers(profiles: seq<Profile>, providerFilter: seq<string>)
    ensures forall p :: p in WantedProfiles(profiles, providerFilter) <==> p in profiles && Passes(p, providerFilter)
  {
    if profiles != [] {
      var front, last := profiles[..|profiles| - 1], profiles[|profiles| - 1];
      WantedMembers(front, providerFilter);
      assert profiles == front + [last];
      assert Wanted(last, providerFilter) <==> Passes(last, providerFilter);
      hide Wanted, Passes;
    }
  }

  /** The last model of its id, or none when there is no model of that id. */
  lemma {:induction false} LastWithIdIs(models: seq<Model>, norm: string -> string, id: string)
    ensures match LastWithId(models, norm, id)
            case Some(m) => exists i :: 0 <= i < |models| && models[i] == m && norm(m.id) == id
                                        && forall j :: i < j < |models| ==> norm(models[j].id) != id
            case None => forall m :: m in models ==> norm(m.id) != id
  {
    if models != [] {
      var front, last := models[..|models| - 1], models[|models| - 1];
      assert models == front + [last];
      LastWithIdIs(front, norm, id);
      if norm(last.id) == id {
        assert models[|models| - 1] == last;
      } else if LastWithId(front, norm, id).Some? {
        var m := LastWithId(front, norm, id).value;
        var i :| 0 <= i < |front| && front[i] == m && norm(m.id) == id
                 && forall j :: i < j < |front| ==> norm(front[j].id) != id;
        assert models[i] == m;
      }
    }
  }

  /** Nothing costs anything by default. */
  lemma FreeByDefault()
    ensures DEFAULT_COST.input == 0 && DEFAULT_COST.output == 0 && DEFAULT_COST.cacheRead == 0 && DEFAULT_COST.cacheWrite == 0
  {
  }

  /** `resolveInferenceProfiles`: the wanted profiles in order, each with what it inherits. */
  method ResolveInferenceProfiles(profiles: seq<Profile>, defaults: Defaults, providerFilter: seq<string>,
                                  foundation: seq<Model>, norm: string -> string, foundationModels: map<string, Model>)
    returns (discovered: seq<Model>)
    requires forall id :: (if id in foundationModels then Some(foundationModels[id]) else None) == LastWithId(foundation, norm, id)
    ensures var wanted := WantedProfiles(profiles, providerFilter);
            |discovered| == |wanted| && forall i :: 0 <= i < |wanted| ==> Inherits(discovered[i], wanted[i], foundation, norm, defaults)
  {
    discovered := [];
    for n := 0 to |profiles|
      invariant |discovered| == |WantedProfiles(profiles[..n], providerFilter)|
      invariant forall i :: 0 <= i < |discovered| ==>
                  Inherits(discovered[i], WantedProfiles(profiles[..n], providerFilter)[i], foundation, norm, defaults)
    {
      var p := profiles[n];
      assert profiles[..n + 1][..n] == profiles[..n];
      if p.blankId || !p.active {
        continue;
      }
      if |providerFilter| > 0 && !exists i :: 0 <= i < |p.providers| && p.providers[i] in providerFilter {
        continue;
      }
      var base: Option<Model> := None;
      if p.baseModelId.Some? && norm(p.baseModelId.value) in foundationModels {
        base := Some(foundationModels[norm(p.baseModelId.value)]);
      }
      ghost var id := if p.baseModelId.Some? then norm(p.baseModelId.value) else "";
      assert base == if p.baseModelId.Some? then LastWithId(foundation, norm, id) else None;
      discovered := discovered + [
        Model(p.id, p.name,
              if base.Some? then base.value.reasoning else false,
              if base.Some? then base.value.input else ["text"],
              if base.Some? then base.value.cost else DEFAULT_COST,
              if base.Some? then base.value.contextWindow else defaults.contextWindow,
              if base.Some? then base.value.maxTokens else defaults.maxTokens)];
    }
    assert profiles[..|profiles|] == profiles;
  }

  /** `extra` added to `base`: the first of every normalised id that is not there yet. */
  function AddNew(base: seq<Model>, extra: seq<Model>, norm: string -> string): seq<Model> {
    if extra == [] then base
    else
      var front, last := AddNew(base, extra[..|extra| - 1], norm), extra[|extra| - 1];
      if norm(last.id) in IdsOf(front, norm) then front else front + [last]
  }

  lemma {:induction false} AddNewIds(base: seq<Model>, extra: seq<Model>, norm: string -> string)
    ensures base <= AddNew(base, extra, norm)
    ensures IdsOf(AddNew(base, extra, norm), norm) == IdsOf(base, norm) + IdsOf(extra, norm)
  {
    if extra != [] {
      var before, last := extra[..|extra| - 1], extra[|extra| - 1];
      AddNewIds(base, before, norm);
      assert extra == before + [last];
      IdsSnoc(before, last, norm);
      IdsSnoc(AddNew(base, before, norm), last, norm);
    }
  }

  /** What is added comes from `extra`, under ids that neither `base` nor another addition has. */
  lemma {:induction false} AddNewDistinct(base: seq<Model>, extra: seq<Model>, norm: string -> string)
    ensures forall j, i :: |base| <= j < |AddNew(base, extra, norm)| && 0 <= i < j ==>
              norm(AddNew(base, extra, norm)[i].id) != norm(AddNew(base, extra, norm)[j].id)
    ensures forall j :: |base| <= j < |AddNew(base, extra, norm)| ==> AddNew(base, extra, norm)[j] in extra
  {
    if extra != [] {
      var before, last := extra[..|extra| - 1], extra[|extra| - 1];
      AddNewDistinct(base, before, norm);
      var front := AddNew(base, before, norm);
      assert forall i :: 0 <= i < |front| ==> front[i] in front;
    }
  }

  /** The `i`-th of `extra` is `m`, and none before it has its normalised id. */
  ghost predicate FirstOfItsId(extra: seq<Model>, norm: string -> string, i: int, m: Model) {
    0 <= i < |extra| && extra[i] == m && forall k :: 0 <= k < i ==> norm(extra[k].id) != norm(m.id)
  }

  /** Of several additions with one normalised id the first is taken. */
  lemma {:induction false} AddNewFirst(base: seq<Model>, extra: seq<Model>, norm: string -> string, j: nat) returns (i: nat)
    requires |base| <= j < |AddNew(base, extra, norm)|
    ensures FirstOfItsId(extra, norm, i, AddNew(base, extra, norm)[j])
  {
    var before, last := extra[..|extra| - 1], extra[|extra| - 1];
    var front := AddNew(base, before, norm);
    if j < |front| {
      i := AddNewFirst(base, before, norm, j);
    } else {
      AddNewIds(base, before, norm);
      i := |before|;
      forall k | 0 <= k < i ensures norm(extra[k].id) != norm(last.id) {
        assert before[k] in before;
      }
    }
  }

  lemma IdsSnoc(models: seq<Model>, last: Model, norm: string -> string)
    ensures IdsOf(models + [last], norm) == IdsOf(models, norm) + {norm(last.id)}
  {
    assert last in models + [last];
    assert forall m :: m in models + [last] <==> m in models || m == last;
  }

  predicate IsGlobal(id: string) {
    "global." <= id
  }

  /** Cross-region profiles first, then by name. */
  predicate ModelLeq(a: Model, b: Model, nameLeq: (string, string) -> bool) {
    if IsGlobal(a.id) != IsGlobal(b.id) then IsGlobal(a.id) else nameLeq(a.name, b.name)
  }

  function ModelOrder(nameLeq: (string, string) -> bool): (Model, Model) -> bool {
    (a, b) => ModelLeq(a, b, nameLeq)
  }

  /** Ids that start with `global.` come first; within each group the names decide. */
  ghost predicate GlobalFirst(models: seq<Model>, nameLeq: (string, string) -> bool) {
    forall i, j :: 0 <= i < j < |models| ==>
      && ("global." <= models[j].id ==> "global." <= models[i].id)
      && (("global." <= models[i].id <==> "global." <= models[j].id) ==> nameLeq(models[i].name, models[j].name))
  }

  lemma SortedModels(models: seq<Model>, norm: string -> string, nameLeq: (string, string) -> bool)
    ensures var sorted := Sorted(models, ModelOrder(nameLeq));
            && multiset(sorted) == multiset(models) && IdsOf(sorted, norm) == IdsOf(models, norm)
            && (TotalPreorder(nameLeq) ==> GlobalFirst(sorted, nameLeq))
  {
    var sorted := Sorted(models, ModelOrder(nameLeq));
    SortedPermutes(models, ModelOrder(nameLeq));
    if TotalPreorder(nameLeq) {
      ModelLeqTotal(nameLeq);
      SortedIsSorted(models, ModelOrder(nameLeq));
      hide Sorted, TotalPreorder;
      forall i, j | 0 <= i < j < |sorted|
        ensures "global." <= sorted[j].id ==> "global." <= sorted[i].id
        ensures ("global." <= sorted[i].id <==> "global." <= sorted[j].id) ==> nameLeq(sorted[i].name, sorted[j].name)
      {
        assert ModelOrder(nameLeq)(sorted[i], sorted[j]);
      }
    }
  }

  lemma ModelLeqTotal(nameLeq: (string, string) -> bool)
    requires TotalPreorder(nameLeq)
    ensures TotalPreorder(ModelOrder(nameLeq))
  {
  }

  /** Every resolved model is one of a profile that passes, and each such profile has one. */
  lemma ResolvedMembers(profiles: seq<Profile>, providerFilter: seq<string>, foundation: seq<Model>, norm: string -> string,
                        defaults: Defaults, resolved: seq<Model>)
    requires var wanted := WantedProfiles(profiles, providerFilter);
             |resolved| == |wanted| && forall i :: 0 <= i < |wanted| ==> Inherits(resolved[i], wanted[i], foundation, norm, defaults)
    ensures forall p :: p in profiles && Passes(p, providerFilter) ==> exists m :: m in resolved && m.id == p.id && m.name == p.name
    ensures forall m :: m in resolved ==> exists p :: p in profiles && Passes(p, providerFilter) && m.id == p.id && m.name == p.name
  {
    var wanted := WantedProfiles(profiles, providerFilter);
    WantedMembers(profiles, providerFilter);
    hide Passes, WantedProfiles;
    forall p | p in profiles && Passes(p, providerFilter)
      ensures exists m :: m in resolved && m.id == p.id && m.name == p.name
    {
      var i :| 0 <= i < |wanted| && wanted[i] == p;
      assert Inherits(resolved[i], wanted[i], foundation, norm, defaults) && resolved[i] in resolved;
    }
    forall m | m in resolved
      ensures exists p :: p in profiles && Passes(p, providerFilter) && m.id == p.id && m.name == p.name
    {
      var i :| 0 <= i < |resolved| && resolved[i] == m;
      assert Inherits(resolved[i], wanted[i], foundation, norm, defaults) && wanted[i] in wanted;
    }
  }

  /** The result, as a permutation of the foundation models followed by the profiles whose
      normalised id is new, in an order that puts `global.` ids first. */
  method MergeModels(foundation: seq<Model>, profiles: seq<Profile>, defaults: Defaults, providerFilter: seq<string>,
                     norm: string -> string, nameLeq: (string, string) -> bool)
    returns (models: seq<Model>, ghost resolved: seq<Model>)
    ensures var wanted := WantedProfiles(profiles, providerFilter);
            |resolved| == |wanted| && forall i :: 0 <= i < |wanted| ==> Inherits(resolved[i], wanted[i], foundation, norm, defaults)
    ensures multiset(models) == multiset(AddNew(foundation, resolved, norm))
    ensures IdsOf(models, norm) == IdsOf(foundation, norm) + IdsOf(resolved, norm)
    ensures TotalPreorder(nameLeq) ==> GlobalFirst(models, nameLeq)
    ensures forall p :: p in profiles && Passes(p, providerFilter) ==> exists m :: m in resolved && m.id == p.id && m.name == p.name
    ensures forall m :: m in resolved ==> exists p :: p in profiles && Passes(p, providerFilter) && m.id == p.id && m.name == p.name
  {
    hide Passes, GlobalFirst, TotalPreorder, Inherits, WantedProfiles;
    var discovered: seq<Model> := [];
    var seenIds: set<string> := {};
    var foundationModels: map<string, Model> := map[];
    for n := 0 to |foundation|
      invariant discovered == foundation[..n] && seenIds == IdsOf(foundation[..n], norm)
      invariant forall id :: (if id in foundationModels then Some(foundationModels[id]) else None)
                             == LastWithId(foundation[..n], norm, id)
    {
      var def := foundation[n];
      assert foundation[..n + 1] == foundation[..n] + [def];
      assert foundation[..n + 1][..n] == foundation[..n];
      IdsSnoc(foundation[..n], def, norm);
      discovered := discovered + [def];
      seenIds := seenIds + {norm(def.id)};
      foundationModels := foundationModels[norm(def.id) := def];
    }
    assert foundation[..|foundation|] == foundation;
    var inferenceProfiles := ResolveInferenceProfiles(profiles, defaults, providerFilter, foundation, norm, foundationModels);
    resolved := inferenceProfiles;
    for n := 0 to |inferenceProfiles|
      invariant discovered == AddNew(foundation, inferenceProfiles[..n], norm) && seenIds == IdsOf(discovered, norm)
    {
      var profile := inferenceProfiles[n];
      assert inferenceProfiles[..n + 1][..n] == inferenceProfiles[..n];
      if norm(profile.id) !in seenIds {
        IdsSnoc(discovered, profile, norm);
        discovered := discovered + [profile];
        seenIds := seenIds + {norm(profile.id)};
      }
    }
    assert inferenceProfiles[..|inferenceProfiles|] == inferenceProfiles;
    AddNewIds(foundation, resolved, norm);
    ResolvedMembers(profiles, providerFilter, foundation, norm, defaults, resolved);
    models := Sorted(discovered, ModelOrder(nameLeq));
    SortedModels(discovered, norm, nameLeq);
  }
}
