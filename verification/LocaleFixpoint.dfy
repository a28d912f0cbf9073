/** The exact condition under which sync is a fixpoint: the source keys round-trip. */
module LocaleFixpoint {
  import opened Common
  import opened Sorting
  import opened DottedKeys
  import opened TranslationTree
  import opened TranslateRetry
  import opened LocaleReconcile
  import opened LocaleSync

  /** One run that got as far as a plan: what it read, decided and was answered. */
  datatype SyncRun = SyncRun(inp: Inputs, plan: Plan, oracle: int -> Outcome, start: int, now: int)

  ghost predicate RunsOn(files: Files, source: seq<Entry>, env: Env, r: SyncRun) {
    ReadFrom(files, r.inp) && r.plan.Plan? && Reconciled(env, r.inp, source, r.oracle, r.start, r.now, r.plan)
  }

  /** The files after a writing run. */
  ghost function After(files: Files, source: seq<Entry>, sourceHash: string, env: Env, leq: (string, string) -> bool,
                       r: SyncRun): Files
    requires r.plan.Plan?
  {
    Expected(files, source, sourceHash, env, r.now, leq, r.plan)
  }

  /** Whatever the files and the settings, a second run finds nothing to change. */
  ghost predicate SyncIsFixpoint(source: seq<Entry>, sourceHash: string, leq: (string, string) -> bool) {
    forall files, env, first, second ::
      CollisionFree(env) && RunsOn(files, source, env, first) &&
      RunsOn(After(files, source, sourceHash, env, leq, first), source, env, second) ==>
        After(After(files, source, sourceHash, env, leq, first), source, sourceHash, env, leq, second)
        == After(files, source, sourceHash, env, leq, first)
  }

  // ----- every plan that a run without a provider can reach -----

  /** A tree has a flattened form, whatever the order of its keys. */
  lemma FlattenedExists(t: Tree) returns (flat: map<string, string>)
    ensures Flattened(t, "", map[], flat)
  {
    var keys := set p | p in LeafPaths(t) :: FullKey("", p);
    forall k, v | Writes(t, "", k, v) ensures k in keys {
      var p :| Lookup(t, p) == Some(v) && FullKey("", p) == k;
      LeafPathsAreLookups(t, p);
    }
    forall k | k in keys ensures exists v :: Writes(t, "", k, v) {
      var p :| p in LeafPaths(t) && FullKey("", p) == k;
      LeafPathsAreLookups(t, p);
      assert Writes(t, "", k, Lookup(t, p).value);
    }
    flat := map k | k in keys :: (var v :| Writes(t, "", k, v); v);
  }

  function ValueWithoutProvider(env: Env, inp: Inputs, e: Entry): string {
    match Reuse(env, inp, e) case Some(v) => v case None => e.value
  }

  function ValuesWithoutProvider(env: Env, inp: Inputs, source: seq<Entry>): map<string, string> {
    if source == [] then map[]
    else
      var e := source[|source| - 1];
      ValuesWithoutProvider(env, inp, source[..|source| - 1])[e.key := ValueWithoutProvider(env, inp, e)]
  }

  function FallbacksWithoutProvider(env: Env, inp: Inputs, source: seq<Entry>): seq<string> {
    if source == [] then []
    else
      var front, e := FallbacksWithoutProvider(env, inp, source[..|source| - 1]), source[|source| - 1];
      if Reuse(env, inp, e).None? || e.key in inp.previousFallback then front + [e.key] else front
  }

  lemma {:induction false} WithoutProviderFacts(env: Env, inp: Inputs, source: seq<Entry>)
    requires DistinctKeys(source)
    ensures ValuesWithoutProvider(env, inp, source).Keys == KeysOf(source)
    ensures forall e :: e in source ==> e.key in ValuesWithoutProvider(env, inp, source)
                                        && ValuesWithoutProvider(env, inp, source)[e.key] == ValueWithoutProvider(env, inp, e)
    ensures forall k :: k in FallbacksWithoutProvider(env, inp, source) ==> k in KeysOf(source)
    ensures forall e :: e in source ==> (e.key in FallbacksWithoutProvider(env, inp, source) <==>
              Reuse(env, inp, e).None? || e.key in inp.previousFallback)
  {
    if source != [] {
      LastKeyIsNew(source);
      WithoutProviderFacts(env, inp, source[..|source| - 1]);
      hide Reuse, ValueWithoutProvider;
      assert KeysOf(source) == KeysOf(source[..|source| - 1]) + {source[|source| - 1].key};
    }
  }

  lemma RunExists(files: Files, source: seq<Entry>, env: Env) returns (r: SyncRun)
    requires DistinctKeys(source) && !env.allowTranslate
    ensures RunsOn(files, source, env, r)
  {
    var existing := FlattenedExists(LoadedTree(files));
    var inp := Inputs(LoadedMemory(files), existing, PreviousFallback(files.meta));
    WithoutProviderFacts(env, inp, source);
    var plan := Plan(ValuesWithoutProvider(env, inp, source), FallbacksWithoutProvider(env, inp, source), inp.tm, 0);
    r := SyncRun(inp, plan, _ => Failed(""), 0, 0);
    hide Reuse, Flattened;
    forall e | e in source ensures Decided(env, inp, r.oracle, 0, 0, e, plan) {
      assert plan.nextFlat[e.key] == ValueWithoutProvider(env, inp, e);
    }
  }

  // ----- files from which a source that does not round-trip takes two runs -----

  function ValuesOf(source: seq<Entry>): map<string, string> {
    if source == [] then map[]
    else ValuesOf(source[..|source| - 1])[source[|source| - 1].key := source[|source| - 1].value]
  }

  lemma {:induction false} ValuesOfFacts(source: seq<Entry>)
    requires DistinctKeys(source)
    ensures ValuesOf(source).Keys == KeysOf(source)
    ensures forall e :: e in source ==> e.key in ValuesOf(source) && ValuesOf(source)[e.key] == e.value
  {
    if source != [] {
      LastKeyIsNew(source);
      ValuesOfFacts(source[..|source| - 1]);
      assert KeysOf(source) == KeysOf(source[..|source| - 1]) + {source[|source| - 1].key};
    }
  }

  /** Only a locale file, whose root object has every source key as it stands. */
  function RawFiles(source: seq<Entry>): Files {
    Files(File(RawTree(source), true), Missing, Missing, Missing)
  }

  function RawTree(source: seq<Entry>): Tree {
    Node(map k | k in ValuesOf(source) :: Leaf(ValuesOf(source)[k]))
  }

  lemma RawTreeLookup(source: seq<Entry>, p: Path, value: string)
    ensures Lookup(RawTree(source), p) == Some(value) <==>
              |p| == 1 && p[0] in ValuesOf(source) && ValuesOf(source)[p[0]] == value
  {
    var t := RawTree(source);
    hide ValuesOf;
    if p != [] && p[0] in t.children {
      assert t.children[p[0]] == Leaf(ValuesOf(source)[p[0]]);
      assert Lookup(t, p) == Lookup(t.children[p[0]], p[1..]);
    }
  }

  lemma RawTreeWrites(source: seq<Entry>, key: string, value: string)
    ensures Writes(RawTree(source), "", key, value) <==> key in ValuesOf(source) && ValuesOf(source)[key] == value
  {
    hide ValuesOf, RawTree, Lookup;
    RawTreeLookup(source, [key], value);
    FullKeyOne("", key);
    if Writes(RawTree(source), "", key, value) {
      var p :| Lookup(RawTree(source), p) == Some(value) && FullKey("", p) == key;
      RawTreeLookup(source, p, value);
      assert p == [p[0]];
      FullKeyOne("", p[0]);
    }
  }

  lemma RawTreeFlattens(source: seq<Entry>, flat: map<string, string>)
    requires Flattened(RawTree(source), "", map[], flat)
    ensures flat == ValuesOf(source)
  {
    var t, values := RawTree(source), ValuesOf(source);
    forall k, v ensures Writes(t, "", k, v) <==> k in values && values[k] == v {
      RawTreeWrites(source, k, v);
    }
    hide Writes, ValuesOf;
    assert forall k :: k in flat ==> Writes(t, "", k, flat[k]);
    assert forall k :: k in values ==> Writes(t, "", k, values[k]);
  }

  lemma RawFilesAreKept(source: seq<Entry>, env: Env, inp: Inputs)
    requires DistinctKeys(source) && ReadFrom(RawFiles(source), inp)
    ensures inp.previousFallback == {} && inp.tm == map[]
    ensures forall e :: e in source ==> Reuse(env, inp, e) == Some(e.value)
  {
    RawTreeFlattens(source, inp.existing);
    ValuesOfFacts(source);
    hide Flattened, ValuesOf;
  }

  /** The first run keeps every value. */
  lemma FirstRunKeepsAll(source: seq<Entry>, env: Env, r: SyncRun)
    requires DistinctKeys(source) && RunsOn(RawFiles(source), source, env, r)
    ensures r.plan.nextFlat == ValuesOf(source) && r.plan.fallbackKeys == [] && r.plan.tm == map[]
  {
    RawFilesAreKept(source, env, r.inp);
    ValuesOfFacts(source);
    hide Reuse, ReadFrom, ValuesOf, DistinctKeys;
    forall e | e in source
      ensures r.plan.nextFlat[e.key] == e.value && e.key !in r.plan.fallbackKeys
    {
      assert Decided(env, r.inp, r.oracle, r.start, r.now, e, r.plan);
    }
    SameValues(source, r.plan.nextFlat, ValuesOf(source));
    forall k ensures k !in r.plan.fallbackKeys {
      if k in KeysOf(source) {
        var e :| e in source && e.key == k;
      }
    }
    NonEmptyHasMember(r.plan.fallbackKeys);
    assert MemoryKept(env, r.inp, source, r.plan);
    assert r.plan.tm.Keys == {};
  }

  lemma FirstRunWrites(source: seq<Entry>, sourceHash: string, env: Env, leq: (string, string) -> bool, r: SyncRun)
    requires DistinctKeys(source) && RunsOn(RawFiles(source), source, env, r)
    ensures var files1 := After(RawFiles(source), source, sourceHash, env, leq, r);
            files1.locale == File(Unflatten(source), true) && files1.tm.Missing?
            && files1.meta.File? && files1.meta.parsed.fallbackKeys == []
  {
    FirstRunKeepsAll(source, env, r);
    ValuesOfFacts(source);
    forall i | 0 <= i < |source|
      ensures WithValues(source, ValuesOf(source))[i] == source[i]
    {
      assert source[i] in source;
    }
    assert WithValues(source, ValuesOf(source)) == source;
    assert SortedFallback(r.plan, leq) == [];
  }

  /** A key that starts with a dot never comes back. */
  lemma DottedKeyIsLost(entries: seq<Entry>, key: string, value: string)
    requires Writes(Unflatten(entries), "", key, value)
    ensures !StartsWithDot(key)
  {
    var p :| Lookup(Unflatten(entries), p) == Some(value) && FullKey("", p) == key;
    var e := UnflattenOrigin(entries, p);
    FullKeyNeverStartsWithDot("", p);
  }

  /** Without leading dots, a key comes back only from its own path. */
  lemma KeyComesFromItsPath(entries: seq<Entry>, key: string, value: string)
    requires forall e :: e in entries ==> !StartsWithDot(e.key)
    requires Writes(Unflatten(entries), "", key, value)
    ensures Lookup(Unflatten(entries), Split(key)).Some?
  {
    var p :| Lookup(Unflatten(entries), p) == Some(value) && FullKey("", p) == key;
    var e := UnflattenOrigin(entries, p);
    StartsWithDotIff(e.key);
    FullKeyJoins(p);
    JoinOfSplit(e.key);
  }

  /** Some key of a source that does not round-trip is missing from what is read back. */
  lemma LosesKey(source: seq<Entry>) returns (lost: Entry)
    requires DistinctKeys(source) && !Roundtrips(source)
    ensures lost in source && forall v :: !Writes(Unflatten(source), "", lost.key, v)
  {
    var t := Unflatten(source);
    if e :| e in source && StartsWithDot(e.key) {
      lost := e;
      forall v ensures !Writes(t, "", e.key, v) {
        if Writes(t, "", e.key, v) { DottedKeyIsLost(source, e.key, v); }
      }
    } else {
      var i, j :| 0 <= i < |source| && 0 <= j < |source| && i != j && Split(source[i].key) <= Split(source[j].key);
      var a, b := source[i].key, source[j].key;
      JoinOfSplit(a);
      JoinOfSplit(b);
      assert a != b && Split(a) != Split(b);
      lost := if Lookup(t, Split(a)).Some? then source[j] else source[i];
      if Lookup(t, Split(a)).Some? && Lookup(t, Split(b)).Some? {
        LeavesDoNotNest(t, Split(a), Split(b));
      }
      forall v ensures !Writes(t, "", lost.key, v) {
        if Writes(t, "", lost.key, v) { KeyComesFromItsPath(source, lost.key, v); }
      }
    }
  }

  lemma LostKeyIsPending(files: Files, source: seq<Entry>, env: Env, lost: Entry, inp: Inputs)
    requires ReadFrom(files, inp) && files.locale == File(Unflatten(source), true) && files.tm.Missing?
    requires forall v :: !Writes(Unflatten(source), "", lost.key, v)
    ensures Reuse(env, inp, lost).None?
  {
    hide Writes, Unflatten;
  }

  /** A key without a value shows in the files: as a fallback key, or in the memory. */
  lemma MissingKeyShows(files: Files, source: seq<Entry>, sourceHash: string, env: Env, leq: (string, string) -> bool,
                        e: Entry, r: SyncRun)
    requires RunsOn(files, source, env, r) && e in source && Reuse(env, r.inp, e).None?
    requires files.tm.Missing? && files.meta.File? && files.meta.parsed.fallbackKeys == []
    ensures After(files, source, sourceHash, env, leq, r) != files
  {
    assert Decided(env, r.inp, r.oracle, r.start, r.now, e, r.plan);
    hide Unflatten, WithValues, Reuse, Flattened, ReadFrom, Reconciled;
    if !env.allowTranslate {
      DedupeFacts(r.plan.fallbackKeys);
      SortedPermutes(Dedupe(r.plan.fallbackKeys), leq);
      hide Dedupe, Sorted;
      assert e.key in SortedFallback(r.plan, leq);
    }
  }

  /** From those files the second run reports a change, with or without a provider. */
  lemma SecondRunChanges(source: seq<Entry>, sourceHash: string, env: Env, leq: (string, string) -> bool,
                         first: SyncRun, second: SyncRun)
    requires DistinctKeys(source) && !Roundtrips(source)
    requires RunsOn(RawFiles(source), source, env, first)
    requires RunsOn(After(RawFiles(source), source, sourceHash, env, leq, first), source, env, second)
    ensures var files1 := After(RawFiles(source), source, sourceHash, env, leq, first);
            After(files1, source, sourceHash, env, leq, second) != files1
  {
    var files1 := After(RawFiles(source), source, sourceHash, env, leq, first);
    FirstRunWrites(source, sourceHash, env, leq, first);
    var lost := LosesKey(source);
    LostKeyIsPending(files1, source, env, lost, second.inp);
    hide Reuse, ReadFrom, Reconciled, Expected, Unflatten, Writes;
    MissingKeyShows(files1, source, sourceHash, env, leq, lost, second);
  }

  // ----- the condition -----

  lemma RoundtripsSettles(source: seq<Entry>, sourceHash: string, leq: (string, string) -> bool)
    requires DistinctKeys(source) && TotalOrder(leq) && Roundtrips(source)
    ensures SyncIsFixpoint(source, sourceHash, leq)
  {
    forall files, env, first, second
      | CollisionFree(env) && RunsOn(files, source, env, first)
        && RunsOn(After(files, source, sourceHash, env, leq, first), source, env, second)
      ensures After(After(files, source, sourceHash, env, leq, first), source, sourceHash, env, leq, second)
              == After(files, source, sourceHash, env, leq, first)
    {
      var files1 := After(files, source, sourceHash, env, leq, first);
      WrittenIsSettled(files, source, sourceHash, env, first.inp, first.oracle, first.start, first.now, leq, first.plan);
      SettledIsExpected(files1, source, sourceHash, env, leq, first.plan.nextFlat, second.inp, second.oracle,
                        second.start, second.now, second.plan);
    }
  }

  lemma NoFixpoint(source: seq<Entry>, sourceHash: string, leq: (string, string) -> bool)
    requires DistinctKeys(source) && !Roundtrips(source)
    ensures !SyncIsFixpoint(source, sourceHash, leq)
  {
    hide DistinctKeys, Roundtrips, RawFiles, ReadFrom, Reconciled, Expected;
    var env := Env(false, "", "", "", 0.0, text => text, (key, hash) => key);
    assert CollisionFree(env);
    var first := RunExists(RawFiles(source), source, env);
    var second := RunExists(After(RawFiles(source), source, sourceHash, env, leq, first), source, env);
    SecondRunChanges(source, sourceHash, env, leq, first, second);
  }

  /** Sync is a fixpoint for all files and settings if and only if the source keys are
      prefix-free and none starts with a dot. */
  lemma SyncIsFixpointIff(source: seq<Entry>, sourceHash: string, leq: (string, string) -> bool)
    requires DistinctKeys(source) && TotalOrder(leq)
    ensures SyncIsFixpoint(source, sourceHash, leq) <==>
              PrefixFree(source) && forall e :: e in source ==> !StartsWithDot(e.key)
  {
    if Roundtrips(source) {
      RoundtripsSettles(source, sourceHash, leq);
    } else {
      NoFixpoint(source, sourceHash, leq);
    }
  }

  /** The two runs themselves, for every source that does not round-trip and all settings. */
  method SyncTwiceDiffers(source: seq<Entry>, sourceHash: string, env: Env, force: bool, second: Options,
                          oracle: int -> Outcome, now: int, later: int, leq: (string, string) -> bool)
    returns (r1: SyncResult, r2: SyncResult)
    requires DistinctKeys(source) && CollisionFree(env) && !Roundtrips(source)
    ensures r1.Synced? && r1.wrote
    ensures r2.Synced? ==> r2.changed
    ensures !env.allowTranslate ==> r2.Synced?
  {
    var files := RawFiles(source);
    forall inp, e | ReadFrom(files, inp) && e in source ensures Reuse(env, inp, e).Some? {
      RawTreeFlattens(source, inp.existing);
      ValuesOfFacts(source);
    }
    hide Reconciled, Reuse, ReadFrom;
    var files1, plan1, prompts1, files2, plan2, prompts2;
    r1, files1, plan1, prompts1 := SyncLocale(files, source, sourceHash, env, Options(false, force, true), oracle, 0, now, leq);
    ghost var inp1 :| ReadFrom(files, inp1) && Reconciled(env, inp1, source, oracle, 0, now, plan1);
    ghost var first := SyncRun(inp1, plan1, oracle, 0, now);
    FirstRunWrites(source, sourceHash, env, leq, first);
    r2, files2, plan2, prompts2 := SyncLocale(files1, source, sourceHash, env, second, oracle, prompts1, later, leq);
    if r2.Synced? {
      ghost var inp2 :| ReadFrom(files1, inp2) && Reconciled(env, inp2, source, oracle, prompts1, later, plan2);
      SecondRunChanges(source, sourceHash, env, leq, first, SyncRun(inp2, plan2, oracle, prompts1, later));
    }
  }

  /** An instance: the keys `a` and `a.b`. */
  lemma NestedKeysDoNotSettle(sourceHash: string, leq: (string, string) -> bool, x: string, y: string)
    requires TotalOrder(leq)
    ensures !SyncIsFixpoint([Entry("a", x), Entry("a.b", y)], sourceHash, leq)
  {
    var source := [Entry("a", x), Entry("a.b", y)];
    assert Split("a") == ["a"] && Split("a.b") == ["a", "b"] by {
      SplitOfJoin(["a"]);
      SplitOfJoin(["a", "b"]);
      assert ["a", "b"][1..] == ["b"];
    }
    assert Split(source[0].key) <= Split(source[1].key);
    SyncIsFixpointIff(source, sourceHash, leq);
  }
}
