/** `syncLocale`: reconcile, compare with the files, write; and a second run's no-op. */
module LocaleSync {
  import opened Common
  import opened Sorting
  import opened DottedKeys
  import opened TranslationTree
  import TranslationObjects
  import opened TranslateRetry
  import opened LocaleReconcile

  const CONTROL_UI_I18N_WORKFLOW: nat := 1

  datatype GlossaryEntry = GlossaryEntry(source: string, target: string)

  const DEFAULT_GLOSSARY: seq<GlossaryEntry> :=
    [GlossaryEntry("OpenClaw", "OpenClaw"), GlossaryEntry("Gateway", "Gateway"),
     GlossaryEntry("Control UI", "Control UI"), GlossaryEntry("Skills", "Skills"),
     GlossaryEntry("Tailscale", "Tailscale"), GlossaryEntry("WhatsApp", "WhatsApp"),
     GlossaryEntry("Telegram", "Telegram"), GlossaryEntry("Discord", "Discord"),
     GlossaryEntry("Signal", "Signal"), GlossaryEntry("iMessage", "iMessage")]

  datatype Meta = Meta(fallbackKeys: seq<string>, generatedAt: int, locale: string, model: string, provider: string,
                       sourceHash: string, totalKeys: int, translatedKeys: int, workflow: int)

  /** A file as the loader sees it; `canonical` says its text is what the renderer emits. */
  datatype Stored<+T> = Missing | File(parsed: T, canonical: bool)

  datatype Files = Files(locale: Stored<Tree>, meta: Stored<Meta>, glossary: Stored<seq<GlossaryEntry>>,
                         tm: Stored<map<string, TmEntry>>)

  datatype Options = Options(checkOnly: bool, force: bool, write: bool)

  datatype SyncResult = Synced(changed: bool, fallbackCount: nat, wrote: bool) | SyncFailed

  /** The loader drops entries without a key or without a translation. */
  ghost predicate LoadableMemory(tm: map<string, TmEntry>) {
    forall c :: c in tm ==> tm[c].cacheKey == c && !IsBlank(tm[c].translated)
  }

  /** `[...new Set(keys)]` */
  function Dedupe(keys: seq<string>): seq<string> {
    if keys == [] then []
    else
      var front := Dedupe(keys[..|keys| - 1]);
      if keys[|keys| - 1] in front then front else front + [keys[|keys| - 1]]
  }

  lemma {:induction false} DedupeFacts(keys: seq<string>)
    ensures forall k :: k in Dedupe(keys) <==> k in keys
    ensures NoDup(Dedupe(keys))
  {
    if keys != [] {
      DedupeFacts(keys[..|keys| - 1]);
      assert keys == keys[..|keys| - 1] + [keys[|keys| - 1]];
    }
  }

  /** The entries of the next locale file: `nextFlat.get(key) ?? value`, in source order. */
  function WithValues(source: seq<Entry>, nextFlat: map<string, string>): (r: seq<Entry>)
    ensures |r| == |source|
    ensures forall i :: 0 <= i < |source| ==>
              r[i] == Entry(source[i].key, if source[i].key in nextFlat then nextFlat[source[i].key] else source[i].value)
  {
    if source == [] then []
    else
      var e := source[|source| - 1];
      WithValues(source[..|source| - 1], nextFlat) + [Entry(e.key, if e.key in nextFlat then nextFlat[e.key] else e.value)]
  }

  lemma NextMapStep(source: seq<Entry>, i: nat, nextFlat: map<string, string>)
    requires i < |source|
    ensures var key := source[i].key;
            Unflatten(WithValues(source[..i + 1], nextFlat)) ==
            SetNestedValue(Unflatten(WithValues(source[..i], nextFlat)), key,
                           if key in nextFlat then nextFlat[key] else source[i].value)
  {
    assert source[..i + 1][..i] == source[..i];
    var w := WithValues(source[..i + 1], nextFlat);
    assert w[..|w| - 1] == WithValues(source[..i], nextFlat);
    hide SetNestedValue;
  }

  method BuildNextMap(source: seq<Entry>, nextFlat: map<string, string>) returns (nextMap: Tree)
    ensures nextMap == Unflatten(WithValues(source, nextFlat))
  {
    var root := new TranslationObjects.TranslationMap();
    assert source[..0] == [] && WithValues([], nextFlat) == [];
    hide SetNestedValue, WithValues;
    for i := 0 to |source|
      invariant root.Valid() && fresh(root.repr)
      invariant root.AsTree() == Unflatten(WithValues(source[..i], nextFlat))
    {
      var key := source[i].key;
      NextMapStep(source, i, nextFlat);
      root.SetNestedValue(key, if key in nextFlat then nextFlat[key] else source[i].value);
    }
    assert source[..|source|] == source;
    nextMap := root.AsTree();
  }

  /** What the next meta file says; `generatedAt` moves only with the rest. */
  function NextMeta(env: Env, previous: Stored<Meta>, sourceHash: string, total: nat, fallback: seq<string>, now: int): Meta {
    var provider := if env.allowTranslate then env.provider else if previous.File? then previous.parsed.provider else "";
    var model := if env.allowTranslate then env.model else if previous.File? then previous.parsed.model else "";
    var renewed := Meta(fallback, now, env.locale, model, provider, sourceHash, total, total - |fallback|, CONTROL_UI_I18N_WORKFLOW);
    if previous.Missing? || previous.parsed.(generatedAt := now) != renewed then renewed
    else renewed.(generatedAt := previous.parsed.generatedAt)
  }

  function PreviousFallback(meta: Stored<Meta>): set<string> {
    if meta.File? then set k | k in meta.parsed.fallbackKeys else {}
  }

  /** `renderTranslationMemory` gives "" for an empty memory, as does a missing file. */
  predicate SameMemory(stored: Stored<map<string, TmEntry>>, tm: map<string, TmEntry>) {
    stored == File(tm, true) || (stored.Missing? && tm == map[])
  }

  function WrittenMemory(stored: Stored<map<string, TmEntry>>, tm: map<string, TmEntry>): Stored<map<string, TmEntry>> {
    if tm != map[] then File(tm, true) else if stored.File? then File(map[], true) else Missing
  }

  function LoadedMemory(files: Files): map<string, TmEntry> {
    if files.tm.File? then files.tm.parsed else map[]
  }

  function LoadedTree(files: Files): Tree {
    if files.locale.File? && files.locale.parsed.Node? then files.locale.parsed else EMPTY
  }

  /** The source keys rebuild and flatten without loss. */
  ghost predicate Roundtrips(source: seq<Entry>) {
    PrefixFree(source) && forall e :: e in source ==> !StartsWithDot(e.key)
  }

  lemma RoundtripKeysDistinct(source: seq<Entry>)
    requires PrefixFree(source)
    ensures DistinctKeys(source)
  {
  }

  /** A source object whose keys are non-empty and hold no dots qualifies, in whatever order
      its flattened entries come. */
  lemma GoodSourceRoundtrips(t: Tree, flat: map<string, string>, source: seq<Entry>)
    requires t.Node? && GoodKeys(t) && Flattened(t, "", map[], flat) && Lists(source, flat)
    ensures Roundtrips(source)
  {
    GoodTreeEntries(t, flat, source);
    forall e | e in source
      ensures !StartsWithDot(e.key)
    {
      assert Entry(e.key, e.value) in source;
      GoodPath(t, Split(e.key));
      assert Split(e.key)[0] in Split(e.key);
      StartsWithDotIff(e.key);
    }
  }

  /** The files of a locale that a run would leave as they are. */
  ghost predicate Settled(files: Files, source: seq<Entry>, sourceHash: string, env: Env, leq: (string, string) -> bool,
                          next: map<string, string>) {
    && next.Keys == KeysOf(source)
    && files.locale == File(Unflatten(WithValues(source, next)), true)
    && (forall e :: e in source && CacheKeyOf(env, e) in LoadedMemory(files) ==>
          LoadedMemory(files)[CacheKeyOf(env, e)].translated == next[e.key])
    && SettledMeta(files.meta, source, sourceHash, env, leq)
    && files.glossary.File? && files.glossary.canonical && files.glossary.parsed != []
    && (files.tm.Missing? || files.tm.canonical)
  }

  ghost predicate SettledMeta(stored: Stored<Meta>, source: seq<Entry>, sourceHash: string, env: Env,
                              leq: (string, string) -> bool) {
    && stored.File? && stored.canonical
    && var m := stored.parsed;
       && m.locale == env.locale && m.sourceHash == sourceHash
       && (env.allowTranslate ==> m.provider == env.provider && m.model == env.model && m.fallbackKeys == [])
       && m.totalKeys == |source| && m.translatedKeys == |source| - |m.fallbackKeys|
       && m.workflow == CONTROL_UI_I18N_WORKFLOW
       && SortedBy(m.fallbackKeys, leq)
       && NoDup(m.fallbackKeys)
       && (forall k :: k in m.fallbackKeys ==> k in KeysOf(source))
  }

  function SortedFallback(plan: Plan, leq: (string, string) -> bool): seq<string>
    requires plan.Plan?
  {
    Sorted(Dedupe(plan.fallbackKeys), leq)
  }

  /** The files as the renderers would write them. */
  function Expected(files: Files, source: seq<Entry>, sourceHash: string, env: Env, now: int,
                    leq: (string, string) -> bool, plan: Plan): Files
    requires plan.Plan?
  {
    var glossary := if files.glossary.File? && files.glossary.parsed != [] then files.glossary.parsed else DEFAULT_GLOSSARY;
    Files(File(Unflatten(WithValues(source, plan.nextFlat)), true),
          File(NextMeta(env, files.meta, sourceHash, |source|, SortedFallback(plan, leq), now), true),
          File(glossary, true),
          WrittenMemory(files.tm, plan.tm))
  }

  /** `inp` is what the run reads from the files. */
  ghost predicate ReadFrom(files: Files, inp: Inputs) {
    && inp.tm == (if files.tm.File? then files.tm.parsed else map[])
    && (forall k :: k in inp.previousFallback <==> files.meta.File? && k in files.meta.parsed.fallbackKeys)
    && Flattened(if files.locale.File? && files.locale.parsed.Node? then files.locale.parsed else EMPTY, "", map[], inp.existing)
  }

  /** The two files say the same but for their date. */
  predicate SameButDate(a: Meta, b: Meta) {
    && a.fallbackKeys == b.fallbackKeys && a.locale == b.locale && a.model == b.model && a.provider == b.provider
    && a.sourceHash == b.sourceHash && a.totalKeys == b.totalKeys && a.translatedKeys == b.translatedKeys
    && a.workflow == b.workflow
  }

  /** What the meta file says after a run, given what it said before. The date is that of the
      last run in which anything else changed. */
  ghost predicate MetaFollows(m0: Stored<Meta>, m1: Meta, env: Env, sourceHash: string, total: nat, now: int) {
    && m1.locale == env.locale && m1.sourceHash == sourceHash && m1.workflow == 1
    && m1.totalKeys == total && m1.translatedKeys == total - |m1.fallbackKeys|
    && (env.allowTranslate ==> m1.provider == env.provider && m1.model == env.model)
    && (!env.allowTranslate && m0.File? ==> m1.provider == m0.parsed.provider && m1.model == m0.parsed.model)
    && (!env.allowTranslate && m0.Missing? ==> m1.provider == "" && m1.model == "")
    && (m0.Missing? || !SameButDate(m0.parsed, m1) ==> m1.generatedAt == now)
    && (m0.File? && SameButDate(m0.parsed, m1) ==> m1 == m0.parsed)
  }

  lemma NextMetaFollows(env: Env, previous: Stored<Meta>, sourceHash: string, total: nat, fallback: seq<string>, now: int)
    ensures MetaFollows(previous, NextMeta(env, previous, sourceHash, total, fallback, now), env, sourceHash, total, now)
    ensures NextMeta(env, previous, sourceHash, total, fallback, now).fallbackKeys == fallback
  {
  }

  /** At the path `p` the tree holds the value of the key whose path it is, or nothing. */
  ghost predicate HeldAt(t: Tree, source: seq<Entry>, values: map<string, string>, p: Path) {
    || (exists e :: e in source && Split(e.key) == p && e.key in values && Lookup(t, p) == Some(values[e.key]))
    || (Lookup(t, p).None? && forall e :: e in source ==> Split(e.key) != p)
  }

  /** The locale file holds every key's value at the key's path, and nothing else. */
  ghost predicate HoldsValues(t: Tree, source: seq<Entry>, values: map<string, string>) {
    forall p :: HeldAt(t, source, values, p)
  }

  /** The four files after a writing run, in plain terms. */
  ghost predicate WrittenFiles(files: Files, after: Files, source: seq<Entry>, sourceHash: string, env: Env, now: int,
                               leq: (string, string) -> bool, plan: Plan)
    requires plan.Plan?
  {
    && after.locale.File? && after.locale.canonical && (PrefixFree(source) ==> HoldsValues(after.locale.parsed, source, plan.nextFlat))
    && after.meta.File? && after.meta.canonical && MetaFollows(files.meta, after.meta.parsed, env, sourceHash, |source|, now)
    && NoDup(after.meta.parsed.fallbackKeys) && (TotalPreorder(leq) ==> SortedBy(after.meta.parsed.fallbackKeys, leq))
    && (forall k :: k in after.meta.parsed.fallbackKeys <==> k in plan.fallbackKeys)
    && after.glossary == File(if files.glossary.File? && files.glossary.parsed != [] then files.glossary.parsed else DEFAULT_GLOSSARY, true)
    && after.tm == if plan.tm == map[] && files.tm.Missing? then Missing else File(plan.tm, true)
  }

  lemma RebuiltHoldsKey(source: seq<Entry>, values: map<string, string>, e: Entry)
    requires PrefixFree(source) && values.Keys == KeysOf(source) && e in source
    ensures Lookup(Unflatten(WithValues(source, values)), Split(e.key)) == Some(values[e.key])
  {
    var w := WithValues(source, values);
    WithValuesPrefixFree(source, values);
    UnflattenHolds(w, Split(e.key));
    var i :| 0 <= i < |source| && source[i] == e;
    assert w[i] == Entry(e.key, values[e.key]) && w[i] in w;
  }

  lemma RebuiltHoldsOnly(source: seq<Entry>, values: map<string, string>, p: Path)
    requires Lookup(Unflatten(WithValues(source, values)), p).Some?
    ensures exists e :: e in source && Split(e.key) == p
  {
    var w := WithValues(source, values);
    var x := UnflattenOrigin(w, p);
    var i :| 0 <= i < |w| && w[i] == x;
    assert source[i] in source && source[i].key == x.key;
  }

  lemma RebuiltHolds(source: seq<Entry>, values: map<string, string>)
    requires PrefixFree(source) && values.Keys == KeysOf(source)
    ensures HoldsValues(Unflatten(WithValues(source, values)), source, values)
  {
    var t := Unflatten(WithValues(source, values));
    hide Unflatten, WithValues, Lookup, Split, PrefixFree;
    forall p ensures HeldAt(t, source, values, p) {
      if e :| e in source && Split(e.key) == p {
        RebuiltHoldsKey(source, values, e);
      } else if Lookup(t, p).Some? {
        RebuiltHoldsOnly(source, values, p);
      }
    }
  }

  lemma ExpectedIsWritten(files: Files, source: seq<Entry>, sourceHash: string, env: Env, now: int,
                          leq: (string, string) -> bool, plan: Plan)
    requires plan.Plan? && plan.nextFlat.Keys == KeysOf(source)
    ensures WrittenFiles(files, Expected(files, source, sourceHash, env, now, leq, plan), source, sourceHash, env, now, leq, plan)
  {
    NextMetaFollows(env, files.meta, sourceHash, |source|, SortedFallback(plan, leq), now);
    var d := Dedupe(plan.fallbackKeys);
    DedupeFacts(plan.fallbackKeys);
    SortedPermutes(d, leq);
    NoDupPermuted(d, Sorted(d, leq));
    if TotalPreorder(leq) { SortedIsSorted(d, leq); }
    if PrefixFree(source) { RebuiltHolds(source, plan.nextFlat); }
    hide HoldsValues, MetaFollows, NextMeta, Unflatten, WithValues, Sorted, Dedupe, TotalPreorder, PrefixFree, KeysOf;
  }

  /** One run for one locale. `prompts` counts the prompts of the whole process. */
  method SyncLocale(files: Files, source: seq<Entry>, sourceHash: string, env: Env, options: Options,
                    oracle: int -> Outcome, prompts: nat, now: int, leq: (string, string) -> bool)
    returns (result: SyncResult, files': Files, plan: Plan, prompts': nat)
    requires DistinctKeys(source) && CollisionFree(env)
    ensures result.SyncFailed? <==> plan.Aborted?
    ensures plan.Aborted? ==> files' == files && env.allowTranslate
    ensures plan.Aborted? ==> prompts' > prompts && NotAnswered(oracle, prompts' - 1, KeysOf(source))
    ensures result.Synced? && result.wrote ==> WrittenFiles(files, files', source, sourceHash, env, now, leq, plan)
    ensures plan.Plan? ==> exists inp :: ReadFrom(files, inp) && Reconciled(env, inp, source, oracle, prompts, now, plan)
    ensures plan.Plan? ==>
              && (result.changed <==> Expected(files, source, sourceHash, env, now, leq, plan) != files)
              && (result.wrote <==> result.changed && options.write && !options.checkOnly)
              && result.fallbackCount == |SortedFallback(plan, leq)|
              && files' == if result.wrote then Expected(files, source, sourceHash, env, now, leq, plan) else files
    ensures (forall inp :: ReadFrom(files, inp) ==> forall e :: e in source ==> Reuse(env, inp, e).Some?) ==>
              plan.Plan? && prompts' == prompts
    ensures prompts <= prompts' <= prompts + 4 * |source|
  {
    var existing := FlattenTranslations(LoadedTree(files), "", map[]);
    var inp := Inputs(LoadedMemory(files), existing, PreviousFallback(files.meta));
    assert ReadFrom(files, inp);
    hide Reconciled, Reuse, CollisionFree, DistinctKeys, WrittenFiles, Expected, NotAnswered, ReadFrom;
    plan := Reconcile(env, inp, options.force, source, oracle, prompts, now);
    prompts' := plan.prompts;
    if plan.Aborted? {
      return SyncFailed, files, plan, prompts';
    }
    result, files' := CompareAndWrite(files, source, sourceHash, env, options, now, leq, plan);
    assert plan.nextFlat.Keys == KeysOf(source) by { PlanKeys(env, inp, source, oracle, prompts, now, plan); }
    ExpectedIsWritten(files, source, sourceHash, env, now, leq, plan);
  }

  lemma PlanKeys(env: Env, inp: Inputs, source: seq<Entry>, oracle: int -> Outcome, start: int, now: int, plan: Plan)
    requires plan.Plan? && Reconciled(env, inp, source, oracle, start, now, plan)
    ensures plan.nextFlat.Keys == KeysOf(source)
  {
  }

  method BuildNextMeta(env: Env, meta: Stored<Meta>, sourceHash: string, total: nat, sortedFallbackKeys: seq<string>, now: int)
    returns (nextMeta: Meta)
    ensures nextMeta == NextMeta(env, meta, sourceHash, total, sortedFallbackKeys, now)
  {
    var translatedKeys := total - |sortedFallbackKeys|;
    var nextProvider := if env.allowTranslate then env.provider else if meta.File? then meta.parsed.provider else "";
    var nextModel := if env.allowTranslate then env.model else if meta.File? then meta.parsed.model else "";
    var semanticMetaChanged := meta.Missing?
      || meta.parsed.locale != env.locale
      || meta.parsed.sourceHash != sourceHash
      || meta.parsed.provider != nextProvider
      || meta.parsed.model != nextModel
      || meta.parsed.totalKeys != total
      || meta.parsed.translatedKeys != translatedKeys
      || meta.parsed.workflow != CONTROL_UI_I18N_WORKFLOW
      || meta.parsed.fallbackKeys != sortedFallbackKeys;
    nextMeta := Meta(sortedFallbackKeys, if semanticMetaChanged then now else meta.parsed.generatedAt,
                     env.locale, nextModel, nextProvider, sourceHash, total, translatedKeys, CONTROL_UI_I18N_WORKFLOW);
  }

  /** From `nextMap` to the end of `syncLocale`. */
  method CompareAndWrite(files: Files, source: seq<Entry>, sourceHash: string, env: Env, options: Options, now: int,
                         leq: (string, string) -> bool, plan: Plan)
    returns (result: SyncResult, files': Files)
    requires plan.Plan?
    ensures result.Synced?
    ensures result.changed <==> Expected(files, source, sourceHash, env, now, leq, plan) != files
    ensures result.wrote <==> result.changed && options.write && !options.checkOnly
    ensures result.fallbackCount == |SortedFallback(plan, leq)|
    ensures files' == if result.wrote then Expected(files, source, sourceHash, env, now, leq, plan) else files
  {
    var nextMap := BuildNextMap(source, plan.nextFlat);
    var sortedFallbackKeys := Sorted(Dedupe(plan.fallbackKeys), leq);
    var nextMeta := BuildNextMeta(env, files.meta, sourceHash, |source|, sortedFallbackKeys, now);
    hide NextMeta, Unflatten, WithValues, Sorted, Dedupe;
    var meta := files.meta;
    var glossary := if files.glossary.File? && files.glossary.parsed != [] then files.glossary.parsed else DEFAULT_GLOSSARY;
    var changed := files.locale != File(nextMap, true)
      || files.meta != File(nextMeta, true)
      || files.glossary != File(glossary, true)
      || !SameMemory(files.tm, plan.tm);
    if !changed || (meta.File? && meta.parsed.sourceHash == sourceHash && !options.force && !options.checkOnly && !options.write) {
      return Synced(changed, |sortedFallbackKeys|, false), files;
    }
    files' := files;
    if !options.checkOnly && options.write {
      files' := Files(File(nextMap, true), File(nextMeta, true), File(glossary, true), WrittenMemory(files.tm, plan.tm));
    }
    result := Synced(changed, |sortedFallbackKeys|, !options.checkOnly && options.write && changed);
  }

  // ----- a written locale is settled -----

  lemma SettledMemory(env: Env, inp: Inputs, source: seq<Entry>, oracle: int -> Outcome, start: int, now: int, plan: Plan, e: Entry)
    requires CollisionFree(env) && DistinctKeys(source) && plan.Plan? && Reconciled(env, inp, source, oracle, start, now, plan)
    requires e in source && CacheKeyOf(env, e) in plan.tm
    ensures plan.tm[CacheKeyOf(env, e)].translated == plan.nextFlat[e.key]
  {
    var c := CacheKeyOf(env, e);
    assert Decided(env, inp, oracle, start, now, e, plan);
    forall d | d in source && CacheKeyOf(env, d) == c ensures d == e {
      KeyIdentifies(source, d, e);
    }
  }

  lemma NoFallbackWhenTranslating(env: Env, inp: Inputs, source: seq<Entry>, oracle: int -> Outcome, start: int, now: int, plan: Plan)
    requires plan.Plan? && Reconciled(env, inp, source, oracle, start, now, plan) && env.allowTranslate
    ensures plan.fallbackKeys == []
  {
    forall k ensures k !in plan.fallbackKeys {
      if k in KeysOf(source) {
        var e :| e in source && e.key == k;
        assert Decided(env, inp, oracle, start, now, e, plan);
      }
    }
    NonEmptyHasMember(plan.fallbackKeys);
  }

  lemma SortedFallbackFacts(plan: Plan, leq: (string, string) -> bool)
    requires plan.Plan? && TotalPreorder(leq)
    ensures SortedBy(SortedFallback(plan, leq), leq)
    ensures forall k :: k in SortedFallback(plan, leq) <==> k in plan.fallbackKeys
    ensures NoDup(SortedFallback(plan, leq))
  {
    var d := Dedupe(plan.fallbackKeys);
    DedupeFacts(plan.fallbackKeys);
    SortedPermutes(d, leq);
    SortedIsSorted(d, leq);
    NoDupPermuted(d, Sorted(d, leq));
  }

  /** What a run writes is settled, with the values it decided on. */
  lemma WrittenIsSettled(files: Files, source: seq<Entry>, sourceHash: string, env: Env, inp: Inputs,
                         oracle: int -> Outcome, start: int, now: int, leq: (string, string) -> bool, plan: Plan)
    requires CollisionFree(env) && DistinctKeys(source) && TotalPreorder(leq)
    requires plan.Plan? && Reconciled(env, inp, source, oracle, start, now, plan)
    ensures Settled(Expected(files, source, sourceHash, env, now, leq, plan), source, sourceHash, env, leq, plan.nextFlat)
  {
    var after := Expected(files, source, sourceHash, env, now, leq, plan);
    assert LoadedMemory(after) == plan.tm;
    forall e | e in source && CacheKeyOf(env, e) in plan.tm
      ensures plan.tm[CacheKeyOf(env, e)].translated == plan.nextFlat[e.key]
    {
      SettledMemory(env, inp, source, oracle, start, now, plan, e);
    }
    SortedFallbackFacts(plan, leq);
    if env.allowTranslate {
      NoFallbackWhenTranslating(env, inp, source, oracle, start, now, plan);
    }
    hide Unflatten, WithValues, Sorted, Dedupe, Decided;
    assert SettledMeta(after.meta, source, sourceHash, env, leq);
  }

  /** The memory that is written loads again. */
  lemma MemoryStaysLoadable(env: Env, inp: Inputs, source: seq<Entry>, oracle: int -> Outcome, start: int, now: int, plan: Plan)
    requires plan.Plan? && Reconciled(env, inp, source, oracle, start, now, plan) && LoadableMemory(inp.tm)
    ensures LoadableMemory(plan.tm)
  {
    forall c | c in plan.tm
      ensures plan.tm[c].cacheKey == c && !IsBlank(plan.tm[c].translated)
    {
      if c !in inp.tm || plan.tm[c] != inp.tm[c] {
        var e :| e in source && CacheKeyOf(env, e) == c && Reuse(env, inp, e).None?;
        assert Decided(env, inp, oracle, start, now, e, plan);
      }
    }
  }

  // ----- a settled locale stays as it is -----

  lemma WithValuesPrefixFree(source: seq<Entry>, next: map<string, string>)
    requires PrefixFree(source)
    ensures PrefixFree(WithValues(source, next))
  {
    hide Split, WithValues;
  }

  lemma WithValuesLists(source: seq<Entry>, next: map<string, string>)
    requires DistinctKeys(source) && next.Keys == KeysOf(source)
    ensures Lists(WithValues(source, next), next)
  {
    hide WithValues;
    var w := WithValues(source, next);
    forall i | 0 <= i < |source| ensures source[i].key in next && w[i] == Entry(source[i].key, next[source[i].key]) {
      assert source[i] in source;
    }
    forall k | k in next ensures Entry(k, next[k]) in w {
      var e :| e in source && e.key == k;
      var i :| 0 <= i < |source| && source[i] == e;
      assert w[i] == Entry(k, next[k]);
    }
  }

  lemma SettledExisting(files: Files, source: seq<Entry>, sourceHash: string, env: Env, leq: (string, string) -> bool,
                        next: map<string, string>, inp: Inputs)
    requires Settled(files, source, sourceHash, env, leq, next) && Roundtrips(source) && ReadFrom(files, inp)
    ensures inp.existing == next
  {
    RoundtripKeysDistinct(source);
    WithValuesPrefixFree(source, next);
    WithValuesLists(source, next);
    assert forall k :: k in next ==> !StartsWithDot(k);
    FlattenUndoesUnflattenIff(next, WithValues(source, next), inp.existing);
  }

  /** Every key of a settled locale is kept, with the value it has. */
  lemma SettledReuses(files: Files, source: seq<Entry>, sourceHash: string, env: Env, leq: (string, string) -> bool,
                      next: map<string, string>, inp: Inputs, e: Entry)
    requires Settled(files, source, sourceHash, env, leq, next) && Roundtrips(source) && ReadFrom(files, inp)
    requires e in source
    ensures Reuse(env, inp, e) == Some(next[e.key])
  {
    SettledExisting(files, source, sourceHash, env, leq, next, inp);
    assert env.allowTranslate ==> inp.previousFallback == {};
    hide Unflatten, WithValues, Flattened;
  }

  lemma SettledFallback(files: Files, source: seq<Entry>, sourceHash: string, env: Env, leq: (string, string) -> bool,
                        next: map<string, string>, inp: Inputs, oracle: int -> Outcome, start: int, now: int, plan: Plan)
    requires Settled(files, source, sourceHash, env, leq, next) && Roundtrips(source) && ReadFrom(files, inp)
    requires TotalOrder(leq) && plan.Plan? && Reconciled(env, inp, source, oracle, start, now, plan)
    ensures SortedFallback(plan, leq) == files.meta.parsed.fallbackKeys
  {
    var kept := files.meta.parsed.fallbackKeys;
    forall k ensures k in plan.fallbackKeys <==> k in kept {
      if k in KeysOf(source) {
        var e :| e in source && e.key == k;
        SettledReuses(files, source, sourceHash, env, leq, next, inp, e);
        assert Decided(env, inp, oracle, start, now, e, plan);
      }
    }
    SortedFallbackFacts(plan, leq);
    SameMembersSameMultiset(SortedFallback(plan, leq), kept);
    SortedUnique(SortedFallback(plan, leq), kept, leq);
  }

  lemma SettledPlan(files: Files, source: seq<Entry>, sourceHash: string, env: Env, leq: (string, string) -> bool,
                    next: map<string, string>, inp: Inputs, oracle: int -> Outcome, start: int, now: int, plan: Plan)
    requires Settled(files, source, sourceHash, env, leq, next) && Roundtrips(source) && ReadFrom(files, inp)
    requires plan.Plan? && Reconciled(env, inp, source, oracle, start, now, plan)
    ensures plan.nextFlat == next && plan.tm == inp.tm
  {
    forall e | e in source ensures Reuse(env, inp, e) == Some(next[e.key]) && plan.nextFlat[e.key] == next[e.key] {
      SettledReuses(files, source, sourceHash, env, leq, next, inp, e);
      assert Decided(env, inp, oracle, start, now, e, plan);
    }
    SameValues(source, plan.nextFlat, next);
    assert MemoryKept(env, inp, source, plan);
    hide Reuse, Decided, Settled, ReadFrom, Roundtrips, Reconciled;
    assert plan.tm == inp.tm;
  }

  lemma SameValues(source: seq<Entry>, a: map<string, string>, b: map<string, string>)
    requires a.Keys == KeysOf(source) == b.Keys && forall e :: e in source ==> a[e.key] == b[e.key]
    ensures a == b
  {
    forall k | k in a ensures a[k] == b[k] {
      var e :| e in source && e.key == k;
    }
  }

  lemma SettledIsExpected(files: Files, source: seq<Entry>, sourceHash: string, env: Env, leq: (string, string) -> bool,
                          next: map<string, string>, inp: Inputs, oracle: int -> Outcome, start: int, now: int, plan: Plan)
    requires Settled(files, source, sourceHash, env, leq, next) && Roundtrips(source) && ReadFrom(files, inp)
    requires TotalOrder(leq) && plan.Plan? && Reconciled(env, inp, source, oracle, start, now, plan)
    ensures Expected(files, source, sourceHash, env, now, leq, plan) == files
  {
    SettledPlan(files, source, sourceHash, env, leq, next, inp, oracle, start, now, plan);
    SettledFallback(files, source, sourceHash, env, leq, next, inp, oracle, start, now, plan);
    hide Reconciled, Unflatten, WithValues, Flattened, SortedFallback;
  }

  /** Sync is a fixpoint: after a successful run that may write, a second run with the same
      source and settings changes nothing and sends no prompt, whatever its options. */
  method SyncTwice(files: Files, source: seq<Entry>, sourceHash: string, env: Env, force: bool, second: Options,
                   oracle: int -> Outcome, now: int, later: int, leq: (string, string) -> bool)
    returns (r1: SyncResult, r2: SyncResult, files1: Files, files2: Files, prompts1: nat, prompts2: nat)
    requires DistinctKeys(source) && CollisionFree(env)
    ensures r1.Synced? && Roundtrips(source) && TotalOrder(leq) ==>
              r2.Synced? && !r2.changed && !r2.wrote && files2 == files1 && prompts2 == prompts1
  {
    var plan1, plan2;
    r1, files1, plan1, prompts1 := SyncLocale(files, source, sourceHash, env, Options(false, force, true), oracle, 0, now, leq);
    r2, files2, plan2, prompts2 := SyncLocale(files1, source, sourceHash, env, second, oracle, prompts1, later, leq);
    if r1.Synced? && Roundtrips(source) && TotalOrder(leq) {
      var inp1 :| ReadFrom(files, inp1) && Reconciled(env, inp1, source, oracle, 0, now, plan1);
      WrittenIsSettled(files, source, sourceHash, env, inp1, oracle, 0, now, leq, plan1);
      assert Settled(files1, source, sourceHash, env, leq, plan1.nextFlat);
      forall inp, e | ReadFrom(files1, inp) && e in source ensures Reuse(env, inp, e).Some? {
        SettledReuses(files1, source, sourceHash, env, leq, plan1.nextFlat, inp, e);
      }
      var inp2 :| ReadFrom(files1, inp2) && Reconciled(env, inp2, source, oracle, prompts1, later, plan2);
      SettledIsExpected(files1, source, sourceHash, env, leq, plan1.nextFlat, inp2, oracle, prompts1, later, plan2);
    }
  }
}
