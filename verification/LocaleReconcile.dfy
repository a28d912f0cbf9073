/** The reconcile part of `syncLocale`: which value each source key gets. */
module LocaleReconcile {
  import opened Common
  import opened TranslationTree
  import opened TranslationBatches
  import opened TranslateRetry

  datatype TmEntry = TmEntry(cacheKey: string, model: string, provider: string, segmentId: string, text: string,
                             textHash: string, translated: string, updatedAt: int)

  /** The settings of a run. Both hashes are uninterpreted. */
  datatype Env = Env(allowTranslate: bool, provider: string, model: string, locale: string, budget: real,
                     hashText: string -> string, cacheKey: (string, string) -> string)

  /** What a run reads for its locale. */
  datatype Inputs = Inputs(tm: map<string, TmEntry>, existing: map<string, string>, previousFallback: set<string>)

  function CacheKeyOf(env: Env, e: Entry): string {
    env.cacheKey(e.key, env.hashText(e.value))
  }

  function ItemOf(env: Env, e: Entry): Item {
    Item(CacheKeyOf(env, e), e.key, e.value, env.hashText(e.value))
  }

  /** The value a key keeps, from the translation memory or else from the existing file;
      a key that was a fallback is not kept when it can be translated now. */
  function Reuse(env: Env, inp: Inputs, e: Entry): Option<string> {
    var refresh := env.allowTranslate && e.key in inp.previousFallback;
    if CacheKeyOf(env, e) in inp.tm && !refresh then Some(inp.tm[CacheKeyOf(env, e)].translated)
    else if e.key in inp.existing && !refresh then Some(inp.existing[e.key])
    else None
  }

  ghost predicate DistinctKeys(source: seq<Entry>) {
    forall i, j :: 0 <= i < j < |source| ==> source[i].key != source[j].key
  }

  function KeysOf(source: seq<Entry>): set<string> {
    set e | e in source :: e.key
  }

  // ----- the first loop, as folds -----

  function Reused(env: Env, inp: Inputs, source: seq<Entry>): map<string, string> {
    if source == [] then map[]
    else
      var front, e := Reused(env, inp, source[..|source| - 1]), source[|source| - 1];
      match Reuse(env, inp, e) case Some(v) => front[e.key := v] case None => front
  }

  function PendingOf(env: Env, inp: Inputs, source: seq<Entry>): seq<Item> {
    if source == [] then []
    else
      var front, e := PendingOf(env, inp, source[..|source| - 1]), source[|source| - 1];
      if Reuse(env, inp, e).None? then front + [ItemOf(env, e)] else front
  }

  function KeptFallbacks(env: Env, inp: Inputs, source: seq<Entry>): seq<string> {
    if source == [] then []
    else
      var front, e := KeptFallbacks(env, inp, source[..|source| - 1]), source[|source| - 1];
      if Reuse(env, inp, e).Some? && e.key in inp.previousFallback then front + [e.key] else front
  }

  method ScanSource(env: Env, inp: Inputs, source: seq<Entry>)
    returns (nextFlat: map<string, string>, pending: seq<Item>, fallbackKeys: seq<string>)
    ensures nextFlat == Reused(env, inp, source)
    ensures pending == PendingOf(env, inp, source)
    ensures fallbackKeys == KeptFallbacks(env, inp, source)
  {
    nextFlat, pending, fallbackKeys := map[], [], [];
    for i := 0 to |source|
      invariant nextFlat == Reused(env, inp, source[..i])
      invariant pending == PendingOf(env, inp, source[..i])
      invariant fallbackKeys == KeptFallbacks(env, inp, source[..i])
    {
      var e := source[i];
      assert source[..i + 1][..i] == source[..i];
      var item := ItemOf(env, e);
      var shouldRefreshFallback := e.key in inp.previousFallback;
      if item.cacheKey in inp.tm && !(env.allowTranslate && shouldRefreshFallback) {
        nextFlat := nextFlat[e.key := inp.tm[item.cacheKey].translated];
        if shouldRefreshFallback {
          fallbackKeys := fallbackKeys + [e.key];
        }
      } else if e.key in inp.existing && !(env.allowTranslate && shouldRefreshFallback) {
        nextFlat := nextFlat[e.key := inp.existing[e.key]];
        if shouldRefreshFallback {
          fallbackKeys := fallbackKeys + [e.key];
        }
      } else {
        pending := pending + [item];
      }
    }
    assert source[..|source|] == source;
  }

  lemma LastKeyIsNew(source: seq<Entry>)
    requires DistinctKeys(source) && source != []
    ensures DistinctKeys(source[..|source| - 1])
    ensures forall e :: e in source[..|source| - 1] ==> e.key != source[|source| - 1].key
    ensures forall e :: e in source <==> e in source[..|source| - 1] || e == source[|source| - 1]
  {
    var front := source[..|source| - 1];
    assert source == front + [source[|source| - 1]];
    forall e | e in front ensures e.key != source[|source| - 1].key {
      var i :| 0 <= i < |front| && front[i] == e;
      assert source[i] == e;
    }
  }

  /** The kept values are exactly the reusable ones. */
  lemma {:induction false} ReusedFacts(env: Env, inp: Inputs, source: seq<Entry>)
    requires DistinctKeys(source)
    ensures Reused(env, inp, source).Keys <= KeysOf(source)
    ensures forall e :: e in source ==> (e.key in Reused(env, inp, source) <==> Reuse(env, inp, e).Some?)
    ensures forall e :: e in source && Reuse(env, inp, e).Some? ==>
              Reused(env, inp, source)[e.key] == Reuse(env, inp, e).value
  {
    if source != [] {
      LastKeyIsNew(source);
      ReusedFacts(env, inp, source[..|source| - 1]);
      hide Reuse;
    }
  }

  ghost predicate KeptAsFallback(env: Env, inp: Inputs, e: Entry) {
    Reuse(env, inp, e).Some? && e.key in inp.previousFallback
  }

  lemma {:induction false} FallbackFacts(env: Env, inp: Inputs, source: seq<Entry>)
    requires DistinctKeys(source)
    ensures forall e :: e in source ==> (e.key in KeptFallbacks(env, inp, source) <==> KeptAsFallback(env, inp, e))
    ensures forall k :: k in KeptFallbacks(env, inp, source) ==> k in KeysOf(source)
  {
    if source != [] {
      LastKeyIsNew(source);
      FallbackFacts(env, inp, source[..|source| - 1]);
      hide Reuse;
      assert forall e :: e in source[..|source| - 1] ==> e in source;
    }
  }

  /** The pending items are the source entries that keep nothing, once each. */
  lemma {:induction false} PendingFacts(env: Env, inp: Inputs, source: seq<Entry>)
    requires DistinctKeys(source)
    ensures forall e :: e in source && Reuse(env, inp, e).None? ==> ItemOf(env, e) in PendingOf(env, inp, source)
    ensures forall item :: item in PendingOf(env, inp, source) ==>
              Entry(item.key, item.text) in source && item == ItemOf(env, Entry(item.key, item.text))
              && Reuse(env, inp, Entry(item.key, item.text)).None?
    ensures forall i, j :: 0 <= i < j < |PendingOf(env, inp, source)| ==>
              PendingOf(env, inp, source)[i].key != PendingOf(env, inp, source)[j].key
  {
    if source != [] {
      LastKeyIsNew(source);
      PendingFacts(env, inp, source[..|source| - 1]);
      var front := PendingOf(env, inp, source[..|source| - 1]);
      hide Reuse;
      forall i | 0 <= i < |front| ensures front[i].key != source[|source| - 1].key {
        assert front[i] in front;
        assert Entry(front[i].key, front[i].text) in source[..|source| - 1];
      }
    }
  }

  // ----- translating what is pending -----

  function MemoryEntry(env: Env, item: Item, value: string, now: int): TmEntry {
    TmEntry(item.cacheKey, env.model, env.provider, item.key, item.text, item.textHash, value, now)
  }

  /** `items` now have non-blank answers from prompts `lo .. hi`, in the map and in the memory. */
  ghost predicate Filled(env: Env, items: seq<Item>, oracle: int -> Outcome, lo: int, hi: int, now: int,
                         nextFlat: map<string, string>, tm: map<string, TmEntry>) {
    forall i :: i in items ==>
      && i.key in nextFlat && i.cacheKey in tm
      && !IsBlank(nextFlat[i.key])
      && Answered(oracle, i.key, nextFlat[i.key], lo, hi)
      && tm[i.cacheKey] == MemoryEntry(env, i, nextFlat[i.key], now)
  }

  ghost predicate DistinctItems(items: seq<Item>) {
    forall i, j :: 0 <= i < j < |items| ==> items[i].key != items[j].key && items[i].cacheKey != items[j].cacheKey
  }

  /** Nothing but the items' own entries changed. */
  ghost predicate ChangesOnly(items: seq<Item>, next0: map<string, string>, tm0: map<string, TmEntry>,
                              next1: map<string, string>, tm1: map<string, TmEntry>) {
    && next1.Keys == next0.Keys + Keys(items)
    && (forall k :: k in next0 && k !in Keys(items) ==> next1[k] == next0[k])
    && (forall c :: c in tm0 ==> c in tm1)
    && (forall c :: c in tm1 && (forall i :: i in items ==> i.cacheKey != c) ==> c in tm0 && tm1[c] == tm0[c])
  }

  lemma LastItemIsNew(items: seq<Item>, item: Item)
    requires DistinctItems(items + [item])
    ensures forall i :: i in items ==> i.key != item.key && i.cacheKey != item.cacheKey
    ensures Keys(items + [item]) == Keys(items) + {item.key}
    ensures forall i :: i in items + [item] <==> i in items || i == item
  {
    forall i | i in items ensures i.key != item.key && i.cacheKey != item.cacheKey {
      var k :| 0 <= k < |items| && items[k] == i;
      assert (items + [item])[k] == i && (items + [item])[|items|] == item;
    }
    assert item in items + [item];
    assert forall i :: i in items ==> i in items + [item];
  }

  lemma FilledOne(env: Env, items: seq<Item>, item: Item, value: string, oracle: int -> Outcome, lo: int, hi: int, now: int,
                  nextFlat: map<string, string>, tm: map<string, TmEntry>)
    requires DistinctItems(items + [item])
    requires Filled(env, items, oracle, lo, hi, now, nextFlat, tm)
    requires !IsBlank(value) && Answered(oracle, item.key, value, lo, hi)
    ensures Filled(env, items + [item], oracle, lo, hi, now,
                   nextFlat[item.key := value], tm[item.cacheKey := MemoryEntry(env, item, value, now)])
  {
    LastItemIsNew(items, item);
  }

  lemma ChangesOne(items: seq<Item>, item: Item, value: string, entry: TmEntry,
                   next0: map<string, string>, tm0: map<string, TmEntry>,
                   nextFlat: map<string, string>, tm: map<string, TmEntry>)
    requires DistinctItems(items + [item])
    requires ChangesOnly(items, next0, tm0, nextFlat, tm)
    ensures ChangesOnly(items + [item], next0, tm0, nextFlat[item.key := value], tm[item.cacheKey := entry])
  {
    LastItemIsNew(items, item);
    hide DistinctItems, Keys;
    var next1, tm1 := nextFlat[item.key := value], tm[item.cacheKey := entry];
    forall c | c in tm1 && (forall i :: i in items + [item] ==> i.cacheKey != c)
      ensures c in tm0 && tm1[c] == tm0[c]
    {
      assert item in items + [item];
      assert forall i :: i in items ==> i.cacheKey != c;
    }
  }

  lemma FilledLater(env: Env, items: seq<Item>, oracle: int -> Outcome, lo: int, hi: int, later: int, now: int,
                    nextFlat: map<string, string>, tm: map<string, TmEntry>)
    requires Filled(env, items, oracle, lo, hi, now, nextFlat, tm) && hi <= later
    ensures Filled(env, items, oracle, lo, later, now, nextFlat, tm)
  {
  }

  lemma DistinctPart(items: seq<Item>, n: nat)
    requires DistinctItems(items) && n <= |items|
    ensures DistinctItems(items[..n])
  {
  }

  /** One batch: the translated values go into the map and into the memory. */
  method StoreBatch(env: Env, ghost done: seq<Item>, batch: seq<Item>, values: map<string, string>, now: int,
                    ghost oracle: int -> Outcome, ghost lo: int, ghost hi: int,
                    ghost next0: map<string, string>, ghost tm0: map<string, TmEntry>,
                    nextFlat: map<string, string>, tm: map<string, TmEntry>)
    returns (next1: map<string, string>, tm1: map<string, TmEntry>)
    requires DistinctItems(done + batch)
    requires Filled(env, done, oracle, lo, hi, now, nextFlat, tm) && ChangesOnly(done, next0, tm0, nextFlat, tm)
    requires values.Keys == Keys(batch)
    requires forall k :: k in values ==> !IsBlank(values[k]) && Answered(oracle, k, values[k], lo, hi)
    ensures Filled(env, done + batch, oracle, lo, hi, now, next1, tm1)
    ensures ChangesOnly(done + batch, next0, tm0, next1, tm1)
  {
    hide Filled, ChangesOnly, IsBlank, AnswerAt;
    next1, tm1 := nextFlat, tm;
    assert done + batch[..0] == done;
    for i := 0 to |batch|
      invariant Filled(env, done + batch[..i], oracle, lo, hi, now, next1, tm1)
      invariant ChangesOnly(done + batch[..i], next0, tm0, next1, tm1)
    {
      var item := batch[i];
      assert item in batch && item.key in values;
      assert (done + batch)[..|done| + i + 1] == (done + batch[..i]) + [item];
      DistinctPart(done + batch, |done| + i + 1);
      var value := values[item.key];
      FilledOne(env, done + batch[..i], item, value, oracle, lo, hi, now, next1, tm1);
      ChangesOne(done + batch[..i], item, value, MemoryEntry(env, item, value, now), next0, tm0, next1, tm1);
      next1 := next1[item.key := value];
      tm1 := tm1[item.cacheKey := MemoryEntry(env, item, value, now)];
      assert done + batch[..i + 1] == (done + batch[..i]) + [item];
    }
    assert batch[..|batch|] == batch;
  }

  datatype Filling = Complete(nextFlat: map<string, string>, tm: map<string, TmEntry>, prompts: nat) | GaveUp(prompts: nat)

  lemma {:induction false} FlattenPrefix(batches: seq<seq<Item>>, n: nat)
    requires n < |batches|
    ensures Flatten(batches[..n + 1]) == Flatten(batches[..n]) + batches[n]
    ensures Flatten(batches[..n + 1]) <= Flatten(batches)
  {
    assert batches[..n + 1] == batches[..n] + [batches[n]];
    FlattenSnoc(batches[..n], batches[n]);
    FlattenAppend(batches[..n + 1], batches[n + 1..]);
    assert batches == batches[..n + 1] + batches[n + 1..];
  }

  lemma {:induction false} FlattenAppend(a: seq<seq<Item>>, b: seq<seq<Item>>)
    ensures Flatten(a + b) == Flatten(a) + Flatten(b)
  {
    if a == [] {
      assert a + b == b;
    } else {
      FlattenAppend(a[1..], b);
      assert (a + b)[1..] == a[1..] + b;
      assert a[0] + (Flatten(a[1..]) + Flatten(b)) == (a[0] + Flatten(a[1..])) + Flatten(b);
    }
  }

  /** What a successful batch call returns, in the terms of `StoreBatch`. */
  lemma BatchAnswers(oracle: int -> Outcome, batch: seq<Item>, start: nat)
    requires Translate(oracle, batch, 0, start, 0).result.Translated?
    ensures Translate(oracle, batch, 0, start, 0).result.values.Keys == Keys(batch)
    ensures var r := Translate(oracle, batch, 0, start, 0);
            forall k :: k in r.result.values ==>
              !IsBlank(r.result.values[k]) && Answered(oracle, k, r.result.values[k], start, r.next)
  {
    SuccessIsComplete(oracle, batch, 0, start, 0);
  }

  lemma WiderWindow(oracle: int -> Outcome, values: map<string, string>, lo: int, start: int, hi: int)
    requires lo <= start
    requires forall k :: k in values ==> !IsBlank(values[k]) && Answered(oracle, k, values[k], start, hi)
    ensures forall k :: k in values ==> !IsBlank(values[k]) && Answered(oracle, k, values[k], lo, hi)
  {
  }

  /** Prompt `n` brought an error, or no usable text for some of the keys. */
  ghost predicate NotAnswered(oracle: int -> Outcome, n: int, keys: set<string>) {
    oracle(n).Failed? || exists k :: k in keys && !Usable(oracle(n).parsed, k)
  }

  /** A batch that fails was let down by its last prompt. */
  lemma BrokenMeansNotAnswered(oracle: int -> Outcome, batch: seq<Item>, start: nat, items: seq<Item>)
    requires Translate(oracle, batch, 0, start, 0).result.Broken? && forall i :: i in batch ==> i in items
    ensures Translate(oracle, batch, 0, start, 0).next > start
    ensures NotAnswered(oracle, Translate(oracle, batch, 0, start, 0).next - 1, Keys(items))
  {
    var r := Translate(oracle, batch, 0, start, 0);
    FailureIsLastAttempt(oracle, batch, 0, start, 0);
    var lo, hi :| 0 <= lo <= hi <= |batch| && Attempt(oracle(r.next - 1), batch[lo..hi]) == r.result;
    if oracle(r.next - 1).Reply? {
      ValidatedValues(oracle(r.next - 1).parsed, batch[lo..hi]);
      var i :| i in batch[lo..hi] && !Usable(oracle(r.next - 1).parsed, i.key);
      assert i in batch && i.key in Keys(items);
    }
  }

  /** `await translateBatch(…)` for one of the batches. */
  method AskForBatch(oracle: int -> Outcome, batch: seq<Item>, prompts: nat, ghost pending: seq<Item>, ghost start: int)
    returns (translated: Translation, next: nat)
    requires |batch| >= 1 && start <= prompts && forall i :: i in batch ==> i in pending
    ensures prompts < next <= prompts + 4 * |batch| - 2
    ensures translated.Broken? ==> NotAnswered(oracle, next - 1, Keys(pending))
    ensures translated.Translated? ==>
              && translated.values.Keys == Keys(batch)
              && forall k :: k in translated.values ==>
                   !IsBlank(translated.values[k]) && Answered(oracle, k, translated.values[k], start, next)
  {
    hide NotAnswered, Translate, Answered, IsBlank;
    var deepest;
    translated, next, deepest := TranslateBatch(oracle, batch, prompts, 0);
    AttemptBound(oracle, batch, 0, prompts, 0);
    if translated.Broken? {
      BrokenMeansNotAnswered(oracle, batch, prompts, pending);
    } else {
      BatchAnswers(oracle, batch, prompts);
      WiderWindow(oracle, translated.values, start, prompts, next);
    }
  }

  /** All pending items, batch by batch; the first batch that fails ends the run. */
  method TranslatePending(env: Env, pending: seq<Item>, oracle: int -> Outcome, start: nat, now: int,
                          nextFlat: map<string, string>, tm: map<string, TmEntry>) returns (f: Filling)
    requires DistinctItems(pending)
    ensures start <= f.prompts <= start + 4 * |pending|
    ensures f.GaveUp? ==> f.prompts > start && NotAnswered(oracle, f.prompts - 1, Keys(pending))
    ensures f.Complete? ==> Filled(env, pending, oracle, start, f.prompts, now, f.nextFlat, f.tm)
    ensures f.Complete? ==> ChangesOnly(pending, nextFlat, tm, f.nextFlat, f.tm)
  {
    var batches := BuildTranslationBatches(pending, env.budget);
    var next1, tm1, prompts := nextFlat, tm, start;
    NothingFilled(env, oracle, start, now, nextFlat, tm);
    hide FewestBatches, WithinLimits, EstimateBatchChars, Answered, IsBlank;
    hide Filled, ChangesOnly, Translate, Flatten, DistinctItems, NotAnswered, Keys;
    assert batches[..0] == [];
    for i := 0 to |batches|
      invariant start <= prompts <= start + 4 * |Flatten(batches[..i])|
      invariant Filled(env, Flatten(batches[..i]), oracle, start, prompts, now, next1, tm1)
      invariant ChangesOnly(Flatten(batches[..i]), nextFlat, tm, next1, tm1)
    {
      var batch := batches[i];
      FlattenPrefix(batches, i);
      assert batch in batches;
      NotEmpty(batch, env.budget);
      assert forall x :: x in batch ==> x in pending by { BatchIsPart(batches, i, pending); }
      assert |Flatten(batches[..i + 1])| <= |pending|;
      var translated, next := AskForBatch(oracle, batch, prompts, pending, start);
      if translated.Broken? {
        return GaveUp(next);
      }
      FilledLater(env, Flatten(batches[..i]), oracle, start, prompts, next, now, next1, tm1);
      DistinctPart(pending, |Flatten(batches[..i + 1])|);
      assert pending[..|Flatten(batches[..i + 1])|] == Flatten(batches[..i]) + batch;
      next1, tm1 := StoreBatch(env, Flatten(batches[..i]), batch, translated.values, now,
                               oracle, start, next, nextFlat, tm, next1, tm1);
      prompts := next;
    }
    assert batches[..|batches|] == batches;
    f := Complete(next1, tm1, prompts);
  }

  lemma BatchIsPart(batches: seq<seq<Item>>, i: nat, pending: seq<Item>)
    requires i < |batches| && Flatten(batches) == pending
    ensures forall x :: x in batches[i] ==> x in pending
  {
    FlattenPrefix(batches, i);
    var all := Flatten(batches[..i + 1]);
    forall x | x in batches[i] ensures x in pending {
      assert x in all;
      var k :| 0 <= k < |all| && all[k] == x;
      assert pending[k] == x;
    }
  }

  lemma NothingFilled(env: Env, oracle: int -> Outcome, lo: int, now: int, nextFlat: map<string, string>, tm: map<string, TmEntry>)
    ensures Flatten<Item>([]) == []
    ensures Filled(env, [], oracle, lo, lo, now, nextFlat, tm) && ChangesOnly([], nextFlat, tm, nextFlat, tm)
  {
  }

  // ----- what still has no value -----

  /** `existing` unless forced, and otherwise the English text. */
  function FallbackValue(inp: Inputs, force: bool, item: Item): string {
    if item.key in inp.existing && !force then inp.existing[item.key] else item.text
  }

  predicate CountsAsFallback(inp: Inputs, force: bool, item: Item) {
    (item.key in inp.existing && !force) ==> item.key in inp.previousFallback
  }

  /** Exactly the pending keys without a value got one, and exactly those that count were
      added to the fallback keys. */
  ghost predicate FallbacksFilled(inp: Inputs, force: bool, pending: seq<Item>,
                                  next0: map<string, string>, fallback0: seq<string>,
                                  nextFlat: map<string, string>, fallbackKeys: seq<string>) {
    && nextFlat.Keys == next0.Keys + Keys(pending)
    && (forall k :: k in next0 ==> nextFlat[k] == next0[k])
    && (forall i :: i in pending && i.key !in next0 ==> nextFlat[i.key] == FallbackValue(inp, force, i))
    && (forall k :: k in fallbackKeys <==> k in fallback0 || NewFallback(inp, force, pending, next0, k))
  }

  ghost predicate NewFallback(inp: Inputs, force: bool, pending: seq<Item>, next0: map<string, string>, k: string) {
    k !in next0 && exists i :: i in pending && i.key == k && CountsAsFallback(inp, force, i)
  }

  /** The same in plain terms: the existing value unless forced, else the English text; and a key
      counts as a fallback when it got English text, or was one before. */
  lemma FallbackRules(inp: Inputs, force: bool, pending: seq<Item>, next0: map<string, string>, fallback0: seq<string>,
                      nextFlat: map<string, string>, fallbackKeys: seq<string>, i: Item)
    requires FallbacksFilled(inp, force, pending, next0, fallback0, nextFlat, fallbackKeys)
    requires forall j, k :: 0 <= j < k < |pending| ==> pending[j].key != pending[k].key
    requires i in pending && i.key !in next0
    ensures i.key in inp.existing && !force ==>
              nextFlat[i.key] == inp.existing[i.key]
              && (i.key in fallbackKeys <==> i.key in fallback0 || i.key in inp.previousFallback)
    ensures i.key !in inp.existing || force ==> nextFlat[i.key] == i.text && i.key in fallbackKeys
  {
    var n :| 0 <= n < |pending| && pending[n] == i;
    if x :| x in pending && x.key == i.key && CountsAsFallback(inp, force, x) {
      var m :| 0 <= m < |pending| && pending[m] == x;
      assert m == n;
    }
  }

  method FillFallbacks(inp: Inputs, force: bool, pending: seq<Item>, next0: map<string, string>, fallback0: seq<string>)
    returns (nextFlat: map<string, string>, fallbackKeys: seq<string>)
    requires forall i, j :: 0 <= i < j < |pending| ==> pending[i].key != pending[j].key
    ensures FallbacksFilled(inp, force, pending, next0, fallback0, nextFlat, fallbackKeys)
  {
    nextFlat, fallbackKeys := next0, fallback0;
    assert pending[..0] == [];
    for n := 0 to |pending|
      invariant FallbacksFilled(inp, force, pending[..n], next0, fallback0, nextFlat, fallbackKeys)
    {
      var item := pending[n];
      assert pending[..n + 1] == pending[..n] + [item];
      if item.key in nextFlat {
        FallbackSkip(inp, force, pending[..n], item, next0, fallback0, nextFlat, fallbackKeys);
      } else {
        FallbackAdd(inp, force, pending[..n], item, next0, fallback0, nextFlat, fallbackKeys);
      }
      hide FallbacksFilled;
      if item.key !in nextFlat {
        if item.key in inp.existing && !force {
          nextFlat := nextFlat[item.key := inp.existing[item.key]];
          if item.key in inp.previousFallback {
            fallbackKeys := fallbackKeys + [item.key];
          }
        } else {
          nextFlat := nextFlat[item.key := item.text];
          fallbackKeys := fallbackKeys + [item.key];
        }
      }
    }
    assert pending[..|pending|] == pending;
  }

  lemma FallbackSkip(inp: Inputs, force: bool, done: seq<Item>, item: Item,
                     next0: map<string, string>, fallback0: seq<string>,
                     nextFlat: map<string, string>, fallbackKeys: seq<string>)
    requires FallbacksFilled(inp, force, done, next0, fallback0, nextFlat, fallbackKeys)
    requires item.key !in Keys(done) && item.key in nextFlat
    ensures FallbacksFilled(inp, force, done + [item], next0, fallback0, nextFlat, fallbackKeys)
  {
    SnocMembers(done, item);
    NewFallbackStep(inp, force, done, item, next0);
    hide FallbackValue, CountsAsFallback, NewFallback;
  }

  lemma FallbackAdd(inp: Inputs, force: bool, done: seq<Item>, item: Item,
                    next0: map<string, string>, fallback0: seq<string>,
                    nextFlat: map<string, string>, fallbackKeys: seq<string>)
    requires FallbacksFilled(inp, force, done, next0, fallback0, nextFlat, fallbackKeys)
    requires item.key !in nextFlat
    ensures FallbacksFilled(inp, force, done + [item], next0, fallback0,
                            nextFlat[item.key := FallbackValue(inp, force, item)],
                            if CountsAsFallback(inp, force, item) then fallbackKeys + [item.key] else fallbackKeys)
  {
    hide FallbackValue, CountsAsFallback, NewFallback;
    SnocMembers(done, item);
    NewFallbackStep(inp, force, done, item, next0);
    var keys1 := if CountsAsFallback(inp, force, item) then fallbackKeys + [item.key] else fallbackKeys;
    forall k ensures k in keys1 <==> k in fallback0 || NewFallback(inp, force, done + [item], next0, k) {
      assert k in keys1 <==> k in fallbackKeys || (k == item.key && CountsAsFallback(inp, force, item));
    }
  }

  lemma SnocMembers(done: seq<Item>, item: Item)
    ensures forall i :: i in done + [item] <==> i in done || i == item
    ensures Keys(done + [item]) == Keys(done) + {item.key}
  {
    assert item in done + [item];
    assert forall i :: i in done ==> i in done + [item];
  }

  lemma NewFallbackStep(inp: Inputs, force: bool, done: seq<Item>, item: Item, next0: map<string, string>)
    ensures forall k :: NewFallback(inp, force, done + [item], next0, k) <==>
              NewFallback(inp, force, done, next0, k) || (k == item.key && k !in next0 && CountsAsFallback(inp, force, item))
  {
    SnocMembers(done, item);
    hide CountsAsFallback;
  }

  // ----- the whole reconcile step -----

  datatype Plan = Plan(nextFlat: map<string, string>, fallbackKeys: seq<string>, tm: map<string, TmEntry>, prompts: nat)
                | Aborted(prompts: nat)

  /** The cache key is a hash of the key among others; it is taken not to collide. */
  ghost predicate CollisionFree(env: Env) {
    forall k1, h1, k2, h2 :: env.cacheKey(k1, h1) == env.cacheKey(k2, h2) ==> k1 == k2
  }

  /** What one source key ends up with. */
  ghost predicate Decided(env: Env, inp: Inputs, oracle: int -> Outcome, start: int, now: int, e: Entry, plan: Plan)
    requires plan.Plan?
  {
    && e.key in plan.nextFlat
    && match Reuse(env, inp, e)
       case Some(v) => plan.nextFlat[e.key] == v && (e.key in plan.fallbackKeys <==> e.key in inp.previousFallback)
       case None =>
         if env.allowTranslate then
           && !IsBlank(plan.nextFlat[e.key])
           && Answered(oracle, e.key, plan.nextFlat[e.key], start, plan.prompts)
           && CacheKeyOf(env, e) in plan.tm
           && plan.tm[CacheKeyOf(env, e)] == MemoryEntry(env, ItemOf(env, e), plan.nextFlat[e.key], now)
           && e.key !in plan.fallbackKeys
         else
           plan.nextFlat[e.key] == e.value && e.key in plan.fallbackKeys
  }

  /** The memory changes at the translated keys only. */
  ghost predicate MemoryKept(env: Env, inp: Inputs, source: seq<Entry>, plan: Plan)
    requires plan.Plan?
  {
    && (forall c :: c in inp.tm ==> c in plan.tm)
    && (forall c :: c in plan.tm && (c !in inp.tm || plan.tm[c] != inp.tm[c]) ==>
          env.allowTranslate && exists e :: e in source && CacheKeyOf(env, e) == c && Reuse(env, inp, e).None?)
  }

  ghost predicate Reconciled(env: Env, inp: Inputs, source: seq<Entry>, oracle: int -> Outcome, start: int, now: int, plan: Plan)
    requires plan.Plan?
  {
    && plan.nextFlat.Keys == KeysOf(source)
    && (forall k :: k in plan.fallbackKeys ==> k in KeysOf(source))
    && (forall e :: e in source ==> Decided(env, inp, oracle, start, now, e, plan))
    && MemoryKept(env, inp, source, plan)
  }

  method Reconcile(env: Env, inp: Inputs, force: bool, source: seq<Entry>, oracle: int -> Outcome, start: nat, now: int)
    returns (plan: Plan)
    requires DistinctKeys(source) && CollisionFree(env)
    ensures plan.Plan? ==> Reconciled(env, inp, source, oracle, start, now, plan)
    ensures (forall e :: e in source ==> Reuse(env, inp, e).Some?) ==> plan.Plan? && plan.prompts == start
    ensures !env.allowTranslate ==> plan.Plan? && plan.prompts == start
    ensures plan.Aborted? ==> plan.prompts > start && NotAnswered(oracle, plan.prompts - 1, KeysOf(source))
    ensures start <= plan.prompts <= start + 4 * |source|
  {
    hide NotAnswered, Keys, Filled, ChangesOnly, FallbacksFilled, Reconciled, DistinctItems, PendingOf, KeptFallbacks, Reused, Reuse, CollisionFree;
    var nextFlat, pending, fallbackKeys := ScanSource(env, inp, source);
    var tm, prompts := inp.tm, start;
    PendingDistinct(env, inp, source);
    if env.allowTranslate && |pending| > 0 {
      var f := TranslatePending(env, pending, oracle, start, now, nextFlat, tm);
      if f.GaveUp? {
        assert pending[0] in pending;
        PendingNotAnswered(env, inp, source, oracle, f.prompts - 1);
        return Aborted(f.prompts);
      }
      nextFlat, tm, prompts := f.nextFlat, f.tm, f.prompts;
    }
    ghost var filled := nextFlat;
    nextFlat, fallbackKeys := FillFallbacks(inp, force, pending, nextFlat, fallbackKeys);
    plan := Plan(nextFlat, fallbackKeys, tm, prompts);
    assert FillState(env, inp, source, oracle, start, now, filled, tm, prompts) by {
      if !(env.allowTranslate && |pending| > 0) { NothingFilled(env, oracle, start, now, filled, tm); }
    }
    PlanFacts(env, inp, force, source, oracle, start, now, filled, plan);
  }

  lemma PendingNotAnswered(env: Env, inp: Inputs, source: seq<Entry>, oracle: int -> Outcome, n: int)
    requires DistinctKeys(source) && NotAnswered(oracle, n, Keys(PendingOf(env, inp, source)))
    ensures NotAnswered(oracle, n, KeysOf(source))
  {
    PendingKeys(env, inp, source);
    hide PendingOf, Reused;
    assert Keys(PendingOf(env, inp, source)) <= KeysOf(source);
  }

  lemma PendingDistinct(env: Env, inp: Inputs, source: seq<Entry>)
    requires DistinctKeys(source) && CollisionFree(env)
    ensures DistinctItems(PendingOf(env, inp, source))
    ensures |PendingOf(env, inp, source)| <= |source|
    ensures (forall e :: e in source ==> Reuse(env, inp, e).Some?) ==> PendingOf(env, inp, source) == []
  {
    PendingFacts(env, inp, source);
    var p := PendingOf(env, inp, source);
    forall i, j | 0 <= i < j < |p| ensures p[i].cacheKey != p[j].cacheKey {
      assert p[i] in p && p[j] in p;
    }
    PendingNotLonger(env, inp, source);
    assert p != [] ==> p[0] in p;
  }

  lemma {:induction false} PendingNotLonger(env: Env, inp: Inputs, source: seq<Entry>)
    ensures |PendingOf(env, inp, source)| <= |source|
  {
    if source != [] { PendingNotLonger(env, inp, source[..|source| - 1]); }
  }

  /** After the translations, if there were any. */
  ghost predicate FillState(env: Env, inp: Inputs, source: seq<Entry>, oracle: int -> Outcome, start: int, now: int,
                            filled: map<string, string>, tm: map<string, TmEntry>, prompts: int) {
    var items := if env.allowTranslate then PendingOf(env, inp, source) else [];
    Filled(env, items, oracle, start, prompts, now, filled, tm)
    && ChangesOnly(items, Reused(env, inp, source), inp.tm, filled, tm)
  }

  lemma KeyIdentifies(source: seq<Entry>, d: Entry, e: Entry)
    requires DistinctKeys(source) && d in source && e in source && d.key == e.key
    ensures d == e
  {
    var i :| 0 <= i < |source| && source[i] == d;
    var j :| 0 <= j < |source| && source[j] == e;
  }

  /** A kept key is not pending. */
  lemma KeptNotPending(env: Env, inp: Inputs, source: seq<Entry>, e: Entry)
    requires DistinctKeys(source) && e in source && Reuse(env, inp, e).Some?
    ensures e.key !in Keys(PendingOf(env, inp, source))
  {
    PendingFacts(env, inp, source);
    if i :| i in PendingOf(env, inp, source) && i.key == e.key {
      KeyIdentifies(source, Entry(i.key, i.text), e);
    }
  }

  /** The plan after the fallback loop, in terms of the state before it. */
  ghost predicate PlanState(env: Env, inp: Inputs, force: bool, source: seq<Entry>, filled: map<string, string>, plan: Plan)
    requires plan.Plan?
  {
    FallbacksFilled(inp, force, PendingOf(env, inp, source), filled, KeptFallbacks(env, inp, source),
                    plan.nextFlat, plan.fallbackKeys)
  }

  lemma KeptDecided(env: Env, inp: Inputs, force: bool, source: seq<Entry>, oracle: int -> Outcome, start: nat, now: int,
                    filled: map<string, string>, plan: Plan, e: Entry)
    requires DistinctKeys(source) && plan.Plan? && e in source && Reuse(env, inp, e).Some?
    requires FillState(env, inp, source, oracle, start, now, filled, plan.tm, plan.prompts)
    requires PlanState(env, inp, force, source, filled, plan)
    ensures Decided(env, inp, oracle, start, now, e, plan)
  {
    ReusedFacts(env, inp, source);
    FallbackFacts(env, inp, source);
    KeptNotPending(env, inp, source, e);
    hide Filled, Reuse, PendingOf, KeptFallbacks, Reused, IsBlank, Answered, MemoryEntry;
    assert e.key in filled && filled[e.key] == Reuse(env, inp, e).value;
    assert !NewFallback(inp, force, PendingOf(env, inp, source), filled, e.key);
    hide NewFallback;
  }

  lemma PendingDecided(env: Env, inp: Inputs, force: bool, source: seq<Entry>, oracle: int -> Outcome, start: nat, now: int,
                       filled: map<string, string>, plan: Plan, e: Entry)
    requires DistinctKeys(source) && plan.Plan? && e in source && Reuse(env, inp, e).None?
    requires FillState(env, inp, source, oracle, start, now, filled, plan.tm, plan.prompts)
    requires PlanState(env, inp, force, source, filled, plan)
    ensures Decided(env, inp, oracle, start, now, e, plan)
  {
    ReusedFacts(env, inp, source);
    FallbackFacts(env, inp, source);
    PendingFacts(env, inp, source);
    var item := ItemOf(env, e);
    assert item in PendingOf(env, inp, source) && item.key == e.key;
    hide PendingOf, KeptFallbacks, Reused, IsBlank, AnswerAt;
    if !env.allowTranslate {
      assert e.key !in filled && e.key !in inp.existing;
      assert CountsAsFallback(inp, force, item);
      assert NewFallback(inp, force, PendingOf(env, inp, source), filled, e.key);
    }
  }

  lemma PendingKeys(env: Env, inp: Inputs, source: seq<Entry>)
    requires DistinctKeys(source)
    ensures Reused(env, inp, source).Keys + Keys(PendingOf(env, inp, source)) == KeysOf(source)
  {
    ReusedFacts(env, inp, source);
    PendingFacts(env, inp, source);
    var pending := PendingOf(env, inp, source);
    hide Reuse;
    forall k | k in Keys(pending) ensures k in KeysOf(source) {
      var i :| i in pending && i.key == k;
      assert Entry(i.key, i.text) in source;
    }
    forall e | e in source ensures e.key in Reused(env, inp, source).Keys + Keys(pending) {
      if Reuse(env, inp, e).None? { assert ItemOf(env, e) in pending; }
    }
  }

  lemma MemoryKeptByFilling(env: Env, inp: Inputs, source: seq<Entry>, filled: map<string, string>, plan: Plan)
    requires DistinctKeys(source) && plan.Plan?
    requires ChangesOnly(if env.allowTranslate then PendingOf(env, inp, source) else [],
                         Reused(env, inp, source), inp.tm, filled, plan.tm)
    ensures MemoryKept(env, inp, source, plan)
  {
    PendingFacts(env, inp, source);
    var pending := PendingOf(env, inp, source);
    hide Reuse, PendingOf, Reused;
    forall c | c in plan.tm && (c !in inp.tm || plan.tm[c] != inp.tm[c])
      ensures env.allowTranslate && exists e :: e in source && CacheKeyOf(env, e) == c && Reuse(env, inp, e).None?
    {
      assert env.allowTranslate;
      var i :| i in pending && i.cacheKey == c;
      var e := Entry(i.key, i.text);
      assert e in source && CacheKeyOf(env, e) == c && Reuse(env, inp, e).None?;
    }
  }

  lemma FallbacksAreSourceKeys(env: Env, inp: Inputs, force: bool, source: seq<Entry>, filled: map<string, string>, plan: Plan)
    requires DistinctKeys(source) && plan.Plan? && PlanState(env, inp, force, source, filled, plan)
    ensures forall k :: k in plan.fallbackKeys ==> k in KeysOf(source)
  {
    FallbackFacts(env, inp, source);
    PendingKeys(env, inp, source);
  }

  lemma PlanFacts(env: Env, inp: Inputs, force: bool, source: seq<Entry>, oracle: int -> Outcome, start: nat, now: int,
                  filled: map<string, string>, plan: Plan)
    requires DistinctKeys(source) && plan.Plan?
    requires FillState(env, inp, source, oracle, start, now, filled, plan.tm, plan.prompts)
    requires PlanState(env, inp, force, source, filled, plan)
    ensures Reconciled(env, inp, source, oracle, start, now, plan)
  {
    PendingKeys(env, inp, source);
    FallbacksAreSourceKeys(env, inp, force, source, filled, plan);
    MemoryKeptByFilling(env, inp, source, filled, plan);
    hide Filled, PlanState, FillState;
    forall e | e in source ensures Decided(env, inp, oracle, start, now, e, plan) {
      if Reuse(env, inp, e).Some? {
        KeptDecided(env, inp, force, source, oracle, start, now, filled, plan, e);
      } else {
        PendingDecided(env, inp, force, source, oracle, start, now, filled, plan, e);
      }
    }
  }

  // ----- the decision in plain terms -----

  /** What a key ends up with: the memory first, then the existing file, unless the key was a
      fallback that can be translated now; otherwise a prompt's answer, or the English text. */
  lemma KeyOutcome(env: Env, inp: Inputs, source: seq<Entry>, oracle: int -> Outcome, start: int, now: int, plan: Plan, e: Entry)
    requires plan.Plan? && Reconciled(env, inp, source, oracle, start, now, plan) && e in source
    ensures var c := env.cacheKey(e.key, env.hashText(e.value));
            var again := env.allowTranslate && e.key in inp.previousFallback;
            var kept := !again && (c in inp.tm || e.key in inp.existing);
            && e.key in plan.nextFlat
            && (!again && c in inp.tm ==> plan.nextFlat[e.key] == inp.tm[c].translated)
            && (!again && c !in inp.tm && e.key in inp.existing ==> plan.nextFlat[e.key] == inp.existing[e.key])
            && (kept ==> (e.key in plan.fallbackKeys <==> e.key in inp.previousFallback))
            && (!kept && !env.allowTranslate ==> plan.nextFlat[e.key] == e.value && e.key in plan.fallbackKeys)
            && (!kept && env.allowTranslate ==>
                  && e.key !in plan.fallbackKeys && !IsBlank(plan.nextFlat[e.key])
                  && (exists n :: start <= n < plan.prompts && oracle(n).Reply? && e.key in oracle(n).parsed
                                  && oracle(n).parsed[e.key] == Text(plan.nextFlat[e.key]))
                  && c in plan.tm
                  && plan.tm[c] == TmEntry(c, env.model, env.provider, e.key, e.value, env.hashText(e.value), plan.nextFlat[e.key], now))
  {
    assert Decided(env, inp, oracle, start, now, e, plan);
    if Reuse(env, inp, e).None? && env.allowTranslate {
      var n :| start <= n < plan.prompts && AnswerAt(oracle, n, e.key, plan.nextFlat[e.key]);
      assert oracle(n).parsed[e.key] == Text(plan.nextFlat[e.key]);
    }
  }

  /** A memory entry that no source key of this run has asked for again is kept as it is. */
  lemma MemoryOutcome(env: Env, inp: Inputs, source: seq<Entry>, oracle: int -> Outcome, start: int, now: int, plan: Plan, c: string)
    requires plan.Plan? && Reconciled(env, inp, source, oracle, start, now, plan)
    ensures c in inp.tm ==> c in plan.tm
    ensures (forall e :: e in source && env.cacheKey(e.key, env.hashText(e.value)) == c ==>
               !env.allowTranslate || (e.key !in inp.previousFallback && (c in inp.tm || e.key in inp.existing))) ==>
              (c in plan.tm <==> c in inp.tm) && (c in inp.tm ==> plan.tm[c] == inp.tm[c])
  {
    assert MemoryKept(env, inp, source, plan);
    hide Decided;
    if c in plan.tm && (c !in inp.tm || plan.tm[c] != inp.tm[c]) {
      var e :| e in source && CacheKeyOf(env, e) == c && Reuse(env, inp, e).None?;
      assert env.cacheKey(e.key, env.hashText(e.value)) == c;
    }
  }
}
