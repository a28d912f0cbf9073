/** The active-recall cache: a time-limited map with insertion-order eviction. */
module RecallCache {
  import opened Common

  const DEFAULT_MAX_CACHE_ENTRIES: nat := 1000

  datatype Entry<R> = Entry(expiresAt: int, result: R)

  /** A JavaScript `Map`: its keys in insertion order, and what they hold. */
  datatype Cache<R> = Cache(order: seq<string>, entries: map<string, Entry<R>>)

  ghost predicate WellFormed<R>(c: Cache<R>) {
    && (forall i, j :: 0 <= i < j < |c.order| ==> c.order[i] != c.order[j])
    && (forall k :: k in c.order <==> k in c.entries)
  }

  function Without(order: seq<string>, key: string): (r: seq<string>)
    ensures forall k :: k in r <==> k in order && k != key
  {
    if order == [] then []
    else
      var front := Without(order[..|order| - 1], key);
      if order[|order| - 1] == key then front else front + [order[|order| - 1]]
  }

  function Delete<R>(c: Cache<R>, key: string): Cache<R> {
    Cache(Without(c.order, key), c.entries - {key})
  }

  /** Walking `keys` in order and deleting what has expired. */
  function SweepKeys<R>(c: Cache<R>, keys: seq<string>, now: int): Cache<R> {
    if keys == [] then c
    else
      var swept, key := SweepKeys(c, keys[..|keys| - 1], now), keys[|keys| - 1];
      if key in swept.entries && swept.entries[key].expiresAt <= now then Delete(swept, key) else swept
  }

  /** `sweepExpiredCacheEntries(now)` */
  function Sweep<R>(c: Cache<R>, now: int): Cache<R> {
    SweepKeys(c, c.order, now)
  }

  /** The eviction loop drops the oldest key until the cache fits; an empty oldest key ends it. */
  function Evict<R>(c: Cache<R>): Cache<R>
    decreases |c.order|
  {
    if |c.order| <= DEFAULT_MAX_CACHE_ENTRIES || c.order[0] == "" then c
    else Evict(Cache(c.order[1..], c.entries - {c.order[0]}))
  }

  /** `setCachedResult`: the sweep and the expiry read the clock one after the other. */
  function Set<R>(c: Cache<R>, key: string, result: R, ttl: int, sweptAt: int, now: int): Cache<R> {
    Evict(Append(Delete(Sweep(c, sweptAt), key), key, Entry(now + ttl, result)))
  }

  function Append<R>(c: Cache<R>, key: string, entry: Entry<R>): Cache<R> {
    Cache(c.order + [key], c.entries[key := entry])
  }

  /** `getCachedResult`: an expired entry is deleted on sight. */
  function Get<R>(c: Cache<R>, key: string, now: int): (Option<R>, Cache<R>) {
    if key !in c.entries then (None, c)
    else if c.entries[key].expiresAt <= now then (None, Delete(c, key))
    else (Some(c.entries[key].result), c)
  }

  lemma {:induction false} WithoutNoDup(order: seq<string>, key: string)
    requires forall i, j :: 0 <= i < j < |order| ==> order[i] != order[j]
    ensures forall i, j :: 0 <= i < j < |Without(order, key)| ==> Without(order, key)[i] != Without(order, key)[j]
  {
    if order != [] {
      var front := order[..|order| - 1];
      WithoutNoDup(front, key);
      assert order[|order| - 1] !in front;
    }
  }

  lemma {:induction false} WithoutAbsent(order: seq<string>, key: string)
    requires key !in order
    ensures Without(order, key) == order
  {
    if order != [] {
      assert order[|order| - 1] in order;
      WithoutAbsent(order[..|order| - 1], key);
    }
  }

  lemma {:induction false} WithoutMiddle(a: seq<string>, key: string, b: seq<string>)
    requires key !in a && key !in b
    ensures Without(a + [key] + b, key) == a + b
    decreases |b|
  {
    if b == [] {
      assert (a + [key] + b)[..|a|] == a;
      WithoutAbsent(a, key);
    } else {
      assert (a + [key] + b)[..|a + [key] + b| - 1] == a + [key] + b[..|b| - 1];
      WithoutMiddle(a, key, b[..|b| - 1]);
    }
  }

  lemma WithoutFirst(order: seq<string>)
    requires order != [] && forall i, j :: 0 <= i < j < |order| ==> order[i] != order[j]
    ensures Without(order, order[0]) == order[1..]
  {
    assert order == [] + [order[0]] + order[1..];
    WithoutMiddle([], order[0], order[1..]);
  }

  lemma DeleteAbsent<R>(c: Cache<R>, key: string)
    requires WellFormed(c) && key !in c.entries
    ensures Delete(c, key) == c
  {
    WithoutAbsent(c.order, key);
  }

  // ----- the order of the keys -----

  /** The keys that come after `k` in the order. */
  ghost function Newer(order: seq<string>, k: string): set<string> {
    if order == [] then {}
    else
      var front, last := order[..|order| - 1], order[|order| - 1];
      if k in front then Newer(front, k) + {last} else {}
  }

  lemma {:induction false} NewerInOrder(order: seq<string>, k: string)
    ensures forall x :: x in Newer(order, k) ==> x in order
  {
    if order != [] { NewerInOrder(order[..|order| - 1], k); }
  }

  lemma {:induction false} NewerWithout(order: seq<string>, x: string, k: string)
    requires k != x
    ensures Newer(Without(order, x), k) <= Newer(order, k)
  {
    if order != [] {
      var front, last := order[..|order| - 1], order[|order| - 1];
      NewerWithout(front, x, k);
      if last != x {
        assert Without(order, x)[..|Without(order, x)| - 1] == Without(front, x);
      }
    }
  }

  lemma {:induction false} NewerTail(order: seq<string>, k: string)
    requires order != [] && order[0] != k
    ensures Newer(order[1..], k) <= Newer(order, k)
  {
    if |order| > 1 {
      var front := order[..|order| - 1];
      assert front[1..] == order[1..][..|order| - 2];
      NewerTail(front, k);
    }
  }

  /** Everything after the oldest key is newer than it. */
  lemma {:induction false} NewerThanOldest(order: seq<string>)
    requires order != [] && forall i, j :: 0 <= i < j < |order| ==> order[i] != order[j]
    ensures |Newer(order, order[0])| == |order| - 1
  {
    if |order| > 1 {
      var front := order[..|order| - 1];
      NewerThanOldest(front);
      NewerInOrder(front, order[0]);
      assert order[0] in front;
    }
  }

  // ----- what the operations keep -----

  lemma DeleteWellFormed<R>(c: Cache<R>, key: string)
    requires WellFormed(c)
    ensures WellFormed(Delete(c, key))
  {
    WithoutNoDup(c.order, key);
  }

  ghost predicate Shrinks<R>(before: Cache<R>, after: Cache<R>) {
    && WellFormed(after)
    && (forall k :: k in after.entries ==> k in before.entries && after.entries[k] == before.entries[k])
    && (forall k :: k in after.order ==> Newer(after.order, k) <= Newer(before.order, k))
  }

  lemma DeleteShrinks<R>(c: Cache<R>, key: string)
    requires WellFormed(c)
    ensures Shrinks(c, Delete(c, key))
  {
    DeleteWellFormed(c, key);
    forall k | k in Delete(c, key).order ensures Newer(Delete(c, key).order, k) <= Newer(c.order, k) {
      NewerWithout(c.order, key, k);
    }
  }

  lemma {:induction false} SweepShrinks<R>(c: Cache<R>, keys: seq<string>, now: int)
    requires WellFormed(c)
    ensures Shrinks(c, SweepKeys(c, keys, now))
    ensures forall k :: k in c.entries && c.entries[k].expiresAt > now ==> k in SweepKeys(c, keys, now).entries
    ensures forall k :: k in SweepKeys(c, keys, now).entries && k in keys ==> c.entries[k].expiresAt > now
  {
    if keys != [] {
      var front, key := keys[..|keys| - 1], keys[|keys| - 1];
      SweepShrinks(c, front, now);
      DeleteShrinks(SweepKeys(c, front, now), key);
      assert keys == front + [key];
    }
  }

  /** After a sweep nothing expired is left. */
  lemma SweepLeavesUnexpired<R>(c: Cache<R>, now: int, k: string)
    requires WellFormed(c)
    ensures k in Sweep(c, now).entries <==> k in c.entries && c.entries[k].expiresAt > now
    ensures k in Sweep(c, now).entries ==> Sweep(c, now).entries[k] == c.entries[k]
  {
    SweepShrinks(c, c.order, now);
  }

  lemma DropOldestWellFormed<R>(c: Cache<R>)
    requires WellFormed(c) && c.order != []
    ensures WellFormed(Cache(c.order[1..], c.entries - {c.order[0]}))
    ensures c.order[0] !in c.order[1..]
  {
    assert c.order == [c.order[0]] + c.order[1..];
  }

  lemma DropOldest<R>(c: Cache<R>)
    requires WellFormed(c) && c.order != []
    ensures Shrinks(c, Cache(c.order[1..], c.entries - {c.order[0]}))
  {
    DropOldestWellFormed(c);
    hide WellFormed, Newer;
    forall k | k in c.order[1..] ensures Newer(c.order[1..], k) <= Newer(c.order, k) {
      NewerTail(c.order, k);
    }
  }

  lemma {:induction false} EvictShrinks<R>(c: Cache<R>)
    requires WellFormed(c)
    ensures Shrinks(c, Evict(c))
    decreases |c.order|
  {
    if !(|c.order| <= DEFAULT_MAX_CACHE_ENTRIES || c.order[0] == "") {
      DropOldest(c);
      EvictShrinks(Cache(c.order[1..], c.entries - {c.order[0]}));
    }
  }

  /** Eviction spares a key with fewer than 1000 newer ones. */
  lemma {:induction false} EvictSpares<R>(c: Cache<R>, k: string)
    requires WellFormed(c) && k in c.entries && |Newer(c.order, k)| < DEFAULT_MAX_CACHE_ENTRIES
    ensures k in Evict(c).entries
    decreases |c.order|
  {
    if !(|c.order| <= DEFAULT_MAX_CACHE_ENTRIES || c.order[0] == "") {
      NewerThanOldest(c.order);
      DropOldest(c);
      var next := Cache(c.order[1..], c.entries - {c.order[0]});
      assert k in next.order;
      SubsetSize(Newer(next.order, k), Newer(c.order, k));
      EvictSpares(next, k);
    }
  }

  lemma SubsetSize(a: set<string>, b: set<string>)
    requires a <= b
    ensures |a| <= |b|
  {
    assert b == a + (b - a);
  }

  /** The size limit holds after eviction exactly when no empty key is among those to drop. */
  lemma {:induction false} EvictFitsIff<R>(c: Cache<R>)
    requires WellFormed(c)
    ensures |Evict(c).order| <= DEFAULT_MAX_CACHE_ENTRIES <==>
              |c.order| <= DEFAULT_MAX_CACHE_ENTRIES || "" !in c.order[..|c.order| - DEFAULT_MAX_CACHE_ENTRIES]
    decreases |c.order|
  {
    if |c.order| > DEFAULT_MAX_CACHE_ENTRIES {
      var n := |c.order| - DEFAULT_MAX_CACHE_ENTRIES;
      assert c.order[..n] == [c.order[0]] + c.order[1..][..n - 1];
      if c.order[0] != "" {
        DropOldest(c);
        EvictFitsIff(Cache(c.order[1..], c.entries - {c.order[0]}));
      }
    }
  }

  // ----- runs -----

  datatype Op<R> = GetOp(key: string, now: int) | SetOp(key: string, result: R, ttl: int, sweptAt: int, now: int)

  function Do<R>(c: Cache<R>, op: Op<R>): Cache<R> {
    match op
    case GetOp(key, now) => Get(c, key, now).1
    case SetOp(key, result, ttl, sweptAt, now) => Set(c, key, result, ttl, sweptAt, now)
  }

  function Run<R>(ops: seq<Op<R>>): Cache<R> {
    if ops == [] then Cache([], map[]) else Do(Run(ops[..|ops| - 1]), ops[|ops| - 1])
  }

  function Start<R>(op: Op<R>): int {
    if op.GetOp? then op.now else op.sweptAt
  }

  /** The clock never runs backwards, between operations or inside one. */
  ghost predicate Monotone<R>(ops: seq<Op<R>>) {
    && (forall i :: 0 <= i < |ops| ==> Start(ops[i]) <= ops[i].now)
    && (forall i, j :: 0 <= i < j < |ops| ==> ops[i].now <= Start(ops[j]))
  }

  /** The unbounded map: the last write of a key, whenever it was. */
  function LastWrite<R>(ops: seq<Op<R>>, key: string): Option<Entry<R>> {
    if ops == [] then None
    else
      var last := ops[|ops| - 1];
      if last.SetOp? && last.key == key then Some(Entry(last.now + last.ttl, last.result))
      else LastWrite(ops[..|ops| - 1], key)
  }

  /** The other keys written since the last write of `key`. */
  function WrittenSince<R>(ops: seq<Op<R>>, key: string): set<string> {
    if ops == [] then {}
    else
      var last := ops[|ops| - 1];
      if last.SetOp? && last.key == key then {}
      else if last.SetOp? then WrittenSince(ops[..|ops| - 1], key) + {last.key}
      else WrittenSince(ops[..|ops| - 1], key)
  }

  /** What the cache holds is what was last written, and in the order of the writes. */
  ghost predicate Agrees<R>(ops: seq<Op<R>>, c: Cache<R>) {
    && WellFormed(c)
    && (forall k :: k in c.entries ==> LastWrite(ops, k) == Some(c.entries[k]))
    && (forall k :: k in c.order ==> Newer(c.order, k) <= WrittenSince(ops, k))
  }

  lemma ShrinkAgrees<R>(ops: seq<Op<R>>, c: Cache<R>, d: Cache<R>)
    requires Agrees(ops, c) && Shrinks(c, d)
    ensures Agrees(ops, d)
  {
  }

  lemma AppendNewer(order: seq<string>, key: string)
    requires key !in order
    ensures forall k :: k in order ==> Newer(order + [key], k) == Newer(order, k) + {key}
    ensures Newer(order + [key], key) == {}
  {
    assert (order + [key])[..|order|] == order;
  }

  lemma WritesStep<R>(ops: seq<Op<R>>, op: Op<R>)
    requires op.SetOp?
    ensures forall k :: LastWrite(ops + [op], k) ==
              if k == op.key then Some(Entry(op.now + op.ttl, op.result)) else LastWrite(ops, k)
    ensures forall k :: WrittenSince(ops + [op], k) == if k == op.key then {} else WrittenSince(ops, k) + {op.key}
  {
    assert (ops + [op])[..|ops|] == ops;
  }

  /** Appending the new entry, before eviction. */
  lemma AppendAgrees<R>(ops: seq<Op<R>>, op: Op<R>, c: Cache<R>)
    requires Agrees(ops, c) && op.SetOp? && op.key !in c.entries
    ensures Agrees(ops + [op], Append(c, op.key, Entry(op.now + op.ttl, op.result)))
  {
    AppendNewer(c.order, op.key);
    WritesStep(ops, op);
    AppendWellFormed(c, op.key, Entry(op.now + op.ttl, op.result));
    hide Newer, LastWrite, WrittenSince;
    var d := Append(c, op.key, Entry(op.now + op.ttl, op.result));
    assert forall k :: k in d.order <==> k in c.order || k == op.key;
    forall k | k in d.order
      ensures Newer(d.order, k) <= WrittenSince(ops + [op], k)
    {
      if k != op.key { assert Newer(c.order, k) <= WrittenSince(ops, k); }
    }
  }

  lemma AppendWellFormed<R>(c: Cache<R>, key: string, entry: Entry<R>)
    requires WellFormed(c) && key !in c.entries
    ensures WellFormed(Append(c, key, entry))
  {
    assert forall k :: k in c.order + [key] <==> k in c.order || k == key;
  }

  /** The cache a write leaves before the eviction loop. */
  function Overfull<R>(c: Cache<R>, op: Op<R>): Cache<R>
    requires op.SetOp?
  {
    Append(Delete(Sweep(c, op.sweptAt), op.key), op.key, Entry(op.now + op.ttl, op.result))
  }

  lemma OverfullKeys<R>(c: Cache<R>, op: Op<R>)
    requires WellFormed(c) && op.SetOp?
    ensures forall k :: k in c.entries && c.entries[k].expiresAt > op.sweptAt ==> k in Overfull(c, op).entries
    ensures forall k :: k in Overfull(c, op).entries ==> k in c.entries || k == op.key
    ensures |Overfull(c, op).order| <= |c.order| + 1
  {
    SweepShrinks(c, c.order, op.sweptAt);
    SweepNotLonger(c, c.order, op.sweptAt);
    WithoutNotLonger(Sweep(c, op.sweptAt).order, op.key);
    hide Newer;
  }

  lemma SweepAgrees<R>(ops: seq<Op<R>>, c: Cache<R>, now: int)
    requires Agrees(ops, c)
    ensures Agrees(ops, Sweep(c, now))
  {
    SweepShrinks(c, c.order, now);
    ShrinkAgrees(ops, c, Sweep(c, now));
  }

  lemma DeleteAgrees<R>(ops: seq<Op<R>>, c: Cache<R>, key: string)
    requires Agrees(ops, c)
    ensures Agrees(ops, Delete(c, key))
  {
    DeleteShrinks(c, key);
    ShrinkAgrees(ops, c, Delete(c, key));
  }

  lemma OverfullAgrees<R>(ops: seq<Op<R>>, op: Op<R>, c: Cache<R>)
    requires Agrees(ops, c) && op.SetOp?
    ensures Agrees(ops + [op], Overfull(c, op))
  {
    hide Agrees, Sweep;
    SweepAgrees(ops, c, op.sweptAt);
    DeleteAgrees(ops, Sweep(c, op.sweptAt), op.key);
    AppendAgrees(ops, op, Delete(Sweep(c, op.sweptAt), op.key));
  }

  lemma {:induction false} WithoutNotLonger(order: seq<string>, key: string)
    ensures |Without(order, key)| <= |order|
  {
    if order != [] { WithoutNotLonger(order[..|order| - 1], key); }
  }

  lemma {:induction false} SweepNotLonger<R>(c: Cache<R>, keys: seq<string>, now: int)
    ensures |SweepKeys(c, keys, now).order| <= |c.order|
  {
    if keys != [] {
      SweepNotLonger(c, keys[..|keys| - 1], now);
      WithoutNotLonger(SweepKeys(c, keys[..|keys| - 1], now).order, keys[|keys| - 1]);
    }
  }

  lemma GetAgrees<R>(ops: seq<Op<R>>, op: Op<R>, c: Cache<R>)
    requires Agrees(ops, c) && op.GetOp?
    ensures Agrees(ops + [op], Get(c, op.key, op.now).1)
  {
    DeleteAgrees(ops, c, op.key);
    assert (ops + [op])[..|ops|] == ops;
    hide Newer, Delete;
  }

  lemma SetAgrees<R>(ops: seq<Op<R>>, op: Op<R>, c: Cache<R>)
    requires Agrees(ops, c) && op.SetOp?
    ensures Agrees(ops + [op], Evict(Overfull(c, op)))
  {
    OverfullAgrees(ops, op, c);
    hide Overfull, Newer, Evict;
    EvictShrinks(Overfull(c, op));
    ShrinkAgrees(ops + [op], Overfull(c, op), Evict(Overfull(c, op)));
  }

  lemma DoAgrees<R>(ops: seq<Op<R>>, op: Op<R>, c: Cache<R>)
    requires Agrees(ops, c)
    ensures Agrees(ops + [op], Do(c, op))
  {
    hide Agrees, Evict, Sweep, Delete;
    if op.GetOp? {
      GetAgrees(ops, op, c);
    } else {
      SetAgrees(ops, op, c);
    }
  }

  lemma {:induction false} RunAgrees<R>(ops: seq<Op<R>>)
    ensures Agrees(ops, Run(ops))
  {
    if ops != [] {
      var front, op := ops[..|ops| - 1], ops[|ops| - 1];
      hide Agrees, Do;
      RunAgrees(front);
      assert ops == front + [op];
      DoAgrees(front, op, Run(front));
    }
  }

  /** A hit returns the latest write of that key, and that write has not expired. */
  lemma HitIsLatestWrite<R>(ops: seq<Op<R>>, key: string, now: int)
    requires Get(Run(ops), key, now).0.Some?
    ensures LastWrite(ops, key).Some? && LastWrite(ops, key).value.expiresAt > now
    ensures Get(Run(ops), key, now).0 == Some(LastWrite(ops, key).value.result)
  {
    RunAgrees(ops);
  }

  lemma EvictSparesRecent<R>(ops: seq<Op<R>>, c: Cache<R>, key: string)
    requires Agrees(ops, c) && key in c.entries && |WrittenSince(ops, key)| < DEFAULT_MAX_CACHE_ENTRIES
    ensures key in Evict(c).entries
  {
    assert key in c.order;
    SubsetSize(Newer(c.order, key), WrittenSince(ops, key));
    EvictSpares(c, key);
  }

  lemma SetSpares<R>(ops: seq<Op<R>>, op: Op<R>, c: Cache<R>, key: string)
    requires op.SetOp? && op.sweptAt <= op.now && Agrees(ops, c)
    requires key == op.key || (key in c.entries && LastWrite(ops, key).value.expiresAt > op.now)
    requires |WrittenSince(ops + [op], key)| < DEFAULT_MAX_CACHE_ENTRIES
    ensures key in Do(c, op).entries
  {
    OverfullKeys(c, op);
    assert key in Overfull(c, op).entries;
    OverfullAgrees(ops, op, c);
    hide Agrees, Overfull, WrittenSince;
    EvictSparesRecent(ops + [op], Overfull(c, op), key);
  }

  /** A key that has not expired is still there while fewer than 1000 other keys were written. */
  lemma {:induction false} RecentKeyIsKept<R>(ops: seq<Op<R>>, key: string)
    requires Monotone(ops) && ops != [] && LastWrite(ops, key).Some?
    requires LastWrite(ops, key).value.expiresAt > ops[|ops| - 1].now
    requires |WrittenSince(ops, key)| < DEFAULT_MAX_CACHE_ENTRIES
    ensures key in Run(ops).entries
  {
    var front, op := ops[..|ops| - 1], ops[|ops| - 1];
    assert ops == front + [op];
    RunAgrees(front);
    if !(op.SetOp? && op.key == key) {
      SubsetSize(WrittenSince(front, key), WrittenSince(ops, key));
      assert front[|front| - 1].now <= Start(op);
      RecentKeyIsKept(front, key);
    }
    hide Agrees, Evict, Sweep, Delete, Monotone;
    if op.SetOp? {
      SetSpares(front, op, Run(front), key);
    } else if op.key == key {
      RunHolds(front, key);
    }
  }

  lemma RunHolds<R>(ops: seq<Op<R>>, key: string)
    requires key in Run(ops).entries
    ensures LastWrite(ops, key) == Some(Run(ops).entries[key])
  {
    RunAgrees(ops);
  }

  /** The guarantee behind eviction: an unexpired key hits, with its latest value. */
  lemma RecentKeyHits<R>(ops: seq<Op<R>>, key: string, now: int)
    requires Monotone(ops + [GetOp(key, now)]) && LastWrite(ops, key).Some?
    requires LastWrite(ops, key).value.expiresAt > now && |WrittenSince(ops, key)| < DEFAULT_MAX_CACHE_ENTRIES
    ensures Get(Run(ops), key, now).0 == Some(LastWrite(ops, key).value.result)
  {
    var all := ops + [GetOp(key, now)];
    assert all[..|ops|] == ops;
    assert ops[|ops| - 1] == all[|ops| - 1] && all[|ops|] == GetOp(key, now);
    assert Monotone(ops) by {
      assert forall i :: 0 <= i < |ops| ==> ops[i] == all[i];
    }
    RecentKeyIsKept(ops, key);
    RunAgrees(ops);
  }

  ghost predicate NamedKeys<R>(ops: seq<Op<R>>) {
    forall i :: 0 <= i < |ops| && ops[i].SetOp? ==> ops[i].key != ""
  }

  lemma KeysAreNamed<R>(ops: seq<Op<R>>)
    requires NamedKeys(ops)
    ensures "" !in Run(ops).entries
  {
    RunAgrees(ops);
    LastWriteNamed(ops);
  }

  lemma {:induction false} LastWriteNamed<R>(ops: seq<Op<R>>)
    requires NamedKeys(ops)
    ensures LastWrite(ops, "").None?
  {
    if ops != [] { LastWriteNamed(ops[..|ops| - 1]); }
  }

  lemma SetFits<R>(ops: seq<Op<R>>, op: Op<R>, c: Cache<R>)
    requires op.SetOp? && op.key != "" && Agrees(ops, c) && "" !in c.entries
    requires |c.order| <= DEFAULT_MAX_CACHE_ENTRIES
    ensures |Evict(Overfull(c, op)).order| <= DEFAULT_MAX_CACHE_ENTRIES
  {
    OverfullKeys(c, op);
    OverfullAgrees(ops, op, c);
    assert "" !in Overfull(c, op).entries;
    hide Overfull, Newer;
    EvictFitsIff(Overfull(c, op));
  }

  /** With the keys `buildCacheKey` makes, which are never empty, the size limit always holds. */
  lemma {:induction false} SizeIsBounded<R>(ops: seq<Op<R>>)
    requires NamedKeys(ops)
    ensures |Run(ops).order| <= DEFAULT_MAX_CACHE_ENTRIES
  {
    if ops != [] {
      var front, op := ops[..|ops| - 1], ops[|ops| - 1];
      assert op.SetOp? ==> op.key != "";
      SizeIsBounded(front);
      KeysAreNamed(front);
      RunAgrees(front);
      hide Agrees, Evict, Sweep, NamedKeys;
      if op.SetOp? {
        SetFits(front, op, Run(front));
      } else {
        WithoutNotLonger(Run(front).order, op.key);
      }
    }
  }

  lemma RunSnoc<R>(ops: seq<Op<R>>, op: Op<R>)
    ensures Run(ops + [op]) == Do(Run(ops), op)
  {
    assert (ops + [op])[..|ops|] == ops;
  }

  // ----- the guarantees in terms of the calls themselves -----

  /** The `i`-th call is the last that wrote `key`. */
  ghost predicate IsLastSet<R>(ops: seq<Op<R>>, key: string, i: int) {
    0 <= i < |ops| && ops[i].SetOp? && ops[i].key == key && forall j :: i < j < |ops| ==> !(ops[j].SetOp? && ops[j].key == key)
  }

  ghost function OtherKeysSetAfter<R>(ops: seq<Op<R>>, i: int): set<string> {
    set j | 0 <= j < |ops| && i < j && ops[j].SetOp? :: ops[j].key
  }

  lemma {:induction false} LastWriteIs<R>(ops: seq<Op<R>>, key: string)
    ensures match LastWrite(ops, key)
            case None => forall i :: 0 <= i < |ops| ==> !(ops[i].SetOp? && ops[i].key == key)
            case Some(e) => exists i :: IsLastSet(ops, key, i) && e == Entry(ops[i].now + ops[i].ttl, ops[i].result)
  {
    if ops != [] {
      var front, last := ops[..|ops| - 1], ops[|ops| - 1];
      LastWriteIs(front, key);
      if last.SetOp? && last.key == key {
        assert IsLastSet(ops, key, |ops| - 1);
      } else if LastWrite(front, key).Some? {
        var i :| IsLastSet(front, key, i) && LastWrite(front, key).value == Entry(front[i].now + front[i].ttl, front[i].result);
        assert IsLastSet(ops, key, i) && ops[i] == front[i];
      }
    }
  }

  lemma {:induction false} WrittenSinceIs<R>(ops: seq<Op<R>>, key: string, i: int)
    requires IsLastSet(ops, key, i)
    ensures WrittenSince(ops, key) == OtherKeysSetAfter(ops, i)
  {
    var front, last := ops[..|ops| - 1], ops[|ops| - 1];
    if i < |front| {
      assert IsLastSet(front, key, i);
      WrittenSinceIs(front, key, i);
      assert OtherKeysSetAfter(ops, i) == OtherKeysSetAfter(front, i) + if last.SetOp? then {last.key} else {} by {
        forall k | k in OtherKeysSetAfter(ops, i) ensures k in OtherKeysSetAfter(front, i) || (last.SetOp? && k == last.key) {
          var j :| 0 <= j < |ops| && i < j && ops[j].SetOp? && ops[j].key == k;
          assert j < |front| ==> front[j] == ops[j];
        }
        forall k | k in OtherKeysSetAfter(front, i) ensures k in OtherKeysSetAfter(ops, i) {
          var j :| 0 <= j < |front| && i < j && front[j].SetOp? && front[j].key == k;
          assert ops[j] == front[j];
        }
      }
    } else {
      assert OtherKeysSetAfter(ops, i) == {};
    }
  }

  lemma LastSetIsUnique<R>(ops: seq<Op<R>>, key: string, i: int, j: int)
    requires IsLastSet(ops, key, i) && IsLastSet(ops, key, j)
    ensures i == j
  {
  }

  /** A hit returns what the last set of that key wrote, less than its time to live ago. */
  lemma HitsAreTheLastSet<R>(ops: seq<Op<R>>, key: string, now: int)
    requires Get(Run(ops), key, now).0.Some?
    ensures exists i :: IsLastSet(ops, key, i) && Get(Run(ops), key, now).0 == Some(ops[i].result) && now - ops[i].now < ops[i].ttl
  {
    HitIsLatestWrite(ops, key, now);
    LastWriteIs(ops, key);
  }

  /** The last set of a key is hit within its time to live while fewer than 1000 other keys were
      set after it. */
  lemma LastSetIsHit<R>(ops: seq<Op<R>>, key: string, now: int, i: int)
    requires Monotone(ops + [GetOp(key, now)]) && IsLastSet(ops, key, i)
    requires now - ops[i].now < ops[i].ttl && |OtherKeysSetAfter(ops, i)| < 1000
    ensures Get(Run(ops), key, now).0 == Some(ops[i].result)
  {
    LastWriteIs(ops, key);
    WrittenSinceIs(ops, key, i);
    var j :| IsLastSet(ops, key, j) && LastWrite(ops, key).value == Entry(ops[j].now + ops[j].ttl, ops[j].result);
    LastSetIsUnique(ops, key, i, j);
    RecentKeyHits(ops, key, now);
  }

  /** A read deletes the key it finds expired, and nothing else. */
  lemma GetDeletes<R>(c: Cache<R>, key: string, now: int, k: string)
    requires WellFormed(c)
    ensures WellFormed(Get(c, key, now).1)
    ensures k in Get(c, key, now).1.entries <==> k in c.entries && (k != key || now < c.entries[k].expiresAt)
    ensures k in Get(c, key, now).1.entries ==> Get(c, key, now).1.entries[k] == c.entries[k]
  {
    DeleteWellFormed(c, key);
  }

  lemma {:induction false} EvictKeepsNewest<R>(c: Cache<R>)
    requires c.order != []
    ensures Evict(c).order != [] && Evict(c).order[|Evict(c).order| - 1] == c.order[|c.order| - 1]
    decreases |c.order|
  {
    if |c.order| > 1000 && c.order[0] != "" {
      EvictKeepsNewest(Cache(c.order[1..], c.entries - {c.order[0]}));
    }
  }

  /** A write puts its key last and leaves no other entry that had expired. */
  lemma SetSweeps<R>(c: Cache<R>, key: string, result: R, ttl: int, sweptAt: int, now: int)
    requires WellFormed(c)
    ensures var d := Set(c, key, result, ttl, sweptAt, now);
            && d.order != [] && d.order[|d.order| - 1] == key
            && (forall k :: k in d.entries && k != key ==> k in c.entries && c.entries[k].expiresAt > sweptAt && d.entries[k] == c.entries[k])
  {
    var swept := Sweep(c, sweptAt);
    forall k ensures k in swept.entries ==> k in c.entries && c.entries[k].expiresAt > sweptAt && swept.entries[k] == c.entries[k] {
      SweepLeavesUnexpired(c, sweptAt, k);
    }
    SweepShrinks(c, c.order, sweptAt);
    DeleteWellFormed(swept, key);
    var grown := Append(Delete(swept, key), key, Entry(now + ttl, result));
    AppendWellFormed(Delete(swept, key), key, Entry(now + ttl, result));
    EvictShrinks(grown);
    EvictKeepsNewest(grown);
    hide Sweep, Evict;
  }

  // ----- a run that outgrows the limit -----

  /** The empty key is written first, then `n` others, all at time 0. */
  function Overfilling<R>(n: nat, result: R): seq<Op<R>> {
    if n == 0 then [SetOp("", result, 1, 0, 0)]
    else Overfilling(n - 1, result) + [SetOp(seq(n, _ => 'a'), result, 1, 0, 0)]
  }

  lemma {:induction false} OverfillingFacts<R>(n: nat, result: R)
    ensures |Overfilling(n, result)| == n + 1
    ensures forall op :: op in Overfilling(n, result) ==> op.SetOp? && op.sweptAt == 0 && op.now == 0
  {
    if n > 0 { OverfillingFacts(n - 1, result); }
  }

  /** The empty key is the oldest, the others are short, and nothing has expired. */
  ghost predicate Stuck<R>(c: Cache<R>, n: nat) {
    && WellFormed(c) && |c.order| == n + 1 && c.order[0] == ""
    && (forall k :: k in c.entries ==> |k| <= n && c.entries[k].expiresAt == 1)
  }

  lemma {:induction false} SweepKeepsAll<R>(c: Cache<R>, keys: seq<string>, now: int)
    requires forall k :: k in c.entries ==> c.entries[k].expiresAt > now
    ensures SweepKeys(c, keys, now) == c
  {
    if keys != [] { SweepKeepsAll(c, keys[..|keys| - 1], now); }
  }

  /** A new key is added behind the empty one, which stops the eviction. */
  lemma SetGrows<R>(c: Cache<R>, n: nat, key: string, result: R)
    requires Stuck(c, n) && |key| == n + 1
    ensures Stuck(Set(c, key, result, 1, 0, 0), n + 1)
  {
    SweepKeepsAll(c, c.order, 0);
    DeleteAbsent(c, key);
    AppendWellFormed(c, key, Entry(1, result));
    var grown := Append(c, key, Entry(1, result));
    EvictStops(grown);
    hide Sweep, Delete, Evict;
    assert Set(c, key, result, 1, 0, 0) == grown;
  }

  lemma EvictStops<R>(c: Cache<R>)
    requires |c.order| <= DEFAULT_MAX_CACHE_ENTRIES || c.order[0] == ""
    ensures Evict(c) == c
  {
  }

  lemma SweepOfNothing<R>(now: int)
    ensures Sweep<R>(Cache([], map[]), now) == Cache([], map[])
  {
  }

  lemma FirstSet<R>(result: R)
    ensures Stuck(Set(Cache([], map[]), "", result, 1, 0, 0), 0)
  {
    var empty: Cache<R> := Cache([], map[]);
    SweepOfNothing<R>(0);
    DeleteAbsent(empty, "");
    hide Evict, Sweep, Delete;
    assert Append(empty, "", Entry(1, result)) == Cache([""], map["" := Entry(1, result)]);
    EvictStops(Cache([""], map["" := Entry(1, result)]));
  }

  lemma OverfillingStep<R>(n: nat, result: R)
    ensures Run(Overfilling(n, result)) ==
            if n == 0 then Set(Cache([], map[]), "", result, 1, 0, 0)
            else Set(Run(Overfilling(n - 1, result)), seq(n, _ => 'a'), result, 1, 0, 0)
  {
    hide Set;
    if n == 0 {
      RunSnoc<R>([], SetOp("", result, 1, 0, 0));
      assert [] + [SetOp("", result, 1, 0, 0)] == Overfilling(0, result);
    } else {
      RunSnoc(Overfilling(n - 1, result), SetOp(seq(n, _ => 'a'), result, 1, 0, 0));
    }
  }

  lemma {:induction false} OverfillingGrows<R>(n: nat, result: R)
    ensures Stuck(Run(Overfilling(n, result)), n)
  {
    hide Run, Set, Stuck, Overfilling;
    OverfillingStep(n, result);
    if n == 0 {
      FirstSet(result);
    } else {
      OverfillingGrows(n - 1, result);
      SetGrows(Run(Overfilling(n - 1, result)), n - 1, seq(n, _ => 'a'), result);
    }
  }

  /** Over all runs whose clock does not run backwards, the size limit holds if and only if the
      empty key may not be written. */
  lemma SizeIsBoundedIff<R>(allowEmpty: bool, result: R)
    ensures (forall ops: seq<Op<R>> :: Monotone(ops) && (allowEmpty || NamedKeys(ops)) ==>
               |Run(ops).order| <= 1000)
            <==> !allowEmpty
  {
    if allowEmpty {
      var ops := Overfilling(DEFAULT_MAX_CACHE_ENTRIES, result);
      OverfillingFacts(DEFAULT_MAX_CACHE_ENTRIES, result);
      OverfillingGrows(DEFAULT_MAX_CACHE_ENTRIES, result);
      assert forall i :: 0 <= i < |ops| ==> ops[i] in ops;
      assert Monotone(ops) && |Run(ops).order| == DEFAULT_MAX_CACHE_ENTRIES + 1;
    } else {
      forall ops: seq<Op<R>> | NamedKeys(ops) ensures |Run(ops).order| <= DEFAULT_MAX_CACHE_ENTRIES {
        SizeIsBounded(ops);
      }
    }
  }

  // ----- the cache as it is mutated -----

  /** An unexpired key with fewer than 1000 other keys written since. */
  ghost predicate WillHit<R>(ops: seq<Op<R>>, key: string, now: int) {
    && Monotone(ops + [GetOp(key, now)]) && LastWrite(ops, key).Some?
    && LastWrite(ops, key).value.expiresAt > now && |WrittenSince(ops, key)| < DEFAULT_MAX_CACHE_ENTRIES
  }

  lemma GetOpFacts<R>(ops: seq<Op<R>>, key: string, now: int)
    ensures Run(ops + [GetOp(key, now)]) == Get(Run(ops), key, now).1
    ensures Get(Run(ops), key, now).0.Some? ==>
              LastWrite(ops, key).Some? && Get(Run(ops), key, now).0.value == LastWrite(ops, key).value.result
    ensures WillHit(ops, key, now) ==> Get(Run(ops), key, now).0.Some?
  {
    RunSnoc(ops, GetOp(key, now));
    hide Run, Get, LastWrite, WrittenSince, Monotone;
    if Get(Run(ops), key, now).0.Some? { HitIsLatestWrite(ops, key, now); }
    if WillHit(ops, key, now) { RecentKeyHits(ops, key, now); }
  }

  class ActiveRecallCache<R> {
    var order: seq<string>
    var entries: map<string, Entry<R>>
    ghost var ops: seq<Op<R>>

    constructor ()
      ensures Valid() && Tracked() && ops == []
    {
      order, entries, ops := [], map[], [];
    }

    ghost function Now(): Cache<R>
      reads this
    {
      Cache(order, entries)
    }

    ghost predicate Valid()
      reads this
    {
      WellFormed(Now())
    }

    /** The cache is what its calls so far make of it. */
    ghost predicate Tracked()
      reads this
    {
      Now() == Run(ops)
    }

    method DeleteKey(key: string)
      requires Valid()
      modifies `order, `entries
      ensures Valid() && Now() == Delete(old(Now()), key)
    {
      WithoutNoDup(order, key);
      order := Without(order, key);
      entries := entries - {key};
    }

    method GetCachedResult(key: string, now: int) returns (r: Option<R>)
      requires Valid() && Tracked()
      modifies this
      ensures Valid() && (r, Now()) == Get(old(Now()), key, now)
      ensures Tracked() && ops == old(ops) + [GetOp(key, now)]
      ensures r.Some? ==> LastWrite(old(ops), key).Some? && r.value == LastWrite(old(ops), key).value.result
      ensures WillHit(old(ops), key, now) ==> r.Some?
    {
      GetOpFacts(ops, key, now);
      ops := ops + [GetOp(key, now)];
      hide Run, LastWrite, WillHit;
      if key !in entries {
        return None;
      }
      var cached := entries[key];
      if cached.expiresAt <= now {
        DeleteKey(key);
        return None;
      }
      r := Some(cached.result);
    }

    method SweepExpiredCacheEntries(now: int)
      requires Valid()
      modifies `order, `entries
      ensures Valid() && Now() == Sweep(old(Now()), now)
    {
      var keys := order;
      for i := 0 to |keys|
        invariant Valid() && Now() == SweepKeys(old(Now()), keys[..i], now)
      {
        assert keys[..i + 1][..i] == keys[..i];
        if keys[i] in entries && entries[keys[i]].expiresAt <= now {
          DeleteKey(keys[i]);
        }
      }
      assert keys[..|keys|] == keys;
    }

    method SetCachedResult(key: string, result: R, ttl: int, sweptAt: int, now: int)
      requires Valid() && Tracked()
      modifies this
      ensures Valid() && Now() == Set(old(Now()), key, result, ttl, sweptAt, now)
      ensures Tracked() && ops == old(ops) + [SetOp(key, result, ttl, sweptAt, now)]
    {
      RunSnoc(ops, SetOp(key, result, ttl, sweptAt, now));
      ops := ops + [SetOp(key, result, ttl, sweptAt, now)];
      hide Run, Set;
      Insert(key, result, ttl, sweptAt, now);
    }

    /** Sweep, move the key to the end, evict. */
    method Insert(key: string, result: R, ttl: int, sweptAt: int, now: int)
      requires Valid()
      modifies `order, `entries
      ensures Valid() && Now() == Set(old(Now()), key, result, ttl, sweptAt, now)
    {
      SweepExpiredCacheEntries(sweptAt);
      ghost var swept := Now();
      if key in entries {
        DeleteKey(key);
      } else {
        DeleteAbsent(Now(), key);
      }
      assert Now() == Delete(swept, key);
      order := order + [key];
      entries := entries[key := Entry(now + ttl, result)];
      ghost var full := Now();
      while |order| > DEFAULT_MAX_CACHE_ENTRIES
        invariant Valid() && Evict(Now()) == Evict(full)
        decreases |order|
      {
        var oldestKey := order[0];
        if oldestKey == "" {
          break;
        }
        WithoutFirst(order);
        DeleteKey(oldestKey);
      }
    }
  }
}
