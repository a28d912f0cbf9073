/** `buildTranslationBatches`: greedy batching under a size and a character limit. */
module TranslationBatches {
  import opened Common

  datatype Item = Item(cacheKey: string, key: string, text: string, textHash: string)

  const MAX_BATCH_ITEMS: nat := 20

  /** `item.key.length + item.text.length` */
  function ItemLength(item: Item): nat {
    Utf16Length(item.key) + Utf16Length(item.text)
  }

  /** `estimateBatchChars` */
  function EstimateBatchChars(items: seq<Item>): nat {
    if items == [] then 2
    else EstimateBatchChars(items[..|items| - 1]) + ItemLength(items[|items| - 1]) + 8
  }

  /** What one item adds to the running total: its estimate as a batch of its own. */
  function ItemChars(item: Item): nat {
    ItemLength(item) + 10
  }

  /** `2 + Σ (|key| + |text| + 10)`: the total the greedy loop compares with the budget. */
  function BatchChars(items: seq<Item>): nat {
    if items == [] then 2 else BatchChars(items[..|items| - 1]) + ItemChars(items[|items| - 1])
  }

  lemma EstimateOfOne(item: Item)
    ensures EstimateBatchChars([item]) == ItemChars(item)
  {
    assert [item][..0] == [];
  }

  lemma {:induction false} EstimateBelowTotal(items: seq<Item>)
    ensures EstimateBatchChars(items) + 2 * |items| == BatchChars(items)
  {
    if items != [] { EstimateBelowTotal(items[..|items| - 1]); }
  }

  /** The text of all keys and values together. */
  function TotalLength(items: seq<Item>): nat {
    if items == [] then 0
    else Utf16Length(items[0].key) + Utf16Length(items[0].text) + TotalLength(items[1..])
  }

  lemma {:induction false} TotalLengthSnoc(items: seq<Item>, last: Item)
    ensures TotalLength(items + [last]) == TotalLength(items) + Utf16Length(last.key) + Utf16Length(last.text)
  {
    if items == [] {
      assert [last][1..] == [];
    } else {
      TotalLengthSnoc(items[1..], last);
      assert (items + [last])[1..] == items[1..] + [last];
    }
  }

  /** Both totals are plain sums: 2 for the batch, the texts, and 8 or 10 for every item. */
  lemma {:induction false} TotalsAreSums(items: seq<Item>)
    ensures EstimateBatchChars(items) == 2 + TotalLength(items) + 8 * |items|
    ensures BatchChars(items) == 2 + TotalLength(items) + 10 * |items|
  {
    if items != [] {
      var front, last := items[..|items| - 1], items[|items| - 1];
      TotalsAreSums(front);
      TotalLengthSnoc(front, last);
      assert items == front + [last];
    }
  }

  lemma {:induction false} BatchCharsAppend(a: seq<Item>, b: seq<Item>)
    ensures BatchChars(a + b) == BatchChars(a) + BatchChars(b) - 2
  {
    if b == [] {
      assert a + b == a;
    } else {
      BatchCharsAppend(a, b[..|b| - 1]);
      assert (a + b)[..|a + b| - 1] == a + b[..|b| - 1];
    }
  }

  /** The limits a batch meets. The budget is a positive number, not always whole. */
  ghost predicate Fits(batch: seq<Item>, budget: real) {
    0 < |batch| <= MAX_BATCH_ITEMS && (|batch| == 1 || BatchChars(batch) as real <= budget)
  }

  /** The limits in plain terms. */
  ghost predicate WithinLimits(batch: seq<Item>, budget: real) {
    1 <= |batch| <= 20 && (|batch| == 1 || (2 + TotalLength(batch) + 10 * |batch|) as real <= budget)
  }

  lemma NotEmpty(batch: seq<Item>, budget: real)
    requires WithinLimits(batch, budget)
    ensures |batch| >= 1
  {
  }

  lemma FitsIff(batch: seq<Item>, budget: real)
    ensures Fits(batch, budget) <==> WithinLimits(batch, budget)
  {
    TotalsAreSums(batch);
  }

  function Flatten<T>(batches: seq<seq<T>>): seq<T> {
    if batches == [] then [] else batches[0] + Flatten(batches[1..])
  }

  lemma {:induction false} FlattenSnoc<T>(batches: seq<seq<T>>, last: seq<T>)
    ensures Flatten(batches + [last]) == Flatten(batches) + last
  {
    if batches == [] {
      assert [last][1..] == [];
    } else {
      FlattenSnoc(batches[1..], last);
      assert (batches + [last])[1..] == batches[1..] + [last];
      assert batches[0] + (Flatten(batches[1..]) + last) == (batches[0] + Flatten(batches[1..])) + last;
    }
  }

  /** A contiguous partition of `items` into batches that meet the limits. */
  ghost predicate Partitions(batches: seq<seq<Item>>, items: seq<Item>, budget: real) {
    Flatten(batches) == items && forall b :: b in batches ==> Fits(b, budget)
  }

  /** No batch but the last could have taken the item that follows it. */
  ghost predicate Maximal(batches: seq<seq<Item>>, budget: real) {
    forall i, j {:trigger batches[i], batches[j]} :: 0 <= i && j == i + 1 && j < |batches| ==>
      FullBefore(batches[i], batches[j], budget)
  }

  ghost predicate FullBefore(batch: seq<Item>, next: seq<Item>, budget: real) {
    next != [] && !Fits(batch + [next[0]], budget)
  }

  /** A contiguous part of a batch that fits, fits. */
  lemma PartFits(batch: seq<Item>, lo: nat, hi: nat, budget: real)
    requires Fits(batch, budget) && lo < hi <= |batch|
    ensures Fits(batch[lo..hi], budget)
  {
    if |batch| > 1 {
      var a, b, c := batch[..lo], batch[lo..hi], batch[hi..];
      assert batch == a + (b + c);
      BatchCharsAppend(a, b + c);
      BatchCharsAppend(b, c);
      AtLeastTwo(a);
      AtLeastTwo(c);
    }
  }

  lemma {:induction false} AtLeastTwo(items: seq<Item>)
    ensures BatchChars(items) >= 2
  {
    if items != [] { AtLeastTwo(items[..|items| - 1]); }
  }

  lemma PartitionTail(batches: seq<seq<Item>>, items: seq<Item>, budget: real)
    requires Partitions(batches, items, budget) && batches != []
    ensures Fits(batches[0], budget) && |batches[0]| <= |items|
    ensures batches[0] == items[..|batches[0]|]
    ensures Partitions(batches[1..], items[|batches[0]|..], budget)
  {
    assert items == batches[0] + Flatten(batches[1..]);
    assert items[|batches[0]|..] == Flatten(batches[1..]);
  }

  /** A greedy batch together with the item after it does not fit. */
  lemma NextItem(greedy: seq<seq<Item>>, items: seq<Item>, budget: real)
    requires greedy != [] && Partitions(greedy, items, budget) && Maximal(greedy, budget)
    requires |greedy[0]| < |items|
    ensures !Fits(items[..|greedy[0]| + 1], budget)
  {
    var g := greedy[0];
    PartitionTail(greedy, items, budget);
    if |greedy| > 1 {
      assert FullBefore(greedy[0], greedy[1], budget);
      PartitionTail(greedy[1..], items[|g|..], budget);
      assert greedy[1][0] == items[|g|..][0] == items[|g|];
      assert items[..|g| + 1] == g + [greedy[1][0]];
    }
  }

  /** A greedy batch that starts no earlier than another batch ends no earlier. */
  lemma GreedyEndsLater(greedy: seq<seq<Item>>, batch: seq<Item>, items: seq<Item>, skip: nat, budget: real)
    requires skip <= |items| && greedy != []
    requires Partitions(greedy, items[skip..], budget) && Maximal(greedy, budget)
    requires |batch| <= |items| && batch == items[..|batch|] && Fits(batch, budget)
    ensures skip + |greedy[0]| >= |batch|
  {
    PartitionTail(greedy, items[skip..], budget);
    var end := skip + |greedy[0]|;
    if end < |batch| {
      NextItem(greedy, items[skip..], budget);
      PartFits(batch, skip, end + 1, budget);
      SamePart(items, skip, end + 1, |batch|);
      assert false;
    }
  }

  lemma SamePart(items: seq<Item>, lo: nat, hi: nat, n: nat)
    requires lo <= hi <= n <= |items|
    ensures items[..n][lo..hi] == items[lo..][..hi - lo]
  {
  }

  /** Greedy is optimal, for any start at or after the other partition's. */
  lemma {:induction false} GreedyNeverBehind(greedy: seq<seq<Item>>, other: seq<seq<Item>>,
                                             items: seq<Item>, skip: nat, budget: real)
    requires skip <= |items|
    requires Partitions(greedy, items[skip..], budget) && Maximal(greedy, budget)
    requires Partitions(other, items, budget)
    ensures |greedy| <= |other|
    decreases |other|
  {
    if greedy != [] {
      PartitionTail(greedy, items[skip..], budget);
      var g := |greedy[0]|;
      var o := |other[0]|;
      PartitionTail(other, items, budget);
      GreedyEndsLater(greedy, other[0], items, skip, budget);
      assert items[o..][skip + g - o..] == items[skip..][g..];
      GreedyNeverBehind(greedy[1..], other[1..], items[o..], skip + g - o, budget);
    }
  }

  /** No contiguous partition that meets the limits has fewer batches. */
  ghost predicate FewestBatches(batches: seq<seq<Item>>, items: seq<Item>, budget: real) {
    forall other :: Flatten(other) == items && (forall b :: b in other ==> WithinLimits(b, budget)) ==> |batches| <= |other|
  }

  /** Lossless, within the limits, and with no more batches than any other partition
      that meets them. */
  method BuildTranslationBatches(items: seq<Item>, budget: real) returns (batches: seq<seq<Item>>)
    ensures Flatten(batches) == items
    ensures forall b :: b in batches ==> WithinLimits(b, budget)
    ensures forall b :: b in batches && |b| > 1 ==> (EstimateBatchChars(b) + 2 * |b|) as real <= budget
    ensures FewestBatches(batches, items, budget)
  {
    EmptyBatch(budget);
    hide FewestBatches, Maximal, Fits, WithinLimits, BatchChars, Flatten, EstimateBatchChars;
    batches := [];
    var current: seq<Item> := [];
    var currentChars: nat := 2;
    for i := 0 to |items|
      invariant Flatten(batches) + current == items[..i]
      invariant currentChars == BatchChars(current)
      invariant forall b :: b in batches ==> Fits(b, budget)
      invariant i > 0 ==> current != [] && Fits(current, budget)
      invariant i == 0 ==> current == [] && batches == []
      invariant i > 0 ==> Maximal(batches + [current], budget)
    {
      var item := items[i];
      var itemChars := EstimateBatchChars([item]);
      EstimateOfOne(item);
      ghost var previous, done := current, batches;
      FitsWhen(current, item, budget);
      FitsWhen([], item, budget);
      assert [] + [item] == [item];
      var wouldOverflow := |current| > 0 && (currentChars + itemChars) as real > budget;
      var reachedMaxItems := |current| >= MAX_BATCH_ITEMS;
      if wouldOverflow || reachedMaxItems {
        FlattenSnoc(batches, current);
        batches := batches + [current];
        current := [];
        currentChars := 2;
      }
      current := current + [item];
      currentChars := currentChars + itemChars;
      assert items[..i + 1] == items[..i] + [item];
      assert Flatten(batches) + current == (Flatten(done) + previous) + [item];
      KeepsMaximal(done, previous, item, wouldOverflow || reachedMaxItems, i, budget);
    }
    assert items[..|items|] == items;
    if |current| > 0 {
      FlattenSnoc(batches, current);
      batches := batches + [current];
    }
    WithinEstimate(batches, budget);
    GreedyIsOptimal(batches, items, budget);
  }

  /** In the source's own estimate a batch of several items stays `2·|b|` below the budget. */
  lemma WithinEstimate(batches: seq<seq<Item>>, budget: real)
    requires forall b :: b in batches ==> Fits(b, budget)
    ensures forall b :: b in batches && |b| > 1 ==> (EstimateBatchChars(b) + 2 * |b|) as real <= budget
  {
    forall b | b in batches
      ensures |b| > 1 ==> (EstimateBatchChars(b) + 2 * |b|) as real <= budget
    {
      EstimateBelowTotal(b);
    }
  }

  lemma GreedyIsOptimal(batches: seq<seq<Item>>, items: seq<Item>, budget: real)
    requires Partitions(batches, items, budget) && Maximal(batches, budget)
    ensures forall b :: b in batches ==> WithinLimits(b, budget)
    ensures FewestBatches(batches, items, budget)
  {
    forall b ensures Fits(b, budget) <==> WithinLimits(b, budget) {
      FitsIff(b, budget);
    }
    hide Fits, WithinLimits, Maximal;
    forall other | Flatten(other) == items && forall b :: b in other ==> WithinLimits(b, budget)
      ensures |batches| <= |other|
    {
      assert items[0..] == items;
      GreedyNeverBehind(batches, other, items, 0, budget);
    }
  }

  lemma EmptyBatch(budget: real)
    ensures BatchChars([]) == 2 && Flatten<Item>([]) == [] && Maximal([], budget)
  {
  }

  lemma FitsWhen(current: seq<Item>, item: Item, budget: real)
    requires current != [] ==> Fits(current, budget)
    ensures BatchChars(current + [item]) == BatchChars(current) + ItemChars(item)
    ensures current == [] ==> Fits(current + [item], budget)
    ensures current != [] ==> (Fits(current + [item], budget) <==>
              |current| < MAX_BATCH_ITEMS && (BatchChars(current) + ItemChars(item)) as real <= budget)
  {
    assert (current + [item])[..|current|] == current;
  }

  /** Closing a batch only when the next item does not fit keeps the list maximal. */
  lemma KeepsMaximal(done: seq<seq<Item>>, current: seq<Item>, item: Item, close: bool, i: nat, budget: real)
    requires i == 0 ==> current == [] && done == []
    requires i > 0 ==> Fits(current, budget) && Maximal(done + [current], budget)
    requires close <==> !(current == [] || Fits(current + [item], budget))
    ensures Maximal(if close then done + [current] + [[item]] else done + [current + [item]], budget)
  {
    var before := done + [current];
    var after := if close then before + [[item]] else done + [current + [item]];
    forall k, j | 0 <= k && j == k + 1 && j < |after|
      ensures FullBefore(after[k], after[j], budget)
    {
      assert j < |before| ==> FullBefore(before[k], before[j], budget);
      assert close && j == |before| ==> after[k] == current;
    }
  }
}
