/** `translateBatch`: two attempts, and recursive halving when a prompt times out. */
module TranslateRetry {
  import opened Common
  import opened TranslationBatches

  const TRANSLATE_MAX_ATTEMPTS: nat := 2

  datatype JsonValue = Text(value: string) | NotText

  /** What one prompt brings back: parsed JSON, or an error with a message. Which of
      them comes is not under the program's control. */
  datatype Outcome = Reply(parsed: map<string, JsonValue>) | Failed(message: string)

  datatype Translation = Translated(values: map<string, string>) | Broken(message: string)

  /** A finished call: its result, the attempts made up to here, the deepest split. */
  datatype Run = Run(result: Translation, next: nat, deepest: nat)

  function LowerAscii(c: char): char {
    if 'A' <= c <= 'Z' then c - 'A' + 'a' else c
  }

  /** `isPromptTimeoutError`; only ASCII letters lower-case into the searched text. */
  predicate IsPromptTimeout(message: string) {
    exists i :: 0 <= i < |message| && TimedOutAt(message, i)
  }

  predicate TimedOutAt(message: string, i: nat) {
    i + |"timed out"| <= |message| &&
    forall k, j :: 0 <= k < |"timed out"| && j == i + k ==> LowerAscii(message[j]) == "timed out"[k]
  }

  predicate Usable(parsed: map<string, JsonValue>, key: string) {
    key in parsed && parsed[key].Text? && !IsBlank(parsed[key].value)
  }

  /** A usable text is any string with a character that is not white space. */
  lemma UsableIff(parsed: map<string, JsonValue>, key: string)
    ensures Usable(parsed, key) <==>
              key in parsed && parsed[key].Text? && exists i :: 0 <= i < |parsed[key].value| && !IsWhitespace(parsed[key].value[i])
  {
  }

  /** The reply as a translation, or the error for the first key it does not translate. */
  function Validated(parsed: map<string, JsonValue>, items: seq<Item>): Translation {
    if items == [] then Translated(map[])
    else
      var rest := Validated(parsed, items[..|items| - 1]);
      var key := items[|items| - 1].key;
      if rest.Broken? then rest
      else if !Usable(parsed, key) then Broken("missing translation for " + key)
      else Translated(rest.values[key := parsed[key].value])
  }

  function Attempt(outcome: Outcome, items: seq<Item>): Translation {
    match outcome
    case Reply(parsed) => Validated(parsed, items)
    case Failed(message) => Broken(message)
  }

  function Keys(items: seq<Item>): set<string> {
    set i | i in items :: i.key
  }

  function Midpoint(n: nat): nat {
    (n + 1) / 2
  }

  /** The call from its `attempt`-th try on, with `oracle(k)` the outcome of the k-th prompt. */
  function Translate(oracle: int -> Outcome, items: seq<Item>, attempt: nat, next: nat, depth: nat): Run
    requires attempt < TRANSLATE_MAX_ATTEMPTS
    decreases |items|, TRANSLATE_MAX_ATTEMPTS - attempt
  {
    var tried := Attempt(oracle(next), items);
    if tried.Translated? then Run(tried, next + 1, depth)
    else if IsPromptTimeout(tried.message) && |items| > 1 then
      var mid := Midpoint(|items|);
      var left := Translate(oracle, items[..mid], 0, next + 1, depth + 1);
      if left.result.Broken? then left
      else
        var right := Translate(oracle, items[mid..], 0, left.next, depth + 1);
        var deepest := Max(left.deepest, right.deepest);
        if right.result.Broken? then Run(right.result, right.next, deepest)
        else Run(Translated(left.result.values + right.result.values), right.next, deepest)
    else if IsPromptTimeout(tried.message) || attempt + 1 == TRANSLATE_MAX_ATTEMPTS then
      Run(tried, next + 1, depth)
    else Translate(oracle, items, attempt + 1, next + 1, depth)
  }

  method ValidateReply(parsed: map<string, JsonValue>, items: seq<Item>) returns (r: Translation)
    ensures r == Validated(parsed, items)
  {
    var translated: map<string, string> := map[];
    for i := 0 to |items|
      invariant Validated(parsed, items[..i]) == Translated(translated)
    {
      var key := items[i].key;
      assert items[..i + 1][..i] == items[..i];
      if !Usable(parsed, key) {
        BrokenStaysBroken(parsed, items, i + 1);
        return Broken("missing translation for " + key);
      }
      translated := translated[key := parsed[key].value];
    }
    assert items[..|items|] == items;
    r := Translated(translated);
  }

  lemma {:induction false} BrokenStaysBroken(parsed: map<string, JsonValue>, items: seq<Item>, n: nat)
    requires n <= |items| && Validated(parsed, items[..n]).Broken?
    ensures Validated(parsed, items) == Validated(parsed, items[..n])
    decreases |items|
  {
    if n == |items| {
      assert items[..n] == items;
    } else {
      assert items[..|items| - 1][..n] == items[..n];
      BrokenStaysBroken(parsed, items[..|items| - 1], n);
    }
  }

  /** The attempt loop, ending for every sequence of outcomes. */
  method TranslateBatch(oracle: int -> Outcome, items: seq<Item>, start: nat, splitDepth: nat)
    returns (result: Translation, next: nat, deepest: nat)
    ensures Run(result, next, deepest) == Translate(oracle, items, 0, start, splitDepth)
    ensures FirstPromptsDecide(oracle, items, start, result, next)
    decreases |items|
  {
    PromptsDecide(oracle, items, start, splitDepth);
    hide FirstPromptsDecide;
    next, deepest := start, splitDepth;
    var attempt := 0;
    var lastError := "translation failed";
    while attempt < TRANSLATE_MAX_ATTEMPTS
      invariant attempt < TRANSLATE_MAX_ATTEMPTS ==>
                  Translate(oracle, items, attempt, next, splitDepth) == Translate(oracle, items, 0, start, splitDepth)
      invariant attempt == TRANSLATE_MAX_ATTEMPTS ==>
                  Run(Broken(lastError), next, splitDepth) == Translate(oracle, items, 0, start, splitDepth)
      invariant attempt <= TRANSLATE_MAX_ATTEMPTS && deepest == splitDepth
    {
      var outcome := oracle(next);
      next := next + 1;
      var tried: Translation;
      if outcome.Reply? {
        tried := ValidateReply(outcome.parsed, items);
      } else {
        tried := Broken(outcome.message);
      }
      if tried.Translated? {
        return tried, next, deepest;
      }
      lastError := tried.message;
      if IsPromptTimeout(lastError) && |items| > 1 {
        var mid := Midpoint(|items|);
        var left, leftNext, leftDeepest := TranslateBatch(oracle, items[..mid], next, splitDepth + 1);
        if left.Broken? {
          return left, leftNext, leftDeepest;
        }
        var right, rightNext, rightDeepest := TranslateBatch(oracle, items[mid..], leftNext, splitDepth + 1);
        deepest := Max(leftDeepest, rightDeepest);
        if right.Broken? {
          return right, rightNext, deepest;
        }
        return Translated(left.values + right.values), rightNext, deepest;
      }
      if IsPromptTimeout(lastError) {
        break;
      }
      attempt := attempt + 1;
    }
    result := Broken(lastError);
  }

  // ----- which prompt decides -----

  /** The reply has a usable text for every item. */
  ghost predicate Accepted(outcome: Outcome, items: seq<Item>) {
    outcome.Reply? && forall i :: i in items ==> Usable(outcome.parsed, i.key)
  }

  /** The outcome is an error with this message, or a reply whose first gap is named by it. */
  ghost predicate FailsWith(outcome: Outcome, items: seq<Item>, message: string) {
    || (outcome.Failed? && outcome.message == message)
    || (outcome.Reply? && exists k :: FirstGap(outcome.parsed, items, k) && message == "missing translation for " + items[k].key)
  }

  ghost predicate FirstGap(parsed: map<string, JsonValue>, items: seq<Item>, k: int) {
    0 <= k < |items| && !Usable(parsed, items[k].key) && forall j :: 0 <= j < k ==> Usable(parsed, items[j].key)
  }

  ghost predicate ValuesFrom(outcome: Outcome, items: seq<Item>, result: Translation) {
    && outcome.Reply? && result.Translated? && result.values.Keys == Keys(items)
    && forall i :: i in items ==> i.key in outcome.parsed && outcome.parsed[i.key] == Text(result.values[i.key])
  }

  /** An accepted first prompt ends the call with its texts. A timeout ends it too when there is
      one item at most, and leads to the halves otherwise. After any other failure the same items
      are sent a second time, and that prompt decides in the same way, except that every failure
      other than the timeout of several items is final. */
  ghost predicate FirstPromptsDecide(oracle: int -> Outcome, items: seq<Item>, start: int, result: Translation, next: int) {
    && (Accepted(oracle(start), items) ==> ValuesFrom(oracle(start), items, result) && next == start + 1)
    && (forall m :: FailsWith(oracle(start), items, m) && IsPromptTimeout(m) ==>
          if |items| <= 1 then result == Broken(m) && next == start + 1 else next > start + 1)
    && (forall m :: FailsWith(oracle(start), items, m) && !IsPromptTimeout(m) ==>
          && (Accepted(oracle(start + 1), items) ==> ValuesFrom(oracle(start + 1), items, result) && next == start + 2)
          && (forall m2 :: FailsWith(oracle(start + 1), items, m2) ==>
                if IsPromptTimeout(m2) && |items| > 1 then next > start + 2 else result == Broken(m2) && next == start + 2))
  }

  lemma {:induction false} FirstGapIsReported(parsed: map<string, JsonValue>, items: seq<Item>, k: int)
    requires FirstGap(parsed, items, k)
    ensures Validated(parsed, items) == Broken("missing translation for " + items[k].key)
  {
    var front := items[..|items| - 1];
    if k < |front| {
      assert FirstGap(parsed, front, k);
      FirstGapIsReported(parsed, front, k);
    } else {
      ValidatedValues(parsed, front);
      assert forall i :: i in front ==> Usable(parsed, i.key);
    }
  }

  lemma AttemptAccepts(outcome: Outcome, items: seq<Item>)
    ensures Accepted(outcome, items) ==> Attempt(outcome, items).Translated? && ValuesFrom(outcome, items, Attempt(outcome, items))
    ensures forall m :: FailsWith(outcome, items, m) ==> Attempt(outcome, items) == Broken(m)
  {
    if outcome.Reply? {
      ValidatedValues(outcome.parsed, items);
      forall m | FailsWith(outcome, items, m) ensures Attempt(outcome, items) == Broken(m) {
        var k :| FirstGap(outcome.parsed, items, k) && m == "missing translation for " + items[k].key;
        FirstGapIsReported(outcome.parsed, items, k);
      }
      if Accepted(outcome, items) {
        forall i | i in items ensures i.key in Keys(items) {}
      }
    }
  }

  lemma PromptsDecide(oracle: int -> Outcome, items: seq<Item>, start: nat, depth: nat)
    ensures var r := Translate(oracle, items, 0, start, depth);
            FirstPromptsDecide(oracle, items, start, r.result, r.next)
  {
    AttemptAccepts(oracle(start), items);
    AttemptAccepts(oracle(start + 1), items);
    hide Attempt, Accepted, FailsWith, IsPromptTimeout, ValuesFrom, Keys;
    if |items| > 1 {
      SplitGoesOn(oracle, items, 0, start, depth);
      SplitGoesOn(oracle, items, 1, start + 1, depth);
    }
    assert Translate(oracle, items, 1, start + 1, depth).next > start + 1 by { SuccessIsComplete(oracle, items, 1, start + 1, depth); }
  }

  /** A call whose prompt times out on several items is decided by its halves, the larger first. */
  lemma SplitGoesOn(oracle: int -> Outcome, items: seq<Item>, attempt: nat, next: nat, depth: nat)
    requires attempt < TRANSLATE_MAX_ATTEMPTS && |items| > 1
    ensures forall m :: Attempt(oracle(next), items) == Broken(m) && IsPromptTimeout(m) ==>
              var mid := (|items| + 1) / 2;
              var left := Translate(oracle, items[..mid], 0, next + 1, depth + 1);
              var right := Translate(oracle, items[mid..], 0, left.next, depth + 1);
              var r := Translate(oracle, items, attempt, next, depth);
              && r.next > next + 1
              && (left.result.Broken? ==> r.result == left.result && r.next == left.next)
              && (left.result.Translated? && right.result.Broken? ==> r.result == right.result && r.next == right.next)
              && (left.result.Translated? && right.result.Translated? ==>
                    r.result == Translated(left.result.values + right.result.values) && r.next == right.next)
  {
    hide Attempt, IsPromptTimeout;
    var mid := (|items| + 1) / 2;
    var left := Translate(oracle, items[..mid], 0, next + 1, depth + 1);
    SuccessIsComplete(oracle, items[..mid], 0, next + 1, depth + 1);
    SuccessIsComplete(oracle, items[mid..], 0, left.next, depth + 1);
  }

  /** A timeout is recognised by "timed out" anywhere in the message, in any letter case. */
  lemma TimeoutAnywhere(a: string, t: string, b: string)
    requires |t| == 9 && forall k :: 0 <= k < 9 ==> LowerAscii(t[k]) == "timed out"[k]
    ensures IsPromptTimeout(a + t + b)
  {
    var m := a + t + b;
    forall k, j | 0 <= k < 9 && j == |a| + k ensures LowerAscii(m[j]) == "timed out"[k] {
      assert m[j] == t[k];
    }
    assert TimedOutAt(m, |a|);
  }

  lemma TimeoutOnlyThere(m: string) returns (a: string, t: string, b: string)
    requires IsPromptTimeout(m)
    ensures m == a + t + b && |t| == 9 && forall k :: 0 <= k < 9 ==> LowerAscii(t[k]) == "timed out"[k]
  {
    var i :| 0 <= i < |m| && TimedOutAt(m, i);
    a, t, b := m[..i], m[i..i + 9], m[i + 9..];
  }

  // ----- what a run promises -----

  lemma {:induction false} ValidatedValues(parsed: map<string, JsonValue>, items: seq<Item>)
    ensures Validated(parsed, items).Translated? <==> forall i :: i in items ==> Usable(parsed, i.key)
    ensures Validated(parsed, items).Translated? ==>
              && Validated(parsed, items).values.Keys == Keys(items)
              && forall k :: k in Keys(items) ==> Usable(parsed, k) && Validated(parsed, items).values[k] == parsed[k].value
  {
    if items != [] {
      var front, last := items[..|items| - 1], items[|items| - 1];
      ValidatedValues(parsed, front);
      assert items == front + [last];
      assert Keys(items) == Keys(front) + {last.key};
    }
  }

  /** Prompt `n` returned `value` for `key`. */
  ghost predicate AnswerAt(oracle: int -> Outcome, n: int, key: string, value: string) {
    oracle(n).Reply? && Usable(oracle(n).parsed, key) && oracle(n).parsed[key].value == value
  }

  /** One of the prompts `lo .. hi` did. */
  ghost predicate Answered(oracle: int -> Outcome, key: string, value: string, lo: int, hi: int) {
    exists n :: lo <= n < hi && AnswerAt(oracle, n, key, value)
  }

  /** On success the map holds exactly the items' keys, each with a non-blank value that
      some prompt of this very call returned for it. */
  lemma {:induction false} SuccessIsComplete(oracle: int -> Outcome, items: seq<Item>, attempt: nat, next: nat, depth: nat)
    requires attempt < TRANSLATE_MAX_ATTEMPTS
    ensures Translate(oracle, items, attempt, next, depth).next > next
    ensures Translate(oracle, items, attempt, next, depth).result.Translated? ==>
              var r := Translate(oracle, items, attempt, next, depth);
              && r.result.values.Keys == Keys(items)
              && forall k :: k in Keys(items) ==> !IsBlank(r.result.values[k]) && Answered(oracle, k, r.result.values[k], next, r.next)
    decreases |items|, TRANSLATE_MAX_ATTEMPTS - attempt
  {
    hide IsPromptTimeout, Validated;
    var tried := Attempt(oracle(next), items);
    if tried.Translated? {
      ValidatedValues(oracle(next).parsed, items);
      forall k | k in Keys(items) ensures Answered(oracle, k, tried.values[k], next, next + 1) {
        assert AnswerAt(oracle, next, k, tried.values[k]);
      }
    } else if IsPromptTimeout(tried.message) && |items| > 1 {
      var mid := Midpoint(|items|);
      var left := Translate(oracle, items[..mid], 0, next + 1, depth + 1);
      SuccessIsComplete(oracle, items[..mid], 0, next + 1, depth + 1);
      if left.result.Translated? {
        var right := Translate(oracle, items[mid..], 0, left.next, depth + 1);
        SuccessIsComplete(oracle, items[mid..], 0, left.next, depth + 1);
        assert items == items[..mid] + items[mid..];
        assert Keys(items) == Keys(items[..mid]) + Keys(items[mid..]);
      }
    } else if !(IsPromptTimeout(tried.message) || attempt + 1 == TRANSLATE_MAX_ATTEMPTS) {
      SuccessIsComplete(oracle, items, attempt + 1, next + 1, depth);
    }
  }

  /** The outcome fails with `result` for some contiguous part of the items. */
  ghost predicate FailsOnPart(outcome: Outcome, items: seq<Item>, result: Translation) {
    exists lo, hi :: 0 <= lo <= hi <= |items| && Attempt(outcome, items[lo..hi]) == result
  }

  lemma FailsOnWhole(outcome: Outcome, items: seq<Item>, lo: nat, hi: nat, result: Translation)
    requires lo <= hi <= |items| && FailsOnPart(outcome, items[lo..hi], result)
    ensures FailsOnPart(outcome, items, result)
  {
    var l, h :| 0 <= l <= h <= hi - lo && Attempt(outcome, items[lo..hi][l..h]) == result;
    SliceOfSlice(items, lo, hi, l, h);
  }

  lemma SliceOfSlice<T>(s: seq<T>, lo: nat, hi: nat, l: nat, h: nat)
    requires lo <= hi <= |s| && l <= h <= hi - lo
    ensures s[lo..hi][l..h] == s[lo + l..lo + h]
  {
    forall k | 0 <= k < h - l
      ensures s[lo..hi][l..h][k] == s[lo + l..lo + h][k]
    {
      assert s[lo..hi][l..h][k] == s[lo..hi][l + k] == s[lo + (l + k)];
    }
  }

  /** A failure reports the last prompt made, and that prompt did not translate its items. */
  lemma {:induction false} FailureIsLastAttempt(oracle: int -> Outcome, items: seq<Item>, attempt: nat, next: nat, depth: nat)
    requires attempt < TRANSLATE_MAX_ATTEMPTS
    ensures Translate(oracle, items, attempt, next, depth).next > next
    ensures var r := Translate(oracle, items, attempt, next, depth);
            r.result.Broken? ==> FailsOnPart(oracle(r.next - 1), items, r.result)
    decreases |items|, TRANSLATE_MAX_ATTEMPTS - attempt
  {
    hide IsPromptTimeout, Validated;
    var tried := Attempt(oracle(next), items);
    if tried.Broken? && IsPromptTimeout(tried.message) && |items| > 1 {
      var mid := Midpoint(|items|);
      assert items[0..mid] == items[..mid] && items[mid..|items|] == items[mid..];
      var left := Translate(oracle, items[..mid], 0, next + 1, depth + 1);
      FailureIsLastAttempt(oracle, items[..mid], 0, next + 1, depth + 1);
      if left.result.Broken? {
        FailsOnWhole(oracle(left.next - 1), items, 0, mid, left.result);
      } else {
        var right := Translate(oracle, items[mid..], 0, left.next, depth + 1);
        FailureIsLastAttempt(oracle, items[mid..], 0, left.next, depth + 1);
        if right.result.Broken? {
          FailsOnWhole(oracle(right.next - 1), items, mid, |items|, right.result);
        }
      }
    } else if tried.Broken? && !(IsPromptTimeout(tried.message) || attempt + 1 == TRANSLATE_MAX_ATTEMPTS) {
      FailureIsLastAttempt(oracle, items, attempt + 1, next + 1, depth);
    } else {
      assert items[0..|items|] == items;
    }
  }

  /** At most `4n - 2` prompts for `n >= 1` items. */
  lemma {:induction false} AttemptBound(oracle: int -> Outcome, items: seq<Item>, attempt: nat, next: nat, depth: nat)
    requires attempt < TRANSLATE_MAX_ATTEMPTS && |items| >= 1
    ensures next < Translate(oracle, items, attempt, next, depth).next <= next + 4 * |items| - 2 - attempt
    decreases |items|, TRANSLATE_MAX_ATTEMPTS - attempt
  {
    hide IsPromptTimeout, Validated;
    var tried := Attempt(oracle(next), items);
    if tried.Broken? && IsPromptTimeout(tried.message) && |items| > 1 {
      var mid := Midpoint(|items|);
      var left := Translate(oracle, items[..mid], 0, next + 1, depth + 1);
      AttemptBound(oracle, items[..mid], 0, next + 1, depth + 1);
      AttemptBound(oracle, items[mid..], 0, left.next, depth + 1);
    } else if tried.Broken? && !(IsPromptTimeout(tried.message) || attempt + 1 == TRANSLATE_MAX_ATTEMPTS) {
      AttemptBound(oracle, items, attempt + 1, next + 1, depth);
    }
  }

  /** `⌈log2 n⌉` for `n >= 1` */
  function CeilLog2(n: nat): nat {
    if n <= 1 then 0 else 1 + CeilLog2(Midpoint(n))
  }

  lemma {:induction false} CeilLog2IsLeast(n: nat)
    requires n >= 1
    ensures n <= Pow2(CeilLog2(n))
    ensures n > 1 ==> Pow2(CeilLog2(n) - 1) < n
  {
    if n > 1 {
      CeilLog2IsLeast(Midpoint(n));
    }
  }

  lemma {:induction false} CeilLog2Monotone(m: nat, n: nat)
    requires m <= n
    ensures CeilLog2(m) <= CeilLog2(n)
  {
    if m > 1 {
      CeilLog2Monotone(Midpoint(m), Midpoint(n));
    }
  }

  /** Splits nest at most `⌈log2 n⌉` deep. */
  lemma {:induction false} SplitDepthBound(oracle: int -> Outcome, items: seq<Item>, attempt: nat, next: nat, depth: nat)
    requires attempt < TRANSLATE_MAX_ATTEMPTS
    ensures depth <= Translate(oracle, items, attempt, next, depth).deepest <= depth + CeilLog2(|items|)
    decreases |items|, TRANSLATE_MAX_ATTEMPTS - attempt
  {
    hide IsPromptTimeout, Validated;
    var tried := Attempt(oracle(next), items);
    if tried.Broken? && IsPromptTimeout(tried.message) && |items| > 1 {
      var mid := Midpoint(|items|);
      var left := Translate(oracle, items[..mid], 0, next + 1, depth + 1);
      SplitDepthBound(oracle, items[..mid], 0, next + 1, depth + 1);
      SplitDepthBound(oracle, items[mid..], 0, left.next, depth + 1);
      CeilLog2Monotone(|items| - mid, mid);
    } else if tried.Broken? && !(IsPromptTimeout(tried.message) || attempt + 1 == TRANSLATE_MAX_ATTEMPTS) {
      SplitDepthBound(oracle, items, attempt + 1, next + 1, depth);
    }
  }

  // ----- the bounds are reached -----

  function FullReply(items: seq<Item>): Outcome {
    Reply(map k | k in Keys(items) :: Text("x"))
  }

  /** The k-th prompt of the worst run: every call fails once, and every call on several
      items then times out. */
  function WorstOutcome(items: seq<Item>, k: nat): Outcome
    decreases |items|
  {
    var mid := Midpoint(|items|);
    if k == 0 then Failed("pi error")
    else if |items| <= 1 then FullReply(items)
    else if k == 1 then Failed("timed out")
    else if k < 4 * mid then WorstOutcome(items[..mid], k - 2)
    else WorstOutcome(items[mid..], k - 4 * mid)
  }

  lemma TimeoutMessages()
    ensures IsPromptTimeout("timed out") && IsPromptTimeout("TIMED OUT") && !IsPromptTimeout("pi error")
  {
    assert TimedOutAt("timed out", 0) && TimedOutAt("TIMED OUT", 0);
  }

  /** A plain error first, then a reply or a timeout. */
  lemma ErrorThen(oracle: int -> Outcome, items: seq<Item>, next: nat, depth: nat)
    requires |items| >= 1 && oracle(next) == Failed("pi error")
    ensures oracle(next + 1) == FullReply(items) ==>
              var r := Translate(oracle, items, 0, next, depth);
              r.result.Translated? && r.next == next + 2 && r.deepest == depth
    ensures oracle(next + 1) == Failed("timed out") && |items| > 1 ==>
              var mid := Midpoint(|items|);
              var left := Translate(oracle, items[..mid], 0, next + 2, depth + 1);
              var right := Translate(oracle, items[mid..], 0, left.next, depth + 1);
              var r := Translate(oracle, items, 0, next, depth);
              left.result.Translated? && right.result.Translated? ==>
                r.result.Translated? && r.next == right.next && r.deepest == Max(left.deepest, right.deepest)
  {
    TimeoutMessages();
    assert Translate(oracle, items, 0, next, depth) == Translate(oracle, items, 1, next + 1, depth);
    assert !IsWhitespace("x"[0]);
    ValidatedValues(FullReply(items).parsed, items);
  }

  ghost predicate WorstFrom(oracle: int -> Outcome, items: seq<Item>, next: int) {
    forall j :: next <= j < next + 4 * |items| - 2 ==> oracle(j) == WorstOutcome(items, j - next)
  }

  lemma WorstParts(oracle: int -> Outcome, items: seq<Item>, next: int)
    requires |items| > 1 && WorstFrom(oracle, items, next)
    ensures WorstFrom(oracle, items[..Midpoint(|items|)], next + 2)
    ensures WorstFrom(oracle, items[Midpoint(|items|)..], next + 4 * Midpoint(|items|))
  {
  }

  lemma CeilLog2Step(n: nat)
    requires n > 1
    ensures CeilLog2(n) == 1 + CeilLog2(Midpoint(n)) && CeilLog2(n - Midpoint(n)) <= CeilLog2(Midpoint(n))
  {
    CeilLog2Monotone(n - Midpoint(n), Midpoint(n));
  }

  /** Success after exactly `4n - 2` prompts and at exactly depth `⌈log2 n⌉`. */
  ghost predicate WorstRun(oracle: int -> Outcome, items: seq<Item>, next: nat, depth: nat) {
    var r := Translate(oracle, items, 0, next, depth);
    r.result.Translated? && r.next == next + 4 * |items| - 2 && r.deepest == depth + CeilLog2(|items|)
  }

  /** On those outcomes the call runs that long and that deep. */
  lemma {:induction false} WorstCaseReached(oracle: int -> Outcome, items: seq<Item>, next: nat, depth: nat)
    requires |items| >= 1 && WorstFrom(oracle, items, next)
    ensures WorstRun(oracle, items, next, depth)
    decreases |items|
  {
    WorstHead(oracle, items, next);
    if |items| == 1 {
      hide WorstOutcome, Translate, IsPromptTimeout, FullReply;
      ErrorThen(oracle, items, next, depth);
    } else {
      var mid := Midpoint(|items|);
      WorstParts(oracle, items, next);
      hide WorstFrom, WorstRun;
      WorstCaseReached(oracle, items[..mid], next + 2, depth + 1);
      WorstCaseReached(oracle, items[mid..], next + 4 * mid, depth + 1);
      HalvesRunWorst(oracle, items, next, depth);
    }
  }

  /** An error, a timeout, and two halves that succeed. */
  lemma WorstHalves(oracle: int -> Outcome, items: seq<Item>, next: nat, depth: nat)
    requires |items| > 1 && oracle(next) == Failed("pi error") && oracle(next + 1) == Failed("timed out")
    requires Translate(oracle, items[..Midpoint(|items|)], 0, next + 2, depth + 1).result.Translated?
    requires Translate(oracle, items[..Midpoint(|items|)], 0, next + 2, depth + 1).next == next + 4 * Midpoint(|items|)
    requires Translate(oracle, items[Midpoint(|items|)..], 0, next + 4 * Midpoint(|items|), depth + 1).result.Translated?
    ensures var r := Translate(oracle, items, 0, next, depth);
            var left := Translate(oracle, items[..Midpoint(|items|)], 0, next + 2, depth + 1);
            var right := Translate(oracle, items[Midpoint(|items|)..], 0, next + 4 * Midpoint(|items|), depth + 1);
            r.result.Translated? && r.next == right.next && r.deepest == Max(left.deepest, right.deepest)
  {
    hide Translate, IsPromptTimeout, FullReply;
    ErrorThen(oracle, items, next, depth);
  }

  lemma MidpointBetween(n: nat)
    requires n > 1
    ensures 1 <= Midpoint(n) < n
  {
  }

  lemma MaxOfDeeper(a: nat, b: nat)
    requires b <= a
    ensures Max(a, b) == a
  {
  }

  lemma HalvesRunWorst(oracle: int -> Outcome, items: seq<Item>, next: nat, depth: nat)
    requires |items| > 1 && oracle(next) == Failed("pi error") && oracle(next + 1) == Failed("timed out")
    requires WorstRun(oracle, items[..Midpoint(|items|)], next + 2, depth + 1)
    requires WorstRun(oracle, items[Midpoint(|items|)..], next + 4 * Midpoint(|items|), depth + 1)
    ensures WorstRun(oracle, items, next, depth)
  {
    hide Translate, IsPromptTimeout, FullReply, CeilLog2, Midpoint, Max;
    var mid := Midpoint(|items|);
    MidpointBetween(|items|);
    var left := Translate(oracle, items[..mid], 0, next + 2, depth + 1);
    var right := Translate(oracle, items[mid..], 0, next + 4 * mid, depth + 1);
    assert left.next == next + 4 * mid && right.next == next + 4 * |items| - 2;
    CeilLog2Step(|items|);
    assert Max(left.deepest, right.deepest) == left.deepest by { MaxOfDeeper(left.deepest, right.deepest); }
    WorstHalves(oracle, items, next, depth);
  }

  lemma WorstHead(oracle: int -> Outcome, items: seq<Item>, next: nat)
    requires |items| >= 1 && WorstFrom(oracle, items, next)
    ensures oracle(next) == Failed("pi error")
    ensures oracle(next + 1) == if |items| == 1 then FullReply(items) else Failed("timed out")
  {
    assert oracle(next) == WorstOutcome(items, 0) && oracle(next + 1) == WorstOutcome(items, 1);
  }

  /** Both bounds are tight for every non-empty list of items. */
  lemma BoundsAreTight(items: seq<Item>) returns (oracle: int -> Outcome)
    requires |items| >= 1
    ensures Translate(oracle, items, 0, 0, 0).result.Translated?
    ensures Translate(oracle, items, 0, 0, 0).next == 4 * |items| - 2
    ensures Translate(oracle, items, 0, 0, 0).deepest == CeilLog2(|items|)
  {
    oracle := k => if k >= 0 then WorstOutcome(items, k) else Failed("");
    WorstCaseReached(oracle, items, 0, 0);
  }
}
