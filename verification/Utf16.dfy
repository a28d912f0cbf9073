/** Surrogate-safe slicing of UTF-16 code unit sequences (section 3.9 of the Unicode Standard). */
module Utf16 {
  import opened Common

  newtype Unit = u: int | 0 <= u < 0x1_0000

  type Text = seq<Unit>

  predicate IsHighSurrogate(u: Unit) {
    0xD800 <= u <= 0xDBFF
  }

  predicate IsLowSurrogate(u: Unit) {
    0xDC00 <= u <= 0xDFFF
  }

  /** A JavaScript number; rounding and the sign of zero play no part here. */
  datatype Number = Finite(value: real) | Infinity(negative: bool) | NaN

  /** `a < b`: false when either is not a number. */
  predicate Less(a: Number, b: Number) {
    match (a, b)
    case (Finite(x), Finite(y)) => x < y
    case (Infinity(neg), Finite(_)) => neg
    case (Finite(_), Infinity(neg)) => !neg
    case (Infinity(m), Infinity(n)) => m && !n
    case _ => false
  }

  /** `bound < 0 ? Math.max(len + bound, 0) : Math.min(bound, len)` */
  function Clamp(bound: Number, len: nat): (r: Number)
    ensures r.NaN? <==> bound.NaN?
    ensures !r.NaN? ==> r.Finite? && 0.0 <= r.value <= len as real
  {
    match bound
    case NaN => NaN
    case Infinity(negative) => Finite(if negative then 0.0 else len as real)
    case Finite(x) =>
      if x < 0.0 then Finite(if len as real + x < 0.0 then 0.0 else len as real + x)
      else Finite(if len as real < x then len as real else x)
  }

  /** What `slice` makes of a clamped bound: fractions are cut off, and no number counts as 0. */
  function Index(n: Number): (i: int)
    requires !n.Infinity?
    ensures n.Finite? && n.value >= 0.0 ==> i >= 0
  {
    if n.NaN? then 0 else n.value.Floor
  }

  /** The unit index that a bound stands for. */
  function Resolve(bound: Number, len: nat): (r: nat)
    ensures r <= len
  {
    Index(Clamp(bound, len))
  }

  /** `n` is the unit index that a bound names: counted from the end when negative, kept within
      the text, and with its fraction cut off. */
  ghost predicate StandsFor(bound: Number, len: nat, n: nat) {
    match bound
    case NaN => n == 0
    case Infinity(negative) => n == if negative then 0 else len
    case Finite(x) =>
      && (x <= -(len as real) ==> n == 0)
      && (-(len as real) < x < 0.0 ==> n as real <= x + len as real < n as real + 1.0)
      && (0.0 <= x < len as real ==> n as real <= x < n as real + 1.0)
      && (len as real <= x ==> n == len)
  }

  /** Without an end the text goes on to its own. */
  ghost predicate EndStandsFor(end: Option<Number>, len: nat, n: nat) {
    if end.Some? then StandsFor(end.value, len, n) else n == len
  }

  lemma ResolveStands(bound: Number, len: nat)
    ensures StandsFor(bound, len, Resolve(bound, len))
  {
  }

  lemma StandsForOne(bound: Number, len: nat, m: nat, n: nat)
    requires StandsFor(bound, len, m) && StandsFor(bound, len, n)
    ensures m == n
  {
  }

  /** A whole number within the text stands for itself, and `-k` for the index `k` before the end. */
  lemma WholeBounds(k: nat, len: nat)
    requires k <= len
    ensures Resolve(Finite(k as real), len) == k
    ensures k > 0 ==> Resolve(Finite(-(k as real)), len) == len - k
  {
    assert (len as real + -(k as real)) == (len - k) as real;
  }

  /** `input.charCodeAt(x)`, which cuts `x` off towards zero. */
  function CharCodeAt(input: Text, x: real): Unit
    requires input != [] && -1.0 < x < |input| as real
  {
    if x < 0.0 then input[0] else input[x.Floor]
  }

  /** `input.slice(from, to)`: empty when the bounds have crossed. */
  function Slice(input: Text, from: nat, to: nat): Text
    requires from <= |input| && to <= |input|
  {
    if from <= to then input[from..to] else []
  }

  // ----- code points -----

  /** The number of units of the code point that starts at `i`: a lone surrogate is one. */
  function Width(input: Text, i: nat): (w: nat)
    requires i < |input|
    ensures 1 <= w <= 2 && i + w <= |input|
  {
    if IsHighSurrogate(input[i]) && i + 1 < |input| && IsLowSurrogate(input[i + 1]) then 2 else 1
  }

  /** The code points from `i` on that lie wholly inside `lo .. hi`. */
  function WhollyInside(input: Text, i: nat, lo: int, hi: int): Text
    requires i <= |input|
    decreases |input| - i
  {
    if i == |input| then []
    else
      var w := Width(input, i);
      (if lo <= i && i + w <= hi then input[i..i + w] else []) + WhollyInside(input, i + w, lo, hi)
  }

  /** `i` does not split a surrogate pair. */
  predicate Boundary(input: Text, i: nat)
    requires i <= |input|
  {
    !(0 < i < |input| && IsLowSurrogate(input[i]) && IsHighSurrogate(input[i - 1]))
  }

  /** Walking code points visits exactly the boundaries. */
  lemma NextBoundary(input: Text, i: nat)
    requires i < |input| && Boundary(input, i)
    ensures Boundary(input, i + Width(input, i))
    ensures Width(input, i) == 2 ==> !Boundary(input, i + 1)
  {
  }

  lemma {:induction false} NothingAtOrAfter(input: Text, i: nat, lo: int, hi: int)
    requires i <= |input| && hi <= i
    ensures WhollyInside(input, i, lo, hi) == []
    decreases |input| - i
  {
    if i < |input| { NothingAtOrAfter(input, i + Width(input, i), lo, hi); }
  }

  /** From a boundary up to a boundary every code point is kept. */
  lemma {:induction false} AllBetween(input: Text, i: nat, lo: int, to: nat)
    requires i <= to <= |input| && lo <= i && Boundary(input, i) && Boundary(input, to)
    ensures WhollyInside(input, i, lo, to) == input[i..to]
    decreases |input| - i
  {
    if i == to {
      NothingAtOrAfter(input, i, lo, to);
    } else {
      var w := Width(input, i);
      NextBoundary(input, i);
      AllBetween(input, i + w, lo, to);
      assert input[i..to] == input[i..i + w] + input[i + w..to];
    }
  }

  /** Up to a boundary where the range starts nothing is kept. */
  lemma {:induction false} SkipTo(input: Text, i: nat, from: nat, hi: int)
    requires i <= from <= |input| && Boundary(input, i) && Boundary(input, from)
    ensures WhollyInside(input, i, from, hi) == WhollyInside(input, from, from, hi)
    decreases from - i
  {
    if i < from {
      NextBoundary(input, i);
      SkipTo(input, i + Width(input, i), from, hi);
    }
  }

  /** Shrinking the end to the boundary below it drops no whole code point. */
  lemma {:induction false} EndAtBoundary(input: Text, i: nat, lo: int, hi: nat)
    requires i <= |input| && Boundary(input, i) && 0 < hi <= |input| && !Boundary(input, hi)
    ensures WhollyInside(input, i, lo, hi) == WhollyInside(input, i, lo, hi - 1)
    decreases |input| - i
  {
    if i < |input| {
      NextBoundary(input, i);
      hide Boundary, Width;
      EndAtBoundary(input, i + Width(input, i), lo, hi);
    }
  }

  /** Raising the start to the boundary above it drops no whole code point. */
  lemma {:induction false} StartAtBoundary(input: Text, i: nat, lo: nat, hi: int)
    requires i <= |input| && Boundary(input, i) && lo < |input| && !Boundary(input, lo)
    ensures WhollyInside(input, i, lo, hi) == WhollyInside(input, i, lo + 1, hi)
    decreases |input| - i
  {
    if i < |input| {
      NextBoundary(input, i);
      hide Boundary, Width;
      StartAtBoundary(input, i + Width(input, i), lo, hi);
    }
  }

  lemma {:induction false} EmptyRange(input: Text, i: nat, lo: int, hi: int)
    requires i <= |input| && hi <= lo
    ensures WhollyInside(input, i, lo, hi) == []
    decreases |input| - i
  {
    if i < |input| { EmptyRange(input, i + Width(input, i), lo, hi); }
  }

  /** Between two boundaries the walk keeps exactly the units of the range. */
  lemma RangeOfBoundaries(input: Text, from: nat, to: nat)
    requires from <= |input| && to <= |input| && Boundary(input, from) && Boundary(input, to)
    ensures WhollyInside(input, 0, from, to) == Slice(input, from, to)
  {
    if from <= to {
      SkipTo(input, 0, from, to);
      AllBetween(input, from, from, to);
    } else {
      EmptyRange(input, 0, from, to);
    }
  }

  /** The first boundary at or after `i`, and the last at or before it. */
  function BoundaryUp(input: Text, i: nat): nat
    requires i <= |input|
  {
    if Boundary(input, i) then i else i + 1
  }

  function BoundaryDown(input: Text, i: nat): nat
    requires i <= |input|
  {
    if Boundary(input, i) then i else i - 1
  }

  /** The code points wholly inside a range are the units between the boundaries inside it. */
  lemma WhollyInsideIs(input: Text, lo: nat, hi: nat)
    requires lo <= hi <= |input|
    ensures var from, to := BoundaryUp(input, lo), BoundaryDown(input, hi);
            && from <= |input| && to <= |input| && WhollyInside(input, 0, lo, hi) == Slice(input, from, to)
  {
    if !Boundary(input, lo) { StartAtBoundary(input, 0, lo, hi); }
    var from := BoundaryUp(input, lo);
    if !Boundary(input, hi) { EndAtBoundary(input, 0, from, hi); }
    RangeOfBoundaries(input, from, BoundaryDown(input, hi));
  }

  /** The surrogates are the units whose upper six bits are 110110 and 110111. */
  lemma SurrogateBits(u: Unit)
    ensures IsHighSurrogate(u) <==> (u as int) / 0x400 == 0x36
    ensures IsLowSurrogate(u) <==> (u as int) / 0x400 == 0x37
  {
  }

  /** The two units that section 3.9 of the Unicode Standard gives a supplementary code point. */
  predicate Encodes(c: int, hi: Unit, lo: Unit) {
    && 0x1_0000 <= c < 0x11_0000
    && hi as int == 0xD800 + (c - 0x1_0000) / 0x400 && lo as int == 0xDC00 + (c - 0x1_0000) % 0x400
  }

  /** A pair of them is what encodes one code point beyond the basic plane. */
  lemma PairsAreSupplementary(hi: Unit, lo: Unit)
    ensures IsHighSurrogate(hi) && IsLowSurrogate(lo) <==>
              exists c :: Encodes(c, hi, lo)
  {
    if IsHighSurrogate(hi) && IsLowSurrogate(lo) {
      var c: nat := 0x1_0000 + (hi as int - 0xD800) * 0x400 + (lo as int - 0xDC00);
      assert (c - 0x1_0000) / 0x400 == hi as int - 0xD800 && (c - 0x1_0000) % 0x400 == lo as int - 0xDC00;
      assert Encodes(c, hi, lo);
    }
  }

  /** No lone surrogates. */
  ghost predicate WellFormed(input: Text) {
    forall i :: 0 <= i < |input| ==> Paired(input, i)
  }

  predicate Paired(input: Text, i: nat)
    requires i < |input|
  {
    && (IsHighSurrogate(input[i]) ==> i + 1 < |input| && IsLowSurrogate(input[i + 1]))
    && (IsLowSurrogate(input[i]) ==> i > 0 && IsHighSurrogate(input[i - 1]))
  }

  /** A well-formed text cut at boundaries stays well-formed. */
  lemma SliceOfWellFormed(input: Text, from: nat, to: nat)
    requires WellFormed(input) && from <= |input| && to <= |input| && Boundary(input, from) && Boundary(input, to)
    ensures WellFormed(Slice(input, from, to))
  {
    var s := Slice(input, from, to);
    forall i | 0 <= i < |s|
      ensures Paired(s, i)
    {
      assert Paired(input, from + i);
    }
  }

  // ----- the slice -----

  /** The test before the start is moved. */
  predicate StartInPair(input: Text, from: real) {
    0.0 < from < |input| as real && IsLowSurrogate(CharCodeAt(input, from)) && IsHighSurrogate(CharCodeAt(input, from - 1.0))
  }

  /** The test before the end is moved. */
  predicate EndInPair(input: Text, to: real) {
    0.0 < to < |input| as real && IsHighSurrogate(CharCodeAt(input, to - 1.0)) && IsLowSurrogate(CharCodeAt(input, to))
  }

  /** Both tests find a split pair, fractions or not. */
  lemma InPairIff(input: Text, x: real)
    requires 0.0 <= x <= |input| as real
    ensures StartInPair(input, x) <==> !Boundary(input, x.Floor)
    ensures EndInPair(input, x) <==> !Boundary(input, x.Floor)
  {
    assert (x - 1.0).Floor == x.Floor - 1;
  }

  /** The start, moved off a pair: the same code points. */
  lemma StartMoved(input: Text, from: real, hi: nat)
    requires 0.0 <= from <= |input| as real
    ensures var f := (if StartInPair(input, from) then from + 1.0 else from).Floor;
            0 <= f <= |input| && Boundary(input, f) && WhollyInside(input, 0, f, hi) == WhollyInside(input, 0, from.Floor, hi)
  {
    InPairIff(input, from);
    if StartInPair(input, from) {
      assert (from + 1.0).Floor == from.Floor + 1;
      StartAtBoundary(input, 0, from.Floor, hi);
    }
  }

  /** The end, moved off a pair: the same code points. */
  lemma EndMoved(input: Text, lo: nat, to: real)
    requires 0.0 <= to <= |input| as real
    ensures var t := (if EndInPair(input, to) then to - 1.0 else to).Floor;
            0 <= t <= |input| && Boundary(input, t) && WhollyInside(input, 0, lo, t) == WhollyInside(input, 0, lo, to.Floor)
  {
    InPairIff(input, to);
    if EndInPair(input, to) {
      assert (to - 1.0).Floor == to.Floor - 1;
      EndAtBoundary(input, 0, lo, to.Floor);
    }
  }

  /** Both bounds moved off pairs and cut out: the code points between them. */
  method CutOut(input: Text, start: real, end: real) returns (r: Text)
    requires 0.0 <= start <= |input| as real && 0.0 <= end <= |input| as real
    ensures r == WhollyInside(input, 0, start.Floor, end.Floor)
    ensures WellFormed(input) ==> WellFormed(r)
  {
    var from, to := start, end;
    hide StartInPair, EndInPair, Boundary, WhollyInside, WellFormed, Slice;
    StartMoved(input, from, to.Floor);
    if StartInPair(input, from) {
      from := from + 1.0;
    }
    EndMoved(input, from.Floor, to);
    if EndInPair(input, to) {
      to := to - 1.0;
    }
    RangeOfBoundaries(input, from.Floor, to.Floor);
    r := Slice(input, from.Floor, to.Floor);
    if WellFormed(input) { SliceOfWellFormed(input, from.Floor, to.Floor); }
  }

  lemma NothingBeforeStart(input: Text)
    ensures WhollyInside(input, 0, 0, 0) == [] && WellFormed([])
  {
    EmptyRange(input, 0, 0, 0);
  }

  lemma BoundsResolve(start: Number, end: Option<Number>, len: nat)
    ensures forall a :: StandsFor(start, len, a) ==> a == Resolve(start, len)
    ensures forall b :: EndStandsFor(end, len, b) ==>
              b == if end.Some? then Resolve(end.value, len) else len
  {
    ResolveStands(start, len);
    forall a | StandsFor(start, len, a) ensures a == Resolve(start, len) {
      StandsForOne(start, len, a, Resolve(start, len));
    }
    if end.Some? {
      ResolveStands(end.value, len);
      forall b | StandsFor(end.value, len, b) ensures b == Resolve(end.value, len) {
        StandsForOne(end.value, len, b, Resolve(end.value, len));
      }
    }
  }

  /** For every text, well-formed or not, and every pair of numbers: exactly the code points
      lying wholly inside the resolved range, and nothing when the end is not a number. */
  method SliceUtf16Safe(input: Text, start: Number, end: Option<Number>) returns (r: Text)
    ensures var a := Resolve(start, |input|);
            var b := if end.Some? then Resolve(end.value, |input|) else |input|;
            r == if end == Some(NaN) then [] else WhollyInside(input, 0, Min(a, b), Max(a, b))
    ensures forall a, b :: StandsFor(start, |input|, a) && EndStandsFor(end, |input|, b) ==>
              r == if end == Some(NaN) then [] else WhollyInside(input, 0, Min(a, b), Max(a, b))
    ensures WellFormed(input) ==> WellFormed(r)
  {
    BoundsResolve(start, end, |input|);
    hide StandsFor, EndStandsFor;
    var len := |input|;
    var from := Clamp(start, len);
    var to := if end.None? then Finite(len as real) else Clamp(end.value, len);
    if Less(to, from) {
      var tmp := from;
      from := to;
      to := tmp;
    }
    hide WhollyInside, WellFormed, Clamp;
    if to.NaN? {
      NothingBeforeStart(input);
      return [];
    }
    r := CutOut(input, if from.NaN? then 0.0 else from.value, to.value);
  }

  // ----- truncation -----

  function Truncated(input: Text, limit: nat): Text {
    if |input| <= limit then input else WhollyInside(input, 0, 0, limit)
  }

  /** `Math.max(0, Math.floor(maxLen))` */
  function Limit(maxLen: Number): Number {
    match maxLen
    case NaN => NaN
    case Infinity(negative) => if negative then Finite(0.0) else maxLen
    case Finite(x) => Finite(if x.Floor < 0 then 0.0 else x.Floor as real)
  }

  /** Everything under an infinite limit, and nothing when the limit is not a number. */
  method TruncateUtf16Safe(input: Text, maxLen: Number) returns (r: Text)
    ensures r == match maxLen
                 case NaN => []
                 case Infinity(negative) => if negative then [] else input
                 case Finite(x) => Truncated(input, if x < 0.0 then 0 else x.Floor)
  {
    var limit := Limit(maxLen);
    if !Less(limit, Finite(|input| as real)) && !limit.NaN? {
      if limit == Finite(0.0) { assert input == []; }
      return input;
    }
    r := SliceUtf16Safe(input, Finite(0.0), Some(limit));
    NothingBeforeStart(input);
  }

  /** A prefix that ends at a boundary, at most one unit short of the limit. */
  lemma TruncatedIsPrefix(input: Text, limit: nat)
    ensures Truncated(input, limit) <= input && |Truncated(input, limit)| <= limit
    ensures Boundary(input, |Truncated(input, limit)|)
    ensures |input| > limit ==> |Truncated(input, limit)| == if Boundary(input, limit) then limit else limit - 1
  {
    assert 0 < limit < |input| && !Boundary(input, limit) ==> Boundary(input, limit - 1);
    hide WhollyInside, IsHighSurrogate, IsLowSurrogate;
    if |input| > limit {
      if Boundary(input, limit) {
        RangeOfBoundaries(input, 0, limit);
      } else {
        EndAtBoundary(input, 0, 0, limit);
        RangeOfBoundaries(input, 0, limit - 1);
      }
    }
  }

  /** Truncating to `n` and then to `m <= n` is truncating to `m`. */
  lemma TruncationComposes(input: Text, n: nat, m: nat)
    requires m <= n
    ensures Truncated(Truncated(input, n), m) == Truncated(input, m)
  {
    var once := Truncated(input, n);
    TruncatedIsPrefix(input, n);
    TruncatedIsPrefix(input, m);
    TruncatedIsPrefix(once, m);
    assert once == input[..|once|];
    assert Truncated(once, m) == input[..|Truncated(once, m)|];
    assert Truncated(input, m) == input[..|Truncated(input, m)|];
  }
}
