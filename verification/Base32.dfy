/** `base32Encode` and `base32Decode`, the unpadded form of section 6 of RFC 4648. */
module Base32 {
  import opened Common

  newtype Byte = b: int | 0 <= b < 256

  /** `alphabet[v]` for the alphabet `A`-`Z`, `2`-`7`. */
  function SymbolOf(v: nat): (c: char)
    requires v < 32
    ensures IsSymbol(c)
  {
    if v < 26 then 'A' + v as char else '2' + (v - 26) as char
  }

  predicate IsSymbol(c: char) {
    'A' <= c <= 'Z' || '2' <= c <= '7'
  }

  /** `alphabet.indexOf(c)`, with 32 for a character outside the alphabet. */
  function IndexOf(c: char): (v: nat)
    ensures v < 32 <==> IsSymbol(c)
    ensures v < 32 ==> SymbolOf(v) == c
    ensures v <= 32
  {
    if 'A' <= c <= 'Z' then c as nat - 'A' as nat else if '2' <= c <= '7' then c as nat - '2' as nat + 26 else 32
  }

  lemma IndexOfSymbol(v: nat)
    requires v < 32
    ensures IndexOf(SymbolOf(v)) == v
  {
  }

  lemma SymbolsSpellTheAlphabet(v: nat)
    requires v < 32
    ensures SymbolOf(v) == "ABCDEFGHIJKLMNOPQRSTUVWXYZ234567"[v]
  {
  }

  // ----- bit strings, most significant bit first -----

  /** `v.toString(2).padStart(width, "0")` */
  function ToBits(v: nat, width: nat): (r: seq<bool>)
    ensures |r| == width
    decreases width
  {
    if width == 0 then [] else ToBits(v / 2, width - 1) + [v % 2 == 1]
  }

  /** `parseInt(bits, 2)` */
  function FromBits(bits: seq<bool>): (v: nat)
    ensures v < Pow2(|bits|)
  {
    if bits == [] then 0 else 2 * FromBits(bits[..|bits| - 1]) + (if bits[|bits| - 1] then 1 else 0)
  }

  lemma {:induction false} FromToBits(v: nat, width: nat)
    requires v < Pow2(width)
    ensures FromBits(ToBits(v, width)) == v
    decreases width
  {
    if width > 0 {
      FromToBits(v / 2, width - 1);
      assert ToBits(v, width)[..width - 1] == ToBits(v / 2, width - 1);
    }
  }

  lemma {:induction false} ToFromBits(bits: seq<bool>)
    ensures ToBits(FromBits(bits), |bits|) == bits
  {
    if bits != [] {
      ToFromBits(bits[..|bits| - 1]);
    }
  }

  lemma Pow2Values()
    ensures Pow2(5) == 32 && Pow2(8) == 256
  {
    assert Pow2(2) == 4 && Pow2(4) == 16;
    assert Pow2(6) == 64;
  }

  function BytesToBits(bytes: seq<Byte>): (r: seq<bool>)
    ensures |r| == 8 * |bytes|
  {
    if bytes == [] then [] else ToBits(bytes[0] as nat, 8) + BytesToBits(bytes[1..])
  }

  /** The whole octets of a bit string, the rest dropped. */
  function BitsToBytes(bits: seq<bool>): (r: seq<Byte>)
    ensures |r| == |bits| / 8
    decreases |bits|
  {
    if |bits| < 8 then []
    else
      Pow2Values();
      [FromBits(bits[..8]) as Byte] + BitsToBytes(bits[8..])
  }

  // ----- encoding -----

  /** `padEnd(5, "0")` */
  function PadEnd(bits: seq<bool>): (r: seq<bool>)
    requires |bits| <= 5
    ensures |r| == 5
  {
    bits + seq(5 - |bits|, _ => false)
  }

  function Symbol(bits: seq<bool>): (c: char)
    requires |bits| == 5
    ensures IsSymbol(c)
  {
    Pow2Values();
    SymbolOf(FromBits(bits))
  }

  function EncodeBits(bits: seq<bool>): (s: string)
    ensures forall c :: c in s ==> IsSymbol(c)
    decreases |bits|
  {
    if bits == [] then ""
    else
      var n := if |bits| < 5 then |bits| else 5;
      [Symbol(PadEnd(bits[..n]))] + EncodeBits(bits[n..])
  }

  /** The bit string that both loops of the encoder share. */
  method BitString(buffer: seq<Byte>) returns (bits: seq<bool>)
    ensures bits == BytesToBits(buffer)
  {
    hide ToBits;
    bits := [];
    for i := 0 to |buffer|
      invariant bits + BytesToBits(buffer[i..]) == BytesToBits(buffer)
    {
      assert buffer[i..][1..] == buffer[i + 1..];
      bits := bits + ToBits(buffer[i] as nat, 8);
    }
  }

  lemma {:induction false} EncodedLength(bits: seq<bool>)
    ensures |EncodeBits(bits)| == (|bits| + 4) / 5
    decreases |bits|
  {
    if bits != [] {
      EncodedLength(bits[if |bits| < 5 then |bits| else 5..]);
    }
  }

  lemma EncodeStep(bits: seq<bool>, i: nat, result: string)
    requires i < |bits|
    ensures var end := Min(i + 5, |bits|);
            result + EncodeBits(bits[i..]) == result + [Symbol(PadEnd(bits[i..end]))] + EncodeBits(bits[end..])
  {
    var end := Min(i + 5, |bits|);
    assert bits[i..][..end - i] == bits[i..end] && bits[i..][end - i..] == bits[end..];
  }

  /** `base32Encode`: `⌈8n/5⌉` symbols for `n` bytes. */
  method Base32Encode(buffer: seq<Byte>) returns (result: string)
    ensures result == EncodeBits(BytesToBits(buffer))
    ensures |result| == (8 * |buffer| + 4) / 5
  {
    var bits := BitString(buffer);
    assert EncodeBits([]) == "";
    hide Symbol, PadEnd, BytesToBits, EncodeBits;
    result := "";
    var i := 0;
    assert bits[0..] == bits;
    while i < |bits|
      invariant 0 <= i && result + EncodeBits(bits[Min(i, |bits|)..]) == EncodeBits(bits)
      decreases |bits| - i
    {
      var end := Min(i + 5, |bits|);
      var chunk := PadEnd(bits[i..end]);
      EncodeStep(bits, i, result);
      result := result + [Symbol(chunk)];
      i := i + 5;
    }
    assert bits[|bits|..] == [];
    EncodedLength(bits);
  }

  // ----- decoding -----

  /** The bits of the alphabet characters of `text`; every other character is skipped. */
  function DecodeSymbols(text: string): seq<bool> {
    if text == "" then []
    else
      var rest := DecodeSymbols(text[1..]);
      if IndexOf(text[0]) == 32 then rest else ToBits(IndexOf(text[0]), 5) + rest
  }

  predicate Ascii(s: string) {
    forall i :: 0 <= i < |s| ==> s[i] < '\U{80}'
  }

  /** `toUpperCase`; what it makes of a character outside ASCII is a parameter. */
  function Upper(s: string, other: char -> string): string {
    if s == "" then ""
    else (if 'a' <= s[0] <= 'z' then [s[0] - 'a' + 'A'] else if s[0] < '\U{80}' then [s[0]] else other(s[0]))
         + Upper(s[1..], other)
  }

  /** `replace(/=+$/, "")` */
  function StripPadding(s: string): string
    decreases |s|
  {
    if s != "" && s[|s| - 1] == '=' then StripPadding(s[..|s| - 1]) else s
  }

  function Decode(input: string, other: char -> string): seq<Byte> {
    BitsToBytes(DecodeSymbols(StripPadding(Upper(input, other))))
  }

  method Base32Decode(input: string, other: char -> string) returns (bytes: seq<Byte>)
    ensures bytes == Decode(input, other)
  {
    hide ToBits, FromBits, IndexOf, Pow2, StripPadding, Upper;
    var text := StripPadding(Upper(input, other));
    var bits: seq<bool> := [];
    for k := 0 to |text|
      invariant bits + DecodeSymbols(text[k..]) == DecodeSymbols(text)
    {
      var val := IndexOf(text[k]);
      assert text[k..][1..] == text[k + 1..];
      if val == 32 {
        continue;
      }
      bits := bits + ToBits(val, 5);
    }
    assert bits == DecodeSymbols(text);
    bytes := [];
    var i := 0;
    while i + 8 <= |bits|
      invariant 0 <= i <= |bits|
      invariant bytes + BitsToBytes(bits[i..]) == BitsToBytes(bits)
      decreases |bits| - i
    {
      Pow2Values();
      assert bits[i..][..8] == bits[i..i + 8] && bits[i..][8..] == bits[i + 8..];
      bytes := bytes + [FromBits(bits[i..i + 8]) as Byte];
      i := i + 8;
    }
  }

  // ----- the round trip -----

  /** The zero bits that encoding adds to fill the last symbol. */
  function Padding(bits: seq<bool>): (r: seq<bool>)
    ensures |r| < 5 && (|bits| + |r|) % 5 == 0
  {
    seq((5 - |bits| % 5) % 5, _ => false)
  }

  lemma SymbolBits(chunk: seq<bool>)
    requires |chunk| == 5
    ensures ToBits(IndexOf(Symbol(chunk)), 5) == chunk
  {
    Pow2Values();
    IndexOfSymbol(FromBits(chunk));
    ToFromBits(chunk);
  }

  lemma DecodeCons(c: char, rest: string)
    requires IsSymbol(c)
    ensures DecodeSymbols([c] + rest) == ToBits(IndexOf(c), 5) + DecodeSymbols(rest)
  {
    assert ([c] + rest)[1..] == rest;
  }

  lemma PaddingStep(bits: seq<bool>)
    ensures bits == [] ==> Padding(bits) == []
    ensures 0 < |bits| < 5 ==> Padding(bits) == seq(5 - |bits|, _ => false)
    ensures |bits| >= 5 ==> Padding(bits) == Padding(bits[5..])
  {
  }

  lemma {:induction false} DecodeOfEncode(bits: seq<bool>)
    ensures DecodeSymbols(EncodeBits(bits)) == bits + Padding(bits)
    decreases |bits|
  {
    hide ToBits, IndexOf, Symbol, DecodeSymbols, Padding;
    PaddingStep(bits);
    if bits == [] {
      NoSymbols();
    } else {
      var n := Min(|bits|, 5);
      var chunk := PadEnd(bits[..n]);
      SymbolBits(chunk);
      DecodeOfEncode(bits[n..]);
      PaddingStep(bits[n..]);
      DecodeCons(Symbol(chunk), EncodeBits(bits[n..]));
      if n < 5 {
        assert bits[n..] == [] && bits[..n] == bits;
      } else {
        assert chunk == bits[..5];
      }
    }
  }

  lemma NoSymbols()
    ensures DecodeSymbols("") == []
  {
  }

  lemma OctetFirst(b: Byte, rest: seq<bool>)
    ensures BitsToBytes(ToBits(b as nat, 8) + rest) == [b] + BitsToBytes(rest)
  {
    var bits := ToBits(b as nat, 8) + rest;
    Pow2Values();
    FromToBits(b as nat, 8);
    hide ToBits, FromBits, Pow2;
    assert bits[..8] == ToBits(b as nat, 8) && bits[8..] == rest;
  }

  lemma {:induction false} BytesRoundTrip(bytes: seq<Byte>, rest: seq<bool>)
    requires |rest| < 8
    ensures BitsToBytes(BytesToBits(bytes) + rest) == bytes
    decreases |bytes|
  {
    if bytes == [] {
      assert BytesToBits(bytes) + rest == rest;
    } else {
      var tail := BytesToBits(bytes[1..]) + rest;
      OctetFirst(bytes[0], tail);
      assert BytesToBits(bytes) + rest == ToBits(bytes[0] as nat, 8) + tail;
      BytesRoundTrip(bytes[1..], rest);
    }
  }

  lemma SymbolsAreUpper(c: char)
    requires IsSymbol(c)
    ensures c < '\U{80}' && !('a' <= c <= 'z') && c != '='
  {
  }

  lemma {:induction false} UpperOfSymbols(s: string, other: char -> string)
    requires forall c :: c in s ==> IsSymbol(c)
    ensures Upper(s, other) == s && StripPadding(s) == s
  {
    if s != "" {
      SymbolsAreUpper(s[0]);
      SymbolsAreUpper(s[|s| - 1]);
      assert s == [s[0]] + s[1..];
      UpperOfSymbols(s[1..], other);
    }
  }

  /** Decoding an encoding gives the bytes back: fewer than 5 padding bits are left over. */
  lemma DecodeEncodeRoundTrip(bytes: seq<Byte>, other: char -> string)
    ensures Decode(EncodeBits(BytesToBits(bytes)), other) == bytes
    ensures 0 <= |DecodeSymbols(EncodeBits(BytesToBits(bytes)))| - 8 * |bytes| < 5
  {
    var bits := BytesToBits(bytes);
    UpperOfSymbols(EncodeBits(bits), other);
    DecodeOfEncode(bits);
    BytesRoundTrip(bytes, Padding(bits));
  }

  // ----- what decoding ignores -----

  /** The characters that decide the result: upper-cased, and in the alphabet. */
  function Canonical(s: string): string {
    if s == "" then ""
    else
      var c := if 'a' <= s[0] <= 'z' then s[0] - 'a' + 'A' else s[0];
      (if IsSymbol(c) then [c] else []) + Canonical(s[1..])
  }

  lemma {:induction false} SymbolsConcat(a: string, b: string)
    ensures DecodeSymbols(a + b) == DecodeSymbols(a) + DecodeSymbols(b)
  {
    if a == "" {
      assert a + b == b;
    } else {
      assert (a + b)[1..] == a[1..] + b;
      SymbolsConcat(a[1..], b);
    }
  }

  lemma {:induction false} PaddingHasNoBits(s: string)
    ensures DecodeSymbols(StripPadding(s)) == DecodeSymbols(s)
    decreases |s|
  {
    if s != "" && s[|s| - 1] == '=' {
      PaddingHasNoBits(s[..|s| - 1]);
      assert s == s[..|s| - 1] + "=";
      SymbolsConcat(s[..|s| - 1], "=");
    }
  }

  lemma {:induction false} SymbolsOfUpper(s: string, other: char -> string)
    requires Ascii(s)
    ensures DecodeSymbols(Upper(s, other)) == DecodeSymbols(Canonical(s))
  {
    if s != "" {
      SymbolsOfUpper(s[1..], other);
      var c := if 'a' <= s[0] <= 'z' then s[0] - 'a' + 'A' else s[0];
      assert Upper(s, other) == [c] + Upper(s[1..], other);
      SymbolsConcat([c], Upper(s[1..], other));
      SymbolsConcat(if IsSymbol(c) then [c] else [], Canonical(s[1..]));
    }
  }

  lemma {:induction false} CanonicalIsCanonical(s: string)
    ensures forall c :: c in Canonical(s) ==> IsSymbol(c)
  {
    if s != "" { CanonicalIsCanonical(s[1..]); }
  }

  /** For ASCII text, letter case, padding and characters outside the alphabet make no
      difference: only the canonical form counts. */
  lemma DecodingIsLenient(s: string, t: string, other: char -> string)
    requires Ascii(s) && Ascii(t) && Canonical(s) == Canonical(t)
    ensures Decode(s, other) == Decode(t, other)
    ensures Decode(s, other) == BitsToBytes(DecodeSymbols(Canonical(s)))
  {
    PaddingHasNoBits(Upper(s, other));
    PaddingHasNoBits(Upper(t, other));
    SymbolsOfUpper(s, other);
    SymbolsOfUpper(t, other);
  }

  // ----- the numbers that the bytes and the symbols spell -----

  /** The number that bytes spell, most significant first. */
  function Value256(bytes: seq<Byte>): nat {
    if bytes == [] then 0 else Value256(bytes[..|bytes| - 1]) * 256 + bytes[|bytes| - 1] as nat
  }

  /** The number that symbols spell as base 32 digits, most significant first. */
  function Value32(s: string): nat {
    if s == "" then 0 else Value32(s[..|s| - 1]) * 32 + IndexOf(s[|s| - 1])
  }

  lemma Scaled(x: nat, p: nat, f: nat)
    ensures f * (x * p) == x * (f * p)
  {
  }

  lemma FromBitsSnoc(bits: seq<bool>, last: bool)
    ensures FromBits(bits + [last]) == 2 * FromBits(bits) + if last then 1 else 0
  {
    assert (bits + [last])[..|bits|] == bits;
  }

  lemma {:induction false} FromBitsAppend(a: seq<bool>, b: seq<bool>)
    ensures FromBits(a + b) == FromBits(a) * Pow2(|b|) + FromBits(b)
  {
    if b == [] {
      assert a + b == a;
    } else {
      var front, last := b[..|b| - 1], b[|b| - 1];
      FromBitsAppend(a, front);
      FromBitsSnoc(a + front, last);
      FromBitsSnoc(front, last);
      assert a + b == a + front + [last] && b == front + [last];
      hide FromBits;
      Scaled(FromBits(a), Pow2(|front|), 2);
    }
  }

  lemma {:induction false} BytesToBitsSnoc(bytes: seq<Byte>, b: Byte)
    ensures BytesToBits(bytes + [b]) == BytesToBits(bytes) + ToBits(b as nat, 8)
  {
    hide ToBits;
    if bytes == [] {
      assert [b][1..] == [] && BytesToBits([]) == [];
    } else {
      BytesToBitsSnoc(bytes[1..], b);
      assert (bytes + [b])[1..] == bytes[1..] + [b];
    }
  }

  lemma {:induction false} BytesSpell(bytes: seq<Byte>)
    ensures FromBits(BytesToBits(bytes)) == Value256(bytes)
  {
    if bytes != [] {
      var front, last := bytes[..|bytes| - 1], bytes[|bytes| - 1];
      BytesSpell(front);
      assert bytes == front + [last];
      BytesToBitsSnoc(front, last);
      Pow2Values();
      FromToBits(last as nat, 8);
      FromBitsAppend(BytesToBits(front), ToBits(last as nat, 8));
    }
  }

  lemma {:induction false} Value32Cons(c: char, s: string)
    ensures Value32([c] + s) == IndexOf(c) * Pow2(5 * |s|) + Value32(s)
    decreases |s|
  {
    if s == "" {
      assert [c] + s == [c] && [c][..0] == "";
    } else {
      var front := s[..|s| - 1];
      assert ([c] + s)[..|s|] == [c] + front;
      Value32Cons(c, front);
      Pow2Five(5 * |front|);
      hide IndexOf;
      Scaled(IndexOf(c), Pow2(5 * |front|), 32);
    }
  }

  lemma Pow2Five(n: nat)
    ensures Pow2(n + 5) == 32 * Pow2(n)
  {
    assert Pow2(n + 5) == 2 * Pow2(n + 4);
    assert Pow2(n + 4) == 2 * Pow2(n + 3);
    assert Pow2(n + 3) == 2 * Pow2(n + 2);
    assert Pow2(n + 2) == 2 * Pow2(n + 1);
    assert Pow2(n + 1) == 2 * Pow2(n);
  }

  lemma SymbolValue(bits: seq<bool>)
    requires |bits| == 5
    ensures IndexOf(Symbol(bits)) == FromBits(bits)
  {
    Pow2Values();
    IndexOfSymbol(FromBits(bits));
  }

  lemma {:induction false} SymbolsSpell(bits: seq<bool>)
    requires |bits| % 5 == 0
    ensures |EncodeBits(bits)| == |bits| / 5 && Value32(EncodeBits(bits)) == FromBits(bits)
    decreases |bits|
  {
    hide Symbol, FromBits, Value32, IndexOf;
    if bits == [] {
      NothingSpells();
    } else {
      var first, rest := bits[..5], bits[5..];
      SymbolsSpell(rest);
      assert bits == first + rest && PadEnd(first) == first;
      SymbolValue(first);
      Value32Cons(Symbol(first), EncodeBits(rest));
      FromBitsAppend(first, rest);
      assert EncodeBits(bits) == [Symbol(first)] + EncodeBits(rest);
      assert 5 * |EncodeBits(rest)| == |rest|;
    }
  }

  lemma NothingSpells()
    ensures Value32("") == 0 && FromBits([]) == 0
  {
  }

  lemma {:induction false} EncodePads(bits: seq<bool>)
    ensures EncodeBits(bits) == EncodeBits(bits + Padding(bits))
    decreases |bits|
  {
    hide Symbol, Padding;
    PaddingStep(bits);
    if bits == [] {
      assert bits + Padding(bits) == [];
    } else if |bits| < 5 {
      var padded := bits + Padding(bits);
      assert bits[..|bits|] == bits && padded[..5] == PadEnd(bits) && PadEnd(padded) == padded && padded[5..] == [] && bits[|bits|..] == [];
    } else {
      EncodePads(bits[5..]);
      assert (bits + Padding(bits))[..5] == bits[..5] && (bits + Padding(bits))[5..] == bits[5..] + Padding(bits);
    }
  }

  lemma {:induction false} FromZeros(n: nat)
    ensures FromBits(seq(n, _ => false)) == 0
  {
    if n > 0 {
      assert seq(n, _ => false)[..n - 1] == seq(n - 1, _ => false);
      FromZeros(n - 1);
    }
  }

  lemma PaddedValue(bits: seq<bool>)
    ensures FromBits(bits + Padding(bits)) == FromBits(bits) * Pow2(|Padding(bits)|)
  {
    FromBitsAppend(bits, Padding(bits));
    assert Padding(bits) == seq(|Padding(bits)|, _ => false);
    FromZeros(|Padding(bits)|);
  }

  /** The symbols spell the number of the bytes, followed by fewer than five zero bits. */
  lemma EncodingSpellsTheBytes(bytes: seq<Byte>)
    ensures var pad := |Padding(BytesToBits(bytes))|;
            && pad < 5 && (8 * |bytes| + pad) % 5 == 0
            && Value32(EncodeBits(BytesToBits(bytes))) == Value256(bytes) * Pow2(pad)
  {
    var bits := BytesToBits(bytes);
    hide EncodeBits, BytesToBits, Value32, Value256, FromBits, Padding, Pow2;
    EncodePads(bits);
    SymbolsSpell(bits + Padding(bits));
    PaddedValue(bits);
    BytesSpell(bytes);
  }

  // ----- what the canonical form ignores -----

  lemma {:induction false} CanonicalAppend(a: string, b: string)
    ensures Canonical(a + b) == Canonical(a) + Canonical(b)
  {
    if a == "" {
      assert a + b == b;
    } else {
      assert (a + b)[1..] == a[1..] + b;
      CanonicalAppend(a[1..], b);
    }
  }

  /** Each letter counts as its capital, the digits 2 to 7 as themselves, and nothing else counts. */
  lemma CanonicalOne(c: char)
    ensures 'A' <= c <= 'Z' || '2' <= c <= '7' ==> Canonical([c]) == [c]
    ensures 'a' <= c <= 'z' ==> Canonical([c]) == [(c as int - 32) as char]
    ensures !('A' <= c <= 'Z') && !('a' <= c <= 'z') && !('2' <= c <= '7') ==> Canonical([c]) == ""
  {
    assert [c][1..] == "";
  }
}
