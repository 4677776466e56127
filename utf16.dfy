/** The runtime's UTF-16 helpers: decoding code units to runes and encoding runes
    to code units.  decode_rune, encode_rune, decode, encode and to_utf8_str are
    modelled as written, including how C++ groups the operators in decode_rune and
    encode_rune; corrected rune functions following RFC 2781 sit beside them, and the
    streams can be read with either (see Grouping). */
module Utf16 {
  import opened Bits

  /** The runtime's 32-bit signed integer. */
  type i32 = x: int | -0x8000_0000 <= x < 0x8000_0000
  /** The runtime's 16-bit unsigned integer: one UTF-16 code unit. */
  type u16 = x: int | 0 <= x < 0x1_0000

  const ReplacementChar: i32 := 65533
  const Surr1: i32 := 0xD800
  const Surr2: i32 := 0xDC00
  const Surr3: i32 := 0xE000
  const SurrSelf: i32 := 0x10000
  const MaxRune: i32 := 1114111

  predicate IsHighSurrogate(r: int) { Surr1 <= r < Surr2 }
  predicate IsLowSurrogate(r: int) { Surr2 <= r < Surr3 }
  predicate IsSurrogate(r: int) { Surr1 <= r < Surr3 }

  /** A rune that is copied to a single code unit unchanged: [0, 0xD800) or [0xE000, 0x10000). */
  predicate IsBmpScalar(v: int) { 0 <= v < Surr1 || Surr3 <= v < SurrSelf }

  /** A rune that needs a surrogate sequence: [0x10000, 0x10FFFF]. */
  predicate IsSupplementary(v: int) { SurrSelf <= v <= MaxRune }

  /** A Unicode scalar value: a rune that encode writes as itself or as a surrogate pair. */
  predicate IsScalar(v: int) { IsBmpScalar(v) || IsSupplementary(v) }

  /** `static_cast<u16_julet>`: conversion to a 16-bit unsigned integer, modulo 2^16. */
  function CastU16(x: int): (u: u16)
    ensures 0 <= x < 0x1_0000 ==> u == x
  {
    x % 0x1_0000
  }

  // ---------------------------------------------------------------- runes

  /** The value `((a << 10) | ((b) + 0x10000))` takes for ten-bit a and b: the
      0x10000 is lost whenever bit 6 of a is already set. */
  lemma PairBits(a: nat, b: nat)
    requires a < 1024 && b < 1024
    ensures BitOr(Shl(a, 10), b + SurrSelf) == a * 1024 + b + (if (a / 64) % 2 == 0 then 0x10000 else 0)
  {
    Pow2Ten();
    ShlMul(64, 10);
    BitOrSplit(a, 0, 64, b, 10);
    BitOrZeroLeft(b);
    BitOrPow2(a, 6);
    ShrDiv(a, 6);
    ShlMul(BitOr(a, 64), 10);
  }

  lemma PairBitsRange(a: nat, b: nat)
    requires a < 1024 && b < 1024
    ensures SurrSelf <= BitOr(Shl(a, 10), b + SurrSelf) <= 0xF_FFFF
  {
    PairBits(a, b);
  }

  /** decode_rune: C++ groups the expression as ((R1-0xD800)<<10) | ((R2-0xDC00)+0x10000). */
  function DecodeRune(r1: i32, r2: i32): (r: i32)
    ensures !(IsHighSurrogate(r1) && IsLowSurrogate(r2)) ==> r == ReplacementChar
    ensures IsHighSurrogate(r1) && IsLowSurrogate(r2) ==> SurrSelf <= r <= 0xF_FFFF
  {
    if Surr1 <= r1 && r1 < Surr2 && Surr2 <= r2 && r2 < Surr3 then
      PairBitsRange(r1 - Surr1, r2 - Surr2);
      BitOr(Shl(r1 - Surr1, 10), (r2 - Surr2) + SurrSelf)
    else
      ReplacementChar
  }

  /** The closed form of decode_rune on a surrogate pair. */
  lemma DecodeRuneValue(r1: i32, r2: i32)
    requires IsHighSurrogate(r1) && IsLowSurrogate(r2)
    ensures DecodeRune(r1, r2)
         == (r1 - Surr1) * 1024 + (r2 - Surr2) + (if ((r1 - Surr1) / 64) % 2 == 0 then 0x10000 else 0)
  {
    PairBits(r1 - Surr1, r2 - Surr2);
  }

  /** decode_rune agrees with section 2.2 of RFC 2781 exactly when bit 6 of R1-0xD800 is
      clear; in particular for every high surrogate below 0xD840. */
  lemma DecodeRuneMatchesRfc(r1: i32, r2: i32)
    requires IsHighSurrogate(r1) && IsLowSurrogate(r2)
    ensures DecodeRune(r1, r2) == 0x10000 + (r1 - Surr1) * 1024 + (r2 - Surr2)
       <==> ((r1 - Surr1) / 64) % 2 == 0
    ensures r1 < 0xD840 ==> DecodeRune(r1, r2) == 0x10000 + (r1 - Surr1) * 1024 + (r2 - Surr2)
  {
    DecodeRuneValue(r1, r2);
  }

  /** The two masks of encode_rune: `(0xD800 + (r >> 10)) & 0x3ff` and `(0xDC00 + r) & 0x3ff`. */
  lemma EncodeMasks(r: nat)
    requires r <= MaxRune - SurrSelf
    ensures BitAnd(Surr1 + Shr(r, 10), 0x3FF) == r / 1024
    ensures BitAnd(Surr2 + r, 0x3FF) == r % 1024
  {
    HighMask(r);
    LowMask(r);
  }

  lemma HighMask(r: nat)
    requires r <= MaxRune - SurrSelf
    ensures BitAnd(Surr1 + Shr(r, 10), 0x3FF) == r / 1024
  {
    Pow2Ten();
    ShrDiv(r, 10);
    BitAndLowMask(Surr1 + r / 1024, 10);
    DivModUnique(Surr1 + r / 1024, 1024, 54, r / 1024);
  }

  lemma LowMask(r: nat)
    ensures BitAnd(Surr2 + r, 0x3FF) == r % 1024
  {
    Pow2Ten();
    BitAndLowMask(Surr2 + r, 10);
    DivModUnique(Surr2 + r, 1024, 55 + r / 1024, r % 1024);
  }

  /** encode_rune: `+` binds tighter than `&`, so no surrogate base survives the mask. */
  function EncodeRune(v: i32): (pair: (i32, i32))
    ensures v < SurrSelf || v > MaxRune ==> pair == (ReplacementChar, ReplacementChar)
    ensures IsSupplementary(v) ==> pair == ((v - SurrSelf) / 1024, (v - SurrSelf) % 1024)
    ensures IsSupplementary(v) ==> 0 <= pair.0 <= 0x3FF && 0 <= pair.1 <= 0x3FF
  {
    if v < SurrSelf || v > MaxRune then
      (ReplacementChar, ReplacementChar)
    else
      var r := v - SurrSelf;
      EncodeMasks(r);
      (BitAnd(Surr1 + Shr(r, 10), 0x3FF), BitAnd(Surr2 + r, 0x3FF))
  }

  // ---------------------------------------------------------------- runes, corrected

  /** decode_rune corrected to section 2.2 of RFC 2781:
      (((R1-0xD800)<<10) | (R2-0xDC00)) + 0x10000. */
  function DecodeRuneIntended(r1: i32, r2: i32): (r: i32)
    ensures !(IsHighSurrogate(r1) && IsLowSurrogate(r2)) ==> r == ReplacementChar
    ensures IsHighSurrogate(r1) && IsLowSurrogate(r2) ==> r == 0x10000 + (r1 - Surr1) * 1024 + (r2 - Surr2)
  {
    if Surr1 <= r1 && r1 < Surr2 && Surr2 <= r2 && r2 < Surr3 then
      IntendedPairBits(r1 - Surr1, r2 - Surr2);
      BitOr(Shl(r1 - Surr1, 10), r2 - Surr2) + SurrSelf
    else
      ReplacementChar
  }

  /** `(a << 10) | b` for ten-bit a and b just places a above b. */
  lemma IntendedPairBits(a: nat, b: nat)
    requires a < 1024 && b < 1024
    ensures BitOr(Shl(a, 10), b) == a * 1024 + b
  {
    Pow2Ten();
    BitOrSplit(a, 0, 0, b, 10);
    BitOrZeroRight(a);
    BitOrZeroLeft(b);
    ShlMul(a, 10);
    assert Shl(0, 10) + b == b by {
      ShlMul(0, 10);
    }
  }

  /** encode_rune corrected to section 2.1 of RFC 2781:
      0xD800 + ((R>>10) & 0x3ff) and 0xDC00 + (R & 0x3ff). */
  function EncodeRuneIntended(v: i32): (pair: (i32, i32))
    ensures v < SurrSelf || v > MaxRune ==> pair == (ReplacementChar, ReplacementChar)
    ensures IsSupplementary(v) ==>
      pair == (Surr1 + (v - SurrSelf) / 1024, Surr2 + (v - SurrSelf) % 1024)
  {
    if v < SurrSelf || v > MaxRune then
      (ReplacementChar, ReplacementChar)
    else
      var r := v - SurrSelf;
      IntendedMasks(r);
      (Surr1 + BitAnd(Shr(r, 10), 0x3FF), Surr2 + BitAnd(r, 0x3FF))
  }

  /** The two masks of the intended encode_rune: `(r >> 10) & 0x3ff` and `r & 0x3ff`. */
  lemma IntendedMasks(r: nat)
    requires r <= MaxRune - SurrSelf
    ensures BitAnd(Shr(r, 10), 0x3FF) == r / 1024
    ensures BitAnd(r, 0x3FF) == r % 1024
    ensures r / 1024 < 1024
  {
    Pow2Ten();
    ShrDiv(r, 10);
    BitAndLowMask(r / 1024, 10);
    DivModUnique(r / 1024, 1024, 0, r / 1024);
    BitAndLowMask(r, 10);
  }

  /** With the intended grouping, every supplementary rune becomes a high/low surrogate
      pair that decodes back to it. */
  lemma IntendedRuneRoundTrip(v: i32)
    requires IsSupplementary(v)
    ensures IsHighSurrogate(EncodeRuneIntended(v).0) && IsLowSurrogate(EncodeRuneIntended(v).1)
    ensures DecodeRuneIntended(EncodeRuneIntended(v).0, EncodeRuneIntended(v).1) == v
  {
  }

  /** With the intended grouping, every surrogate pair decodes to a supplementary rune
      that encodes back to the same pair. */
  lemma IntendedPairRoundTrip(r1: i32, r2: i32)
    requires IsHighSurrogate(r1) && IsLowSurrogate(r2)
    ensures IsSupplementary(DecodeRuneIntended(r1, r2))
    ensures EncodeRuneIntended(DecodeRuneIntended(r1, r2)) == (r1, r2)
  {
    var r := DecodeRuneIntended(r1, r2) - SurrSelf;
    assert r == (r1 - Surr1) * 1024 + (r2 - Surr2);
    DivModUnique(r, 1024, r1 - Surr1, r2 - Surr2);
  }

  // ---------------------------------------------------------------- groupings

  /** Which rune functions a stream uses: decode_rune and encode_rune as written, or the
      corrected ones of section 2 of RFC 2781.  decode, encode and to_utf8_str use
      AsWritten; Rfc gives the codec they evidently intend, against which the findings
      are stated. */
  datatype Grouping = AsWritten | Rfc

  /** The rune a high/low surrogate pair decodes to under grouping g. */
  function PairRune(g: Grouping, r1: i32, r2: i32): (r: i32)
    ensures !(IsHighSurrogate(r1) && IsLowSurrogate(r2)) ==> r == ReplacementChar
    ensures IsHighSurrogate(r1) && IsLowSurrogate(r2) ==> IsSupplementary(r)
    ensures g == AsWritten && IsHighSurrogate(r1) && IsLowSurrogate(r2) ==> r <= 0xF_FFFF
  {
    match g
    case AsWritten => DecodeRune(r1, r2)
    case Rfc => DecodeRuneIntended(r1, r2)
  }

  /** The two values a supplementary rune encodes to under grouping g. */
  function RunePair(g: Grouping, v: i32): (pair: (i32, i32))
  {
    match g
    case AsWritten => EncodeRune(v)
    case Rfc => EncodeRuneIntended(v)
  }

  // ---------------------------------------------------------------- decode

  /** Whether decode takes the units at i and i + 1 together as a surrogate pair. */
  predicate PairAt(s: seq<u16>, i: nat)
    requires i < |s|
  {
    IsHighSurrogate(s[i]) && i + 1 < |s| && IsLowSurrogate(s[i + 1])
  }

  /** The rune decode emits for the unit at i: the unit itself when it is not a surrogate,
      the decoded pair when it starts one, and 0xFFFD for any other surrogate. */
  function StepRune(g: Grouping, s: seq<u16>, i: nat): i32
    requires i < |s|
  {
    if s[i] < Surr1 || Surr3 <= s[i] then s[i]
    else if PairAt(s, i) then PairRune(g, s[i], s[i + 1])
    else ReplacementChar
  }

  /** The number of units decode consumes at i. */
  function StepWidth(s: seq<u16>, i: nat): (w: nat)
    requires i < |s|
    ensures 1 <= w <= 2 && i + w <= |s|
  {
    if PairAt(s, i) then 2 else 1
  }

  /** What decode emits for the units s[i..], one classified unit (or pair) at a time. */
  function DecodeFrom(g: Grouping, s: seq<u16>, i: nat): (rs: seq<i32>)
    requires i <= |s|
    ensures |rs| <= |s| - i
    decreases |s| - i
  {
    if i == |s| then [] else [StepRune(g, s, i)] + DecodeFrom(g, s, i + StepWidth(s, i))
  }

  /** What decode returns for the units s. */
  function DecodeSpec(g: Grouping, s: seq<u16>): (rs: seq<i32>)
    ensures |rs| <= |s|
  {
    DecodeFrom(g, s, 0)
  }

  /** A suffix is its first element followed by the next suffix. */
  lemma SliceCons<T>(s: seq<T>, i: nat)
    requires i < |s|
    ensures s[i..] == [s[i]] + s[i + 1..]
  {
  }

  /** A suffix is its first two elements followed by the suffix after them. */
  lemma SliceCons2<T>(s: seq<T>, i: nat)
    requires i + 1 < |s|
    ensures s[i..] == [s[i], s[i + 1]] + s[i + 2..]
  {
  }

  /** Moving a produced chunk from the pending part of an output to the done part. */
  lemma Advance<T>(done: seq<T>, chunk: seq<T>, pending: seq<T>, rest: seq<T>, all: seq<T>)
    requires done + pending == all && pending == chunk + rest
    ensures (done + chunk) + rest == all
  {
  }

  /** The body of decode's loop: classifies the unit at i (with the unit after it when
      that completes a pair) and returns the rune emitted for it and how many units it
      consumes. */
  method DecodeAt(s: seq<u16>, i: nat) returns (rune: i32, width: nat)
    requires i < |s|
    ensures rune == StepRune(AsWritten, s, i) && width == StepWidth(s, i)
  {
    var r := s[i];
    if r < Surr1 || Surr3 <= r {
      rune, width := r, 1;
    } else if Surr1 <= r && r < Surr2 && i + 1 < |s| && Surr2 <= s[i + 1] && s[i + 1] < Surr3 {
      rune, width := DecodeRune(r, s[i + 1]), 2;
      assert PairAt(s, i);
    } else {
      rune, width := ReplacementChar, 1;
      assert !PairAt(s, i);
    }
  }

  /** `__julec_utf16_decode` (the definition over u16 units): fills a buffer as long
      as the input through the cursor n, which never passes i. */
  method Decode(s: seq<u16>) returns (runes: seq<i32>)
    ensures runes == DecodeSpec(AsWritten, s)
    ensures |runes| <= |s|
  {
    var a := new i32[|s|];
    var n := 0;
    var i := 0;
    ghost var done: seq<i32> := [];
    while i < |s|
      invariant 0 <= n <= i <= |s|
      invariant |done| == n && forall k :: 0 <= k < n ==> a[k] == done[k]
      invariant done + DecodeFrom(AsWritten, s, i) == DecodeSpec(AsWritten, s)
    {
      var rune, width := DecodeAt(s, i);
      a[n] := rune;
      Advance(done, [rune], DecodeFrom(AsWritten, s, i), DecodeFrom(AsWritten, s, i + width), DecodeSpec(AsWritten, s));
      done := done + [rune];
      n := n + 1;
      i := i + width;
    }
    runes := a[..n];
    assert runes == done;
  }

  /** Decoding produces only Unicode scalar values: never a surrogate code point, never
      a value beyond 0x10FFFF. */
  lemma {:induction false} DecodeScalars(g: Grouping, s: seq<u16>, i: nat)
    requires i <= |s|
    ensures forall k :: 0 <= k < |DecodeFrom(g, s, i)| ==> IsScalar(DecodeFrom(g, s, i)[k])
    decreases |s| - i
  {
    if i < |s| {
      DecodeScalars(g, s, i + 1);
      if i + 1 < |s| {
        DecodeScalars(g, s, i + 2);
      }
    }
  }

  /** Units that contain no surrogate decode to themselves. */
  lemma {:induction false} DecodeNonSurrogates(g: Grouping, s: seq<u16>, i: nat)
    requires i <= |s|
    requires forall k :: i <= k < |s| ==> !IsSurrogate(s[k])
    ensures DecodeFrom(g, s, i) == s[i..]
    decreases |s| - i
  {
    if i < |s| {
      DecodeNonSurrogates(g, s, i + 1);
      assert s[i..] == [s[i]] + s[i + 1..];
    }
  }

  /** A surrogate that is not the first half of a valid pair (a lone low surrogate, or a
      high surrogate not followed by a low one, also at the end) decodes to 0xFFFD and
      consumes only itself. */
  lemma LoneSurrogate(g: Grouping, s: seq<u16>, i: nat)
    requires i < |s| && IsSurrogate(s[i]) && !PairAt(s, i)
    ensures DecodeFrom(g, s, i) == [ReplacementChar] + DecodeFrom(g, s, i + 1)
  {
  }

  /** A high surrogate followed by a low surrogate decodes to one supplementary rune and
      consumes both units: as written a rune in [0x10000, 0xFFFFF] (decode_rune's closed
      form), with the corrected grouping the value of section 2.2 of RFC 2781. */
  lemma SurrogatePair(g: Grouping, s: seq<u16>, i: nat)
    requires i + 1 < |s| && IsHighSurrogate(s[i]) && IsLowSurrogate(s[i + 1])
    ensures DecodeFrom(g, s, i) == [PairRune(g, s[i], s[i + 1])] + DecodeFrom(g, s, i + 2)
    ensures IsSupplementary(DecodeFrom(g, s, i)[0])
    ensures g == AsWritten ==> DecodeFrom(g, s, i)[0] <= 0xF_FFFF
    ensures g == AsWritten ==>
      DecodeFrom(g, s, i)[0]
      == (s[i] - Surr1) * 1024 + (s[i + 1] - Surr2) + (if ((s[i] - Surr1) / 64) % 2 == 0 then 0x10000 else 0)
    ensures g == Rfc ==> DecodeFrom(g, s, i)[0] == 0x10000 + (s[i] - Surr1) * 1024 + (s[i + 1] - Surr2)
  {
    assert StepRune(g, s, i) == PairRune(g, s[i], s[i + 1]) && StepWidth(s, i) == 2;
    if g == AsWritten {
      DecodeRuneValue(s[i], s[i + 1]);
    }
  }

  // ---------------------------------------------------------------- encode

  /** Number of runes of rs[i..] that are at least 0x10000: what encode's first loop
      adds to the length. */
  function CountAtLeastSelf(rs: seq<i32>, i: nat): nat
    requires i <= |rs|
    decreases |rs| - i
  {
    if i == |rs| then 0 else (if rs[i] >= SurrSelf then 1 else 0) + CountAtLeastSelf(rs, i + 1)
  }

  /** Number of runes of rs[i..] in [0x10000, 0x10FFFF]: those that get two units. */
  function CountSupplementary(rs: seq<i32>, i: nat): nat
    requires i <= |rs|
    decreases |rs| - i
  {
    if i == |rs| then 0 else (if IsSupplementary(rs[i]) then 1 else 0) + CountSupplementary(rs, i + 1)
  }

  /** The units encode writes for one rune: as written, a supplementary rune becomes
      two ten-bit values in [0, 0x3FF], not a surrogate pair. */
  function RuneUnits(g: Grouping, v: i32): (us: seq<u16>)
    ensures IsBmpScalar(v) ==> us == [v]
    ensures g == AsWritten && IsSupplementary(v) ==> us == [(v - SurrSelf) / 1024, (v - SurrSelf) % 1024]
    ensures g == Rfc && IsSupplementary(v) ==> us == [Surr1 + (v - SurrSelf) / 1024, Surr2 + (v - SurrSelf) % 1024]
    ensures !IsBmpScalar(v) && !IsSupplementary(v) ==> us == [ReplacementChar]
  {
    if (0 <= v && v < Surr1) || (Surr3 <= v && v < SurrSelf) then
      [CastU16(v)]
    else if SurrSelf <= v && v <= MaxRune then
      var (r1, r2) := RunePair(g, v);
      [CastU16(r1), CastU16(r2)]
    else
      [CastU16(ReplacementChar)]
  }

  /** What encode emits for the runes rs[i..]. */
  function EncodeFrom(g: Grouping, rs: seq<i32>, i: nat): (us: seq<u16>)
    requires i <= |rs|
    ensures |us| == |rs| - i + CountSupplementary(rs, i)
    decreases |rs| - i
  {
    if i == |rs| then [] else RuneUnits(g, rs[i]) + EncodeFrom(g, rs, i + 1)
  }

  /** What encode returns for the runes rs. */
  function EncodeSpec(g: Grouping, rs: seq<i32>): (us: seq<u16>)
    ensures |us| == |rs| + CountSupplementary(rs, 0)
  {
    EncodeFrom(g, rs, 0)
  }

  /** encode's first loop: the number of units encode allocates, one per rune plus one
      more per rune at least 0x10000. */
  method EncodedLength(runes: seq<i32>) returns (n: nat)
    ensures n == |runes| + CountAtLeastSelf(runes, 0)
  {
    n := |runes|;
    var i := 0;
    while i < |runes|
      invariant 0 <= i <= |runes|
      invariant n + CountAtLeastSelf(runes, i) == |runes| + CountAtLeastSelf(runes, 0)
    {
      if runes[i] >= SurrSelf {
        n := n + 1;
      }
      i := i + 1;
    }
  }

  /** The body of encode's second loop: writes the units of the rune v at n and
      returns the advanced cursor. */
  method PutRune(a: array<u16>, n: nat, v: i32) returns (m: nat)
    requires n + |RuneUnits(AsWritten, v)| <= a.Length
    modifies a
    ensures m == n + |RuneUnits(AsWritten, v)|
    ensures forall k :: 0 <= k < n ==> a[k] == old(a[k])
    ensures forall k :: 0 <= k < |RuneUnits(AsWritten, v)| ==> a[n + k] == RuneUnits(AsWritten, v)[k]
    ensures forall k :: m <= k < a.Length ==> a[k] == old(a[k])
  {
    if (0 <= v && v < Surr1) || (Surr3 <= v && v < SurrSelf) {
      a[n] := CastU16(v);
      m := n + 1;
    } else if SurrSelf <= v && v <= MaxRune {
      var (r1, r2) := EncodeRune(v);
      a[n] := CastU16(r1);
      a[n + 1] := CastU16(r2);
      m := n + 2;
    } else {
      a[n] := CastU16(ReplacementChar);
      m := n + 1;
    }
  }

  /** encode: counts the units it needs, allocates them, and fills them through the
      cursor n. */
  method Encode(runes: seq<i32>) returns (units: seq<u16>)
    ensures units == EncodeSpec(AsWritten, runes)
    ensures |units| == |runes| + CountSupplementary(runes, 0)
  {
    var n := EncodedLength(runes);
    var a := new u16[n];
    EncodeFitsAllocation(runes);
    n := 0;
    var i := 0;
    ghost var done: seq<u16> := [];
    while i < |runes|
      invariant 0 <= i <= |runes|
      invariant |EncodeSpec(AsWritten, runes)| <= a.Length
      invariant done + EncodeFrom(AsWritten, runes, i) == EncodeSpec(AsWritten, runes)
      invariant |done| == n && forall k :: 0 <= k < n ==> a[k] == done[k]
    {
      ghost var us := RuneUnits(AsWritten, runes[i]);
      n := PutRune(a, n, runes[i]);
      Advance(done, us, EncodeFrom(AsWritten, runes, i), EncodeFrom(AsWritten, runes, i + 1), EncodeSpec(AsWritten, runes));
      done := done + us;
      i := i + 1;
    }
    units := a[..n];
    assert units == done;
  }

  lemma {:induction false} CountSupplementaryBound(rs: seq<i32>, i: nat)
    requires i <= |rs|
    ensures CountSupplementary(rs, i) <= CountAtLeastSelf(rs, i)
    decreases |rs| - i
  {
    if i < |rs| {
      CountSupplementaryBound(rs, i + 1);
    }
  }

  /** The buffer encode allocates is large enough for what it writes. */
  lemma EncodeFitsAllocation(rs: seq<i32>)
    ensures |EncodeSpec(AsWritten, rs)| <= |rs| + CountAtLeastSelf(rs, 0)
  {
    CountSupplementaryBound(rs, 0);
  }

  /** Encoding works rune by rune. */
  lemma EncodeConcat(g: Grouping, a: seq<i32>, b: seq<i32>)
    ensures EncodeSpec(g, a + b) == EncodeSpec(g, a) + EncodeSpec(g, b)
  {
    EncodeConcatFrom(g, a, b, 0);
  }

  lemma {:induction false} EncodeConcatFrom(g: Grouping, a: seq<i32>, b: seq<i32>, i: nat)
    requires i <= |a|
    ensures EncodeFrom(g, a + b, i) == EncodeFrom(g, a, i) + EncodeFrom(g, b, 0)
    decreases |a| - i
  {
    if i < |a| {
      EncodeConcatFrom(g, a, b, i + 1);
      var us := RuneUnits(g, a[i]);
      assert (a + b)[i] == a[i];
      calc {
        EncodeFrom(g, a + b, i);
        us + EncodeFrom(g, a + b, i + 1);
        us + (EncodeFrom(g, a, i + 1) + EncodeFrom(g, b, 0));
        (us + EncodeFrom(g, a, i + 1)) + EncodeFrom(g, b, 0);
      }
    } else {
      EncodeShift(g, a, b, 0);
    }
  }

  /** Encoding the tail of a + b past a is encoding b. */
  lemma {:induction false} EncodeShift(g: Grouping, a: seq<i32>, b: seq<i32>, j: nat)
    requires j <= |b|
    ensures EncodeFrom(g, a + b, |a| + j) == EncodeFrom(g, b, j)
    decreases |b| - j
  {
    if j < |b| {
      EncodeShift(g, a, b, j + 1);
      assert (a + b)[|a| + j] == b[j];
      assert EncodeFrom(g, a + b, |a| + j) == RuneUnits(g, b[j]) + EncodeFrom(g, a + b, |a| + (j + 1));
    }
  }

  /** Runes in [0, 0xD800) and [0xE000, 0x10000) are copied unchanged. */
  lemma {:induction false} EncodeBmpIdentity(g: Grouping, rs: seq<i32>, i: nat)
    requires i <= |rs|
    requires forall k :: i <= k < |rs| ==> IsBmpScalar(rs[k])
    ensures EncodeFrom(g, rs, i) == rs[i..]
    decreases |rs| - i
  {
    if i < |rs| {
      EncodeBmpIdentity(g, rs, i + 1);
      assert rs[i..] == [rs[i]] + rs[i + 1..];
    }
  }

  /** Encode copies its input unchanged only when every rune is in [0, 0xD800) or
      [0xE000, 0x10000): a supplementary rune adds a unit, any other rune becomes 0xFFFD. */
  lemma {:induction false} EncodeIdentityOnlyBmp(g: Grouping, rs: seq<i32>, i: nat)
    requires i <= |rs|
    requires EncodeFrom(g, rs, i) == rs[i..]
    ensures forall k :: i <= k < |rs| ==> IsBmpScalar(rs[k])
    decreases |rs| - i
  {
    if i < |rs| {
      var us := RuneUnits(g, rs[i]);
      assert EncodeFrom(g, rs, i) == us + EncodeFrom(g, rs, i + 1);
      if !IsSupplementary(rs[i]) {
        SliceCons(rs, i);
        assert us[0] == rs[i];
        assert EncodeFrom(g, rs, i + 1) == rs[i + 1..];
        EncodeIdentityOnlyBmp(g, rs, i + 1);
      }
    }
  }

  /** As written, encode never emits a surrogate unit, not even for a rune in
      [0x10000, 0x10FFFF]. */
  lemma {:induction false} EncodeNeverSurrogate(rs: seq<i32>, i: nat)
    requires i <= |rs|
    ensures forall k :: 0 <= k < |EncodeFrom(AsWritten, rs, i)| ==> !IsSurrogate(EncodeFrom(AsWritten, rs, i)[k])
    decreases |rs| - i
  {
    if i < |rs| {
      EncodeNeverSurrogate(rs, i + 1);
    }
  }

  // ---------------------------------------------------------------- round trips

  /** As written, decode returns encode's units unchanged, as runes. */
  lemma DecodeOfEncode(rs: seq<i32>)
    ensures DecodeSpec(AsWritten, EncodeSpec(AsWritten, rs)) == EncodeSpec(AsWritten, rs)
  {
    EncodeNeverSurrogate(rs, 0);
    DecodeNonSurrogates(AsWritten, EncodeSpec(AsWritten, rs), 0);
  }

  /** As written, decode undoes encode exactly on the runes in [0, 0xD800) and
      [0xE000, 0x10000): every supplementary rune is lost. */
  lemma RoundTrip(rs: seq<i32>)
    ensures DecodeSpec(AsWritten, EncodeSpec(AsWritten, rs)) == rs
        <==> forall k :: 0 <= k < |rs| ==> IsBmpScalar(rs[k])
  {
    DecodeOfEncode(rs);
    if forall k :: 0 <= k < |rs| ==> IsBmpScalar(rs[k]) {
      EncodeBmpIdentity(AsWritten, rs, 0);
    } else if EncodeSpec(AsWritten, rs) == rs {
      EncodeIdentityOnlyBmp(AsWritten, rs, 0);
    }
  }

  /** As written, encode undoes decode exactly on the units that hold no surrogate. */
  lemma EncodeOfDecode(s: seq<u16>)
    ensures EncodeSpec(AsWritten, DecodeSpec(AsWritten, s)) == s
        <==> forall k :: 0 <= k < |s| ==> !IsSurrogate(s[k])
  {
    EncodeNeverSurrogate(DecodeSpec(AsWritten, s), 0);
    if forall k :: 0 <= k < |s| ==> !IsSurrogate(s[k]) {
      DecodeNonSurrogates(AsWritten, s, 0);
      EncodeBmpIdentity(AsWritten, s, 0);
    }
  }

  /** Well-formed UTF-16 from unit i on: every surrogate is the first or the second half
      of a high/low pair. */
  predicate WellFormedFrom(s: seq<u16>, i: nat)
    requires i <= |s|
    decreases |s| - i
  {
    i == |s|
    || (!IsSurrogate(s[i]) && WellFormedFrom(s, i + 1))
    || (PairAt(s, i) && WellFormedFrom(s, i + 2))
  }

  /** Decode classifies a unit of b the same way inside a + b. */
  lemma StepShift(g: Grouping, a: seq<u16>, b: seq<u16>, j: nat)
    requires j < |b|
    ensures PairAt(a + b, |a| + j) == PairAt(b, j)
    ensures StepRune(g, a + b, |a| + j) == StepRune(g, b, j) && StepWidth(a + b, |a| + j) == StepWidth(b, j)
  {
    assert (a + b)[|a| + j] == b[j];
    if j + 1 < |b| {
      assert (a + b)[|a| + j + 1] == b[j + 1];
    }
  }

  /** Decoding the tail of a + b past a is decoding b. */
  lemma {:induction false} DecodeShift(g: Grouping, a: seq<u16>, b: seq<u16>, j: nat)
    requires j <= |b|
    ensures DecodeFrom(g, a + b, |a| + j) == DecodeFrom(g, b, j)
    decreases |b| - j
  {
    if j < |b| {
      StepShift(g, a, b, j);
      var w := StepWidth(b, j);
      assert DecodeFrom(g, a + b, |a| + j) == [StepRune(g, b, j)] + DecodeFrom(g, a + b, |a| + (j + w));
      DecodeShift(g, a, b, j + w);
    }
  }

  /** Well-formedness of the tail of a + b past a is that of b. */
  lemma {:induction false} WellFormedShift(a: seq<u16>, b: seq<u16>, j: nat)
    requires j <= |b|
    ensures WellFormedFrom(a + b, |a| + j) == WellFormedFrom(b, j)
    decreases |b| - j
  {
    if j < |b| {
      assert (a + b)[|a| + j] == b[j];
      if j + 1 < |b| {
        assert (a + b)[|a| + j + 1] == b[j + 1];
        WellFormedShift(a, b, j + 2);
      }
      WellFormedShift(a, b, j + 1);
    }
  }

  /** With the corrected grouping, decoding the units of one scalar value, followed by
      anything, yields that value first. */
  lemma DecodeRuneUnits(v: i32, rest: seq<u16>)
    requires IsScalar(v)
    ensures DecodeSpec(Rfc, RuneUnits(Rfc, v) + rest) == [v] + DecodeSpec(Rfc, rest)
  {
    var us := RuneUnits(Rfc, v);
    DecodeShift(Rfc, us, rest, 0);
    if IsSupplementary(v) {
      IntendedRuneRoundTrip(v);
      assert (us + rest)[0] == us[0] && (us + rest)[1] == us[1];
    } else {
      assert (us + rest)[0] == v;
    }
  }

  lemma {:induction false} RoundTripFrom(rs: seq<i32>, i: nat)
    requires i <= |rs|
    requires forall k :: i <= k < |rs| ==> IsScalar(rs[k])
    ensures DecodeSpec(Rfc, EncodeFrom(Rfc, rs, i)) == rs[i..]
    decreases |rs| - i
  {
    if i < |rs| {
      RoundTripFrom(rs, i + 1);
      DecodeRuneUnits(rs[i], EncodeFrom(Rfc, rs, i + 1));
      assert rs[i..] == [rs[i]] + rs[i + 1..];
    }
  }

  /** With the corrected grouping, decode undoes encode exactly on the sequences of
      Unicode scalar values. */
  lemma RoundTripRfc(rs: seq<i32>)
    ensures DecodeSpec(Rfc, EncodeSpec(Rfc, rs)) == rs <==> forall k :: 0 <= k < |rs| ==> IsScalar(rs[k])
  {
    DecodeScalars(Rfc, EncodeSpec(Rfc, rs), 0);
    if forall k :: 0 <= k < |rs| ==> IsScalar(rs[k]) {
      RoundTripFrom(rs, 0);
    }
  }

  /** The units of one rune are well-formed UTF-16 in front of any well-formed units. */
  lemma WellFormedRuneUnits(g: Grouping, v: i32, rest: seq<u16>)
    requires WellFormedFrom(rest, 0)
    ensures WellFormedFrom(RuneUnits(g, v) + rest, 0)
  {
    var us := RuneUnits(g, v);
    WellFormedShift(us, rest, 0);
    if IsSupplementary(v) {
      assert (us + rest)[0] == us[0] && (us + rest)[1] == us[1];
      if g == Rfc {
        assert PairAt(us + rest, 0);
      } else {
        assert WellFormedFrom(us + rest, 2);
        assert WellFormedFrom(us + rest, 1);
      }
    } else {
      assert (us + rest)[0] == us[0];
    }
  }

  lemma {:induction false} EncodeWellFormedFrom(g: Grouping, rs: seq<i32>, i: nat)
    requires i <= |rs|
    ensures WellFormedFrom(EncodeFrom(g, rs, i), 0)
    decreases |rs| - i
  {
    if i < |rs| {
      EncodeWellFormedFrom(g, rs, i + 1);
      WellFormedRuneUnits(g, rs[i], EncodeFrom(g, rs, i + 1));
    }
  }

  /** Whatever the runes, encode emits well-formed UTF-16: out-of-range runes and
      surrogates become 0xFFFD, and as written a supplementary rune becomes two
      non-surrogate units. */
  lemma EncodeWellFormed(g: Grouping, rs: seq<i32>)
    ensures WellFormedFrom(EncodeSpec(g, rs), 0)
  {
    EncodeWellFormedFrom(g, rs, 0);
  }

  /** A unit that is not a surrogate encodes, as a rune, back to itself. */
  lemma EncodeUnit(g: Grouping, u: u16)
    requires !IsSurrogate(u)
    ensures EncodeSpec(g, [u]) == [u]
  {
  }

  /** With the corrected grouping, a decoded surrogate pair encodes back to the pair. */
  lemma EncodePair(r1: u16, r2: u16)
    requires IsHighSurrogate(r1) && IsLowSurrogate(r2)
    ensures EncodeSpec(Rfc, [DecodeRuneIntended(r1, r2)]) == [r1, r2]
  {
    IntendedPairRoundTrip(r1, r2);
  }

  /** One non-surrogate unit: encoding what decode emits from i is s[i..] once it is so from i + 1. */
  lemma EncodeOfDecodeUnit(s: seq<u16>, i: nat)
    requires i < |s| && !IsSurrogate(s[i])
    requires EncodeSpec(Rfc, DecodeFrom(Rfc, s, i + 1)) == s[i + 1..]
    ensures EncodeSpec(Rfc, DecodeFrom(Rfc, s, i)) == s[i..]
  {
    assert StepRune(Rfc, s, i) == s[i] && StepWidth(s, i) == 1;
    EncodeConcat(Rfc, [s[i]], DecodeFrom(Rfc, s, i + 1));
    EncodeUnit(Rfc, s[i]);
    SliceCons(s, i);
  }

  /** One surrogate pair: encoding what decode emits from i is s[i..] once it is so from i + 2. */
  lemma EncodeOfDecodePair(s: seq<u16>, i: nat)
    requires i < |s| && PairAt(s, i)
    requires EncodeSpec(Rfc, DecodeFrom(Rfc, s, i + 2)) == s[i + 2..]
    ensures EncodeSpec(Rfc, DecodeFrom(Rfc, s, i)) == s[i..]
  {
    var v := DecodeRuneIntended(s[i], s[i + 1]);
    assert StepRune(Rfc, s, i) == v && StepWidth(s, i) == 2;
    EncodeConcat(Rfc, [v], DecodeFrom(Rfc, s, i + 2));
    EncodePair(s[i], s[i + 1]);
    assert DecodeFrom(Rfc, s, i) == [v] + DecodeFrom(Rfc, s, i + 2);
    SliceCons2(s, i);
  }

  lemma {:induction false} EncodeOfDecodeFrom(s: seq<u16>, i: nat)
    requires i <= |s| && WellFormedFrom(s, i)
    ensures EncodeSpec(Rfc, DecodeFrom(Rfc, s, i)) == s[i..]
    decreases |s| - i
  {
    if i < |s| {
      if !IsSurrogate(s[i]) {
        EncodeOfDecodeFrom(s, i + 1);
        EncodeOfDecodeUnit(s, i);
      } else {
        EncodeOfDecodeFrom(s, i + 2);
        EncodeOfDecodePair(s, i);
      }
    }
  }

  /** With the corrected grouping, encode undoes decode exactly on well-formed UTF-16. */
  lemma EncodeOfDecodeRfc(s: seq<u16>)
    ensures EncodeSpec(Rfc, DecodeSpec(Rfc, s)) == s <==> WellFormedFrom(s, 0)
  {
    EncodeWellFormed(Rfc, DecodeSpec(Rfc, s));
    if WellFormedFrom(s, 0) {
      EncodeOfDecodeFrom(s, 0);
    }
  }

  // ---------------------------------------------------------------- to_utf8_str

  /** The copy loop of `__julec_utf16_to_utf8_str`: each wide character is cast to a code unit. */
  method CodePage(wstr: seq<int>) returns (cp: seq<u16>)
    ensures |cp| == |wstr|
    ensures forall i :: 0 <= i < |wstr| ==> cp[i] == wstr[i] % 0x1_0000
  {
    var a := new u16[|wstr|];
    for i := 0 to |wstr|
      invariant forall j :: 0 <= j < i ==> a[j] == wstr[j] % 0x1_0000
    {
      a[i] := CastU16(wstr[i]);
    }
    cp := a[..];
  }

  /** `__julec_utf16_to_utf8_str` up to the final conversion of the runes to a string. */
  method DecodeWide(wstr: seq<int>) returns (runes: seq<i32>)
    ensures |runes| <= |wstr|
    ensures runes == DecodeSpec(AsWritten, seq(|wstr|, i requires 0 <= i < |wstr| => CastU16(wstr[i])))
  {
    var cp := CodePage(wstr);
    assert cp == seq(|wstr|, i requires 0 <= i < |wstr| => CastU16(wstr[i]));
    runes := Decode(cp);
  }

  // ---------------------------------------------------------------- findings

  /** As written, decode_rune drops the 0x10000 for every pair whose high surrogate is 0xD840. */
  lemma DecodeRuneMisgroupsPair(r2: i32)
    requires IsLowSurrogate(r2)
    ensures DecodeRune(0xD840, r2) == 0x10000 + (r2 - Surr2)
    ensures DecodeRuneIntended(0xD840, r2) == 0x20000 + (r2 - Surr2)
  {
    DecodeRuneValue(0xD840, r2);
  }

  /** As written, decode turns the units 0xD840 0xDC00 (U+20000) into U+10000. */
  lemma DecodeMisgroupsPair()
    ensures DecodeSpec(AsWritten, [0xD840, 0xDC00]) == [0x10000]
    ensures DecodeSpec(Rfc, [0xD840, 0xDC00]) == [0x20000]
  {
    var s: seq<u16> := [0xD840, 0xDC00];
    assert PairAt(s, 0) && StepWidth(s, 0) == 2 && DecodeFrom(AsWritten, s, 2) == DecodeFrom(Rfc, s, 2) == [];
    DecodeRuneMisgroupsPair(0xDC00);
    assert StepRune(AsWritten, s, 0) == 0x10000;
    assert StepRune(Rfc, s, 0) == 0x20000;
  }

  /** As written, encode_rune maps U+10000 to (0, 0) instead of (0xD800, 0xDC00). */
  lemma EncodeRuneDropsSurrogateBase()
    ensures EncodeRune(0x10000) == (0, 0)
    ensures EncodeRuneIntended(0x10000) == (0xD800, 0xDC00)
  {
    assert IsSupplementary(0x10000);
    assert (0x10000 - SurrSelf) / 1024 == 0 && (0x10000 - SurrSelf) % 1024 == 0;
  }

  /** As written, U+10000 does not survive encode_rune followed by decode_rune: the pair
      (0, 0) is not a surrogate pair and decodes to 0xFFFD. */
  lemma SupplementaryRoundTripFails()
    ensures DecodeRune(EncodeRune(0x10000).0, EncodeRune(0x10000).1) == ReplacementChar
    ensures DecodeRuneIntended(EncodeRuneIntended(0x10000).0, EncodeRuneIntended(0x10000).1) == 0x10000
  {
    EncodeRuneDropsSurrogateBase();
  }

  /** As written, encode writes U+10000 as the units 0x0000 0x0000, which decode returns
      as two NUL runes. */
  lemma EncodeDropsSurrogateBase()
    ensures EncodeSpec(AsWritten, [0x10000]) == [0, 0]
    ensures DecodeSpec(AsWritten, EncodeSpec(AsWritten, [0x10000])) == [0, 0]
    ensures EncodeSpec(Rfc, [0x10000]) == [0xD800, 0xDC00]
    ensures DecodeSpec(Rfc, EncodeSpec(Rfc, [0x10000])) == [0x10000]
  {
    var rs: seq<i32> := [0x10000];
    EncodeRuneDropsSurrogateBase();
    assert EncodeFrom(AsWritten, rs, 1) == EncodeFrom(Rfc, rs, 1) == [];
    assert RuneUnits(AsWritten, 0x10000) == [0, 0];
    assert EncodeSpec(AsWritten, rs) == [0, 0] + [];
    DecodeNonSurrogates(AsWritten, [0, 0], 0);
    var us: seq<u16> := [0xD800, 0xDC00];
    assert RuneUnits(Rfc, 0x10000) == us;
    assert EncodeSpec(Rfc, rs) == us + [];
    assert PairAt(us, 0) && StepWidth(us, 0) == 2 && DecodeFrom(Rfc, us, 2) == [];
    assert StepRune(Rfc, us, 0) == 0x10000;
  }
}
