/**
 * The two text encodings the composition reader sits between: UTF-16 code
 * units as the input method hands them out, and Unicode scalar values
 * (Dafny's `char`) whose UTF-8 lengths give the application's byte offsets.
 *
 * Decoding follows section 2.2 of RFC 2781, with the lossy recovery of
 * Rust's `String::from_utf16_lossy`: a surrogate that is not part of a
 * high/low pair becomes U+FFFD and only that one unit is consumed.
 * Per-character UTF-8 lengths follow the table in section 3 of RFC 3629.
 */
module Unicode {

  /** One UTF-16 code unit (a Rust `u16`). */
  type CodeUnit = x: int | 0 <= x < 0x1_0000

  /** U+FFFD REPLACEMENT CHARACTER, emitted for every unpaired surrogate. */
  const Replacement: char := '\U{FFFD}'

  predicate IsHighSurrogate(u: CodeUnit) { 0xD800 <= u < 0xDC00 }

  predicate IsLowSurrogate(u: CodeUnit) { 0xDC00 <= u < 0xE000 }

  predicate IsSurrogate(u: CodeUnit) { 0xD800 <= u < 0xE000 }

  /** The supplementary-plane scalar value a surrogate pair stands for. */
  function CombinePair(hi: CodeUnit, lo: CodeUnit): (c: char)
    requires IsHighSurrogate(hi) && IsLowSurrogate(lo)
    ensures 0x1_0000 <= c as int < 0x11_0000
  {
    (0x1_0000 + (hi - 0xD800) * 0x400 + (lo - 0xDC00)) as char
  }

  /**
   * Lossy UTF-16 decoding. Never fails: every unpaired surrogate yields one
   * U+FFFD. Each unit produces at most one char, and at most two units are
   * consumed per char.
   */
  function DecodeUtf16Lossy(units: seq<CodeUnit>): (s: string)
    ensures |s| <= |units| <= 2 * |s|
    decreases |units|
  {
    if units == [] then []
    else if !IsSurrogate(units[0]) then
      [units[0] as char] + DecodeUtf16Lossy(units[1..])
    else if IsHighSurrogate(units[0]) && |units| > 1 && IsLowSurrogate(units[1]) then
      [CombinePair(units[0], units[1])] + DecodeUtf16Lossy(units[2..])
    else
      [Replacement] + DecodeUtf16Lossy(units[1..])
  }

  /** UTF-16 encoding of one scalar value (RFC 2781 section 2.1). */
  function EncodeCharUtf16(c: char): (units: seq<CodeUnit>)
  {
    if c as int < 0x1_0000 then [c as int]
    else
      var v := c as int - 0x1_0000;
      [0xD800 + v / 0x400, 0xDC00 + v % 0x400]
  }

  function EncodeUtf16(s: string): (units: seq<CodeUnit>)
  {
    if s == [] then [] else EncodeCharUtf16(s[0]) + EncodeUtf16(s[1..])
  }

  /** Decoding undoes encoding: on well-formed input nothing is replaced. */
  lemma {:induction false} DecodeEncodeUtf16(s: string)
    ensures DecodeUtf16Lossy(EncodeUtf16(s)) == s
  {
    if s != [] {
      var head, rest := EncodeCharUtf16(s[0]), EncodeUtf16(s[1..]);
      var units := head + rest;
      assert EncodeUtf16(s) == units;
      DecodeEncodeUtf16(s[1..]);
      if s[0] as int < 0x1_0000 {
        assert units[1..] == rest;
        assert !IsSurrogate(units[0]);
      } else {
        var v := s[0] as int - 0x1_0000;
        assert units[2..] == rest;
        assert IsHighSurrogate(units[0]) && IsLowSurrogate(units[1]);
        assert CombinePair(units[0], units[1]) as int == 0x1_0000 + (v / 0x400) * 0x400 + v % 0x400;
      }
    }
  }

  /**
   * The unit at `i` is a surrogate the decoder cannot pair: a high surrogate
   * not followed by a low one, or a low surrogate not preceded by a high one.
   */
  predicate Unpaired(units: seq<CodeUnit>, i: nat)
    requires i < |units|
  {
    || (IsHighSurrogate(units[i]) && !(i + 1 < |units| && IsLowSurrogate(units[i + 1])))
    || (IsLowSurrogate(units[i]) && !(i > 0 && IsHighSurrogate(units[i - 1])))
  }

  /** `units` with every unpaired surrogate replaced by U+FFFD and everything else kept. */
  function ReplaceUnpaired(units: seq<CodeUnit>): (r: seq<CodeUnit>)
  {
    seq(|units|, i requires 0 <= i < |units| => if Unpaired(units, i) then 0xFFFD else units[i])
  }

  /**
   * Lossy decoding loses exactly the unpaired surrogates: encoding the decoded
   * string gives back the input with each of them replaced by U+FFFD, and
   * every other unit, paired surrogates included, in place.
   */
  lemma {:induction false} EncodeDecodeLossy(units: seq<CodeUnit>)
    ensures EncodeUtf16(DecodeUtf16Lossy(units)) == ReplaceUnpaired(units)
    decreases |units|
  {
    if units != [] {
      var r := ReplaceUnpaired(units);
      if !IsSurrogate(units[0]) {
        EncodeUtf16Cons(units[0] as char, DecodeUtf16Lossy(units[1..]));
        EncodeDecodeLossy(units[1..]);
        ReplaceUnpairedSuffix(units, 1);
        assert r == [r[0]] + r[1..];
      } else if IsHighSurrogate(units[0]) && |units| > 1 && IsLowSurrogate(units[1]) {
        EncodeUtf16Cons(CombinePair(units[0], units[1]), DecodeUtf16Lossy(units[2..]));
        EncodeCombinePair(units[0], units[1]);
        EncodeDecodeLossy(units[2..]);
        ReplaceUnpairedSuffix(units, 2);
        assert r == [r[0], r[1]] + r[2..];
      } else {
        EncodeUtf16Cons(Replacement, DecodeUtf16Lossy(units[1..]));
        EncodeDecodeLossy(units[1..]);
        ReplaceUnpairedSuffix(units, 1);
        assert r == [r[0]] + r[1..];
      }
    }
  }

  lemma EncodeUtf16Cons(c: char, s: string)
    ensures EncodeUtf16([c] + s) == EncodeCharUtf16(c) + EncodeUtf16(s)
  {
    assert ([c] + s)[1..] == s;
  }

  lemma EncodeCombinePair(hi: CodeUnit, lo: CodeUnit)
    requires IsHighSurrogate(hi) && IsLowSurrogate(lo)
    ensures EncodeCharUtf16(CombinePair(hi, lo)) == [hi, lo]
  {
    var v := (hi - 0xD800) * 0x400 + (lo - 0xDC00);
    assert CombinePair(hi, lo) as int - 0x1_0000 == v;
    assert v / 0x400 == hi - 0xD800 && v % 0x400 == lo - 0xDC00;
  }

  /**
   * Cutting the buffer where no pair straddles the cut (the unit before it is
   * not a high surrogate, or the unit after it is not a low one) does not
   * change which of the remaining units are unpaired.
   */
  lemma ReplaceUnpairedSuffix(units: seq<CodeUnit>, d: nat)
    requires 0 < d <= |units|
    requires !IsHighSurrogate(units[d - 1]) || d == |units| || !IsLowSurrogate(units[d])
    ensures ReplaceUnpaired(units[d..]) == ReplaceUnpaired(units)[d..]
  {
    var tail := units[d..];
    forall j | 0 <= j < |tail|
      ensures Unpaired(tail, j) == Unpaired(units, d + j)
    {
      assert tail[j] == units[d + j];
      if j + 1 < |tail| {
        assert tail[j + 1] == units[d + j + 1];
      }
      if j > 0 {
        assert tail[j - 1] == units[d + j - 1];
      }
    }
  }

  /** Number of bytes of the UTF-8 encoding of `c` (Rust's `char::len_utf8`). */
  function LenUtf8(c: char): (n: nat)
    ensures 1 <= n <= 4
  {
    if c as int < 0x80 then 1
    else if c as int < 0x800 then 2
    else if c as int < 0x1_0000 then 3
    else 4
  }

  /** Number of bytes of the UTF-8 encoding of `s` (Rust's `str::len`). */
  function Utf8Len(s: string): nat
  {
    if s == [] then 0 else LenUtf8(s[0]) + Utf8Len(s[1..])
  }

  lemma {:induction false} Utf8LenAppend(a: string, b: string)
    ensures Utf8Len(a + b) == Utf8Len(a) + Utf8Len(b)
  {
    if a == [] {
      assert a + b == b;
    } else {
      assert (a + b)[0] == a[0] && (a + b)[1..] == a[1..] + b;
      Utf8LenAppend(a[1..], b);
    }
  }

  /** A string is empty exactly when its UTF-8 encoding is. */
  lemma {:induction false} Utf8LenPositive(s: string)
    ensures s == [] <==> Utf8Len(s) == 0
    ensures |s| <= Utf8Len(s) <= 4 * |s|
  {
    if s != [] {
      Utf8LenPositive(s[1..]);
    }
  }

  /**
   * Every code unit of the input yields at most three UTF-8 bytes of the
   * decoded string: a BMP char or a U+FFFD is 3 bytes for 1 unit, a
   * supplementary char 4 bytes for 2 units.
   */
  lemma {:induction false} DecodedUtf8Bound(units: seq<CodeUnit>)
    ensures Utf8Len(DecodeUtf16Lossy(units)) <= 3 * |units|
    decreases |units|
  {
    if units != [] {
      if !IsSurrogate(units[0]) {
        DecodedUtf8Bound(units[1..]);
      } else if IsHighSurrogate(units[0]) && |units| > 1 && IsLowSurrogate(units[1]) {
        DecodedUtf8Bound(units[2..]);
      } else {
        DecodedUtf8Bound(units[1..]);
      }
    }
  }
}
