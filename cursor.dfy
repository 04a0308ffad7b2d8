/**
 * Translation of the input method's cursor into a byte offset of the decoded
 * composition string, exactly as the loop in
 * `Imc::get_composition_string` does it: the halved cursor value is compared
 * with the UTF-8 byte index of each char (what `str::char_indices` yields),
 * and the UTF-8 lengths of the chars up to and including the matching one
 * are summed.
 */
module Cursor {
  import opened Unicode

  datatype Option<T> = None | Some(value: T)

  /** UTF-8 byte index at which the char `s[k]` starts (`k == |s|`: the end). */
  function ByteOffset(s: string, k: nat): nat
    requires k <= |s|
  {
    Utf8Len(s[..k])
  }

  /** Rust's `s.char_indices()`: each char paired with its starting byte index. */
  function CharIndices(s: string): seq<(nat, char)>
  {
    seq(|s|, k requires 0 <= k < |s| => (ByteOffset(s, k), s[k]))
  }

  /** Rust's `str::is_char_boundary`. */
  ghost predicate IsCharBoundary(s: string, b: nat)
  {
    exists k :: 0 <= k <= |s| && ByteOffset(s, k) == b
  }

  lemma ByteOffsetStep(s: string, k: nat)
    requires k < |s|
    ensures ByteOffset(s, k + 1) == ByteOffset(s, k) + LenUtf8(s[k])
  {
    assert s[..k + 1] == s[..k] + [s[k]];
    Utf8LenAppend(s[..k], [s[k]]);
  }

  lemma ByteOffsetEnd(s: string)
    ensures ByteOffset(s, |s|) == Utf8Len(s)
  {
    assert s[..|s|] == s;
  }

  /** Dropping the first char shifts every later byte index by its length. */
  lemma ByteOffsetTail(s: string, k: nat)
    requires 0 < k <= |s|
    ensures ByteOffset(s, k) == LenUtf8(s[0]) + ByteOffset(s[1..], k - 1)
  {
    assert s[..k] == [s[0]] + s[1..][..k - 1];
    Utf8LenAppend([s[0]], s[1..][..k - 1]);
  }

  /**
   * Reference definition: the index of the char whose UTF-8 encoding starts
   * at byte `b`, if there is one. Walks the string consuming one char's
   * length at a time, independently of `ByteOffset`.
   */
  function CharStartingAt(s: string, b: nat): (r: Option<nat>)
    ensures r.Some? ==> r.value < |s|
  {
    if s == [] then None
    else if b == 0 then Some(0)
    else if b < LenUtf8(s[0]) then None
    else
      match CharStartingAt(s[1..], b - LenUtf8(s[0]))
      case None => None
      case Some(k) => Some(k + 1)
  }

  /** The char found by `CharStartingAt` is exactly the one `char_indices` reports at `b`. */
  lemma {:induction false} CharStartingAtIff(s: string, b: nat, k: nat)
    ensures CharStartingAt(s, b) == Some(k) <==> k < |s| && ByteOffset(s, k) == b
  {
    if s != [] && b != 0 && k < |s| {
      if k == 0 {
        assert ByteOffset(s, 0) == 0;
      } else {
        ByteOffsetTail(s, k);
        if b >= LenUtf8(s[0]) {
          CharStartingAtIff(s[1..], b - LenUtf8(s[0]), k - 1);
        }
      }
    } else if s != [] && b == 0 && 0 < k < |s| {
      ByteOffsetTail(s, k);
    }
  }

  /**
   * What the cursor loop computes: the byte offset just past the char that
   * starts at byte index `charPos`, or the whole UTF-8 length of `s` when no
   * char starts there.
   */
  function TranslateCursor(s: string, charPos: nat): nat
  {
    match CharStartingAt(s, charPos)
    case Some(k) => charPos + LenUtf8(s[k])
    case None => Utf8Len(s)
  }

  /** Both outcomes of the loop, stated on the byte indices `char_indices` yields. */
  lemma TranslateCursorCases(s: string, charPos: nat)
    ensures forall k :: 0 <= k < |s| && ByteOffset(s, k) == charPos ==>
              TranslateCursor(s, charPos) == charPos + LenUtf8(s[k])
    ensures (forall k :: 0 <= k < |s| ==> ByteOffset(s, k) != charPos) ==>
              TranslateCursor(s, charPos) == Utf8Len(s)
  {
    forall k | 0 <= k < |s| && ByteOffset(s, k) == charPos
      ensures TranslateCursor(s, charPos) == charPos + LenUtf8(s[k])
    {
      CharStartingAtIff(s, charPos, k);
    }
    match CharStartingAt(s, charPos)
    case None =>
    case Some(k) => CharStartingAtIff(s, charPos, k);
  }

  /**
   * The translated cursor is a char boundary of `s` within its UTF-8 length;
   * it is 0 for the empty string and positive otherwise.
   */
  lemma TranslateCursorBounds(s: string, charPos: nat)
    ensures TranslateCursor(s, charPos) <= Utf8Len(s)
    ensures IsCharBoundary(s, TranslateCursor(s, charPos))
    ensures s == [] ==> TranslateCursor(s, charPos) == 0
    ensures s != [] ==> TranslateCursor(s, charPos) > 0
  {
    Utf8LenPositive(s);
    ByteOffsetEnd(s);
    match CharStartingAt(s, charPos)
    case None =>
      assert ByteOffset(s, |s|) == TranslateCursor(s, charPos);
    case Some(k) =>
      CharStartingAtIff(s, charPos, k);
      ByteOffsetStep(s, k);
      ByteOffsetMonotone(s, k + 1, |s|);
      assert ByteOffset(s, k + 1) == TranslateCursor(s, charPos);
  }

  lemma {:induction false} ByteOffsetMonotone(s: string, j: nat, k: nat)
    requires j <= k <= |s|
    ensures ByteOffset(s, j) <= ByteOffset(s, k)
    decreases k - j
  {
    if j < k {
      ByteOffsetStep(s, j);
      ByteOffsetMonotone(s, j + 1, k);
    }
  }

  /**
   * The loop of `get_composition_string`: walk the (byte index, char) pairs
   * of `s` in order, add each char's UTF-8 length to `pos`, and stop right
   * after the char whose byte index equals `charPos`.
   */
  method CursorBytePos(s: string, charPos: nat) returns (pos: nat)
    ensures pos == TranslateCursor(s, charPos)
  {
    pos := 0;
    var indices := CharIndices(s);
    for k := 0 to |indices|
      invariant pos == ByteOffset(s, k)
      invariant forall j :: 0 <= j < k ==> ByteOffset(s, j) != charPos
    {
      var (i, c) := indices[k];
      ByteOffsetStep(s, k);
      pos := pos + LenUtf8(c);
      if i == charPos {
        TranslateCursorCases(s, charPos);
        break;
      }
    }
    TranslateCursorCases(s, charPos);
    ByteOffsetEnd(s);
  }
}
