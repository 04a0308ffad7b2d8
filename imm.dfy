/**
 * The `Imc` wrapper around a Windows input-method (IMM32) context.
 *
 * The native IMM layer is simulated: `Ime` is the state the input method
 * would answer from, and every native call an `Imc` makes is appended to its
 * ghost call log, so the contracts say exactly which calls are made, with
 * which arguments, in which order, and what the caller gets back.
 */
module Imm {
  import opened Unicode
  import opened Cursor

  /** Win32 `DWORD`. */
  type Dword = x: int | 0 <= x < 0x1_0000_0000

  /** Win32 `LONG` (also the component type of `PhysicalPosition<i32>`). */
  type Long = x: int | -0x8000_0000 <= x < 0x8000_0000

  /** A window handle (`HWND`) or an input context handle (`HIMC`), as its pointer value. */
  type Handle = nat

  const NullHandle: Handle := 0

  /** Index of the cursor-position query of `ImmGetCompositionStringW`. */
  const GcsCursorPos: Dword := 0x0080

  /** Styles of a `CANDIDATEFORM` (imm.h). */
  const CfsCandidatePos: Dword := 0x0040
  const CfsExclude: Dword := 0x0080

  datatype Point = Point(x: Long, y: Long)

  datatype Rect = Rect(left: Long, top: Long, right: Long, bottom: Long)

  /** The `CANDIDATEFORM` record handed to `ImmSetCandidateWindow`. */
  datatype CandidateForm = CandidateForm(index: Dword, style: Dword, currentPos: Point, area: Rect)

  /** The rectangle that covers the single point `p` and nothing else. */
  predicate IsPointRect(r: Rect, p: Point)
  {
    r.left == r.right == p.x && r.top == r.bottom == p.y
  }

  /**
   * The two placement records `set_candidate_window_position` submits, in
   * submission order: first anchor the candidate list at the position, then
   * exclude the position itself.
   */
  function CandidateForms(position: Point): (forms: seq<CandidateForm>)
    ensures |forms| == 2
    ensures forms[0].style == CfsCandidatePos && forms[1].style == CfsExclude
    ensures forall k :: 0 <= k < 2 ==> forms[k].index == 0 && forms[k].currentPos == position
    ensures forms[0].area == Rect(0, 0, 0, 0)
    ensures IsPointRect(forms[1].area, position)
  {
    var pt := Point(position.x, position.y);
    [ CandidateForm(0, CfsCandidatePos, pt, Rect(0, 0, 0, 0)),
      CandidateForm(0, CfsExclude, pt, Rect(pt.x, pt.y, pt.x, pt.y)) ]
  }

  /** The position can be read back from either record, so distinct positions give distinct calls. */
  lemma CandidateFormsInjective(p: Point, q: Point)
    ensures CandidateForms(p) == CandidateForms(q) <==> p == q
  {
  }

  // ---------------------------------------------------------------------
  // The simulated native layer
  // ---------------------------------------------------------------------

  /**
   * What the input method holds for one `ImmGetCompositionStringW` index:
   * the code units a fill call copies out, the value a probe call
   * (null buffer, length 0) returns -- a byte length for a string index,
   * the packed cursor for `GcsCursorPos` -- and the value a fill call returns.
   */
  datatype Slot = Slot(units: seq<CodeUnit>, probe: Long, fillResult: Long)

  /**
   * The input method's state: the context `ImmGetContext` hands out for each
   * window (a null handle for any other window) and the slot for each index
   * (an empty slot answering 0 for any other index).
   */
  datatype Ime = Ime(contexts: map<Handle, Handle>, slots: map<Dword, Slot>)

  function ContextOf(ime: Ime, hwnd: Handle): Handle
  {
    if hwnd in ime.contexts then ime.contexts[hwnd] else NullHandle
  }

  function SlotOf(ime: Ime, index: Dword): Slot
  {
    if index in ime.slots then ime.slots[index] else Slot([], 0, 0)
  }

  /** The return value of `ImmGetCompositionStringW(himc, index, null, 0)`. */
  function Probe(ime: Ime, index: Dword): Long
  {
    SlotOf(ime, index).probe
  }

  /** A buffer of `len` units after the input method copied `units` into it. */
  function Filled(units: seq<CodeUnit>, len: nat): (buf: seq<CodeUnit>)
    ensures |buf| == len
    ensures forall k :: 0 <= k < len && k < |units| ==> buf[k] == units[k]
    ensures forall k :: |units| <= k < len ==> buf[k] == 0
  {
    seq(len, k requires 0 <= k < len => if k < |units| then units[k] else 0)
  }

  /** `ImmGetCompositionStringW(himc, index, buf, _)`: fills `buf` in place. */
  method FillComposition(ime: Ime, index: Dword, buf: array<CodeUnit>) returns (written: Long)
    modifies buf
    ensures buf[..] == Filled(SlotOf(ime, index).units, buf.Length)
    ensures written == SlotOf(ime, index).fillResult
  {
    var units := SlotOf(ime, index).units;
    forall k | 0 <= k < buf.Length {
      buf[k] := if k < |units| then units[k] else 0;
    }
    written := SlotOf(ime, index).fillResult;
  }

  // ---------------------------------------------------------------------
  // Cursor unpacking and the composition read as a function
  // ---------------------------------------------------------------------

  /** `x as usize` on a 64-bit target: a negative `LONG` is sign-extended. */
  function AsUsize(x: Long): nat
  {
    if x >= 0 then x else x + 0x1_0000_0000_0000_0000
  }

  /**
   * The char position the cursor query is turned into: the sign-extended
   * value is masked to its low 16 bits and divided by the size of a code unit.
   */
  function CursorCharPos(raw: Long): (charPos: nat)
    ensures charPos <= 0x7FFF
    ensures 2 * charPos <= raw % 0x1_0000 <= 2 * charPos + 1
  {
    (AsUsize(raw) % 0x1_0000) / 2
  }

  /** The outcome of one `get_composition_string` call. */
  datatype ReadOutcome =
    | Read(text: string, pos: nat)
      /** A negative probe result makes `Vec::with_capacity` panic with a capacity overflow. */
    | CapacityOverflow

  /** The buffer the fill call leaves behind, for a non-negative probe result. */
  function CompositionBuffer(ime: Ime, index: Dword): (buf: seq<CodeUnit>)
    requires Probe(ime, index) >= 0
    ensures 2 * |buf| <= Probe(ime, index) <= 2 * |buf| + 1
  {
    Filled(SlotOf(ime, index).units, Probe(ime, index) / 2)
  }

  /** What `get_composition_string(index)` returns against the input method state `ime`. */
  function ReadComposition(ime: Ime, index: Dword): ReadOutcome
  {
    if Probe(ime, index) < 0 then CapacityOverflow
    else
      var s := DecodeUtf16Lossy(CompositionBuffer(ime, index));
      Read(s, TranslateCursor(s, CursorCharPos(Probe(ime, GcsCursorPos))))
  }

  /**
   * Any non-negative probe result gives a text: the lossy decode of the
   * first `byte_len / 2` units the input method holds (zero-padded), and a
   * cursor that is a char boundary of that text within its UTF-8 length,
   * 0 for an empty text and positive otherwise. Since each unit decodes to
   * at most three UTF-8 bytes, the cursor is also at most `3 * (byte_len / 2)`.
   */
  lemma ReadCompositionText(ime: Ime, index: Dword)
    requires Probe(ime, index) >= 0
    ensures ReadComposition(ime, index).Read?
    ensures var r := ReadComposition(ime, index);
      && r.text == DecodeUtf16Lossy(Filled(SlotOf(ime, index).units, Probe(ime, index) / 2))
      && r.pos <= Utf8Len(r.text)
      && IsCharBoundary(r.text, r.pos)
      && (r.text == [] <==> r.pos == 0)
      && r.pos <= 3 * (Probe(ime, index) / 2)
  {
    var buf := CompositionBuffer(ime, index);
    var s := DecodeUtf16Lossy(buf);
    TranslateCursorBounds(s, CursorCharPos(Probe(ime, GcsCursorPos)));
    DecodedUtf8Bound(buf);
  }

  /** The result never depends on what the fill call returns. */
  lemma ReadCompositionIgnoresFillResult(ime: Ime, index: Dword, ret: Long)
    ensures var slot := SlotOf(ime, index);
      ReadComposition(ime.(slots := ime.slots[index := slot.(fillResult := ret)]), index)
        == ReadComposition(ime, index)
  {
  }

  /** A negative probe result never reaches the fill call or the decoder. */
  lemma ReadCompositionNegativeProbe(ime: Ime, index: Dword)
    requires Probe(ime, index) < 0
    ensures ReadComposition(ime, index) == CapacityOverflow
  {
  }

  /** An input method holding `units` at index 0x0008 (composition text) and cursor `rawCursor`. */
  function ComposingIme(units: seq<CodeUnit>, probe: Long, rawCursor: Long): Ime
  {
    Ime(map[], map[0x0008 := Slot(units, probe, probe), GcsCursorPos := Slot([], rawCursor, 0)])
  }

  /** The cursor is halved, then compared with UTF-8 byte indices: raw 2 matches 'b' of "ab", which is counted. */
  lemma ExampleAsciiCursor()
    ensures ReadComposition(ComposingIme([0x61, 0x62], 4, 2), 0x0008) == Read("ab", 2)
  {
    var ime := ComposingIme([0x61, 0x62], 4, 2);
    assert CompositionBuffer(ime, 0x0008) == [0x61, 0x62];
    assert DecodeUtf16Lossy([0x61, 0x62]) == "ab" by {
      assert [0x61, 0x62][1..] == [0x62];
    }
    assert CursorCharPos(Probe(ime, GcsCursorPos)) == 1;
    assert CharStartingAt("ab", 1) == Some(1) by {
      assert "ab"[1..] == "b";
    }
  }

  /** No char of U+4E2D starts at byte 1, so the cursor lands on the end: 3 bytes. */
  lemma ExampleCjkCursor()
    ensures ReadComposition(ComposingIme([0x4E2D], 2, 2), 0x0008) == Read("\U{4E2D}", 3)
  {
    var ime := ComposingIme([0x4E2D], 2, 2);
    assert CompositionBuffer(ime, 0x0008) == [0x4E2D];
    assert DecodeUtf16Lossy([0x4E2D]) == "\U{4E2D}";
    assert CursorCharPos(Probe(ime, GcsCursorPos)) == 1;
    assert CharStartingAt("\U{4E2D}", 1) == None;
  }

  /** Mixing the index spaces: raw cursor 4 on "abcd" gives 3, not 4. */
  lemma ExampleMixedIndexSpaces()
    ensures ReadComposition(ComposingIme([0x61, 0x62, 0x63, 0x64], 8, 4), 0x0008) == Read("abcd", 3)
  {
    var ime := ComposingIme([0x61, 0x62, 0x63, 0x64], 8, 4);
    assert CompositionBuffer(ime, 0x0008) == [0x61, 0x62, 0x63, 0x64];
    assert DecodeUtf16Lossy([0x61, 0x62, 0x63, 0x64]) == "abcd" by {
      assert [0x61, 0x62, 0x63, 0x64][1..] == [0x62, 0x63, 0x64];
      assert [0x62, 0x63, 0x64][1..] == [0x63, 0x64];
      assert [0x63, 0x64][1..] == [0x64];
    }
    assert CursorCharPos(Probe(ime, GcsCursorPos)) == 2;
    assert CharStartingAt("abcd", 2) == Some(2) by {
      assert "abcd"[1..] == "bcd";
      assert "bcd"[1..] == "cd";
    }
  }

  /** A probe of 5 bytes keeps 2 units: the odd byte is dropped. */
  lemma ExampleOddByteLength()
    ensures ReadComposition(ComposingIme([0x61, 0x62, 0x63], 5, 0), 0x0008) == Read("ab", 1)
  {
    var ime := ComposingIme([0x61, 0x62, 0x63], 5, 0);
    assert CompositionBuffer(ime, 0x0008) == [0x61, 0x62];
    assert DecodeUtf16Lossy([0x61, 0x62]) == "ab" by {
      assert [0x61, 0x62][1..] == [0x62];
    }
    assert CursorCharPos(Probe(ime, GcsCursorPos)) == 0;
  }

  /** A lone high surrogate becomes U+FFFD and the next unit is decoded on its own. */
  lemma ExampleUnpairedSurrogate()
    ensures ReadComposition(ComposingIme([0xD800, 0x61], 4, 0), 0x0008) == Read([Replacement, 'a'], 3)
  {
    var ime := ComposingIme([0xD800, 0x61], 4, 0);
    assert CompositionBuffer(ime, 0x0008) == [0xD800, 0x61];
    assert DecodeUtf16Lossy([0xD800, 0x61]) == [Replacement, 'a'] by {
      assert [0xD800, 0x61][1..] == [0x61];
    }
    assert CursorCharPos(Probe(ime, GcsCursorPos)) == 0;
  }

  // ---------------------------------------------------------------------
  // The call log and the context object
  // ---------------------------------------------------------------------

  /** The buffer argument of `ImmGetCompositionStringW`. */
  datatype BufferArg = NullBuffer | Buffer(capacity: nat)

  /** One native call, with its arguments (and, for `ImmGetContext`, the handle it returned). */
  datatype Call =
    | ImmGetContext(hwnd: Handle, result: Handle)
    | ImmSetCandidateWindow(himc: Handle, form: CandidateForm)
    | ImmGetCompositionStringW(himc: Handle, index: Dword, buffer: BufferArg, bufLen: Dword)
    | ImmReleaseContext(hwnd: Handle, himc: Handle)

  /** Number of `ImmReleaseContext` calls in a log. */
  function ReleaseCount(log: seq<Call>): nat
  {
    if log == [] then 0
    else (if log[0].ImmReleaseContext? then 1 else 0) + ReleaseCount(log[1..])
  }

  lemma {:induction false} ReleaseCountAppend(a: seq<Call>, b: seq<Call>)
    ensures ReleaseCount(a + b) == ReleaseCount(a) + ReleaseCount(b)
  {
    if a == [] {
      assert a + b == b;
    } else {
      assert (a + b)[0] == a[0] && (a + b)[1..] == a[1..] + b;
      ReleaseCountAppend(a[1..], b);
    }
  }

  /** `ReleaseCount` counts exactly the release entries of the log. */
  lemma {:induction false} ReleaseCountZero(log: seq<Call>)
    ensures ReleaseCount(log) == 0 <==> forall k :: 0 <= k < |log| ==> !log[k].ImmReleaseContext?
  {
    if log != [] {
      ReleaseCountZero(log[1..]);
      assert forall k :: 1 <= k < |log| ==> log[k] == log[1..][k - 1];
    }
  }

  /** The three calls `get_composition_string` makes for a non-negative probe result. */
  function ReadCalls(himc: Handle, index: Dword, byteLen: Long): (calls: seq<Call>)
    requires byteLen >= 0
    ensures |calls| == 3
    ensures calls[0] == ImmGetCompositionStringW(himc, index, NullBuffer, 0)
    ensures calls[1] == ImmGetCompositionStringW(himc, index, Buffer(byteLen / 2), byteLen)
    ensures 2 * calls[1].buffer.capacity <= calls[1].bufLen <= 2 * calls[1].buffer.capacity + 1
    ensures calls[2] == ImmGetCompositionStringW(himc, GcsCursorPos, NullBuffer, 0)
  {
    [ ImmGetCompositionStringW(himc, index, NullBuffer, 0),
      ImmGetCompositionStringW(himc, index, Buffer(byteLen / 2), byteLen),
      ImmGetCompositionStringW(himc, GcsCursorPos, NullBuffer, 0) ]
  }

  /** Every call after the acquisition goes to this context and window. */
  predicate OnContext(call: Call, hwnd: Handle, himc: Handle)
  {
    match call
    case ImmGetContext(_, _) => false
    case ImmSetCandidateWindow(h, _) => h == himc
    case ImmGetCompositionStringW(h, _, _, _) => h == himc
    case ImmReleaseContext(w, h) => w == hwnd && h == himc
  }

  /**
   * `Imc`: an input context acquired for one window. It is acquired once, by
   * the constructor, and released once, by `Drop`; `released` records which
   * side of that release the object is on.
   */
  class Imc {
    const hwnd: Handle
    const himc: Handle
    ghost var released: bool
    ghost var calls: seq<Call>

    /**
     * The log opens with the one acquisition that produced `(hwnd, himc)`;
     * every later call is on that context; the log holds one release once
     * the object is released and none before, and nothing follows it.
     */
    ghost predicate Valid()
      reads this
    {
      && |calls| > 0
      && calls[0] == ImmGetContext(hwnd, himc)
      && (forall k :: 0 < k < |calls| ==> OnContext(calls[k], hwnd, himc))
      && ReleaseCount(calls) == (if released then 1 else 0)
      && (released ==> calls[|calls| - 1] == ImmReleaseContext(hwnd, himc))
    }

    /** `Imc::get_context`: one `ImmGetContext` call; its result is kept as is, even a null handle. */
    constructor GetContext(ime: Ime, hwnd: Handle)
      ensures Valid() && !released
      ensures this.hwnd == hwnd && himc == ContextOf(ime, hwnd)
      ensures calls == [ImmGetContext(hwnd, himc)]
    {
      this.hwnd := hwnd;
      himc := ContextOf(ime, hwnd);
      released := false;
      calls := [ImmGetContext(hwnd, ContextOf(ime, hwnd))];
    }

    /**
     * `Imc::set_candidate_window_position`: exactly two
     * `ImmSetCandidateWindow` calls on this context, the candidate-position
     * record and then the exclude record for `position`.
     */
    method SetCandidateWindowPosition(position: Point)
      requires Valid() && !released
      modifies this`calls
      ensures Valid() && !released
      ensures calls == old(calls) + [ImmSetCandidateWindow(himc, CandidateForms(position)[0]),
                                     ImmSetCandidateWindow(himc, CandidateForms(position)[1])]
    {
      var forms := CandidateForms(position);
      var added := [ImmSetCandidateWindow(himc, forms[0]), ImmSetCandidateWindow(himc, forms[1])];
      ReleaseCountZero(added);
      ReleaseCountAppend(calls, added);
      calls := calls + added;
    }

    /**
     * `Imc::get_composition_string`: probe the byte length, fill a buffer of
     * `byte_len / 2` units, decode it lossily, query the cursor and translate
     * it. A negative probe result stops after the probe, in the capacity
     * overflow panic of the buffer allocation.
     */
    method GetCompositionString(ime: Ime, index: Dword) returns (r: ReadOutcome)
      requires Valid() && !released
      modifies this`calls
      ensures Valid() && !released
      ensures r == ReadComposition(ime, index)
      ensures Probe(ime, index) < 0 ==>
                calls == old(calls) + [ImmGetCompositionStringW(himc, index, NullBuffer, 0)]
      ensures Probe(ime, index) >= 0 ==> calls == old(calls) + ReadCalls(himc, index, Probe(ime, index))
    {
      var byteLen := Probe(ime, index);
      var probeCall := [ImmGetCompositionStringW(himc, index, NullBuffer, 0)];
      ReleaseCountAppend(calls, probeCall);
      calls := calls + probeCall;
      if byteLen < 0 {
        return CapacityOverflow;
      }
      var len := byteLen / 2;
      var buf := new CodeUnit[len];
      var _ := FillComposition(ime, index, buf);
      var fillCall := [ImmGetCompositionStringW(himc, index, Buffer(len), byteLen)];
      ReleaseCountAppend(calls, fillCall);
      calls := calls + fillCall;
      var s := DecodeUtf16Lossy(buf[..]);
      var rawCursor := Probe(ime, GcsCursorPos);
      var cursorCall := [ImmGetCompositionStringW(himc, GcsCursorPos, NullBuffer, 0)];
      ReleaseCountAppend(calls, cursorCall);
      calls := calls + cursorCall;
      var pos := CursorBytePos(s, CursorCharPos(rawCursor));
      r := Read(s, pos);
    }

    /** `Drop for Imc`: the one `ImmReleaseContext` call, with the pair `get_context` produced. */
    method Drop()
      requires Valid() && !released
      modifies this`calls, this`released
      ensures Valid() && released
      ensures calls == old(calls) + [ImmReleaseContext(hwnd, himc)]
      ensures ReleaseCount(calls) == 1
    {
      ReleaseCountAppend(calls, [ImmReleaseContext(hwnd, himc)]);
      calls := calls + [ImmReleaseContext(hwnd, himc)];
      released := true;
    }
  }

  /** The calls a read makes: the three of `ReadCalls`, or only the probe when it is negative. */
  function ReadLog(ime: Ime, himc: Handle, index: Dword): (calls: seq<Call>)
    ensures ReleaseCount(calls) == 0
  {
    var probeCall := [ImmGetCompositionStringW(himc, index, NullBuffer, 0)];
    ReleaseCountZero(probeCall);
    if Probe(ime, index) < 0 then probeCall
    else
      var calls := ReadCalls(himc, index, Probe(ime, index));
      ReleaseCountZero(calls);
      calls
  }

  /**
   * A whole context lifetime as the event loop drives it: acquire, reposition,
   * read, release. Whatever the read returns, the log is the acquisition, the
   * two placement calls, the read's calls and exactly one release, of the
   * pair the acquisition produced.
   */
  method CompositionSession(ime: Ime, hwnd: Handle, caret: Point, index: Dword)
    returns (r: ReadOutcome, ghost log: seq<Call>)
    ensures r == ReadComposition(ime, index)
    ensures var himc := ContextOf(ime, hwnd);
      log == [ImmGetContext(hwnd, himc),
              ImmSetCandidateWindow(himc, CandidateForms(caret)[0]),
              ImmSetCandidateWindow(himc, CandidateForms(caret)[1])]
             + ReadLog(ime, himc, index)
             + [ImmReleaseContext(hwnd, himc)]
    ensures ReleaseCount(log) == 1
    ensures log[|log| - 1] == ImmReleaseContext(hwnd, ContextOf(ime, hwnd))
  {
    var imc := new Imc.GetContext(ime, hwnd);
    imc.SetCandidateWindowPosition(caret);
    r := imc.GetCompositionString(ime, index);
    imc.Drop();
    log := imc.calls;
  }
}
