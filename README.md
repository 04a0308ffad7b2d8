# IMM32 input context wrapper (winit, Windows backend)

A Dafny model of `Imc`, the wrapper winit's Windows backend puts around an
IMM32 input context. It covers the three pieces of logic that sit on top of
the native calls:

- **Candidate-window placement.** `set_candidate_window_position` builds two
  `CANDIDATEFORM` records from one point and submits them in a fixed order.
  The first uses style `CFS_CANDIDATEPOS` with an all-zero area. The second
  uses style `CFS_EXCLUDE` with an area that shrinks to the point itself.
- **Composition read.** `get_composition_string` makes three native calls: a
  length probe, a fill into a buffer of `byte_len / 2` UTF-16 code units, and
  a cursor query. It decodes the buffer lossily (RFC 2781 section 2.2,
  unpaired surrogates become U+FFFD). It then turns the cursor into a UTF-8
  byte offset with the `char_indices` loop. That loop is modelled exactly as
  written. The halved cursor value is compared with the UTF-8 byte index of
  each char, and the matching char's length is included. UTF-8 lengths
  follow section 3 of RFC 3629.
- **Context lifecycle.** `get_context` acquires the context once and `Drop`
  releases it once. `Imc` is a class whose ghost call log records every
  native call. A ghost `released` flag records whether the release has
  happened.

The native IMM layer is a value of type `Imm.Ime`. It holds the context
handle `ImmGetContext` gives each window. For each `ImmGetCompositionStringW`
index it holds a `Slot`: the code units a fill copies out, the value a probe
returns (for `GCS_CURSORPOS`, the packed cursor), and the value a fill
returns.

Files:

- `unicode.dfy` (module `Unicode`): the lossy UTF-16 decoder, the UTF-16
  encoder used as its partner, and UTF-8 lengths.
- `cursor.dfy` (module `Cursor`): `char_indices`, a reference definition of
  "the char starting at byte b", and the cursor loop as a method.
- `imm.dfy` (module `Imm`): the Win32 records and constants, the simulated
  native layer, the read as a function, the call log, and the `Imc` class.

Behaviour of the code that the model keeps as written:

- The code has no sentinel check on the probe result and no "no data"
  path. A negative probe result, cast with `as usize`, is sign-extended to a
  huge value, so `Vec::with_capacity` panics with a capacity overflow. This
  is the `CapacityOverflow` outcome, which comes after the probe call and
  before any fill call.
- The loop compares the halved cursor with the UTF-8 byte index of each
  char, and it also counts the matching char. So on "ab" a raw cursor of 2
  (halved to 1) gives 2, and on U+4E2D it gives 3 (`Imm.ExampleAsciiCursor`,
  `Imm.ExampleCjkCursor`).
- The cursor is masked to 16 bits and halved, and is never checked against
  the text. A cursor that matches no char start gives the end of the string
  (`Cursor.TranslateCursorCases`).

## Model

| member | source | states |
|---|---|---|
| `Imm.CandidateForms` | src/platform_impl/windows/imm.rs:46-72 | Two records: first style CFS_CANDIDATEPOS, then CFS_EXCLUDE. Both have index 0 and current position equal to the point. The first area is all zero. The second area is left == right == x and top == bottom == y. |
| `Imm.CandidateFormsInjective` | src/platform_impl/windows/imm.rs:46-72 | The point can be recovered from the records: two points give the same records exactly when they are equal. |
| `Imm.Imc.SetCandidateWindowPosition` | src/platform_impl/windows/imm.rs:44-75 | Appends exactly two ImmSetCandidateWindow calls on this himc, the candidate-position record then the exclude record. Leaves the released state unchanged and keeps the lifecycle invariant; hwnd and himc are constant fields. |
| `Unicode.DecodeUtf16Lossy` | src/platform_impl/windows/imm.rs:89 | The lossy decode is total. It yields at most one char per unit and consumes at most two units per char. Which units it replaces is stated by `Unicode.EncodeDecodeLossy`. |
| `Unicode.EncodeDecodeLossy` | src/platform_impl/windows/imm.rs:89 | For every buffer, decoding then encoding gives the buffer back with each unpaired surrogate (a high one not followed by a low one, or a low one not preceded by a high one) replaced by U+FFFD, and every other unit unchanged. |
| `Unicode.ReplaceUnpairedSuffix` | src/platform_impl/windows/imm.rs:89 | Cutting a buffer where no surrogate pair straddles the cut leaves the unpaired status of every remaining unit unchanged. |
| `Unicode.DecodeEncodeUtf16` | src/platform_impl/windows/imm.rs:89 | On a well-formed UTF-16 encoding of any string, the decode returns that string, with nothing replaced. |
| `Unicode.DecodedUtf8Bound` | src/platform_impl/windows/imm.rs:89 | The decoded string's UTF-8 length is at most three bytes per code unit of the buffer. |
| `Cursor.CharStartingAtIff` | src/platform_impl/windows/imm.rs:96-98 | The reference walk finds char k at byte b exactly when char_indices yields (b, s[k]). Both directions are proved. |
| `Cursor.CursorBytePos` | src/platform_impl/windows/imm.rs:95-101 | The for loop over char_indices, with its early break, returns TranslateCursor(s, char_pos). |
| `Cursor.TranslateCursorCases` | src/platform_impl/windows/imm.rs:95-101 | If some char starts at UTF-8 byte index char_pos, the result is char_pos plus that char's UTF-8 length. Otherwise the result is the full UTF-8 length of s. |
| `Cursor.TranslateCursorBounds` | src/platform_impl/windows/imm.rs:95-102 | The result is at most the UTF-8 length of s and lies on a char boundary of s. It is 0 when s is empty and positive otherwise. |
| `Imm.CursorCharPos` | src/platform_impl/windows/imm.rs:90-94 | Only the low 16 bits of the sign-extended cursor count, and they are halved, so char_pos <= 32767. |
| `Imm.Filled` | src/platform_impl/windows/imm.rs:81-88 | The buffer has exactly len units: the input method's units where it has them, zero after. |
| `Imm.FillComposition` | src/platform_impl/windows/imm.rs:83-88 | Fills the allocated array in place with Filled(units, length) and returns the slot's fill result. |
| `Imm.CompositionBuffer` | src/platform_impl/windows/imm.rs:79-88 | For a non-negative probe result, the buffer holds exactly byte_len / 2 units. An odd trailing byte is dropped. |
| `Imm.ReadCalls` | src/platform_impl/windows/imm.rs:79-93 | The three calls in order: (index, null, 0), then (index, buffer of byte_len/2 units, byte_len), then (GCS_CURSORPOS, null, 0), all on this himc. The fill call's length argument covers the buffer and at most one byte more. |
| `Imm.ReadCompositionText` | src/platform_impl/windows/imm.rs:77-104 | For a non-negative probe result the read always yields a text: the lossy decode of the byte_len/2-unit buffer. The returned pos is a char boundary within its UTF-8 length, and it is 0 exactly when the text is empty. It is at most 3 * (byte_len / 2). |
| `Imm.ReadCompositionIgnoresFillResult` | src/platform_impl/windows/imm.rs:83-88 | For every index, with or without a slot, changing what the fill call returns never changes the outcome. |
| `Imm.ReadCompositionNegativeProbe` | src/platform_impl/windows/imm.rs:79-82 | A negative probe result ends in the capacity overflow of the allocation, not in a text. |
| `Imm.Imc.GetCompositionString` | src/platform_impl/windows/imm.rs:77-104 | Returns ReadComposition(ime, index). Appends exactly the three ReadCalls, or only the probe when the probe is negative. Leaves the released state unchanged. |
| `Imm.ExampleAsciiCursor` | src/platform_impl/windows/imm.rs:94-101 | "ab" with raw cursor 2 yields pos 2: char_pos 1 matches the byte index of 'b', and 'b' is counted. |
| `Imm.ExampleCjkCursor` | src/platform_impl/windows/imm.rs:94-101 | U+4E2D with raw cursor 2 yields pos 3: no char starts at byte 1, so pos is the full length. |
| `Imm.ExampleMixedIndexSpaces` | src/platform_impl/windows/imm.rs:94-101 | "abcd" with raw cursor 4 yields pos 3, because the halved code-unit value is compared with byte indices. |
| `Imm.ExampleOddByteLength` | src/platform_impl/windows/imm.rs:80-89 | A probe of 5 bytes keeps 2 units. |
| `Imm.ExampleUnpairedSurrogate` | src/platform_impl/windows/imm.rs:89 | A lone high surrogate before 'a' decodes to U+FFFD then 'a'. |
| `Imm.Imc.GetContext` | src/platform_impl/windows/imm.rs:39-42 | One ImmGetContext call. The handle it returns is kept as is, even a null one. The object starts unreleased, with that one call in its log. |
| `Imm.Imc.Drop` | src/platform_impl/windows/imm.rs:107-112 | Appends the one ImmReleaseContext call, with the (hwnd, himc) pair from get_context. The log then holds exactly one release. |
| `Imm.ReadLog` | src/platform_impl/windows/imm.rs:79-93 | A read never releases the context: its calls hold no ImmReleaseContext. |
| `Imm.CompositionSession` | src/platform_impl/windows/imm.rs:39-112 | A full lifetime (acquire, position, read, drop) returns the read's outcome. Its log is exactly the acquisition, the two placement calls, the read's calls and one ImmReleaseContext with the acquired (hwnd, himc); the log holds exactly one release, and it is the last call. |

## Left out

- The FFI calls themselves (`ImmGetContext`, `ImmReleaseContext`, `ImmSetCandidateWindow`, `ImmGetCompositionStringW`). They are replaced by the `Ime` value and the call log. The native layer's state is passed to each method as a parameter and is not changed by any call.
- `#[repr(C)]` layout of `CANDIDATEFORM`, `POINT` and `RECT`: only the field values are modelled.
- Raw-pointer marshaling and `Vec::set_len` on uninitialised memory. In the source, units the input method does not write hold whatever the allocation held. The model zero-fills them (`Imm.Filled`).
- The values of `CFS_CANDIDATEPOS` (0x40) and `CFS_EXCLUDE` (0x80) come from imm.h through the `winapi` crate, which is not part of this model.
- The constants `GCS_COMPSTR`, `GCS_RESULTSTR` and `ISC_SHOWUICOMPOSITIONWINDOW`: this file defines them but does not use them.
- Window-handle validity and UI-thread affinity are outside this file.
- Odd probe results are a hazard the model records but does not follow into memory: for an odd `byte_len`, the fill call gets `byte_len` as its buffer size in bytes while the buffer holds only `byte_len - 1` bytes, so the input method may write one byte past it. `Imm.ReadCalls` states the mismatch (`2 * capacity <= bufLen <= 2 * capacity + 1`); the model's fill writes whole units only.
- Rust ownership: automatic `Drop` and the impossibility of use after drop. The model uses an explicit `Drop` method, and `requires !released` on every operation.
- The text a `ReadOutcome.Read` carries is a Dafny `string` (Unicode scalar values), not UTF-8 bytes. Byte offsets are computed with `Unicode.Utf8Len`.
