# IME composition handling for a CefSharp WPF browser, in Dafny

This project models the input-method (IME) support of `Cef_Ime`. That is the
code which lets an off-screen Chromium browser hosted in WPF accept Japanese,
Chinese and Korean text composed through the Windows IMM32 API. It covers two
parts, and proves properties of both.

- **The composition decoder** (`ImeHandler`, from `Cef_Ime/IME/IMEHandler.cs`).
  - It reads the flag word of `WM_IME_COMPOSITION` and decides whether a
    result string or a composition string is present.
  - It decodes the UTF-16LE bytes reported by `ImmGetCompositionString` and
    drops the terminator it appended.
  - It finds the target clause in the attribute bytes.
  - It turns the little-endian Int32 clause boundaries into underlines. When
    no clause underline was made, it adds a single fallback underline.
  - It picks the caret position.
- **The keyboard handler** (`KeyboardHandler`, from
  `Cef_Ime/IME/IMEWpfKeyboardHandler.cs`).
  - `SourceHook` is a window-message hook. Behind a guard, it dispatches the
    four IME messages.
  - It forwards commits and compositions to the browser host.
  - For Japanese and Chinese input it keeps a system caret.
  - It places the IME candidate window at the character bounds the browser
    reported. Japanese and Korean each have their own rule.

`Native` holds the constants, integer widths and structures of
`Cef_Ime/IME/NativeIME.cs`. `Cef` holds the CefSharp `Range`, `Rect` and
`CompositionUnderline` structures.

Native calls and browser-host calls are not executed. Each call the handler
makes is appended to an effect log, `HandlerState.effects`. Native results
arrive as parameters:

- the input context's buffers, as `CompositionString`;
- the keyboard layout id;
- whether `CreateCaret` succeeds;
- the owner's focus and presence.

Every handler transition is a function on `HandlerState`, and the class
`ImeKeyboardHandler` updates its fields in place. Each method of the class is
proved to follow its transition function. The properties are proved about
those functions.

C# `int` arithmetic is unchecked, so the model wraps it explicitly. `Wrap32`
and `Add32` are used for `cursor - 1`, `location - From` and the rectangle
sums. An `ArgumentOutOfRangeException` from the bounds list is modelled as a
`thrown` flag. That exception happens when `MoveImeWindow` reads a negative
location. The flag skips whatever the caller would have done afterwards:

- `SourceHook` neither sets `handled` nor returns;
- `OnIMEStartComposition` does not reset the cursor.

## Behaviour worth knowing

- When the attribute bytes hold no target byte, both scans run to the end,
  so the target range is `(m, m)`, where `m` is the attribute length
  (`Cef_Ime/IME/IMEHandler.cs:148-157`, `ScanTargetRange`).
- The fallback path adds exactly one underline
  (`Cef_Ime/IME/IMEHandler.cs:95-110`). Its range is overwritten by each
  applicable candidate in turn, so the trailing range wins when it applies.
  It is marked thick whenever the target is not empty, even when the range
  that won is the trailing one (`FallbackKeepsOnlyTrailingRange`).
- After a composition update, the cursor index becomes the caret position
  minus one (`Cef_Ime/IME/IMEWpfKeyboardHandler.cs:164`,
  `CompositionUpdates`). The caret is the `GCS_CURSORPOS` value when that
  bit is set and `CS_NOMOVECARET` is not, and 0 otherwise, so the index is
  then −1 (`Cef_Ime/IME/IMEHandler.cs:82-90`, `CompositionCursor`).
- An unset cursor index (−1) first becomes `From`, and then `From - From = 0`
  (`Cef_Ime/IME/IMEWpfKeyboardHandler.cs:232-237`). So the first bound is
  used whatever the composition range is (`UnsetCursorUsesFirstBound`).
- `SetContext` clears `ISC_SHOWUICOMPOSITIONWINDOW` with a `uint` complement
  that is widened to `long` (`Cef_Ime/IME/IMEWpfKeyboardHandler.cs:181`).
  That clears bit 31 and also bits 32–63 (`ClearShowUiComposition`). For a
  flag word that fits in 32 bits, this is the same as clearing bit 31 alone
  (`ClearShowUiOnDword`).
- `LOWORD64` keeps the low 32 bits of `lParam`, not 16
  (`Cef_Ime/IME/IMEWpfKeyboardHandler.cs:354-357`, `LoWord64`).

## Model

| member | source | states |
|---|---|---|
| Native.Wrap32 | Cef_Ime/IME/IMEWpfKeyboardHandler.cs:164 | C#'s unchecked narrowing to Int32: the result agrees with its argument modulo 2^32 and equals it when it is in Int32 range |
| Native.Add32 | Cef_Ime/IME/IMEWpfKeyboardHandler.cs:277 | unchecked Int32 addition: the exact sum when it fits, otherwise the sum minus or plus 2^32 |
| ImeHandler.IsParam | Cef_Ime/IME/IMEHandler.cs:167-170 | `(lParam & type) == type`; its meaning is stated by the two lemmas below |
| ImeHandler.IsSelectionAttribute | Cef_Ime/IME/IMEHandler.cs:161-165 | a byte marks the target clause exactly when it is `ATTR_TARGET_CONVERTED` (0x01) or `ATTR_TARGET_NOTCONVERTED` (0x03) |
| ImeHandler.IsParamHasEveryBit | Cef_Ime/IME/IMEHandler.cs:167-170 | when `IsParam(l, t)` holds, every set bit of `t` is set in `l`, so no bit of `t` is missing from `l` |
| ImeHandler.NoMissingBitIsParam | Cef_Ime/IME/IMEHandler.cs:167-170 | conversely, when no bit of `t` is missing from `l`, `IsParam(l, t)` holds; `IsParam(l, 0)` holds for every `l` |
| ImeHandler.DecodeUtf16Le | Cef_Ime/IME/IMEHandler.cs:50 | decoding an even byte string gives half as many code units; unit i is byte 2i plus 256 times byte 2i+1 |
| ImeHandler.EncodeUtf16Le | Cef_Ime/IME/IMEHandler.cs:50 | the reference encoder: two bytes per unit, low byte first |
| ImeHandler.DecodeEncode | Cef_Ime/IME/IMEHandler.cs:50 | decoding an encoded code-unit string gives it back |
| ImeHandler.CodeUnitSplit | Cef_Ime/IME/IMEHandler.cs:50 | a code unit splits back into its low and high byte |
| ImeHandler.EncodeDecode | Cef_Ime/IME/IMEHandler.cs:50 | encoding the decoding of an even byte string gives the bytes back, so decoding loses nothing |
| ImeHandler.GetString | Cef_Ime/IME/IMEHandler.cs:34-53 | succeeds exactly when the flag bit is set and the reported length is non-zero; on failure the text is empty; on success the text, once the appended terminator is removed, is the decoding of the reported bytes and has n/2 code units |
| ImeHandler.GetResult | Cef_Ime/IME/IMEHandler.cs:55-58 | a result string is present exactly when `GCS_RESULTSTR` is set and its buffer is not empty; the result is then its decoding, and otherwise empty |
| ImeHandler.GetResultReadsOnlyResult | Cef_Ime/IME/IMEHandler.cs:55-58 | the result depends on no buffer except the result string |
| ImeHandler.SkipWhile | Cef_Ime/IME/IMEHandler.cs:148-154 | one scan: the first index at or after i whose byte is not (or is) a target byte, with every byte skipped of the other kind |
| ImeHandler.ScanTargetRange | Cef_Ime/IME/IMEHandler.cs:148-157 | 0 ≤ start ≤ end ≤ m; no byte before start is 0x01 or 0x03; every byte in [start, end) is; end = m or byte[end] is not; with no such byte the range is (m, m) |
| ImeHandler.SingleRunIsTarget | Cef_Ime/IME/IMEHandler.cs:148-157 | when the target bytes form the single run [a, b), the scan finds exactly (a, b) |
| ImeHandler.GetCompositionSelectionRange | Cef_Ime/IME/IMEHandler.cs:136-165 | the two loops return the scan's range when attribute bytes exist; otherwise the target passed in is left unchanged |
| ImeHandler.Int32Le | Cef_Ime/IME/IMEHandler.cs:125-126 | `BitConverter.ToInt32`: the little-endian value of the four bytes when the top byte is below 0x80, and that value minus 2^32 otherwise |
| ImeHandler.Int32ToLe | Cef_Ime/IME/IMEHandler.cs:125-126 | the reference encoder of an Int32 as four little-endian bytes |
| ImeHandler.Int32LeRoundTrip | Cef_Ime/IME/IMEHandler.cs:125-126 | reading an Int32 at any offset gives back the value whose four bytes are there |
| ImeHandler.ClauseUnderlines | Cef_Ime/IME/IMEHandler.cs:113-134 | with k = bytes/4 there are max(k−1, 0) underlines; underline i spans the Int32 values at 4i and 4i+4, so each ends where the next begins; it is thick exactly when From ≥ targetStart and To ≤ targetEnd; the colours are the two fixed ones |
| ImeHandler.ThreeClauseExample | Cef_Ime/IME/IMEHandler.cs:113-134 | boundaries 0, 2, 4, 7 with target (2, 4) give (0,2), (2,4) and (4,7), and only (2,4) is thick |
| ImeHandler.GetCompositionUnderlines | Cef_Ime/IME/IMEHandler.cs:113-134 | the loop appends exactly the clause underlines to the list it is given |
| ImeHandler.FallbackUnderline | Cef_Ime/IME/IMEHandler.cs:95-110 | thick exactly when targetEnd > targetStart; the trailing range (targetEnd, length) whenever targetEnd < length; otherwise the target range when it is not empty; the fixed colours |
| ImeHandler.FallbackSegmentsTile | Cef_Ime/IME/IMEHandler.cs:95-110 | the reference three-way split of the text around a target inside it: non-empty ranges that tile [0, length) |
| ImeHandler.FallbackIsLastSegment | Cef_Ime/IME/IMEHandler.cs:95-110 | the single fallback underline is the last range of that split, or (0, 0) when the split is empty; it is thick exactly when targetEnd > targetStart; its colours are the fixed ones |
| ImeHandler.FallbackKeepsOnlyTrailingRange | Cef_Ime/IME/IMEHandler.cs:95-110 | with the target in the middle of the text the split has three ranges, yet only the trailing one is underlined, and it is marked thick |
| ImeHandler.CompositionTarget | Cef_Ime/IME/IMEHandler.cs:73-76 | the target is (length, length) unless `GCS_COMPATTR` is set and there are attribute bytes, in which case it is the attribute scan's range and lies within the attribute buffer; from ≤ to either way |
| ImeHandler.CompositionCursor | Cef_Ime/IME/IMEHandler.cs:82-90 | the caret is the `GCS_CURSORPOS` value when that bit is set and `CS_NOMOVECARET` is not, and 0 otherwise |
| ImeHandler.CompositionUnderlines | Cef_Ime/IME/IMEHandler.cs:69-111 | the list left after `GetCompositionInfo` is never empty, and every entry uses `ColorUNDERLINE`/`ColorBKCOLOR` |
| ImeHandler.CompositionUnderlinesCases | Cef_Ime/IME/IMEHandler.cs:69-111 | the clause underlines are used when `GCS_COMPCLAUSE` is set and there are two or more boundaries; otherwise exactly one fallback underline is used, computed from the target (the attribute scan when `GCS_COMPATTR` is set and there are attribute bytes, else (length, length)) |
| ImeHandler.GetCompositionInfo | Cef_Ime/IME/IMEHandler.cs:69-111 | the list is cleared first and then holds only this call's underlines; the caret is the `GCS_CURSORPOS` value when that bit is set and `CS_NOMOVECARET` is not, else 0 |
| ImeHandler.GetComposition | Cef_Ime/IME/IMEHandler.cs:60-67 | returns exactly `GetString(GCS_COMPSTR)`'s result; on success the list and caret are those of `GetCompositionInfo`; on failure the text is empty and the list and caret are left untouched |
| KeyboardHandler.PrimaryLangId | Cef_Ime/IME/IMEWpfKeyboardHandler.cs:218-221 | `lgid & 0x3FF` lies in [0, 1024) and agrees with lgid modulo 1024 |
| KeyboardHandler.LoWord64 | Cef_Ime/IME/IMEWpfKeyboardHandler.cs:354-357 | keeps the low 32 bits (congruent modulo 2^32) and is the identity on values in Int32 range, as the 32-bit `ToInt32` path is |
| KeyboardHandler.AsUInt32 | Cef_Ime/IME/IMEWpfKeyboardHandler.cs:148 | `(uint)` of an Int32 keeps the same 32 bits |
| KeyboardHandler.ClearShowUiComposition | Cef_Ime/IME/IMEWpfKeyboardHandler.cs:181 | the masked lParam lies in [0, 2^31) and agrees with lParam modulo 2^31 |
| KeyboardHandler.ClearShowUiOnDword | Cef_Ime/IME/IMEWpfKeyboardHandler.cs:181 | for a 32-bit flag word, exactly bit 31 is cleared |
| KeyboardHandler.Location | Cef_Ime/IME/IMEWpfKeyboardHandler.cs:229-237 | −1 gives 0; an index below `From` is kept as it is; otherwise `From` is subtracted with Int32 wrap-around, which never wraps when `From` ≥ 0 |
| KeyboardHandler.PlacementOf | Cef_Ime/IME/IMEWpfKeyboardHandler.cs:223-242 | nothing happens exactly when the owner is unfocused or the location is ≥ `bounds.Count`; a negative location is not rejected and throws; when the window is placed, the caret moves exactly when a system caret exists |
| KeyboardHandler.PlacementEffects | Cef_Ime/IME/IMEWpfKeyboardHandler.cs:246-321 | a placement issues at most two calls: one `SetCaretPos` to the caret point when there is a system caret, then the single `ImmSetCandidateWindow` call with its form; the disabled Chinese composition-window call issues nothing; a skipped or failed placement issues no call |
| KeyboardHandler.PlacedForm | Cef_Ime/IME/IMEWpfKeyboardHandler.cs:244-321 | the form has style `CFS_EXCLUDE`, point (X, Y') and rect (X, Y', X+W, Y'+H), where Y' = Y+1 only for Korean; the caret goes to (bounds[0].X, bounds[0].Y + bounds[0].Height) for Japanese and otherwise to the unshifted (X, Y) |
| KeyboardHandler.UnsetCursorUsesFirstBound | Cef_Ime/IME/IMEWpfKeyboardHandler.cs:231-242 | with the cursor index −1 the location is 0 for any range, so a focused handler places the candidate form's point and rectangle on the first bound (one pixel lower for Korean), and a non-Japanese caret at its top-left |
| KeyboardHandler.NegativeCursorThrows | Cef_Ime/IME/IMEWpfKeyboardHandler.cs:231-242 | a cursor index below −1 with a non-negative range start is only checked against the upper bound, so it indexes out of range |
| KeyboardHandler.CaretAfterAppend | Cef_Ime/IME/IMEWpfKeyboardHandler.cs:201-216 | the caret bookkeeping of a log is that of its first part continued by the second |
| KeyboardHandler.Ignores | Cef_Ime/IME/IMEWpfKeyboardHandler.cs:114 | the guard: `handled` already set, no owner, no browser host, owner disposed, handler inactive or disposed |
| KeyboardHandler.Hook | Cef_Ime/IME/IMEWpfKeyboardHandler.cs:112-140 | `handled` is set only with the result 0 and never after a throw; no message changes the composition range, the bounds or the active and disposed flags; the call log only grows |
| KeyboardHandler.Composition | Cef_Ime/IME/IMEWpfKeyboardHandler.cs:142-167 | the composition message changes only the cursor index and appends to the call log |
| KeyboardHandler.SetContext | Cef_Ime/IME/IMEWpfKeyboardHandler.cs:176-187 | the first call is `DefWindowProc` with the masked lParam; the language id is re-read; only the language id, the caret flag and the log change |
| KeyboardHandler.StartComposition | Cef_Ime/IME/IMEWpfKeyboardHandler.cs:189-194 | the language id is re-read, the cursor index is −1 unless placement threw, and only the language id, caret flag, cursor index and log change |
| KeyboardHandler.EndComposition | Cef_Ime/IME/IMEWpfKeyboardHandler.cs:169-174 | the first call is `finish(false)`; afterwards the cursor index is −1 and no caret exists; nothing else changes |
| KeyboardHandler.CreateWindow | Cef_Ime/IME/IMEWpfKeyboardHandler.cs:201-216 | the language id is `PrimaryLangId(layoutId)`; an existing caret is kept; at most one call is appended; nothing else changes |
| KeyboardHandler.Move | Cef_Ime/IME/IMEWpfKeyboardHandler.cs:223-323 | placement changes no field, only appends calls, and appends none when it throws |
| KeyboardHandler.DestroyWindow | Cef_Ime/IME/IMEWpfKeyboardHandler.cs:325-332 | afterwards no caret exists; `DestroyCaret` is appended exactly when one existed; nothing else changes |
| KeyboardHandler.UpdateCaret | Cef_Ime/IME/IMEWpfKeyboardHandler.cs:341-345 | the cursor index is the one given; only it and the log change |
| KeyboardHandler.ChangeRange | Cef_Ime/IME/IMEWpfKeyboardHandler.cs:334-339 | the range and bounds are the ones given; only they and the log change |
| KeyboardHandler.GuardChangesNothing | Cef_Ime/IME/IMEWpfKeyboardHandler.cs:114-115 | when `handled` is already set, the owner or host is missing, the owner is disposed, the handler is inactive or disposed, the hook returns 0 and changes no state, issues no call and leaves `handled` alone |
| KeyboardHandler.InactiveIgnoresMessages | Cef_Ime/IME/IMEWpfKeyboardHandler.cs:60-72 | after focus is lost, every message is ignored |
| KeyboardHandler.Dispatch | Cef_Ime/IME/IMEWpfKeyboardHandler.cs:117-139 | past the guard, only 0x281, 0x10D, 0x10F and 0x10E set `handled`, and each of them sets it and returns 0 unless placement threw; `handled` is set exactly when 0 is returned; any other message returns 1 with `handled` false and nothing changed; SetContext first passes the masked lParam to `DefWindowProc` |
| KeyboardHandler.CompositionCommits | Cef_Ime/IME/IMEWpfKeyboardHandler.cs:142-156 | with a result string: one commit of its decoding at (Int32.MaxValue, Int32.MaxValue) with cursor 0, no composition update, and the cursor index unchanged |
| KeyboardHandler.CompositionUpdates | Cef_Ime/IME/IMEWpfKeyboardHandler.cs:158-167 | without a result string but with a composition string: one set-composition with its underlines and selection (cs, cs), then the cursor index becomes cs − 1 and the window is placed, throwing exactly when that placement does; no other field changes; with neither, nothing happens |
| KeyboardHandler.StartPlacesBeforeReset | Cef_Ime/IME/IMEWpfKeyboardHandler.cs:189-194 | Start creates the window and places it using the old cursor index, and only then sets the index to −1 (unless placement threw) |
| KeyboardHandler.EndDestroysCaretOnce | Cef_Ime/IME/IMEWpfKeyboardHandler.cs:169-174 | End issues `finish(false)`, sets the cursor index to −1, and destroys the caret only if one exists; a second End destroys nothing |
| KeyboardHandler.CreateWindowCaret | Cef_Ime/IME/IMEWpfKeyboardHandler.cs:201-221 | the language id is `layoutId & 0x3FF`, in [0, 1024); `CreateCaret` is called exactly for Japanese or Chinese when no caret exists; the flag becomes set only when that call succeeds |
| KeyboardHandler.RepeatedRangeChange | Cef_Ime/IME/IMEWpfKeyboardHandler.cs:334-339 | repeating the same range change issues the same placement calls again and leaves every field as the first call left it |
| KeyboardHandler.PlacementKeepsCaret | Cef_Ime/IME/IMEWpfKeyboardHandler.cs:272-321 | placement neither creates nor destroys a caret |
| KeyboardHandler.MoveKeepsValid | Cef_Ime/IME/IMEWpfKeyboardHandler.cs:223-323 | placement preserves the handler invariant |
| KeyboardHandler.CreateWindowKeepsValid | Cef_Ime/IME/IMEWpfKeyboardHandler.cs:201-216 | caret creation preserves the invariant: a caret is created only when none exists, and the flag records whether it was |
| KeyboardHandler.AppendNeutralKeepsValid | Cef_Ime/IME/IMEWpfKeyboardHandler.cs:142-187 | the browser-host and `DefWindowProc` calls do not touch the caret invariant |
| KeyboardHandler.CompositionKeepsValid | Cef_Ime/IME/IMEWpfKeyboardHandler.cs:142-167 | the composition message preserves the invariant |
| KeyboardHandler.HookKeepsValid | Cef_Ime/IME/IMEWpfKeyboardHandler.cs:112-140 | every message keeps the invariant: the caret calls alternate create/destroy from no caret, `_systemCaret` says whether one exists, the language id is below 1024, and the handler is not disposed |
| KeyboardHandler.ChangeRangeKeepsValid | Cef_Ime/IME/IMEWpfKeyboardHandler.cs:334-339 | a range change keeps the invariant |
| KeyboardHandler.ImeKeyboardHandler.constructor | Cef_Ime/IME/IMEWpfKeyboardHandler.cs:40-50 | the fields start at their C# defaults, no call has been issued, and the invariant holds |
| KeyboardHandler.ImeKeyboardHandler.SourceHook | Cef_Ime/IME/IMEWpfKeyboardHandler.cs:112-140 | the new fields, the return value and `handled` are those of `Hook`, and the invariant is kept |
| KeyboardHandler.ImeKeyboardHandler.OwnerGotFocus | Cef_Ime/IME/IMEWpfKeyboardHandler.cs:67-72 | activates the handler and changes nothing else |
| KeyboardHandler.ImeKeyboardHandler.OwnerLostFocus | Cef_Ime/IME/IMEWpfKeyboardHandler.cs:60-65 | deactivates the handler and changes nothing else |
| KeyboardHandler.ImeKeyboardHandler.OnIMEComposition | Cef_Ime/IME/IMEWpfKeyboardHandler.cs:142-167 | the new fields, the calls issued and the throw are those of `Composition` |
| KeyboardHandler.ImeKeyboardHandler.OnIMEEndComposition | Cef_Ime/IME/IMEWpfKeyboardHandler.cs:169-174 | the new fields and calls are those of `EndComposition` |
| KeyboardHandler.ImeKeyboardHandler.OnIMESetContext | Cef_Ime/IME/IMEWpfKeyboardHandler.cs:176-187 | the new fields, the calls and the throw are those of `SetContext` |
| KeyboardHandler.ImeKeyboardHandler.OnIMEStartComposition | Cef_Ime/IME/IMEWpfKeyboardHandler.cs:189-194 | the new fields, the calls and the throw are those of `StartComposition` |
| KeyboardHandler.ImeKeyboardHandler.ResetComposition | Cef_Ime/IME/IMEWpfKeyboardHandler.cs:196-199 | sets the cursor index to −1 and nothing else |
| KeyboardHandler.ImeKeyboardHandler.CreateImeWindow | Cef_Ime/IME/IMEWpfKeyboardHandler.cs:201-216 | the new fields and calls are those of `CreateWindow` |
| KeyboardHandler.ImeKeyboardHandler.MoveImeWindow | Cef_Ime/IME/IMEWpfKeyboardHandler.cs:223-323 | appends exactly the calls of `PlacementOf` on the current fields and changes no field; it throws exactly when the owner is focused and the location is negative |
| KeyboardHandler.ImeKeyboardHandler.DestroyImeWindow | Cef_Ime/IME/IMEWpfKeyboardHandler.cs:325-332 | destroys the caret and clears the flag only when a caret exists |
| KeyboardHandler.ImeKeyboardHandler.ChangeCompositionRange | Cef_Ime/IME/IMEWpfKeyboardHandler.cs:334-339 | stores the range and bounds and then places the window; the invariant is kept |
| KeyboardHandler.ImeKeyboardHandler.UpdateCaretPosition | Cef_Ime/IME/IMEWpfKeyboardHandler.cs:341-345 | stores the cursor index and then places the window |

## Left out

- `Cef_Ime/IME/ChromiumWebBrowserIMESupport.cs` is not part of this model. It
  holds the floating-point device-scale transform of the character bounds,
  dispatcher marshalling, the visual-tree walk and dependency-property
  metadata. None of it is discrete logic. The bounds arrive already scaled.
- The P/Invoke entry points of `Cef_Ime/IME/NativeIME.cs` are foreign calls.
  Their results are parameters (`Env`, `CompositionString`), and their calls
  are entries in the effect log.
- Resource handles are left out, because they only acquire and release
  handles:
  - the `IMEHandler` constructor and `Dispose` (`ImmGetContext`,
    `ImmReleaseContext`);
  - `Init` and `InitialiseHWND`, which install the hook and create and
    associate the browser context;
  - the null `_source` that `ChangeCompositionRange` and `UpdateCaretPosition`
    would dereference before `Init` has run.
- The focus handlers are modelled only as setters of `IsActive`
  (`OwnerGotFocus`, `OwnerLostFocus`). The `InputMethod` enable and suspend
  calls are WPF plumbing.
- Dead code is left out:
  - the commented-out `Dispose`, which is why `_isDisposed` stays false;
  - the Chinese `TagCompositionForm`, which is built but never sent;
  - the unused `HIWORD64`.
- The 32-bit `_loWord` path (`ToInt32`) is left out. Only `LOWORD64` is
  modelled, and `LoWord64` proves it is the identity on the values the
  32-bit path accepts.
- `_imeRect` is left out. It is read into `rc` and always overwritten before
  any use, so it has no observable effect.
- `ImeHandler.DecodeUtf16Le` models `Encoding.Unicode.GetString` as a
  sequence of 16-bit code units. It does not replace lone surrogates, and it
  requires an even byte length (`CompositionString.WellFormed`). The IME
  never reports an odd length for a string buffer.
- `ImeHandler.CompositionString` models the lengths `ImmGetCompositionString`
  reports as the lengths of the buffers. Negative error codes, and buffers of
  2^31 bytes or more, are outside the model.
- Colour names: `ColorUNDERLINE` (0xFFFFFFFF) and `ColorBKCOLOR`
  (0xFF000000) are modelled by value. The source comments call them black
  and white the other way round, and that has no effect.
