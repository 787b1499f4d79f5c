/**
  Constants, integer widths and structures of the Win32 IMM32/user32
  interface as the IME support declares them (Cef_Ime/IME/NativeIME.cs).
  The native entry points themselves are not modelled here: the handler
  receives their results as parameters and records their calls as effects.
 */
module Native {

  type uint8 = x: int | 0 <= x < 0x100
  type uint16 = x: int | 0 <= x < 0x1_0000
  type uint32 = x: int | 0 <= x < 0x1_0000_0000
  type int32 = x: int | -0x8000_0000 <= x < 0x8000_0000
  type int64 = x: int | -0x8000_0000_0000_0000 <= x < 0x8000_0000_0000_0000

  const INT32_MAX: int32 := 0x7FFF_FFFF

  /** C#'s unchecked narrowing to Int32: keep the low 32 bits, read them as two's complement. */
  function Wrap32(x: int): (r: int32)
    ensures (r - x) % 0x1_0000_0000 == 0
    ensures -0x8000_0000 <= x < 0x8000_0000 ==> r == x
  {
    var low := x % 0x1_0000_0000;
    if low < 0x8000_0000 then low else low - 0x1_0000_0000
  }

  /** Unchecked Int32 addition, as every `+` on `int` in the handler is. */
  function Add32(a: int32, b: int32): (r: int32)
    ensures (r - (a + b)) % 0x1_0000_0000 == 0
    ensures -0x8000_0000 <= a + b < 0x8000_0000 ==> r == a + b
    ensures a + b >= 0x8000_0000 ==> r == a + b - 0x1_0000_0000
    ensures a + b < -0x8000_0000 ==> r == a + b + 0x1_0000_0000
  {
    Wrap32(a + b)
  }

  // Window messages (NativeIME.cs:13-31)
  const WM_INPUTLANGCHANGE: int := 0x51
  const WM_KEYDOWN: int := 0x0100
  const WM_KEYUP: int := 0x101
  const WM_CHAR: int := 0x102
  const WM_SYSKEYDOWN: int := 0x0104
  const WM_SYSKEYUP: int := 0x105
  const WM_IME_STARTCOMPOSITION: int := 0x10D
  const WM_IME_ENDCOMPOSITION: int := 0x10E
  const WM_IME_COMPOSITION: int := 0x10F
  const WM_IME_SETCONTEXT: int := 0x281
  const WM_IME_NOTIFY: int := 0x282
  const WM_IME_CONTROL: int := 0x283
  const WM_IME_COMPOSITIONFULL: int := 0x284
  const WM_IME_SELECT: int := 0x285
  const WM_IME_CHAR: int := 0x286
  const WM_IME_REQUEST: int := 0x0288
  const WM_IME_KEYDOWN: int := 0x290
  const WM_IME_KEYUP: int := 0x291
  const WM_SYSCHAR: int := 0x0106

  // Flag bits of the WM_IME_COMPOSITION lParam and buffer kinds of ImmGetCompositionString
  const GCS_RESULTSTR: bv32 := 0x0800
  const GCS_COMPSTR: bv32 := 0x0008
  const GCS_COMPATTR: bv32 := 0x0010
  const GCS_CURSORPOS: bv32 := 0x0080
  const GCS_COMPCLAUSE: bv32 := 0x0020
  const CS_NOMOVECARET: bv32 := 0x4000

  // Attribute bytes that mark the target (selected) clause
  const ATTR_TARGET_CONVERTED: uint8 := 0x01
  const ATTR_TARGET_NOTCONVERTED: uint8 := 0x03

  const ISC_SHOWUICOMPOSITIONWINDOW: uint32 := 0x8000_0000

  // Window-form styles; CFS_EXCLUDE has the value imm.h gives it
  const CFS_DEFAULT: uint32 := 0x0000
  const CFS_RECT: uint32 := 0x0001
  const CFS_POINT: uint32 := 0x0002
  const CFS_FORCE_POSITION: uint32 := 0x0020
  const CFS_EXCLUDE: uint32 := 0x0080

  // Primary language identifiers
  const LANG_JAPANESE: int := 0x11
  const LANG_CHINESE: int := 0x04
  const LANG_KOREAN: int := 0x12

  datatype TagPoint = TagPoint(x: int32, y: int32)

  datatype TagRect = TagRect(left: int32, top: int32, right: int32, bottom: int32)

  /** The CANDIDATEFORM handed to ImmSetCandidateWindow. */
  datatype TagCandidateForm = TagCandidateForm(index: uint32, style: uint32, currentPos: TagPoint, area: TagRect)
}

/** The CefSharp structures the handler exchanges with the browser host. */
module Cef {
  import opened Native

  /** A range of UTF-16 code-unit offsets; CefSharp does not check from <= to. */
  datatype Range = Range(from: int32, to: int32)

  /** A character bound in device pixels. */
  datatype Rect = Rect(x: int32, y: int32, width: int32, height: int32)

  datatype CompositionUnderline = CompositionUnderline(range: Range, color: uint32, backgroundColor: uint32, thick: bool)
}
