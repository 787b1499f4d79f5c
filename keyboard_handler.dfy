/**
  The IME message handler of Cef_Ime/IME/IMEWpfKeyboardHandler.cs: it
  intercepts the four IME window messages, forwards commits and compositions
  to the browser host, keeps a system caret for Japanese and Chinese input,
  and places the IME candidate window next to the composition.

  Every transition is first given as a function on `HandlerState` (the
  handler's fields plus the log of native and browser calls it has issued);
  the class `ImeKeyboardHandler` below updates its fields in place and is
  proved to follow these functions.
 */
module KeyboardHandler {
  import opened Wrappers
  import opened Native
  import opened Cef
  import opened ImeHandler

  /** A call the handler issues, in the order it issues them. */
  datatype Effect =
    | ImeCommitText(text: seq<uint16>, replacementRange: Range, relativeCursorPos: int32)
    | ImeSetComposition(text: seq<uint16>, underlines: seq<CompositionUnderline>, replacementRange: Range, selectionRange: Range)
    | ImeFinishComposingText(keepSelection: bool)
    | CreateCaret(created: bool)   // CreateCaret(hwnd, 0, 1, 1) and whether it succeeded
    | DestroyCaret
    | SetCaretPos(x: int32, y: int32)
    | ImmSetCandidateWindow(form: TagCandidateForm)
    | DefWindowProc(msg: int, wParam: int64, lParam: int64)

  /** The state of the browser control the handler belongs to, as seen during one message. */
  datatype Owner = Owner(present: bool, hasBrowserHost: bool, disposed: bool, focused: bool)

  /**
    The world outside the handler during one message: the owner, the
    keyboard layout of the current input language, whether CreateCaret
    succeeds, and the contents of the input context.
   */
  datatype Env = Env(owner: Owner, layoutId: int32, caretCreated: bool, imc: CompositionString)

  datatype HandlerState = HandlerState(
    languageCodeId: int,
    systemCaret: bool,
    isDisposed: bool,
    isActive: bool,
    cursorIndex: int32,
    compositionRange: Range,
    compositionBounds: seq<Rect>,
    effects: seq<Effect>)

  /** The fields as the constructor leaves them: C# defaults, no call issued. */
  const Initial := HandlerState(0, false, false, false, 0, Range(0, 0), [], [])

  /** A transition that may end by throwing (an index out of range in MoveImeWindow). */
  datatype Step = Step(state: HandlerState, thrown: bool)

  datatype HookResult = Returned(value: int64) | Threw

  datatype HookStep = HookStep(state: HandlerState, result: HookResult, handled: bool)

  /** The range a commit replaces: "the end of the text". */
  const EndOfText := Range(INT32_MAX, INT32_MAX)

  // ---------------------------------------------------------------------
  // Pure helpers

  /** `lgid & 0x3FF`: on two's complement this is the Euclidean remainder modulo 0x400. */
  function PrimaryLangId(lgid: int32): (r: int)
    ensures 0 <= r < 0x400
    ensures (lgid - r) % 0x400 == 0
  {
    lgid % 0x400
  }

  /** LOWORD64 keeps the low 32 bits (not 16) of the pointer-sized lParam, read as Int32. */
  function LoWord64(p: int64): (r: int32)
    ensures (r - p) % 0x1_0000_0000 == 0
    ensures -0x8000_0000 <= p < 0x8000_0000 ==> r == p
  {
    Wrap32(p % 0x1_0000_0000)
  }

  /** `(uint)` of an Int32: the same 32 bits read as unsigned. */
  function AsUInt32(x: int32): (r: bv32)
    ensures (r as int - x) % 0x1_0000_0000 == 0
  {
    (if x < 0 then x + 0x1_0000_0000 else x) as bv32
  }

  /**
    `lParam.ToInt64() & ~ISC_SHOWUICOMPOSITIONWINDOW`: the uint complement
    0x7FFFFFFF is widened to long, so bit 31 and every bit above it are
    cleared.
   */
  function ClearShowUiComposition(p: int64): (r: int64)
    ensures 0 <= r < ISC_SHOWUICOMPOSITIONWINDOW
    ensures (r - p) % ISC_SHOWUICOMPOSITIONWINDOW == 0
  {
    p % 0x8000_0000
  }

  /** For a flag word that fits in 32 bits the mask clears exactly ISC_SHOWUICOMPOSITIONWINDOW and nothing else. */
  lemma ClearShowUiOnDword(p: int64)
    requires 0 <= p < 0x1_0000_0000
    ensures ClearShowUiComposition(p) == if p >= 0x8000_0000 then p - 0x8000_0000 else p
  {
  }

  // ---------------------------------------------------------------------
  // Candidate-window placement

  /** The index into the composition bounds MoveImeWindow uses. */
  function Location(cursorIndex: int32, from: int32): (r: int32)
    ensures cursorIndex == -1 ==> r == 0
    ensures cursorIndex != -1 && cursorIndex < from ==> r == cursorIndex
    ensures cursorIndex != -1 && 0 <= from <= cursorIndex ==> r == cursorIndex - from
    ensures cursorIndex != -1 && from <= cursorIndex ==> (r - (cursorIndex - from)) % 0x1_0000_0000 == 0
  {
    var location := if cursorIndex == -1 then from else cursorIndex;
    if location >= from then Wrap32(location as int - from as int) else location
  }

  datatype Placement =
    | Skipped
    | IndexOutOfRange(index: int32)
    | Placed(caret: Option<TagPoint>, form: TagCandidateForm)

  /**
    What MoveImeWindow does: nothing when the owner is unfocused or the
    location is at or past the end of the bounds; a throw for a negative
    location; otherwise the caret move (when a system caret exists) and the
    CFS_EXCLUDE candidate form around the located rectangle, one pixel lower
    for Korean.
   */
  function PlacementOf(focused: bool, cursorIndex: int32, compositionRange: Range, bounds: seq<Rect>,
                       languageCodeId: int, systemCaret: bool): (p: Placement)
    ensures p.Skipped? <==> !focused || Location(cursorIndex, compositionRange.from) >= |bounds|
    ensures p.IndexOutOfRange? <==> focused && Location(cursorIndex, compositionRange.from) < 0
    ensures p.Placed? ==> p.caret.Some? == systemCaret
  {
    if !focused then Skipped
    else
      var location := Location(cursorIndex, compositionRange.from);
      if location >= |bounds| then Skipped
      else if location < 0 then IndexOutOfRange(location)
      else
        var rc := bounds[location];
        var caret :=
          if !systemCaret then None
          else if languageCodeId == LANG_JAPANESE then Some(TagPoint(bounds[0].x, Add32(bounds[0].y, bounds[0].height)))
          else Some(TagPoint(rc.x, rc.y));
        var top := if languageCodeId == LANG_KOREAN then Add32(rc.y, 1) else rc.y;
        var form := TagCandidateForm(0, CFS_EXCLUDE, TagPoint(rc.x, top),
                                     TagRect(rc.x, top, Add32(rc.x, rc.width), Add32(top, rc.height)));
        Placed(caret, form)
  }

  /** The calls a placement issues. */
  function PlacementEffects(p: Placement): (e: seq<Effect>)
    ensures p.Placed? ==> e != [] && e[|e| - 1] == ImmSetCandidateWindow(p.form)
    ensures p.Placed? ==>
      e == (if p.caret.Some? then [SetCaretPos(p.caret.value.x, p.caret.value.y)] else []) + [ImmSetCandidateWindow(p.form)]
    ensures |e| <= 2
    ensures !p.Placed? ==> e == []
  {
    match p
    case Placed(caret, form) =>
      (if caret.Some? then [SetCaretPos(caret.value.x, caret.value.y)] else []) + [ImmSetCandidateWindow(form)]
    case _ => []
  }

  /**
    The candidate form: style CFS_EXCLUDE, its point the top-left of the
    rectangle, the rectangle the located bound (shifted down one pixel for
    Korean); the caret goes below the first bound for Japanese and to the
    unshifted top-left of the located bound otherwise.
   */
  lemma PlacedForm(focused: bool, cursorIndex: int32, compositionRange: Range, bounds: seq<Rect>,
                   languageCodeId: int, systemCaret: bool)
    requires PlacementOf(focused, cursorIndex, compositionRange, bounds, languageCodeId, systemCaret).Placed?
    ensures var p := PlacementOf(focused, cursorIndex, compositionRange, bounds, languageCodeId, systemCaret);
      var location := Location(cursorIndex, compositionRange.from);
      && 0 <= location < |bounds|
      && var rc := bounds[location];
      && var top := if languageCodeId == LANG_KOREAN then Add32(rc.y, 1) else rc.y;
      && p.form.index == 0 && p.form.style == CFS_EXCLUDE
      && p.form.currentPos == TagPoint(rc.x, top)
      && p.form.area == TagRect(rc.x, top, Add32(rc.x, rc.width), Add32(top, rc.height))
      && (systemCaret && languageCodeId == LANG_JAPANESE ==>
            p.caret == Some(TagPoint(bounds[0].x, Add32(bounds[0].y, bounds[0].height))))
      && (systemCaret && languageCodeId != LANG_JAPANESE ==> p.caret == Some(TagPoint(rc.x, rc.y)))
  {
  }

  /**
    With the cursor unset (-1) the location is the range start minus itself,
    so the first bound is used whatever the composition range is.
   */
  lemma UnsetCursorUsesFirstBound(compositionRange: Range, bounds: seq<Rect>, languageCodeId: int, systemCaret: bool)
    requires |bounds| > 0
    ensures Location(-1, compositionRange.from) == 0
    ensures var p := PlacementOf(true, -1, compositionRange, bounds, languageCodeId, systemCaret);
      var top := if languageCodeId == LANG_KOREAN then Add32(bounds[0].y, 1) else bounds[0].y;
      && p.Placed?
      && p.form.currentPos == TagPoint(bounds[0].x, top)
      && p.form.area == TagRect(bounds[0].x, top, Add32(bounds[0].x, bounds[0].width), Add32(top, bounds[0].height))
      && (systemCaret && languageCodeId != LANG_JAPANESE ==> p.caret == Some(TagPoint(bounds[0].x, bounds[0].y)))
  {
  }

  /** A cursor index below -1 before a non-negative range start is not rejected and indexes out of range. */
  lemma NegativeCursorThrows(cursorIndex: int32, compositionRange: Range, bounds: seq<Rect>, languageCodeId: int, systemCaret: bool)
    requires cursorIndex < -1 && compositionRange.from >= 0
    ensures PlacementOf(true, cursorIndex, compositionRange, bounds, languageCodeId, systemCaret) == IndexOutOfRange(cursorIndex)
  {
  }

  // ---------------------------------------------------------------------
  // Transitions

  /** The caret log is consistent: starting with no caret, a caret is only created when none exists and only destroyed when one does. */
  function CaretAfter(caret: bool, log: seq<Effect>): Option<bool>
    decreases |log|
  {
    if log == [] then Some(caret)
    else match log[0]
      case CreateCaret(created) => if caret then None else CaretAfter(created, log[1..])
      case DestroyCaret => if caret then CaretAfter(false, log[1..]) else None
      case _ => CaretAfter(caret, log[1..])
  }

  lemma {:induction false} CaretAfterAppend(caret: bool, a: seq<Effect>, b: seq<Effect>)
    ensures CaretAfter(caret, a + b) ==
      match CaretAfter(caret, a) case None => None case Some(c) => CaretAfter(c, b)
    decreases |a|
  {
    if a != [] {
      assert (a + b)[0] == a[0];
      assert (a + b)[1..] == a[1..] + b;
      match a[0]
      case CreateCaret(created) => CaretAfterAppend(created, a[1..], b);
      case DestroyCaret => CaretAfterAppend(false, a[1..], b);
      case _ => CaretAfterAppend(caret, a[1..], b);
    } else {
      assert a + b == b;
    }
  }

  /**
    The handler's invariant: the caret calls it has issued leave a caret
    exactly when `systemCaret` is set, the language id is a primary language
    id, and the handler is never disposed (its Dispose is not compiled).
   */
  ghost predicate Valid(s: HandlerState)
  {
    && CaretAfter(false, s.effects) == Some(s.systemCaret)
    && 0 <= s.languageCodeId < 0x400
    && !s.isDisposed
  }

  function Reset(s: HandlerState): HandlerState
  {
    s.(cursorIndex := -1)
  }

  function CreateWindow(s: HandlerState, layoutId: int32, caretCreated: bool): (r: HandlerState)
    ensures r.languageCodeId == PrimaryLangId(layoutId)
    ensures s.systemCaret ==> r.systemCaret
    ensures r == s.(languageCodeId := r.languageCodeId, systemCaret := r.systemCaret, effects := r.effects)
    ensures |s.effects| <= |r.effects| <= |s.effects| + 1 && r.effects[..|s.effects|] == s.effects
  {
    var lang := PrimaryLangId(layoutId);
    if (lang == LANG_JAPANESE || lang == LANG_CHINESE) && !s.systemCaret then
      s.(languageCodeId := lang, systemCaret := caretCreated, effects := s.effects + [CreateCaret(caretCreated)])
    else
      s.(languageCodeId := lang)
  }

  function Move(s: HandlerState, focused: bool): (r: Step)
    ensures r.state == s.(effects := r.state.effects)
    ensures |r.state.effects| >= |s.effects| && r.state.effects[..|s.effects|] == s.effects
    ensures r.thrown ==> r.state == s
  {
    var p := PlacementOf(focused, s.cursorIndex, s.compositionRange, s.compositionBounds, s.languageCodeId, s.systemCaret);
    Step(s.(effects := s.effects + PlacementEffects(p)), p.IndexOutOfRange?)
  }

  function DestroyWindow(s: HandlerState): (r: HandlerState)
    ensures !r.systemCaret
    ensures r.effects == s.effects + (if s.systemCaret then [DestroyCaret] else [])
    ensures r == s.(systemCaret := false, effects := r.effects)
  {
    if s.systemCaret then s.(systemCaret := false, effects := s.effects + [DestroyCaret]) else s
  }

  function UpdateCaret(s: HandlerState, index: int32, focused: bool): (r: Step)
    ensures r.state.cursorIndex == index
    ensures r.state == s.(cursorIndex := index, effects := r.state.effects)
    ensures |r.state.effects| >= |s.effects| && r.state.effects[..|s.effects|] == s.effects
  {
    Move(s.(cursorIndex := index), focused)
  }

  function ChangeRange(s: HandlerState, selectionRange: Range, bounds: seq<Rect>, focused: bool): (r: Step)
    ensures r.state.compositionRange == selectionRange && r.state.compositionBounds == bounds
    ensures r.state == s.(compositionRange := selectionRange, compositionBounds := bounds, effects := r.state.effects)
    ensures |r.state.effects| >= |s.effects| && r.state.effects[..|s.effects|] == s.effects
  {
    Move(s.(compositionRange := selectionRange, compositionBounds := bounds), focused)
  }

  /** WM_IME_COMPOSITION with the 32-bit flag word `lParam`. */
  function Composition(s: HandlerState, lParam: int32, env: Env): (r: Step)
    requires env.imc.WellFormed()
    ensures r.state == s.(cursorIndex := r.state.cursorIndex, effects := r.state.effects)
    ensures |r.state.effects| >= |s.effects| && r.state.effects[..|s.effects|] == s.effects
  {
    var flags := AsUInt32(lParam);
    var result := GetResult(flags, env.imc);
    if result.0 then
      Step(s.(effects := s.effects + [ImeCommitText(result.1, EndOfText, 0)]), false)
    else
      var composition := GetString(flags, GCS_COMPSTR, env.imc);
      if composition.0 then
        var cursor := CompositionCursor(flags, env.imc);
        var underlines := CompositionUnderlines(flags, env.imc, |composition.1|);
        var s1 := s.(effects := s.effects + [ImeSetComposition(composition.1, underlines, EndOfText, Range(cursor, cursor))]);
        UpdateCaret(s1, Wrap32(cursor as int - 1), env.owner.focused)
      else
        Step(s, false)
  }

  function EndComposition(s: HandlerState): (r: HandlerState)
    ensures r.cursorIndex == -1 && !r.systemCaret
    ensures |r.effects| > |s.effects| && r.effects[..|s.effects| + 1] == s.effects + [ImeFinishComposingText(false)]
    ensures r == s.(cursorIndex := -1, systemCaret := false, effects := r.effects)
  {
    DestroyWindow(Reset(s.(effects := s.effects + [ImeFinishComposingText(false)])))
  }

  function SetContext(s: HandlerState, msg: int, wParam: int64, lParam: int64, env: Env): (r: Step)
    ensures |r.state.effects| > |s.effects|
    ensures r.state.effects[..|s.effects| + 1] == s.effects + [DefWindowProc(msg, wParam, ClearShowUiComposition(lParam))]
    ensures r.state.languageCodeId == PrimaryLangId(env.layoutId)
    ensures r.state == s.(languageCodeId := r.state.languageCodeId, systemCaret := r.state.systemCaret, effects := r.state.effects)
  {
    var s1 := s.(effects := s.effects + [DefWindowProc(msg, wParam, ClearShowUiComposition(lParam))]);
    Move(CreateWindow(s1, env.layoutId, env.caretCreated), env.owner.focused)
  }

  function StartComposition(s: HandlerState, env: Env): (r: Step)
    ensures r.state.languageCodeId == PrimaryLangId(env.layoutId)
    ensures r.state.cursorIndex == (if r.thrown then s.cursorIndex else -1)
    ensures r.state == s.(languageCodeId := r.state.languageCodeId, systemCaret := r.state.systemCaret,
                          cursorIndex := r.state.cursorIndex, effects := r.state.effects)
    ensures |r.state.effects| >= |s.effects| && r.state.effects[..|s.effects|] == s.effects
  {
    var moved := Move(CreateWindow(s, env.layoutId, env.caretCreated), env.owner.focused);
    if moved.thrown then moved else Step(Reset(moved.state), false)
  }

  /** The focus handlers: gaining focus activates the handler, losing it deactivates it. */
  function SetActive(s: HandlerState, active: bool): HandlerState
  {
    s.(isActive := active)
  }

  /** The guard at the top of SourceHook. */
  predicate Ignores(s: HandlerState, handled: bool, owner: Owner)
  {
    handled || !owner.present || !owner.hasBrowserHost || owner.disposed || !s.isActive || s.isDisposed
  }

  function Handled(step: Step): HookStep
  {
    if step.thrown then HookStep(step.state, Threw, false) else HookStep(step.state, Returned(0), true)
  }

  function Hook(s: HandlerState, msg: int, wParam: int64, lParam: int64, handled: bool, env: Env): (h: HookStep)
    requires env.imc.WellFormed()
    ensures h.handled ==> h.result == Returned(0)
    ensures h.result == Threw ==> !h.handled
    ensures h.state.compositionRange == s.compositionRange && h.state.compositionBounds == s.compositionBounds
    ensures h.state.isActive == s.isActive && h.state.isDisposed == s.isDisposed
    ensures |h.state.effects| >= |s.effects| && h.state.effects[..|s.effects|] == s.effects
  {
    if Ignores(s, handled, env.owner) then HookStep(s, Returned(0), handled)
    else if msg == WM_IME_SETCONTEXT then Handled(SetContext(s, msg, wParam, lParam, env))
    else if msg == WM_IME_STARTCOMPOSITION then Handled(StartComposition(s, env))
    else if msg == WM_IME_COMPOSITION then Handled(Composition(s, LoWord64(lParam), env))
    else if msg == WM_IME_ENDCOMPOSITION then Handled(Step(EndComposition(s), false))
    else HookStep(s, Returned(1), false)
  }

  // ---------------------------------------------------------------------
  // Properties of the transitions

  /** An ignored message returns 0, leaves `handled` as it was and changes nothing. */
  lemma GuardChangesNothing(s: HandlerState, msg: int, wParam: int64, lParam: int64, handled: bool, env: Env)
    requires env.imc.WellFormed()
    requires Ignores(s, handled, env.owner)
    ensures Hook(s, msg, wParam, lParam, handled, env) == HookStep(s, Returned(0), handled)
  {
  }

  /** Once focus is lost every message is ignored until focus returns. */
  lemma InactiveIgnoresMessages(s: HandlerState, msg: int, wParam: int64, lParam: int64, handled: bool, env: Env)
    requires env.imc.WellFormed()
    ensures var t := SetActive(s, false);
      Hook(t, msg, wParam, lParam, handled, env) == HookStep(t, Returned(0), handled)
  {
  }

  /**
    Past the guard, exactly the four IME messages are handled (returning 0
    unless placement threw); any other message returns 1, unhandled, with
    nothing changed.
   */
  lemma Dispatch(s: HandlerState, msg: int, wParam: int64, lParam: int64, env: Env)
    requires env.imc.WellFormed()
    requires !Ignores(s, false, env.owner)
    ensures var h := Hook(s, msg, wParam, lParam, false, env);
      && (h.handled ==> msg in {WM_IME_SETCONTEXT, WM_IME_STARTCOMPOSITION, WM_IME_COMPOSITION, WM_IME_ENDCOMPOSITION})
      && (h.handled <==> h.result == Returned(0))
      && (msg !in {WM_IME_SETCONTEXT, WM_IME_STARTCOMPOSITION, WM_IME_COMPOSITION, WM_IME_ENDCOMPOSITION} ==>
            h == HookStep(s, Returned(1), false))
      && (msg == WM_IME_ENDCOMPOSITION ==> h.handled)
      && (msg in {WM_IME_SETCONTEXT, WM_IME_STARTCOMPOSITION, WM_IME_COMPOSITION, WM_IME_ENDCOMPOSITION} ==>
            h.result == Threw || (h.handled && h.result == Returned(0)))
      && (msg == WM_IME_SETCONTEXT ==>
            (|h.state.effects| > |s.effects|
             && h.state.effects[|s.effects|] == DefWindowProc(msg, wParam, ClearShowUiComposition(lParam))))
  {
  }

  /** A result string is committed at the end of the text, with no composition update and the cursor index kept. */
  lemma CompositionCommits(s: HandlerState, lParam: int32, env: Env)
    requires env.imc.WellFormed()
    requires IsParam(AsUInt32(lParam), GCS_RESULTSTR) && |env.imc.resultStr| > 0
    ensures Composition(s, lParam, env) ==
      Step(s.(effects := s.effects + [ImeCommitText(DecodeUtf16Le(env.imc.resultStr), EndOfText, 0)]), false)
  {
  }

  /**
    Without a result string, a composition string is sent with a caret
    selection at the GCS_CURSORPOS value cs, the cursor index becomes cs - 1
    and the window is placed; with neither nothing happens.
   */
  lemma CompositionUpdates(s: HandlerState, lParam: int32, env: Env)
    requires env.imc.WellFormed()
    requires !GetResult(AsUInt32(lParam), env.imc).0
    ensures var flags := AsUInt32(lParam);
      var step := Composition(s, lParam, env);
      var cs := CompositionCursor(flags, env.imc);
      if IsParam(flags, GCS_COMPSTR) && |env.imc.compStr| > 0 then
        var text := DecodeUtf16Le(env.imc.compStr);
        && step.state.cursorIndex == Wrap32(cs as int - 1)
        && step.state.effects[..|s.effects| + 1] ==
             s.effects + [ImeSetComposition(text, CompositionUnderlines(flags, env.imc, |text|), EndOfText, Range(cs, cs))]
        && step.state.effects[|s.effects| + 1..] ==
             PlacementEffects(PlacementOf(env.owner.focused, Wrap32(cs as int - 1), s.compositionRange, s.compositionBounds,
                                          s.languageCodeId, s.systemCaret))
        && step.state == s.(cursorIndex := step.state.cursorIndex, effects := step.state.effects)
        && step.thrown == PlacementOf(env.owner.focused, Wrap32(cs as int - 1), s.compositionRange, s.compositionBounds,
                                      s.languageCodeId, s.systemCaret).IndexOutOfRange?
      else step == Step(s, false)
  {
  }

  /**
    Start places the window with the cursor index it had, and only then
    resets it to -1 (unless placement threw).
   */
  lemma StartPlacesBeforeReset(s: HandlerState, env: Env)
    ensures var created := CreateWindow(s, env.layoutId, env.caretCreated);
      var step := StartComposition(s, env);
      var p := PlacementOf(env.owner.focused, s.cursorIndex, s.compositionRange, s.compositionBounds,
                           created.languageCodeId, created.systemCaret);
      && step.state.effects == created.effects + PlacementEffects(p)
      && step.thrown == p.IndexOutOfRange?
      && step.state.cursorIndex == (if step.thrown then s.cursorIndex else -1)
  {
  }

  /** End: finish without keeping the text, cursor -1, and the caret destroyed exactly when one exists. */
  lemma EndDestroysCaretOnce(s: HandlerState)
    ensures var t := EndComposition(s);
      && t.effects == s.effects + [ImeFinishComposingText(false)] + (if s.systemCaret then [DestroyCaret] else [])
      && t.cursorIndex == -1 && !t.systemCaret
      && EndComposition(t).effects == t.effects + [ImeFinishComposingText(false)]
  {
  }

  /**
    The language id is `layoutId & 0x3FF`; a caret is created only for
    Japanese or Chinese and only when none exists, and `systemCaret` becomes
    set only when that creation succeeds.
   */
  lemma CreateWindowCaret(s: HandlerState, layoutId: int32, caretCreated: bool)
    ensures var t := CreateWindow(s, layoutId, caretCreated);
      var lang := PrimaryLangId(layoutId);
      && t.languageCodeId == lang && 0 <= lang < 0x400
      && (t.effects != s.effects <==> (lang == LANG_JAPANESE || lang == LANG_CHINESE) && !s.systemCaret)
      && (t.effects != s.effects ==> t.effects == s.effects + [CreateCaret(caretCreated)])
      && (t.systemCaret <==> s.systemCaret || ((lang == LANG_JAPANESE || lang == LANG_CHINESE) && caretCreated))
  {
  }

  /** Placement is a function of the state: the same range change twice issues the same calls twice. */
  lemma RepeatedRangeChange(s: HandlerState, selectionRange: Range, bounds: seq<Rect>, focused: bool)
    requires !ChangeRange(s, selectionRange, bounds, focused).thrown
    ensures var once := ChangeRange(s, selectionRange, bounds, focused);
      var twice := ChangeRange(once.state, selectionRange, bounds, focused);
      var e := once.state.effects[|s.effects|..];
      && !twice.thrown
      && twice.state.effects == s.effects + e + e
      && twice.state == once.state.(effects := twice.state.effects)
  {
  }

  lemma PlacementKeepsCaret(c: bool, p: Placement)
    ensures CaretAfter(c, PlacementEffects(p)) == Some(c)
  {
    match p
    case Placed(caret, form) =>
      var last := [ImmSetCandidateWindow(form)];
      assert CaretAfter(c, last) == Some(c) by {
        assert last[1..] == [];
      }
      if caret.Some? {
        assert PlacementEffects(p)[1..] == last;
      } else {
        assert PlacementEffects(p) == last;
      }
    case _ =>
  }

  lemma MoveKeepsValid(s: HandlerState, focused: bool)
    requires Valid(s)
    ensures Valid(Move(s, focused).state)
  {
    var p := PlacementOf(focused, s.cursorIndex, s.compositionRange, s.compositionBounds, s.languageCodeId, s.systemCaret);
    CaretAfterAppend(false, s.effects, PlacementEffects(p));
    PlacementKeepsCaret(s.systemCaret, p);
  }

  lemma CreateWindowKeepsValid(s: HandlerState, layoutId: int32, caretCreated: bool)
    requires Valid(s)
    ensures Valid(CreateWindow(s, layoutId, caretCreated))
  {
    var t := CreateWindow(s, layoutId, caretCreated);
    CaretAfterAppend(false, s.effects, t.effects[|s.effects|..]);
    assert t.effects == s.effects + t.effects[|s.effects|..];
  }

  lemma AppendNeutralKeepsValid(s: HandlerState, e: Effect)
    requires Valid(s)
    requires !e.CreateCaret? && !e.DestroyCaret?
    ensures Valid(s.(effects := s.effects + [e]))
  {
    CaretAfterAppend(false, s.effects, [e]);
  }

  /** Every message keeps the invariant: caret creations and destructions alternate, starting with a creation. */
  lemma HookKeepsValid(s: HandlerState, msg: int, wParam: int64, lParam: int64, handled: bool, env: Env)
    requires env.imc.WellFormed()
    requires Valid(s)
    ensures Valid(Hook(s, msg, wParam, lParam, handled, env).state)
  {
    if Ignores(s, handled, env.owner) {
    } else if msg == WM_IME_SETCONTEXT {
      var s1 := s.(effects := s.effects + [DefWindowProc(msg, wParam, ClearShowUiComposition(lParam))]);
      AppendNeutralKeepsValid(s, DefWindowProc(msg, wParam, ClearShowUiComposition(lParam)));
      CreateWindowKeepsValid(s1, env.layoutId, env.caretCreated);
      MoveKeepsValid(CreateWindow(s1, env.layoutId, env.caretCreated), env.owner.focused);
    } else if msg == WM_IME_STARTCOMPOSITION {
      CreateWindowKeepsValid(s, env.layoutId, env.caretCreated);
      MoveKeepsValid(CreateWindow(s, env.layoutId, env.caretCreated), env.owner.focused);
    } else if msg == WM_IME_COMPOSITION {
      CompositionKeepsValid(s, LoWord64(lParam), env);
    } else if msg == WM_IME_ENDCOMPOSITION {
      AppendNeutralKeepsValid(s, ImeFinishComposingText(false));
      var t := Reset(s.(effects := s.effects + [ImeFinishComposingText(false)]));
      if t.systemCaret {
        CaretAfterAppend(false, t.effects, [DestroyCaret]);
      }
    }
  }

  lemma CompositionKeepsValid(s: HandlerState, lParam: int32, env: Env)
    requires env.imc.WellFormed()
    requires Valid(s)
    ensures Valid(Composition(s, lParam, env).state)
  {
    var flags := AsUInt32(lParam);
    var result := GetResult(flags, env.imc);
    if result.0 {
      AppendNeutralKeepsValid(s, ImeCommitText(result.1, EndOfText, 0));
    } else {
      var composition := GetString(flags, GCS_COMPSTR, env.imc);
      if composition.0 {
        var cursor := CompositionCursor(flags, env.imc);
        var underlines := CompositionUnderlines(flags, env.imc, |composition.1|);
        var e := ImeSetComposition(composition.1, underlines, EndOfText, Range(cursor, cursor));
        AppendNeutralKeepsValid(s, e);
        MoveKeepsValid(s.(effects := s.effects + [e], cursorIndex := Wrap32(cursor as int - 1)), env.owner.focused);
      }
    }
  }

  lemma ChangeRangeKeepsValid(s: HandlerState, selectionRange: Range, bounds: seq<Rect>, focused: bool)
    requires Valid(s)
    ensures Valid(ChangeRange(s, selectionRange, bounds, focused).state)
  {
    MoveKeepsValid(s.(compositionRange := selectionRange, compositionBounds := bounds), focused);
  }

  // ---------------------------------------------------------------------
  // The handler object

  class ImeKeyboardHandler {
    var languageCodeId: int
    var systemCaret: bool
    var isDisposed: bool
    var isActive: bool
    var cursorIndex: int32
    var compositionRange: Range
    var compositionBounds: seq<Rect>
    var effects: seq<Effect>

    function State(): HandlerState
      reads this
    {
      HandlerState(languageCodeId, systemCaret, isDisposed, isActive, cursorIndex, compositionRange, compositionBounds, effects)
    }

    constructor ()
      ensures State() == Initial && Valid(State())
    {
      languageCodeId := 0;
      systemCaret := false;
      isDisposed := false;
      isActive := false;
      cursorIndex := 0;
      compositionRange := Range(0, 0);
      compositionBounds := [];
      effects := [];
    }

    method SourceHook(msg: int, wParam: int64, lParam: int64, handled: bool, env: Env)
      returns (result: HookResult, handled': bool)
      requires env.imc.WellFormed()
      requires Valid(State())
      modifies this
      ensures HookStep(State(), result, handled') == Hook(old(State()), msg, wParam, lParam, handled, env)
      ensures Valid(State())
    {
      HookKeepsValid(State(), msg, wParam, lParam, handled, env);
      handled' := handled;
      if handled || !env.owner.present || !env.owner.hasBrowserHost || env.owner.disposed || !isActive || isDisposed {
        return Returned(0), handled';
      }

      var thrown := false;
      if msg == WM_IME_SETCONTEXT {
        thrown := OnIMESetContext(msg, wParam, lParam, env);
        handled' := !thrown;
      } else if msg == WM_IME_STARTCOMPOSITION {
        thrown := OnIMEStartComposition(env);
        handled' := !thrown;
      } else if msg == WM_IME_COMPOSITION {
        thrown := OnIMEComposition(LoWord64(lParam), env);
        handled' := !thrown;
      } else if msg == WM_IME_ENDCOMPOSITION {
        OnIMEEndComposition();
        handled' := true;
      }

      if thrown {
        result := Threw;
      } else {
        result := if handled' then Returned(0) else Returned(1);
      }
    }

    method OwnerGotFocus()
      modifies this
      ensures State() == SetActive(old(State()), true)
    {
      isActive := true;
    }

    method OwnerLostFocus()
      modifies this
      ensures State() == SetActive(old(State()), false)
    {
      isActive := false;
    }

    method OnIMEComposition(lParam: int32, env: Env) returns (thrown: bool)
      requires env.imc.WellFormed()
      modifies this
      ensures Step(State(), thrown) == Composition(old(State()), lParam, env)
    {
      thrown := false;
      var result := GetResult(AsUInt32(lParam), env.imc);
      if result.0 {
        effects := effects + [ImeCommitText(result.1, EndOfText, 0)];
        return;
      }

      var ok, underlines, compositionStart, text := GetComposition(AsUInt32(lParam), env.imc, [], 0);
      if ok {
        effects := effects + [ImeSetComposition(text, underlines, EndOfText, Range(compositionStart, compositionStart))];
        thrown := UpdateCaretPosition(Wrap32(compositionStart as int - 1), env.owner.focused);
      }
    }

    method OnIMEEndComposition()
      modifies this
      ensures State() == EndComposition(old(State()))
    {
      effects := effects + [ImeFinishComposingText(false)];
      ResetComposition();
      DestroyImeWindow();
    }

    method OnIMESetContext(msg: int, wParam: int64, lParam: int64, env: Env) returns (thrown: bool)
      modifies this
      ensures Step(State(), thrown) == SetContext(old(State()), msg, wParam, lParam, env)
    {
      effects := effects + [DefWindowProc(msg, wParam, ClearShowUiComposition(lParam))];
      CreateImeWindow(env.layoutId, env.caretCreated);
      thrown := MoveImeWindow(env.owner.focused);
    }

    method OnIMEStartComposition(env: Env) returns (thrown: bool)
      modifies this
      ensures Step(State(), thrown) == StartComposition(old(State()), env)
    {
      CreateImeWindow(env.layoutId, env.caretCreated);
      thrown := MoveImeWindow(env.owner.focused);
      if !thrown {
        ResetComposition();
      }
    }

    method ResetComposition()
      modifies this
      ensures State() == Reset(old(State()))
    {
      cursorIndex := -1;
    }

    method CreateImeWindow(layoutId: int32, caretCreated: bool)
      modifies this
      ensures State() == CreateWindow(old(State()), layoutId, caretCreated)
    {
      languageCodeId := PrimaryLangId(layoutId);
      if languageCodeId == LANG_JAPANESE || languageCodeId == LANG_CHINESE {
        if !systemCaret {
          effects := effects + [CreateCaret(caretCreated)];
          if caretCreated {
            systemCaret := true;
          }
        }
      }
    }

    method MoveImeWindow(focused: bool) returns (thrown: bool)
      modifies this
      ensures Step(State(), thrown) == Move(old(State()), focused)
    {
      ghost var placement := PlacementOf(focused, cursorIndex, compositionRange, compositionBounds, languageCodeId, systemCaret);
      ghost var before := State();
      assert Move(before, focused) == Step(before.(effects := before.effects + PlacementEffects(placement)), placement.IndexOutOfRange?);
      thrown := false;
      if !focused {
        assert placement == Skipped;
        return;
      }

      var location := cursorIndex;
      if location == -1 {
        location := compositionRange.from;
      }
      if location >= compositionRange.from {
        location := Wrap32(location as int - compositionRange.from as int);
      }
      assert location == Location(cursorIndex, compositionRange.from);

      if location >= |compositionBounds| {
        assert placement == Skipped;
        return;
      } else if location < 0 {
        assert placement == IndexOutOfRange(location);
        thrown := true;
        return;
      }
      var rc := compositionBounds[location];

      // The Chinese composition-window call is disabled in the source: nothing is issued for it.

      var caretMove: seq<Effect> := [];
      if systemCaret {
        if languageCodeId == LANG_JAPANESE {
          var firstRc := compositionBounds[0];
          caretMove := [SetCaretPos(firstRc.x, Add32(firstRc.y, firstRc.height))];
        } else {
          caretMove := [SetCaretPos(rc.x, rc.y)];
        }
      }

      if languageCodeId == LANG_KOREAN {
        rc := Rect(rc.x, Add32(rc.y, 1), rc.width, rc.height);
      }

      var candidateForm := TagCandidateForm(0, CFS_EXCLUDE, TagPoint(rc.x, rc.y),
                                            TagRect(rc.x, rc.y, Add32(rc.x, rc.width), Add32(rc.y, rc.height)));
      assert caretMove + [ImmSetCandidateWindow(candidateForm)] == PlacementEffects(placement);
      effects := effects + (caretMove + [ImmSetCandidateWindow(candidateForm)]);
    }

    method DestroyImeWindow()
      modifies this
      ensures State() == DestroyWindow(old(State()))
    {
      if systemCaret {
        effects := effects + [DestroyCaret];
        systemCaret := false;
      }
    }

    method ChangeCompositionRange(selectionRange: Range, bounds: seq<Rect>, focused: bool) returns (thrown: bool)
      requires Valid(State())
      modifies this
      ensures Step(State(), thrown) == ChangeRange(old(State()), selectionRange, bounds, focused)
      ensures Valid(State())
    {
      ChangeRangeKeepsValid(State(), selectionRange, bounds, focused);
      compositionRange := selectionRange;
      compositionBounds := bounds;
      thrown := MoveImeWindow(focused);
    }

    method UpdateCaretPosition(index: int32, focused: bool) returns (thrown: bool)
      modifies this
      ensures Step(State(), thrown) == UpdateCaret(old(State()), index, focused)
    {
      cursorIndex := index;
      thrown := MoveImeWindow(focused);
    }
  }
}
