/**
  The composition decoder of Cef_Ime/IME/IMEHandler.cs: it reads the flag
  word of WM_IME_COMPOSITION and the buffers of ImmGetCompositionString and
  produces the result string, or the composition string with its underlines
  and caret position.
 */
module ImeHandler {
  import opened Native
  import opened Cef

  const ColorUnderline: uint32 := 0xFFFF_FFFF
  const ColorBkColor: uint32 := 0xFF00_0000

  /**
    What ImmGetCompositionString reports for the input context: the bytes
    of each buffer kind, and the value it returns for GCS_CURSORPOS read as
    a signed Int32.
   */
  datatype CompositionString = CompositionString(
    resultStr: seq<uint8>,
    compStr: seq<uint8>,
    compAttr: seq<uint8>,
    compClause: seq<uint8>,
    cursorPos: int32)
  {
    /** Strings come as whole UTF-16 code units, and no buffer reaches 2^31 bytes. */
    predicate WellFormed()
    {
      && |resultStr| % 2 == 0 && |compStr| % 2 == 0
      && |resultStr| < 0x8000_0000 && |compStr| < 0x8000_0000
      && |compAttr| < 0x8000_0000 && |compClause| < 0x8000_0000
    }

    /** The bytes reported for one of the two string kinds. */
    function StringBytes(kind: bv32): seq<uint8>
      requires kind == GCS_RESULTSTR || kind == GCS_COMPSTR
    {
      if kind == GCS_RESULTSTR then resultStr else compStr
    }
  }

  // ---------------------------------------------------------------------
  // Flag tests

  /** All bits of `kind` are set in `lParam`. */
  predicate IsParam(lParam: bv32, kind: bv32)
  {
    lParam & kind == kind
  }

  /** When IsParam holds, every bit of `kind` is set in `lParam`: none is missing. */
  lemma IsParamHasEveryBit(lParam: bv32, kind: bv32, i: nat)
    requires IsParam(lParam, kind)
    requires i < 32 && (kind >> i) & 1 == 1
    ensures (lParam >> i) & 1 == 1
    ensures kind & !lParam == 0
  {
  }

  /** Conversely, when no bit of `kind` is missing from `lParam`, IsParam holds; so it holds of every word for kind 0. */
  lemma NoMissingBitIsParam(lParam: bv32, kind: bv32)
    requires kind & !lParam == 0
    ensures IsParam(lParam, kind)
    ensures IsParam(lParam, 0)
  {
  }

  predicate IsSelectionAttribute(attribute: uint8)
  {
    attribute == ATTR_TARGET_CONVERTED || attribute == ATTR_TARGET_NOTCONVERTED
  }

  // ---------------------------------------------------------------------
  // Strings: UTF-16LE decoding

  function CodeUnit(lo: uint8, hi: uint8): uint16
  {
    lo + 0x100 * hi
  }

  /** Encoding.Unicode.GetString on an even number of bytes. */
  function DecodeUtf16Le(bytes: seq<uint8>): (units: seq<uint16>)
    requires |bytes| % 2 == 0
    ensures |units| == |bytes| / 2
    ensures forall i :: 0 <= i < |units| ==> units[i] == CodeUnit(bytes[2 * i], bytes[2 * i + 1])
    decreases |bytes|
  {
    if |bytes| == 0 then [] else [CodeUnit(bytes[0], bytes[1])] + DecodeUtf16Le(bytes[2..])
  }

  /** The inverse direction: the little-endian bytes of a code-unit string. */
  function EncodeUtf16Le(units: seq<uint16>): (bytes: seq<uint8>)
    ensures |bytes| == 2 * |units|
    ensures forall i :: 0 <= i < |units| ==> bytes[2 * i] == units[i] % 0x100 && bytes[2 * i + 1] == units[i] / 0x100
  {
    if units == [] then [] else [units[0] % 0x100, units[0] / 0x100] + EncodeUtf16Le(units[1..])
  }

  lemma DecodeEncode(units: seq<uint16>)
    ensures DecodeUtf16Le(EncodeUtf16Le(units)) == units
  {
    var d := DecodeUtf16Le(EncodeUtf16Le(units));
    assert forall i | 0 <= i < |units| :: d[i] == units[i];
  }

  lemma CodeUnitSplit(lo: uint8, hi: uint8)
    ensures CodeUnit(lo, hi) % 0x100 == lo && CodeUnit(lo, hi) / 0x100 == hi
  {
  }

  lemma {:induction false} EncodeDecode(bytes: seq<uint8>)
    requires |bytes| % 2 == 0
    ensures EncodeUtf16Le(DecodeUtf16Le(bytes)) == bytes
    decreases |bytes|
  {
    if |bytes| > 0 {
      var units := DecodeUtf16Le(bytes);
      assert units == [CodeUnit(bytes[0], bytes[1])] + DecodeUtf16Le(bytes[2..]);
      assert units[1..] == DecodeUtf16Le(bytes[2..]);
      CodeUnitSplit(bytes[0], bytes[1]);
      EncodeDecode(bytes[2..]);
      assert bytes == [bytes[0], bytes[1]] + bytes[2..];
    }
  }

  /**
    GetString: absent when the flag bit is missing or the reported length is
    zero; otherwise the reported bytes are read into a buffer two bytes longer
    (a zero terminator), decoded, and the last code unit is removed.
   */
  function GetString(lParam: bv32, kind: bv32, imc: CompositionString): (r: (bool, seq<uint16>))
    requires kind == GCS_RESULTSTR || kind == GCS_COMPSTR
    requires imc.WellFormed()
    ensures r.0 <==> IsParam(lParam, kind) && |imc.StringBytes(kind)| > 0
    ensures !r.0 ==> r.1 == []
    ensures r.0 ==> r.1 == DecodeUtf16Le(imc.StringBytes(kind)) && |r.1| == |imc.StringBytes(kind)| / 2
  {
    if !IsParam(lParam, kind) then (false, [])
    else
      var reported := imc.StringBytes(kind);
      if |reported| == 0 then (false, [])
      else
        var buffer := reported + [0, 0];
        var decoded := DecodeUtf16Le(buffer);
        assert decoded[..|decoded| - 1] == DecodeUtf16Le(reported);
        (true, decoded[..|decoded| - 1])
  }

  function GetResult(lParam: bv32, imc: CompositionString): (r: (bool, seq<uint16>))
    requires imc.WellFormed()
    ensures r.0 <==> IsParam(lParam, GCS_RESULTSTR) && |imc.resultStr| > 0
    ensures r.0 ==> r.1 == DecodeUtf16Le(imc.resultStr)
    ensures !r.0 ==> r.1 == []
  {
    GetString(lParam, GCS_RESULTSTR, imc)
  }

  /** GetResult looks at no buffer but the result string. */
  lemma GetResultReadsOnlyResult(lParam: bv32, a: CompositionString, b: CompositionString)
    requires a.WellFormed() && b.WellFormed()
    requires a.resultStr == b.resultStr
    ensures GetResult(lParam, a) == GetResult(lParam, b)
  {
  }

  // ---------------------------------------------------------------------
  // Target (selected) run of the attribute bytes

  /** The first index at or after `i` whose byte is not (`selected`) a target byte. */
  function SkipWhile(attr: seq<uint8>, i: nat, selected: bool): (j: nat)
    requires i <= |attr|
    ensures i <= j <= |attr|
    ensures forall k :: i <= k < j ==> IsSelectionAttribute(attr[k]) == selected
    ensures j == |attr| || IsSelectionAttribute(attr[j]) != selected
    decreases |attr| - i
  {
    if i == |attr| || IsSelectionAttribute(attr[i]) != selected then i
    else SkipWhile(attr, i + 1, selected)
  }

  /** The run GetCompositionSelectionRange's two scans find. */
  function ScanTargetRange(attr: seq<uint8>): (r: Range)
    requires |attr| < 0x8000_0000
    ensures 0 <= r.from <= r.to <= |attr|
    ensures forall k :: 0 <= k < r.from ==> !IsSelectionAttribute(attr[k])
    ensures forall k :: r.from <= k < r.to ==> IsSelectionAttribute(attr[k])
    ensures r.to == |attr| || !IsSelectionAttribute(attr[r.to])
    ensures r.from == r.to ==> r.from == |attr|
    ensures (forall k :: 0 <= k < |attr| ==> !IsSelectionAttribute(attr[k])) ==> r == Range(|attr|, |attr|)
  {
    var start := SkipWhile(attr, 0, false);
    Range(start, SkipWhile(attr, start, true))
  }

  /** A single run of target bytes on [a, b) is found exactly. */
  lemma SingleRunIsTarget(attr: seq<uint8>, a: nat, b: nat)
    requires a < b <= |attr| < 0x8000_0000
    requires forall k :: 0 <= k < |attr| ==> (IsSelectionAttribute(attr[k]) <==> a <= k < b)
    ensures ScanTargetRange(attr) == Range(a, b)
  {
    var r := ScanTargetRange(attr);
    assert IsSelectionAttribute(attr[a]);
    assert r.from < |attr| ==> IsSelectionAttribute(attr[r.from]);
    assert b < |attr| ==> !IsSelectionAttribute(attr[b]);
  }

  method GetCompositionSelectionRange(imc: CompositionString, targetStart: int32, targetEnd: int32)
    returns (start': int32, end': int32)
    requires imc.WellFormed()
    ensures |imc.compAttr| > 0 ==> Range(start', end') == ScanTargetRange(imc.compAttr)
    ensures |imc.compAttr| == 0 ==> start' == targetStart && end' == targetEnd
  {
    start', end' := targetStart, targetEnd;
    var attributeData := imc.compAttr;
    var attributeSize := |attributeData|;
    if attributeSize > 0 {
      var start := 0;
      while start < attributeSize
        invariant 0 <= start <= attributeSize
        invariant forall k :: 0 <= k < start ==> !IsSelectionAttribute(attributeData[k])
      {
        if IsSelectionAttribute(attributeData[start]) {
          break;
        }
        start := start + 1;
      }
      var end := start;
      while end < attributeSize
        invariant start <= end <= attributeSize
        invariant forall k :: start <= k < end ==> IsSelectionAttribute(attributeData[k])
      {
        if !IsSelectionAttribute(attributeData[end]) {
          break;
        }
        end := end + 1;
      }
      start', end' := start, end;
    }
  }

  // ---------------------------------------------------------------------
  // Clause underlines

  function LeValue(b0: uint8, b1: uint8, b2: uint8, b3: uint8): int
  {
    b0 as int + 0x100 * b1 as int + 0x1_0000 * b2 as int + 0x100_0000 * b3 as int
  }

  /** BitConverter.ToInt32 on a little-endian machine. */
  function Int32Le(bytes: seq<uint8>, offset: nat): (r: int32)
    requires offset + 4 <= |bytes|
    ensures bytes[offset + 3] < 0x80 ==> r == LeValue(bytes[offset], bytes[offset + 1], bytes[offset + 2], bytes[offset + 3])
    ensures bytes[offset + 3] >= 0x80 ==> r == LeValue(bytes[offset], bytes[offset + 1], bytes[offset + 2], bytes[offset + 3]) - 0x1_0000_0000
  {
    Wrap32(LeValue(bytes[offset], bytes[offset + 1], bytes[offset + 2], bytes[offset + 3]))
  }

  /** The inverse direction: the four little-endian bytes of an Int32. */
  function Int32ToLe(v: int32): (bytes: seq<uint8>)
    ensures |bytes| == 4
  {
    var u := if v < 0 then v + 0x1_0000_0000 else v;
    [u % 0x100, (u / 0x100) % 0x100, (u / 0x1_0000) % 0x100, u / 0x100_0000]
  }

  lemma Int32LeRoundTrip(v: int32, prefix: seq<uint8>, suffix: seq<uint8>)
    ensures Int32Le(prefix + Int32ToLe(v) + suffix, |prefix|) == v
  {
    var bytes := prefix + Int32ToLe(v) + suffix;
    var u := if v < 0 then v + 0x1_0000_0000 else v;
    var n := |prefix|;
    assert bytes[n..n + 4] == Int32ToLe(v);
    assert LeValue(bytes[n], bytes[n + 1], bytes[n + 2], bytes[n + 3]) == u;
  }

  /** The clause boundaries of a clause buffer, one per whole Int32. */
  function ClauseCount(clause: seq<uint8>): nat
  {
    |clause| / 4
  }

  /** The underline GetCompositionUnderlines makes of boundary pair i. */
  function ClauseUnderline(clause: seq<uint8>, i: nat, targetStart: int32, targetEnd: int32): CompositionUnderline
    requires 4 * i + 8 <= |clause|
  {
    var range := Range(Int32Le(clause, 4 * i), Int32Le(clause, 4 * i + 4));
    CompositionUnderline(range, ColorUnderline, ColorBkColor, range.from >= targetStart && range.to <= targetEnd)
  }

  /**
    One underline per adjacent pair of boundaries, the last boundary only
    closing the last pair: ClauseCount - 1 underlines, each ending where the
    next begins, thick exactly when it lies inside the target range.
   */
  function ClauseUnderlines(clause: seq<uint8>, targetStart: int32, targetEnd: int32): (r: seq<CompositionUnderline>)
    ensures |r| == if ClauseCount(clause) > 0 then ClauseCount(clause) - 1 else 0
    ensures forall i :: 0 <= i < |r| ==> r[i].range == Range(Int32Le(clause, 4 * i), Int32Le(clause, 4 * i + 4))
    ensures forall i :: 0 <= i < |r| ==> (r[i].thick <==> r[i].range.from >= targetStart && r[i].range.to <= targetEnd)
    ensures forall i :: 0 <= i < |r| ==> r[i].color == ColorUnderline && r[i].backgroundColor == ColorBkColor
    ensures forall i :: 0 <= i < |r| - 1 ==> r[i].range.to == r[i + 1].range.from
  {
    var k := ClauseCount(clause);
    if k > 0 then seq(k - 1, i requires 0 <= i < k - 1 => ClauseUnderline(clause, i, targetStart, targetEnd))
    else []
  }

  /**
    A clause buffer holding the boundaries 0, 2, 4, 7, with the target on
    the middle clause, gives three underlines, (0, 2), (2, 4) and (4, 7),
    and only (2, 4) is thick. The example is stated over the boundaries as
    `Int32Le` decodes them, not over a literal byte buffer.
   */
  lemma ThreeClauseExample(clause: seq<uint8>)
    requires |clause| == 16
    requires Int32Le(clause, 0) == 0 && Int32Le(clause, 4) == 2 && Int32Le(clause, 8) == 4 && Int32Le(clause, 12) == 7
    ensures var r := ClauseUnderlines(clause, 2, 4);
      && |r| == 3
      && r[0].range == Range(0, 2) && !r[0].thick
      && r[1].range == Range(2, 4) && r[1].thick
      && r[2].range == Range(4, 7) && !r[2].thick
  {
  }

  method GetCompositionUnderlines(imc: CompositionString, targetStart: int32, targetEnd: int32,
                                  underlines: seq<CompositionUnderline>)
    returns (result: seq<CompositionUnderline>)
    requires imc.WellFormed()
    ensures result == underlines + ClauseUnderlines(imc.compClause, targetStart, targetEnd)
  {
    result := underlines;
    var clauseData := imc.compClause;
    var clauseLength := |clauseData| / 4;
    if clauseLength > 0 {
      ghost var all := ClauseUnderlines(clauseData, targetStart, targetEnd);
      for i := 0 to clauseLength - 1
        invariant result == underlines + all[..i]
      {
        var from := Int32Le(clauseData, i * 4);
        var to := Int32Le(clauseData, (i + 1) * 4);
        var range := Range(from, to);
        var thick := range.from >= targetStart && range.to <= targetEnd;
        result := result + [CompositionUnderline(range, ColorUnderline, ColorBkColor, thick)];
        assert all[..i + 1] == all[..i] + [all[i]];
      }
      assert all[..clauseLength - 1] == all;
    }
  }

  // ---------------------------------------------------------------------
  // The fallback underline

  /**
    The one underline added when no clause underline was made: its range is
    overwritten by each applicable candidate in turn, so the last applicable
    one wins, while `thick` is set by the middle candidate only.
   */
  function FallbackUnderline(targetStart: int32, targetEnd: int32, length: int32): (u: CompositionUnderline)
    ensures u.thick <==> targetEnd > targetStart
    ensures targetEnd < length ==> u.range == Range(targetEnd, length)
    ensures targetEnd >= length && targetEnd > targetStart ==> u.range == Range(targetStart, targetEnd)
    ensures u.color == ColorUnderline && u.backgroundColor == ColorBkColor
  {
    var r0 := Range(0, 0);
    var r1 := if targetStart > 0 then Range(0, targetStart) else r0;
    var r2 := if targetEnd > targetStart then Range(targetStart, targetEnd) else r1;
    var r3 := if targetEnd < length then Range(targetEnd, length) else r2;
    CompositionUnderline(r3, ColorUnderline, ColorBkColor, targetEnd > targetStart)
  }

  /** The three-way split of the text around the target: the leading, target and trailing ranges that are not empty. */
  function FallbackSegments(targetStart: int32, targetEnd: int32, length: int32): seq<Range>
  {
    (if targetStart > 0 then [Range(0, targetStart)] else [])
    + (if targetEnd > targetStart then [Range(targetStart, targetEnd)] else [])
    + (if targetEnd < length then [Range(targetEnd, length)] else [])
  }

  /** With the target inside the text, the three-way split tiles [0, length) with no gap or overlap. */
  lemma FallbackSegmentsTile(targetStart: int32, targetEnd: int32, length: int32)
    requires 0 <= targetStart <= targetEnd <= length
    ensures var s := FallbackSegments(targetStart, targetEnd, length);
      && (length == 0 <==> s == [])
      && (s != [] ==> s[0].from == 0 && s[|s| - 1].to == length)
      && (forall i :: 0 <= i < |s| ==> s[i].from < s[i].to)
      && (forall i :: 0 <= i < |s| - 1 ==> s[i].to == s[i + 1].from)
  {
  }

  /**
    The fallback underline is the LAST range of the three-way split (or
    (0, 0) when the split is empty), thick exactly when the target is not
    empty, whichever range was chosen.
   */
  lemma FallbackIsLastSegment(targetStart: int32, targetEnd: int32, length: int32)
    ensures var u := FallbackUnderline(targetStart, targetEnd, length);
      var s := FallbackSegments(targetStart, targetEnd, length);
      && u.range == (if s == [] then Range(0, 0) else s[|s| - 1])
      && (u.thick <==> targetEnd > targetStart)
      && u.color == ColorUnderline && u.backgroundColor == ColorBkColor
  {
  }

  /** With a target in the middle of the text only the trailing range is underlined, and it is marked thick. */
  lemma FallbackKeepsOnlyTrailingRange()
    ensures |FallbackSegments(1, 2, 3)| == 3
    ensures FallbackUnderline(1, 2, 3) == CompositionUnderline(Range(2, 3), ColorUnderline, ColorBkColor, true)
  {
  }

  // ---------------------------------------------------------------------
  // Composition information

  /** The target range: the attribute scan when GCS_COMPATTR is set and there are attribute bytes, else (length, length). */
  function CompositionTarget(lParam: bv32, imc: CompositionString, length: int32): (r: Range)
    requires imc.WellFormed()
    ensures r.from <= r.to
    ensures !IsParam(lParam, GCS_COMPATTR) || |imc.compAttr| == 0 ==> r == Range(length, length)
    ensures IsParam(lParam, GCS_COMPATTR) && |imc.compAttr| > 0 ==> r == ScanTargetRange(imc.compAttr)
    ensures IsParam(lParam, GCS_COMPATTR) && |imc.compAttr| > 0 ==> 0 <= r.from <= r.to <= |imc.compAttr|
  {
    if IsParam(lParam, GCS_COMPATTR) && |imc.compAttr| > 0 then ScanTargetRange(imc.compAttr)
    else Range(length, length)
  }

  /** The caret: the GCS_CURSORPOS value when that bit is set and CS_NOMOVECARET is not, else 0. */
  function CompositionCursor(lParam: bv32, imc: CompositionString): (r: int32)
    ensures !IsParam(lParam, CS_NOMOVECARET) && IsParam(lParam, GCS_CURSORPOS) ==> r == imc.cursorPos
    ensures IsParam(lParam, CS_NOMOVECARET) || !IsParam(lParam, GCS_CURSORPOS) ==> r == 0
  {
    if !IsParam(lParam, CS_NOMOVECARET) && IsParam(lParam, GCS_CURSORPOS) then imc.cursorPos else 0
  }

  /** The underlines GetCompositionInfo leaves in the (cleared) list: never empty, all in the two fixed colours. */
  function CompositionUnderlines(lParam: bv32, imc: CompositionString, length: int32): (r: seq<CompositionUnderline>)
    requires imc.WellFormed()
    ensures |r| >= 1
    ensures forall i :: 0 <= i < |r| ==> r[i].color == ColorUnderline && r[i].backgroundColor == ColorBkColor
  {
    var target := CompositionTarget(lParam, imc, length);
    var clauses := if IsParam(lParam, GCS_COMPCLAUSE) then ClauseUnderlines(imc.compClause, target.from, target.to) else [];
    if |clauses| < 1 then [FallbackUnderline(target.from, target.to, length)] else clauses
  }

  /** Clause underlines are used whenever there are at least two clause boundaries; otherwise exactly one fallback underline. */
  lemma CompositionUnderlinesCases(lParam: bv32, imc: CompositionString, length: int32)
    requires imc.WellFormed()
    ensures var target := CompositionTarget(lParam, imc, length);
      var r := CompositionUnderlines(lParam, imc, length);
      if IsParam(lParam, GCS_COMPCLAUSE) && ClauseCount(imc.compClause) >= 2
      then r == ClauseUnderlines(imc.compClause, target.from, target.to)
      else r == [FallbackUnderline(target.from, target.to, length)]
  {
  }

  method GetCompositionInfo(lParam: bv32, imc: CompositionString, text: seq<uint16>,
                            underlines: seq<CompositionUnderline>, compositionStart: int32)
    returns (underlines': seq<CompositionUnderline>, compositionStart': int32)
    requires imc.WellFormed()
    requires |text| < 0x8000_0000
    ensures underlines' == CompositionUnderlines(lParam, imc, |text|)
    ensures compositionStart' == CompositionCursor(lParam, imc)
  {
    underlines' := [];
    var targetStart: int32 := |text|;
    var targetEnd: int32 := |text|;
    if IsParam(lParam, GCS_COMPATTR) {
      targetStart, targetEnd := GetCompositionSelectionRange(imc, targetStart, targetEnd);
    }

    if !IsParam(lParam, CS_NOMOVECARET) && IsParam(lParam, GCS_CURSORPOS) {
      compositionStart' := imc.cursorPos;
    } else {
      compositionStart' := 0;
    }

    if IsParam(lParam, GCS_COMPCLAUSE) {
      underlines' := GetCompositionUnderlines(imc, targetStart, targetEnd, underlines');
    }

    if |underlines'| < 1 {
      var range := Range(0, 0);
      var thick := false;
      if targetStart > 0 {
        range := Range(0, targetStart);
      }
      if targetEnd > targetStart {
        range := Range(targetStart, targetEnd);
        thick := true;
      }
      if targetEnd < |text| {
        range := Range(targetEnd, |text|);
      }
      underlines' := underlines' + [CompositionUnderline(range, ColorUnderline, ColorBkColor, thick)];
    }
  }

  /**
    GetComposition: on success the text is the decoded composition string and
    the list and caret are those of GetCompositionInfo; on failure both are
    left as the caller passed them.
   */
  method GetComposition(lParam: bv32, imc: CompositionString,
                        underlines: seq<CompositionUnderline>, compositionStart: int32)
    returns (ok: bool, underlines': seq<CompositionUnderline>, compositionStart': int32, text: seq<uint16>)
    requires imc.WellFormed()
    ensures (ok, text) == GetString(lParam, GCS_COMPSTR, imc)
    ensures ok <==> IsParam(lParam, GCS_COMPSTR) && |imc.compStr| > 0
    ensures ok ==> text == DecodeUtf16Le(imc.compStr)
    ensures ok ==> underlines' == CompositionUnderlines(lParam, imc, |text|) && compositionStart' == CompositionCursor(lParam, imc)
    ensures !ok ==> text == [] && underlines' == underlines && compositionStart' == compositionStart
  {
    var found := GetString(lParam, GCS_COMPSTR, imc);
    ok, text := found.0, found.1;
    underlines', compositionStart' := underlines, compositionStart;
    if ok {
      underlines', compositionStart' := GetCompositionInfo(lParam, imc, text, underlines, compositionStart);
    }
  }
}
