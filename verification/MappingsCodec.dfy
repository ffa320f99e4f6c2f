/** A reference encoder for the "mappings" string (ECMA-426, "Mappings Structure") and the
    round trip through the decoder. */
module MappingsCodec {
  import opened JsNumbers
  import opened Vlq
  import opened MappingRows
  import opened MappingsDecoder
  import opened MappingsOrder
  import opened Wrappers

  /** A segment with absolute positions: one, four or five fields. */
  datatype Segment =
    | Generated(col: int)
    | Original(col: int, source: int, line: int, origColumn: int)
    | Named(col: int, source: int, line: int, origColumn: int, name: int)
  {
    function Fields(): int {
      match this
      case Generated(_) => 1
      case Original(_, _, _, _) => 4
      case Named(_, _, _, _, _) => 5
    }

    /** The values the next deltas are taken from. */
    function After(regs: Registers): Registers {
      match this
      case Generated(c) => regs.(column := c)
      case Original(c, s, l, o) => regs.(column := c, source := s, line := l, origColumn := o)
      case Named(c, s, l, o, m) => Registers(c, s, l, o, m)
    }

    /** The row of the segment on generated line `genLine`. */
    function ToRow(genLine: nat): Row {
      match this
      case Generated(c) => Row(ToInt32(genLine), ToInt32(c), -1, -1, -1, -1)
      case Original(c, s, l, o) => Row(ToInt32(genLine), ToInt32(c), ToInt32(s), ToInt32(l), ToInt32(o), -1)
      case Named(c, s, l, o, m) => Row(ToInt32(genLine), ToInt32(c), ToInt32(s), ToInt32(l), ToInt32(o), ToInt32(m))
    }
  }

  /** A value that can follow `previous`: not negative, and a delta the VLQ can carry. */
  predicate FieldOk(previous: int, value: int) {
    0 <= value && -0x4000_0000 < value - previous < 0x4000_0000
  }

  predicate SegmentOk(regs: Registers, seg: Segment, n: int) {
    && FieldOk(regs.column, seg.col) && seg.col < TWO_31
    && (!seg.Generated? ==>
          && FieldOk(regs.source, seg.source) && seg.source < n
          && FieldOk(regs.line, seg.line)
          && FieldOk(regs.origColumn, seg.origColumn))
    && (seg.Named? ==> FieldOk(regs.name, seg.name))
  }

  function AfterLine(regs: Registers, segs: seq<Segment>): Registers
    decreases |segs|
  {
    if segs == [] then regs else AfterLine(segs[0].After(regs), segs[1..])
  }

  predicate LineOk(regs: Registers, segs: seq<Segment>, n: int)
    decreases |segs|
  {
    segs == [] || (SegmentOk(regs, segs[0], n) && LineOk(segs[0].After(regs), segs[1..], n))
  }

  predicate LinesOk(regs: Registers, lines: seq<seq<Segment>>, n: int)
    decreases |lines|
  {
    lines == [] || (LineOk(regs, lines[0], n) && LinesOk(AfterLine(regs, lines[0]).(column := 0), lines[1..], n))
  }

  // ----- the encoder

  function EncodePosition(regs: Registers, seg: Segment): (r: seq<CodeUnit>)
    requires !seg.Generated?
    ensures |r| >= 1 && r[0] != COMMA && r[0] != SEMICOLON
  {
    Encode(seg.source - regs.source) + Encode(seg.line - regs.line) + Encode(seg.origColumn - regs.origColumn)
  }

  function EncodeName(regs: Registers, seg: Segment): (r: seq<CodeUnit>)
    ensures !seg.Named? ==> r == []
    ensures seg.Named? ==> |r| >= 1 && r[0] != COMMA && r[0] != SEMICOLON
  {
    if seg.Named? then Encode(seg.name - regs.name) else []
  }

  function EncodeSegment(regs: Registers, seg: Segment): (r: seq<CodeUnit>)
    ensures |r| >= 1 && r[0] != COMMA && r[0] != SEMICOLON
  {
    if seg.Generated? then Encode(seg.col - regs.column)
    else Encode(seg.col - regs.column) + EncodePosition(regs, seg) + EncodeName(regs, seg)
  }

  /** The segments of a line, separated by commas. */
  function EncodeLine(regs: Registers, segs: seq<Segment>): seq<CodeUnit>
    decreases |segs|
  {
    if segs == [] then []
    else if |segs| == 1 then EncodeSegment(regs, segs[0])
    else EncodeSegment(regs, segs[0]) + [COMMA] + EncodeLine(segs[0].After(regs), segs[1..])
  }

  /** The lines, separated by semicolons; an empty last line closes the one before it. */
  function EncodeLines(regs: Registers, lines: seq<seq<Segment>>): seq<CodeUnit>
    decreases |lines|
  {
    if lines == [] then []
    else if |lines| == 1 then EncodeLine(regs, lines[0])
    else EncodeLine(regs, lines[0]) + [SEMICOLON] + EncodeLines(AfterLine(regs, lines[0]).(column := 0), lines[1..])
  }

  function LineRows(genLine: nat, segs: seq<Segment>): (rows: seq<Row>)
    ensures |rows| == |segs|
  {
    seq(|segs|, k requires 0 <= k < |segs| => segs[k].ToRow(genLine))
  }

  function TableRows(genLine: nat, lines: seq<seq<Segment>>): (rows: seq<seq<Row>>)
    ensures |rows| == |lines|
    decreases |lines|
  {
    if lines == [] then [] else [LineRows(genLine, lines[0])] + TableRows(genLine + 1, lines[1..])
  }

  // ----- decoding what was encoded

  lemma {:induction false} FieldDecodes(s: seq<CodeUnit>, i: nat, previous: int, value: int, rest: seq<CodeUnit>, text: ErrorText)
    requires FieldOk(previous, value)
    requires i <= |s| && s[i..] == Encode(value - previous) + rest
    ensures var next := i + |Encode(value - previous)|;
            && next <= |s| && s[next..] == rest
            && ReadField(s, i, previous, text) == Success(Reading(value, next))
  {
    hide DecodeAt, Encode;
    RoundTrip(value - previous, s, i, rest);
  }

  ghost predicate AtEnd(rest: seq<CodeUnit>) {
    rest == [] || rest[0] == COMMA || rest[0] == SEMICOLON
  }

  lemma {:induction false} AtEndSeparates(s: seq<CodeUnit>, i: nat, rest: seq<CodeUnit>)
    requires i <= |s| && s[i..] == rest
    ensures AtSeparator(s, i) <==> AtEnd(rest)
    ensures rest != [] && rest[0] != COMMA && rest[0] != SEMICOLON ==> !AtEnd(rest)
  {
    if rest != [] {
      assert s[i] == rest[0];
    }
  }

  /** The three fields that locate the original position stand at `i`, and end at `i4`. */
  ghost predicate PositionRead(s: seq<CodeUnit>, i: nat, regs: Registers, seg: Segment, i4: nat)
    requires !seg.Generated?
  {
    exists i2, i3 ::
      && ReadField(s, i, regs.source, InvalidOriginalSource) == Success(Reading(seg.source, i2))
      && ReadField(s, i2, regs.line, InvalidOriginalLine) == Success(Reading(seg.line, i3))
      && ReadField(s, i3, regs.origColumn, InvalidOriginalColumn) == Success(Reading(seg.origColumn, i4))
  }

  lemma {:induction false} PositionDecodes(s: seq<CodeUnit>, i: nat, regs: Registers, seg: Segment, rest: seq<CodeUnit>)
    requires !seg.Generated? && FieldOk(regs.source, seg.source)
    requires FieldOk(regs.line, seg.line) && FieldOk(regs.origColumn, seg.origColumn)
    requires i <= |s| && s[i..] == EncodePosition(regs, seg) + rest
    ensures var i4 := i + |EncodePosition(regs, seg)|;
            i4 <= |s| && s[i4..] == rest && PositionRead(s, i, regs, seg, i4)
  {
    hide ReadField, Encode, FieldOk;
    var e2, e3, e4 := Encode(seg.source - regs.source), Encode(seg.line - regs.line),
      Encode(seg.origColumn - regs.origColumn);
    assert EncodePosition(regs, seg) + rest == e2 + (e3 + (e4 + rest));
    FieldDecodes(s, i, regs.source, seg.source, e3 + (e4 + rest), InvalidOriginalSource);
    FieldDecodes(s, i + |e2|, regs.line, seg.line, e4 + rest, InvalidOriginalLine);
    FieldDecodes(s, i + |e2| + |e3|, regs.origColumn, seg.origColumn, rest, InvalidOriginalColumn);
  }

  lemma {:induction false} GeneratedDecodes(s: seq<CodeUnit>, n: int, i: nat, regs: Registers, seg: Segment, rest: seq<CodeUnit>)
    requires FieldOk(regs.column, seg.col) && AtEnd(rest) && seg.Generated?
    requires i <= |s| && s[i..] == EncodeSegment(regs, seg) + rest
    ensures var next := i + |EncodeSegment(regs, seg)|;
            && next <= |s| && s[next..] == rest
            && SegmentAt(s, n, i, regs) == Success(Scanned(1, seg.After(regs), SkipComma(s, next)))
  {
    hide ReadField, Encode;
    FieldDecodes(s, i, regs.column, seg.col, rest, InvalidGeneratedColumn);
    AtEndSeparates(s, i + |EncodeSegment(regs, seg)|, rest);
  }

  /** The fields of a segment with an original position, read one by one up to its name. */
  lemma {:induction false} ColumnAndPositionDecode(s: seq<CodeUnit>, n: int, i: nat, regs: Registers, seg: Segment, rest: seq<CodeUnit>)
    requires SegmentOk(regs, seg, n) && !seg.Generated?
    requires i <= |s| && s[i..] == EncodeSegment(regs, seg) + rest
    ensures var i1 := i + |Encode(seg.col - regs.column)|;
            var i4 := i1 + |EncodePosition(regs, seg)|;
            && i4 <= |s| && s[i4..] == EncodeName(regs, seg) + rest && i + |EncodeSegment(regs, seg)| == i4 + |EncodeName(regs, seg)|
            && ReadField(s, i, regs.column, InvalidGeneratedColumn) == Success(Reading(seg.col, i1))
            && !AtSeparator(s, i1)
            && PositionRead(s, i1, regs, seg, i4)
  {
    hide ReadField, Encode, EncodePosition, EncodeName, AtSeparator, SegmentAt, AtEnd, PositionRead, FieldOk;
    var e1, tail := Encode(seg.col - regs.column), EncodeName(regs, seg) + rest;
    assert s[i..] == e1 + (EncodePosition(regs, seg) + tail);
    FieldDecodes(s, i, regs.column, seg.col, EncodePosition(regs, seg) + tail, InvalidGeneratedColumn);
    AtEndSeparates(s, i + |e1|, EncodePosition(regs, seg) + tail);
    PositionDecodes(s, i + |e1|, regs, seg, tail);
  }

  /** The name, if there is one, and the separator or the end behind it. */
  lemma {:induction false} NameDecodes(s: seq<CodeUnit>, i: nat, regs: Registers, seg: Segment, rest: seq<CodeUnit>)
    requires !seg.Generated? && (seg.Named? ==> FieldOk(regs.name, seg.name)) && AtEnd(rest)
    requires i <= |s| && s[i..] == EncodeName(regs, seg) + rest
    ensures var end := i + |EncodeName(regs, seg)|;
            && end <= |s| && s[end..] == rest && AtSeparator(s, end)
            && (if seg.Named? then !AtSeparator(s, i) && ReadField(s, i, regs.name, InvalidOriginalName) == Success(Reading(seg.name, end))
                else end == i)
  {
    hide ReadField, Encode, AtSeparator, AtEnd, FieldOk;
    AtEndSeparates(s, i, EncodeName(regs, seg) + rest);
    if seg.Named? {
      FieldDecodes(s, i, regs.name, seg.name, rest, InvalidOriginalName);
      AtEndSeparates(s, i + |EncodeName(regs, seg)|, rest);
    } else {
      assert EncodeName(regs, seg) + rest == rest;
    }
  }

  lemma {:induction false} SegmentDecodes(s: seq<CodeUnit>, n: int, i: nat, regs: Registers, seg: Segment, rest: seq<CodeUnit>)
    requires SegmentOk(regs, seg, n) && AtEnd(rest)
    requires i <= |s| && s[i..] == EncodeSegment(regs, seg) + rest
    ensures var next := i + |EncodeSegment(regs, seg)|;
            && next <= |s| && s[next..] == rest
            && SegmentAt(s, n, i, regs) == Success(Scanned(seg.Fields(), seg.After(regs), SkipComma(s, next)))
  {
    hide ReadField, Encode, EncodePosition, EncodeSegment, EncodeName, FieldOk, AtSeparator, AtEnd, SkipComma;
    if seg.Generated? {
      GeneratedDecodes(s, n, i, regs, seg, rest);
    } else {
      ColumnAndPositionDecode(s, n, i, regs, seg, rest);
      NameDecodes(s, i + |Encode(seg.col - regs.column)| + |EncodePosition(regs, seg)|, regs, seg, rest);
    }
  }

  /** Reading an encoded segment adds its row and moves past the comma after it. */
  lemma {:induction false} SegmentEmits(s: seq<CodeUnit>, n: int, i: nat, regs: Registers, genLine: nat, current: seq<Row>,
                     seg: Segment, rest: seq<CodeUnit>)
    requires SegmentOk(regs, seg, n) && AtEnd(rest)
    requires i <= |s| && s[i..] == EncodeSegment(regs, seg) + rest
    ensures var next := i + |EncodeSegment(regs, seg)|;
            && next <= |s| && s[next..] == rest
            && Emit(s, n, i, regs, genLine, current)
            == Emit(s, n, SkipComma(s, next), seg.After(regs), genLine, current + [seg.ToRow(genLine)])
            && ColumnsFit(s, n, i, regs) == ColumnsFit(s, n, SkipComma(s, next), seg.After(regs))
  {
    hide SegmentAt, EncodeSegment, ToInt32, SkipComma;
    assert s[i] == s[i..][0] == EncodeSegment(regs, seg)[0];
    SegmentDecodes(s, n, i, regs, seg, rest);
    assert ToRow(genLine, seg.Fields(), seg.After(regs)) == seg.ToRow(genLine);
  }

  /** What follows the first segment of a line. */
  function LineTail(regs: Registers, segs: seq<Segment>, rest: seq<CodeUnit>): seq<CodeUnit>
    requires segs != []
  {
    (if |segs| == 1 then [] else [COMMA]) + (EncodeLine(segs[0].After(regs), segs[1..]) + rest)
  }

  lemma {:induction false} LineIs(regs: Registers, segs: seq<Segment>, rest: seq<CodeUnit>)
    requires segs != []
    ensures EncodeLine(regs, segs) + rest == EncodeSegment(regs, segs[0]) + LineTail(regs, segs, rest)
    ensures |segs| == 1 ==> LineTail(regs, segs, rest) == rest && EncodeLine(segs[0].After(regs), segs[1..]) == []
    ensures |EncodeLine(regs, segs)| == |EncodeSegment(regs, segs[0])| + |LineTail(regs, segs, rest)| - |rest|
  {
    hide EncodeSegment;
    if |segs| == 1 {
      assert EncodeLine(segs[0].After(regs), segs[1..]) == [];
    }
  }

  lemma {:induction false} Follows(s: seq<CodeUnit>, i: nat, e: seq<CodeUnit>, tail: seq<CodeUnit>)
    requires i <= |s| && s[i..] == e + tail
    ensures i + |e| <= |s| && s[i + |e|..] == tail
    ensures tail != [] ==> i + |e| < |s| && s[i + |e|] == tail[0] && s[i + |e| + 1..] == tail[1..]
    ensures tail != [] && tail[0] == COMMA ==> AtEnd(tail) && SkipComma(s, i + |e|) == i + |e| + 1
  {
    assert s[i + |e|..] == s[i..][|e|..];
  }

  /** After the first segment of a line, and the comma if more follow, comes the rest of it. */
  lemma {:induction false} LineSplits(s: seq<CodeUnit>, i: nat, regs: Registers, segs: seq<Segment>, rest: seq<CodeUnit>)
    requires segs != [] && (rest == [] || rest[0] == SEMICOLON)
    requires i <= |s| && s[i..] == EncodeLine(regs, segs) + rest
    ensures var e, others := EncodeSegment(regs, segs[0]), EncodeLine(segs[0].After(regs), segs[1..]);
            && i + |e| <= |s| && s[i..] == e + s[i + |e|..] && AtEnd(s[i + |e|..])
            && var next := SkipComma(s, i + |e|);
               next <= |s| && s[next..] == others + rest && next + |others| == i + |EncodeLine(regs, segs)|
  {
    hide EncodeSegment, EncodeLine;
    LineIs(regs, segs, rest);
    Follows(s, i, EncodeSegment(regs, segs[0]), LineTail(regs, segs, rest));
  }

  /** Reading an encoded line adds its rows and moves to the end of the line. */
  lemma {:induction false} LineEmits(s: seq<CodeUnit>, n: int, i: nat, regs: Registers, genLine: nat,
                                     current: seq<Row>, segs: seq<Segment>, rest: seq<CodeUnit>)
    requires LineOk(regs, segs, n) && (rest == [] || rest[0] == SEMICOLON)
    requires i <= |s| && s[i..] == EncodeLine(regs, segs) + rest
    ensures var next, after := i + |EncodeLine(regs, segs)|, AfterLine(regs, segs);
            && next <= |s| && s[next..] == rest
            && Emit(s, n, i, regs, genLine, current) == Emit(s, n, next, after, genLine, current + LineRows(genLine, segs))
            && ColumnsFit(s, n, i, regs) == ColumnsFit(s, n, next, after)
    decreases |segs|
  {
    hide Emit, ColumnsFit, EncodeSegment, SegmentOk, EncodeLine, LineOk, AfterLine, LineRows, SkipComma, AtEnd;
    if segs == [] {
      LineUnfolds(regs, segs, n, genLine);
      assert current + [] == current && [] + rest == rest;
    } else {
      var seg, e := segs[0], EncodeSegment(regs, segs[0]);
      LineUnfolds(regs, segs, n, genLine);
      LineSplits(s, i, regs, segs, rest);
      SegmentEmits(s, n, i, regs, genLine, current, seg, s[i + |e|..]);
      var next, row := SkipComma(s, i + |e|), seg.ToRow(genLine);
      LineEmits(s, n, next, seg.After(regs), genLine, current + [row], segs[1..], rest);
      assert current + [row] + LineRows(genLine, segs[1..]) == current + ([row] + LineRows(genLine, segs[1..]));
    }
  }

  lemma {:induction false} LineUnfolds(regs: Registers, segs: seq<Segment>, n: int, genLine: nat)
    requires LineOk(regs, segs, n)
    ensures segs == [] ==> EncodeLine(regs, segs) == [] && AfterLine(regs, segs) == regs && LineRows(genLine, segs) == []
    ensures segs != [] ==>
            var after := segs[0].After(regs);
            && SegmentOk(regs, segs[0], n) && LineOk(after, segs[1..], n) && AfterLine(regs, segs) == AfterLine(after, segs[1..])
            && LineRows(genLine, segs) == [segs[0].ToRow(genLine)] + LineRows(genLine, segs[1..])
  {
    hide SegmentOk;
  }

  /** A semicolon, or the end of the string, ends the line read. */
  lemma {:induction false} LineEndEmits(s: seq<CodeUnit>, n: int, i: nat, regs: Registers, genLine: nat, current: seq<Row>)
    requires i <= |s|
    ensures i == |s| ==> Emit(s, n, i, regs, genLine, current) == Success([current]) && ColumnsFit(s, n, i, regs)
    ensures i < |s| && s[i] == SEMICOLON ==>
              && ColumnsFit(s, n, i, regs) == ColumnsFit(s, n, i + 1, regs.(column := 0))
              && forall rest :: Emit(s, n, i + 1, regs.(column := 0), genLine + 1, []) == Success(rest) ==>
                   Emit(s, n, i, regs, genLine, current) == Success([current] + rest)
  {
  }

  /** Reading an encoded string yields the rows of its lines. */
  lemma {:induction false} LinesEmit(s: seq<CodeUnit>, n: int, i: nat, regs: Registers, genLine: nat, lines: seq<seq<Segment>>)
    requires lines != [] && LinesOk(regs, lines, n)
    requires i <= |s| && s[i..] == EncodeLines(regs, lines)
    ensures Emit(s, n, i, regs, genLine, []) == Success(TableRows(genLine, lines))
    ensures ColumnsFit(s, n, i, regs)
    decreases |lines|
  {
    hide Emit, ColumnsFit, EncodeLine, LineRows, LineOk, AfterLine;
    var line, e := lines[0], EncodeLine(regs, lines[0]);
    var after, rows := AfterLine(regs, line), LineRows(genLine, line);
    var next := i + |e|;
    var tail := if |lines| == 1 then [] else [SEMICOLON] + EncodeLines(after.(column := 0), lines[1..]);
    assert s[i..] == e + tail;
    LineEmits(s, n, i, regs, genLine, [], line, tail);
    assert [] + rows == rows;
    LineEndEmits(s, n, next, after, genLine, rows);
    if |lines| == 1 {
      assert TableRows(genLine, lines) == [rows];
    } else {
      assert s[next] == s[next..][0] == SEMICOLON;
      assert s[next + 1..] == s[next..][1..] == EncodeLines(after.(column := 0), lines[1..]);
      LinesEmit(s, n, next + 1, after.(column := 0), genLine + 1, lines[1..]);
    }
  }

  /** The whole format round-trips: the absolute rows come back, each closed line sorted. */
  lemma {:induction false} DecodeEncode(lines: seq<seq<Segment>>, n: int)
    requires LinesOk(ZERO, lines, n)
    ensures Decode(EncodeLines(ZERO, lines), n)
         == Success(if lines == [] then [] else Assemble(TableRows(0, lines)))
  {
    hide EncodeLine, LinesOk, Emit, ColumnsFit, Assemble, TableRows;
    var s := EncodeLines(ZERO, lines);
    if lines == [] {
      assert START.done + START.current == [];
    } else {
      assert s[0..] == s;
      LinesEmit(s, n, 0, ZERO, 0, lines);
      DecodeSorts(s, n);
    }
  }
}
