/** What the decoder's sorting amounts to on any accepted string, line by line, and exactly when
    the table is ordered. */
module MappingsOrder {
  import opened JsNumbers
  import opened Vlq
  import opened MappingRows
  import opened MappingsDecoder
  import opened Wrappers

  /** The rows of each line from index `i` on in the order they are read; nothing is sorted. */
  function Emit(s: seq<CodeUnit>, n: int, i: nat, regs: Registers, genLine: nat, current: seq<Row>)
      : (r: Result<seq<seq<Row>>, DecodeError>)
    ensures r.Success? ==> 1 <= |r.value| && (i <= |s| ==> |r.value| <= 1 + |s| - i)
    decreases |s| - i
  {
    if i >= |s| then Success([current])
    else if s[i] == SEMICOLON then
      var rest :- Emit(s, n, i + 1, regs.(column := 0), genLine + 1, []);
      Success([current] + rest)
    else if s[i] == COMMA then Emit(s, n, i + 1, regs, genLine, current)
    else
      var seg :- SegmentAt(s, n, i, regs);
      Emit(s, n, seg.next, seg.regs, genLine, current + [ToRow(genLine, seg.fields, seg.regs)])
  }

  /** For each line from index `i` on, whether a delta took its column back. */
  function StepsBack(s: seq<CodeUnit>, n: int, i: nat, regs: Registers, back: bool): Result<seq<bool>, DecodeError>
    decreases |s| - i
  {
    if i >= |s| then Success([back])
    else if s[i] == SEMICOLON then
      var rest :- StepsBack(s, n, i + 1, regs.(column := 0), false);
      Success([back] + rest)
    else if s[i] == COMMA then StepsBack(s, n, i + 1, regs, back)
    else
      var seg :- SegmentAt(s, n, i, regs);
      StepsBack(s, n, seg.next, seg.regs, back || seg.regs.column < regs.column)
  }

  /** The lines one after the other; those closed by a semicolon are sorted if they step back. */
  function AssembleRead(lines: seq<seq<Row>>, back: seq<bool>): seq<Row>
    requires |lines| == |back| >= 1
  {
    if |lines| == 1 then lines[0]
    else (if back[0] then SortRows(lines[0]) else lines[0]) + AssembleRead(lines[1..], back[1..])
  }

  /** From state `st` the run ends as the lines read from there on, assembled. */
  ghost predicate Assembles(s: seq<CodeUnit>, n: int, st: State) {
    match Emit(s, n, st.i, st.regs, st.genLine, st.current)
    case Failure(e) => Run(s, n, st) == Failure(e) && StepsBack(s, n, st.i, st.regs, st.needToSort) == Failure(e)
    case Success(lines) =>
      var back := StepsBack(s, n, st.i, st.regs, st.needToSort);
      && Run(s, n, st).Success? && back.Success? && |back.value| == |lines|
      && var end := Run(s, n, st).value;
         end.done + end.current == st.done + AssembleRead(lines, back.value)
  }

  /** The run of the decoder with its flag and its sort, from any state. */
  lemma {:induction false} RunAssembles(s: seq<CodeUnit>, n: int, st: State)
    ensures Assembles(s, n, st)
    decreases |s| - st.i
  {
    hide SegmentAt, SortRows;
    if st.i >= |s| {
    } else if s[st.i] == SEMICOLON {
      var next := CloseLine(st);
      RunAssembles(s, n, next);
      var rest, restBack := Emit(s, n, next.i, next.regs, next.genLine, []), StepsBack(s, n, next.i, next.regs, false);
      if rest.Success? {
        var lines, back := [st.current] + rest.value, [st.needToSort] + restBack.value;
        assert lines[1..] == rest.value && back[1..] == restBack.value;
        var line := if st.needToSort then SortRows(st.current) else st.current;
        assert st.done + line + AssembleRead(rest.value, restBack.value) == st.done + (line + AssembleRead(rest.value, restBack.value));
      }
    } else if s[st.i] == COMMA {
      RunAssembles(s, n, st.(i := st.i + 1));
    } else {
      var seg := SegmentAt(s, n, st.i, st.regs);
      if seg.Success? {
        RunAssembles(s, n, AddSegment(st, seg.value));
      }
    }
  }

  /** Decoding is: read the lines, and stably sort each closed line that steps back. */
  lemma {:induction false} DecodeAssembles(s: seq<CodeUnit>, n: int)
    ensures match Emit(s, n, 0, ZERO, 0, [])
            case Failure(e) => Decode(s, n) == Failure(e)
            case Success(lines) =>
              var back := StepsBack(s, n, 0, ZERO, false);
              back.Success? && |back.value| == |lines| && Decode(s, n) == Success(AssembleRead(lines, back.value))
  {
    hide Run, Emit, StepsBack, AssembleRead;
    RunAssembles(s, n, START);
    assert Assembles(s, n, START);
    match Emit(s, n, 0, ZERO, 0, []) {
      case Failure(_) =>
      case Success(lines) =>
        var rows := AssembleRead(lines, StepsBack(s, n, 0, ZERO, false).value);
        assert START.done + rows == rows;
    }
  }

  // ----- the order of the table

  /** The order the binary search relies on: by line, then by column. */
  predicate Before(a: Row, b: Row) {
    a.genLine < b.genLine || (a.genLine == b.genLine && a.genCol <= b.genCol)
  }

  ghost predicate Ordered(rows: seq<Row>) {
    forall i, j :: 0 <= i < j < |rows| ==> Before(rows[i], rows[j])
  }

  ghost predicate OnLine(rows: seq<Row>, genLine: int) {
    forall r :: 0 <= r < |rows| ==> rows[r].genLine == genLine
  }

  ghost predicate FromLine(rows: seq<Row>, genLine: int) {
    forall r :: 0 <= r < |rows| ==> rows[r].genLine >= genLine
  }

  ghost predicate LinesFrom(lines: seq<seq<Row>>, genLine: nat) {
    forall k :: 0 <= k < |lines| ==> OnLine(lines[k], genLine + k)
  }

  lemma {:induction false} EmitNumbersLines(s: seq<CodeUnit>, n: int, i: nat, regs: Registers, genLine: nat, current: seq<Row>)
    requires OnLine(current, genLine) && i <= |s| && genLine + |s| - i < TWO_31
    ensures var r := Emit(s, n, i, regs, genLine, current);
            r.Success? ==> LinesFrom(r.value, genLine)
    decreases |s| - i
  {
    hide SegmentAt;
    if i >= |s| {
    } else if s[i] == SEMICOLON {
      EmitNumbersLines(s, n, i + 1, regs.(column := 0), genLine + 1, []);
      var rest := Emit(s, n, i + 1, regs.(column := 0), genLine + 1, []);
      if rest.Success? {
        var lines := [current] + rest.value;
        forall k | 0 <= k < |lines| ensures OnLine(lines[k], genLine + k) {
          if k > 0 {
            assert OnLine(rest.value[k - 1], genLine + 1 + (k - 1));
          }
        }
      }
    } else if s[i] == COMMA {
      EmitNumbersLines(s, n, i + 1, regs, genLine, current);
    } else {
      var seg := SegmentAt(s, n, i, regs);
      if seg.Success? {
        EmitNumbersLines(s, n, seg.value.next, seg.value.regs, genLine,
                         current + [ToRow(genLine, seg.value.fields, seg.value.regs)]);
      }
    }
  }

  lemma {:induction false} InsertOnLine(xs: seq<Row>, r: Row, genLine: int)
    requires OnLine(xs, genLine) && r.genLine == genLine
    ensures OnLine(Insert(xs, r), genLine)
  {
    if xs != [] && Last(xs).genCol > r.genCol {
      InsertOnLine(Front(xs), r, genLine);
    }
  }

  lemma {:induction false} SortOnLine(xs: seq<Row>, genLine: int)
    requires OnLine(xs, genLine)
    ensures OnLine(SortRows(xs), genLine)
  {
    if xs != [] {
      SortOnLine(Front(xs), genLine);
      InsertOnLine(SortRows(Front(xs)), Last(xs), genLine);
    }
  }

  lemma {:induction false} OrderedConcatIff(xs: seq<Row>, ys: seq<Row>, genLine: int)
    requires OnLine(xs, genLine) && FromLine(ys, genLine + 1)
    ensures Ordered(xs + ys) <==> Ascending(xs) && Ordered(ys)
    ensures FromLine(xs + ys, genLine)
  {
    var rows := xs + ys;
    if Ordered(rows) {
      forall i, j | 0 <= i < j < |xs| ensures xs[i].genCol <= xs[j].genCol {
        assert Before(rows[i], rows[j]);
      }
      forall i, j | 0 <= i < j < |ys| ensures Before(ys[i], ys[j]) {
        assert Before(rows[|xs| + i], rows[|xs| + j]);
      }
    }
  }

  lemma {:induction false} OrderedLineIff(xs: seq<Row>, genLine: int)
    requires OnLine(xs, genLine)
    ensures Ordered(xs) <==> Ascending(xs)
  {
    if Ordered(xs) {
      forall i, j | 0 <= i < j < |xs| ensures xs[i].genCol <= xs[j].genCol {
        assert Before(xs[i], xs[j]);
      }
    }
  }

  /** What sorting leaves to the input: a line closed without a backward step, and the last
      line in any case, is in order as stored in 32-bit cells. */
  ghost predicate LinesInOrder(lines: seq<seq<Row>>, back: seq<bool>)
    requires |lines| == |back| >= 1
  {
    && Ascending(lines[|lines| - 1])
    && forall k :: 0 <= k < |lines| - 1 ==> back[k] || Ascending(lines[k])
  }

  lemma {:induction false} InOrderTail(lines: seq<seq<Row>>, back: seq<bool>)
    requires |lines| == |back| >= 2
    ensures LinesInOrder(lines, back) <==> (back[0] || Ascending(lines[0])) && LinesInOrder(lines[1..], back[1..])
  {
    hide Ascending;
    if LinesInOrder(lines[1..], back[1..]) {
      forall k | 1 <= k < |lines| - 1 ensures back[k] || Ascending(lines[k]) {
        assert back[1..][k - 1] || Ascending(lines[1..][k - 1]);
      }
    }
  }

  lemma {:induction false} LinesFromTail(lines: seq<seq<Row>>, genLine: nat)
    requires lines != [] && LinesFrom(lines, genLine)
    ensures OnLine(lines[0], genLine) && LinesFrom(lines[1..], genLine + 1)
  {
    hide OnLine;
    assert OnLine(lines[0], genLine + 0);
    forall k | 0 <= k < |lines[1..]| ensures OnLine(lines[1..][k], genLine + 1 + k) {
      assert OnLine(lines[k + 1], genLine + (k + 1));
    }
  }

  lemma {:induction false} AssembledOrderedIff(lines: seq<seq<Row>>, back: seq<bool>, genLine: nat)
    requires |lines| == |back| >= 1 && LinesFrom(lines, genLine)
    ensures Ordered(AssembleRead(lines, back)) <==> LinesInOrder(lines, back)
    ensures FromLine(AssembleRead(lines, back), genLine)
  {
    LinesFromTail(lines, genLine);
    hide LinesFrom, Ordered, Ascending, SortRows;
    if |lines| == 1 {
      OrderedLineIff(lines[0], genLine);
    } else {
      AssembledOrderedIff(lines[1..], back[1..], genLine + 1);
      InOrderTail(lines, back);
      hide LinesInOrder;
      if back[0] {
        SortIsStable(lines[0]);
        SortOnLine(lines[0], genLine);
        OrderedConcatIff(SortRows(lines[0]), AssembleRead(lines[1..], back[1..]), genLine);
      } else {
        OrderedConcatIff(lines[0], AssembleRead(lines[1..], back[1..]), genLine);
      }
    }
  }

  /** The string is accepted, and every line that is not sorted is read in order. */
  ghost predicate ReadInOrder(s: seq<CodeUnit>, n: int) {
    var lines, back := Emit(s, n, 0, ZERO, 0, []), StepsBack(s, n, 0, ZERO, false);
    lines.Success? && back.Success? && |lines.value| == |back.value| && LinesInOrder(lines.value, back.value)
  }

  /** The table of an accepted string is ordered exactly when every line that is not sorted,
      because it took no backward step or because no semicolon follows it, was read in order. */
  lemma {:induction false} OrderedExactly(s: seq<CodeUnit>, n: int)
    requires |s| < TWO_31
    ensures Decode(s, n).Success? ==> (Ordered(Decode(s, n).value) <==> ReadInOrder(s, n))
    ensures ReadInOrder(s, n) ==> Decode(s, n).Success?
  {
    hide Decode, Emit, StepsBack, Ordered, LinesInOrder;
    DecodeAssembles(s, n);
    EmitNumbersLines(s, n, 0, ZERO, 0, []);
    if Decode(s, n).Success? {
      AssembledOrderedIff(Emit(s, n, 0, ZERO, 0, []).value, StepsBack(s, n, 0, ZERO, false).value, 0);
    }
  }

  // ----- columns that fit their cells

  /** Every generated column fits the 32-bit cell it is stored in. */
  predicate ColumnsFit(s: seq<CodeUnit>, n: int, i: nat, regs: Registers)
    decreases |s| - i
  {
    if i >= |s| then true
    else if s[i] == SEMICOLON then ColumnsFit(s, n, i + 1, regs.(column := 0))
    else if s[i] == COMMA then ColumnsFit(s, n, i + 1, regs)
    else
      match SegmentAt(s, n, i, regs)
      case Failure(_) => true
      case Success(seg) => seg.regs.column < TWO_31 && ColumnsFit(s, n, seg.next, seg.regs)
  }

  /** Without a backward step so far, the open line is in order and ends at the current column. */
  ghost predicate LineInvariant(regs: Registers, back: bool, current: seq<Row>) {
    && 0 <= regs.column < TWO_31
    && (back || (Ascending(current) && (current == [] || Last(current).genCol <= regs.column)))
  }

  lemma {:induction false} AddKeepsInvariant(regs: Registers, back: bool, current: seq<Row>, genLine: nat, seg: Scanned)
    requires LineInvariant(regs, back, current) && 0 <= seg.regs.column < TWO_31
    ensures LineInvariant(seg.regs, back || seg.regs.column < regs.column, current + [ToRow(genLine, seg.fields, seg.regs)])
  {
    hide Ascending;
    if !back && regs.column <= seg.regs.column {
      AscendingAppend(current, ToRow(genLine, seg.fields, seg.regs));
    }
  }

  /** All lines but the last are in order or step back. */
  ghost predicate ClosedInOrder(lines: seq<seq<Row>>, back: seq<bool>) {
    |lines| == |back| >= 1 && forall k :: 0 <= k < |lines| - 1 ==> back[k] || Ascending(lines[k])
  }

  lemma {:induction false} ClosedInOrderCons(line: seq<Row>, stepped: bool, lines: seq<seq<Row>>, back: seq<bool>)
    requires ClosedInOrder(lines, back) && (stepped || Ascending(line))
    ensures ClosedInOrder([line] + lines, [stepped] + back)
  {
    hide Ascending;
  }

  /** Then a line without a backward step is in order. */
  lemma {:induction false} FitsClosedInOrder(s: seq<CodeUnit>, n: int, i: nat, regs: Registers, genLine: nat,
                                             current: seq<Row>, back: bool)
    requires LineInvariant(regs, back, current) && ColumnsFit(s, n, i, regs)
    ensures var lines, steps := Emit(s, n, i, regs, genLine, current), StepsBack(s, n, i, regs, back);
            lines.Success? ==> steps.Success? && ClosedInOrder(lines.value, steps.value)
    decreases |s| - i
  {
    hide SegmentAt, ToRow, Ascending;
    if i >= |s| {
    } else if s[i] == SEMICOLON {
      assert Ascending([]) by { NoRowsAscend(); }
      FitsClosedInOrder(s, n, i + 1, regs.(column := 0), genLine + 1, [], false);
      var lines, steps := Emit(s, n, i + 1, regs.(column := 0), genLine + 1, []), StepsBack(s, n, i + 1, regs.(column := 0), false);
      if lines.Success? {
        ClosedInOrderCons(current, back, lines.value, steps.value);
      }
    } else if s[i] == COMMA {
      FitsClosedInOrder(s, n, i + 1, regs, genLine, current, back);
    } else {
      match SegmentAt(s, n, i, regs) {
        case Failure(_) =>
        case Success(seg) =>
          AddKeepsInvariant(regs, back, current, genLine, seg);
          FitsClosedInOrder(s, n, seg.next, seg.regs, genLine, current + [ToRow(genLine, seg.fields, seg.regs)],
                            back || seg.regs.column < regs.column);
      }
    }
  }

  lemma {:induction false} NoRowsAscend()
    ensures Ascending([])
  {
  }

  /** All lines but the last are closed by a semicolon and sorted. */
  function Assemble(lines: seq<seq<Row>>): seq<Row>
    requires lines != []
  {
    if |lines| == 1 then lines[0] else SortRows(lines[0]) + Assemble(lines[1..])
  }

  lemma {:induction false} SortingAllIsSame(lines: seq<seq<Row>>, back: seq<bool>)
    requires ClosedInOrder(lines, back)
    ensures AssembleRead(lines, back) == Assemble(lines)
  {
    hide Ascending, SortRows;
    if |lines| > 1 {
      forall k | 0 <= k < |lines| - 2 ensures back[1..][k] || Ascending(lines[1..][k]) {
        assert back[k + 1] || Ascending(lines[k + 1]);
      }
      SortingAllIsSame(lines[1..], back[1..]);
      if !back[0] {
        SortOfAscending(lines[0]);
      }
    }
  }

  /** If all columns fit, decoding sorts every closed line. */
  lemma {:induction false} DecodeSorts(s: seq<CodeUnit>, n: int)
    requires ColumnsFit(s, n, 0, ZERO)
    ensures match Emit(s, n, 0, ZERO, 0, [])
            case Failure(e) => Decode(s, n) == Failure(e)
            case Success(lines) => Decode(s, n) == Success(Assemble(lines))
  {
    DecodeAssembles(s, n);
    assert LineInvariant(ZERO, false, []);
    FitsClosedInOrder(s, n, 0, ZERO, 0, [], false);
    hide Decode, Emit, StepsBack, ColumnsFit, Assemble, AssembleRead, ClosedInOrder;
    match Emit(s, n, 0, ZERO, 0, []) {
      case Failure(_) =>
      case Success(lines) => SortingAllIsSame(lines, StepsBack(s, n, 0, ZERO, false).value);
    }
  }

  /** If all columns fit, only the last line matters, and only if no semicolon closes it. */
  lemma {:induction false} FitsReadInOrder(s: seq<CodeUnit>, n: int)
    requires ColumnsFit(s, n, 0, ZERO)
    ensures match Emit(s, n, 0, ZERO, 0, [])
            case Failure(_) => true
            case Success(lines) =>
              && (ReadInOrder(s, n) <==> Ascending(lines[|lines| - 1]))
              && (s != [] && s[|s| - 1] == SEMICOLON ==> ReadInOrder(s, n))
  {
    assert LineInvariant(ZERO, false, []);
    FitsClosedInOrder(s, n, 0, ZERO, 0, [], false);
    hide Emit, StepsBack, ColumnsFit;
    if s != [] && s[|s| - 1] == SEMICOLON {
      ClosedLastLine(s, n, 0, ZERO, 0, []);
    }
  }

  /** A string that ends in a semicolon leaves no rows on its open line. */
  lemma {:induction false} ClosedLastLine(s: seq<CodeUnit>, n: int, i: nat, regs: Registers, genLine: nat, current: seq<Row>)
    requires i < |s| && s[|s| - 1] == SEMICOLON
    ensures var lines := Emit(s, n, i, regs, genLine, current);
            lines.Success? ==> lines.value[|lines.value| - 1] == []
    decreases |s| - i
  {
    hide SegmentAt, ToRow;
    if s[i] == SEMICOLON {
      if i + 1 < |s| {
        ClosedLastLine(s, n, i + 1, regs.(column := 0), genLine + 1, []);
      }
    } else if s[i] == COMMA {
      ClosedLastLine(s, n, i + 1, regs, genLine, current);
    } else {
      SegmentLeavesSemicolon(s, n, i, regs);
      match SegmentAt(s, n, i, regs) {
        case Failure(_) =>
        case Success(seg) =>
          ClosedLastLine(s, n, seg.next, seg.regs, genLine, current + [ToRow(genLine, seg.fields, seg.regs)]);
      }
    }
  }

  lemma {:induction false} VlqLeavesSemicolon(s: seq<CodeUnit>, i: nat, shift: nat, vlq: nat)
    requires s != [] && s[|s| - 1] == SEMICOLON
    ensures var r := DecodeFrom(s, i, shift, vlq);
            r.Success? ==> r.value.next < |s|
    decreases |s| - i
  {
    if i < |s| && s[i] < 128 && 32 <= DigitOf(s[i]) < 64 {
      VlqLeavesSemicolon(s, i + 1, shift + 5, OrBits(vlq, ShiftLeft(DigitOf(s[i]) % 32, shift)));
    }
  }

  lemma {:induction false} FieldLeavesSemicolon(s: seq<CodeUnit>, i: nat, previous: int, text: ErrorText)
    requires s != [] && s[|s| - 1] == SEMICOLON
    ensures var r := ReadField(s, i, previous, text);
            r.Success? ==> r.value.next < |s|
  {
    VlqLeavesSemicolon(s, i, 0, 0);
  }

  lemma {:induction false} SegmentLeavesSemicolon(s: seq<CodeUnit>, n: int, i: nat, regs: Registers)
    requires s != [] && s[|s| - 1] == SEMICOLON
    ensures var r := SegmentAt(s, n, i, regs);
            r.Success? ==> r.value.next < |s|
  {
    hide ReadField;
    forall j: nat, previous, text
      ensures ReadField(s, j, previous, text).Success? ==> ReadField(s, j, previous, text).value.next < |s|
    {
      FieldLeavesSemicolon(s, j, previous, text);
    }
  }
}
