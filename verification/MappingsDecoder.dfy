/** The source map "mappings" decoder: the state machine over the string as functions, and
    the loop over a growing flat array, sorted in place, that computes the same rows. */
module MappingsDecoder {
  import opened JsNumbers
  import opened Vlq
  import opened MappingRows
  import opened Wrappers

  /** The accumulators that deltas are added to. */
  datatype Registers = Registers(column: int, source: int, line: int, origColumn: int, name: int)

  const ZERO := Registers(0, 0, 0, 0, 0)

  /** A segment read: how many fields it has, the accumulators after it, and where the
      next one starts. */
  datatype Scanned = Scanned(fields: int, regs: Registers, next: nat)

  /** The decoder between two segments. `done` holds the rows of the closed lines, `current`
      those of the open line in the order they were read. */
  datatype State = State(i: nat, regs: Registers, genLine: nat, needToSort: bool, done: seq<Row>, current: seq<Row>)

  const START := State(0, ZERO, 0, false, [], [])

  /** Reads one field and adds it to its accumulator. */
  function ReadField(s: seq<CodeUnit>, i: nat, previous: int, text: ErrorText): (r: Result<Reading, DecodeError>)
    ensures r.Success? ==> i < r.value.next <= |s| && r.value.value >= 0
  {
    var delta :- DecodeAt(s, i);
    if previous + delta.value < 0 then Failure(DecodeError(delta.next, text))
    else Success(Reading(previous + delta.value, delta.next))
  }

  predicate AtSeparator(s: seq<CodeUnit>, i: nat) {
    i >= |s| || s[i] == COMMA || s[i] == SEMICOLON
  }

  /** A comma is read with the segment before it, a semicolon is not. */
  function SkipComma(s: seq<CodeUnit>, i: nat): (j: nat)
    ensures i <= j
    ensures i <= |s| ==> j <= |s|
  {
    if i < |s| && s[i] == COMMA then i + 1 else i
  }

  function SegmentAt(s: seq<CodeUnit>, sourcesCount: int, i: nat, regs: Registers): (r: Result<Scanned, DecodeError>)
    ensures r.Success? ==> i < r.value.next <= |s| && r.value.fields in {1, 4, 5} && r.value.regs.column >= 0
  {
    var column :- ReadField(s, i, regs.column, InvalidGeneratedColumn);
    var regs1 := regs.(column := column.value);
    if AtSeparator(s, column.next) then Success(Scanned(1, regs1, SkipComma(s, column.next)))
    else
      var source :- ReadField(s, column.next, regs.source, InvalidOriginalSource);
      if source.value >= sourcesCount then Failure(DecodeError(source.next, InvalidOriginalSource))
      else
        var line :- ReadField(s, source.next, regs.line, InvalidOriginalLine);
        var origColumn :- ReadField(s, line.next, regs.origColumn, InvalidOriginalColumn);
        var regs4 := regs1.(source := source.value, line := line.value, origColumn := origColumn.value);
        if AtSeparator(s, origColumn.next) then Success(Scanned(4, regs4, SkipComma(s, origColumn.next)))
        else
          var name :- ReadField(s, origColumn.next, regs.name, InvalidOriginalName);
          if !AtSeparator(s, name.next) then Failure(DecodeError(name.next, InvalidCharacterAfterMapping))
          else Success(Scanned(5, regs4.(name := name.value), SkipComma(s, name.next)))
  }

  /** The row a segment leaves in the table. */
  function ToRow(genLine: nat, fields: int, regs: Registers): Row {
    Row(ToInt32(genLine), ToInt32(regs.column),
        if fields == 1 then -1 else ToInt32(regs.source),
        if fields == 1 then -1 else ToInt32(regs.line),
        if fields == 1 then -1 else ToInt32(regs.origColumn),
        if fields < 5 then -1 else ToInt32(regs.name))
  }

  /** The rows of the closed lines once the open line is closed too. */
  function Closed(done: seq<Row>, current: seq<Row>, needToSort: bool): (rows: seq<Row>)
    ensures |rows| == |done| + |current|
  {
    done + if needToSort then SortRows(current) else current
  }

  function CloseLine(st: State): State {
    State(st.i + 1, st.regs.(column := 0), st.genLine + 1, false,
          Closed(st.done, st.current, st.needToSort), [])
  }

  function AddSegment(st: State, seg: Scanned): State {
    st.(i := seg.next, regs := seg.regs, needToSort := st.needToSort || seg.regs.column < st.regs.column,
        current := st.current + [ToRow(st.genLine, seg.fields, seg.regs)])
  }

  function Run(s: seq<CodeUnit>, sourcesCount: int, st: State): Result<State, DecodeError>
    decreases |s| - st.i
  {
    if st.i >= |s| then Success(st)
    else if s[st.i] == SEMICOLON then Run(s, sourcesCount, CloseLine(st))
    else if s[st.i] == COMMA then Run(s, sourcesCount, st.(i := st.i + 1))
    else
      var seg :- SegmentAt(s, sourcesCount, st.i, st.regs);
      Run(s, sourcesCount, AddSegment(st, seg))
  }

  /** The decoded rows of a mappings string. */
  function Decode(s: seq<CodeUnit>, sourcesCount: int): Result<seq<Row>, DecodeError> {
    var st :- Run(s, sourcesCount, START);
    Success(st.done + st.current)
  }

  // ----- the flat table

  function Cells(r: Row): (c: seq<int>)
    ensures |c| == 6
  {
    [r.genLine, r.genCol, r.source, r.line, r.column, r.name]
  }

  function RowAt(d: seq<int>, p: int): Row
    requires 0 <= p <= |d| - 6
  {
    Row(d[p], d[p + 1], d[p + 2], d[p + 3], d[p + 4], d[p + 5])
  }

  function Flat(rows: seq<Row>): (d: seq<int>)
    ensures |d| == 6 * |rows|
  {
    if rows == [] then [] else Flat(Front(rows)) + Cells(Last(rows))
  }

  /** The leading cells of `d` hold `rows`. */
  ghost predicate Holds(d: seq<int>, rows: seq<Row>) {
    && 6 * |rows| <= |d|
    && forall r :: 0 <= r < |rows| ==> RowAt(d, 6 * r) == rows[r]
  }

  lemma {:induction false} HoldsIsFlat(d: seq<int>, rows: seq<Row>)
    requires Holds(d, rows)
    ensures d[..6 * |rows|] == Flat(rows)
  {
    if rows != [] {
      var p := 6 * (|rows| - 1);
      assert RowAt(d, p) == Last(rows);
      assert d[..p + 6] == d[..p] + Cells(RowAt(d, p));
      HoldsIsFlat(d, Front(rows));
    }
  }

  /** A row written at position `p` of the table. */
  method WriteRow(data: array<int>, p: nat, row: Row)
    requires p + 6 <= data.Length
    modifies data
    ensures RowAt(data[..], p) == row
    ensures forall q :: 0 <= q < data.Length && !(p <= q < p + 6) ==> data[q] == old(data[q])
  {
    data[p] := row.genLine;
    data[p + 1] := row.genCol;
    data[p + 2] := row.source;
    data[p + 3] := row.line;
    data[p + 4] := row.column;
    data[p + 5] := row.name;
  }

  /** The rows stay where their cells stay, and one more is written behind them. */
  lemma {:induction false} HoldsAppended(d: seq<int>, d': seq<int>, rows: seq<Row>, row: Row)
    requires Holds(d, rows) && |d'| >= 6 * |rows| + 6
    requires forall q :: 0 <= q < 6 * |rows| ==> d'[q] == d[q]
    requires RowAt(d', 6 * |rows|) == row
    ensures Holds(d', rows + [row])
  {
    forall r | 0 <= r < |rows| ensures RowAt(d', 6 * r) == rows[r] {
      assert RowAt(d, 6 * r) == rows[r];
    }
  }

  /** One more row, in an array twice as long when the old one is full. */
  method Append(data: array<int>, dataLength: nat, row: Row, ghost rows: seq<Row>) returns (newData: array<int>)
    requires data.Length >= 6 && dataLength == 6 * |rows| <= data.Length
    requires Holds(data[..], rows)
    modifies data
    ensures newData == data || fresh(newData)
    ensures newData.Length == if dataLength + 6 > data.Length then 2 * data.Length else data.Length
    ensures Holds(newData[..], rows + [row])
  {
    hide Holds, RowAt;
    ghost var before := data[..];
    newData := data;
    if dataLength + 6 > data.Length {
      newData := new int[2 * data.Length](q requires 0 <= q < 2 * data.Length reads data =>
        if q < data.Length then data[q] else 0);
    }
    WriteRow(newData, dataLength, row);
    HoldsAppended(before, newData[..], rows, row);
  }

  /** Writing row `x` changes that row only. */
  lemma {:induction false} HoldsUpdated(d: seq<int>, d': seq<int>, rows: seq<Row>, x: nat, row: Row)
    requires Holds(d, rows) && |d'| == |d| && x < |rows|
    requires RowAt(d', 6 * x) == row
    requires forall q :: 0 <= q < |d| && !(6 * x <= q < 6 * x + 6) ==> d'[q] == d[q]
    ensures Holds(d', rows[x := row])
  {
    forall r | 0 <= r < |rows| && r != x ensures RowAt(d', 6 * r) == rows[r] {
      assert RowAt(d, 6 * r) == rows[r];
    }
  }

  method OverwriteRow(data: array<int>, p: nat, row: Row, ghost rows: seq<Row>)
    requires Holds(data[..], rows) && p % 6 == 0 && p / 6 < |rows|
    modifies data
    ensures Holds(data[..], rows[p / 6 := row])
  {
    ghost var before := data[..];
    WriteRow(data, p, row);
    HoldsUpdated(before, data[..], rows, p / 6, row);
  }

  /** The rows of the table while one of them is being inserted: `hole` is the place it
      would take next. */
  ghost function Inserting(done: seq<Row>, kept: seq<Row>, hole: Row, moved: seq<Row>, tail: seq<Row>): (rows: seq<Row>)
    ensures |rows| == |done| + |kept| + 1 + |moved| + |tail|
    ensures rows[|done| + |kept|] == hole
    ensures kept != [] ==> rows[|done| + |kept| - 1] == Last(kept)
  {
    done + kept + [hole] + moved + tail
  }

  /** Writing `r` to the hole ends the insertion, or moves the hole one place to the left if
      `r` is the row that stands there. */
  lemma {:induction false} HoleFilled(done: seq<Row>, kept: seq<Row>, hole: Row, moved: seq<Row>, tail: seq<Row>, r: Row)
    ensures var filled := Inserting(done, kept, hole, moved, tail)[|done| + |kept| := r];
            && filled == done + (kept + [r] + moved) + tail
            && (kept != [] && r == Last(kept) ==> filled == Inserting(done, Front(kept), r, [r] + moved, tail))
  {
  }

  /** The cells of the row at the hole, and of the row before it. */
  lemma {:induction false} HoleCells(d: seq<int>, done: seq<Row>, kept: seq<Row>, hole: Row, moved: seq<Row>, tail: seq<Row>)
    requires Holds(d, Inserting(done, kept, hole, moved, tail))
    ensures 6 * (|done| + |kept|) + 6 <= |d| && RowAt(d, 6 * (|done| + |kept|)) == hole
    ensures kept != [] ==>
              var k := 6 * (|done| + |kept| - 1);
              RowAt(d, k) == Last(kept) && d[k + 1] == Last(kept).genCol
  {
    hide Inserting;
    var rows := Inserting(done, kept, hole, moved, tail);
    assert RowAt(d, 6 * (|done| + |kept|)) == rows[|done| + |kept|];
    if kept != [] {
      assert RowAt(d, 6 * (|done| + |kept| - 1)) == rows[|done| + |kept| - 1];
    }
  }

  lemma {:induction false} InsertMoves(kept: seq<Row>, r: Row, moved: seq<Row>)
    ensures kept == [] || Last(kept).genCol <= r.genCol ==> Insert(kept, r) + moved == kept + [r] + moved
    ensures kept != [] && Last(kept).genCol > r.genCol ==>
              Insert(kept, r) + moved == Insert(Front(kept), r) + ([Last(kept)] + moved)
  {
  }

  /** The inner loop of the sort: the row at `j` moves left, past the rows of its line with
      a greater column, each of which moves one place right. */
  method InsertRow(data: array<int>, generatedLineStart: nat, j: nat,
                   ghost done: seq<Row>, ghost sorted: seq<Row>, ghost r: Row, ghost tail: seq<Row>)
    requires generatedLineStart == 6 * |done| && j == 6 * (|done| + |sorted|)
    requires Holds(data[..], Inserting(done, sorted, r, [], tail))
    modifies data
    ensures Holds(data[..], done + Insert(sorted, r) + tail)
  {
    hide Inserting, Holds, RowAt, Insert;
    HoleCells(data[..], done, sorted, r, [], tail);
    assert Insert(sorted, r) + [] == Insert(sorted, r);
    var row := RowAt(data[..], j);
    var k := j - 6;
    ghost var kept, hole, moved := sorted, r, [];
    while k >= generatedLineStart && data[k + 1] > row.genCol
      invariant k == 6 * (|done| + |kept| - 1) && k + 12 <= data.Length
      invariant Holds(data[..], Inserting(done, kept, hole, moved, tail))
      invariant kept != [] ==> RowAt(data[..], k) == Last(kept) && data[k + 1] == Last(kept).genCol
      invariant Insert(sorted, r) == Insert(kept, r) + moved
      decreases |kept|
    {
      InsertMoves(kept, r, moved);
      OverwriteRow(data, k + 6, RowAt(data[..], k), Inserting(done, kept, hole, moved, tail));
      HoleFilled(done, kept, hole, moved, tail, Last(kept));
      kept, hole, moved := Front(kept), Last(kept), [Last(kept)] + moved;
      HoleCells(data[..], done, kept, hole, moved, tail);
      k := k - 6;
    }
    InsertMoves(kept, r, moved);
    OverwriteRow(data, k + 6, row, Inserting(done, kept, hole, moved, tail));
    HoleFilled(done, kept, hole, moved, tail, r);
  }

  /** The rows of the table while the first `m` rows of a line are sorted. */
  ghost function PartlySorted(done: seq<Row>, line: seq<Row>, m: nat): seq<Row>
    requires m <= |line|
  {
    done + SortRows(line[..m]) + line[m..]
  }

  lemma {:induction false} SortStarts(done: seq<Row>, line: seq<Row>)
    ensures PartlySorted(done, line, if line == [] then 0 else 1) == done + line
  {
    if line == [] {
      assert SortRows(line[..0]) == [];
    } else {
      assert Front(line[..1]) == [] && Last(line[..1]) == line[0] && SortRows([]) == [];
      assert SortRows(line[..1]) == [line[0]];
    }
  }

  lemma {:induction false} SortSteps(line: seq<Row>, m: nat)
    requires m < |line|
    ensures SortRows(line[..m + 1]) == Insert(SortRows(line[..m]), line[m])
  {
    hide Insert;
    assert Front(line[..m + 1]) == line[..m] && Last(line[..m + 1]) == line[m];
  }

  lemma {:induction false} Regrouped(a: seq<Row>, b: seq<Row>, line: seq<Row>, m: nat)
    requires m < |line|
    ensures a + b + line[m..] == Inserting(a, b, line[m], [], line[m + 1..])
  {
    assert line[m..] == [line[m]] + line[m + 1..];
  }

  /** The insertion sort of the rows of one line, in place. */
  method SortLine(data: array<int>, generatedLineStart: nat, dataLength: nat, ghost done: seq<Row>, ghost line: seq<Row>)
    requires generatedLineStart == 6 * |done| && dataLength == 6 * (|done| + |line|)
    requires Holds(data[..], done + line)
    modifies data
    ensures Holds(data[..], done + SortRows(line))
  {
    hide Holds, SortRows, Insert, Inserting;
    var j := generatedLineStart + 6;
    ghost var m := if line == [] then 0 else 1;
    SortStarts(done, line);
    while j < dataLength
      invariant m <= |line| && if line == [] then j > dataLength else j == 6 * (|done| + m)
      invariant Holds(data[..], PartlySorted(done, line, m))
    {
      Regrouped(done, SortRows(line[..m]), line, m);
      SortSteps(line, m);
      InsertRow(data, generatedLineStart, j, done, SortRows(line[..m]), line[m], line[m + 1..]);
      m := m + 1;
      j := j + 6;
    }
    assert line[..m] == line && line[m..] == [] && PartlySorted(done, line, m) == done + SortRows(line);
  }

  /** One field, read and added to the accumulator it belongs to. */
  method AddField(mappings: seq<CodeUnit>, start: nat, previous: int, text: ErrorText)
      returns (r: Result<Reading, DecodeError>)
    ensures r == ReadField(mappings, start, previous, text)
  {
    var delta :- DecodeVLQ(mappings, start);
    var value := previous + delta.value;
    if value < 0 {
      return Failure(DecodeError(delta.next, text));
    }
    r := Success(Reading(value, delta.next));
  }

  method ReadSegment(mappings: seq<CodeUnit>, sourcesCount: int, start: nat, before: Registers)
      returns (r: Result<Scanned, DecodeError>)
    ensures r == SegmentAt(mappings, sourcesCount, start, before)
  {
    var n, regs, fields := |mappings|, before, 1;
    var field :- AddField(mappings, start, regs.column, InvalidGeneratedColumn);
    regs := regs.(column := field.value);
    var i := field.next;
    if i < n {
      if mappings[i] == COMMA {
        i := i + 1;
      } else if mappings[i] != SEMICOLON {
        fields := 4;
        field :- AddField(mappings, i, regs.source, InvalidOriginalSource);
        if field.value >= sourcesCount {
          return Failure(DecodeError(field.next, InvalidOriginalSource));
        }
        regs := regs.(source := field.value);
        field :- AddField(mappings, field.next, regs.line, InvalidOriginalLine);
        regs := regs.(line := field.value);
        field :- AddField(mappings, field.next, regs.origColumn, InvalidOriginalColumn);
        regs := regs.(origColumn := field.value);
        i := field.next;
        if i < n {
          if mappings[i] == COMMA {
            i := i + 1;
          } else if mappings[i] != SEMICOLON {
            fields := 5;
            field :- AddField(mappings, i, regs.name, InvalidOriginalName);
            regs := regs.(name := field.value);
            i := field.next;
            if i < n {
              if mappings[i] == COMMA {
                i := i + 1;
              } else if mappings[i] != SEMICOLON {
                return Failure(DecodeError(i, InvalidCharacterAfterMapping));
              }
            }
          }
        }
      }
    }
    r := Success(Scanned(fields, regs, i));
  }

  /** What a semicolon does to the table. */
  method EndLine(data: array<int>, generatedLineStart: nat, dataLength: nat, needToSort: bool,
                 ghost done: seq<Row>, ghost line: seq<Row>)
    requires generatedLineStart == 6 * |done| && dataLength == 6 * (|done| + |line|)
    requires Holds(data[..], done + line)
    modifies data
    ensures Holds(data[..], Closed(done, line, needToSort))
  {
    if needToSort {
      SortLine(data, generatedLineStart, dataLength, done, line);
    }
  }

  /** The whole decoder: the used part of the flat array, or the error. */
  method DecodeMappings(mappings: seq<CodeUnit>, sourcesCount: int) returns (r: Result<seq<int>, DecodeError>)
    ensures match Decode(mappings, sourcesCount)
            case Success(rows) => r == Success(Flat(rows))
            case Failure(e) => r == Failure(e)
  {
    hide SegmentAt, SortRows, ToRow, RowAt, Flat;
    var n := |mappings|;
    var data := new int[1024];
    var dataLength, generatedLine, generatedLineStart := 0, 0, 0;
    var regs := ZERO;
    var needToSortGeneratedColumns := false;
    var i := 0;
    ghost var st := START;
    while i < n
      invariant i <= n
      invariant fresh(data) && data.Length >= 1024
      invariant st.i == i && st.regs == regs && st.genLine == generatedLine && st.needToSort == needToSortGeneratedColumns
      invariant generatedLineStart == 6 * |st.done| && dataLength == 6 * (|st.done| + |st.current|)
      invariant Holds(data[..], st.done + st.current)
      invariant Run(mappings, sourcesCount, st) == Run(mappings, sourcesCount, START)
      decreases n - i
    {
      var c := mappings[i];
      if c == SEMICOLON {
        EndLine(data, generatedLineStart, dataLength, needToSortGeneratedColumns, st.done, st.current);
        st := CloseLine(st);
        assert st.done + st.current == st.done;
        generatedLine := generatedLine + 1;
        regs := regs.(column := 0);
        generatedLineStart := dataLength;
        needToSortGeneratedColumns := false;
        i := i + 1;
        continue;
      }
      if c == COMMA {
        i := i + 1;
        st := st.(i := i);
        continue;
      }
      var segment :- ReadSegment(mappings, sourcesCount, i, regs);
      if segment.regs.column < regs.column {
        needToSortGeneratedColumns := true;
      }
      regs := segment.regs;
      i := segment.next;
      var row := ToRow(generatedLine, segment.fields, regs);
      data := Append(data, dataLength, row, st.done + st.current);
      dataLength := dataLength + 6;
      assert st.done + st.current + [row] == st.done + AddSegment(st, segment).current;
      st := AddSegment(st, segment);
    }
    HoldsIsFlat(data[..], st.done + st.current);
    assert data[..dataLength] == data[..][..dataLength];
    r := Success(data[..dataLength]);
  }
}
