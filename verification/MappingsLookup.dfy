/** Looking a generated position up in the decoded table: the binary search, what it answers,
    and when. Positions are any finite numbers. */
module MappingsLookup {
  import opened JsNumbers
  import opened MappingRows
  import opened MappingsDecoder
  import opened MappingsOrder
  import opened MappingsCodec
  import opened Wrappers

  /** The row stands at or before the position, in the order of the table. */
  predicate AtOrBefore(r: Row, line: real, column: real) {
    r.genLine as real < line || (r.genLine as real == line && r.genCol as real <= column)
  }

  /** The row is on the line, at or before the column. */
  predicate Matches(r: Row, line: real, column: real) {
    r.genLine as real == line && r.genCol as real <= column
  }

  /** The reference: scan back from the end for a row that matches. */
  function LinearScan(rows: seq<Row>, line: real, column: real): (r: Option<nat>)
    ensures r.Some? ==> r.value < |rows| && Matches(rows[r.value], line, column)
    ensures r.Some? ==> forall k :: r.value < k < |rows| ==> !Matches(rows[k], line, column)
    ensures r.None? ==> forall k :: 0 <= k < |rows| ==> !Matches(rows[k], line, column)
  {
    if rows == [] then None
    else if Matches(Last(rows), line, column) then Some(|rows| - 1)
    else LinearScan(Front(rows), line, column)
  }

  /** The nearest mapping: the matching row with the greatest column, the last of several. */
  ghost predicate Answers(rows: seq<Row>, line: real, column: real, r: Option<nat>) {
    match r
    case None => forall k :: 0 <= k < |rows| ==> !Matches(rows[k], line, column)
    case Some(b) =>
      && b < |rows| && Matches(rows[b], line, column)
      && forall k :: 0 <= k < |rows| && Matches(rows[k], line, column) ==>
           rows[k].genCol < rows[b].genCol || (rows[k].genCol == rows[b].genCol && k <= b)
  }

  /** Where the search for a position ends up when it has narrowed to `count` rows from `index`. */
  function Probe(rows: seq<Row>, line: real, column: real, index: nat, count: nat): (p: nat)
    requires index + count <= |rows|
    ensures index <= p <= index + count
    decreases count
  {
    if count == 0 then index
    else
      var step := count / 2;
      if AtOrBefore(rows[index + step], line, column)
      then Probe(rows, line, column, index + step + 1, count - step - 1)
      else Probe(rows, line, column, index, step)
  }

  /** The row the search returns, if any. */
  function Search(rows: seq<Row>, line: real, column: real): (r: Option<nat>)
    ensures r.Some? ==> r.value < |rows|
  {
    var p := Probe(rows, line, column, 0, |rows|);
    if p > 0 && rows[p - 1].genLine as real == line then Some(p - 1) else None
  }

  /** The rows laid out in a flat array. */
  function Unflat(d: seq<int>): (rows: seq<Row>)
    requires |d| % 6 == 0
    ensures |rows| == |d| / 6
  {
    seq(|d| / 6, r requires 0 <= r < |d| / 6 => RowAt(d, 6 * r))
  }

  lemma {:induction false} FlatAt(rows: seq<Row>, r: nat)
    requires r < |rows|
    ensures RowAt(Flat(rows), 6 * r) == rows[r]
  {
    if r < |rows| - 1 {
      FlatAt(Front(rows), r);
    }
  }

  lemma {:induction false} UnflatFlat(rows: seq<Row>)
    ensures Unflat(Flat(rows)) == rows
  {
    forall r: nat | r < |rows| ensures Unflat(Flat(rows))[r] == rows[r] {
      FlatAt(rows, r);
    }
  }

  lemma {:induction false} ProbeStep(rows: seq<Row>, line: real, column: real, index: nat, count: nat)
    requires 0 < count && index + count <= |rows|
    ensures var step := count / 2;
            Probe(rows, line, column, index, count)
            == if AtOrBefore(rows[index + step], line, column)
               then Probe(rows, line, column, index + step + 1, count - (step + 1))
               else Probe(rows, line, column, index, step)
  {
    assert count - (count / 2 + 1) == count - count / 2 - 1;
  }

  // ----- the search on the cells of any array

  /** The comparison at cell `j`; one with a cell past the end is false. */
  predicate CellAtOrBefore(d: seq<int>, j: nat, line: real, column: real) {
    && j < |d|
    && (d[j] as real < line || (d[j] as real == line && j + 1 < |d| && d[j + 1] as real <= column))
  }

  /** The loop on the cells. The count starts as a sixth of the length, which is a fraction if
      the last row is cut off. */
  function ProbeCells(d: seq<int>, line: real, column: real, index: nat, count: real): nat
    decreases if count > 0.0 then count.Floor + 1 else 0
  {
    if count <= 0.0 then index
    else
      var step := (count / 2.0).Floor;
      if CellAtOrBefore(d, 6 * (index + step), line, column)
      then ProbeCells(d, line, column, index + step + 1, count - (step + 1) as real)
      else ProbeCells(d, line, column, index, step as real)
  }

  function SearchCells(d: seq<int>, line: real, column: real): (r: Option<nat>)
    ensures r.Some? ==> r.value < |d|
  {
    var p := ProbeCells(d, line, column, 0, |d| as real / 6.0);
    if p > 0 && 6 * (p - 1) < |d| && d[6 * (p - 1)] as real == line then Some(6 * (p - 1)) else None
  }

  lemma {:induction false} CellsOfRow(d: seq<int>, r: nat, line: real, column: real)
    requires |d| % 6 == 0 && r < |d| / 6
    ensures 6 * r + 1 < |d| && d[6 * r] == Unflat(d)[r].genLine
    ensures CellAtOrBefore(d, 6 * r, line, column) == AtOrBefore(Unflat(d)[r], line, column)
  {
    assert Unflat(d)[r] == RowAt(d, 6 * r);
  }

  lemma {:induction false} ProbeCellsStep(d: seq<int>, line: real, column: real, index: nat, count: real)
    ensures count <= 0.0 ==> ProbeCells(d, line, column, index, count) == index
    ensures count > 0.0 ==>
              var step := (count / 2.0).Floor;
              && step >= 0
              && ProbeCells(d, line, column, index, count)
              == (if CellAtOrBefore(d, 6 * (index + step), line, column)
                  then ProbeCells(d, line, column, index + step + 1, count - (step + 1) as real)
                  else ProbeCells(d, line, column, index, step as real))
              && (step as real).Floor < count.Floor + 1
              && (count > (step + 1) as real ==> (count - (step + 1) as real).Floor < count.Floor)
  {
  }

  lemma {:induction false} ProbeOfRows(d: seq<int>, line: real, column: real, index: nat, count: nat)
    requires |d| % 6 == 0 && index + count <= |d| / 6
    ensures ProbeCells(d, line, column, index, count as real) == Probe(Unflat(d), line, column, index, count)
    decreases count
  {
    hide Unflat, CellAtOrBefore, AtOrBefore, ProbeCells, Probe;
    ProbeCellsStep(d, line, column, index, count as real);
    if count > 0 {
      var step := count / 2;
      assert count == 2 * step + count % 2 && (count as real / 2.0).Floor == step;
      ProbeStep(Unflat(d), line, column, index, count);
      CellsOfRow(d, index + step, line, column);
      ProbeOfRows(d, line, column, index + step + 1, count - (step + 1));
      ProbeOfRows(d, line, column, index, step);
    }
  }

  lemma {:induction false} SearchOfRows(d: seq<int>, line: real, column: real)
    ensures |d| % 6 == 0 ==> SearchCells(d, line, column) == match Search(Unflat(d), line, column)
                                                            case None => None
                                                            case Some(row) => Some(6 * row)
  {
    hide Unflat, ProbeCells, Probe, AtOrBefore, CellAtOrBefore;
    if |d| % 6 == 0 {
      assert |d| as real / 6.0 == (|d| / 6) as real;
      ProbeOfRows(d, line, column, 0, |d| / 6);
      var p := Probe(Unflat(d), line, column, 0, |d| / 6);
      if p > 0 {
        CellsOfRow(d, p - 1, line, column);
      }
    }
  }

  // ----- the loops of the source

  /** The binary search over the flat array: an index into it, or null. */
  method IndexOfMapping(mappings: seq<int>, line: real, column: real) returns (r: Option<nat>)
    ensures r == SearchCells(mappings, line, column)
    ensures |mappings| % 6 == 0 ==> r == match Search(Unflat(mappings), line, column)
                                         case None => None
                                         case Some(row) => Some(6 * row)
  {
    hide Unflat, ProbeCells, Search;
    SearchOfRows(mappings, line, column);
    var count, index := |mappings| as real / 6.0, 0;
    while count > 0.0
      invariant 0 <= index
      invariant ProbeCells(mappings, line, column, index, count) == ProbeCells(mappings, line, column, 0, |mappings| as real / 6.0)
      decreases if count > 0.0 then count.Floor + 1 else 0
    {
      ProbeCellsStep(mappings, line, column, index, count);
      var step := (count / 2.0).Floor;
      var i := index + step;
      var j := i * 6;
      if j < |mappings|
         && (mappings[j] as real < line
             || (mappings[j] as real == line && j + 1 < |mappings| && mappings[j + 1] as real <= column)) {
        index := i + 1;
        count := count - (step + 1) as real;
      } else {
        count := step as real;
      }
    }
    ProbeCellsStep(mappings, line, column, index, count);
    if index > 0 {
      if (index - 1) * 6 < |mappings| && mappings[(index - 1) * 6] as real == line {
        return Some((index - 1) * 6);
      }
    }
    r := None;
  }

  /** What `remapPosition` returns for a table of whole rows. A miss is `null`, which the test
      for -1 lets through, so a miss reads row 0. */
  function Remap(rows: seq<Row>, line: real, column: real): Option<(int, int)> {
    if rows == [] || line < 0.0 || column < 0.0 then None
    else
      match Search(rows, line, column)
      case Some(r) => Some((rows[r].line + 1, rows[r].column))
      case None => Some((rows[0].line + 1, rows[0].column))
  }

  /** A cell of the array, if it is not past the end. */
  function Cell(d: seq<int>, j: nat): Option<int> {
    if j < |d| then Some(d[j]) else None
  }

  /** The position read, or null. A number is None where a cell past the end makes it no number. */
  method RemapPosition(decodedMappings: seq<int>, line: real, column: real) returns (r: Option<(Option<int>, Option<int>)>)
    ensures r.None? <==> decodedMappings == [] || line < 0.0 || column < 0.0
    ensures r.Some? ==>
              var j := match SearchCells(decodedMappings, line, column) case Some(j) => j case None => 0;
              && r.value.1 == Cell(decodedMappings, j + 4)
              && r.value.0 == match Cell(decodedMappings, j + 3) case Some(v) => Some(v + 1) case None => None
    ensures |decodedMappings| % 6 == 0 ==> r == match Remap(Unflat(decodedMappings), line, column)
                                                case None => None
                                                case Some((a, b)) => Some((Some(a), Some(b)))
  {
    hide SearchCells, Search;
    if |decodedMappings| == 0 || line < 0.0 || column < 0.0 {
      return None;
    }
    var found := IndexOfMapping(decodedMappings, line, column);
    var index := match found case Some(j) => j case None => 0;  // null + 3 is 3
    var sourceLine := Cell(decodedMappings, index + 3);
    if |decodedMappings| % 6 == 0 {
      assert index == 6 * (index / 6) && Unflat(decodedMappings)[index / 6] == RowAt(decodedMappings, index);
    }
    r := Some((if sourceLine.Some? then Some(sourceLine.value + 1) else None, Cell(decodedMappings, index + 4)));
  }

  // ----- correctness on an ordered table

  /** On an ordered table the search splits the rows at the position. */
  lemma {:induction false} ProbeSplits(rows: seq<Row>, line: real, column: real, index: nat, count: nat)
    requires Ordered(rows) && index + count <= |rows|
    requires forall k :: 0 <= k < index ==> AtOrBefore(rows[k], line, column)
    requires forall k :: index + count <= k < |rows| ==> !AtOrBefore(rows[k], line, column)
    ensures var p := Probe(rows, line, column, index, count);
            && (forall k :: 0 <= k < p ==> AtOrBefore(rows[k], line, column))
            && (forall k :: p <= k < |rows| ==> !AtOrBefore(rows[k], line, column))
    decreases count
  {
    hide AtOrBefore, Before, Probe;
    if count > 0 {
      ProbeStep(rows, line, column, index, count);
      var step := count / 2;
      var i := index + step;
      if AtOrBefore(rows[i], line, column) {
        forall k | 0 <= k < i ensures AtOrBefore(rows[k], line, column) {
          BeforeLater(rows[k], rows[i], line, column, line, column);
        }
        ProbeSplits(rows, line, column, i + 1, count - (step + 1));
      } else {
        forall k | i < k < |rows| ensures !AtOrBefore(rows[k], line, column) {
          BeforeLater(rows[i], rows[k], line, column, line, column);
        }
        ProbeSplits(rows, line, column, index, step);
      }
    }
  }

  /** What comes before a row at or before a position is at or before any later position. */
  lemma {:induction false} BeforeLater(a: Row, b: Row, line1: real, column1: real, line2: real, column2: real)
    requires (a == b || Before(a, b)) && (line1 < line2 || (line1 == line2 && column1 <= column2))
    ensures AtOrBefore(b, line1, column1) ==> AtOrBefore(a, line2, column2)
  {
  }

  /** Where the rows split at the position, the row before the split is the answer, if it is
      on the line. */
  lemma {:induction false} SplitAnswers(rows: seq<Row>, line: real, column: real, p: nat)
    requires Ordered(rows) && p <= |rows|
    requires forall k :: 0 <= k < p ==> AtOrBefore(rows[k], line, column)
    requires forall k :: p <= k < |rows| ==> !AtOrBefore(rows[k], line, column)
    ensures Answers(rows, line, column, if p > 0 && rows[p - 1].genLine as real == line then Some(p - 1) else None)
    ensures forall k :: p <= k < |rows| ==> !Matches(rows[k], line, column)
  {
    forall k | 0 <= k < |rows| && Matches(rows[k], line, column)
      ensures k < p && rows[k].genLine == rows[p - 1].genLine && rows[k].genCol <= rows[p - 1].genCol
    {
      assert k < p;
      assert k < p - 1 ==> Before(rows[k], rows[p - 1]);
    }
  }

  /** The binary search and the linear scan agree, and find the nearest mapping. */
  lemma {:induction false} SearchIsScan(rows: seq<Row>, line: real, column: real)
    requires Ordered(rows)
    ensures Search(rows, line, column) == LinearScan(rows, line, column)
    ensures Answers(rows, line, column, Search(rows, line, column))
  {
    hide Ordered, Probe, Before, AtOrBefore, Matches, LinearScan;
    ProbeSplits(rows, line, column, 0, |rows|);
    SplitAnswers(rows, line, column, Probe(rows, line, column, 0, |rows|));
  }

  /** Decoding and then searching is a linear scan of the decoded rows, for every accepted
      string whose unsorted lines, such as an unterminated last one, are read in order. */
  lemma {:induction false} DecodeThenSearch(s: seq<CodeUnit>, n: int, line: real, column: real)
    requires |s| < TWO_31
    ensures ReadInOrder(s, n) ==>
              && Decode(s, n).Success?
              && var rows := Decode(s, n).value;
                 && Search(rows, line, column) == LinearScan(rows, line, column)
                 && Answers(rows, line, column, Search(rows, line, column))
  {
    hide Decode, ReadInOrder, Search, LinearScan, Answers;
    OrderedExactly(s, n);
    if ReadInOrder(s, n) {
      SearchIsScan(Decode(s, n).value, line, column);
    }
  }

  // ----- when an unordered table misleads the search

  /** A later position never ends up earlier. */
  lemma {:induction false} ProbeMonotone(rows: seq<Row>, line1: real, column1: real, line2: real, column2: real,
                                         index: nat, count: nat)
    requires index + count <= |rows|
    requires line1 < line2 || (line1 == line2 && column1 <= column2)
    ensures Probe(rows, line1, column1, index, count) <= Probe(rows, line2, column2, index, count)
    decreases count
  {
    hide AtOrBefore, Probe;
    if count > 0 {
      var step := count / 2;
      ProbeStep(rows, line1, column1, index, count);
      ProbeStep(rows, line2, column2, index, count);
      BeforeLater(rows[index + step], rows[index + step], line1, column1, line2, column2);
      if AtOrBefore(rows[index + step], line1, column1) {
        ProbeMonotone(rows, line1, column1, line2, column2, index + step + 1, count - (step + 1));
      } else if !AtOrBefore(rows[index + step], line2, column2) {
        ProbeMonotone(rows, line1, column1, line2, column2, index, step);
      }
    }
  }

  ghost predicate DistinctPositions(rows: seq<Row>) {
    forall i, j :: 0 <= i < j < |rows| ==> rows[i].genLine != rows[j].genLine || rows[i].genCol != rows[j].genCol
  }

  /** Asking for the very position of a row must give that row. */
  lemma {:induction false} OwnPosition(rows: seq<Row>, i: nat)
    requires DistinctPositions(rows) && i < |rows|
    requires Answers(rows, rows[i].genLine as real, rows[i].genCol as real,
                     Search(rows, rows[i].genLine as real, rows[i].genCol as real))
    ensures Probe(rows, rows[i].genLine as real, rows[i].genCol as real, 0, |rows|) == i + 1
  {
    hide Probe;
    var line, column := rows[i].genLine as real, rows[i].genCol as real;
    assert Matches(rows[i], line, column);
    var b := Search(rows, line, column).value;
    assert rows[b].genLine == rows[i].genLine && rows[b].genCol == rows[i].genCol;
    assert b == i;
  }

  lemma {:induction false} NeighboursOrder(rows: seq<Row>)
    requires forall i :: 0 <= i < |rows| - 1 ==> Before(rows[i], rows[i + 1])
    ensures Ordered(rows)
  {
    if rows != [] {
      NeighboursOrder(Front(rows));
      forall i | 0 <= i < |rows| - 1 ensures Before(rows[i], Last(rows)) {
        if i < |rows| - 2 {
          assert Before(Front(rows)[i], Front(rows)[|rows| - 2]);
        }
      }
    }
  }

  ghost predicate AlwaysRight(rows: seq<Row>) {
    forall line: real, column: real :: Answers(rows, line, column, Search(rows, line, column))
  }

  lemma {:induction false} MisorderedIsMisread(rows: seq<Row>, i: nat)
    requires DistinctPositions(rows) && i + 1 < |rows| && !Before(rows[i], rows[i + 1])
    ensures !AlwaysRight(rows)
  {
    hide Probe, Search, Answers, DistinctPositions;
    var a, b := rows[i], rows[i + 1];
    if AlwaysRight(rows) {
      OwnPosition(rows, i);
      OwnPosition(rows, i + 1);
      ProbeMonotone(rows, b.genLine as real, b.genCol as real, a.genLine as real, a.genCol as real, 0, |rows|);
      assert false;
    }
  }

  lemma {:induction false} OrderedIsRight(rows: seq<Row>)
    requires Ordered(rows)
    ensures AlwaysRight(rows)
  {
    hide Answers, Search, Ordered;
    forall line: real, column: real ensures Answers(rows, line, column, Search(rows, line, column)) {
      SearchIsScan(rows, line, column);
    }
  }

  /** Where no two rows share a position, every query is answered right exactly when the
      table is ordered. */
  lemma {:induction false} SearchRightIffOrdered(rows: seq<Row>)
    requires DistinctPositions(rows)
    ensures AlwaysRight(rows) <==> Ordered(rows)
  {
    hide AlwaysRight, DistinctPositions;
    if Ordered(rows) {
      OrderedIsRight(rows);
    } else if i: nat :| i + 1 < |rows| && !Before(rows[i], rows[i + 1]) {
      MisorderedIsMisread(rows, i);
    } else {
      NeighboursOrder(rows);
    }
  }

  /** Of an encoded string whose last line is left open, every position is looked up right
      exactly when that line was written in column order. */
  lemma {:induction false} OpenLineMustAscend(lines: seq<seq<Segment>>, n: int)
    requires lines != [] && LinesOk(ZERO, lines, n) && |EncodeLines(ZERO, lines)| < TWO_31
    requires DistinctPositions(Assemble(TableRows(0, lines)))
    ensures var rows := Decode(EncodeLines(ZERO, lines), n);
            && rows.Success?
            && (AlwaysRight(rows.value) <==> Ascending(TableRows(0, lines)[|lines| - 1]))
  {
    hide Emit, ColumnsFit, LinesOk, Assemble, TableRows, Ascending, AlwaysRight, DistinctPositions, Decode, ReadInOrder, Ordered, EncodeLines;
    var s, tables := EncodeLines(ZERO, lines), TableRows(0, lines);
    DecodeEncode(lines, n);
    assert s[0..] == s;
    LinesEmit(s, n, 0, ZERO, 0, lines);
    OrderedExactly(s, n);
    FitsReadInOrder(s, n);
    SearchRightIffOrdered(Assemble(tables));
  }

  /** What a caller of `remapPosition` expects: null on a miss. */
  function RemapReference(rows: seq<Row>, line: real, column: real): Option<(int, int)> {
    if line < 0.0 || column < 0.0 then None
    else
      match LinearScan(rows, line, column)
      case None => None
      case Some(r) => Some((rows[r].line + 1, rows[r].column))
  }

  /** It meets that expectation exactly on an empty table, a negative position, or a hit;
      every miss in a table with rows yields the original position of row 0. */
  lemma {:induction false} RemapRightIffHit(rows: seq<Row>, line: real, column: real)
    requires Ordered(rows)
    ensures Remap(rows, line, column) == RemapReference(rows, line, column)
       <==> rows == [] || line < 0.0 || column < 0.0 || exists k :: 0 <= k < |rows| && Matches(rows[k], line, column)
  {
    SearchIsScan(rows, line, column);
  }
}
