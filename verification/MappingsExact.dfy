/** Exactly which accepted strings decode to an ordered table, and so are searched right. */
module MappingsExact {
  import opened JsNumbers
  import opened Vlq
  import opened MappingRows
  import opened MappingsDecoder
  import opened MappingsOrder
  import opened MappingsCodec
  import opened MappingsLookup
  import opened Wrappers

  /** For every accepted string read in order, each position is looked up right; where rows
      have distinct positions, for no other. */
  lemma {:induction false} SearchedRightExactly(s: seq<CodeUnit>, n: int)
    requires |s| < TWO_31
    ensures match Decode(s, n)
            case Failure(_) => true
            case Success(rows) =>
              && (ReadInOrder(s, n) ==> AlwaysRight(rows))
              && (DistinctPositions(rows) ==> (AlwaysRight(rows) <==> ReadInOrder(s, n)))
  {
    hide Decode, ReadInOrder, Ordered, AlwaysRight, DistinctPositions;
    OrderedExactly(s, n);
    match Decode(s, n) {
      case Failure(_) =>
      case Success(rows) =>
        if ReadInOrder(s, n) {
          OrderedIsRight(rows);
        }
        if DistinctPositions(rows) {
          SearchRightIffOrdered(rows);
        }
    }
  }

  /** A closed line of `k` segments, each `d` columns after the one before. */
  function Wide(d: int, k: nat): seq<CodeUnit>
    decreases k
  {
    if k == 0 then [SEMICOLON] else Encode(d) + ([COMMA] + Wide(d, k - 1))
  }

  /** The rows of its segments, as stored, if the line goes on from column `col`. */
  function WideRows(col: int, d: int, k: nat): seq<Row>
    decreases k
  {
    if k == 0 then [] else [Row(0, ToInt32(col + d), -1, -1, -1, -1)] + WideRows(col + d, d, k - 1)
  }

  /** The state after one more of its segments. */
  function WideNext(st: State, d: int): State {
    var col := st.regs.column + d;
    st.(i := st.i + |Encode(d)| + 1, regs := st.regs.(column := col),
        current := st.current + [Row(0, ToInt32(col), -1, -1, -1, -1)])
  }

  lemma {:induction false} RunSegment(s: seq<CodeUnit>, st: State)
    requires st.i < |s| && s[st.i] != SEMICOLON && s[st.i] != COMMA && SegmentAt(s, 0, st.i, st.regs).Success?
    ensures Run(s, 0, st) == Run(s, 0, AddSegment(st, SegmentAt(s, 0, st.i, st.regs).value))
  {
    hide SegmentAt;
  }

  /** A run at a segment of one field. */
  lemma {:induction false} GeneratedStep(s: seq<CodeUnit>, st: State, d: int, rest: seq<CodeUnit>)
    requires 0 <= st.regs.column && 0 <= d < 0x4000_0000 && st.genLine == 0
    requires st.i <= |s| && s[st.i..] == Encode(d) + ([COMMA] + rest)
    ensures var next := WideNext(st, d);
            next.i <= |s| && s[next.i..] == rest && Run(s, 0, st) == Run(s, 0, next)
  {
    hide SegmentAt, Run, ToInt32, SkipComma, AtEnd, Encode;
    var tail := [COMMA] + rest;
    assert tail[1..] == rest;
    Follows(s, st.i, Encode(d), tail);
    GeneratedDecodes(s, 0, st.i, st.regs, Generated(st.regs.column + d), tail);
    assert s[st.i] == s[st.i..][0];
    RunSegment(s, st);
  }

  lemma {:induction false} SemicolonEnds(s: seq<CodeUnit>, st: State)
    requires st.i <= |s| && s[st.i..] == [SEMICOLON] && st.done == [] && !st.needToSort
    ensures Run(s, 0, st) == Success(CloseLine(st)) && CloseLine(st).done + CloseLine(st).current == st.current
  {
    assert s[st.i] == s[st.i..][0] && |s| == st.i + 1;
    assert [] + st.current == st.current;
  }

  lemma {:induction false} WideRuns(s: seq<CodeUnit>, st: State, d: int, k: nat)
    requires 0 <= st.regs.column && 0 <= d < 0x4000_0000 && st.genLine == 0 && st.done == [] && !st.needToSort
    requires st.i <= |s| && s[st.i..] == Wide(d, k)
    ensures var r := Run(s, 0, st);
            r.Success? && r.value.done + r.value.current == st.current + WideRows(st.regs.column, d, k)
    decreases k
  {
    hide Run, Encode, ToInt32, CloseLine;
    if k == 0 {
      SemicolonEnds(s, st);
      assert st.current + [] == st.current;
    } else {
      var next := WideNext(st, d);
      GeneratedStep(s, st, d, Wide(d, k - 1));
      hide Wide;
      WideRuns(s, next, d, k - 1);
      assert next.current + WideRows(next.regs.column, d, k - 1) == st.current + WideRows(st.regs.column, d, k);
    }
  }

  /** A column past 2^31 is stored as a negative number: a closed line without any backward
      step then ends up out of order, and some position is looked up wrong. */
  lemma {:induction false} WideColumnsMislead(d: int)
    requires 0x2aaa_aaab <= d < 0x4000_0000
    ensures Decode(Wide(d, 3), 0) == Success(WideRows(0, d, 3))
    ensures WideRows(0, d, 3)[2].genCol == 3 * d - TWO_32
    ensures !Ordered(WideRows(0, d, 3)) && !AlwaysRight(WideRows(0, d, 3))
  {
    hide Run, Wide, WideRows, Ordered, AlwaysRight, DistinctPositions;
    WideRowsAre(d);
    assert Wide(d, 3)[0..] == Wide(d, 3);
    WideRuns(Wide(d, 3), START, d, 3);
    assert [] + WideRows(0, d, 3) == WideRows(0, d, 3);
    SearchRightIffOrdered(WideRows(0, d, 3));
  }

  lemma {:induction false} WideRowsAre(d: int)
    requires 0x2aaa_aaab <= d < 0x4000_0000
    ensures |WideRows(0, d, 3)| == 3 && WideRows(0, d, 3)[2].genCol == 3 * d - TWO_32
    ensures !Ordered(WideRows(0, d, 3)) && DistinctPositions(WideRows(0, d, 3))
  {
    var rows := WideRows(0, d, 3);
    assert rows[0] == Row(0, ToInt32(d), -1, -1, -1, -1);
    assert rows[1..] == WideRows(d, d, 2) && rows[1..][1..] == WideRows(d + d, d, 1);
    assert rows[1] == Row(0, ToInt32(d + d), -1, -1, -1, -1);
    assert rows[2] == Row(0, ToInt32(d + d + d), -1, -1, -1, -1);
    assert !Before(rows[0], rows[2]);
  }
}
