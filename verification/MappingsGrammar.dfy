/** The mappings grammar field by field: where a number ends, which segments are accepted, which
    error the first violation raises, and what is known of every row. */
module MappingsGrammar {
  import opened JsNumbers
  import opened Vlq
  import opened MappingRows
  import opened MappingsDecoder
  import opened Wrappers

  // ----- numbers

  /** A base64 digit with the continuation bit: the second half of the alphabet. */
  predicate Continues(c: CodeUnit) {
    'g' as int <= c <= 'z' as int || '0' as int <= c <= '9' as int || c == '+' as int || c == '/' as int
  }

  /** A base64 digit without it. */
  predicate Ends(c: CodeUnit) {
    'A' as int <= c <= 'Z' as int || 'a' as int <= c <= 'f' as int
  }

  /** A number is digits that continue and one that ends it; otherwise the error is at the first
      code unit that is no digit, or at the end of the string. */
  lemma {:induction false} NumberEnds(s: seq<CodeUnit>, i: nat, shift: nat, vlq: nat)
    ensures match DecodeFrom(s, i, shift, vlq)
            case Success(number) =>
              i < number.next <= |s| && Ends(s[number.next - 1]) && forall k :: i <= k < number.next - 1 ==> Continues(s[k])
            case Failure(DecodeError(index, text)) =>
              && i <= index && (forall k :: i <= k < index && k < |s| ==> Continues(s[k]))
              && (if index < |s| then text == InvalidCharacter && !Continues(s[index]) && !Ends(s[index])
                  else text == ExpectedExtraData && (index == |s| || index == i))
    decreases |s| - i
  {
    hide SignedValue, OrBits, ShiftLeft;
    if i < |s| && Continues(s[i]) {
      NumberEnds(s, i + 1, shift + 5, OrBits(vlq, ShiftLeft(DigitOf(s[i]) % 32, shift)));
    }
  }

  // ----- segments

  function Accumulators(regs: Registers): (acc: seq<int>)
    ensures |acc| == 5
  {
    [regs.column, regs.source, regs.line, regs.origColumn, regs.name]
  }

  /** The error for a field whose accumulator is negative, or for a source that is not there. */
  const TEXTS: seq<ErrorText> :=
    [InvalidGeneratedColumn, InvalidOriginalSource, InvalidOriginalLine, InvalidOriginalColumn, InvalidOriginalName]

  /** One field after the other, from field `m` on: a separator ends a segment of 1, 4 or 5. */
  function FieldsFrom(s: seq<CodeUnit>, sourcesCount: int, i: nat, acc: seq<int>, m: nat): Result<(nat, seq<int>, nat), DecodeError>
    requires |acc| == 5 && m <= 5
    decreases 5 - m
  {
    if (m == 1 || m >= 4) && AtSeparator(s, i) then Success((m, acc, i))
    else if m == 5 then Failure(DecodeError(i, InvalidCharacterAfterMapping))
    else
      var delta :- DecodeAt(s, i);
      var value := acc[m] + delta.value;
      if value < 0 || (m == 1 && value >= sourcesCount) then Failure(DecodeError(delta.next, TEXTS[m]))
      else FieldsFrom(s, sourcesCount, delta.next, acc[m := value], m + 1)
  }

  /** The nested reader reads just that. */
  lemma {:induction false} SegmentIsFields(s: seq<CodeUnit>, sourcesCount: int, i: nat, regs: Registers)
    ensures match FieldsFrom(s, sourcesCount, i, Accumulators(regs), 0)
            case Failure(e) => SegmentAt(s, sourcesCount, i, regs) == Failure(e)
            case Success((fields, acc, end)) =>
              var r := SegmentAt(s, sourcesCount, i, regs);
              r.Success? && r.value.fields == fields && Accumulators(r.value.regs) == acc && r.value.next == SkipComma(s, end)
  {
    hide DecodeAt, AtSeparator, SkipComma;
  }

  // ----- rows

  /** The row names a source that is there, or none. */
  ghost predicate InRange(r: Row, sourcesCount: int) {
    r.source == -1 || exists source: int :: 0 <= source < sourcesCount && r.source == ToInt32(source)
  }

  lemma {:induction false} SegmentInRange(s: seq<CodeUnit>, sourcesCount: int, i: nat, regs: Registers, genLine: nat)
    ensures var r := SegmentAt(s, sourcesCount, i, regs);
            r.Success? ==>
              && InRange(ToRow(genLine, r.value.fields, r.value.regs), sourcesCount)
              && (r.value.fields > 1 ==> 0 <= r.value.regs.source < sourcesCount && r.value.regs.line >= 0 && r.value.regs.origColumn >= 0)
              && (r.value.fields > 4 ==> r.value.regs.name >= 0)
  {
    hide DecodeAt, AtSeparator, SkipComma, ToInt32;
  }

  lemma {:induction false} SortedAreThere(rows: seq<Row>, r: Row)
    requires r in SortRows(rows)
    ensures r in rows
  {
    if rows != [] {
      InsertedIsThere(SortRows(Front(rows)), Last(rows), r);
      if r in SortRows(Front(rows)) {
        SortedAreThere(Front(rows), r);
      }
    }
  }

  lemma {:induction false} InsertedIsThere(rows: seq<Row>, added: Row, r: Row)
    requires r in Insert(rows, added)
    ensures r == added || r in rows
  {
    if rows != [] && Last(rows).genCol > added.genCol && r != Last(rows) {
      InsertedIsThere(Front(rows), added, r);
    }
  }

  ghost predicate AllInRange(rows: seq<Row>, sourcesCount: int) {
    forall r :: r in rows ==> InRange(r, sourcesCount)
  }

  lemma {:induction false} RunInRange(s: seq<CodeUnit>, sourcesCount: int, st: State)
    requires AllInRange(st.done, sourcesCount) && AllInRange(st.current, sourcesCount)
    ensures var r := Run(s, sourcesCount, st);
            r.Success? ==> AllInRange(r.value.done, sourcesCount) && AllInRange(r.value.current, sourcesCount)
    decreases |s| - st.i
  {
    hide SegmentAt, InRange, ToRow;
    if st.i >= |s| {
    } else if s[st.i] == SEMICOLON {
      forall r | r in SortRows(st.current) ensures InRange(r, sourcesCount) {
        SortedAreThere(st.current, r);
      }
      RunInRange(s, sourcesCount, CloseLine(st));
    } else if s[st.i] == COMMA {
      RunInRange(s, sourcesCount, st.(i := st.i + 1));
    } else {
      var seg := SegmentAt(s, sourcesCount, st.i, st.regs);
      if seg.Success? {
        SegmentInRange(s, sourcesCount, st.i, st.regs, st.genLine);
        RunInRange(s, sourcesCount, AddSegment(st, seg.value));
      }
    }
  }

  /** Every row of an accepted string names one of the sources, or none. */
  lemma {:induction false} DecodeInRange(s: seq<CodeUnit>, sourcesCount: int)
    ensures Decode(s, sourcesCount).Success? ==> AllInRange(Decode(s, sourcesCount).value, sourcesCount)
  {
    hide Run, InRange;
    RunInRange(s, sourcesCount, START);
  }
}
