/** The end of central directory record of a ZIP archive (PKWARE APPNOTE, section 4.3.16), byte
    by byte, and exactly when its signature seems to begin once more behind its start. */
module ZipEndRecord {
  import opened Bytes

  const EOCD_SIGNATURE: nat := 0x0605_4b50

  /** The end of central directory record. */
  function EndRecord(count: nat, size: nat, offset: nat, comment: seq<Byte>): (b: seq<Byte>)
    requires count < 0x1_0000 && size < 0x1_0000_0000 && offset < 0x1_0000_0000 && |comment| < 0x1_0000
    ensures |b| == 22 + |comment|
  {
    LE32(EOCD_SIGNATURE) + LE16(0) + LE16(0) + LE16(count) + LE16(count) + LE32(size) + LE32(offset) + LE16(|comment|) + comment
  }

  // ----- what may mislead a backward scan

  /** The signature begins in the count or the size. */
  predicate SizeSpells(count: nat, size: nat, offset: nat, n: nat) {
    || (n >= 10 && count == 0x4b50 && size % 0x1_0000 == 0x0605)
    || (n >= 11 && count / 0x100 == 0x50 && size % 0x100_0000 == 0x06_054b)
    || (n >= 12 && size == EOCD_SIGNATURE)
    || (n >= 13 && size / 0x100 == 0x05_4b50 && offset % 0x100 == 0x06)
    || (n >= 14 && size / 0x1_0000 == 0x4b50 && offset % 0x1_0000 == 0x0605)
    || (n >= 15 && size / 0x100_0000 == 0x50 && offset % 0x100_0000 == 0x06_054b)
  }

  /** The signature begins in the offset or the length of the comment. */
  predicate OffsetSpells(offset: nat, comment: seq<Byte>) {
    var n := |comment|;
    || (n >= 16 && offset == EOCD_SIGNATURE)
    || (n >= 17 && offset / 0x100 == 0x05_4b50 && n % 0x100 == 0x06)
    || (offset / 0x1_0000 == 0x4b50 && n == 0x0605)
    || (offset / 0x100_0000 == 0x50 && n == 0x054b && comment[0] == 0x06)
    || (n == 0x4b50 && comment[0] == 0x05 && comment[1] == 0x06)
    || (n / 0x100 == 0x50 && comment[0] == 0x4b && comment[1] == 0x05 && comment[2] == 0x06)
  }

  /** The signature stands in the comment, where a whole record would still fit. */
  ghost predicate CommentSpells(comment: seq<Byte>) {
    exists k: nat :: k + 22 <= |comment| && U32(comment, k) == EOCD_SIGNATURE
  }

  /** A signature begins inside the record, behind its start, where a record would fit. */
  ghost predicate SpelledAgain(end: seq<Byte>) {
    exists d: nat :: 1 <= d && d + 22 <= |end| && U32(end, d) == EOCD_SIGNATURE
  }

  // ----- the bytes of the record

  lemma {:induction false} EndRecordParts(count: nat, size: nat, offset: nat, comment: seq<Byte>)
    requires count < 0x1_0000 && size < 0x1_0000_0000 && offset < 0x1_0000_0000 && |comment| < 0x1_0000
    ensures var e := EndRecord(count, size, offset, comment);
            && e[0..4] == LE32(EOCD_SIGNATURE) && e[4..6] == LE16(0) && e[6..8] == LE16(0)
            && e[8..10] == LE16(count) && e[10..12] == LE16(count)
            && e[12..16] == LE32(size) && e[16..20] == LE32(offset) && e[20..22] == LE16(|comment|) && e[22..] == comment
  {
    hide LE16, LE32;
  }

  function Two(low: int, high: int): int {
    low + 0x100 * high
  }

  function Three(low: int, middle: int, high: int): int {
    low + 0x100 * middle + 0x1_0000 * high
  }

  /** The two bytes at `i` are those of `n`. */
  ghost predicate Holds16(b: seq<Byte>, i: nat, n: nat)
    requires i + 2 <= |b|
  {
    b[i] == n % 0x100 && b[i + 1] == n / 0x100 && Two(b[i], b[i + 1]) == n
  }

  /** The four bytes at `i` are those of `n`. */
  ghost predicate Holds32(b: seq<Byte>, i: nat, n: nat)
    requires i + 4 <= |b|
  {
    && Two(b[i], b[i + 1]) == n % 0x1_0000 && Two(b[i + 2], b[i + 3]) == n / 0x1_0000
    && b[i] == n % 0x100 && b[i + 3] == n / 0x100_0000
    && Three(b[i], b[i + 1], b[i + 2]) == n % 0x100_0000
    && Three(b[i + 1], b[i + 2], b[i + 3]) == n / 0x100
  }

  lemma {:induction false} BytesOf16(b: seq<Byte>, i: nat, n: nat)
    requires n < 0x1_0000 && i + 2 <= |b| && b[i..i + 2] == LE16(n)
    ensures Holds16(b, i, n)
  {
    assert b[i] == b[i..i + 2][0] && b[i + 1] == b[i..i + 2][1];
  }

  lemma {:induction false} BytesOf32(b: seq<Byte>, i: nat, n: nat)
    requires n < 0x1_0000_0000 && i + 4 <= |b| && b[i..i + 4] == LE32(n)
    ensures Holds32(b, i, n)
  {
    assert b[i] == b[i..i + 4][0] && b[i + 1] == b[i..i + 4][1] && b[i + 2] == b[i..i + 4][2] && b[i + 3] == b[i..i + 4][3];
    assert LE32(n)[..2] == LE16(n % 0x1_0000) && LE32(n)[2..] == LE16(n / 0x1_0000);
    var low, high := n % 0x1_0000, n / 0x1_0000;
    assert b[i] == low % 0x100 && b[i + 1] == low / 0x100 && b[i + 2] == high % 0x100 && b[i + 3] == high / 0x100;
  }

  /** The four bytes at `d` of the record and its comment spell the signature. */
  predicate SpelledAt(e: seq<Byte>, d: nat)
    requires d + 4 <= |e|
  {
    e[d] == 0x50 && e[d + 1] == 0x4b && e[d + 2] == 0x05 && e[d + 3] == 0x06
  }

  lemma {:induction false} SignatureBytes(b: seq<Byte>, i: nat)
    requires i + 4 <= |b|
    ensures U32(b, i) == EOCD_SIGNATURE <==> SpelledAt(b, i)
  {
  }

  /** The 22 fixed bytes. */
  ghost predicate FixedBytes(e: seq<Byte>, count: nat, size: nat, offset: nat, n: nat) {
    && |e| >= 22
    && Holds32(e, 0, EOCD_SIGNATURE) && Holds16(e, 4, 0) && Holds16(e, 6, 0)
    && Holds16(e, 8, count) && Holds16(e, 10, count)
    && Holds32(e, 12, size) && Holds32(e, 16, offset) && Holds16(e, 20, n)
  }

  lemma {:induction false} NotSpelledEarly(e: seq<Byte>, count: nat, size: nat, offset: nat, n: nat, d: nat)
    requires FixedBytes(e, count, size, offset, n) && 1 <= d < 10
    ensures !SpelledAt(e, d)
  {
    TwoIs(e[0], e[1], 0x50, 0x4b);
    TwoIs(e[2], e[3], 0x05, 0x06);
    assert e[4] == e[5] == e[6] == e[7] == 0 && e[8] == e[10] && e[9] == e[11];
  }

  lemma {:induction false} SpelledInSize(e: seq<Byte>, count: nat, size: nat, offset: nat, n: nat)
    requires FixedBytes(e, count, size, offset, n) && |e| == 22 + n
    requires count < 0x1_0000 && size < 0x1_0000_0000 && offset < 0x1_0000_0000
    ensures SizeSpells(count, size, offset, n) <==> exists d: nat :: 10 <= d < 16 && d <= n && SpelledAt(e, d)
  {
    hide SpelledAt, Holds16, Holds32;
    SizeWindows(e, count, size, offset, n);
  }

  lemma {:induction false} TwoIs(low: Byte, high: Byte, a: Byte, b: Byte)
    ensures Two(low, high) == Two(a, b) <==> low == a && high == b
  {
  }

  lemma {:induction false} ThreeIs(low: Byte, middle: Byte, high: Byte, a: Byte, b: Byte, c: Byte)
    ensures Three(low, middle, high) == Three(a, b, c) <==> low == a && middle == b && high == c
  {
    var x, y := Two(middle, high), Two(b, c);
    if low + 0x100 * x == a + 0x100 * y {
      assert -1 < x - y < 1;
    }
    TwoIs(middle, high, b, c);
  }

  lemma {:induction false} SizeWindows(e: seq<Byte>, count: nat, size: nat, offset: nat, n: nat)
    requires FixedBytes(e, count, size, offset, n)
    requires count < 0x1_0000 && size < 0x1_0000_0000 && offset < 0x1_0000_0000
    ensures SpelledAt(e, 10) <==> count == 0x4b50 && size % 0x1_0000 == 0x0605
    ensures SpelledAt(e, 11) <==> count / 0x100 == 0x50 && size % 0x100_0000 == 0x06_054b
    ensures SpelledAt(e, 12) <==> size == EOCD_SIGNATURE
    ensures SpelledAt(e, 13) <==> size / 0x100 == 0x05_4b50 && offset % 0x100 == 0x06
    ensures SpelledAt(e, 14) <==> size / 0x1_0000 == 0x4b50 && offset % 0x1_0000 == 0x0605
    ensures SpelledAt(e, 15) <==> size / 0x100_0000 == 0x50 && offset % 0x100_0000 == 0x06_054b
  {
    TwoIs(e[10], e[11], 0x50, 0x4b);
    TwoIs(e[12], e[13], 0x05, 0x06);
    ThreeIs(e[12], e[13], e[14], 0x4b, 0x05, 0x06);
  }

  lemma {:induction false} OffsetWindows(e: seq<Byte>, count: nat, size: nat, offset: nat, n: nat)
    requires FixedBytes(e, count, size, offset, n) && |e| == 22 + n
    requires size < 0x1_0000_0000 && offset < 0x1_0000_0000 && n < 0x1_0000
    ensures SpelledAt(e, 16) <==> offset == EOCD_SIGNATURE
    ensures SpelledAt(e, 17) <==> offset / 0x100 == 0x05_4b50 && n % 0x100 == 0x06
    ensures SpelledAt(e, 18) <==> offset / 0x1_0000 == 0x4b50 && n == 0x0605
  {
  }

  lemma {:induction false} CommentWindows(e: seq<Byte>, count: nat, size: nat, offset: nat, comment: seq<Byte>)
    requires FixedBytes(e, count, size, offset, |comment|) && |e| == 22 + |comment| && e[22..] == comment
    ensures var n := |comment|;
            && (n >= 1 ==> (SpelledAt(e, 19) <==> offset / 0x100_0000 == 0x50 && n == 0x054b && comment[0] == 0x06))
            && (n >= 2 ==> (SpelledAt(e, 20) <==> n == 0x4b50 && comment[0] == 0x05 && comment[1] == 0x06))
            && (n >= 3 ==> (SpelledAt(e, 21) <==>
                  n / 0x100 == 0x50 && comment[0] == 0x4b && comment[1] == 0x05 && comment[2] == 0x06))
  {
    assert forall k :: 0 <= k < |comment| ==> e[22 + k] == comment[k];
  }

  lemma {:induction false} SpelledInOffset(e: seq<Byte>, count: nat, size: nat, offset: nat, comment: seq<Byte>)
    requires FixedBytes(e, count, size, offset, |comment|) && |e| == 22 + |comment| && e[22..] == comment
    requires size < 0x1_0000_0000 && offset < 0x1_0000_0000 && |comment| < 0x1_0000
    ensures OffsetSpells(offset, comment) <==> exists d: nat :: 16 <= d < 22 && d <= |comment| && SpelledAt(e, d)
  {
    hide SpelledAt, FixedBytes;
    OffsetWindows(e, count, size, offset, |comment|);
    CommentWindows(e, count, size, offset, comment);
  }

  lemma {:induction false} SpelledInComment(e: seq<Byte>, comment: seq<Byte>)
    requires |e| == 22 + |comment| && e[22..] == comment
    ensures CommentSpells(comment) <==> exists d: nat :: 22 <= d <= |comment| && SpelledAt(e, d)
  {
    forall k: nat | k + 22 <= |comment| ensures U32(comment, k) == EOCD_SIGNATURE <==> SpelledAt(e, k + 22) {
      SignatureBytes(comment, k);
      assert forall i :: 0 <= i < |comment| ==> e[22 + i] == comment[i];
    }
    hide SpelledAt, U32;
    if d: nat :| 22 <= d <= |comment| && SpelledAt(e, d) {
      assert U32(comment, d - 22) == EOCD_SIGNATURE;
    }
  }

  /** The signature begins again behind the start of the record exactly in these cases. */
  lemma {:induction false} SpelledAgainIff(count: nat, size: nat, offset: nat, comment: seq<Byte>)
    requires count < 0x1_0000 && size < 0x1_0000_0000 && offset < 0x1_0000_0000 && |comment| < 0x1_0000
    ensures SpelledAgain(EndRecord(count, size, offset, comment))
       <==> SizeSpells(count, size, offset, |comment|) || OffsetSpells(offset, comment) || CommentSpells(comment)
  {
    hide EndRecord, LE16, LE32, Holds16, Holds32, SizeSpells, OffsetSpells, CommentSpells, SpelledAt, U32;
    var e := EndRecord(count, size, offset, comment);
    EndRecordParts(count, size, offset, comment);
    BytesOf32(e, 0, EOCD_SIGNATURE);
    BytesOf16(e, 4, 0);
    BytesOf16(e, 6, 0);
    BytesOf16(e, 8, count);
    BytesOf16(e, 10, count);
    BytesOf32(e, 12, size);
    BytesOf32(e, 16, offset);
    BytesOf16(e, 20, |comment|);
    SpelledInSize(e, count, size, offset, |comment|);
    SpelledInOffset(e, count, size, offset, comment);
    SpelledInComment(e, comment);
    forall d: nat | 1 <= d <= |comment| ensures U32(e, d) == EOCD_SIGNATURE <==> SpelledAt(e, d) {
      SignatureBytes(e, d);
    }
    forall d: nat | 1 <= d < 10 ensures !SpelledAt(e, d) {
      NotSpelledEarly(e, count, size, offset, |comment|, d);
    }
  }

}
