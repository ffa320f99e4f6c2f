/** The largest file of a ZIP archive, read from its tail (PKWARE APPNOTE, section 4.3). */
module ZipDirectory {
  import opened Bytes
  import opened Wrappers
  import opened ZipEndRecord

  const HEADER_SIGNATURE: nat := 0x0201_4b50
  const TAIL_SIZE: nat := 65536
  const SLASH: Byte := '/' as int

  datatype Error = NoEndRecord | DirectoryNotInTail | NoFileEntry

  function Min(a: int, b: int): int {
    if a <= b then a else b
  }

  function Max(a: int, b: int): int {
    if a <= b then b else a
  }

  // ----- the reader

  /** The last position at most `i`, and not below `low`, of the signature of an end record. */
  function FindEocd(buf: seq<Byte>, i: int, low: nat): (r: Option<nat>)
    requires i + 22 <= |buf|
    ensures r.Some? ==> low <= r.value <= i && U32(buf, r.value) == EOCD_SIGNATURE
    ensures forall k: nat :: (if r.Some? then r.value else low - 1) < k <= i ==> U32(buf, k) != EOCD_SIGNATURE
    decreases i - low
  {
    if i < low then None
    else if U32(buf, i) == EOCD_SIGNATURE then Some(i)
    else FindEocd(buf, i - 1, low)
  }

  /** The name of the header at `p` ends in a slash; a name cut off by the end of the buffer
      is judged by what is there. */
  predicate IsDirectoryAt(buf: seq<Byte>, p: nat)
    requires p + 46 <= |buf|
  {
    var end := Min(p + 46 + U16(buf, p + 28), |buf|);
    end > p + 46 && buf[end - 1] == SLASH
  }

  /** The length of the header at `p` with its name, extra field and comment. */
  function HeaderLength(buf: seq<Byte>, p: nat): (n: nat)
    requires p + 46 <= |buf|
    ensures n >= 46
  {
    46 + U16(buf, p + 28) + U16(buf, p + 30) + U16(buf, p + 32)
  }

  /** The walk from `p`, with the largest size so far. */
  function Walk(buf: seq<Byte>, eocd: nat, p: nat, size: nat): nat
    requires eocd <= |buf|
    decreases eocd - p
  {
    if p + 46 <= eocd && U32(buf, p) == HEADER_SIGNATURE then
      var uncompressed := U32(buf, p + 24);
      Walk(buf, eocd, p + HeaderLength(buf, p),
           if !IsDirectoryAt(buf, p) && uncompressed > size then uncompressed else size)
    else size
  }

  /** The size read from a response `buf` to the request for the last bytes of an archive of
      `total` bytes. */
  function BinarySize(buf: seq<Byte>, total: nat): Result<nat, Error> {
    match FindEocd(buf, |buf| - 22, Max(0, |buf| - 22 - 65535))
    case None => Failure(NoEndRecord)
    case Some(eocd) =>
      var p := U32(buf, eocd + 16) - (total - Min(TAIL_SIZE, total));
      if p < 0 then Failure(DirectoryNotInTail)
      else
        var size := Walk(buf, eocd, p, 0);
        if size == 0 then Failure(NoFileEntry) else Success(size)
  }

  method ZipBinarySize(buf: seq<Byte>, total: nat) returns (r: Result<nat, Error>)
    ensures r == BinarySize(buf, total)
  {
    hide U32, U16;
    var eocd, i, low := -1, |buf| - 22, Max(0, |buf| - 22 - 65535);
    while i >= low
      invariant eocd == -1 && i <= |buf| - 22
      invariant FindEocd(buf, i, low) == FindEocd(buf, |buf| - 22, low)
      decreases i - low
    {
      if U32(buf, i) == EOCD_SIGNATURE {
        eocd := i;
        break;
      }
      i := i - 1;
    }
    if eocd < 0 {
      return Failure(NoEndRecord);
    }
    var tail := Min(TAIL_SIZE, total);
    var p := U32(buf, eocd + 16) - (total - tail);
    if p < 0 {
      return Failure(DirectoryNotInTail);
    }
    var size := 0;
    ghost var start := p;
    while p + 46 <= eocd && U32(buf, p) == HEADER_SIGNATURE
      invariant p >= 0 && size >= 0
      invariant Walk(buf, eocd, p, size) == Walk(buf, eocd, start, 0)
      decreases eocd - p
    {
      var uncompressed := U32(buf, p + 24);
      var nameLen := U16(buf, p + 28);
      var name := buf[p + 46..Min(p + 46 + nameLen, |buf|)];
      if !(name != [] && name[|name| - 1] == SLASH) && uncompressed > size {
        size := uncompressed;
      }
      p := p + 46 + nameLen + U16(buf, p + 30) + U16(buf, p + 32);
    }
    if size == 0 {
      return Failure(NoFileEntry);
    }
    r := Success(size);
  }

  // ----- the writer

  /** A directory entry. `head` holds the 20 bytes from the version made by to the compressed
      size, `attributes` the 12 from the disk number to the offset of the local header. */
  datatype Entry = Entry(head: seq<Byte>, uncompressed: nat, name: seq<Byte>, extra: seq<Byte>, comment: seq<Byte>,
                         attributes: seq<Byte>)
  {
    predicate Ok() {
      && |head| == 20 && |attributes| == 12 && uncompressed < 0x1_0000_0000
      && |name| < 0x1_0000 && |extra| < 0x1_0000 && |comment| < 0x1_0000
    }

    predicate IsDirectory() {
      name != [] && name[|name| - 1] == SLASH
    }
  }

  /** The fixed 46 bytes of a central directory header. */
  function FixedHeader(e: Entry): (b: seq<Byte>)
    requires e.Ok()
    ensures |b| == 46
  {
    LE32(HEADER_SIGNATURE) + e.head + LE32(e.uncompressed) + LE16(|e.name|) + LE16(|e.extra|) + LE16(|e.comment|) + e.attributes
  }

  function Header(e: Entry): (b: seq<Byte>)
    requires e.Ok()
    ensures |b| == 46 + |e.name| + |e.extra| + |e.comment|
  {
    FixedHeader(e) + e.name + e.extra + e.comment
  }

  predicate AllOk(entries: seq<Entry>) {
    forall e :: e in entries ==> e.Ok()
  }

  function Directory(entries: seq<Entry>): seq<Byte>
    requires AllOk(entries)
  {
    if entries == [] then [] else Header(entries[0]) + Directory(entries[1..])
  }

  /** An archive: the local files, the directory and the end record. */
  datatype Archive = Archive(files: seq<Byte>, entries: seq<Entry>, comment: seq<Byte>) {
    predicate Ok() {
      && AllOk(entries) && |entries| < 0x1_0000 && |comment| < 0x1_0000
      && |files| < 0x1_0000_0000 && |Directory(entries)| < 0x1_0000_0000
    }

    function End(): (b: seq<Byte>)
      requires Ok()
      ensures |b| == 22 + |comment|
    {
      EndRecord(|entries|, |Directory(entries)|, |files|, comment)
    }

    function Bytes(): seq<Byte>
      requires Ok()
    {
      files + Directory(entries) + End()
    }

    /** The directory lies in the part that is fetched. */
    predicate InTail()
      requires Ok()
    {
      |Directory(entries)| + |End()| <= TAIL_SIZE
    }

    /** What the range request fetches. */
    function Tail(): (buf: seq<Byte>)
      requires Ok()
      ensures |buf| == Min(TAIL_SIZE, |Bytes()|)
    {
      Bytes()[|Bytes()| - Min(TAIL_SIZE, |Bytes()|)..]
    }
  }

  /** The largest uncompressed size of an entry that is not a directory. */
  function LargestFile(entries: seq<Entry>, atLeast: nat): nat
    decreases |entries|
  {
    if entries == [] then atLeast
    else
      LargestFile(entries[1..], if !entries[0].IsDirectory() && entries[0].uncompressed > atLeast then entries[0].uncompressed else atLeast)
  }

  // ----- reading what was written

  lemma {:induction false} FixedHeaderFields(e: Entry)
    requires e.Ok()
    ensures var h := FixedHeader(e);
            && h[0..4] == LE32(HEADER_SIGNATURE) && h[24..28] == LE32(e.uncompressed)
            && h[28..30] == LE16(|e.name|) && h[30..32] == LE16(|e.extra|) && h[32..34] == LE16(|e.comment|)
  {
    hide LE16, LE32;
  }

  /** The reader sees in a header what the writer put there. */
  lemma {:induction false} HeaderReads(buf: seq<Byte>, p: nat, e: Entry)
    requires e.Ok() && p + |Header(e)| <= |buf| && buf[p..p + |Header(e)|] == Header(e)
    ensures U32(buf, p) == HEADER_SIGNATURE && U32(buf, p + 24) == e.uncompressed
    ensures HeaderLength(buf, p) == |Header(e)|
    ensures IsDirectoryAt(buf, p) <==> e.IsDirectory()
  {
    hide U16, U32, LE16, LE32, FixedHeader;
    FixedHeaderFields(e);
    var h := FixedHeader(e);
    Within(buf, p, Header(e), 0, 46);
    assert Header(e)[0..46] == h;
    Within(buf, p, h, 0, 4);
    Within(buf, p, h, 24, 28);
    Within(buf, p, h, 28, 30);
    Within(buf, p, h, 30, 32);
    Within(buf, p, h, 32, 34);
    ReadLE32(buf, p, HEADER_SIGNATURE);
    ReadLE32(buf, p + 24, e.uncompressed);
    ReadLE16(buf, p + 28, |e.name|);
    ReadLE16(buf, p + 30, |e.extra|);
    ReadLE16(buf, p + 32, |e.comment|);
    if e.name != [] {
      var last := 46 + |e.name| - 1;
      assert Header(e)[last] == e.name[|e.name| - 1];
      assert buf[p + last] == buf[p..p + |Header(e)|][last];
    }
  }

  /** The walk over a directory visits every entry once. */
  lemma {:induction false} WalkReads(buf: seq<Byte>, eocd: nat, p: nat, entries: seq<Entry>, size: nat)
    requires AllOk(entries) && p <= eocd <= |buf| && buf[p..eocd] == Directory(entries)
    ensures Walk(buf, eocd, p, size) == LargestFile(entries, size)
    decreases |entries|
  {
    hide U16, U32, HeaderLength, IsDirectoryAt, Header, FixedHeader;
    if entries != [] {
      var e := entries[0];
      SplitAt(buf, p, eocd, Header(e), Directory(entries[1..]));
      HeaderReads(buf, p, e);
      WalkReads(buf, eocd, p + |Header(e)|, entries[1..],
                if !e.IsDirectory() && e.uncompressed > size then e.uncompressed else size);
    }
  }

  /** Where the end record stands in the fetched bytes. */
  function EocdOf(a: Archive): (i: int)
    requires a.Ok()
  {
    |a.Tail()| - 22 - |a.comment|
  }

  /** The end record is fetched whole. */
  predicate EndFetched(a: Archive)
    requires a.Ok()
  {
    |a.End()| <= TAIL_SIZE
  }

  /** The signature of an end record seems to begin once more, behind the start of the real
      one: in its count and size, in its offset and comment length, or in the comment. */
  ghost predicate Misleads(a: Archive)
    requires a.Ok()
  {
    || SizeSpells(|a.entries|, |Directory(a.entries)|, |a.files|, |a.comment|)
    || OffsetSpells(|a.files|, a.comment)
    || CommentSpells(a.comment)
  }

  lemma {:induction false} EndLayout(a: Archive)
    requires a.Ok() && EndFetched(a)
    ensures var buf, eocd := a.Tail(), EocdOf(a);
            && 0 <= eocd && |buf| == eocd + |a.End()| && buf[eocd..eocd + |a.End()|] == a.End()
            && U32(buf, eocd) == EOCD_SIGNATURE && U32(buf, eocd + 16) == |a.files|
  {
    hide Directory, EndRecord, U32, LE32;
    var bytes, end, eocd := a.Bytes(), a.End(), EocdOf(a);
    assert a.Tail()[eocd..] == bytes[|bytes| - |end|..] == end;
    EndRecordParts(|a.entries|, |Directory(a.entries)|, |a.files|, a.comment);
    Within(a.Tail(), eocd, end, 0, 4);
    Within(a.Tail(), eocd, end, 16, 20);
    ReadLE32(a.Tail(), eocd, EOCD_SIGNATURE);
    ReadLE32(a.Tail(), eocd + 16, |a.files|);
  }

  /** Where the directory stands, if it is fetched whole. */
  lemma {:induction false} DirectoryLayout(a: Archive)
    requires a.Ok() && a.InTail()
    ensures var buf, n, eocd := a.Tail(), |Directory(a.entries)|, EocdOf(a);
            && n <= eocd && buf[eocd - n..eocd] == Directory(a.entries)
            && (eocd - n) + (|a.Bytes()| - |buf|) == |a.files|
  {
    hide Directory, EndRecord;
    var bytes, d := a.Bytes(), Directory(a.entries);
    var start, eocd := |bytes| - |a.Tail()|, EocdOf(a);
    assert bytes[|a.files|..|a.files| + |d|] == d;
    assert a.Tail()[eocd - |d|..eocd] == bytes[start + (eocd - |d|)..start + eocd];
  }

  /** The fetched bytes from the end record on, or all of them if it is cut off, are its own. */
  lemma {:induction false} TailIsEnd(a: Archive, i: nat)
    requires a.Ok() && EocdOf(a) <= i <= |a.Tail()| - 22
    ensures i - EocdOf(a) + 4 <= |a.End()| && U32(a.Tail(), i) == U32(a.End(), i - EocdOf(a))
  {
    hide Directory, EndRecord;
    var bytes, end, d := a.Bytes(), a.End(), i - EocdOf(a);
    assert |bytes| - |end| + d == |bytes| - |a.Tail()| + i;
    var here, there := a.Tail()[i..i + 4], end[d..d + 4];
    assert here == bytes[|bytes| - |end| + d..|bytes| - |end| + d + 4] == there;
    assert here[0] == there[0] && here[1] == there[1] && here[2] == there[2] && here[3] == there[3];
  }

  /** Whether a signature stands behind the start of the end record in the fetched bytes. */
  lemma {:induction false} LaterSignature(a: Archive)
    requires a.Ok()
    ensures !Misleads(a) ==> forall i: nat :: EocdOf(a) < i <= |a.Tail()| - 22 ==> U32(a.Tail(), i) != EOCD_SIGNATURE
    ensures EndFetched(a) && Misleads(a) ==>
              exists i: nat :: EocdOf(a) < i <= |a.Tail()| - 22 && U32(a.Tail(), i) == EOCD_SIGNATURE
  {
    hide U32, SizeSpells, OffsetSpells, CommentSpells, EndRecord, Directory;
    SpelledAgainIff(|a.entries|, |Directory(a.entries)|, |a.files|, a.comment);
    if !Misleads(a) {
      forall i: nat | EocdOf(a) < i <= |a.Tail()| - 22 ensures U32(a.Tail(), i) != EOCD_SIGNATURE {
        TailIsEnd(a, i);
      }
    } else if EndFetched(a) {
      var d: nat :| 1 <= d && d + 22 <= |a.End()| && U32(a.End(), d) == EOCD_SIGNATURE;
      TailIsEnd(a, EocdOf(a) + d);
    }
  }

  /** The backward scan finds the real end record exactly if neither its fields nor its comment
      spell the signature again. */
  lemma {:induction false} ScanFindsEocd(a: Archive)
    requires a.Ok() && EndFetched(a)
    ensures var buf := a.Tail();
            FindEocd(buf, |buf| - 22, Max(0, |buf| - 22 - 65535)) == Some(EocdOf(a)) <==> !Misleads(a)
  {
    hide U32, Misleads;
    EndLayout(a);
    LaterSignature(a);
  }

  /** If the directory was fetched, only the offset and the comment can mislead. */
  lemma {:induction false} InTailMisleads(a: Archive)
    requires a.Ok() && a.InTail()
    ensures Misleads(a) <==> OffsetSpells(|a.files|, a.comment) || CommentSpells(a.comment)
  {
    hide OffsetSpells, CommentSpells, Directory, EndRecord;
    DirectoryLength(a.entries);
  }

  lemma {:induction false} DirectoryLength(entries: seq<Entry>)
    requires AllOk(entries)
    ensures |Directory(entries)| >= 46 * |entries|
    decreases |entries|
  {
    hide Header;
    if entries != [] {
      DirectoryLength(entries[1..]);
    }
  }

  /** In particular, a comment without the signature, of less than 0x4b50 bytes, behind less
      than 80 MB of files. */
  lemma {:induction false} PlainArchive(a: Archive)
    requires a.Ok() && a.InTail() && !CommentSpells(a.comment)
    requires |a.files| < 0x0500_0000 && |a.comment| < 0x4b50
    ensures !Misleads(a)
  {
    InTailMisleads(a);
    hide CommentSpells, SizeSpells;
  }

  /** The reader is right about every archive whose end record does not seem to begin again:
      the largest file if the directory was fetched, and the right error if it was not, if the
      end record was cut off, or if there is no file in the directory. */
  lemma {:induction false} ReaderReadsWriter(a: Archive)
    requires a.Ok() && !Misleads(a)
    ensures BinarySize(a.Tail(), |a.Bytes()|)
         == if !EndFetched(a) then Failure(NoEndRecord)
            else if !a.InTail() then Failure(DirectoryNotInTail)
            else if LargestFile(a.entries, 0) == 0 then Failure(NoFileEntry)
            else Success(LargestFile(a.entries, 0))
  {
    hide FindEocd, Walk, LargestFile, Directory, EndRecord, U32, Misleads;
    if EndFetched(a) {
      EndLayout(a);
      ScanFindsEocd(a);
      if a.InTail() {
        var eocd, n := EocdOf(a), |Directory(a.entries)|;
        DirectoryLayout(a);
        WalkReads(a.Tail(), eocd, eocd - n, a.entries, 0);
      }
    } else {
      LaterSignature(a);
    }
  }

  /** A comment without the signature is not enough: if the directory starts at the offset
      that spells it, and the comment has 16 bytes or more, the scan stops too late. */
  lemma {:induction false} OffsetMistakenForSignature(a: Archive)
    requires a.Ok() && EndFetched(a) && |a.files| == EOCD_SIGNATURE && |a.comment| >= 16
    ensures var buf := a.Tail();
            FindEocd(buf, |buf| - 22, Max(0, |buf| - 22 - 65535)) != Some(EocdOf(a))
  {
    hide FindEocd, Directory, EndRecord, CommentSpells, SizeSpells;
    assert OffsetSpells(|a.files|, a.comment);
    ScanFindsEocd(a);
  }
}
