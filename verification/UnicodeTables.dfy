/** The three-stage code point table: blocks of 256 element indices, each distinct block
    stored once. */
module UnicodeTables {
  import opened Wrappers

  const BLOCK_SIZE: nat := 256
  const LAST_CODE_POINT: nat := 0x10ffff

  datatype Context<!Elem> = Context(get: nat -> Elem, eql: (Elem, Elem) -> bool)

  datatype Tables<Elem> = Tables(stage1: seq<nat>, stage2: seq<nat>, stage3: seq<Elem>)

  datatype TableError = BlockIndexTooLarge | Stage2IndexTooLarge

  // ----- elements: stage 3 and the index of each code point in it

  /** The first of `items` that equals `e`. */
  function FindIndex<Elem>(ctx: Context<Elem>, items: seq<Elem>, e: Elem): (r: Option<nat>)
    ensures r.Some? ==> r.value < |items| && ctx.eql(items[r.value], e)
    ensures forall k :: 0 <= k < (if r.Some? then r.value else |items|) ==> !ctx.eql(items[k], e)
    decreases |items|
  {
    if items == [] then None
    else
      match FindIndex(ctx, items[..|items| - 1], e)
      case Some(k) => Some(k)
      case None => if ctx.eql(items[|items| - 1], e) then Some(|items| - 1) else None
  }

  /** The first that equals `e` stands at `k`, or is put there, at the end. */
  ghost predicate IsFirst<Elem>(ctx: Context<Elem>, items: seq<Elem>, e: Elem, k: nat) {
    && k <= |items| && (forall i :: 0 <= i < k ==> !ctx.eql(items[i], e))
    && (k < |items| ==> ctx.eql(items[k], e))
  }

  datatype Scan<Elem> = Scan(stage3: seq<Elem>, indices: seq<nat>)

  /** Stage 3 and the indices of the first `n` code points. */
  function ScanTo<Elem>(ctx: Context<Elem>, n: nat): (s: Scan<Elem>)
    ensures |s.indices| == n
  {
    if n == 0 then Scan([], [])
    else
      var before, e := ScanTo(ctx, n - 1), ctx.get(n - 1);
      match FindIndex(ctx, before.stage3, e)
      case Some(k) => Scan(before.stage3, before.indices + [k])
      case None => Scan(before.stage3 + [e], before.indices + [|before.stage3|])
  }

  /** The indices of the first `n` code points. */
  function Indices<Elem>(ctx: Context<Elem>, n: nat): (s: seq<nat>)
    ensures |s| == n
  {
    ScanTo(ctx, n).indices
  }

  // ----- blocks: stages 1 and 2

  /** The indices of block `b`; the last block may be short. */
  function Chunk(indices: seq<nat>, b: nat): (c: seq<nat>)
    requires BLOCK_SIZE * b <= |indices|
    ensures |c| <= BLOCK_SIZE && (BLOCK_SIZE * b + BLOCK_SIZE <= |indices| ==> |c| == BLOCK_SIZE)
  {
    if BLOCK_SIZE * b + BLOCK_SIZE <= |indices| then indices[BLOCK_SIZE * b..BLOCK_SIZE * b + BLOCK_SIZE]
    else indices[BLOCK_SIZE * b..]
  }

  function Padded(c: seq<nat>): (p: seq<nat>)
    requires |c| <= BLOCK_SIZE
    ensures |p| == BLOCK_SIZE && c <= p
  {
    c + seq(BLOCK_SIZE - |c|, _ => 0)
  }

  datatype Packed = Packed(stage1: seq<nat>, stage2: seq<nat>, blockMap: map<seq<nat>, nat>)

  function BlockCount(n: nat): nat {
    (n + BLOCK_SIZE - 1) / BLOCK_SIZE
  }

  /** Stages 1 and 2 after the first `b` blocks, starting from a given block map. */
  function PackTo(known: map<seq<nat>, nat>, indices: seq<nat>, b: nat): (p: Packed)
    requires b <= BlockCount(|indices|)
    ensures |p.stage1| == b
  {
    if b == 0 then Packed([], [], known)
    else
      AddBlock(PackTo(known, indices, b - 1), Chunk(indices, b - 1))
  }

  predicate Fits(xs: seq<nat>) {
    forall k :: 0 <= k < |xs| ==> xs[k] <= 0xffff
  }

  /** One more block. */
  function AddBlock(p: Packed, chunk: seq<nat>): (q: Packed)
    requires |chunk| <= BLOCK_SIZE
  {
    var block := Padded(chunk);
    if block in p.blockMap
    then p.(stage1 := p.stage1 + [p.blockMap[block]])
    else Packed(p.stage1 + [|p.stage2|], p.stage2 + chunk, p.blockMap[block := |p.stage2|])
  }

  // ----- the generator

  class Generator<Elem(!new)> {
    const ctx: Context<Elem>
    const codePoints: nat
    var blockMap: map<seq<nat>, nat>

    /** `codePoints` is LAST_CODE_POINT + 1 in the source. */
    constructor (ctx: Context<Elem>, codePoints: nat)
      ensures this.ctx == ctx && this.codePoints == codePoints && blockMap == map[]
    {
      this.ctx, this.codePoints := ctx, codePoints;
      blockMap := map[];
    }

    /** Looks a finished block up, stores it if it is new, and records its offset. */
    method FinishBlock(block: array<nat>, blockLen: nat, stage1: seq<nat>, stage2: seq<nat>,
                       ghost known: map<seq<nat>, nat>, ghost indices: seq<nat>)
        returns (newStage1: seq<nat>, newStage2: seq<nat>, stage2Idx: nat)
      requires block.Length == BLOCK_SIZE && blockLen <= BLOCK_SIZE
      requires |stage1| < BlockCount(|indices|)
      requires Packed(stage1, stage2, blockMap) == PackTo(known, indices, |stage1|)
      requires block[..blockLen] == Chunk(indices, |stage1|)
      modifies this, block
      ensures Packed(newStage1, newStage2, blockMap) == PackTo(known, indices, |stage1| + 1)
      ensures newStage1 == stage1 + [stage2Idx]
    {
      if blockLen < BLOCK_SIZE {
        for k := blockLen to BLOCK_SIZE
          invariant block[..blockLen] == Chunk(indices, |stage1|)
          invariant forall j :: blockLen <= j < k ==> block[j] == 0
          invariant blockMap == old(blockMap)
        {
          block[k] := 0;
        }
      }
      var contents := block[..];
      ghost var chunk := Chunk(indices, |stage1|);
      assert contents == Padded(chunk) && block[..blockLen] == chunk;
      ghost var before := Packed(stage1, stage2, blockMap);
      newStage2 := stage2;
      if contents in blockMap {
        stage2Idx := blockMap[contents];
      } else {
        stage2Idx := |stage2|;
        blockMap := blockMap[contents := stage2Idx];
        newStage2 := stage2 + block[..blockLen];
      }
      newStage1 := stage1 + [stage2Idx];
      assert Packed(newStage1, newStage2, blockMap) == AddBlock(before, chunk);
      assert AddBlock(before, chunk) == PackTo(known, indices, |stage1| + 1);
    }

    /** The index of the first element of stage 3 that equals `elem`, which is added if none does. */
    method IndexOf(stage3: seq<Elem>, elem: Elem) returns (blockIdx: nat, newStage3: seq<Elem>)
      ensures IsFirst(ctx, stage3, elem, blockIdx)
      ensures newStage3 == if blockIdx < |stage3| then stage3 else stage3 + [elem]
    {
      blockIdx := 0;
      while blockIdx < |stage3| && !ctx.eql(stage3[blockIdx], elem)
        invariant blockIdx <= |stage3|
        invariant forall k :: 0 <= k < blockIdx ==> !ctx.eql(stage3[k], elem)
      {
        blockIdx := blockIdx + 1;
      }
      newStage3 := if blockIdx < |stage3| then stage3 else stage3 + [elem];
    }

    /** The local variables of `Generate` before code point `cp`, given the tables of all. */
    ghost predicate SoFar(cp: nat, block: array<nat>, w: Work<Elem>, known: map<seq<nat>, nat>)
      reads this, block
    {
      var indices := Indices(ctx, codePoints);
      && block.Length == BLOCK_SIZE && cp <= codePoints && w.blockLen <= BLOCK_SIZE && w.blockLen <= cp
      && |w.stage1| <= BlockCount(codePoints)
      && w.stage3 == ScanTo(ctx, cp).stage3
      && block[..w.blockLen] == indices[cp - w.blockLen..cp]
      && Packed(w.stage1, w.stage2, blockMap) == PackTo(known, indices, |w.stage1|)
      && (forall k :: 0 <= k < cp ==> indices[k] <= 0xffff)
      && Fits(w.stage1)
    }

    /** At the head of the loop, with every complete block in the tables. */
    ghost predicate Progress(cp: nat, block: array<nat>, w: Work<Elem>, known: map<seq<nat>, nat>)
      reads this, block
    {
      && SoFar(cp, block, w, known)
      && (if cp < codePoints then cp == BLOCK_SIZE * |w.stage1| + w.blockLen && w.blockLen < BLOCK_SIZE
          else |w.stage1| == BlockCount(codePoints) && w.blockLen == 0)
    }

    /** With an index just added to the block, which may be complete. */
    ghost predicate Filled(cp: nat, block: array<nat>, w: Work<Elem>, known: map<seq<nat>, nat>)
      reads this, block
    {
      SoFar(cp, block, w, known) && w.blockLen > 0 && cp == BLOCK_SIZE * |w.stage1| + w.blockLen
    }

    /** The index of the code point goes into the block. */
    method Store(ghost cp: nat, block: array<nat>, w: Work<Elem>, stage3: seq<Elem>, blockIdx: nat, ghost known: map<seq<nat>, nat>)
        returns (filled: Work<Elem>)
      requires cp < codePoints && Progress(cp, block, w, known)
      requires blockIdx == Indices(ctx, codePoints)[cp] <= 0xffff && stage3 == ScanTo(ctx, cp + 1).stage3
      modifies block
      ensures Filled(cp + 1, block, filled, known)
      ensures filled == Work(w.stage1, w.stage2, stage3, w.blockLen + 1)
    {
      hide PackTo, BlockCount, ScanTo, Indices, Fits;
      block[w.blockLen] := blockIdx;
      filled := Work(w.stage1, w.stage2, stage3, w.blockLen + 1);
    }

    /** Finishes a block, with a new one to go on with, unless its offset is too large. */
    method CloseBlock(block: array<nat>, blockLen: nat, stage1: seq<nat>, stage2: seq<nat>,
                      ghost known: map<seq<nat>, nat>, ghost indices: seq<nat>)
        returns (r: Result<(seq<nat>, seq<nat>), TableError>, next: array<nat>)
      requires block.Length == BLOCK_SIZE && blockLen <= BLOCK_SIZE
      requires |stage1| < BlockCount(|indices|) && Fits(stage1)
      requires Packed(stage1, stage2, blockMap) == PackTo(known, indices, |stage1|)
      requires block[..blockLen] == Chunk(indices, |stage1|)
      modifies this, block
      ensures r.Success? ==>
                && Packed(r.value.0, r.value.1, blockMap) == PackTo(known, indices, |stage1| + 1)
                && |r.value.0| == |stage1| + 1 && Fits(r.value.0)
                && fresh(next) && next.Length == BLOCK_SIZE
      ensures r.Failure? ==> next == block && r.error == Stage2IndexTooLarge && !Fits(PackTo(known, indices, BlockCount(|indices|)).stage1)
    {
      hide PackTo, Chunk, BlockCount, Padded, Fits;
      var newStage1, newStage2, stage2Idx := FinishBlock(block, blockLen, stage1, stage2, known, indices);
      if stage2Idx > 0xffff {
        Overflow(known, indices, |newStage1|);
        return Failure(Stage2IndexTooLarge), block;
      }
      FitsAppend(stage1, stage2Idx);
      next := new nat[BLOCK_SIZE](_ => 0);
      r := Success((newStage1, newStage2));
    }

    /** A complete or last block goes into the tables. */
    method EndStep(cp: nat, block: array<nat>, w: Work<Elem>, ghost known: map<seq<nat>, nat>)
        returns (r: Result<Work<Elem>, TableError>, next: array<nat>)
      requires Filled(cp, block, w, known)
      modifies this, block
      ensures next == block || fresh(next)
      ensures r.Success? ==> Progress(cp, next, r.value, known)
      ensures r.Failure? ==>
                && r.error == Stage2IndexTooLarge
                && !Fits(PackTo(known, Indices(ctx, codePoints), BlockCount(codePoints)).stage1)
    {
      hide PackTo, Chunk, BlockCount, ScanTo, Indices, Fits;
      if w.blockLen < BLOCK_SIZE && cp != codePoints {
        return Success(w), block;
      }
      ghost var indices := Indices(ctx, codePoints);
      BlockEnds(indices, |w.stage1|, cp);
      var closed;
      closed, next := CloseBlock(block, w.blockLen, w.stage1, w.stage2, known, indices);
      match closed {
        case Failure(e) => r := Failure(e);
        case Success((stage1, stage2)) => r := Success(Work(stage1, stage2, w.stage3, 0));
      }
    }

    /** One iteration: the index of the code point goes into the block, and a complete block
        into the tables. */
    method AddCodePoint(cp: nat, block: array<nat>, w: Work<Elem>, ghost known: map<seq<nat>, nat>)
        returns (r: Result<Work<Elem>, TableError>, next: array<nat>)
      requires cp < codePoints && Progress(cp, block, w, known)
      modifies this, block
      ensures next == block || fresh(next)
      ensures r.Success? ==> Progress(cp + 1, next, r.value, known)
      ensures r == Failure(BlockIndexTooLarge) ==> !Fits(Indices(ctx, codePoints))
      ensures r == Failure(Stage2IndexTooLarge) ==>
                !Fits(PackTo(known, Indices(ctx, codePoints), BlockCount(codePoints)).stage1)
    {
      hide IsFirst, PackTo, BlockCount, ScanTo, Indices, Fits, Filled;
      ghost var indices := Indices(ctx, codePoints);
      var elem := ctx.get(cp);
      var blockIdx, stage3 := IndexOf(w.stage3, elem);
      ScanStep(ctx, cp, codePoints, blockIdx);
      if blockIdx > 0xffff {
        assert !Fits(indices) by {
          DoesNotFit(indices, cp);
        }
        return Failure(BlockIndexTooLarge), block;
      }
      var filled := Store(cp, block, w, stage3, blockIdx, known);
      r, next := EndStep(cp + 1, block, filled, known);
    }

    /** The tables, or an error for an index that does not fit 16 bits. */
    method Generate() returns (r: Result<Tables<Elem>, TableError>)
      modifies this
      ensures var indices := Indices(ctx, codePoints);
              var packed := PackTo(old(blockMap), indices, BlockCount(codePoints));
              && (r.Success? ==> r.value == Tables(packed.stage1, packed.stage2, ScanTo(ctx, codePoints).stage3)
                                 && blockMap == packed.blockMap)
              && (r.Success? <==> (forall k :: 0 <= k < |indices| ==> indices[k] < 65536)
                                  && (forall b :: 0 <= b < |packed.stage1| ==> packed.stage1[b] < 65536))
              && (r == Failure(BlockIndexTooLarge) ==> !Fits(indices))
              && (r == Failure(Stage2IndexTooLarge) ==> !Fits(packed.stage1))
    {
      hide ScanTo, FindIndex, PackTo, BlockCount, Indices;
      AtZero(ctx, blockMap, codePoints);
      var block := new nat[BLOCK_SIZE](_ => 0);
      var w: Work<Elem> := Work([], [], [], 0);
      for cp := 0 to codePoints
        invariant fresh(block) && Progress(cp, block, w, old(blockMap))
      {
        var added;
        added, block := AddCodePoint(cp, block, w, old(blockMap));
        match added {
          case Failure(e) =>
            assert e == BlockIndexTooLarge || e == Stage2IndexTooLarge;
            return Failure(e);
          case Success(next) => w := next;
        }
      }
      r := Success(Tables(w.stage1, w.stage2, w.stage3));
    }
  }

  /** The local variables of `Generate`. */
  datatype Work<Elem> = Work(stage1: seq<nat>, stage2: seq<nat>, stage3: seq<Elem>, blockLen: nat)

  lemma {:induction false} DoesNotFit(xs: seq<nat>, k: nat)
    requires k < |xs| && xs[k] > 0xffff
    ensures !Fits(xs)
  {
    assert xs[k] > 0xffff;
  }

  lemma {:induction false} FitsAppend(xs: seq<nat>, x: nat)
    requires Fits(xs) && x <= 0xffff
    ensures Fits(xs + [x])
  {
  }

  lemma {:induction false} AtZero<Elem>(ctx: Context<Elem>, known: map<seq<nat>, nat>, n: nat)
    ensures ScanTo(ctx, 0).stage3 == [] && BlockCount(0) == 0
    ensures PackTo(known, Indices(ctx, n), 0) == Packed([], [], known)
  {
    PackToNone(known, Indices(ctx, n));
  }

  lemma {:induction false} Overflow(known: map<seq<nat>, nat>, indices: seq<nat>, m: nat)
    requires 1 <= m <= BlockCount(|indices|) && PackTo(known, indices, m).stage1[m - 1] > 0xffff
    ensures !Fits(PackTo(known, indices, BlockCount(|indices|)).stage1)
  {
    PackPrefix(known, indices, m, BlockCount(|indices|));
  }

  /** What scanning one more code point does, seen from the complete list of indices. */
  lemma {:induction false} ScanStep<Elem>(ctx: Context<Elem>, cp: nat, n: nat, k: nat)
    requires cp < n && IsFirst(ctx, ScanTo(ctx, cp).stage3, ctx.get(cp), k)
    ensures var items := ScanTo(ctx, cp).stage3;
            && Indices(ctx, n)[cp] == k
            && ScanTo(ctx, cp + 1).stage3 == if k < |items| then items else items + [ctx.get(cp)]
  {
    hide FindIndex;
    var r := FindIndex(ctx, ScanTo(ctx, cp).stage3, ctx.get(cp));
    assert r.Some? ==> !(r.value < k) && !(k < r.value);
    ScanPrefix(ctx, cp + 1, n);
    assert ScanTo(ctx, cp + 1).indices[cp] == ScanTo(ctx, n).indices[cp];
  }

  /** Code point `end - 1` completes block `b`. */
  lemma {:induction false} BlockEnds(indices: seq<nat>, b: nat, end: nat)
    requires BLOCK_SIZE * b < end <= |indices|
    requires end == BLOCK_SIZE * b + BLOCK_SIZE || (end < BLOCK_SIZE * b + BLOCK_SIZE && end == |indices|)
    ensures b < BlockCount(|indices|) && (end == |indices| ==> b + 1 == BlockCount(|indices|))
    ensures Chunk(indices, b) == indices[BLOCK_SIZE * b..end]
  {
  }

  lemma {:induction false} ScanPrefix<Elem>(ctx: Context<Elem>, m: nat, n: nat)
    requires m <= n
    ensures ScanTo(ctx, m).indices <= ScanTo(ctx, n).indices
    ensures ScanTo(ctx, m).stage3 <= ScanTo(ctx, n).stage3
  {
    hide ScanTo;
    if m < n {
      ScanPrefix(ctx, m, n - 1);
      ScanGrows(ctx, n);
    }
  }

  lemma {:induction false} ScanGrows<Elem>(ctx: Context<Elem>, n: nat)
    requires n > 0
    ensures ScanTo(ctx, n - 1).indices <= ScanTo(ctx, n).indices
    ensures ScanTo(ctx, n - 1).stage3 <= ScanTo(ctx, n).stage3
  {
    hide FindIndex;
  }

  lemma {:induction false} PackPrefix(known: map<seq<nat>, nat>, indices: seq<nat>, m: nat, b: nat)
    requires m <= b <= BlockCount(|indices|)
    ensures PackTo(known, indices, m).stage1 <= PackTo(known, indices, b).stage1
  {
    hide PackTo, Chunk, Padded;
    if m < b {
      PackPrefix(known, indices, m, b - 1);
      PackToNext(known, indices, b - 1);
    }
  }

  // ----- what the tables mean

  ghost predicate NoRepeats<Elem>(ctx: Context<Elem>, items: seq<Elem>) {
    forall i, j :: 0 <= i < j < |items| ==> !ctx.eql(items[i], items[j])
  }

  lemma {:induction false} NoRepeatsAppend<Elem>(ctx: Context<Elem>, items: seq<Elem>, e: Elem)
    requires NoRepeats(ctx, items) && FindIndex(ctx, items, e).None?
    ensures NoRepeats(ctx, items + [e])
  {
    hide FindIndex;
  }

  /** Stage 3 holds one representative of each class of elements: it starts with the first
      element, and no representative equals an earlier one. */
  lemma {:induction false} Representatives<Elem>(ctx: Context<Elem>, n: nat)
    ensures var items := ScanTo(ctx, n).stage3;
            && (n > 0 ==> items != [] && items[0] == ctx.get(0))
            && NoRepeats(ctx, items)
  {
    if n > 0 {
      Representatives(ctx, n - 1);
      hide FindIndex, NoRepeats;
      var before, e := ScanTo(ctx, n - 1).stage3, ctx.get(n - 1);
      if FindIndex(ctx, before, e).None? {
        NoRepeatsAppend(ctx, before, e);
      }
    }
  }

  /** The representative at a code point's index equals its element, or is it. */
  lemma {:induction false} IndexMeans<Elem>(ctx: Context<Elem>, n: nat, cp: nat)
    requires cp < n
    ensures var items, k := ScanTo(ctx, n).stage3, Indices(ctx, n)[cp];
            k < |items| && (ctx.eql(items[k], ctx.get(cp)) || items[k] == ctx.get(cp))
  {
    hide ScanTo, Indices, FindIndex;
    var items := ScanTo(ctx, cp).stage3;
    var found := FindIndex(ctx, items, ctx.get(cp));
    ScanStep(ctx, cp, n, if found.Some? then found.value else |items|);
    ScanPrefix(ctx, cp + 1, n);
  }

  /** Every known block stands at its offset in stage 2. */
  ghost predicate Stored(p: Packed) {
    forall block :: block in p.blockMap ==>
      var o := p.blockMap[block];
      o % BLOCK_SIZE == 0 && o + BLOCK_SIZE <= |p.stage2| && p.stage2[o..o + BLOCK_SIZE] == block
  }

  ghost function Chunks(indices: seq<nat>, b: nat): set<seq<nat>>
    requires BLOCK_SIZE * b <= |indices|
  {
    set i: nat | i < b :: Chunk(indices, i)
  }

  ghost predicate PacksWholeBlocks(p: Packed, indices: seq<nat>, b: nat)
    requires BLOCK_SIZE * b <= |indices|
  {
    && |p.stage1| == b && |p.stage2| == BLOCK_SIZE * |p.blockMap|
    && Stored(p)
    && p.blockMap.Keys == Chunks(indices, b)
    && Listed(p, indices, b)
  }

  /** Stage 1 lists the offsets of the blocks. */
  ghost predicate Listed(p: Packed, indices: seq<nat>, b: nat)
    requires BLOCK_SIZE * b <= |indices| && b <= |p.stage1|
  {
    forall i: nat :: i < b ==> Chunk(indices, i) in p.blockMap && p.blockMap[Chunk(indices, i)] == p.stage1[i]
  }

  lemma {:induction false} ChunksGrow(indices: seq<nat>, b: nat)
    requires BLOCK_SIZE * (b + 1) <= |indices|
    ensures Chunks(indices, b + 1) == Chunks(indices, b) + {Chunk(indices, b)}
  {
    hide Chunk;
  }

  lemma {:induction false} MultipleOfBlockSize(n: nat)
    ensures BLOCK_SIZE * n % BLOCK_SIZE == 0
  {
  }

  lemma {:induction false} StoredGrows(p: Packed, block: seq<nat>)
    requires Stored(p) && |block| == BLOCK_SIZE && |p.stage2| == BLOCK_SIZE * |p.blockMap|
    ensures Stored(AddBlock(p, block))
  {
    MultipleOfBlockSize(|p.blockMap|);
    assert Padded(block) == block;
    hide Padded;
    var q, end := AddBlock(p, block), |p.stage2|;
    if block !in p.blockMap {
      assert q.stage2[end..end + BLOCK_SIZE] == block;
      forall other | other in p.blockMap
        ensures var o := p.blockMap[other]; q.stage2[o..o + BLOCK_SIZE] == p.stage2[o..o + BLOCK_SIZE]
      {
      }
    }
  }

  lemma {:induction false} SizesGrow(p: Packed, block: seq<nat>)
    requires |block| == BLOCK_SIZE && |p.stage2| == BLOCK_SIZE * |p.blockMap|
    ensures var q := AddBlock(p, block);
            && |q.stage1| == |p.stage1| + 1 && |q.stage2| == BLOCK_SIZE * |q.blockMap|
            && q.blockMap.Keys == p.blockMap.Keys + {block}
  {
    assert Padded(block) == block;
    hide Padded;
  }

  lemma {:induction false} ListedGrows(p: Packed, indices: seq<nat>, b: nat)
    requires BLOCK_SIZE * (b + 1) <= |indices| && |p.stage1| == b && Listed(p, indices, b)
    ensures Listed(AddBlock(p, Chunk(indices, b)), indices, b + 1)
  {
    assert Padded(Chunk(indices, b)) == Chunk(indices, b);
    hide Chunk, Padded;
  }

  lemma {:induction false} WholeBlocks(indices: seq<nat>, b: nat)
    requires BLOCK_SIZE * b <= |indices| && b <= BlockCount(|indices|)
    ensures PacksWholeBlocks(PackTo(map[], indices, b), indices, b)
  {
    hide PackTo, AddBlock, Stored, Chunk, Chunks, Padded, Listed;
    if b == 0 {
      PackToNone(map[], indices);
    } else {
      WholeBlocks(indices, b - 1);
      PackToNext(map[], indices, b - 1);
      var p, chunk := PackTo(map[], indices, b - 1), Chunk(indices, b - 1);
      SizesGrow(p, chunk);
      StoredGrows(p, chunk);
      ChunksGrow(indices, b - 1);
      ListedGrows(p, indices, b - 1);
    }
  }

  /** Going through stages 1 and 2 gives back the index of every code point. */
  lemma {:induction false} IndexRecovered(indices: seq<nat>, cp: nat)
    requires cp < |indices|
    ensures var p := PackTo(map[], indices, BlockCount(|indices|));
            && cp / BLOCK_SIZE < |p.stage1|
            && p.stage1[cp / BLOCK_SIZE] + cp % BLOCK_SIZE < |p.stage2|
            && p.stage2[p.stage1[cp / BLOCK_SIZE] + cp % BLOCK_SIZE] == indices[cp]
  {
    hide PackTo, Stored, Chunk, Chunks, Padded;
    var whole := |indices| / BLOCK_SIZE;
    WholeBlocks(indices, whole);
    var p := PackTo(map[], indices, whole);
    if cp / BLOCK_SIZE < whole {
      InWholeBlock(p, indices, whole, cp);
    }
    if BlockCount(|indices|) != whole {
      assert BlockCount(|indices|) == whole + 1;
      PackToNext(map[], indices, whole);
      if cp / BLOCK_SIZE == whole {
        InShortBlock(p, indices, whole, cp);
      }
    }
  }

  /** The same for a last block of fewer than 256 code points. */
  lemma {:induction false} InShortBlock(p: Packed, indices: seq<nat>, b: nat, cp: nat)
    requires BLOCK_SIZE * b <= |indices| < BLOCK_SIZE * (b + 1) && cp < |indices| && cp / BLOCK_SIZE == b
    requires Stored(p) && |p.stage1| == b
    ensures var q := AddBlock(p, Chunk(indices, b));
            && q.stage1[b] + cp % BLOCK_SIZE < |q.stage2|
            && q.stage2[q.stage1[b] + cp % BLOCK_SIZE] == indices[cp]
  {
    var chunk, low := Chunk(indices, b), cp % BLOCK_SIZE;
    assert chunk[low] == indices[cp] == Padded(chunk)[low];
    if Padded(chunk) in p.blockMap {
      StoredAt(p, Padded(chunk), low);
    }
  }

  lemma {:induction false} PackToNone(known: map<seq<nat>, nat>, indices: seq<nat>)
    ensures PackTo(known, indices, 0) == Packed([], [], known)
    ensures Listed(Packed([], [], known), indices, 0) && Chunks(indices, 0) == {} && (known == map[] ==> Stored(Packed([], [], known)))
  {
  }

  lemma {:induction false} PackToNext(known: map<seq<nat>, nat>, indices: seq<nat>, b: nat)
    requires b < BlockCount(|indices|)
    ensures PackTo(known, indices, b + 1) == AddBlock(PackTo(known, indices, b), Chunk(indices, b))
  {
  }

  lemma {:induction false} StoredAt(p: Packed, block: seq<nat>, low: nat)
    requires Stored(p) && block in p.blockMap && |block| == BLOCK_SIZE && low < BLOCK_SIZE
    ensures p.blockMap[block] + low < |p.stage2| && p.stage2[p.blockMap[block] + low] == block[low]
  {
    var o := p.blockMap[block];
    assert p.stage2[o..o + BLOCK_SIZE] == block;
    assert p.stage2[o + low] == p.stage2[o..o + BLOCK_SIZE][low];
  }

  lemma {:induction false} InWholeBlock(p: Packed, indices: seq<nat>, b: nat, cp: nat)
    requires BLOCK_SIZE * b <= |indices| && PacksWholeBlocks(p, indices, b) && cp / BLOCK_SIZE < b
    ensures p.stage1[cp / BLOCK_SIZE] + cp % BLOCK_SIZE < |p.stage2|
    ensures p.stage2[p.stage1[cp / BLOCK_SIZE] + cp % BLOCK_SIZE] == indices[cp]
  {
    hide Stored, Padded, Chunks;
    var i, low := cp / BLOCK_SIZE, cp % BLOCK_SIZE;
    var chunk := Chunk(indices, i);
    assert chunk[low] == indices[cp];
    StoredAt(p, chunk, low);
  }

  /** The three stages refine the mapping they were made from. */
  lemma {:induction false} TablesRefine<Elem>(ctx: Context<Elem>, n: nat, cp: nat)
    requires cp < n
    ensures var p, items := PackTo(map[], Indices(ctx, n), BlockCount(n)), ScanTo(ctx, n).stage3;
            && cp / BLOCK_SIZE < |p.stage1|
            && p.stage1[cp / BLOCK_SIZE] + cp % BLOCK_SIZE < |p.stage2|
            && var k := p.stage2[p.stage1[cp / BLOCK_SIZE] + cp % BLOCK_SIZE];
               k < |items| && (ctx.eql(items[k], ctx.get(cp)) || items[k] == ctx.get(cp))
  {
    hide PackTo, ScanTo, Indices;
    IndexRecovered(Indices(ctx, n), cp);
    IndexMeans(ctx, n, cp);
  }

  /** Deduplication is exact: offsets are multiples of 256, blocks share one exactly when
      they are equal, and stage 2 holds each distinct block once. */
  lemma {:induction false} DedupIsExact(indices: seq<nat>, blocks: nat, i: nat, j: nat)
    requires |indices| == BLOCK_SIZE * blocks && i < blocks && j < blocks
    ensures BlockCount(|indices|) == blocks
    ensures var p := PackTo(map[], indices, blocks);
            && p.stage1[i] % BLOCK_SIZE == 0
            && (p.stage1[i] == p.stage1[j] <==> Chunk(indices, i) == Chunk(indices, j))
            && |p.stage2| == BLOCK_SIZE * |Chunks(indices, blocks)|
  {
    hide PackTo;
    WholeBlocks(indices, blocks);
    var p := PackTo(map[], indices, blocks);
    assert Chunk(indices, i) in p.blockMap && Chunk(indices, j) in p.blockMap;
    assert |p.blockMap| == |p.blockMap.Keys|;
  }

  /** A short last block shares the offset of an earlier block exactly if that one is the same
      followed by zeros. */
  lemma {:induction false} ShortBlockShares(indices: seq<nat>, b: nat, i: nat)
    requires i < b && BLOCK_SIZE * b < |indices| < BLOCK_SIZE * (b + 1)
    ensures b + 1 == BlockCount(|indices|)
    ensures var p := PackTo(map[], indices, b + 1);
            p.stage1[i] == p.stage1[b] <==> WithZeros(indices[256 * i..256 * i + 256], indices[256 * b..])
  {
    hide PackTo, AddBlock, Padded, WithZeros, Stored, Chunks;
    WholeBlocks(indices, b);
    PackToNext(map[], indices, b);
    var before, whole := PackTo(map[], indices, b), Chunk(indices, i);
    PaddedWithZeros(whole, Chunk(indices, b));
    assert whole in before.blockMap && before.blockMap[whole] == before.stage1[i];
    SharesOffset(before, Chunk(indices, b), whole);
  }

  lemma {:induction false} SharesOffset(p: Packed, chunk: seq<nat>, whole: seq<nat>)
    requires Stored(p) && |chunk| <= BLOCK_SIZE && whole in p.blockMap && |whole| == BLOCK_SIZE
    ensures var q := AddBlock(p, chunk);
            && p.stage1 <= q.stage1 && |q.stage1| == |p.stage1| + 1
            && (q.stage1[|p.stage1|] == p.blockMap[whole] <==> whole == Padded(chunk))
  {
    var padded := Padded(chunk);
    assert p.stage2[p.blockMap[whole]..p.blockMap[whole] + BLOCK_SIZE] == whole;
    if padded in p.blockMap {
      assert p.stage2[p.blockMap[padded]..p.blockMap[padded] + BLOCK_SIZE] == padded;
    }
  }

  /** The block is `c` followed by zeros. */
  ghost predicate WithZeros(block: seq<nat>, c: seq<nat>) {
    |block| == 256 && forall k :: 0 <= k < 256 ==> block[k] == if k < |c| then c[k] else 0
  }

  lemma {:induction false} PaddedWithZeros(block: seq<nat>, c: seq<nat>)
    requires |c| <= BLOCK_SIZE
    ensures block == Padded(c) <==> WithZeros(block, c)
  {
  }

  lemma {:induction false} BlocksKnown(known: map<seq<nat>, nat>, indices: seq<nat>, b: nat, i: nat)
    requires i < b <= BlockCount(|indices|)
    ensures Padded(Chunk(indices, i)) in PackTo(known, indices, b).blockMap
  {
    if i < b - 1 {
      BlocksKnown(known, indices, b - 1, i);
    }
  }

  lemma {:induction false} NothingNew(known: map<seq<nat>, nat>, indices: seq<nat>, b: nat)
    requires b <= BlockCount(|indices|)
    requires forall i: nat :: i < b ==> Padded(Chunk(indices, i)) in known
    ensures PackTo(known, indices, b).stage2 == [] && PackTo(known, indices, b).blockMap == known
  {
    if b > 0 {
      NothingNew(known, indices, b - 1);
    }
  }

  /** The block map outlives a call, so a generator is good for one: a second call finds
      every block known and leaves stage 2 empty, where no code point can be looked up. */
  lemma {:induction false} SecondCallIsEmpty(known: map<seq<nat>, nat>, indices: seq<nat>)
    ensures var b := BlockCount(|indices|);
            var first := PackTo(known, indices, b);
            PackTo(first.blockMap, indices, b) == Packed(first.stage1, [], first.blockMap)
  {
    var b := BlockCount(|indices|);
    var first := PackTo(known, indices, b);
    forall i: nat | i < b ensures Padded(Chunk(indices, i)) in first.blockMap {
      BlocksKnown(known, indices, b, i);
    }
    NothingNew(first.blockMap, indices, b);
    SameOffsets(known, indices, b, b);
  }

  lemma {:induction false} Remembered(known: map<seq<nat>, nat>, indices: seq<nat>, m: nat, b: nat)
    requires m <= b <= BlockCount(|indices|)
    ensures var early, late := PackTo(known, indices, m).blockMap, PackTo(known, indices, b).blockMap;
            forall block :: block in early ==> block in late && late[block] == early[block]
  {
    if m < b {
      Remembered(known, indices, m, b - 1);
    }
  }

  lemma {:induction false} SameOffsets(known: map<seq<nat>, nat>, indices: seq<nat>, m: nat, b: nat)
    requires m <= b <= BlockCount(|indices|)
    ensures var final := PackTo(known, indices, b).blockMap;
            PackTo(final, indices, m).stage1 == PackTo(known, indices, m).stage1
  {
    hide PackTo, Chunk, Padded;
    var final := PackTo(known, indices, b).blockMap;
    PackToNone(known, indices);
    PackToNone(final, indices);
    if m > 0 {
      PackToNext(known, indices, m - 1);
      PackToNext(final, indices, m - 1);
      SameOffsets(known, indices, m - 1, b);
      var block := Padded(Chunk(indices, m - 1));
      forall i: nat | i < m - 1 ensures Padded(Chunk(indices, i)) in final {
        BlocksKnown(known, indices, b, i);
      }
      NothingNew(final, indices, m - 1);
      BlocksKnown(known, indices, b, m - 1);
      Remembered(known, indices, m, b);
      assert PackTo(known, indices, m).blockMap[block] == PackTo(known, indices, m).stage1[m - 1];
    }
  }
}
