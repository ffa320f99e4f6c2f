/** The generated code point predicates: stage 2 packed 64 indices to a word, one bit each,
    and the lookup that tests a bit. */
module UnicodeLookup {
  import opened JsNumbers
  import opened UnicodeTables

  /** Bit `k` of `v`. */
  predicate TestBit(v: nat, k: nat)
    decreases k
  {
    if k == 0 then v % 2 == 1 else TestBit(v / 2, k - 1)
  }

  /** `a & b`, bit by bit. */
  function AndBits(a: nat, b: nat): nat
    decreases a + b
  {
    if a == 0 || b == 0 then 0
    else (if a % 2 == 1 && b % 2 == 1 then 1 else 0) + 2 * AndBits(a / 2, b / 2)
  }

  lemma {:induction false} ZeroHasNoBits(k: nat)
    ensures !TestBit(0, k)
  {
    if k > 0 {
      ZeroHasNoBits(k - 1);
    }
  }

  lemma {:induction false} OrZero(a: nat)
    ensures OrBits(a, 0) == a
    decreases a
  {
    if a != 0 {
      OrZero(a / 2);
    }
  }

  /** Setting bit `j` sets that bit and no other. */
  lemma {:induction false} SetBit(v: nat, j: nat, k: nat)
    ensures TestBit(OrBits(v, Pow2(j)), k) <==> k == j || TestBit(v, k)
    decreases j
  {
    var w := OrBits(v, Pow2(j));
    if j == 0 {
      OrZero(v / 2);
      assert w == 1 + 2 * (v / 2);
    } else {
      assert Pow2(j) == 2 * Pow2(j - 1);
      assert w == v % 2 + 2 * OrBits(v / 2, Pow2(j - 1));
      if k > 0 {
        SetBit(v / 2, j - 1, k - 1);
      }
    }
  }

  lemma {:induction false} Pow2Doubles(n: nat)
    requires n > 0
    ensures Pow2(n) == 2 * Pow2(n - 1) && Pow2(0) == 1
  {
  }

  lemma {:induction false} OrEven(v: nat, q: nat)
    ensures OrBits(v, 2 * q) == v % 2 + 2 * OrBits(v / 2, q)
  {
  }

  lemma {:induction false} OrOne(v: nat)
    ensures OrBits(v, 1) == 1 + 2 * (v / 2)
  {
    OrZero(v / 2);
  }

  lemma {:induction false} SetBitBound(v: nat, j: nat, n: nat)
    requires v < Pow2(n) && j < n
    ensures OrBits(v, Pow2(j)) < Pow2(n)
    decreases n
  {
    hide OrBits, Pow2;
    Pow2Doubles(n);
    if j == 0 {
      OrOne(v);
    } else {
      Pow2Doubles(j);
      OrEven(v, Pow2(j - 1));
      SetBitBound(v / 2, j - 1, n - 1);
    }
  }

  /** Masking with one bit tests it. */
  lemma {:induction false} MaskTests(v: nat, k: nat)
    ensures AndBits(v, Pow2(k)) != 0 <==> TestBit(v, k)
    decreases k
  {
    if v == 0 {
      ZeroHasNoBits(k);
    } else if k > 0 {
      assert Pow2(k) == 2 * Pow2(k - 1);
      MaskTests(v / 2, k - 1);
    } else {
      assert AndBits(v / 2, 0) == 0;
    }
  }

  /** The packed words: bit `k % 64` of word `k / 64` says whether index `k` is not zero. */
  ghost predicate IsPacked(bits: seq<nat>, words: seq<nat>) {
    && |words| == (|bits| + 63) / 64
    && (forall w :: 0 <= w < |words| ==> words[w] < Pow2(64))
    && forall k :: 0 <= k < |bits| ==> (TestBit(words[k / 64], k % 64) <==> bits[k] != 0)
  }

  /** One word. */
  method PackWord(bits: seq<nat>, i: nat) returns (value: nat)
    requires i < |bits|
    ensures value < Pow2(64)
    ensures forall j :: 0 <= j < 64 && i + j < |bits| ==> (TestBit(value, j) <==> bits[i + j] != 0)
  {
    value := 0;
    var j := 0;
    forall k: nat ensures !TestBit(0, k) {
      ZeroHasNoBits(k);
    }
    while j < 64 && i + j < |bits|
      invariant j <= 64 && value < Pow2(64)
      invariant forall k: nat :: k < j && i + k < |bits| ==> (TestBit(value, k) <==> bits[i + k] != 0)
      invariant forall k: nat :: j <= k ==> !TestBit(value, k)
    {
      if bits[i + j] != 0 {
        forall k: nat ensures TestBit(OrBits(value, Pow2(j)), k) <==> k == j || TestBit(value, k) {
          SetBit(value, j, k);
        }
        SetBitBound(value, j, 64);
        value := OrBits(value, Pow2(j));
      }
      j := j + 1;
    }
  }

  /** The words packed so far. */
  ghost predicate PackedSoFar(bits: seq<nat>, words: seq<nat>) {
    && |words| <= (|bits| + 63) / 64
    && (forall w :: 0 <= w < |words| ==> words[w] < Pow2(64))
    && forall k :: 0 <= k < 64 * |words| && k < |bits| ==> (TestBit(words[k / 64], k % 64) <==> bits[k] != 0)
  }

  lemma {:induction false} WordPacked(bits: seq<nat>, words: seq<nat>, value: nat)
    requires PackedSoFar(bits, words) && 64 * |words| < |bits| && value < Pow2(64)
    requires forall j :: 0 <= j < 64 && 64 * |words| + j < |bits| ==> (TestBit(value, j) <==> bits[64 * |words| + j] != 0)
    ensures PackedSoFar(bits, words + [value])
  {
    hide TestBit, Pow2;
    forall k | 0 <= k < 64 * (|words| + 1) && k < |bits| ensures TestBit((words + [value])[k / 64], k % 64) <==> bits[k] != 0 {
      if k >= 64 * |words| {
        assert k == 64 * |words| + k % 64 && k / 64 == |words|;
      }
    }
  }

  method BitsToU64Array(bits: seq<nat>) returns (result: seq<nat>)
    ensures IsPacked(bits, result)
  {
    hide TestBit, Pow2;
    result := [];
    var i := 0;
    while i < |bits|
      invariant i == 64 * |result| && PackedSoFar(bits, result)
    {
      var value := PackWord(bits, i);
      WordPacked(bits, result, value);
      result := result + [value];
      i := i + 64;
    }
  }

  /** The emitted function: a bit test on the packed stage 2. */
  predicate Lookup(stage1: seq<nat>, words: seq<nat>, cp: nat): (r: bool)
    requires cp <= LAST_CODE_POINT ==>
               && cp / 256 < |stage1|
               && (stage1[cp / 256] + cp % 256) / 64 < |words|
    ensures cp > 0x10ffff ==> !r
  {
    if cp > LAST_CODE_POINT then false
    else
      var bitPos := stage1[cp / 256] + cp % 256;
      AndBits(words[bitPos / 64], Pow2(bitPos % 64)) != 0
  }

  /** The generator's context for a boolean property. */
  function CheckContext(check: nat -> bool): Context<bool> {
    Context(check, (a: bool, b: bool) => a == b)
  }

  /** A boolean table has the value at code point 0 at index 0. */
  lemma {:induction false} IndexIsZero(check: nat -> bool, n: nat, cp: nat)
    requires cp < n
    ensures Indices(CheckContext(check), n)[cp] == 0 <==> check(cp) == check(0)
  {
    var ctx := CheckContext(check);
    Representatives(ctx, n);
    IndexMeans(ctx, n, cp);
    hide ScanTo, Indices;
    var items, k := ScanTo(ctx, n).stage3, Indices(ctx, n)[cp];
    assert items[k] == check(cp) && items[0] == check(0);
    if k != 0 {
      assert !ctx.eql(items[0], items[k]);
    }
  }

  /** The emitted lookup is in bounds everywhere and tells where the property differs from
      its value at code point 0. */
  lemma {:induction false} LookupRefines(check: nat -> bool, words: seq<nat>, cp: nat)
    requires var n := LAST_CODE_POINT + 1;
             IsPacked(PackTo(map[], Indices(CheckContext(check), n), BlockCount(n)).stage2, words)
    requires cp <= LAST_CODE_POINT
    ensures var n := LAST_CODE_POINT + 1;
            var p := PackTo(map[], Indices(CheckContext(check), n), BlockCount(n));
            && cp / 256 < |p.stage1|
            && (p.stage1[cp / 256] + cp % 256) / 64 < |words|
            && (Lookup(p.stage1, words, cp) <==> check(cp) != check(0))
  {
    hide PackTo, Indices;
    var n := LAST_CODE_POINT + 1;
    var indices := Indices(CheckContext(check), n);
    var p := PackTo(map[], indices, BlockCount(n));
    IndexRecovered(indices, cp);
    IndexIsZero(check, n, cp);
    var bitPos := p.stage1[cp / 256] + cp % 256;
    MaskTests(words[bitPos / 64], bitPos % 64);
  }

  /** The emitted function computes the property exactly when the property fails at code
      point 0. */
  lemma {:induction false} LookupRightIffFalseAtZero(check: nat -> bool, words: seq<nat>)
    requires var n := LAST_CODE_POINT + 1;
             IsPacked(PackTo(map[], Indices(CheckContext(check), n), BlockCount(n)).stage2, words)
    ensures var n := LAST_CODE_POINT + 1;
            var p := PackTo(map[], Indices(CheckContext(check), n), BlockCount(n));
            InBounds(p.stage1, words)
            && (forall cp: nat :: cp > 0x10ffff ==> !Lookup(p.stage1, words, cp))
            && ((forall cp: nat :: cp <= 0x10ffff ==> (Lookup(p.stage1, words, cp) <==> check(cp))) <==> !check(0))
  {
    hide PackTo, Indices, IsPacked, Lookup;
    var n := LAST_CODE_POINT + 1;
    var p := PackTo(map[], Indices(CheckContext(check), n), BlockCount(n));
    forall cp: nat | cp <= LAST_CODE_POINT
      ensures cp / 256 < |p.stage1| && (p.stage1[cp / 256] + cp % 256) / 64 < |words|
      ensures Lookup(p.stage1, words, cp) <==> check(cp) != check(0)
    {
      LookupRefines(check, words, cp);
    }
    assert Lookup(p.stage1, words, 0) <==> false;
  }

  ghost predicate InBounds(stage1: seq<nat>, words: seq<nat>) {
    forall cp: nat :: cp <= LAST_CODE_POINT ==>
      cp / 256 < |stage1| && (stage1[cp / 256] + cp % 256) / 64 < |words|
  }
}
