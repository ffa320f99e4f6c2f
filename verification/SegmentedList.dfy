/**
 * Where a debugger finds an element of a segmented list. The first items, `prealloc` of them, are
 * stored in place. The others stand on shelves that are filled one after the other, each of
 * which is twice as long as the one before.
 */
module SegmentedList {
  import opened JsNumbers

  /** Python's `int.bit_length`. */
  function BitLength(n: nat): nat {
    if n == 0 then 0 else 1 + BitLength(n / 2)
  }

  function Log2(n: nat): int {
    BitLength(n) - 1
  }

  /** The prealloc counts a segmented list can have. */
  ghost predicate IsPrealloc(p: nat) {
    p == 0 || exists e: nat :: p == Pow2(e)
  }

  /** Shelf and box of the element at `index`, as the pretty printer computes them. */
  function ShelfOf(p: nat, index: nat): int {
    if p == 0 then Log2(index + 1) else Log2(index + p) - (BitLength(p) - 1) - 1
  }

  function BoxOf(p: nat, index: nat): int
    requires p <= index
  {
    ShelfIsNat(p, index);
    var shelf: nat := ShelfOf(p, index);
    if p == 0 then index + 1 - Pow2(shelf) else index + p - Pow2(BitLength(p) + shelf)
  }

  /** The number of boxes on a shelf: shelves double, starting at twice the prealloc count. */
  function ShelfSize(p: nat, shelf: nat): nat {
    Pow2(if p == 0 then shelf else BitLength(p) + shelf)
  }

  /** How many elements come before a shelf. */
  function ShelfStart(p: nat, shelf: nat): nat {
    if shelf == 0 then p else ShelfStart(p, shelf - 1) + ShelfSize(p, shelf - 1)
  }

  // ----- powers of two

  lemma {:induction false} BitLengthBounds(n: nat)
    requires n > 0
    ensures BitLength(n) >= 1 && Pow2(BitLength(n) - 1) <= n < Pow2(BitLength(n))
  {
    if n > 1 {
      BitLengthBounds(n / 2);
      assert Pow2(BitLength(n) - 1) == 2 * Pow2(BitLength(n / 2) - 1);
    } else {
      assert BitLength(1) == 1 + BitLength(0);
    }
  }

  /** A positive number lies between the power of two below it and twice that power. */
  lemma {:induction false} TopBit(n: nat)
    requires n > 0
    ensures BitLength(n) >= 1
    ensures var power := Pow2(BitLength(n) - 1); power <= n < 2 * power
  {
    BitLengthBounds(n);
    hide BitLength;
    assert Pow2(BitLength(n)) == 2 * Pow2(BitLength(n) - 1);
  }

  lemma {:induction false} BitLengthUnique(n: nat, k: nat)
    requires Pow2(k) <= n < Pow2(k + 1)
    ensures BitLength(n) == k + 1
  {
    BitLengthBounds(n);
    var m := BitLength(n);
    if m - 1 < k {
      Pow2Monotone(m, k);
    } else if k + 1 < m {
      Pow2Monotone(k + 1, m - 1);
    }
  }

  lemma {:induction false} ShelfIsNat(p: nat, index: nat)
    requires p <= index
    ensures ShelfOf(p, index) >= 0
  {
    if p == 0 {
      BitLengthBounds(index + 1);
    } else {
      BitLengthBounds(p);
      BitLengthBounds(index + p);
      assert Pow2(BitLength(p)) == 2 * Pow2(BitLength(p) - 1);
      if BitLength(index + p) <= BitLength(p) {
        Pow2Monotone(BitLength(index + p), BitLength(p));
        assert false;
      }
    }
  }

  /** Twice the elements stored so far, less the prealloc count, is a power of two. */
  lemma {:induction false} StartIsPower(p: nat, shelf: nat)
    requires IsPrealloc(p)
    ensures ShelfStart(p, shelf) + (if p == 0 then 1 else p) == ShelfSize(p, shelf)
  {
    if shelf == 0 {
      if p != 0 {
        var e: nat :| p == Pow2(e);
        assert Pow2(e + 1) == 2 * p;
        BitLengthUnique(p, e);
      }
    } else {
      StartIsPower(p, shelf - 1);
    }
  }

  // ----- the bijection

  /** Every shelf and box in range is the place of exactly the element that is stored there
      when shelves are filled one after the other. */
  lemma {:induction false} PlaceOfElement(p: nat, shelf: nat, box: nat)
    requires IsPrealloc(p) && box < ShelfSize(p, shelf)
    ensures var index := ShelfStart(p, shelf) + box;
            index >= p && ShelfOf(p, index) == shelf && BoxOf(p, index) == box
  {
    hide BitLength;
    StartIsPower(p, shelf);
    var index, k := ShelfStart(p, shelf) + box, if p == 0 then shelf else BitLength(p) + shelf;
    StartGrows(p, shelf);
    assert Pow2(k + 1) == 2 * Pow2(k);
    BitLengthUnique(index + if p == 0 then 1 else p, k);
  }

  lemma {:induction false} StartGrows(p: nat, shelf: nat)
    ensures p <= ShelfStart(p, shelf)
  {
    if shelf > 0 {
      StartGrows(p, shelf - 1);
    }
  }

  /** Every element past the prealloc ones has its place, inside its shelf. */
  lemma {:induction false} ElementHasPlace(p: nat, index: nat)
    requires IsPrealloc(p) && p <= index
    ensures ShelfOf(p, index) >= 0
    ensures 0 <= BoxOf(p, index) < ShelfSize(p, ShelfOf(p, index))
    ensures ShelfStart(p, ShelfOf(p, index)) + BoxOf(p, index) == index
  {
    hide BitLength, Pow2, ShelfStart;
    ShelfIsNat(p, index);
    StartIsPower(p, ShelfOf(p, index));
    TopBit(index + if p == 0 then 1 else p);
  }

  /** Distinct elements have distinct places. */
  lemma {:induction false} PlacesDistinct(p: nat, i: nat, j: nat)
    requires IsPrealloc(p) && p <= i && p <= j
    ensures ShelfOf(p, i) == ShelfOf(p, j) && BoxOf(p, i) == BoxOf(p, j) ==> i == j
  {
    ElementHasPlace(p, i);
    ElementHasPlace(p, j);
  }

  lemma {:induction false} NextShelfStarts(p: nat, shelf: nat)
    ensures ShelfStart(p, shelf + 1) == ShelfStart(p, shelf) + ShelfSize(p, shelf)
    ensures ShelfSize(p, shelf + 1) > 0
  {
  }

  /** The next element is in the next box, or opens the next shelf when this one is full. */
  lemma {:induction false} FillsInOrder(p: nat, index: nat)
    requires IsPrealloc(p) && p <= index
    ensures var shelf, box := ShelfOf(p, index), BoxOf(p, index);
            && shelf >= 0
            && if box + 1 < ShelfSize(p, shelf) then ShelfOf(p, index + 1) == shelf && BoxOf(p, index + 1) == box + 1
               else ShelfOf(p, index + 1) == shelf + 1 && BoxOf(p, index + 1) == 0
  {
    hide BitLength, Pow2, ShelfOf, BoxOf;
    ElementHasPlace(p, index);
    NextShelfStarts(p, ShelfOf(p, index));
    var shelf: nat, box: nat := ShelfOf(p, index), BoxOf(p, index);
    if box + 1 < ShelfSize(p, shelf) {
      PlaceOfElement(p, shelf, box + 1);
    } else {
      PlaceOfElement(p, shelf + 1, 0);
    }
  }

  /** The first shelved element is in box 0 of shelf 0 exactly when the prealloc count is 0
      or a power of two. */
  lemma {:induction false} PreallocMustBePower(p: nat)
    ensures (ShelfOf(p, p) == 0 && BoxOf(p, p) == 0) <==> IsPrealloc(p)
  {
    ShelfIsNat(p, p);
    if p > 0 && ShelfOf(p, p) == 0 && BoxOf(p, p) == 0 {
      BitLengthBounds(p);
      assert Pow2(BitLength(p)) == 2 * Pow2(BitLength(p) - 1);
      assert p == Pow2(BitLength(p) - 1);
    }
    if IsPrealloc(p) {
      assert ShelfStart(p, 0) == p;
      assert ShelfSize(p, 0) > 0;
      PlaceOfElement(p, 0, 0);
    }
  }
}
