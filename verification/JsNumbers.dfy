/**
 * The 32-bit operators of JavaScript on mathematical integers. A 32-bit pattern is a natural
 * number below 2^32; `ToInt32` reads it back as a signed value. Bits are those of a natural number
 * of any size.
 */
module JsNumbers {

  /** A string is a sequence of UTF-16 code units. */
  type CodeUnit = c: int | 0 <= c < 0x1_0000

  const TWO_31 := 0x8000_0000
  const TWO_32 := 0x1_0000_0000

  function Pow2(n: nat): (p: nat)
    ensures 1 <= p
  {
    if n == 0 then 1 else 2 * Pow2(n - 1)
  }

  /** What storing `x` in an Int32Array cell leaves there. */
  function ToInt32(x: int): (r: int)
    ensures -TWO_31 <= r < TWO_31
    ensures (x - r) % TWO_32 == 0
    ensures -TWO_31 <= x < TWO_31 ==> r == x
  {
    var m := x % TWO_32;
    if m >= TWO_31 then m - TWO_32 else m
  }

  /** `a | b` on bit patterns, bit by bit. */
  function OrBits(a: nat, b: nat): nat
    decreases a + b
  {
    if a == 0 && b == 0 then 0
    else (if a % 2 == 1 || b % 2 == 1 then 1 else 0) + 2 * OrBits(a / 2, b / 2)
  }

  /** `x << s` as a bit pattern: the shift count is taken modulo 32, high bits are lost. */
  function ShiftLeft(x: nat, s: nat): (r: nat)
    ensures r < TWO_32
  {
    (x * Pow2(s % 32)) % TWO_32
  }

  lemma {:induction false} SmallMod(x: nat, m: nat)
    requires x < m
    ensures x % m == x
  {
  }

  /** A shift that loses no bits multiplies. */
  lemma {:induction false} ShiftExact(x: nat, s: nat)
    requires s < 32 && x * Pow2(s) < TWO_32
    ensures ShiftLeft(x, s) == x * Pow2(s)
  {
    SmallMod(s, 32);
    SmallMod(x * Pow2(s), TWO_32);
  }

  lemma {:induction false} OrWithZero(b: nat)
    ensures OrBits(0, b) == b
    decreases b
  {
    if b != 0 {
      OrWithZero(b / 2);
    }
  }

  /** Bits that do not overlap add up: below position `s` only `a`, above it only `d`. */
  lemma {:induction false} OrDisjoint(a: nat, d: nat, s: nat)
    requires a < Pow2(s)
    ensures OrBits(a, d * Pow2(s)) == a + d * Pow2(s)
    decreases s
  {
    if s == 0 {
      OrWithZero(d);
    } else {
      var b := d * Pow2(s - 1);
      assert d * Pow2(s) == 2 * b;
      OrDisjoint(a / 2, d, s - 1);
      assert (2 * b) / 2 == b;
      assert OrBits(a, 2 * b) == (if a % 2 == 1 then 1 else 0) + 2 * OrBits(a / 2, b);
    }
  }

  lemma {:induction false} MulMonotone(a: nat, b: nat, p: nat)
    requires a <= b
    ensures a * p <= b * p
  {
  }

  lemma {:induction false} Pow2Add(a: nat, b: nat)
    ensures Pow2(a + b) == Pow2(a) * Pow2(b)
    decreases b
  {
    if b != 0 {
      Pow2Add(a, b - 1);
    }
  }

  lemma {:induction false} Pow2Monotone(a: nat, b: nat)
    requires a <= b
    ensures Pow2(a) <= Pow2(b)
  {
    Pow2Add(a, b - a);
    MulMonotone(1, Pow2(b - a), Pow2(a));
  }

  lemma {:induction false} Pow2At32()
    ensures Pow2(32) == TWO_32
  {
    assert Pow2(8) == 256;
    Pow2Add(8, 8);
    Pow2Add(16, 16);
  }
}
