/** Sequence-number arithmetic: the 32-bit comparison macros of tcp_impl.h against
    unbounded stream positions. */
module SeqNum {
  type byte = x: int | 0 <= x < 0x100
  type u16 = x: int | 0 <= x < 0x1_0000
  type u32 = x: int | 0 <= x < 0x1_0000_0000

  const MODULUS := 0x1_0000_0000
  const HALF := 0x8000_0000

  /** The 32-bit image of an unbounded position. */
  function Wrap(x: int): u32 {
    x % MODULUS
  }

  /** The low 16 bits, as a C cast to u16_t keeps them. */
  function Low16(x: int): u16 {
    x % 0x1_0000
  }

  /** (s32_t)(a - b) */
  function Diff(a: u32, b: u32): int {
    var d := Wrap(a - b);
    if d < HALF then d else d - MODULUS
  }

  predicate Lt(a: u32, b: u32) { Diff(a, b) < 0 }

  predicate Leq(a: u32, b: u32) { Diff(a, b) <= 0 }

  predicate Gt(a: u32, b: u32) { Diff(a, b) > 0 }

  predicate Geq(a: u32, b: u32) { Diff(a, b) >= 0 }

  /** Is b <= a <= c? */
  predicate Between(a: u32, b: u32, c: u32) { Geq(a, b) && Leq(a, c) }

  /** The signed 32-bit difference is the true one exactly for distances below 2^31. */
  lemma DiffExact(a: int, b: int)
    ensures Diff(Wrap(a), Wrap(b)) == a - b <==> -HALF <= a - b < HALF
  {
    WrapSub(a, b);
  }

  lemma WrapSub(a: int, b: int)
    ensures Wrap(Wrap(a) - Wrap(b)) == Wrap(a - b)
    ensures Wrap(Wrap(a) + b) == Wrap(a + b)
  {
    var q := a / MODULUS;
    var r := b / MODULUS;
    assert a == q * MODULUS + Wrap(a) && b == r * MODULUS + Wrap(b);
    WrapShift(Wrap(a) - Wrap(b), q - r);
    WrapShift(Wrap(a) + b, q);
  }

  lemma {:induction false} WrapShift(x: int, k: int)
    ensures Wrap(x + k * MODULUS) == Wrap(x)
    decreases if k < 0 then -k else k
  {
    if k > 0 {
      WrapShift(x, k - 1);
      assert x + k * MODULUS == (x + (k - 1) * MODULUS) + MODULUS;
    } else if k < 0 {
      WrapShift(x, k + 1);
      assert x + k * MODULUS == (x + (k + 1) * MODULUS) - MODULUS;
    }
  }

  /** Every macro decides the order of two positions less than 2^31 apart. */
  lemma OrderExact(a: int, b: int)
    requires -HALF <= a - b < HALF
    ensures Lt(Wrap(a), Wrap(b)) <==> a < b
    ensures Leq(Wrap(a), Wrap(b)) <==> a <= b
    ensures Gt(Wrap(a), Wrap(b)) <==> a > b
    ensures Geq(Wrap(a), Wrap(b)) <==> a >= b
    ensures Wrap(a) == Wrap(b) <==> a == b
  {
    DiffExact(a, b);
  }

  /** Comparing two 32-bit images as plain numbers gives the order of the positions exactly
      when both lie in the same run of 2^32 sequence numbers. */
  lemma PlainOrderExact(a: int, b: int)
    requires -MODULUS < a - b < MODULUS
    ensures (Wrap(a) > Wrap(b) <==> a > b) <==> a / MODULUS == b / MODULUS
  {
    assert a == (a / MODULUS) * MODULUS + Wrap(a) && b == (b / MODULUS) * MODULUS + Wrap(b);
  }

  lemma WrapSmall(x: int)
    requires 0 <= x < MODULUS
    ensures Wrap(x) == x
  {
  }

  lemma Low16Small(x: int)
    requires 0 <= x < 0x1_0000
    ensures Low16(x) == x
  {
  }

  lemma AddWrap(a: int, n: int)
    ensures Wrap(Wrap(a) + n) == Wrap(a + n)
  {
    WrapSub(a, n);
  }

  lemma Low16Wrap(x: int)
    ensures Low16(Wrap(x)) == Low16(x)
  {
    var k := x / MODULUS;
    assert x == Wrap(x) + (k * 0x1_0000) * 0x1_0000;
    ModShift(Wrap(x), k * 0x1_0000);
  }

  lemma {:induction false} ModShift(x: int, k: int)
    ensures (x + k * 0x1_0000) % 0x1_0000 == x % 0x1_0000
    decreases if k < 0 then -k else k
  {
    if k > 0 {
      ModShift(x, k - 1);
      assert x + k * 0x1_0000 == (x + (k - 1) * 0x1_0000) + 0x1_0000;
    } else if k < 0 {
      ModShift(x, k + 1);
      assert x + k * 0x1_0000 == (x + (k + 1) * 0x1_0000) - 0x1_0000;
    }
  }

  lemma SubWrap(a: int, b: int)
    ensures Low16(Wrap(Wrap(a) - Wrap(b))) == Low16(a - b)
  {
    WrapSub(a, b);
    Low16Wrap(a - b);
  }
}
