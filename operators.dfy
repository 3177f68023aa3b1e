/** The binary operators RAJA scans and reduces with (`operators::plus`,
    `operators::minimum`, `operators::maximum`, and the reducers `reduce::sum`,
    `reduce::min`, `reduce::max` that behave the same way), over the C++ `int`
    the examples use. Each operator comes with its `identity()`. */
module Operators {

  const INT_MIN: int := -0x8000_0000
  const INT_MAX: int := 0x7fff_ffff

  /** A value of the C++ type `int` (32 bits, two's complement). */
  type Int32 = x: int | INT_MIN <= x <= INT_MAX

  /** Two's-complement wrap-around of an unbounded integer into `int`. */
  function Wrap(x: int): Int32
  {
    (x - INT_MIN) % 0x1_0000_0000 + INT_MIN
  }

  /** Wrapping leaves an `int` alone and otherwise moves by a multiple of 2^32. */
  lemma WrapCongruent(x: int)
    ensures INT_MIN <= x <= INT_MAX ==> Wrap(x) == x
    ensures (Wrap(x) - x) % 0x1_0000_0000 == 0
  {
  }

  /** Wrapping forgets multiples of 2^32. */
  lemma WrapShift(x: int, k: int)
    ensures Wrap(x + k * 0x1_0000_0000) == Wrap(x)
  {
  }

  datatype Operator = Plus | Minimum | Maximum

  /** `Function::identity()`: 0 for plus, the largest `int` for minimum and the
      smallest `int` for maximum. */
  function Identity(op: Operator): (e: Int32)
  {
    match op
    case Plus => 0
    case Minimum => INT_MAX
    case Maximum => INT_MIN
  }

  /** `Function()(a, b)`. The addition of two `int`s wraps. */
  function Apply(op: Operator, a: Int32, b: Int32): Int32
  {
    match op
    case Plus => Wrap(a + b)
    case Minimum => if a < b then a else b
    case Maximum => if a > b then a else b
  }

  /** The identity is neutral on both sides, for every `int`. */
  lemma IdentityNeutral(op: Operator, x: Int32)
    ensures Apply(op, Identity(op), x) == x
    ensures Apply(op, x, Identity(op)) == x
  {
  }

  /** Wrapping addition is associative. */
  lemma {:induction false} WrapAddAssociative(a: Int32, b: Int32, c: Int32)
    ensures Wrap(Wrap(a + b) + c) == Wrap(a + Wrap(b + c))
  {
    WrapCongruent(a + b);
    WrapCongruent(b + c);
    var k1 := (Wrap(a + b) - (a + b)) / 0x1_0000_0000;
    var k2 := (Wrap(b + c) - (b + c)) / 0x1_0000_0000;
    assert Wrap(a + b) + c == (a + b + c) + k1 * 0x1_0000_0000;
    assert a + Wrap(b + c) == (a + b + c) + k2 * 0x1_0000_0000;
    WrapShift(a + b + c, k1);
    WrapShift(a + b + c, k2);
  }

  /** Every operator is associative, which is what block-wise scanning relies on. */
  lemma {:induction false} Associative(op: Operator, a: Int32, b: Int32, c: Int32)
    ensures Apply(op, Apply(op, a, b), c) == Apply(op, a, Apply(op, b, c))
  {
    if op == Plus {
      WrapAddAssociative(a, b, c);
    }
  }
}
