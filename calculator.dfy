/** The calculator plugin's two functions on C# `int`: 32-bit two's-complement arithmetic,
    unchecked, so a result outside the range wraps around modulo 2^32. */
module Calculator {
  const Modulus: int := 0x1_0000_0000
  const Int32Min: int := -0x8000_0000
  const Int32Max: int := 0x7FFF_FFFF

  newtype int32 = x: int | -0x8000_0000 <= x < 0x8000_0000

  /** The int32 congruent to x modulo 2^32. */
  function Wrap(x: int): (r: int32)
    ensures (r as int - x) % Modulus == 0
    ensures Int32Min <= x <= Int32Max ==> r as int == x
  {
    ((x - Int32Min) % Modulus + Int32Min) as int32
  }

  /** Wrap only looks at its argument modulo 2^32. */
  lemma {:induction false} WrapShift(x: int, k: int)
    ensures Wrap(x + k * Modulus) == Wrap(x)
    decreases if k < 0 then -k else k
  {
    if k > 0 {
      WrapShift(x, k - 1);
      assert x + k * Modulus == (x + (k - 1) * Modulus) + Modulus;
    } else if k < 0 {
      WrapShift(x, k + 1);
      assert x + k * Modulus == (x + (k + 1) * Modulus) - Modulus;
    }
  }

  /** Congruent arguments wrap to the same int32. */
  lemma WrapCongruent(x: int, y: int)
    requires (x - y) % Modulus == 0
    ensures Wrap(x) == Wrap(y)
  {
    var k := (x - y) / Modulus;
    assert x == y + k * Modulus;
    WrapShift(y, k);
  }

  /** AddNumbers: number1 + number2. */
  function AddNumbers(number1: int32, number2: int32): int32 {
    Wrap(number1 as int + number2 as int)
  }

  /** MultiplyNumbers: number1 * number2. */
  function MultiplyNumbers(number1: int32, number2: int32): int32 {
    Wrap(number1 as int * number2 as int)
  }

  /** The sum is exact when it fits and otherwise off by exactly 2^32. */
  lemma AddNumbersWraps(a: int32, b: int32)
    ensures Int32Min <= a as int + b as int <= Int32Max ==> AddNumbers(a, b) as int == a as int + b as int
    ensures a as int + b as int > Int32Max ==> AddNumbers(a, b) as int == a as int + b as int - Modulus
    ensures a as int + b as int < Int32Min ==> AddNumbers(a, b) as int == a as int + b as int + Modulus
  {
  }

  /** The product is congruent to the exact product and exact when that fits. */
  lemma MultiplyNumbersWraps(a: int32, b: int32)
    ensures (MultiplyNumbers(a, b) as int - a as int * b as int) % Modulus == 0
    ensures Int32Min <= a as int * b as int <= Int32Max ==> MultiplyNumbers(a, b) as int == a as int * b as int
  {
  }

  /** int.MaxValue + 1 is int.MinValue. */
  lemma AddOverflowsToMin()
    ensures AddNumbers(Int32Max as int32, 1) as int == Int32Min
  {
  }

  /** Both operations commute; 0 is the identity of addition and absorbs multiplication;
      1 is the identity of multiplication. */
  lemma AlgebraicLaws(a: int32, b: int32)
    ensures AddNumbers(a, b) == AddNumbers(b, a)
    ensures MultiplyNumbers(a, b) == MultiplyNumbers(b, a)
    ensures AddNumbers(a, 0) == a
    ensures MultiplyNumbers(a, 0) == 0 && MultiplyNumbers(a, 1) == a
  {
  }

  /** Wrapped addition is associative: wrapping an intermediate sum loses nothing. */
  lemma AddNumbersAssociative(a: int32, b: int32, c: int32)
    ensures AddNumbers(AddNumbers(a, b), c) == AddNumbers(a, AddNumbers(b, c))
  {
    var x := a as int + b as int + c as int;
    WrapCongruent(AddNumbers(a, b) as int + c as int, x);
    WrapCongruent(a as int + AddNumbers(b, c) as int, x);
  }
}
