/**
 * C++ integer arithmetic as the opaque predicates use it.
 *
 * `int` is a 32-bit two's-complement integer. Signed overflow is undefined
 * behaviour in C++; this model gives every signed `+`, `-` and `*` the
 * wrapping meaning (the result is the unique 32-bit value congruent to the
 * mathematical result modulo 2^32). C++'s `%` truncates toward zero, which
 * differs from Dafny's Euclidean `%` for negative operands, so it is written
 * out as `CRem`.
 */
module MachineInt {

  const Modulus: int := 0x1_0000_0000
  const MinInt32: int := -0x8000_0000
  const MaxInt32: int := 0x7FFF_FFFF

  /** The values of a C++ `int`. */
  type Int32 = x: int | MinInt32 <= x <= MaxInt32

  /** `a` and `b` agree modulo 2^32, i.e. have the same 32-bit pattern. */
  predicate Congruent(a: int, b: int) {
    (a - b) % Modulus == 0
  }

  /** The 32-bit two's-complement value that the bit pattern of `v` denotes. */
  function Wrap32(v: int): (r: Int32)
    ensures Congruent(r, v)
    ensures MinInt32 <= v <= MaxInt32 ==> r == v
  {
    var u := (v - MinInt32) % Modulus;
    assert v - MinInt32 == Modulus * ((v - MinInt32) / Modulus) + u;
    u + MinInt32
  }

  /** Wrapping `a + b` on `int`. */
  function Add32(a: Int32, b: Int32): (r: Int32)
    ensures Congruent(r, a + b)
    ensures MinInt32 <= a + b <= MaxInt32 ==> r == a + b
  {
    Wrap32(a + b)
  }

  /** Wrapping `a * b` on `int`. */
  function Mul32(a: Int32, b: Int32): (r: Int32)
    ensures Congruent(r, a * b)
    ensures MinInt32 <= a * b <= MaxInt32 ==> r == a * b
  {
    Wrap32(a * b)
  }

  /** Congruence is symmetric. */
  lemma CongruentSymmetric(a: int, b: int)
    requires Congruent(a, b)
    ensures Congruent(b, a)
  {
  }

  /** Congruence is transitive. */
  lemma CongruentTransitive(a: int, b: int, c: int)
    requires Congruent(a, b) && Congruent(b, c)
    ensures Congruent(a, c)
  {
  }

  /** Every multiple of 2^32 is congruent to 0. */
  lemma ModulusMultiple(k: int)
    ensures (Modulus * k) % Modulus == 0
  {
  }

  /** Sums of congruent operands are congruent. */
  lemma AddCongruent(a: int, a': int, b: int, b': int)
    requires Congruent(a, a') && Congruent(b, b')
    ensures Congruent(a + b, a' + b')
  {
  }

  /** Products of congruent operands are congruent. */
  lemma MulCongruent(a: int, a': int, b: int, b': int)
    requires Congruent(a, a') && Congruent(b, b')
    ensures Congruent(a * b, a' * b')
  {
    var k := (a - a') / Modulus;
    var j := (b - b') / Modulus;
    assert a == a' + Modulus * k;
    assert b == b' + Modulus * j;
    var e := a' * j + k * b' + Modulus * k * j;
    assert a * b == (a' + Modulus * k) * (b' + Modulus * j);
    assert (a' + Modulus * k) * (b' + Modulus * j) == a' * b' + Modulus * e;
    assert a * b - a' * b' == Modulus * e;
    ModulusMultiple(e);
  }

  /** Two 32-bit values with the same bit pattern are equal. */
  lemma CongruentInt32Equal(a: Int32, b: Int32)
    requires Congruent(a, b)
    ensures a == b
  {
  }

  /** `Wrap32` depends only on the bit pattern of its argument. */
  lemma Wrap32Congruent(v: int, w: int)
    requires Congruent(v, w)
    ensures Wrap32(v) == Wrap32(w)
  {
    CongruentTransitive(Wrap32(v), v, w);
    CongruentSymmetric(Wrap32(w), w);
    CongruentTransitive(Wrap32(v), w, Wrap32(w));
    CongruentInt32Equal(Wrap32(v), Wrap32(w));
  }

  /** C++'s `a / b` on integers: the quotient truncated toward zero. */
  function CQuot(a: int, b: int): int
    requires b != 0
  {
    if a >= 0 then a / b else -((-a) / b)
  }

  /**
   * C++'s `a % b` on integers: what is left of `a` after subtracting `b`
   * times the truncated quotient, so its sign follows the dividend.
   */
  function CRem(a: int, b: int): (r: int)
    requires b != 0
    ensures a == b * CQuot(a, b) + r
    ensures a >= 0 ==> 0 <= r < if b > 0 then b else -b
    ensures a < 0 ==> -(if b > 0 then b else -b) < r <= 0
  {
    var m := if a >= 0 then a else -a;
    assert m == b * (m / b) + m % b;
    assert a < 0 ==> b * -(m / b) == -(b * (m / b));
    if a >= 0 then m % b else -(m % b)
  }
}
