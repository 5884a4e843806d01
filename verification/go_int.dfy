/**
 * Go's `int` on a 64-bit platform: two's-complement integers in
 * [-2^63, 2^63) whose arithmetic wraps around modulo 2^64, and the bitwise
 * operators `&` and `^` on non-negative operands.
 */
module GoInt {

  const Modulus: int := 0x1_0000_0000_0000_0000
  const MinInt64: int := -0x8000_0000_0000_0000
  const MaxInt64: int := 0x7fff_ffff_ffff_ffff

  predicate InRange(x: int)
  {
    MinInt64 <= x <= MaxInt64
  }

  /**
   * The int64 that the mathematical value `x` wraps around to: the one
   * representative of `x` modulo 2^64 that lies in the int64 range.
   */
  function Wrap(x: int): (r: int)
    ensures InRange(r)
    ensures (r - x) % Modulus == 0
    ensures InRange(x) ==> r == x
  {
    (x - MinInt64) % Modulus + MinInt64
  }

  /** Adding a multiple of 2^64 does not change the wrapped value. */
  lemma WrapShift(x: int, q: int)
    ensures Wrap(x + q * Modulus) == Wrap(x)
  {
    var a := x - MinInt64;
    assert (a + q * Modulus) % Modulus == a % Modulus by {
      var d := a / Modulus;
      assert a == d * Modulus + a % Modulus;
      assert a + q * Modulus == (d + q) * Modulus + a % Modulus;
    }
  }

  /**
   * Go's `x<<8 + c` on int64 operands, each operation wrapping, is the
   * wrapped value of the exact `x * 256 + c`, even when `x` itself was
   * already wrapped.
   */
  lemma WrapShiftAdd(x: int, c: int)
    ensures Wrap(Wrap(Wrap(x) * 256) + c) == Wrap(x * 256 + c)
  {
    var q1 := (x - MinInt64) / Modulus;
    assert Wrap(x) == x - q1 * Modulus;
    WrapShift(x * 256, -256 * q1);
    assert Wrap(x) * 256 == x * 256 + (-256 * q1) * Modulus;
    var y := x * 256;
    var q2 := (y - MinInt64) / Modulus;
    assert Wrap(y) == y - q2 * Modulus;
    WrapShift(y + c, -q2);
    assert Wrap(y) + c == y + c + (-q2) * Modulus;
  }

  function Pow2(n: nat): (p: nat)
    ensures p >= 1
  {
    if n == 0 then 1 else 2 * Pow2(n - 1)
  }

  /** `a & b` on non-negative ints, bit by bit from the least significant. */
  function BitAnd(a: nat, b: nat): nat
  {
    if a == 0 || b == 0 then 0
    else 2 * BitAnd(a / 2, b / 2) + (if a % 2 == 1 && b % 2 == 1 then 1 else 0)
  }

  /** `a ^ b` on non-negative ints, bit by bit from the least significant. */
  function BitXor(a: nat, b: nat): nat
    decreases a + b
  {
    if a == 0 && b == 0 then 0
    else 2 * BitXor(a / 2, b / 2) + (if a % 2 != b % 2 then 1 else 0)
  }

  /** Masking a value below 2^(n+1) with bit n tests whether it reaches 2^n. */
  lemma {:induction false} BitAndPow2(t: nat, n: nat)
    requires t < Pow2(n + 1)
    ensures BitAnd(t, Pow2(n)) == 0 <==> t < Pow2(n)
  {
    if n > 0 && t > 0 {
      BitAndPow2(t / 2, n - 1);
    }
  }

  /** Exclusive-or with n one-bits complements a value below 2^n. */
  lemma {:induction false} BitXorAllOnes(t: nat, n: nat)
    requires t < Pow2(n)
    ensures BitXor(t, Pow2(n) - 1) == Pow2(n) - 1 - t
  {
    if n > 0 {
      BitXorAllOnes(t / 2, n - 1);
    }
  }

  /** The two 16-bit operations of the DS18B20 decoder on a 16-bit value. */
  lemma Bits16(t: nat)
    requires t < 0x1_0000
    ensures BitAnd(t, 0x8000) == 0 <==> t < 0x8000
    ensures BitXor(t, 0xFFFF) == 0xFFFF - t
  {
    assert Pow2(8) == 0x100;
    assert Pow2(16) == 0x1_0000;
    BitAndPow2(t, 15);
    BitXorAllOnes(t, 16);
  }
}
