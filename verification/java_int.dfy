/** Java's 32-bit `int`, the type of every stock value, quantity and order counter in the store. */
module JavaInt {

  const Modulus: int := 0x1_0000_0000
  const MinInt: int := -0x8000_0000
  const MaxInt: int := 0x7fff_ffff

  newtype i32 = x: int | -0x8000_0000 <= x < 0x8000_0000

  /** The value a Java `int` expression yields when the mathematical result is `x`:
      two's-complement wrap-around, exact whenever `x` fits. */
  function Wrap(x: int): (r: i32)
    ensures (r as int - x) % Modulus == 0
    ensures MinInt <= x <= MaxInt ==> r as int == x
  {
    var m := x % Modulus;
    if m <= MaxInt then m as i32 else (m - Modulus) as i32
  }

  /** Java `a + b` on `int`. */
  function Plus(a: i32, b: i32): (r: i32)
    ensures MinInt <= a as int + b as int <= MaxInt ==> r as int == a as int + b as int
  {
    Wrap(a as int + b as int)
  }

  /** Java `a - b` on `int`. */
  function Minus(a: i32, b: i32): (r: i32)
    ensures MinInt <= a as int - b as int <= MaxInt ==> r as int == a as int - b as int
  {
    Wrap(a as int - b as int)
  }

  /** `Wrap` depends only on the residue modulo 2^32: wrapping an intermediate
      result and then continuing gives the same value as wrapping once at the end. */
  lemma WrapCongruent(x: int, y: int)
    requires (x - y) % Modulus == 0
    ensures Wrap(x) == Wrap(y)
  {
    var k := (x - y) / Modulus;
    assert x == y + k * Modulus;
    assert x % Modulus == y % Modulus;
  }

  /** Adding `k` after a wrapped addition is the same as adding everything first. */
  lemma WrapThenAdd(x: int, k: int)
    ensures Wrap(Wrap(x) as int + k) == Wrap(x + k)
  {
    WrapCongruent(Wrap(x) as int + k, x + k);
  }
}
