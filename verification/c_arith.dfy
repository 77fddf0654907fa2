/**
 C integer semantics that differ from Dafny's mathematical integers.

 C's `/` and `%` on `int` truncate toward zero (Dafny's are Euclidean), a
 float-to-int cast truncates toward zero, and `uint32_t` arithmetic wraps
 modulo 2^32. The engine relies on each of these, so they are written out here
 once and used by every other module.
 */
module CArith {

  const Uint32Modulus: int := 0x1_0000_0000

  /** A value of C type `uint32_t`. */
  predicate IsUint32(n: int) {
    0 <= n < Uint32Modulus
  }

  function Abs(n: int): nat {
    if n < 0 then -n else n
  }

  /** C's `a / b`: the quotient truncated toward zero. */
  function CDiv(a: int, b: int): (q: int)
    requires b != 0
    ensures Abs(q) * Abs(b) <= Abs(a) < (Abs(q) + 1) * Abs(b)
    ensures q != 0 ==> ((q < 0) <==> ((a < 0) != (b < 0)))
  {
    var m := Abs(a) / Abs(b);
    DivBounds(Abs(a), Abs(b));
    if (a < 0) != (b < 0) then -m else m
  }

  lemma DivBounds(n: nat, d: nat)
    requires d > 0
    ensures (n / d) * d <= n < (n / d + 1) * d
  {
    assert n == (n / d) * d + n % d;
  }

  /** C's `a % b`: the remainder that pairs with the truncating quotient. */
  function CMod(a: int, b: int): (r: int)
    requires b != 0
    ensures Abs(r) < Abs(b)
    ensures r != 0 ==> ((r < 0) <==> (a < 0))
  {
    a - b * CDiv(a, b)
  }

  /** The identity C guarantees: `(a / b) * b + a % b == a`. */
  lemma DivModIdentity(a: int, b: int)
    requires b != 0
    ensures CDiv(a, b) * b + CMod(a, b) == a
  {
  }

  /** On non-negative operands C agrees with Dafny's Euclidean division. */
  lemma {:induction false} NonNegativeDivMod(a: int, b: int)
    requires 0 <= a && 0 < b
    ensures CDiv(a, b) == a / b && CMod(a, b) == a % b
  {
    assert CDiv(a, b) == Abs(a) / Abs(b);
  }

  /** C's `(int) x` for a float `x`: truncation toward zero. */
  function TruncToInt(x: real): (n: int)
    ensures Abs(n) as real <= (if x < 0.0 then -x else x) < (Abs(n) + 1) as real
    ensures n != 0 ==> ((n < 0) <==> (x < 0.0))
  {
    if x >= 0.0 then x.Floor else -((-x).Floor)
  }

  /** C's `(float) a / d` for integers, with floats read as reals. */
  function Ratio(a: int, d: int): (q: real)
    requires d != 0
    ensures q * d as real == a as real
  {
    a as real / d as real
  }

  /**
   A C `float` as far as the engine's texture coordinates need one: a finite
   value read as a real, or one of the non-finite values a division by zero
   produces. Rounding is not modelled.
   */
  datatype Float = Finite(val: real) | PosInf | NegInf | NaN

  /**
   C's `(float) a / d` for integers `a` and `d`. A non-zero divisor gives the
   exact quotient. A zero divisor is +0.0 once converted, so IEEE 754 gives an
   infinity with the dividend's sign, and NaN for 0 / 0.
   */
  function FDiv(a: int, d: int): (q: Float)
    ensures q.Finite? <==> d != 0
    ensures q.Finite? ==> q.val * d as real == a as real
    ensures d == 0 ==> (q == PosInf <==> a > 0) && (q == NegInf <==> a < 0) && (q == NaN <==> a == 0)
  {
    if d != 0 then Finite(Ratio(a, d))
    else if a > 0 then PosInf
    else if a < 0 then NegInf
    else NaN
  }

  /** Multiplying by a non-negative factor keeps a strict order at least one factor apart. */
  lemma MulStep(a: int, b: int, c: nat)
    requires a < b
    ensures a * c + c <= b * c
  {
    assert b * c - a * c == (b - a) * c;
    assert (b - a) * c >= c by {
      assert b - a >= 1;
    }
  }

  lemma MulSucc(a: int, b: int)
    ensures (a + 1) * b - a * b == b
  {
  }

  /** Ratios over the same divisor subtract as their numerators do. */
  lemma RatioSub(a: int, b: int, d: int)
    requires d != 0
    ensures Ratio(a, d) - Ratio(b, d) == Ratio(a - b, d)
  {
    var q1, q2, q3 := Ratio(a, d), Ratio(b, d), Ratio(a - b, d);
    assert (q1 - q2) * d as real == q3 * d as real;
    assert (q1 - q2 - q3) * d as real == 0.0;
  }
}
