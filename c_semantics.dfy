/** C integer semantics the streamer relies on, written out explicitly because
    Dafny's integers are unbounded and its `/` and `%` are Euclidean. */
module CSemantics {

  /** A nullable pointer / optional value. */
  datatype Option<T> = None | Some(value: T)

  const UINT32_MODULUS: int := 0x1_0000_0000

  function Abs(x: int): (r: int)
    ensures r >= 0 && (r == x || r == -x)
  {
    if x < 0 then -x else x
  }

  /** C99 `a / b`: the quotient truncated toward zero. */
  function CDiv(a: int, b: int): (q: int)
    requires b != 0
    ensures a >= 0 && b > 0 ==> q == a / b
    ensures a < 0 && b > 0 ==> q == -((-a) / b)
    ensures a >= 0 && b < 0 ==> q == -(a / (-b))
    ensures a < 0 && b < 0 ==> q == (-a) / (-b)
  {
    if (a < 0) == (b < 0) then Abs(a) / Abs(b) else -(Abs(a) / Abs(b))
  }

  /** C99 `a % b`: the remainder that goes with the truncating quotient, so
      it takes the sign of the dividend and its magnitude is |a| mod |b|. */
  function CRem(a: int, b: int): (r: int)
    requires b != 0
    ensures a >= 0 ==> r == a % Abs(b)
    ensures a < 0 ==> r == -((-a) % Abs(b))
  {
    if a < 0 then -(Abs(a) % Abs(b)) else Abs(a) % Abs(b)
  }

  /** The remainder never reaches the divisor's magnitude and is zero
      exactly when |b| divides |a|. */
  lemma CRemBounds(a: int, b: int)
    requires b != 0
    ensures -Abs(b) < CRem(a, b) < Abs(b)
    ensures CRem(a, b) == 0 <==> Abs(a) % Abs(b) == 0
  {
  }

  /** The truncated quotient of a sum of n readings in [lo, hi] (lo >= 0) by
      n is again in [lo, hi]: integer averaging stays within the readings. */
  lemma CDivWithin(sum: int, n: int, lo: int, hi: int)
    requires n > 0 && 0 <= lo && n * lo <= sum <= n * hi
    ensures lo <= CDiv(sum, n) <= hi
  {
    var q := sum / n;
    assert sum == n * q + sum % n;
    if q < lo {
      assert n * q <= n * (lo - 1);
    }
    if q > hi {
      assert n * q >= n * (hi + 1);
    }
  }

  /** Conversion of a (signed) value to C's `uint32_t`: reduction modulo 2^32. */
  function U32(x: int): (r: nat)
    ensures r < UINT32_MODULUS
    ensures 0 <= x < UINT32_MODULUS ==> r == x
    ensures -UINT32_MODULUS <= x < 0 ==> r == x + UINT32_MODULUS
  {
    x % UINT32_MODULUS
  }

  /** Concatenation is associative (stated once so that callers can use it
      without unfolding their operands). */
  lemma AppendAssoc<T>(a: seq<T>, b: seq<T>, c: seq<T>)
    ensures a + (b + c) == a + b + c
  {
  }
}
