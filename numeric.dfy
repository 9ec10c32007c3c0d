/**
 * Integer arithmetic as the C++ code performs it, and the two small
 * helpers `bound` and `mod` of VideoFramePrivate
 * (VCamUtils/src/videoframe.cpp).
 */
module Numeric {

  datatype Option<T> = None | Some(value: T)

  /** An 8-bit unsigned sample, `uint8_t`. */
  type uint8 = x: int | 0 <= x < 256

  function Abs(a: int): (r: nat)
    ensures r == a || r == -a
  {
    if a < 0 then -a else a
  }

  /**
   * C++ integer division, which truncates toward zero (Dafny's `/` is
   * Euclidean).
   */
  function Quot(a: int, b: int): (q: int)
    requires b != 0
    ensures a >= 0 && b > 0 ==> q == a / b
    ensures a < 0 && b > 0 ==> q == -((-a) / b)
  {
    if (a < 0) == (b < 0) then Abs(a) / Abs(b) else -(Abs(a) / Abs(b))
  }

  /** C++ `%`, the remainder of the truncating division. */
  function Rem(a: int, b: int): (r: int)
    requires b != 0
    ensures a >= 0 && b > 0 ==> r == a % b
  {
    a - b * Quot(a, b)
  }

  /** The conversion of an `int` to `uint8_t`: reduction modulo 256. */
  function Wrap8(a: int): (r: uint8)
    ensures 0 <= a < 256 ==> r == a
    ensures (r - a) % 256 == 0
  {
    a % 256
  }

  /** `bound(min, value, max)`: clamps `value` into `[min, max]`. */
  function Bound(min: int, value: int, max: int): (r: int)
    ensures min <= max ==> min <= r <= max
    ensures min <= value <= max ==> r == value
    ensures value < min ==> r == min
    ensures max < value && min <= max ==> r == max
  {
    if value < min then min else if value > max then max else value
  }

  /**
   * `mod(value, mod)`: `(value % mod + mod) % mod` with C++'s `%`; for a
   * positive modulus it is the non-negative (Euclidean) remainder.
   */
  function Mod(value: int, m: int): (r: int)
    requires m != 0
    ensures m > 0 ==> r == value % m && 0 <= r < m
  {
    var r := Rem(Rem(value, m) + m, m);
    assert m > 0 ==> r == value % m by {
      if m > 0 {
        RemCongruent(value, m);
      }
    }
    r
  }

  /** For a positive `m`, `Rem(a, m) + m` is a non-negative value congruent to `a`. */
  lemma RemCongruent(a: int, m: int)
    requires m > 0
    ensures Rem(Rem(a, m) + m, m) == a % m
  {
    var q := Quot(a, m);
    var t := Rem(a, m) + m;
    assert t == a - m * q + m;
    assert -m < Rem(a, m) < m by {
      if a >= 0 {
      } else {
        assert q == -((-a) / m);
        assert -a == m * ((-a) / m) + (-a) % m;
        assert Rem(a, m) == -((-a) % m);
      }
    }
    assert t >= 0;
    assert t == a + m * (1 - q);
    DivModShift(a, m, 1 - q);
  }

  /** Adding a multiple of `m` does not change the Euclidean remainder. */
  lemma DivModShift(a: int, m: int, k: int)
    requires m > 0
    ensures (a + m * k) % m == a % m
  {
    DivModUnique(a + m * k, m, a / m + k, a % m);
  }

  lemma MulPos(a: int, b: int)
    requires a > 0 && b > 0
    ensures a * b > 0
  {
  }

  lemma MulMono(a: nat, m: int, n: int)
    requires m <= n
    ensures a * m <= a * n
  {
    if a > 0 && m < n {
      MulPos(a, n - m);
      assert a * n == a * m + a * (n - m);
    }
  }

  /** Quotient and remainder are determined by `n == d * q + r` with `0 <= r < d`. */
  lemma DivModUnique(n: int, d: int, q: int, r: int)
    requires d > 0 && 0 <= r < d && n == d * q + r
    ensures n / d == q && n % d == r
  {
    var q', r' := n / d, n % d;
    assert n == d * q' + r' && 0 <= r' < d;
    if q' > q {
      assert d * (q' - q) == r - r';
      MulPos(d, q' - q);
      assert d * (q' - q) == d * (q' - q - 1) + d;
      if q' - q - 1 > 0 { MulPos(d, q' - q - 1); }
      assert false;
    } else if q' < q {
      assert d * (q - q') == r' - r;
      assert d * (q - q') == d * (q - q' - 1) + d;
      if q - q' - 1 > 0 { MulPos(d, q - q' - 1); }
      assert false;
    }
  }
}
