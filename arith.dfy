/** Fixed-width integer behaviour of the C# source, written out explicitly. */
module Arith {

  /** The C# `int` range; hash codes are values of this type. */
  newtype int32 = x: int | -0x8000_0000 <= x < 0x8000_0000

  /** The largest C# `int`. */
  const IntMax: int := 0x7FFF_FFFF

  function Abs(x: int): (r: nat)
    ensures r == x || r == -x
  {
    if x < 0 then -x else x
  }

  /** A multiple of a positive `m` leaves no remainder. */
  lemma MultipleRem(q: int, m: int)
    requires 0 < m
    ensures (q * m) % m == 0
  {
    var d := q - (q * m) / m;
    assert (q * m) % m == d * m;
  }

  /** The difference of two multiples of `m` is a multiple of `m`. */
  lemma MultipleDiff(x: int, y: int, m: int)
    requires 0 < m && x % m == 0 && y % m == 0
    ensures (x - y) % m == 0
  {
    var k1, k2 := x / m, y / m;
    assert x - y == (k1 - k2) * m;
    MultipleRem(k1 - k2, m);
  }

  /** The only multiple of `m` strictly between `-m` and `m` is zero. */
  lemma SmallMultiple(x: int, m: int)
    requires 0 < m && x % m == 0 && -m < x < m
    ensures x == 0
  {
    var k := x / m;
    assert x == k * m;
    MulSign(k, m);
  }

  /** A nonzero multiple of a positive `m` is at least `m` in magnitude. */
  lemma MulSign(k: int, m: int)
    requires 0 < m
    ensures k >= 1 ==> k * m >= m
    ensures k <= -1 ==> k * m <= -m
  {
    if k >= 1 {
      assert k * m == (k - 1) * m + m;
    } else if k <= -1 {
      assert k * m == (k + 1) * m - m;
    }
  }

  /** Subtracting the Euclidean remainder leaves a multiple of `m`. */
  lemma LessRemIsMultiple(x: int, m: int)
    requires 0 < m
    ensures (x - x % m) % m == 0
  {
    var q := x / m;
    assert x - x % m == q * m;
    MultipleRem(q, m);
  }

  /**
   * C#'s `%`: the remainder of a division truncated toward zero. It differs from `a` by a
   * multiple of `b`, is smaller than `b` in magnitude and takes the sign of `a`, which
   * together fix it.
   */
  function CRem(a: int, b: int): (r: int)
    requires b != 0
    ensures (a - r) % Abs(b) == 0
    ensures Abs(r) < Abs(b)
    ensures a >= 0 ==> r >= 0
    ensures a <= 0 ==> r <= 0
  {
    var m := Abs(b);
    if a >= 0 then
      LessRemIsMultiple(a, m);
      a % m
    else
      var n := -a;
      LessRemIsMultiple(n, m);
      MultipleDiff(0, n - n % m, m);
      assert a - -(n % m) == 0 - (n - n % m);
      -(n % m)
  }

  /**
   * The properties of CRem fix its value: any `r` that differs from `a` by a multiple of
   * `b`, is smaller than `b` in magnitude and has the sign of `a` is `CRem(a, b)`.
   */
  lemma CRemUnique(a: int, b: int, r: int)
    requires b != 0
    requires (a - r) % Abs(b) == 0 && Abs(r) < Abs(b)
    requires a >= 0 ==> r >= 0
    requires a <= 0 ==> r <= 0
    ensures r == CRem(a, b)
  {
    var m, c := Abs(b), CRem(a, b);
    MultipleDiff(a - c, a - r, m);
    assert (a - c) - (a - r) == r - c;
    SmallMultiple(r - c, m);
  }

  /**
   * `h & 0x7FFFFFFF`: clearing the sign bit keeps the low 31 bits of the
   * two's-complement word, which is `h` reduced modulo 2^31.
   */
  function MaskSign(h: int32): (r: int)
    ensures 0 <= r <= IntMax
    ensures h >= 0 ==> r == h as int
    ensures h < 0 ==> r == h as int + 0x8000_0000
  {
    h as int % 0x8000_0000
  }
}
