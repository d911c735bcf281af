/** Java's fixed-width integers: the int and long ranges, the two's complement
    wrap-around of int and long arithmetic, and the narrowing cast from long to
    int. Offsets and steps of relative time are longs, list positions are ints. */
module Widths {

  const MinInt: int := -0x8000_0000
  const MaxInt: int := 0x7fff_ffff
  const MinLong: int := -0x8000_0000_0000_0000
  const MaxLong: int := 0x7fff_ffff_ffff_ffff

  /** 2^32 and 2^64, the moduli of int and long arithmetic. */
  const IntModulus: int := 0x1_0000_0000
  const LongModulus: int := 0x1_0000_0000_0000_0000

  type Int = x: int | MinInt <= x <= MaxInt
  type Long = x: int | MinLong <= x <= MaxLong

  /** The long a long operation yields: the exact result wrapped into the long
      range, differing from it by a multiple of 2^64. */
  function ToLong(x: int): (r: Long)
    ensures MinLong <= x <= MaxLong ==> r == x
    ensures (x - r) % LongModulus == 0
  {
    (x - MinLong) % LongModulus + MinLong
  }

  /** The (int) cast and the int a sum of ints yields: the low 32 bits read as a
      signed number, differing from the exact value by a multiple of 2^32. */
  function ToInt(x: int): (r: Int)
    ensures MinInt <= x <= MaxInt ==> r == x
    ensures (x - r) % IntModulus == 0
  {
    (x - MinInt) % IntModulus + MinInt
  }

  /** Adding a multiple of 2^32 does not change the wrapped int. */
  lemma ToIntPeriodic(x: int, q: int)
    ensures ToInt(x + q * IntModulus) == ToInt(x)
  {
    var a := x - MinInt;
    assert (a + q * IntModulus) % IntModulus == a % IntModulus by {
      ModAddMultiple(a, q, IntModulus);
    }
  }

  lemma ModAddMultiple(a: int, q: int, m: int)
    requires m > 0
    ensures (a + q * m) % m == a % m
  {
    var r := a % m;
    var d := a / m;
    assert a == d * m + r;
    assert a + q * m == (d + q) * m + r;
    DivModUnique(a + q * m, m, d + q, r);
  }

  /** The quotient and remainder of a Euclidean division are unique. */
  lemma DivModUnique(n: int, m: int, d: int, r: int)
    requires m > 0 && 0 <= r < m && n == d * m + r
    ensures n % m == r && n / m == d
  {
    var d0, r0 := n / m, n % m;
    assert n == d0 * m + r0 && 0 <= r0 < m;
    if d0 < d {
      assert (d - d0) * m == r0 - r;
      MulAtLeast(d - d0, m);
    } else if d0 > d {
      assert (d0 - d) * m == r - r0;
      MulAtLeast(d0 - d, m);
    }
  }

  lemma MulAtLeast(k: int, m: int)
    requires k >= 1 && m > 0
    ensures k * m >= m
  {
    assert k * m == (k - 1) * m + m;
  }

  /** Adding a multiple of 2^64 does not change the wrapped long. */
  lemma ToLongPeriodic(x: int, q: int)
    ensures ToLong(x + q * LongModulus) == ToLong(x)
  {
    var a := x - MinLong;
    assert (a + q * LongModulus) % LongModulus == a % LongModulus by {
      ModAddMultiple(a, q, LongModulus);
    }
  }

  /** Narrowing a wrapped long to int is narrowing the exact value: the long wrap
      only moves by multiples of 2^64, which are multiples of 2^32. */
  lemma ToIntOfLong(x: int)
    ensures ToInt(ToLong(x)) == ToInt(x)
  {
    var q := (x - ToLong(x)) / LongModulus;
    assert x - ToLong(x) == q * LongModulus;
    assert q * LongModulus == (q * IntModulus) * IntModulus;
    ToIntPeriodic(ToLong(x), q * IntModulus);
  }

  /** Wrapping an operand first and wrapping the sum give the same int: int
      arithmetic on wrapped values agrees with wrapping the exact result. */
  lemma ToIntOfSum(a: int, b: int)
    ensures ToInt(a + ToInt(b)) == ToInt(a + b)
  {
    var q := (b - ToInt(b)) / IntModulus;
    assert b - ToInt(b) == q * IntModulus;
    ToIntPeriodic(a + ToInt(b), q);
    assert a + ToInt(b) + q * IntModulus == a + b;
  }

  /** Long negation is exact except at Long.MIN_VALUE, which is its own negation. */
  lemma NegateLong(x: Long)
    ensures x != MinLong ==> ToLong(-(x as int)) == -(x as int)
    ensures x == MinLong ==> ToLong(-(x as int)) == MinLong
  {
    if x == MinLong {
      DivModUnique(-(x as int) - MinLong, LongModulus, 1, 0);
    }
  }
}
