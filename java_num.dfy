/**
 * Java's fixed-width numeric behaviour, written out explicitly:
 * the signed `byte`, the unsigned 16-bit `char`, the `(short)` cast,
 * and the `%` operator that truncates toward zero.
 */
module JavaNum {

  /** Java `byte`: signed, so the bytes 128..255 of the stream read as -128..-1. */
  newtype JByte = x: int | -128 <= x < 128

  /** Java `char`: an unsigned 16-bit code unit. */
  newtype Char16 = x: int | 0 <= x < 0x1_0000

  const ESC: JByte := 27
  const SEMICOLON: Char16 := 59
  const MINUS: Char16 := 45

  /** The value of Java's `a % b` for a positive divisor: the remainder of the
      division that truncates toward zero, so it takes the sign of `a`. */
  function JRem(a: int, b: int): (r: int)
    requires b > 0
    ensures (a - r) % b == 0
    ensures -b < r < b
    ensures a >= 0 ==> 0 <= r
    ensures a <= 0 ==> r <= 0
  {
    if a >= 0 then
      RemainderStep(a, b);
      a % b
    else
      TruncatedRemainder(-a, b);
      -((-a) % b)
  }

  /** For `n >= 0`: `-n - (-(n % b))` is a multiple of `b`. */
  lemma TruncatedRemainder(n: int, b: int)
    requires n >= 0 && b > 0
    ensures (-n + n % b) % b == 0
  {
    var q := n / b;
    assert n == b * q + n % b;
    assert -n + n % b == b * (-q);
    MultipleMod(b, -q);
  }

  /** For `n >= 0`: `n - n % b` is a multiple of `b`. */
  lemma RemainderStep(n: int, b: int)
    requires n >= 0 && b > 0
    ensures (n - n % b) % b == 0
  {
    var q := n / b;
    assert n - n % b == b * q;
    MultipleMod(b, q);
  }

  lemma MultipleMod(b: int, q: int)
    requires b > 0
    ensures (b * q) % b == 0
  {
    var k := q - (b * q) / b;
    assert b * k == (b * q) % b;
  }

  lemma MonotoneProduct(b: int, p: int, q: int)
    requires b > 0 && p <= q
    ensures b * p <= b * q
  {
    assert b * q - b * p == b * (q - p);
  }

  /** The start of the row holding a non-negative index `x`, for rows `b`
      wide, lies between 0 and `x`. */
  lemma RowStartInRange(x: int, b: int)
    requires x >= 0 && b > 0
    ensures 0 <= x - x % b <= x
  {
    if x / b < 0 {
      MonotoneProduct(b, x / b, -1);
    }
  }

  /** The only multiple of `b` strictly between `-b` and `b` is 0. */
  lemma SmallMultiple(b: int, t: int)
    requires b > 0 && -b < b * t < b
    ensures t == 0
  {
    if t >= 1 {
      MonotoneProduct(b, 1, t);
    } else if t <= -1 {
      MonotoneProduct(b, t, -1);
    }
  }

  /** Quotient and remainder are determined by any decomposition `b*q + m`. */
  lemma DivModOf(k: int, b: int, q: int, m: int)
    requires b > 0 && 0 <= m < b && k == b * q + m
    ensures k / b == q && k % b == m
  {
    var q', m' := k / b, k % b;
    assert k == b * q' + m';
    assert b * (q - q') == m' - m;
    SmallMultiple(b, q - q');
  }

  lemma NegationMultiple(k: int, b: int)
    requires b > 0
    ensures (-k) % b == 0 <==> k % b == 0
  {
    var q := k / b;
    if k % b == 0 {
      assert k == b * q;
      DivModOf(-k, b, -q, 0);
    }
    var q' := (-k) / b;
    if (-k) % b == 0 {
      assert -k == b * q';
      DivModOf(k, b, -q', 0);
    }
  }

  /** Java's `k % b == 0` and Dafny's agree on "is a multiple". */
  lemma JRemZero(k: int, b: int)
    requires b > 0
    ensures JRem(k, b) == 0 <==> k % b == 0
  {
    if k < 0 {
      NegationMultiple(k, b);
    }
  }

  /** `x + (b - x % b) % b` is the first multiple of `b` at or after `x`. */
  lemma NextMultiple(x: int, b: int)
    requires b > 0
    ensures var r := x + (b - x % b) % b;
            r % b == 0 && x <= r < x + b &&
            forall k :: x <= k < r ==> k % b != 0
  {
    var q, m := x / b, x % b;
    assert x == b * q + m;
    if m == 0 {
      DivModOf(b, b, 1, 0);
    } else {
      DivModOf(b - m, b, 0, b - m);
      DivModOf(x + b - m, b, q + 1, 0);
      forall k | x <= k < x + b - m ensures k % b != 0 {
        DivModOf(k, b, q, m + (k - x));
      }
    }
  }

  lemma AddDivisor(x: int, b: int)
    requires b > 0 && x % b == 0
    ensures (x + b) % b == 0
  {
    var q := x / b;
    assert x == b * q;
    DivModOf(x + b, b, q + 1, 0);
  }

  lemma SumOfMultiples(x: int, y: int, b: int)
    requires b > 0 && x % b == 0 && y % b == 0
    ensures (x + y) % b == 0
  {
    var p, q := x / b, y / b;
    assert x == b * p && y == b * q;
    DivModOf(x + y, b, p + q, 0);
  }

  /** Java's `(short) x`: keeps the low 16 bits as a signed value. */
  function ShortCast(x: int): (r: int)
    ensures -0x8000 <= r < 0x8000
    ensures (x - r) % 0x1_0000 == 0
    ensures -0x8000 <= x < 0x8000 ==> r == x
  {
    (x + 0x8000) % 0x1_0000 - 0x8000
  }

  /** Java's `(char) b` for a byte: sign extension to int, then the low 16 bits. */
  function ToChar(b: JByte): (c: Char16)
    ensures b >= 0 ==> c as int == b as int
    ensures b < 0 ==> c as int == b as int + 0x1_0000
  {
    if b >= 0 then b as int as Char16 else (b as int + 0x1_0000) as Char16
  }

  /** `argbuf[0]++` on a `char`: wraps from 65535 back to 0. */
  function CharSucc(c: Char16): (r: Char16)
    ensures c < 0xFFFF ==> r as int == c as int + 1
    ensures c == 0xFFFF ==> r == 0
  {
    ((c as int + 1) % 0x1_0000) as Char16
  }

  const INT_MIN: int := -0x8000_0000
  const INT_MAX: int := 0x7FFF_FFFF
}
