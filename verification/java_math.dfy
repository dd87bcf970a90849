/**
 * Java's integer arithmetic where it differs from Dafny's: `/` and `%`
 * truncate toward zero, and 32-bit `int` arithmetic wraps around.
 */
module JavaMath {

  function Abs(x: int): nat {
    if x < 0 then -x else x
  }

  /** Java's `/` on `int`: the quotient truncated toward zero. */
  function Div(a: int, b: int): int
    requires b != 0
  {
    if (a < 0) != (b < 0) then -(Abs(a) / Abs(b)) else Abs(a) / Abs(b)
  }

  /** Java's `%` on `int`: what is left of the dividend after the truncated quotient. */
  function Rem(a: int, b: int): int
    requires b != 0
  {
    a - Div(a, b) * b
  }

  /** On non-negative operands Java's division is Dafny's. */
  lemma DivNonNegative(a: int, b: int)
    requires a >= 0 && b > 0
    ensures Div(a, b) == a / b && Rem(a, b) == a % b
  {
  }

  /** Truncation: the quotient of a negative dividend by a positive divisor rounds up, not down. */
  lemma DivNegative(a: int, b: int)
    requires a < 0 && b > 0
    ensures Div(a, b) == -((-a) / b)
    ensures Div(a, b) * b >= a
  {
    var q := (-a) / b;
    assert q * b <= -a;
  }

  /** Euclidean division is determined by quotient and remainder. */
  lemma DivModUnique(a: int, b: int, q: int, r: int)
    requires b > 0 && 0 <= r < b && a == q * b + r
    ensures a / b == q && a % b == r
  {
    var q', r' := a / b, a % b;
    assert a == q' * b + r' && 0 <= r' < b;
    var d := q - q';
    assert d * b == r' - r by {
      assert q * b - q' * b == (q - q') * b;
    }
    if d >= 1 {
      MulAtLeast(d, b);
    } else if d <= -1 {
      MulAtLeast(-d, b);
    }
  }

  lemma MulAtLeast(d: int, b: int)
    requires d >= 1 && b > 0
    ensures d * b >= b
  {
    assert d * b == (d - 1) * b + b;
  }

  /** `Math.floorMod` written out: Java's remainder, moved up by the divisor when negative, is Dafny's `%`. */
  lemma RemShifted(a: int, b: int)
    requires b > 0
    ensures (if Rem(a, b) < 0 then Rem(a, b) + b else Rem(a, b)) == a % b
  {
    if a >= 0 {
      DivNonNegative(a, b);
    } else {
      var q, r := (-a) / b, (-a) % b;
      assert Rem(a, b) == -r;
      if r == 0 {
        DivModUnique(a, b, -q, 0);
      } else {
        DivModUnique(a, b, -q - 1, b - r);
      }
    }
  }

  const TwoTo32: int := 0x1_0000_0000

  /** Two's-complement wrap-around of an integer into the 32-bit range. */
  function Wrap32(x: int): (r: int)
    ensures -0x8000_0000 <= r <= 0x7fff_ffff
    ensures (r - x) % TwoTo32 == 0
    ensures -0x8000_0000 <= x <= 0x7fff_ffff ==> r == x
  {
    var m := x % TwoTo32;
    if m >= 0x8000_0000 then m - TwoTo32 else m
  }
}
