/** `LegacyDec` of cosmossdk.io/math, an integer scaled by 10^18, with the operations the
    modelled code uses. */
module Decimal {

  /** A decimal is represented by itself times `Unit`. */
  type Dec = int

  const Unit: int := 1_000_000_000_000_000_000

  /** `big.Int.Quo`: division truncated toward zero. */
  function Truncate(a: int, b: int): (q: int)
    requires b > 0
  {
    if a >= 0 then a / b else -((-a) / b)
  }

  /** `chopPrecisionAndRound`: division by `Unit`, rounding half to even, on non-negative numbers. */
  function RoundHalfEven(a: nat): (q: nat)
    ensures 2 * a - Unit <= 2 * Unit * q <= 2 * a + Unit
    ensures 2 * a == 2 * Unit * q - Unit || 2 * a == 2 * Unit * q + Unit ==> q % 2 == 0
  {
    var q, r := a / Unit, a % Unit;
    if 2 * r < Unit then q
    else if 2 * r > Unit then q + 1
    else if q % 2 == 0 then q else q + 1
  }

  function FromInt(n: int): (d: Dec) {
    n * Unit
  }

  /** `Quo` on non-negative decimals: truncated at 36 digits, then rounded to 18. */
  function Quo(a: Dec, b: Dec): (q: nat)
    requires a >= 0 && b > 0
  {
    RoundHalfEven(Truncate(a * (Unit * Unit), b))
  }

  function QuoInt(a: Dec, n: int): (q: Dec)
    requires n > 0
  {
    Truncate(a, n)
  }

  function MulInt(a: Dec, n: int): (p: Dec) {
    a * n
  }

  function Pow10(n: nat): (p: int)
    ensures p > 0
  {
    if n == 0 then 1 else 10 * Pow10(n - 1)
  }

  /** `ScaleIntByDecimals` of x/feedistribution/types/types.go. */
  function ScaleByDecimals(amount: int, decimals: nat): (d: Dec) {
    if decimals == 0 then FromInt(amount) else QuoInt(FromInt(amount), Pow10(decimals))
  }

  lemma {:induction false} Pow10Add(m: nat, n: nat)
    ensures Pow10(m + n) == Pow10(m) * Pow10(n)
  {
    if m > 0 {
      Pow10Add(m - 1, n);
      assert Pow10(m + n) == 10 * (Pow10(m - 1) * Pow10(n));
    }
  }

  lemma Pow10Zero()
    ensures Pow10(0) == 1
  {
  }

  lemma UnitIsPow10()
    ensures Unit == Pow10(18)
  {
    assert Pow10(9) == 1_000_000_000;
    Pow10Add(9, 9);
  }

  /** The truncated quotient is the nearest one toward zero. */
  lemma TruncateBounds(a: int, b: int)
    requires b > 0
    ensures var q := Truncate(a, b);
            if a >= 0 then q >= 0 && q * b <= a < (q + 1) * b else q <= 0 && (q - 1) * b < a <= q * b
  {
    hide Truncate;
    if a >= 0 {
      CutPositive(a, b);
    } else {
      CutNegative(a, b);
    }
  }

  lemma CutPositive(a: int, b: int)
    requires b > 0 && a >= 0
    ensures var q := Truncate(a, b);
            q >= 0 && q * b <= a < (q + 1) * b
  {
    var q := Truncate(a, b);
    assert q == a / b;
    hide Truncate;
    DivisionBounds(a, b);
  }

  lemma CutNegative(a: int, b: int)
    requires b > 0 && a < 0
    ensures var q := Truncate(a, b);
            q <= 0 && (q - 1) * b < a <= q * b
  {
    var m := (-a) / b;
    DivisionBounds(-a, b);
    Negate(m, b);
    assert Truncate(a, b) == -m;
  }

  lemma DivisionBounds(n: nat, b: int)
    requires b > 0
    ensures n / b >= 0 && (n / b) * b <= n < (n / b + 1) * b
  {
    var q := n / b;
    assert n == q * b + n % b;
    Distribute(q, -1, b);
  }

  lemma Negate(q: int, b: int)
    ensures (-q - 1) * b == -((q + 1) * b) && (-q) * b == -(q * b)
  {
    assert -q - 1 == -(q + 1);
  }

  /** A common factor cancels. */
  lemma CancelFactor(a: nat, b: int, k: int)
    requires b > 0 && k > 0
    ensures b * k > 0 && (a * k) / (b * k) == a / b
  {
    var q, r := a / b, a % b;
    assert a == q * b + r;
    assert a * k == q * (b * k) + r * k by {
      assert (q * b + r) * k == q * b * k + r * k;
    }
    assert 0 <= r * k < b * k by {
      MulLess(r, b, k);
    }
    QuotientIsUnique(a * k, b * k, q, r * k);
  }

  lemma MulLess(r: int, b: int, k: int)
    requires 0 <= r < b && k > 0
    ensures 0 <= r * k < b * k
  {
    assert (b - r) * k > 0;
  }

  lemma QuotientIsUnique(a: int, b: int, q: int, r: int)
    requires b > 0 && 0 <= r < b && a == q * b + r
    ensures a / b == q && a % b == r
  {
    var p, s := a / b, a % b;
    assert a == p * b + s;
    Distribute(p, q, b);
    MulAtLeast(p - q, b);
  }

  lemma Distribute(p: int, q: int, b: int)
    ensures (p - q) * b == p * b - q * b
  {
  }

  lemma MulAtLeast(d: int, b: int)
    requires b > 0
    ensures d >= 1 ==> d * b >= b
    ensures d <= -1 ==> d * b <= -b
  {
    if d >= 1 {
      assert (d - 1) * b >= 0;
    } else if d <= -1 {
      assert (d + 1) * b <= 0;
    }
  }
}
