/** The USD values of utils/usd_value.go. */
module UsdValue {
  import opened Decimal

  function CalculateUSDValue(amount: int, price: int, assetDecimal: nat, priceDecimal: nat): (v: Dec) {
    QuoInt(FromInt(amount * price), Pow10(assetDecimal + priceDecimal))
  }

  /** A negative power of ten panics. */
  function CalculateRewardUSDValue(
    reward: Dec, denominationExponent: nat, stakingDecimal: nat, price: int, priceDecimal: nat
  ): (v: Dec)
    requires denominationExponent <= stakingDecimal + priceDecimal
  {
    QuoInt(MulInt(reward, price), Pow10(stakingDecimal + priceDecimal - denominationExponent))
  }

  // ------------------------------------------------------------------ the values

  /** `v` is the fraction `a / b` cut toward zero. */
  predicate IsCutFraction(v: Dec, a: int, b: int) {
    if a >= 0 then v >= 0 && v * b <= a < (v + 1) * b else v <= 0 && (v - 1) * b < a <= v * b
  }

  /** Both values, in units of 10^-18, are amount times price over the power of ten of their decimals, cut
      toward zero. */
  lemma ValuesAreFractions(amount: int, reward: Dec, exponent: nat, price: int, assetDecimal: nat, priceDecimal: nat)
    ensures IsCutFraction(CalculateUSDValue(amount, price, assetDecimal, priceDecimal),
                          amount * price * Pow10(18), Pow10(assetDecimal) * Pow10(priceDecimal))
    ensures exponent <= assetDecimal + priceDecimal ==>
              IsCutFraction(CalculateRewardUSDValue(reward, exponent, assetDecimal, price, priceDecimal),
                            reward * price, Pow10(assetDecimal + priceDecimal - exponent))
  {
    hide Pow10, Truncate;
    UnitIsPow10();
    Pow10Add(assetDecimal, priceDecimal);
    TruncateBounds(FromInt(amount * price), Pow10(assetDecimal + priceDecimal));
    if exponent <= assetDecimal + priceDecimal {
      TruncateBounds(MulInt(reward, price), Pow10(assetDecimal + priceDecimal - exponent));
    }
  }

  // --------------------------------------------------------------- the two agree

  lemma TruncateCancel(a: int, b: int, k: int)
    requires b > 0 && k > 0
    ensures b * k > 0 && Truncate(a * k, b * k) == Truncate(a, b)
  {
    if a >= 0 {
      CancelFactor(a, b, k);
      assert a * k >= 0;
    } else {
      CancelFactor(-a, b, k);
      assert (-a) * k == -(a * k) && a * k < 0;
    }
  }

  lemma TruncateExact(q: int, b: int)
    requires b > 0
    ensures Truncate(q * b, b) == q
  {
    TruncateCancel(q, 1, b);
  }

  /** The reward amount stands for the raw amount without loss. */
  ghost predicate ScalesExactly(amount: int, exponent: nat) {
    exists k :: FromInt(amount) == k * Pow10(exponent)
  }

  /** The reward value agrees with the value of the raw amount, for this price. */
  predicate Agree(amount: int, exponent: nat, stakingDecimal: nat, price: int, priceDecimal: nat)
    requires exponent <= stakingDecimal + priceDecimal
  {
    CalculateRewardUSDValue(ScaleByDecimals(amount, exponent), exponent, stakingDecimal, price, priceDecimal)
    == CalculateUSDValue(amount, price, stakingDecimal, priceDecimal)
  }

  lemma ScaleExact(amount: int, exponent: nat, k: int)
    requires FromInt(amount) == k * Pow10(exponent)
    ensures ScaleByDecimals(amount, exponent) == k
  {
    TruncateExact(k, Pow10(exponent));
  }

  lemma ExactScalingAgrees(amount: int, exponent: nat, stakingDecimal: nat, price: int, priceDecimal: nat)
    requires exponent <= stakingDecimal + priceDecimal && ScalesExactly(amount, exponent)
    ensures Agree(amount, exponent, stakingDecimal, price, priceDecimal)
  {
    var k :| FromInt(amount) == k * Pow10(exponent);
    ScaleExact(amount, exponent, k);
    var p, d := Pow10(exponent), Pow10(stakingDecimal + priceDecimal - exponent);
    Pow10Add(stakingDecimal + priceDecimal - exponent, exponent);
    assert FromInt(amount * price) == (k * price) * p by {
      assert FromInt(amount * price) == FromInt(amount) * price;
      assert (k * p) * price == (k * price) * p;
    }
    TruncateCancel(k * price, d, p);
  }

  lemma Regroup(a: int, b: int)
    ensures FromInt(a * b) == FromInt(a) * b
  {
  }

  lemma InexactScalingDisagrees(amount: int, exponent: nat, stakingDecimal: nat, priceDecimal: nat)
    requires exponent <= stakingDecimal + priceDecimal
    requires Agree(amount, exponent, stakingDecimal, Pow10(stakingDecimal + priceDecimal), priceDecimal)
    ensures ScalesExactly(amount, exponent)
  {
    hide Pow10, ScaleByDecimals, Truncate;
    var r := ScaleByDecimals(amount, exponent);
    var p, d := Pow10(exponent), Pow10(stakingDecimal + priceDecimal - exponent);
    Pow10Add(exponent, stakingDecimal + priceDecimal - exponent);
    assert Pow10(stakingDecimal + priceDecimal) == p * d;
    assert r * (p * d) == (r * p) * d;
    TruncateExact(r * p, d);
    Regroup(amount, p * d);
    TruncateExact(FromInt(amount), p * d);
  }

  /** The two formulas agree to the last digit, for every price, exactly when scaling the amount
      by the exponent loses nothing. */
  lemma FormulasAgree(amount: int, exponent: nat, stakingDecimal: nat, priceDecimal: nat)
    requires exponent <= stakingDecimal + priceDecimal
    ensures ScalesExactly(amount, exponent) <==>
              forall price :: Agree(amount, exponent, stakingDecimal, price, priceDecimal)
  {
    if ScalesExactly(amount, exponent) {
      forall price
        ensures Agree(amount, exponent, stakingDecimal, price, priceDecimal)
      {
        ExactScalingAgrees(amount, exponent, stakingDecimal, price, priceDecimal);
      }
    }
    if Agree(amount, exponent, stakingDecimal, Pow10(stakingDecimal + priceDecimal), priceDecimal) {
      InexactScalingDisagrees(amount, exponent, stakingDecimal, priceDecimal);
    }
  }

  /** With at most 18 decimals scaling never loses anything. */
  lemma SmallExponentScalesExactly(amount: int, exponent: nat)
    requires exponent <= 18
    ensures ScalesExactly(amount, exponent)
  {
    hide Pow10;
    UnitIsPow10();
    Pow10Add(18 - exponent, exponent);
    var q, p := Pow10(18 - exponent), Pow10(exponent);
    assert amount * (q * p) == (amount * q) * p;
  }

  // ------------------------------------------------------------------- splitting

  function SumOf(parts: seq<nat>): (n: nat) {
    if parts == [] then 0 else SumOf(parts[..|parts| - 1]) + parts[|parts| - 1]
  }

  function SumOfValues(parts: seq<nat>, price: nat, assetDecimal: nat, priceDecimal: nat): (v: Dec) {
    if parts == [] then 0
    else
      SumOfValues(parts[..|parts| - 1], price, assetDecimal, priceDecimal)
      + CalculateUSDValue(parts[|parts| - 1], price, assetDecimal, priceDecimal)
  }

  lemma DivideSum(a: nat, b: nat, d: int)
    requires d > 0
    ensures a / d + b / d <= (a + b) / d <= a / d + b / d + 1
  {
    var q, r := a / d + b / d, a % d + b % d;
    assert a + b == q * d + r by {
      assert a == (a / d) * d + a % d && b == (b / d) * d + b % d;
      assert q * d == (a / d) * d + (b / d) * d;
    }
    if r < d {
      QuotientIsUnique(a + b, d, q, r);
    } else {
      assert (q + 1) * d == q * d + d;
      QuotientIsUnique(a + b, d, q + 1, r - d);
    }
  }

  lemma ValueOfSum(a: nat, b: nat, price: nat, assetDecimal: nat, priceDecimal: nat)
    ensures var v := (n: nat) => CalculateUSDValue(n, price, assetDecimal, priceDecimal);
            v(a) + v(b) <= v(a + b) <= v(a) + v(b) + 1
  {
    var d := Pow10(assetDecimal + priceDecimal);
    assert FromInt((a + b) * price) == FromInt(a * price) + FromInt(b * price) by {
      assert (a + b) * price == a * price + b * price;
    }
    assert a * price >= 0 && b * price >= 0;
    DivideSum(FromInt(a * price), FromInt(b * price), d);
  }

  /** Splitting an amount into n parts never raises its value, and loses less than n units of 10^-18. */
  lemma {:induction false} SplittingLosesLittle(parts: seq<nat>, price: nat, assetDecimal: nat, priceDecimal: nat)
    ensures var whole := CalculateUSDValue(SumOf(parts), price, assetDecimal, priceDecimal);
            var split := SumOfValues(parts, price, assetDecimal, priceDecimal);
            split <= whole && (parts != [] ==> whole < split + |parts|) && (parts == [] ==> whole == 0)
  {
    if parts == [] {
      TruncateExact(0, Pow10(assetDecimal + priceDecimal));
    } else {
      var init, last := parts[..|parts| - 1], parts[|parts| - 1];
      SplittingLosesLittle(init, price, assetDecimal, priceDecimal);
      ValueOfSum(SumOf(init), last, price, assetDecimal, priceDecimal);
      if init == [] {
        assert SumOf(parts) == last;
      }
    }
  }
}
