/** Validation of reward distributions, precompiles/reward/types.go with `CommonValidation` of
    utils/utils.go. */
module Reward {
  import opened Common
  import opened Order
  import opened ByteOrder
  import opened Decimal

  /** `ABIOperatorRewardProportion`; a nil big integer is `None`. */
  datatype Proportion = Proportion(operator: Bytes, numerator: Option<int>, denominator: Option<int>)

  datatype OperatorShare = OperatorShare(operator: Bytes, share: Dec)

  datatype Verdict<+T> = Accepted(value: T) | Rejected

  // ---------------------------------------------------------------- one proportion

  /** Both numbers are positive, the fraction is at most one and the operator address is valid. */
  predicate WellFormed(p: Proportion, validAddress: Bytes -> bool) {
    && p.numerator.Some? && p.numerator.value > 0
    && p.denominator.Some? && p.denominator.value > 0
    && p.numerator.value <= p.denominator.value
    && validAddress(p.operator)
  }

  function Share(num: nat, den: nat): (s: Dec)
    requires den > 0
  {
    Quo(FromInt(num), FromInt(den))
  }

  /** The fraction cut at 36 digits. */
  lemma TruncatedFraction(num: nat, den: nat)
    requires den > 0
    ensures Share(num, den) == RoundHalfEven((num * (Unit * Unit)) / den)
  {
    var a := num * (Unit * Unit);
    assert FromInt(num) * (Unit * Unit) == a * Unit;
    CancelFactor(a, den, Unit);
  }

  lemma RoundedTimes(t: nat, r: nat, k: nat)
    requires r == RoundHalfEven(t)
    ensures 2 * (t * k) - Unit * k <= 2 * Unit * (r * k) <= 2 * (t * k) + Unit * k
  {
    Scale(2 * Unit * r, 2 * t + Unit, k);
    Scale(2 * t - Unit, 2 * Unit * r, k);
  }

  /** A rounded share is off by at most half a unit in the last place, and by what the first
      truncation cut off. */
  lemma ShareBounds(num: nat, den: nat)
    requires den > 0
    ensures 2 * Unit * (Share(num, den) * den) <= 2 * num * (Unit * Unit) + Unit * den
    ensures 2 * num * (Unit * Unit) < 2 * Unit * (Share(num, den) * den) + Unit * den + 2 * den
  {
    hide Share, RoundHalfEven;
    TruncatedFraction(num, den);
    var a := num * (Unit * Unit);
    var t := a / den;
    assert t * den <= a < t * den + den;
    RoundedTimes(t, Share(num, den), den);
  }

  lemma ShareIsAtMostOne(num: nat, den: nat)
    requires den > 0 && num <= den
    ensures 0 <= Share(num, den) <= Unit
  {
    TruncatedFraction(num, den);
    QuotientAtMost(num * (Unit * Unit), den, Unit * Unit);
  }

  lemma Scale(a: int, b: int, k: nat)
    requires a <= b
    ensures a * k <= b * k
  {
    assert (b - a) * k >= 0;
  }

  lemma QuotientAtMost(a: nat, b: int, q: nat)
    requires b > 0 && a <= q * b
    ensures a / b <= q
  {
    var p := a / b;
    assert a == p * b + a % b;
    Distribute(p, q, b);
    MulAtLeast(p - q, b);
  }

  // --------------------------------------------------------------------- the list

  /** The rounded share of a proportion; nothing for one with unusable numbers. */
  function ShareOf(p: Proportion): (s: nat)
    ensures p.numerator.Some? && p.denominator.Some? && 0 < p.numerator.value <= p.denominator.value ==> s <= Unit
  {
    if p.numerator.Some? && p.denominator.Some? && 0 < p.numerator.value <= p.denominator.value then
      ShareIsAtMostOne(p.numerator.value, p.denominator.value);
      Share(p.numerator.value, p.denominator.value)
    else 0
  }

  function Total(ps: seq<Proportion>): (t: nat) {
    if ps == [] then 0 else Total(ps[..|ps| - 1]) + ShareOf(ps[|ps| - 1])
  }

  function Shares(ps: seq<Proportion>): (r: seq<OperatorShare>) {
    if ps == [] then []
    else Shares(ps[..|ps| - 1]) + [OperatorShare(ps[|ps| - 1].operator, ShareOf(ps[|ps| - 1]))]
  }

  ghost predicate AllWellFormed(ps: seq<Proportion>, validAddress: Bytes -> bool) {
    forall i :: 0 <= i < |ps| ==> WellFormed(ps[i], validAddress)
  }

  function OperatorOf(p: Proportion): (operator: Bytes) {
    p.operator
  }

  ghost predicate Distinct(ps: seq<Proportion>) {
    DistinctBy(OperatorOf, ps)
  }

  /** One check on the whole list. */
  ghost predicate Accepts(ps: seq<Proportion>, validAddress: Bytes -> bool) {
    AllWellFormed(ps, validAddress) && Distinct(ps) && Total(ps) <= Unit
  }

  lemma {:induction false} SharesAt(ps: seq<Proportion>)
    ensures |Shares(ps)| == |ps|
    ensures forall i :: 0 <= i < |ps| ==> Shares(ps)[i] == OperatorShare(ps[i].operator, ShareOf(ps[i]))
  {
    if ps != [] {
      SharesAt(ps[..|ps| - 1]);
    }
  }

  lemma {:induction false} PrefixTotal(ps: seq<Proportion>, n: nat)
    requires n <= |ps|
    ensures Total(ps[..n]) <= Total(ps)
    decreases |ps|
  {
    if n == |ps| {
      assert ps[..n] == ps;
    } else {
      PrefixTotal(ps[..|ps| - 1], n);
      assert ps[..|ps| - 1][..n] == ps[..n];
    }
  }

  /** `ABIOperatorRewardProportions.ToProtoStruct`: checking each element and the running total
      as the list goes by accepts the same lists as one check at the end. */
  method ToProtoStruct(ps: seq<Proportion>, validAddress: Bytes -> bool) returns (r: Verdict<seq<OperatorShare>>)
    ensures r.Accepted? <==> Accepts(ps, validAddress)
    ensures r.Accepted? <==>
              && (forall i :: 0 <= i < |ps| ==>
                    && ps[i].numerator.Some? && ps[i].denominator.Some?
                    && 0 < ps[i].numerator.value <= ps[i].denominator.value && validAddress(ps[i].operator))
              && (forall i, j :: 0 <= i < j < |ps| ==> ps[i].operator != ps[j].operator)
              && Total(ps) <= 1_000_000_000_000_000_000
    ensures r.Accepted? ==> r.value == Shares(ps)
  {
    hide Total, Shares;
    TotalNone();
    var ret: seq<OperatorShare> := [];
    var totalProportion := 0;
    var seen: set<Bytes> := {};
    for i := 0 to |ps|
      invariant AllWellFormed(ps[..i], validAddress) && Distinct(ps[..i])
      invariant seen == set j | 0 <= j < i :: ps[j].operator
      invariant ret == Shares(ps[..i])
      invariant totalProportion == Total(ps[..i]) <= Unit
    {
      var p := ps[i];
      assert ps[..i + 1] == ps[..i] + [p];
      TotalPush(ps[..i], p);
      SharesPush(ps[..i], p);
      if p.operator in seen {
        assert !Distinct(ps);
        return Rejected;
      }
      if p.numerator.None? || p.numerator.value <= 0 {
        assert !WellFormed(ps[i], validAddress);
        return Rejected;
      }
      if p.denominator.None? || p.denominator.value <= 0 {
        assert !WellFormed(ps[i], validAddress);
        return Rejected;
      }
      if p.numerator.value > p.denominator.value {
        assert !WellFormed(ps[i], validAddress);
        return Rejected;
      }
      if !validAddress(p.operator) {
        assert !WellFormed(ps[i], validAddress);
        return Rejected;
      }
      var proportion := Quo(FromInt(p.numerator.value), FromInt(p.denominator.value));
      ret := ret + [OperatorShare(p.operator, proportion)];
      totalProportion := totalProportion + proportion;
      if totalProportion > FromInt(1) {
        PrefixTotal(ps, i + 1);
        return Rejected;
      }
      seen := seen + {p.operator};
    }
    assert ps[..|ps|] == ps;
    return Accepted(ret);
  }

  // ------------------------------------------------------------- order of the list

  lemma TotalNone()
    ensures Total([]) == 0 && Shares([]) == []
  {
  }

  lemma SharesPush(ps: seq<Proportion>, p: Proportion)
    ensures Shares(ps + [p]) == Shares(ps) + [OperatorShare(p.operator, ShareOf(p))]
  {
    assert (ps + [p])[..|ps|] == ps;
  }

  lemma TotalPush(ps: seq<Proportion>, p: Proportion)
    ensures Total(ps + [p]) == Total(ps) + ShareOf(p)
  {
    assert (ps + [p])[..|ps|] == ps;
  }

  lemma {:induction false} TotalRemove(ps: seq<Proportion>, k: nat)
    requires k < |ps|
    ensures Total(ps) == Total(Without(ps, k)) + ShareOf(ps[k])
    decreases |ps|
  {
    hide ShareOf, Without;
    var n := |ps| - 1;
    if k == n {
      assert Without(ps, k) == ps[..n];
    } else {
      var init := ps[..n];
      TotalRemove(init, k);
      assert Without(ps, k) == Without(init, k) + [ps[n]];
      TotalPush(Without(init, k), ps[n]);
    }
  }

  lemma {:induction false} PermutedTotal(a: seq<Proportion>, b: seq<Proportion>)
    requires multiset(a) == multiset(b)
    ensures Total(a) == Total(b)
    decreases |a|
  {
    hide Total;
    SameLength(a, b);
    if a == [] {
      assert a == b;
    } else {
      var k := MatchFirst(a, b);
      TotalRemove(a, 0);
      TotalRemove(b, k);
      PermutedTotal(Without(a, 0), Without(b, k));
    }
  }

  lemma WellFormedMembers(ps: seq<Proportion>, validAddress: Bytes -> bool)
    ensures AllWellFormed(ps, validAddress) <==> forall p :: p in ps ==> WellFormed(p, validAddress)
  {
  }

  /** Acceptance does not depend on the order in which the proportions are listed. */
  lemma AcceptanceIgnoresOrder(a: seq<Proportion>, b: seq<Proportion>, validAddress: Bytes -> bool)
    requires multiset(a) == multiset(b)
    ensures Accepts(a, validAddress) <==> Accepts(b, validAddress)
  {
    hide Total;
    PermutedTotal(a, b);
    PermutedDistinct(OperatorOf, a, b);
    SameMembers(a, b);
    WellFormedMembers(a, validAddress);
    WellFormedMembers(b, validAddress);
  }

  // ------------------------------------------------------------------ rounding error

  const RealUnit: real := 1_000_000_000_000_000_000.0

  ghost function Fraction(p: Proportion): (x: real)
    requires p.numerator.Some? && p.denominator.Some? && p.denominator.value > 0
  {
    p.numerator.value as real / p.denominator.value as real
  }

  ghost function ExactSum(ps: seq<Proportion>, validAddress: Bytes -> bool): (x: real)
    requires AllWellFormed(ps, validAddress)
  {
    if ps == [] then 0.0 else ExactSum(ps[..|ps| - 1], validAddress) + Fraction(ps[|ps| - 1])
  }

  lemma Divide(a: real, b: real, k: real)
    requires k > 0.0
    ensures a <= b || a * k > b * k
  {
    if a > b {
      assert (a - b) * k > 0.0;
    }
  }

  lemma Regroup(a: real, b: real, c: real)
    ensures (a * b) * c == a * (b * c)
  {
  }

  lemma UpperBound(s: real, x: real, d: real, u: real, t: real, m: real)
    requires d > 0.0 && t == s * d && m == x * d
    requires 2.0 * t <= 2.0 * (u * m) + d
    ensures s <= u * x + 0.5
  {
    var b := u * x + 0.5;
    Divide(s, b, d);
    Regroup(u, x, d);
    assert u * (x * d) == u * m;
    assert b * d == (u * x) * d + 0.5 * d;
    assert s * d <= b * d;
  }

  lemma LowerBound(s: real, x: real, d: real, u: real, t: real, m: real)
    requires d > 0.0 && t == s * d && m == x * d
    requires 2.0 * (u * (u * m)) <= 2.0 * (u * t) + u * d + 2.0 * d
    ensures u * (u * x) <= u * s + 0.5 * u + 1.0
  {
    Divide(u * (u * x), u * s + 0.5 * u + 1.0, d);
    Regroup(u, x, d);
    Regroup(u, u * x, d);
    Regroup(u, s, d);
    assert u * (x * d) == u * m && u * ((u * x) * d) == u * (u * m) && u * (s * d) == u * t;
    assert (u * s + 0.5 * u + 1.0) * d == (u * s) * d + 0.5 * (u * d) + d;
  }

  lemma UpperAsReal(a: int, n: int, d: int)
    requires 2 * Unit * a <= 2 * n * (Unit * Unit) + Unit * d
    ensures 2.0 * a as real <= 2.0 * (RealUnit * n as real) + d as real
  {
    assert 2 * a <= 2 * Unit * n + d;
  }

  lemma LowerAsReal(a: int, n: int, d: int)
    requires 2 * n * (Unit * Unit) < 2 * Unit * a + Unit * d + 2 * d
    ensures 2.0 * (RealUnit * (RealUnit * n as real)) <= 2.0 * (RealUnit * a as real) + RealUnit * d as real + 2.0 * d as real
  {
  }

  /** With u for 10^18: share <= u x + 1/2, and u x <= share + 1/2 + 1/u. */
  lemma ShareNearFraction(p: Proportion, validAddress: Bytes -> bool)
    requires WellFormed(p, validAddress)
    ensures ShareOf(p) as real <= RealUnit * Fraction(p) + 0.5
    ensures RealUnit * (RealUnit * Fraction(p)) <= RealUnit * ShareOf(p) as real + 0.5 * RealUnit + 1.0
  {
    hide Share;
    ShareBounds(p.numerator.value, p.denominator.value);
    NearFraction(ShareOf(p), p.numerator.value, p.denominator.value, Fraction(p));
  }

  lemma NearFraction(s: int, n: int, d: int, x: real)
    requires d > 0 && x == n as real / d as real
    requires 2 * Unit * (s * d) <= 2 * n * (Unit * Unit) + Unit * d
    requires 2 * n * (Unit * Unit) < 2 * Unit * (s * d) + Unit * d + 2 * d
    ensures s as real <= RealUnit * x + 0.5
    ensures RealUnit * (RealUnit * x) <= RealUnit * s as real + 0.5 * RealUnit + 1.0
  {
    UpperAsReal(s * d, n, d);
    LowerAsReal(s * d, n, d);
    UpperBound(s as real, x, d as real, RealUnit, (s * d) as real, n as real);
    LowerBound(s as real, x, d as real, RealUnit, (s * d) as real, n as real);
  }

  lemma {:induction false} TotalNearExactSum(ps: seq<Proportion>, validAddress: Bytes -> bool)
    requires AllWellFormed(ps, validAddress)
    ensures Total(ps) as real <= RealUnit * ExactSum(ps, validAddress) + |ps| as real * 0.5
    ensures RealUnit * (RealUnit * ExactSum(ps, validAddress))
         <= RealUnit * Total(ps) as real + |ps| as real * (0.5 * RealUnit + 1.0)
  {
    if ps != [] {
      hide Fraction, ShareOf, WellFormed;
      TotalNearExactSum(ps[..|ps| - 1], validAddress);
      ShareNearFraction(ps[|ps| - 1], validAddress);
    }
  }

  /** An accepted list of n proportions has an exact sum of at most 1 + n (1/2 + 10^-18) 10^-18. */
  lemma AcceptedSumIsNearOne(ps: seq<Proportion>, validAddress: Bytes -> bool)
    requires Accepts(ps, validAddress)
    ensures RealUnit * (RealUnit * (ExactSum(ps, validAddress) - 1.0)) <= |ps| as real * (0.5 * RealUnit + 1.0)
  {
    TotalNearExactSum(ps, validAddress);
  }

  /** A list that is otherwise valid is accepted if its exact sum is at most 1 - (n / 2) 10^-18. */
  lemma SumBelowOneIsAccepted(ps: seq<Proportion>, validAddress: Bytes -> bool)
    requires AllWellFormed(ps, validAddress) && Distinct(ps)
    requires RealUnit * (1.0 - ExactSum(ps, validAddress)) >= |ps| as real * 0.5
    ensures Accepts(ps, validAddress)
  {
    TotalNearExactSum(ps, validAddress);
  }

  // ------------------------------------------------------------------------- coins

  datatype RewardCoin = RewardCoin(denom: Bytes, amount: Option<int>)

  datatype DecCoin = DecCoin(denom: Bytes, amount: Dec)

  /** The amount is still positive after scaling exactly when it has a digit within 18 places. */
  lemma ScaledIsPositive(amount: int, decimals: nat)
    requires amount > 0
    ensures ScaleByDecimals(amount, decimals) > 0 <==> Pow10(decimals) <= amount * Unit
  {
    var a, b := amount * Unit, Pow10(decimals);
    var q := a / b;
    assert a == q * b + a % b;
    MulAtLeast(q, b);
  }

  /** The scaled amount is the amount over the power of ten, cut to 18 digits. */
  lemma CoinAmount(c: RewardCoin, exponentOf: Bytes -> Option<nat>)
    requires CoinOk(c, exponentOf)
    ensures var d, p := ToDecCoin(c, exponentOf), Pow10(exponentOf(c.denom).value);
            d.denom == c.denom && d.amount * p <= c.amount.value * Pow10(18) < (d.amount + 1) * p
  {
    hide Pow10, Truncate;
    UnitIsPow10();
    assert Pow10(0) == 1 by { Pow10Zero(); }
    TruncateBounds(FromInt(c.amount.value), Pow10(exponentOf(c.denom).value));
  }

  /** A positive amount of a registered reward asset that does not vanish in scaling. */
  predicate CoinOk(c: RewardCoin, exponentOf: Bytes -> Option<nat>) {
    && c.amount.Some? && c.amount.value > 0 && exponentOf(c.denom).Some?
    && ScaleByDecimals(c.amount.value, exponentOf(c.denom).value) > 0
  }

  function ToDecCoin(c: RewardCoin, exponentOf: Bytes -> Option<nat>): (d: DecCoin)
    ensures d.denom == c.denom
  {
    if c.amount.Some? && exponentOf(c.denom).Some?
    then DecCoin(c.denom, ScaleByDecimals(c.amount.value, exponentOf(c.denom).value))
    else DecCoin(c.denom, 0)
  }

  function ToDecCoins(cs: seq<RewardCoin>, exponentOf: Bytes -> Option<nat>): (r: seq<DecCoin>)
    ensures |r| == |cs| && forall i :: 0 <= i < |cs| ==> r[i] == ToDecCoin(cs[i], exponentOf)
  {
    seq(|cs|, i requires 0 <= i < |cs| => ToDecCoin(cs[i], exponentOf))
  }

  function DenomOf(c: RewardCoin): (denom: Bytes) {
    c.denom
  }

  predicate ByDenom(c: DecCoin, d: DecCoin) {
    ByteLess(c.denom, d.denom)
  }

  lemma ByDenomIsWeakOrder()
    ensures WeakOrder(ByDenom)
  {
    hide ByteLess;
    forall x, y | ByDenom(x, y)
      ensures !ByDenom(y, x)
    {
      ByteLessTotal(x.denom, y.denom);
    }
    forall x, y, z | !ByDenom(y, x) && !ByDenom(z, y)
      ensures !ByDenom(z, x)
    {
      NotLessTransitive(x.denom, y.denom, z.denom);
    }
  }

  /** Denominations rise, compared at the first byte where they differ. */
  ghost predicate DenomsAscend(ds: seq<DecCoin>) {
    forall i, k :: 0 <= i < k < |ds| ==>
      ds[i].denom == ds[k].denom || exists m: nat :: SmallerAt(ds[i].denom, ds[k].denom, m)
  }

  lemma SortedByDenom(ds: seq<DecCoin>)
    requires WeaklySorted(ByDenom, ds)
    ensures DenomsAscend(ds)
  {
    hide ByteLess, SmallerAt;
    forall i, k | 0 <= i < k < |ds|
      ensures ds[i].denom == ds[k].denom || exists m: nat :: SmallerAt(ds[i].denom, ds[k].denom, m)
    {
      assert !ByDenom(ds[k], ds[i]);
      ByteLessTotal(ds[i].denom, ds[k].denom);
      ByteLessAtFirstDifference(ds[i].denom, ds[k].denom);
    }
  }

  ghost predicate AcceptsCoins(cs: seq<RewardCoin>, exponentOf: Bytes -> Option<nat>) {
    DistinctBy(DenomOf, cs) && forall i :: 0 <= i < |cs| ==> CoinOk(cs[i], exponentOf)
  }

  /** The accepted coins: no denomination twice, and each a positive amount of a registered asset with a
      digit within 18 places. */
  lemma AcceptedCoins(cs: seq<RewardCoin>, exponentOf: Bytes -> Option<nat>)
    ensures AcceptsCoins(cs, exponentOf) <==>
              && (forall i :: 0 <= i < |cs| ==>
                    && cs[i].amount.Some? && cs[i].amount.value > 0 && exponentOf(cs[i].denom).Some?
                    && Pow10(exponentOf(cs[i].denom).value) <= cs[i].amount.value * 1_000_000_000_000_000_000)
              && (forall i, j :: 0 <= i < j < |cs| ==> cs[i].denom != cs[j].denom)
  {
    hide Pow10, ScaleByDecimals;
    forall i | 0 <= i < |cs| && cs[i].amount.Some? && cs[i].amount.value > 0 && exponentOf(cs[i].denom).Some?
      ensures CoinOk(cs[i], exponentOf) <==>
                Pow10(exponentOf(cs[i].denom).value) <= cs[i].amount.value * 1_000_000_000_000_000_000
    {
      ScaledIsPositive(cs[i].amount.value, exponentOf(cs[i].denom).value);
    }
  }

  /** `ABIRewardCoins.ToProtoStruct`: the scaled coins, sorted by denomination. */
  method CoinsToProtoStruct(cs: seq<RewardCoin>, exponentOf: Bytes -> Option<nat>) returns (r: Verdict<seq<DecCoin>>)
    ensures r.Accepted? <==> AcceptsCoins(cs, exponentOf)
    ensures r.Accepted? ==> DenomsAscend(r.value)
    ensures r.Accepted? ==> WeaklySorted(ByDenom, r.value) && multiset(r.value) == multiset(ToDecCoins(cs, exponentOf))
  {
    hide ScaleByDecimals, DenomsAscend;
    var ret: seq<DecCoin> := [];
    var seen: set<Bytes> := {};
    for i := 0 to |cs|
      invariant AcceptsCoins(cs[..i], exponentOf)
      invariant seen == set j | 0 <= j < i :: cs[j].denom
      invariant ret == ToDecCoins(cs[..i], exponentOf)
    {
      var c := cs[i];
      if c.denom in seen {
        assert !DistinctBy(DenomOf, cs);
        return Rejected;
      }
      if c.amount.None? || c.amount.value <= 0 {
        assert !CoinOk(cs[i], exponentOf);
        return Rejected;
      }
      if exponentOf(c.denom).None? {
        assert !CoinOk(cs[i], exponentOf);
        return Rejected;
      }
      var amountDecimal := ScaleByDecimals(c.amount.value, exponentOf(c.denom).value);
      if amountDecimal <= 0 {
        assert !CoinOk(cs[i], exponentOf);
        return Rejected;
      }
      ret := ret + [DecCoin(c.denom, amountDecimal)];
      seen := seen + {c.denom};
    }
    assert cs[..|cs|] == cs;
    ByDenomIsWeakOrder();
    ret := SortWeakly(ByDenom, ret);
    SortedByDenom(ret);
    return Accepted(ret);
  }

  lemma {:induction false} PermutedCoins(a: seq<RewardCoin>, b: seq<RewardCoin>, exponentOf: Bytes -> Option<nat>)
    requires multiset(a) == multiset(b)
    ensures multiset(ToDecCoins(a, exponentOf)) == multiset(ToDecCoins(b, exponentOf))
    decreases |a|
  {
    SameLength(a, b);
    if a == [] {
      assert a == b;
    } else {
      hide Without, ToDecCoins;
      var k := MatchFirst(a, b);
      PermutedCoins(Without(a, 0), Without(b, k), exponentOf);
      ToDecCoinsRemove(a, 0, exponentOf);
      ToDecCoinsRemove(b, k, exponentOf);
    }
  }

  lemma ToDecCoinsRemove(cs: seq<RewardCoin>, k: nat, exponentOf: Bytes -> Option<nat>)
    requires k < |cs|
    ensures multiset(ToDecCoins(cs, exponentOf))
         == multiset(ToDecCoins(Without(cs, k), exponentOf)) + multiset{ToDecCoin(cs[k], exponentOf)}
  {
    hide ToDecCoin;
    var ds := ToDecCoins(cs, exponentOf);
    assert ToDecCoins(Without(cs, k), exponentOf) == Without(ds, k);
    RemoveAt(ds, k);
    assert ds[k] in multiset(ds);
  }

  /** The accepted coins do not depend on the order of the request: any permutation of it is
      accepted too, with the very same result. */
  lemma CoinsAreCanonical(
    a: seq<RewardCoin>, b: seq<RewardCoin>, exponentOf: Bytes -> Option<nat>, ra: seq<DecCoin>, rb: seq<DecCoin>
  )
    requires multiset(a) == multiset(b) && AcceptsCoins(a, exponentOf)
    requires WeaklySorted(ByDenom, ra) && multiset(ra) == multiset(ToDecCoins(a, exponentOf))
    requires WeaklySorted(ByDenom, rb) && multiset(rb) == multiset(ToDecCoins(b, exponentOf))
    ensures AcceptsCoins(b, exponentOf) && ra == rb
  {
    hide CoinOk, ToDecCoin, WeaklySorted;
    PermutedDistinct(DenomOf, a, b);
    SameMembers(a, b);
    forall i | 0 <= i < |b|
      ensures CoinOk(b[i], exponentOf)
    {
      assert b[i] in a;
    }
    PermutedCoins(a, b, exponentOf);
    TiesAgreeByDenom(a, exponentOf);
    TiesAgreeOnPermutation(ByDenom, ToDecCoins(a, exponentOf), ra);
    WeaklySortedIsUnique(ByDenom, ra, rb);
  }

  lemma TiesAgreeByDenom(a: seq<RewardCoin>, exponentOf: Bytes -> Option<nat>)
    requires DistinctBy(DenomOf, a)
    ensures TiesAgree(ByDenom, ToDecCoins(a, exponentOf))
  {
    hide ToDecCoin;
    var ds := ToDecCoins(a, exponentOf);
    forall x, y | x in ds && y in ds && !ByDenom(x, y) && !ByDenom(y, x)
      ensures x == y
    {
      ByteLessTotal(x.denom, y.denom);
      var i :| 0 <= i < |ds| && ds[i] == x;
      var j :| 0 <= j < |ds| && ds[j] == y;
      assert DenomOf(a[i]) == DenomOf(a[j]);
    }
  }
}
