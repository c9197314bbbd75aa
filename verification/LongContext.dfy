/**
 * Fitting filler records to a prompt length: a binary search over the record count, stopped after 24 probes. The
 * tokeniser is any function from record count to prompt length.
 */
module LongContext {
  import opened RealSums
  import opened IntegerFacts

  const SAMPLE := 64
  const PROBES := 24

  function Pow2(n: nat): nat {
    if n == 0 then 1 else 2 * Pow2(n - 1)
  }

  function TokensPerUnit(tokens: nat -> nat): (r: real)
    ensures r >= 1.0
  {
    var slope := Ratio((tokens(SAMPLE) - tokens(0)) as real, SAMPLE as real);
    if slope > 1.0 then slope else 1.0
  }

  /** Truncation toward zero. */
  function Truncated(x: real): int {
    if x >= 0.0 then x.Floor else -(-x).Floor
  }

  /** The search's first upper bound. */
  function Ceiling(tokens: nat -> nat, target: int): (r: nat)
    ensures r >= 1
  {
    var raw := Truncated(Times(Ratio(target as real, TokensPerUnit(tokens)), 1.2)) + 32;
    if raw > 1 then raw else 1
  }

  ghost predicate Monotone(tokens: nat -> nat) {
    forall a: nat, b: nat :: a <= b ==> tokens(a) <= tokens(b)
  }

  /** `units` is the largest count up to `limit` that fits, or zero when none does. */
  ghost predicate LargestFit(tokens: nat -> nat, target: int, limit: nat, units: nat) {
    && units <= limit
    && (units == 0 || tokens(units) <= target)
    && forall u: nat :: u <= limit && tokens(u) <= target ==> u <= units
  }

  /** What is left to search and the best fit so far. */
  datatype Search = Search(low: nat, high: int, best: nat)

  function Middle(low: nat, high: int): (m: nat)
    requires low <= high
    ensures low <= m <= high && m - low <= high - m <= m - low + 1
  {
    (low + high) / 2
  }

  function Probe(tokens: nat -> nat, target: int, s: Search): Search
    requires s.low <= s.high
  {
    var middle := Middle(s.low, s.high);
    if tokens(middle) <= target then Search(middle + 1, s.high, middle) else s.(high := middle - 1)
  }

  function Probes(tokens: nat -> nat, target: int, s: Search, left: nat): Search
    decreases left
  {
    if left == 0 || s.low > s.high then s else Probes(tokens, target, Probe(tokens, target, s), left - 1)
  }

  function Fitted(tokens: nat -> nat, target: int): nat {
    Probes(tokens, target, Search(0, Ceiling(tokens, target), 0), PROBES).best
  }

  lemma ProbesUnfold(tokens: nat -> nat, target: int, s: Search, left: nat)
    ensures left == 0 || s.low > s.high ==> Probes(tokens, target, s, left) == s
    ensures left > 0 && s.low <= s.high ==>
            Probes(tokens, target, s, left) == Probes(tokens, target, Probe(tokens, target, s), left - 1)
  {
  }

  /** The capped search from zero to `ceiling`. */
  method SearchUnits(tokens: nat -> nat, target: int, ceiling: nat, probes: nat) returns (count: nat, units: nat)
    ensures units == Probes(tokens, target, Search(0, ceiling, 0), probes).best && count == tokens(units)
    ensures units == 0 || count <= target
  {
    var low: nat, high: int := 0, ceiling;
    units, count := 0, tokens(0);
    ghost var last := Probes(tokens, target, Search(0, ceiling, 0), probes);
    for i := 0 to probes
      invariant count == tokens(units) && (units == 0 || count <= target)
      invariant Probes(tokens, target, Search(low, high, units), probes - i) == last
    {
      ghost var before := Search(low, high, units);
      ProbesUnfold(tokens, target, before, probes - i);
      if low > high {
        break;
      }
      var middle: int := Middle(low, high);
      var prompt := tokens(middle);
      if prompt <= target {
        count, units, low := prompt, middle, middle + 1;
      } else {
        high := middle - 1;
      }
      assert Search(low, high, units) == Probe(tokens, target, before);
    }
  }

  method FitMessages(tokens: nat -> nat, target: int) returns (count: nat, units: nat)
    ensures units == Fitted(tokens, target) && count == tokens(units)
    ensures units == 0 || count <= target
  {
    count, units := SearchUnits(tokens, target, Ceiling(tokens, target), PROBES);
  }

  /** Everything that fits is still ahead or no better than the best; everything past `high` is too long. */
  ghost predicate Bracket(tokens: nat -> nat, target: int, limit: nat, s: Search) {
    && s.high <= limit && s.best <= limit
    && (s.best == 0 || tokens(s.best) <= target)
    && (s.low == 0 || s.low == s.best + 1)
    && s.low <= s.high + 1
    && forall u: nat :: s.high < u <= limit ==> tokens(u) > target
  }

  lemma ProbeKeepsBracket(tokens: nat -> nat, target: int, limit: nat, s: Search)
    requires Monotone(tokens) && Bracket(tokens, target, limit, s) && s.low <= s.high
    ensures Bracket(tokens, target, limit, Probe(tokens, target, s))
  {
    var middle := Middle(s.low, s.high);
    forall u: nat | middle <= u ensures tokens(middle) <= tokens(u) {
    }
  }

  /** Enough probes for the width find the largest fit. */
  lemma {:induction false} ProbesFindLargest(tokens: nat -> nat, target: int, limit: nat, s: Search, left: nat)
    requires Monotone(tokens) && Bracket(tokens, target, limit, s) && s.high - s.low + 1 < Pow2(left)
    ensures LargestFit(tokens, target, limit, Probes(tokens, target, s, left).best)
    decreases left
  {
    if s.low <= s.high && left > 0 {
      ProbeKeepsBracket(tokens, target, limit, s);
      ProbesFindLargest(tokens, target, limit, Probe(tokens, target, s), left - 1);
    }
  }

  lemma CapValue()
    ensures Pow2(PROBES) == 16_777_216
  {
    assert Pow2(8) == 256;
    assert Pow2(12) == 16 * Pow2(8);
    assert Pow2(16) == 16 * Pow2(12);
    assert Pow2(20) == 16 * Pow2(16);
    assert Pow2(24) == 16 * Pow2(20);
  }

  /** Below the cap the search returns the largest count in its range that fits, zero when none does. */
  lemma FittedIsLargest(tokens: nat -> nat, target: int)
    requires Monotone(tokens) && Ceiling(tokens, target) + 1 < 16_777_216
    ensures LargestFit(tokens, target, Ceiling(tokens, target), Fitted(tokens, target))
  {
    CapValue();
    var limit := Ceiling(tokens, target);
    ProbesFindLargest(tokens, target, limit, Search(0, limit, 0), PROBES);
  }

  lemma DivideShrinks(target: real, unit: real)
    requires target >= 0.0 && unit >= 1.0
    ensures 0.0 <= Ratio(target, unit) <= target
  {
    var q := Ratio(target, unit);
    assert q * unit == target;
    if q < 0.0 {
      ProductSign(q, unit);
    } else {
      ProductGrows(q, unit);
    }
  }

  lemma ProductSign(q: real, unit: real)
    requires q < 0.0 && unit >= 1.0
    ensures q * unit < 0.0
  {
  }

  lemma ProductGrows(q: real, unit: real)
    requires q >= 0.0 && unit >= 1.0
    ensures q * unit >= q
  {
  }

  /** The largest target whose search range always stays below the cap. */
  const LARGEST_TARGET := 13_980_985

  lemma CapUnreached(tokens: nat -> nat, target: int)
    requires target <= LARGEST_TARGET
    ensures Ceiling(tokens, target) + 1 < 16_777_216
  {
    var unit := TokensPerUnit(tokens);
    if target >= 0 {
      DivideShrinks(target as real, unit);
    } else {
      DivideShrinks((-target) as real, unit);
      NegateRatio(target as real, unit);
    }
  }

  lemma NegateRatio(x: real, unit: real)
    requires unit != 0.0
    ensures Ratio(x, unit) == -Ratio(-x, unit)
  {
  }

  /** Up to the largest target the search is complete on its range. */
  lemma FitIsLargest(tokens: nat -> nat, target: int)
    requires Monotone(tokens) && target <= LARGEST_TARGET
    ensures LargestFit(tokens, target, Ceiling(tokens, target), Fitted(tokens, target))
  {
    CapUnreached(tokens, target);
    FittedIsLargest(tokens, target);
  }

  /** The range loses nothing exactly when the first count past it is too long. */
  lemma RangeSuffices(tokens: nat -> nat, target: int)
    requires Monotone(tokens) && target <= LARGEST_TARGET
    ensures (forall u: nat :: tokens(u) <= target ==> u <= Fitted(tokens, target))
        <==> tokens(Ceiling(tokens, target) + 1) > target
  {
    FitIsLargest(tokens, target);
    var limit := Ceiling(tokens, target);
    if tokens(limit + 1) > target {
      forall u: nat | limit < u ensures tokens(u) > target {
        assert tokens(limit + 1) <= tokens(u);
      }
    }
  }

  // ----- affine token counts -----

  /** Every record adds `slope` tokens to a prompt of `base` tokens. */
  ghost predicate Affine(tokens: nat -> nat, base: nat, slope: nat) {
    forall u: nat :: tokens(u) == base + Product(slope, u)
  }

  lemma AffineMonotone(tokens: nat -> nat, base: nat, slope: nat)
    requires Affine(tokens, base, slope)
    ensures Monotone(tokens)
  {
    forall a: nat, b: nat | a <= b ensures tokens(a) <= tokens(b) {
      Grow(a, b, slope);
    }
  }

  /** The sample recovers the slope. */
  lemma SampledSlope(tokens: nat -> nat, base: nat, slope: nat)
    requires Affine(tokens, base, slope) && slope >= 1
    ensures TokensPerUnit(tokens) == slope as real
  {
    assert tokens(64) - tokens(0) == slope * 64;
    FactorOf(slope as real, 64.0);
    assert Times(slope as real, 64.0) == (slope * 64) as real;
  }

  lemma WholeQuotient(target: nat, slope: nat)
    requires slope >= 1
    ensures (target / slope) as real <= Ratio(target as real, slope as real)
  {
    var q := target / slope;
    QuotientBounds(target, slope);
    assert (q * slope) as real == Times(q as real, slope as real);
    FactorOf(q as real, slope as real);
    if (q as real) > Ratio(target as real, slope as real) {
      RatioOrder(target as real, Times(q as real, slope as real), slope as real);
    }
  }

  lemma RatioOrder(x: real, y: real, d: real)
    requires d > 0.0 && Ratio(x, d) < Ratio(y, d)
    ensures x < y
  {
    var a, b := Ratio(x, d), Ratio(y, d);
    assert a * d == x && b * d == y;
    ProductLess(a, b, d);
  }

  lemma ProductLess(a: real, b: real, d: real)
    requires a < b && d > 0.0
    ensures a * d < b * d
  {
  }

  lemma AffineRange(tokens: nat -> nat, base: nat, slope: nat, target: nat)
    requires Affine(tokens, base, slope) && slope >= 1
    ensures Quotient(target, slope) <= Ceiling(tokens, target)
  {
    SampledSlope(tokens, base, slope);
    WholeQuotient(target, slope);
    var q := Ratio(target as real, slope as real);
    assert Times(q, 1.2) >= q;
  }

  /** The records that fit beside the base, or zero when the base alone is too long. */
  function AffineFit(base: nat, slope: nat, target: int): nat
    requires slope >= 1
  {
    if base <= target then Quotient(target - base, slope) else 0
  }

  /** The largest fit of a range that reaches it. */
  lemma AffineLargest(tokens: nat -> nat, base: nat, slope: nat, target: int, limit: nat, found: nat)
    requires Affine(tokens, base, slope) && slope >= 1 && LargestFit(tokens, target, limit, found)
    requires AffineFit(base, slope, target) <= limit
    ensures found == AffineFit(base, slope, target)
  {
    assert tokens(found) == base + Product(slope, found);
    if base <= target {
      var fit := Quotient(target - base, slope);
      assert tokens(fit) == base + Product(slope, fit);
      FitFits(target - base, slope);
      FitsBelow(found, target - base, slope);
    }
  }

  lemma FitFits(rest: nat, slope: nat)
    requires slope >= 1
    ensures Product(slope, Quotient(rest, slope)) <= rest
  {
    QuotientBounds(rest, slope);
  }

  /** When every record adds the same number of tokens, the sampled range always suffices. */
  lemma AffineFitIsFound(tokens: nat -> nat, base: nat, slope: nat, target: int)
    requires Affine(tokens, base, slope) && slope >= 1 && target <= LARGEST_TARGET
    ensures Fitted(tokens, target) == AffineFit(base, slope, target)
  {
    AffineMonotone(tokens, base, slope);
    FitIsLargest(tokens, target);
    if base <= target {
      AffineRange(tokens, base, slope, target);
      QuotientGrows(target - base, target, slope);
    }
    AffineLargest(tokens, base, slope, target, Ceiling(tokens, target), Fitted(tokens, target));
  }

  lemma FitsBelow(u: nat, rest: nat, slope: nat)
    requires slope >= 1 && (u == 0 || Product(slope, u) <= rest)
    ensures u <= Quotient(rest, slope)
  {
    QuotientBounds(rest, slope);
    var q := rest / slope;
    if q < u {
      OneMore(q, slope);
      Grow(q + 1, u, slope);
      assert false;
    }
  }

  lemma QuotientGrows(x: nat, y: nat, d: nat)
    requires d >= 1 && x <= y
    ensures Quotient(x, d) <= Quotient(y, d)
  {
    FitFits(x, d);
    FitsBelow(Quotient(x, d), y, d);
  }

  // ----- the cap is exact -----

  lemma {:induction false} HalvesToNothing(tokens: nat -> nat, target: int, s: Search, left: nat)
    requires forall u: nat :: u <= s.high ==> tokens(u) <= target
    requires s.best == s.low == 0 || s.low == s.best + 1
    requires 0 < s.high && s.low <= s.high + 1
    ensures Probes(tokens, target, s, left).best == s.high <==> s.high - s.low + 1 < Pow2(left)
    decreases left
  {
    if s.low > s.high {
      PowPositive(left);
    } else if left > 0 {
      HalvesToNothing(tokens, target, Probe(tokens, target, s), left - 1);
    }
  }

  lemma {:induction false} PowPositive(n: nat)
    ensures Pow2(n) > 0
  {
    if n > 0 {
      PowPositive(n - 1);
    }
  }

  /** When everything in range fits, the search reaches the end of its range exactly below the cap. */
  lemma CapIsExact(tokens: nat -> nat, target: int)
    requires forall u: nat :: u <= Ceiling(tokens, target) ==> tokens(u) <= target
    ensures Fitted(tokens, target) == Ceiling(tokens, target) <==> Ceiling(tokens, target) + 1 < 16_777_216
  {
    CapValue();
    HalvesToNothing(tokens, target, Search(0, Ceiling(tokens, target), 0), PROBES);
  }

  /** A prompt of one token, however many records it holds. */
  function OneToken(): nat -> nat {
    (u: nat) => 1
  }

  lemma OneTokenCeiling(target: int)
    requires target > LARGEST_TARGET
    ensures Ceiling(OneToken(), target) + 1 >= 16_777_216
  {
    assert TokensPerUnit(OneToken()) == 1.0;
    UnitRatio(target as real);
    assert Times(target as real, 1.2) >= 16_777_183.0;
  }

  lemma UnitRatio(x: real)
    ensures Ratio(x, 1.0) == x
  {
  }

  /** Above the largest target the cap stops the search of a one-token prompt early. */
  lemma CapBites(target: int)
    requires target > LARGEST_TARGET
    ensures Monotone(OneToken())
    ensures !LargestFit(OneToken(), target, Ceiling(OneToken(), target), Fitted(OneToken(), target))
  {
    OneTokenCeiling(target);
    CapIsExact(OneToken(), target);
    assert OneToken()(Ceiling(OneToken(), target)) <= target;
  }

  /** The capped search finds the largest fit of its range for every monotone token count exactly up to this target. */
  lemma CapReach(target: int)
    ensures (forall tokens: nat -> nat :: Monotone(tokens) ==>
               LargestFit(tokens, target, Ceiling(tokens, target), Fitted(tokens, target)))
            <==> target <= LARGEST_TARGET
  {
    if target <= LARGEST_TARGET {
      forall tokens: nat -> nat | Monotone(tokens)
        ensures LargestFit(tokens, target, Ceiling(tokens, target), Fitted(tokens, target))
      {
        FitIsLargest(tokens, target);
      }
    } else {
      CapBites(target);
    }
  }
}
