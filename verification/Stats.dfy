/**
 * The order-statistic interval for the median. Logarithms and floats are replaced by exact binomials and reals,
 * so "the coverage is exact" becomes a count of the 2^n ways n values can fall below or above a point.
 */
module Stats {
  import opened Rounds

  // ---------------------------------------------------------------- binomials

  /** P(X = k) for X ~ Binomial(n, 1/2), one coin at a time. */
  function Prob(n: nat, k: nat): (p: real)
    ensures p >= 0.0
  {
    if n == 0 then (if k == 0 then 1.0 else 0.0)
    else ((if k == 0 then 0.0 else Prob(n - 1, k - 1)) + Prob(n - 1, k)) / 2.0
  }

  /** P(X <= k). */
  function HalfCdf(n: nat, k: int): real {
    if k < 0 then 0.0 else HalfCdf(n, k - 1) + Prob(n, k)
  }

  lemma {:induction false} ProbBeyond(n: nat, k: nat)
    requires k > n
    ensures Prob(n, k) == 0.0
  {
    if n > 0 { ProbBeyond(n - 1, k - 1); ProbBeyond(n - 1, k); }
  }

  lemma {:induction false} ProbSymmetric(n: nat, k: nat)
    requires k <= n
    ensures Prob(n, k) == Prob(n, n - k)
  {
    if n > 0 {
      if k > 0 { ProbSymmetric(n - 1, k - 1); } else { ProbBeyond(n - 1, n); }
      if k < n { ProbSymmetric(n - 1, k); } else { ProbBeyond(n - 1, n); }
    }
  }

  /** n * x by repeated addition, which keeps the quotient of neighbouring terms linear. */
  function Times(n: nat, x: real): real {
    if n == 0 then 0.0 else Times(n - 1, x) + x
  }

  lemma {:induction false} TimesHalfSum(n: nat, a: real, b: real)
    ensures Times(n, (a + b) / 2.0) == (Times(n, a) + Times(n, b)) / 2.0
  {
    if n > 0 { TimesHalfSum(n - 1, a, b); }
  }

  lemma {:induction false} TimesNothing(n: nat)
    ensures Times(n, 0.0) == 0.0
  {
    if n > 0 { TimesNothing(n - 1); }
  }

  lemma OneMore(m: real, x: real)
    ensures (m + 1.0) * x == m * x + x
  {
  }

  lemma {:induction false} TimesIsProduct(n: nat, x: real)
    ensures Times(n, x) == n as real * x
  {
    if n > 0 {
      TimesIsProduct(n - 1, x);
      var m := (n - 1) as real;
      assert n as real == m + 1.0;
      OneMore(m, x);
    }
  }

  /**
   * The quotient of neighbouring terms, which the loop multiplies by: (i + 1) * Prob(n, i + 1) = (n - i) * Prob(n,
   * i).
   */
  lemma {:induction false} ProbStep(n: nat, i: nat)
    requires i <= n
    ensures Times(i + 1, Prob(n, i + 1)) == Times(n - i, Prob(n, i))
    decreases n
  {
    if i == n {
      ProbBeyond(n, n + 1);
      TimesNothing(n + 1);
    } else {
      var a := if i == 0 then 0.0 else Prob(n - 1, i - 1);
      var b, c := Prob(n - 1, i), Prob(n - 1, i + 1);
      ProbStep(n - 1, i);
      if i > 0 { ProbStep(n - 1, i - 1); } else { TimesNothing(n); }
      TimesHalfSum(i + 1, b, c);
      TimesHalfSum(n - i, a, b);
    }
  }

  lemma {:induction false} NextTerm(n: nat, i: nat)
    requires i < n
    ensures Prob(n, i) * ((n - i) as real / (i + 1) as real) == Prob(n, i + 1)
  {
    ProductStep(n, i);
    Quotient(Prob(n, i), Prob(n, i + 1), (n - i) as real, (i + 1) as real);
  }

  lemma {:induction false} ProductStep(n: nat, i: nat)
    requires i < n
    ensures (i + 1) as real * Prob(n, i + 1) == (n - i) as real * Prob(n, i)
  {
    ProbStep(n, i);
    TimesIsProduct(i + 1, Prob(n, i + 1));
    TimesIsProduct(n - i, Prob(n, i));
  }

  lemma {:induction false} Quotient(here: real, next: real, up: real, down: real)
    requires down > 0.0 && down * next == up * here
    ensures here * (up / down) == next
  {
    var q := up / down;
    assert q * down == up;
    assert (here * q) * down == here * (q * down);
    assert (here * q - next) * down == 0.0;
  }

  lemma {:induction false} HalfCdfPascal(n: nat, k: nat)
    requires n > 0
    ensures HalfCdf(n, k) == (HalfCdf(n - 1, k) + HalfCdf(n - 1, k - 1)) / 2.0
    decreases k
  {
    if k > 0 { HalfCdfPascal(n, k - 1); }
  }

  lemma {:induction false} HalfCdfAll(n: nat, k: nat)
    requires k >= n
    ensures HalfCdf(n, k) == 1.0
    decreases n + k
  {
    if k > n {
      ProbBeyond(n, k);
      HalfCdfAll(n, k - 1);
    } else if n > 0 {
      HalfCdfPascal(n, n);
      HalfCdfAll(n - 1, n);
      HalfCdfAll(n - 1, n - 1);
    }
  }

  lemma {:induction false} HalfCdfMonotone(n: nat, j: int, k: int)
    requires j <= k
    ensures HalfCdf(n, j) <= HalfCdf(n, k)
    decreases k - j
  {
    if j < k && k >= 0 { HalfCdfMonotone(n, j, k - 1); }
  }

  /** The two tails split the whole: fewer than k below, or fewer than n + 1 - k above. */
  lemma {:induction false} TailsComplement(n: nat, k: nat)
    requires k <= n + 1
    ensures HalfCdf(n, k - 1) + HalfCdf(n, n - k) == 1.0
    decreases k
  {
    if k == 0 {
      HalfCdfAll(n, n);
    } else {
      TailsComplement(n, k - 1);
      ProbSymmetric(n, k - 1);
    }
  }

  method BinomialHalfCdf(n: nat, k: int) returns (cdf: real)
    ensures cdf == HalfCdf(n, k)
  {
    if k < 0 { return 0.0; }
    if k >= n {
      HalfCdfAll(n, k);
      return 1.0;
    }
    var p := HalfToThe(n);
    cdf := p;
    ProbOfNone(n);
    for i := 0 to k
      invariant p == Prob(n, i)
      invariant cdf == HalfCdf(n, i)
    {
      NextTerm(n, i);
      p := p * ((n - i) as real / (i + 1) as real);
      cdf := cdf + p;
    }
  }

  /** 2^-n, which the source reaches as exp(-n * ln 2). */
  function HalfToThe(n: nat): real {
    if n == 0 then 1.0 else HalfToThe(n - 1) / 2.0
  }

  lemma {:induction false} ProbOfNone(n: nat)
    ensures Prob(n, 0) == HalfToThe(n) == HalfCdf(n, 0)
  {
    assert HalfCdf(n, -1) == 0.0;
    if n > 0 { ProbOfNone(n - 1); }
  }

  // ---------------------------------------------------------------- the interval

  datatype MedianInterval = MedianInterval(median: real, lo: real, hi: real, coverage: real, n: nat)
  datatype IntervalResult = RangeError | TooFew | Interval(interval: MedianInterval)

  /** The largest k up to `bound` with P(X < k) <= tail, or 0. */
  function LargestRank(n: nat, tail: real, bound: nat): (k: nat)
    requires tail > 0.0
    ensures k <= bound && HalfCdf(n, k - 1) <= tail
    ensures forall j: nat :: k <= j < bound ==> HalfCdf(n, j) > tail
  {
    if bound == 0 || HalfCdf(n, bound - 1) <= tail then bound else LargestRank(n, tail, bound - 1)
  }

  function Rank(n: nat, tail: real): nat
    requires tail > 0.0
  {
    LargestRank(n, tail, n + 1)
  }

  /** A rank past the middle has at least half the probability below it, so its tail is too heavy. */
  lemma {:induction false} RankStaysBelowMiddle(n: nat, tail: real, k: nat)
    requires 0.0 < tail < 0.5 && HalfCdf(n, k - 1) <= tail
    ensures 2 * k <= n
  {
    if 2 * k > n {
      if k > n {
        HalfCdfAll(n, k - 1);
      } else {
        TailsComplement(n, k);
        HalfCdfMonotone(n, n - k, k - 1);
      }
      assert false;
    }
  }

  function Tail(confidence: real): real { (1.0 - confidence) / 2.0 }

  /** The narrowest interval [x(k), x(n+1-k)] that covers enough, with its rank found from above. */
  function IntervalOf(values: seq<real>, confidence: real): IntervalResult {
    if !(0.0 < confidence < 1.0) then RangeError
    else
      var n := |values|;
      var k := Rank(n, Tail(confidence));
      if k == 0 then TooFew
      else
        RankStaysBelowMiddle(n, Tail(confidence), k);
        Interval(IntervalOfRank(values, k))
  }

  /** The k-th value from either end around the median. */
  function IntervalOfRank(values: seq<real>, k: nat): MedianInterval
    requires 1 <= k <= |values|
  {
    var sorted, n := SortReals(values), |values|;
    MedianInterval(Median(values), sorted[k - 1], sorted[n - k], 1.0 - 2.0 * HalfCdf(n, k - 1), n)
  }

  /** The search loop: one rank after another, while the tail still allows it. */
  method SearchRank(n: nat, tail: real) returns (k: nat)
    requires 0.0 < tail < 0.5
    ensures k == Rank(n, tail)
  {
    k := 0;
    while 2 * (k + 1) <= n + 1
      invariant 2 * k <= n + 1
      invariant HalfCdf(n, k - 1) <= tail
    {
      var cdf := BinomialHalfCdf(n, k);
      if cdf > tail { break; }
      k := k + 1;
    }
    RankIs(n, tail, k);
  }

  method MedianIntervalOf(values: seq<real>, confidence: real) returns (r: IntervalResult)
    ensures r == IntervalOf(values, confidence)
  {
    if !(0.0 < confidence < 1.0) { return RangeError; }
    var n := |values|;
    var k := SearchRank(n, Tail(confidence));
    if k == 0 { return TooFew; }
    RankStaysBelowMiddle(n, Tail(confidence), k);
    var i := AtRank(values, k);
    return Interval(i);
  }

  method AtRank(values: seq<real>, k: nat) returns (i: MedianInterval)
    requires 1 <= k <= |values|
    ensures i == IntervalOfRank(values, k)
  {
    var n, sorted := |values|, SortReals(values);
    MedianOfSorted(values);
    var below := BinomialHalfCdf(n, k - 1);
    var middle, lo, hi := Median(sorted), sorted[k - 1], sorted[n - k];
    i := MedianInterval(middle, lo, hi, 1.0 - 2.0 * below, n);
  }

  lemma {:induction false} MedianOfSorted(values: seq<real>)
    ensures Median(SortReals(values)) == Median(values)
  {
    AscendingIsSorted(SortReals(values));
  }

  /** The upward search stops at the largest rank: its guard never ends it before the tail does. */
  lemma {:induction false} RankIs(n: nat, tail: real, k: nat)
    requires 0.0 < tail < 0.5 && HalfCdf(n, k - 1) <= tail && 2 * k <= n + 1
    requires 2 * (k + 1) > n + 1 || HalfCdf(n, k) > tail
    ensures Rank(n, tail) == k
  {
    if HalfCdf(n, k) <= tail {
      RankStaysBelowMiddle(n, tail, k + 1);
      assert false;
    }
    var r := Rank(n, tail);
    if r > k { HalfCdfMonotone(n, k, r - 1); }
  }

  // ---------------------------------------------------------------- counting patterns

  function Pow2(n: nat): (r: nat)
    ensures r > 0
  {
    if n == 0 then 1 else 2 * Pow2(n - 1)
  }

  function Choose(n: nat, k: nat): nat {
    if k == 0 then 1 else if n == 0 then 0 else Choose(n - 1, k - 1) + Choose(n - 1, k)
  }

  /** Choose(n, 0) + ... + Choose(n, k - 1). */
  function ChooseBelow(n: nat, k: nat): nat {
    if k == 0 then 0 else ChooseBelow(n, k - 1) + Choose(n, k - 1)
  }

  /** 2^n * x, doubling step by step. */
  function Scaled(n: nat, x: real): real {
    if n == 0 then x else 2.0 * Scaled(n - 1, x)
  }

  lemma {:induction false} ScaledSum(n: nat, a: real, b: real)
    ensures Scaled(n, a + b) == Scaled(n, a) + Scaled(n, b)
  {
    if n > 0 { ScaledSum(n - 1, a, b); }
  }

  lemma {:induction false} ScaledIsProduct(n: nat, x: real)
    ensures Scaled(n, x) == Pow2(n) as real * x
  {
    if n > 0 {
      ScaledIsProduct(n - 1, x);
      var half := Pow2(n - 1) as real;
      assert Pow2(n) as real == 2.0 * half;
      TwiceProduct(half, x);
    }
  }

  lemma TwiceProduct(half: real, x: real)
    ensures (2.0 * half) * x == 2.0 * (half * x)
  {
  }

  lemma {:induction false} ChooseIsProb(n: nat, k: nat)
    ensures Choose(n, k) as real == Scaled(n, Prob(n, k))
  {
    if n > 0 {
      var a, b := if k == 0 then 0.0 else Prob(n - 1, k - 1), Prob(n - 1, k);
      ChooseIsProb(n - 1, k);
      ScaledSum(n - 1, a / 2.0, b / 2.0);
      ScaledSum(n - 1, a / 2.0, a / 2.0);
      ScaledSum(n - 1, b / 2.0, b / 2.0);
      assert Scaled(n - 1, a) + Scaled(n - 1, b) == Scaled(n, Prob(n, k));
      if k > 0 {
        ChooseIsProb(n - 1, k - 1);
      } else {
        ScaledNothing(n - 1);
        assert Choose(n, 0) == Choose(n - 1, 0) == 1;
      }
    }
  }

  lemma {:induction false} ScaledNothing(n: nat)
    ensures Scaled(n, 0.0) == 0.0
  {
    if n > 0 { ScaledNothing(n - 1); }
  }

  lemma {:induction false} ChooseBelowIsCdf(n: nat, k: nat)
    ensures ChooseBelow(n, k) as real == Scaled(n, HalfCdf(n, k - 1))
  {
    if k > 0 {
      ChooseBelowIsCdf(n, k - 1);
      ChooseIsProb(n, k - 1);
      ScaledSum(n, HalfCdf(n, k - 2), Prob(n, k - 1));
    } else {
      ScaledNothing(n);
    }
  }

  lemma {:induction false} ScaledOne(n: nat)
    ensures Scaled(n, 1.0) == Pow2(n) as real
  {
    if n > 0 { ScaledOne(n - 1); }
  }

  lemma {:induction false} ChooseBelowComplement(n: nat, k: nat)
    requires k <= n + 1
    ensures ChooseBelow(n, k) + ChooseBelow(n, n + 1 - k) == Pow2(n)
  {
    TailsComplement(n, k);
    ChooseBelowIsCdf(n, k);
    ChooseBelowIsCdf(n, n + 1 - k);
    ScaledSum(n, HalfCdf(n, k - 1), HalfCdf(n, n - k));
    ScaledOne(n);
  }

  /** How n values fall around a point, one value after another. */
  datatype Pattern = Nothing | Fall(below: bool, rest: Pattern)

  function Prefixed(s: set<Pattern>, b: bool): set<Pattern> {
    set p | p in s :: Fall(b, p)
  }

  lemma {:induction false} PrefixedSize(s: set<Pattern>, b: bool)
    ensures |Prefixed(s, b)| == |s|
    decreases |s|
  {
    if s != {} {
      var p :| p in s;
      PrefixedSize(s - {p}, b);
      assert Prefixed(s, b) == Prefixed(s - {p}, b) + {Fall(b, p)};
    }
  }

  /** Every way n values can fall. */
  function Patterns(n: nat): set<Pattern> {
    if n == 0 then {Nothing} else Prefixed(Patterns(n - 1), true) + Prefixed(Patterns(n - 1), false)
  }

  function Length(p: Pattern): nat {
    match p case Nothing => 0 case Fall(_, rest) => Length(rest) + 1
  }

  function Below(p: Pattern): nat {
    match p case Nothing => 0 case Fall(below, rest) => Below(rest) + (if below then 1 else 0)
  }

  lemma {:induction false} PatternsAreAll(n: nat, p: Pattern)
    ensures p in Patterns(n) <==> Length(p) == n
  {
    if n > 0 && p.Fall? { PatternsAreAll(n - 1, p.rest); }
  }

  lemma {:induction false} PatternCount(n: nat)
    ensures |Patterns(n)| == Pow2(n)
  {
    if n > 0 {
      var p := Patterns(n - 1);
      PatternCount(n - 1);
      PrefixedSize(p, true);
      PrefixedSize(p, false);
      PrefixedDisjoint(p, p);
      assert Patterns(n) == Prefixed(p, true) + Prefixed(p, false);
    }
  }

  lemma {:induction false} PrefixedDisjoint(s: set<Pattern>, t: set<Pattern>)
    ensures Prefixed(s, true) !! Prefixed(t, false)
    ensures |Prefixed(s, true) + Prefixed(t, false)| == |Prefixed(s, true)| + |Prefixed(t, false)|
  {
  }

  function Exactly(n: nat, i: int): set<Pattern> {
    set p | p in Patterns(n) && Below(p) == i
  }

  function Fewer(n: nat, k: int): set<Pattern> {
    set p | p in Patterns(n) && Below(p) < k
  }

  lemma {:induction false} ExactCount(n: nat, i: nat)
    ensures |Exactly(n, i)| == Choose(n, i)
  {
    if n == 0 {
      assert Exactly(0, i) == if i == 0 then {Nothing} else {};
    } else {
      ExactlySplits(n, i);
      ExactCount(n - 1, i);
      if i > 0 { ExactCount(n - 1, i - 1); } else { NoneFewer(n - 1); }
    }
  }

  lemma {:induction false} ExactlySplits(n: nat, i: nat)
    requires n > 0
    ensures |Exactly(n, i)| == |Exactly(n - 1, i - 1)| + |Exactly(n - 1, i)|
  {
    var one, none := Exactly(n - 1, i - 1), Exactly(n - 1, i);
    assert Exactly(n, i) == Prefixed(one, true) + Prefixed(none, false);
    PrefixedDisjoint(one, none);
    PrefixedSize(one, true);
    PrefixedSize(none, false);
  }

  lemma {:induction false} NoneFewer(n: nat)
    ensures Exactly(n, -1) == {}
  {
  }

  lemma {:induction false} FewerCount(n: nat, k: nat)
    ensures |Fewer(n, k)| == ChooseBelow(n, k)
  {
    if k == 0 {
      assert Fewer(n, k) == {};
    } else {
      FewerCount(n, k - 1);
      ExactCount(n, k - 1);
      assert Fewer(n, k) == Fewer(n, k - 1) + Exactly(n, k - 1);
      assert Fewer(n, k - 1) !! Exactly(n, k - 1);
    }
  }

  /** The patterns that put the point outside [x(k), x(n+1-k)]: fewer than k values on one side. */
  function Misses(n: nat, k: nat): set<Pattern> {
    set p | p in Patterns(n) && (Below(p) < k || n - Below(p) < k)
  }

  lemma {:induction false} MissCount(n: nat, k: nat)
    requires 2 * k <= n + 1
    ensures |Misses(n, k)| == 2 * ChooseBelow(n, k)
  {
    FewerCount(n, k);
    FewerCount(n, n + 1 - k);
    ChooseBelowComplement(n, k);
    PatternCount(n);
    MissParts(n, k);
    PartSizes(Fewer(n, k), Fewer(n, n + 1 - k), Patterns(n));
  }

  lemma {:induction false} MissParts(n: nat, k: nat)
    requires 2 * k <= n + 1
    ensures Misses(n, k) == Fewer(n, k) + (Patterns(n) - Fewer(n, n + 1 - k))
    ensures Fewer(n, k) <= Fewer(n, n + 1 - k) <= Patterns(n)
  {
  }

  lemma {:induction false} PartSizes(few: set<Pattern>, notMany: set<Pattern>, all: set<Pattern>)
    requires few <= notMany <= all
    ensures |few + (all - notMany)| == |few| + |all| - |notMany|
  {
    assert all == notMany + (all - notMany);
  }

  /** The share of patterns that miss is what the tails sum to. */
  lemma {:induction false} MissShare(n: nat, k: nat)
    requires 1 <= k && 2 * k <= n + 1
    ensures |Patterns(n)| == Pow2(n) && |Misses(n, k)| == 2 * ChooseBelow(n, k)
    ensures |Misses(n, k)| as real / |Patterns(n)| as real == 2.0 * HalfCdf(n, k - 1)
  {
    MissCount(n, k);
    PatternCount(n);
    CdfIsShare(n, k);
  }

  lemma {:induction false} CdfIsShare(n: nat, k: nat)
    ensures (2 * ChooseBelow(n, k)) as real / Pow2(n) as real == 2.0 * HalfCdf(n, k - 1)
  {
    ChooseBelowIsCdf(n, k);
    ScaledIsProduct(n, HalfCdf(n, k - 1));
    ShareOf(HalfCdf(n, k - 1), ChooseBelow(n, k), Pow2(n));
  }

  lemma {:induction false} ShareOf(p: real, count: nat, whole: nat)
    requires whole > 0 && count as real == whole as real * p
    ensures (2 * count) as real / whole as real == 2.0 * p
  {
    var w := whole as real;
    assert (2 * count) as real == (2.0 * p) * w;
    assert (2.0 * p) * w / w == 2.0 * p;
  }

  /** Does a value fall below the point? A tie does if ties do. */
  predicate Falls(value: real, point: real, ties: bool) { value < point || (ties && value == point) }

  /** How the values fall around a point, all ties one way. */
  function Sides(values: seq<real>, point: real, ties: bool): (p: Pattern)
    ensures Length(p) == |values|
  {
    if values == [] then Nothing else Fall(Falls(values[0], point, ties), Sides(values[1..], point, ties))
  }

  lemma {:induction false} InsertSides(x: real, s: seq<real>, point: real, ties: bool)
    requires Ascending(s)
    ensures Below(Sides(InsertReal(x, s), point, ties)) ==
      Below(Sides(s, point, ties)) + (if Falls(x, point, ties) then 1 else 0)
  {
    if s != [] {
      if x <= s[0] {
        assert ([x] + s)[1..] == s;
      } else {
        var rest := InsertReal(x, s[1..]);
        InsertSides(x, s[1..], point, ties);
        assert ([s[0]] + rest)[1..] == rest;
      }
    }
  }

  lemma {:induction false} SortSides(values: seq<real>, point: real, ties: bool)
    ensures Below(Sides(SortReals(values), point, ties)) == Below(Sides(values, point, ties))
  {
    if values != [] {
      SortSides(values[1..], point, ties);
      InsertSides(values[0], SortReals(values[1..]), point, ties);
    }
  }

  lemma {:induction false} SortedSides(s: seq<real>, point: real, ties: bool, i: nat)
    requires Ascending(s) && i < |s|
    ensures Falls(s[i], point, ties) <==> i < Below(Sides(s, point, ties))
  {
    if i > 0 {
      SortedSides(s[1..], point, ties, i - 1);
      AscendingAt(s, 0, i);
    } else if !Falls(s[0], point, ties) {
      NoneBelow(s, point, ties);
    }
  }

  lemma {:induction false} NoneBelow(s: seq<real>, point: real, ties: bool)
    requires Ascending(s) && (s != [] ==> !Falls(s[0], point, ties))
    ensures Below(Sides(s, point, ties)) == 0
  {
    if |s| > 1 {
      NoneBelow(s[1..], point, ties);
    }
  }

  /** The ways the values may be said to fall around a point: those that tie, either way. */
  predicate Resolves(p: Pattern, values: seq<real>, point: real) {
    match p
    case Nothing => values == []
    case Fall(below, rest) =>
      && values != [] && (values[0] < point ==> below) && (values[0] > point ==> !below)
      && Resolves(rest, values[1..], point)
  }

  lemma {:induction false} ResolvedBetween(p: Pattern, values: seq<real>, point: real)
    requires Resolves(p, values, point)
    ensures Length(p) == |values|
    ensures Below(Sides(values, point, false)) <= Below(p) <= Below(Sides(values, point, true))
  {
    if values != [] { ResolvedBetween(p.rest, values[1..], point); }
  }

  /** Without a tie there is one way. */
  lemma {:induction false} ResolvedOnce(p: Pattern, values: seq<real>, point: real)
    requires point !in values
    ensures Resolves(p, values, point) <==> p == Sides(values, point, false)
  {
    if values != [] {
      assert values[0] != point;
      if p.Fall? { ResolvedOnce(p.rest, values[1..], point); }
    }
  }

  /** Ties can be said to fall so that any number in between is below. */
  lemma {:induction false} ResolveWith(values: seq<real>, point: real, count: nat) returns (p: Pattern)
    requires Below(Sides(values, point, false)) <= count <= Below(Sides(values, point, true))
    ensures Resolves(p, values, point) && Below(p) == count
  {
    if values == [] {
      p := Nothing;
    } else {
      var rest := values[1..];
      StrictIsFewer(rest, point);
      var below := values[0] < point || (values[0] == point && count > Below(Sides(rest, point, true)));
      var q := ResolveWith(rest, point, if below then count - 1 else count);
      p := Fall(below, q);
    }
  }

  lemma {:induction false} StrictIsFewer(values: seq<real>, point: real)
    ensures Below(Sides(values, point, false)) <= Below(Sides(values, point, true)) <= |values|
  {
    if values != [] { StrictIsFewer(values[1..], point); }
  }

  /** Every way misses exactly when too few values are at or below the point, or too few are at or above it. */
  lemma {:induction false} AllMissIff(values: seq<real>, point: real, k: nat)
    requires 2 * k <= |values|
    ensures AllMiss(values, point, k) <==>
      Below(Sides(values, point, true)) < k || |values| - Below(Sides(values, point, false)) < k
  {
    var least, most, n := Below(Sides(values, point, false)), Below(Sides(values, point, true)), |values|;
    StrictIsFewer(values, point);
    if most < k || n - least < k {
      forall p | Resolves(p, values, point) ensures p in Misses(n, k) {
        ResolvedBetween(p, values, point);
        PatternsAreAll(n, p);
      }
    } else {
      var p := ResolveWith(values, point, if least > k then least else k);
      ResolvedBetween(p, values, point);
      assert p !in Misses(n, k);
    }
  }

  ghost predicate AllMiss(values: seq<real>, point: real, k: nat) {
    forall p | Resolves(p, values, point) :: p in Misses(|values|, k)
  }

  /** No interval exactly when even [min, max] misses too often: 2^-n exceeds the tail. */
  lemma {:induction false} TooFewExactly(values: seq<real>, confidence: real)
    requires 0.0 < confidence < 1.0
    ensures IntervalOf(values, confidence) == TooFew <==> HalfToThe(|values|) > Tail(confidence)
  {
    NoRankExactly(|values|, Tail(confidence));
  }

  lemma {:induction false} NoRankExactly(n: nat, tail: real)
    requires tail > 0.0
    ensures Rank(n, tail) == 0 <==> HalfToThe(n) > tail
  {
    ProbOfNone(n);
    var k := Rank(n, tail);
    if k > 0 { HalfCdfMonotone(n, 0, k - 1); }
  }

  /** The returned ends are the order statistics x(k) and x(n+1-k) of the largest rank, and enclose the median. */
  lemma {:induction false} IntervalEnds(values: seq<real>, confidence: real) returns (k: nat, sorted: seq<real>)
    requires IntervalOf(values, confidence).Interval?
    ensures 0.0 < confidence < 1.0
    ensures k == Rank(|values|, Tail(confidence)) && 1 <= k && 2 * k <= |values|
    ensures sorted == SortReals(values)
    ensures IntervalOf(values, confidence).interval ==
      MedianInterval(Median(values), sorted[k - 1], sorted[|values| - k], 1.0 - 2.0 * HalfCdf(|values|, k - 1),
        |values|)
  {
    k := Rank(|values|, Tail(confidence));
    RankStaysBelowMiddle(|values|, Tail(confidence), k);
    sorted := SortReals(values);
  }

  /** A point lies outside the interval exactly when its pattern misses, whichever way its ties are said to fall. */
  lemma {:induction false} IntervalMisses(values: seq<real>, confidence: real, point: real)
    requires IntervalOf(values, confidence).Interval?
    ensures
      var i := IntervalOf(values, confidence).interval;
      point < i.lo || point > i.hi <==> AllMiss(values, point, Rank(|values|, Tail(confidence)))
    ensures point !in values ==> forall p :: Resolves(p, values, point) <==> p == Sides(values, point, false)
  {
    var k, sorted := IntervalEnds(values, confidence);
    OutsideIff(values, sorted, point, k);
    AllMissIff(values, point, k);
    if point !in values {
      forall p
        ensures Resolves(p, values, point) <==> p == Sides(values, point, false)
      {
        ResolvedOnce(p, values, point);
      }
    }
  }

  lemma {:induction false} OutsideIff(values: seq<real>, sorted: seq<real>, point: real, k: nat)
    requires sorted == SortReals(values) && 1 <= k <= |values|
    ensures point < sorted[k - 1] <==> Below(Sides(values, point, true)) < k
    ensures point > sorted[|values| - k] <==> |values| - Below(Sides(values, point, false)) < k
  {
    SortSides(values, point, true);
    SortSides(values, point, false);
    SortedSides(sorted, point, true, k - 1);
    SortedSides(sorted, point, false, |values| - k);
  }

  /**
   * Of the 2^n patterns exactly 2 * (Choose(n, 0) + ... + Choose(n, k - 1)) put a point outside the interval. That is
   * the coverage returned, it is at least the confidence asked for, and no larger rank covers enough.
   */
  lemma {:induction false} CoverageIsExact(values: seq<real>, confidence: real)
    requires IntervalOf(values, confidence).Interval?
    ensures
      var n, k, i := |values|, Rank(|values|, Tail(confidence)), IntervalOf(values, confidence).interval;
      && |Patterns(n)| == Pow2(n) && |Misses(n, k)| == 2 * ChooseBelow(n, k)
      && i.coverage == 1.0 - |Misses(n, k)| as real / |Patterns(n)| as real
      && i.coverage >= confidence
      && forall j | k < j && 2 * j <= n + 1 :: 1.0 - |Misses(n, j)| as real / |Patterns(n)| as real < confidence
  {
    var k, sorted := IntervalEnds(values, confidence);
    var n := |values|;
    MissShare(n, k);
    forall j | k < j && 2 * j <= n + 1
      ensures 1.0 - |Misses(n, j)| as real / |Patterns(n)| as real < confidence
    {
      MissShare(n, j);
      assert HalfCdf(n, j - 1) > Tail(confidence);
    }
  }

  lemma {:induction false} MedianInside(values: seq<real>, confidence: real)
    requires IntervalOf(values, confidence).Interval?
    ensures
      var i := IntervalOf(values, confidence).interval;
      i.lo <= i.median <= i.hi
  {
    var k, s := IntervalEnds(values, confidence);
    MiddleInside(s, k);
  }

  lemma {:induction false} MiddleInside(s: seq<real>, k: nat)
    requires Ascending(s) && 1 <= k && 2 * k <= |s| + 1
    ensures s[k - 1] <= Middle(s) <= s[|s| - k]
  {
    var n := |s|;
    AscendingAt(s, k - 1, (n - 1) / 2);
    AscendingAt(s, (n - 1) / 2, n / 2);
    AscendingAt(s, n / 2, n - k);
  }
}
