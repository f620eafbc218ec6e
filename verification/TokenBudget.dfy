/** Truncating text to a token budget by binary search over character positions. */
module TokenBudget {

  /** Any tokenizer: a count for every text. */
  type Tokenizer = string -> int

  datatype TruncationStrategy = TAIL | HEAD | MIDDLE

  datatype Outcome =
    | Result(text: string, originalTokens: int, finalTokens: int, wasTruncated: bool)
    | BudgetExceeded(tokens: int, budget: int)

  function Prefix(text: string, k: nat): (p: string)
    requires k <= |text|
    ensures |p| == k
  {
    text[..k]
  }

  function Suffix(text: string, k: nat): (s: string)
    requires k <= |text|
    ensures |s| == k
  {
    text[|text| - k..]
  }

  /** Longer prefixes never count less. */
  ghost predicate PrefixMonotone(count: Tokenizer, text: string) {
    forall i, j :: 0 <= i <= j <= |text| ==> count(Prefix(text, i)) <= count(Prefix(text, j))
  }

  ghost predicate SuffixMonotone(count: Tokenizer, text: string) {
    forall i, j :: 0 <= i <= j <= |text| ==> count(Suffix(text, i)) <= count(Suffix(text, j))
  }

  /** best is the longest prefix of text within the budget, or empty if none fits. */
  ghost predicate LongestPrefix(best: string, text: string, budget: int, count: Tokenizer) {
    && |best| <= |text| && best == Prefix(text, |best|)
    && (best == [] || count(best) <= budget)
    && forall k :: |best| < k <= |text| ==> count(Prefix(text, k)) > budget
  }

  ghost predicate LongestSuffix(best: string, text: string, budget: int, count: Tokenizer) {
    && |best| <= |text| && best == Suffix(text, |best|)
    && (best == [] || count(best) <= budget)
    && forall k :: |best| < k <= |text| ==> count(Suffix(text, k)) > budget
  }

  method BinarySearchPrefix(text: string, budget: int, count: Tokenizer) returns (best: string)
    ensures |best| <= |text| && best == Prefix(text, |best|) && (best == [] || count(best) <= budget)
    ensures PrefixMonotone(count, text) ==> LongestPrefix(best, text, budget, count)
  {
    var lo, hi := 0, |text|;
    best := "";
    while lo <= hi
      invariant 0 <= lo <= hi + 1 <= |text| + 1
      invariant lo == 0 ==> best == []
      invariant lo > 0 ==> best == Prefix(text, lo - 1) && count(best) <= budget
      invariant PrefixMonotone(count, text) ==> forall k :: hi < k <= |text| ==> count(Prefix(text, k)) > budget
      decreases hi - lo
    {
      var mid := (lo + hi) / 2;
      var candidate := Prefix(text, mid);
      if count(candidate) <= budget {
        best := candidate;
        lo := mid + 1;
      } else {
        hi := mid - 1;
      }
    }
  }

  method BinarySearchSuffix(text: string, budget: int, count: Tokenizer) returns (best: string)
    ensures |best| <= |text| && best == Suffix(text, |best|) && (best == [] || count(best) <= budget)
    ensures SuffixMonotone(count, text) ==> LongestSuffix(best, text, budget, count)
  {
    var lo, hi := 0, |text|;
    best := "";
    while lo <= hi
      invariant 0 <= lo <= hi + 1 <= |text| + 1
      invariant lo == 0 ==> best == []
      invariant lo > 0 ==> best == Suffix(text, lo - 1) && count(best) <= budget
      invariant SuffixMonotone(count, text) ==> forall k :: hi < k <= |text| ==> count(Suffix(text, k)) > budget
      decreases hi - lo
    {
      var mid := (lo + hi) / 2;
      var candidate := Suffix(text, mid);
      if count(candidate) <= budget {
        best := candidate;
        lo := mid + 1;
      } else {
        hi := mid - 1;
      }
    }
  }

  /** The two ends of a text that MIDDLE keeps: half of the budget for each, the odd token for the end. */
  ghost predicate Ends(prefix: string, suffix: string, text: string, budget: int, count: Tokenizer) {
    LongestPrefix(prefix, text, budget / 2, count) && LongestSuffix(suffix, text, budget - budget / 2, count)
  }

  /** What each strategy keeps of a text that is too long, for a monotone tokenizer. */
  ghost predicate Truncation(kept: string, text: string, budget: int, count: Tokenizer, strategy: TruncationStrategy) {
    match strategy
    case TAIL => LongestPrefix(kept, text, budget, count)
    case HEAD => LongestSuffix(kept, text, budget, count)
    case MIDDLE =>
      exists prefix, suffix :: kept == prefix + "..." + suffix && Ends(prefix, suffix, text, budget, count)
  }

  method TruncateByStrategy(text: string, budget: int, count: Tokenizer, strategy: TruncationStrategy)
    returns (kept: string)
    ensures PrefixMonotone(count, text) && SuffixMonotone(count, text) ==>
            Truncation(kept, text, budget, count, strategy)
    ensures strategy != MIDDLE ==> kept == [] || count(kept) <= budget
  {
    match strategy
    case TAIL => kept := BinarySearchPrefix(text, budget, count);
    case HEAD => kept := BinarySearchSuffix(text, budget, count);
    case MIDDLE =>
      var halfBudget := budget / 2;
      var prefix := BinarySearchPrefix(text, halfBudget, count);
      var suffix := BinarySearchSuffix(text, budget - halfBudget, count);
      kept := prefix + "..." + suffix;
  }

  method TruncateToBudget(text: string, budget: int, count: Tokenizer, strategy: TruncationStrategy, strict: bool)
    returns (r: Outcome)
    ensures count(text) <= budget ==> r == Result(text, count(text), count(text), false)
    ensures count(text) > budget && strict ==> r == BudgetExceeded(count(text), budget)
    ensures count(text) > budget && !strict ==>
              && r.Result? && r == Result(r.text, count(text), count(r.text), true)
              && (PrefixMonotone(count, text) && SuffixMonotone(count, text) ==>
                Truncation(r.text, text, budget, count, strategy))
  {
    var originalCount := count(text);
    if originalCount <= budget {
      return Result(text, originalCount, originalCount, false);
    }
    if strict {
      return BudgetExceeded(originalCount, budget);
    }
    var truncated := TruncateByStrategy(text, budget, count, strategy);
    var finalCount := count(truncated);
    r := Result(truncated, originalCount, finalCount, true);
  }

  /******* The character estimator *******/

  function Max(a: int, b: int): int {
    if a >= b then a else b
  }

  function Min(a: int, b: int): int {
    if a <= b then a else b
  }

  function EstimateFor(length: nat, ratio: real): int
    requires ratio > 0.0
  {
    if length == 0 then 0 else Max(1, (length as real / ratio + 0.5).Floor)
  }

  function CharEstimator(ratio: real): Tokenizer
    requires ratio > 0.0
  {
    (text: string) => EstimateFor(|text|, ratio)
  }

  function Ceiling(x: real): int {
    -((-x).Floor)
  }

  lemma QuotientMonotone(a: real, b: real, ratio: real)
    requires a <= b && ratio > 0.0
    ensures a / ratio <= b / ratio
  {
    var x, y := a / ratio, b / ratio;
    assert x * ratio == a && y * ratio == b;
    assert (y - x) * ratio >= 0.0;
    if y < x {
      NegativeProduct(y - x, ratio);
    }
  }

  lemma NegativeProduct(a: real, b: real)
    requires a < 0.0 && b > 0.0
    ensures a * b < 0.0
  {
  }

  lemma EstimateMonotone(n: nat, m: nat, ratio: real)
    requires n <= m && ratio > 0.0
    ensures EstimateFor(n, ratio) <= EstimateFor(m, ratio)
  {
    QuotientMonotone(n as real, m as real, ratio);
  }

  lemma EstimatorIsMonotone(ratio: real, text: string)
    requires ratio > 0.0
    ensures PrefixMonotone(CharEstimator(ratio), text) && SuffixMonotone(CharEstimator(ratio), text)
  {
    forall i, j | 0 <= i <= j <= |text|
      ensures CharEstimator(ratio)(Prefix(text, i)) <= CharEstimator(ratio)(Prefix(text, j))
      ensures CharEstimator(ratio)(Suffix(text, i)) <= CharEstimator(ratio)(Suffix(text, j))
    {
      EstimateMonotone(i, j, ratio);
    }
  }

  /** The longest length that fits, in closed form. */
  function FittingLength(ratio: real, budget: int): int {
    Ceiling(ratio * (budget as real + 0.5)) - 1
  }

  /** For a positive budget a length fits iff it does not exceed the closed form. */
  lemma FitsIff(n: nat, ratio: real, budget: int)
    requires ratio > 0.0 && budget >= 1
    ensures EstimateFor(n, ratio) <= budget <==> n <= FittingLength(ratio, budget)
  {
    var limit := ratio * (budget as real + 0.5);
    var q := n as real / ratio;
    assert q * ratio == n as real;
    assert limit > 0.0;
    assert q < budget as real + 0.5 <==> n as real < limit by {
      var gap := budget as real + 0.5 - q;
      assert limit - n as real == gap * ratio;
      SignOfProduct(gap, ratio);
    }
    assert n as real < limit <==> n <= Ceiling(limit) - 1;
    assert (q + 0.5).Floor <= budget <==> q + 0.5 < budget as real + 1.0;
  }

  lemma SignOfProduct(a: real, b: real)
    requires b > 0.0
    ensures a > 0.0 <==> a * b > 0.0
  {
    if a <= 0.0 {
      NonPositiveProduct(a, b);
    }
  }

  lemma NonPositiveProduct(a: real, b: real)
    requires a <= 0.0 && b > 0.0
    ensures a * b <= 0.0
  {
  }

  /** With the character estimator and a positive budget, truncation at either end keeps
      min(length, ceil(ratio * (budget + 1/2)) - 1) characters. */
  lemma KeptLength(best: string, text: string, ratio: real, budget: int)
    requires ratio > 0.0 && budget >= 1
    requires LongestPrefix(best, text, budget, CharEstimator(ratio)) ||
             LongestSuffix(best, text, budget, CharEstimator(ratio))
    ensures |best| == Min(|text|, FittingLength(ratio, budget))
  {
    FitsIff(|best|, ratio, budget);
    FitsIff(0, ratio, budget);
    if |best| < |text| {
      var k := |best| + 1;
      FitsIff(k, ratio, budget);
      assert |Prefix(text, k)| == k && |Suffix(text, k)| == k;
      assert EstimateFor(k, ratio) > budget;
    }
  }

  /** MIDDLE never meets the budget: because the dots are not budgeted, whatever it truncates is still over, at every
      ratio and for every budget. */
  lemma MiddleStaysOver(kept: string, text: string, ratio: real, budget: int)
    requires ratio > 0.0
    ensures CharEstimator(ratio)(text) > budget && Truncation(kept, text, budget, CharEstimator(ratio), MIDDLE) ==>
              CharEstimator(ratio)(kept) > budget
  {
    if CharEstimator(ratio)(text) > budget && Truncation(kept, text, budget, CharEstimator(ratio), MIDDLE) {
      var prefix, suffix :| kept == prefix + "..." + suffix && Ends(prefix, suffix, text, budget, CharEstimator(ratio));
      assert |kept| == |prefix| + 3 + |suffix|;
      if budget >= 1 {
        EndsStayOver(prefix, suffix, text, ratio, budget);
        FitsIff(|kept|, ratio, budget);
      }
    }
  }

  lemma EndsStayOver(prefix: string, suffix: string, text: string, ratio: real, budget: int)
    requires ratio > 0.0 && budget >= 1 && EstimateFor(|text|, ratio) > budget
    requires Ends(prefix, suffix, text, budget, CharEstimator(ratio))
    ensures |prefix| + 3 + |suffix| > FittingLength(ratio, budget)
  {
    var half, other := budget / 2, budget - budget / 2;
    FitsIff(|text|, ratio, budget);
    FittingMonotone(ratio, other, budget);
    assert |suffix| == FittingLength(ratio, other) by {
      KeptLength(suffix, text, ratio, other);
    }
    if half >= 1 {
      FittingMonotone(ratio, half, budget);
      assert |prefix| == FittingLength(ratio, half) by {
        KeptLength(prefix, text, ratio, half);
      }
      HalvesExceed(ratio, half, other);
    }
  }

  lemma FittingMonotone(ratio: real, a: int, b: int)
    requires ratio > 0.0 && a <= b
    ensures FittingLength(ratio, a) <= FittingLength(ratio, b)
  {
    var gap := (b - a) as real;
    assert ratio * (b as real + 0.5) - ratio * (a as real + 0.5) == gap * ratio;
    if gap > 0.0 {
      SignOfProduct(gap, ratio);
    }
  }

  /** What two budgets fit, and three characters more, is more than their sum fits. */
  lemma HalvesExceed(ratio: real, a: int, b: int)
    requires ratio > 0.0
    ensures FittingLength(ratio, a) + FittingLength(ratio, b) + 3 > FittingLength(ratio, a + b)
  {
    var x, y, z := ratio * (a as real + 0.5), ratio * (b as real + 0.5), ratio * ((a + b) as real + 0.5);
    assert x + y == z + ratio * 0.5;
    CeilingsExceed(x, y, z);
  }

  lemma CeilingsExceed(x: real, y: real, z: real)
    requires x + y >= z
    ensures Ceiling(x) + Ceiling(y) >= Ceiling(z)
  {
  }

  /******* The default ratio *******/

  lemma RatioFour(n: nat)
    ensures EstimateFor(n, 4.0) == if n == 0 then 0 else Max(1, (n + 2) / 4)
  {
    var q := n as real / 4.0 + 0.5;
    var m := (n + 2) / 4;
    assert m as real <= q < (m + 1) as real;
  }

  lemma KeptAtRatioFour(best: string, text: string, budget: int)
    requires budget >= 0
    requires LongestPrefix(best, text, budget, CharEstimator(4.0)) ||
             LongestSuffix(best, text, budget, CharEstimator(4.0))
    ensures |best| == Min(|text|, if budget == 0 then 0 else 4 * budget + 1)
  {
    RatioFour(|best|);
    if |best| < |text| {
      var k := |best| + 1;
      RatioFour(k);
      assert |Prefix(text, k)| == k && |Suffix(text, k)| == k;
      assert EstimateFor(k, 4.0) > budget;
    }
  }

  /** At the default ratio it ends exactly one token over. */
  lemma MiddleEndsOneOver(kept: string, text: string, budget: int)
    requires budget >= 0 && CharEstimator(4.0)(text) > budget
    requires Truncation(kept, text, budget, CharEstimator(4.0), MIDDLE)
    ensures CharEstimator(4.0)(kept) == budget + 1
  {
    var prefix, suffix :| kept == prefix + "..." + suffix && Ends(prefix, suffix, text, budget, CharEstimator(4.0));
    EndsOneOver(prefix, suffix, text, budget);
  }

  lemma EndsOneOver(prefix: string, suffix: string, text: string, budget: nat)
    requires CharEstimator(4.0)(text) > budget && Ends(prefix, suffix, text, budget, CharEstimator(4.0))
    ensures CharEstimator(4.0)(prefix + "..." + suffix) == budget + 1
  {
    assert |prefix| + 3 + |suffix| == MiddleKeeps(budget) by { MiddleLength(prefix, suffix, text, budget); }
    DotsLength(prefix, suffix, budget);
  }

  lemma DotsLength(prefix: string, suffix: string, budget: nat)
    requires |prefix| + 3 + |suffix| == MiddleKeeps(budget)
    ensures CharEstimator(4.0)(prefix + "..." + suffix) == budget + 1
  {
    OneOver(|prefix + "..." + suffix|, budget);
  }

  function MiddleKeeps(budget: nat): nat {
    if budget == 0 then 3 else if budget == 1 then 8 else 4 * budget + 5
  }

  lemma MiddleLength(prefix: string, suffix: string, text: string, budget: nat)
    requires EstimateFor(|text|, 4.0) > budget
    requires LongestPrefix(prefix, text, budget / 2, CharEstimator(4.0))
    requires LongestSuffix(suffix, text, budget - budget / 2, CharEstimator(4.0))
    ensures |prefix| + 3 + |suffix| == MiddleKeeps(budget)
  {
    KeptAtRatioFour(prefix, text, budget / 2);
    KeptAtRatioFour(suffix, text, budget - budget / 2);
    assert |text| >= 4 * budget + 2 || budget == 0 by {
      RatioFour(|text|);
    }
  }

  lemma OneOver(n: nat, budget: nat)
    requires n == MiddleKeeps(budget)
    ensures EstimateFor(n, 4.0) == budget + 1
  {
    RatioFour(n);
  }
}
