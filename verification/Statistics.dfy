/** `clustering`: the exact tail probabilities behind the review patterns. */
module Statistics {
  import opened Combinatorics
  import Sorting

  function Clamp01(x: real): real {
    var y := if x < 0.0 then 0.0 else x;
    if y < 1.0 then y else 1.0
  }

  // ----- binomial tail

  function ClampCount(k: int, n: nat): nat {
    var low := if k < n then k else n;
    if low < 0 then 0 else low
  }

  /** The unclamped sum: P(X >= k), or P(X <= k). */
  function TailSum(k: nat, n: nat, p: real, upper: bool): real
    requires k <= n
  {
    if upper then Terms(p, 1.0 - p, n, k, n + 1) else Terms(p, 1.0 - p, n, 0, k + 1)
  }

  /** `binom_tail` */
  function BinomTail(k: int, n: int, p: real, upper: bool): real {
    if n <= 0 || !(0.0 < p < 1.0) then 1.0
    else Clamp01(TailSum(ClampCount(k, n), n, p, upper))
  }

  /** The sum is a probability already: positive, at most one, and the clamp never changes it. */
  lemma BinomTailIsProbability(k: int, n: int, p: real, upper: bool)
    requires n > 0 && 0.0 < p < 1.0
    ensures var sum := TailSum(ClampCount(k, n), n, p, upper);
            0.0 < sum <= 1.0 && BinomTail(k, n, p, upper) == sum
  {
    var c, q := ClampCount(k, n), 1.0 - p;
    BinomialTheorem(p, q, n);
    PowerOfOne(n);
    if upper {
      TermsSplit(p, q, n, 0, c, n + 1);
      TermsNonNegative(p, q, n, 0, c);
      TermsNonNegative(p, q, n, c, n + 1);
    } else {
      TermsSplit(p, q, n, 0, c + 1, n + 1);
      TermsNonNegative(p, q, n, 0, c + 1);
      TermsNonNegative(p, q, n, c + 1, n + 1);
    }
  }

  /** The two tails are complementary: P(X >= k) + P(X <= k - 1) == 1. */
  lemma TailsComplement(k: int, n: int, p: real)
    requires 1 <= k <= n && 0.0 < p < 1.0
    ensures BinomTail(k, n, p, true) + BinomTail(k - 1, n, p, false) == 1.0
  {
    BinomTailIsProbability(k, n, p, true);
    BinomTailIsProbability(k - 1, n, p, false);
    TermsSplit(p, 1.0 - p, n, 0, k, n + 1);
    BinomialTheorem(p, 1.0 - p, n);
    PowerOfOne(n);
  }

  /** The upper tail starts at certainty and falls strictly with the count. */
  lemma UpperTailFalls(k: int, n: int, p: real)
    requires 0 <= k < n && 0.0 < p < 1.0
    ensures BinomTail(0, n, p, true) == 1.0
    ensures BinomTail(k + 1, n, p, true) < BinomTail(k, n, p, true)
  {
    BinomTailIsProbability(0, n, p, true);
    BinomTailIsProbability(k, n, p, true);
    BinomTailIsProbability(k + 1, n, p, true);
    BinomialTheorem(p, 1.0 - p, n);
    PowerOfOne(n);
    TermsSplit(p, 1.0 - p, n, k, k + 1, n + 1);
    TermsNonNegative(p, 1.0 - p, n, k, k + 1);
  }

  /** The upper tail, step by step: from one count to the next it loses exactly the probability of that count; at the
      top it is that of success throughout, at the bottom certainty, and at one that of any success at all. */
  lemma UpperTailSteps(k: int, n: int, p: real)
    requires 0 <= k < n && 0.0 < p < 1.0
    ensures BinomTail(k, n, p, true) - BinomTail(k + 1, n, p, true)
         == Comb(n, k) as real * Power(p, k) * Power(1.0 - p, n - k)
    ensures forall j: int | j >= n :: BinomTail(j, n, p, true) == Power(p, n)
    ensures forall j: int | j <= 0 :: BinomTail(j, n, p, true) == 1.0
    ensures BinomTail(1, n, p, true) == 1.0 - Power(1.0 - p, n)
    ensures BinomTail(1, 1, p, true) == p
  {
    var q := 1.0 - p;
    TailSteps(k, n, p);
    UpperTailIs(n, n, p);
    UpperTailIs(0, n, p);
    assert forall j: int | j >= n :: BinomTail(j, n, p, true) == BinomTail(n, n, p, true);
    assert forall j: int | j <= 0 :: BinomTail(j, n, p, true) == BinomTail(0, n, p, true);
    UpperTailIs(1, n, p);
    UpperTailIs(1, 1, p);
    CombAll(n);
    PowerFacts(p);
    PowerFacts(q);
    hide BinomTail, Terms, Comb, Power;
    OneTerm(p, q, n, n);
    OneTerm(p, q, 1, 1);
    OneTerm(p, q, n, 0);
    TermsSplit(p, q, n, 0, 1, n + 1);
    BinomialTheorem(p, q, n);
    PowerOfOne(n);
  }

  lemma UpperTailIs(k: nat, n: nat, p: real)
    requires k <= n && n > 0 && 0.0 < p < 1.0
    ensures BinomTail(k, n, p, true) == Terms(p, 1.0 - p, n, k, n + 1)
  {
    hide Terms;
    BinomTailIsProbability(k, n, p, true);
  }

  lemma TailSteps(k: nat, n: nat, p: real)
    requires k < n && 0.0 < p < 1.0
    ensures BinomTail(k, n, p, true) - BinomTail(k + 1, n, p, true)
         == Comb(n, k) as real * Power(p, k) * Power(1.0 - p, n - k)
  {
    hide BinomTail, Terms, Comb, Power;
    var q := 1.0 - p;
    UpperTailIs(k, n, p);
    UpperTailIs(k + 1, n, p);
    TermsSplit(p, q, n, k, k + 1, n + 1);
    OneTerm(p, q, n, k);
    assert BinomTail(k, n, p, true) - BinomTail(k + 1, n, p, true) == Terms(p, q, n, k, k + 1);
  }

  lemma PowerFacts(x: real)
    ensures Power(x, 1) == x && Power(x, 0) == 1.0 && Comb(1, 1) == 1 && forall n: nat :: Comb(n, 0) == 1
  {
    assert Power(x, 1) == x * Power(x, 0);
    assert Comb(1, 1) == Comb(0, 0) + Comb(0, 1);
  }

  lemma OneTerm(x: real, y: real, n: nat, i: nat)
    requires i <= n
    ensures Terms(x, y, n, i, i + 1) == Comb(n, i) as real * Power(x, i) * Power(y, n - i)
  {
    assert Terms(x, y, n, i, i + 1) == 0.0 + Term(x, y, n, i);
  }

  /** A tail is certain exactly when there is nothing to test, the chance is none, or the count asks for nothing. */
  lemma TailIsCertain(k: int, n: int, p: real, upper: bool)
    ensures BinomTail(k, n, p, upper) == 1.0 <==> n <= 0 || p <= 0.0 || p >= 1.0 || (if upper then k <= 0 else k >= n)
  {
    if n > 0 && 0.0 < p < 1.0 {
      var c := ClampCount(k, n);
      assert BinomTail(k, n, p, upper) == BinomTail(c, n, p, upper);
      BinomialTheorem(p, 1.0 - p, n);
      PowerOfOne(n);
      BinomTailIsProbability(c, n, p, upper);
      hide Terms, ClampCount;
      if upper && c > 0 {
        TailsComplement(c, n, p);
        BinomTailIsProbability(c - 1, n, p, false);
      } else if !upper && c < n {
        TailsComplement(c + 1, n, p);
        BinomTailIsProbability(c + 1, n, p, true);
      }
    }
  }

  /** More success per trial makes every count more likely to be reached. */
  lemma UpperTailGrows(k: int, n: int, p: real, q: real)
    requires 1 <= k <= n && 0.0 < p < q < 1.0
    ensures BinomTail(k, n, p, true) < BinomTail(k, n, q, true)
  {
    BinomTailIsProbability(k, n, p, true);
    BinomTailIsProbability(k, n, q, true);
    LastTermsGrow(k, n, p, 1.0 - p, q, 1.0 - q);
  }

  lemma {:induction false} LastTermsGrow(k: nat, n: nat, p: real, p': real, q: real, q': real)
    requires k <= n + 1 && 0.0 < p < q < 1.0 && p' == 1.0 - p && q' == 1.0 - q
    ensures Terms(p, p', n, k, n + 1) <= Terms(q, q', n, k, n + 1)
    ensures 1 <= k <= n ==> Terms(p, p', n, k, n + 1) < Terms(q, q', n, k, n + 1)
  {
    hide Terms;
    if k == 0 {
      BinomialTheorem(p, p', n);
      BinomialTheorem(q, q', n);
      assert p + p' == q + q' == 1.0;
    } else if k <= n {
      var m := n - 1;
      LastTermsGrow(k - 1, m, p, p', q, q');
      LastTermsGrow(k, m, p, p', q, q');
      var a, b := LastTermsStep(p, p', m, k - 1);
      var c, d := LastTermsStep(q, q', m, k - 1);
      LastTermsFall(q, q', m, k);
      MixGrows(p, p', q, q', a, b, c, d);
    } else {
      NoTerms(p, p', n);
      NoTerms(q, q', n);
    }
  }

  lemma NoTerms(x: real, y: real, n: nat)
    ensures Terms(x, y, n, n + 1, n + 1) == 0.0
  {
  }

  lemma LastTermsFall(x: real, y: real, n: nat, k: nat)
    requires 1 <= k <= n + 1 && x > 0.0 && y > 0.0
    ensures Terms(x, y, n, k, n + 1) < Terms(x, y, n, k - 1, n + 1)
  {
    TermsSplit(x, y, n, k - 1, k, n + 1);
    TermsNonNegative(x, y, n, k - 1, k);
  }

  lemma MixGrows(p: real, p': real, q: real, q': real, a: real, b: real, c: real, d: real)
    requires 0.0 < p < q < 1.0 && p' == 1.0 - p && q' == 1.0 - q && a <= c && b <= d && c > d
    ensures p * a + p' * b < q * c + q' * d
  {
    var x, y, u, v := p * a, p' * b, p * c, p' * d;
    Scale(p, a, c);
    Scale(p', b, d);
    assert x <= u && y <= v;
    Shift(p, p', q, q', c, d);
  }

  lemma Scale(x: real, a: real, c: real)
    requires x > 0.0 && a <= c
    ensures x * a <= x * c
  {
  }

  lemma Shift(p: real, p': real, q: real, q': real, c: real, d: real)
    requires p < q && d < c && p' - q' == q - p
    ensures p * c + p' * d < q * c + q' * d
  {
    var u := q - p;
    assert u * (c - d) > 0.0;
    assert u * (c - d) == u * c - u * d;
    assert u * c == q * c - p * c && u * d == p' * d - q' * d;
  }

  // ----- Fisher's exact test, one-sided

  /** One summand, zero where no table with these margins has `i` in its first cell. */
  function FisherTerm(row1: nat, rest: nat, col1: nat, i: nat): nat {
    if 0 <= col1 - i <= rest then Comb(row1, i) * Comb(rest, col1 - i) else 0
  }

  /** The terms for `i < m`. */
  function FisherSum(row1: nat, rest: nat, col1: nat, m: nat): nat {
    if m == 0 then 0 else FisherSum(row1, rest, col1, m - 1) + FisherTerm(row1, rest, col1, m - 1)
  }

  predicate EmptyMargin(a: nat, b: nat, c: nat, d: nat) {
    a + b + c + d == 0 || a + b == 0 || c + d == 0 || a + c == 0 || b + d == 0
  }

  /** `fisher_exact_less` */
  function FisherExactLess(a: nat, b: nat, c: nat, d: nat): real {
    if EmptyMargin(a, b, c, d) then 1.0
    else
      var n := a + b + c + d;
      CombPositive(n, a + c);
      Clamp01(FisherSum(a + b, c + d, a + c, a + 1) as real / Comb(n, a + c) as real)
  }

  lemma {:induction false} FisherIsConvolution(row1: nat, rest: nat, col1: nat, m: nat)
    requires m <= col1 + 1
    ensures FisherSum(row1, rest, col1, m) == Convolution(row1, rest, col1, m)
  {
    if m > 0 {
      FisherIsConvolution(row1, rest, col1, m - 1);
      var k := col1 - (m - 1);
      if k > rest { CombBeyond(rest, k); }
    }
  }

  /** Summed over every table with the same margins, the terms make up all `comb(n, col1)` choices. */
  lemma FisherSumIsAll(row1: nat, rest: nat, col1: nat)
    ensures FisherSum(row1, rest, col1, col1 + 1) == Comb(row1 + rest, col1)
  {
    FisherIsConvolution(row1, rest, col1, col1 + 1);
    Vandermonde(row1, rest, col1);
  }

  lemma DivideBounds(x: nat, y: nat)
    requires x <= y && y > 0
    ensures 0.0 <= x as real / y as real <= 1.0
  {
    var u, v := x as real, y as real;
    var q := u / v;
    assert q * v == u;
    OppositeSigns(q, v);
    OppositeSigns(1.0 - q, v);
    FromOne(q, v);
  }

  lemma FromOne(q: real, v: real)
    ensures (1.0 - q) * v == v - q * v
  {
  }

  lemma OppositeSigns(a: real, b: real)
    ensures a < 0.0 < b ==> a * b < 0.0
  {
  }

  /** The p-value is a probability before clamping, so the clamp never changes it. */
  lemma FisherIsProbability(a: nat, b: nat, c: nat, d: nat)
    requires !EmptyMargin(a, b, c, d)
    ensures var n := a + b + c + d;
            && 0 < FisherSum(a + b, c + d, a + c, a + 1) <= Comb(n, a + c)
            && FisherExactLess(a, b, c, d) == FisherSum(a + b, c + d, a + c, a + 1) as real / Comb(n, a + c) as real
    ensures 0.0 < FisherExactLess(a, b, c, d) <= 1.0
  {
    var n := a + b + c + d;
    CombPositive(n, a + c);
    FisherIsConvolution(a + b, c + d, a + c, a + 1);
    ConvolutionGrows(a + b, c + d, a + c, a + 1, a + c + 1);
    FisherIsConvolution(a + b, c + d, a + c, a + c + 1);
    FisherSumIsAll(a + b, c + d, a + c);
    CombPositive(a + b, a);
    CombPositive(c + d, c);
    ProductAtLeastOne(Comb(a + b, a), Comb(c + d, c));
    DivideBounds(FisherSum(a + b, c + d, a + c, a + 1), Comb(n, a + c));
    PositiveQuotient(FisherSum(a + b, c + d, a + c, a + 1), Comb(n, a + c));
  }

  lemma ProductAtLeastOne(x: nat, y: nat)
    requires x > 0 && y > 0
    ensures x * y > 0
  {
  }

  lemma PositiveQuotient(x: nat, y: nat)
    requires x > 0 && y > 0
    ensures x as real / y as real > 0.0
  {
  }

  /** At fixed margins the p-value grows strictly with `a`. */
  lemma FisherGrows(a: nat, b: nat, c: nat, d: nat)
    requires b > 0 && c > 0 && !EmptyMargin(a, b, c, d)
    ensures FisherExactLess(a, b, c, d) < FisherExactLess(a + 1, b - 1, c - 1, d + 1)
  {
    var row1, rest, col1 := a + b, c + d, a + c;
    FisherIsProbability(a, b, c, d);
    FisherIsProbability(a + 1, b - 1, c - 1, d + 1);
    CombPositive(row1, a + 1);
    CombPositive(rest, c - 1);
    assert FisherTerm(row1, rest, col1, a + 1) == Comb(row1, a + 1) * Comb(rest, c - 1);
    ProductAtLeastOne(Comb(row1, a + 1), Comb(rest, c - 1));
    var s, t := FisherSum(row1, rest, col1, a + 1), FisherSum(row1, rest, col1, a + 2);
    assert s < t;
    SmallerQuotient(s, t, Comb(row1 + rest, col1));
  }

  /** The p-value, step by step at fixed margins: the first table has the probability of drawing none of the first row,
      each next one adds that of its own first cell, and at the last table the p-value is one. */
  lemma FisherSteps(a: nat, b: nat, c: nat, d: nat)
    requires !EmptyMargin(a, b, c, d)
    ensures var all := Comb(a + b + c + d, a + c);
      && all > 0
      && (a == 0 ==> FisherExactLess(a, b, c, d) == Comb(c + d, c) as real / all as real)
      && (b > 0 && c > 0 ==>
            FisherExactLess(a + 1, b - 1, c - 1, d + 1) - FisherExactLess(a, b, c, d)
            == (Comb(a + b, a + 1) * Comb(c + d, c - 1)) as real / all as real)
      && (b == 0 || c == 0 ==> FisherExactLess(a, b, c, d) == 1.0)
  {
    var row1, rest, col1 := a + b, c + d, a + c;
    var all := Comb(row1 + rest, col1);
    CombPositive(row1 + rest, col1);
    FisherIsProbability(a, b, c, d);
    if a == 0 { assert FisherSum(row1, rest, col1, 1) == 0 + 1 * Comb(rest, col1); }
    if b > 0 && c > 0 {
      FisherIsProbability(a + 1, b - 1, c - 1, d + 1);
      var s, t := FisherSum(row1, rest, col1, a + 1), FisherTerm(row1, rest, col1, a + 1);
      assert FisherSum(row1, rest, col1, a + 2) == s + t;
      hide Comb, FisherSum, FisherExactLess;
      DivideSum(s, t, all);
    } else {
      FisherSumIsAll(row1, rest, col1);
      SumBeyond(row1, rest, col1, a + 1, col1 + 1);
      hide Comb, FisherSum, FisherExactLess;
      OverItself(all);
    }
  }

  /** The p-value is one exactly when no table with the same margins has more in its first cell; so it is when there is
      nothing to compare. */
  lemma FisherIsOne(a: nat, b: nat, c: nat, d: nat)
    ensures FisherExactLess(a, b, c, d) == 1.0 <==> b == 0 || c == 0
  {
    if !EmptyMargin(a, b, c, d) {
      FisherSteps(a, b, c, d);
      if b > 0 && c > 0 {
        FisherGrows(a, b, c, d);
        FisherIsProbability(a + 1, b - 1, c - 1, d + 1);
      }
    }
  }

  lemma OverItself(x: nat)
    requires x > 0
    ensures x as real / x as real == 1.0
  {
  }

  lemma DivideSum(s: nat, t: nat, y: nat)
    requires y > 0
    ensures (s + t) as real / y as real - s as real / y as real == t as real / y as real
  {
  }

  /** No table has more in its first cell than in its first row. */
  lemma {:induction false} SumBeyond(row1: nat, rest: nat, col1: nat, m: nat, n: nat)
    requires m <= n <= col1 + 1 && (row1 < m || n == m)
    ensures FisherSum(row1, rest, col1, m) == FisherSum(row1, rest, col1, n)
  {
    if m < n {
      SumBeyond(row1, rest, col1, m, n - 1);
      CombBeyond(row1, n - 1);
    }
  }

  lemma SmallerQuotient(s: nat, t: nat, y: nat)
    requires s < t && y > 0
    ensures s as real / y as real < t as real / y as real
  {
  }

  // ----- transposing the table

  /** The four cell factorials times a term give the same product however the table is read. */
  lemma TermFactorials(a: nat, b: nat, c: nat, d: nat)
    ensures Comb(a + b, a) * Comb(c + d, c) * (Factorial(a) * Factorial(b) * (Factorial(c) * Factorial(d)))
         == Factorial(a + b) * Factorial(c + d)
  {
    CombFactorial(a + b, a);
    CombFactorial(c + d, c);
    Regroup(Comb(a + b, a), Comb(c + d, c), Factorial(a) * Factorial(b), Factorial(c) * Factorial(d));
  }

  lemma Regroup(x: nat, y: nat, p: nat, q: nat)
    ensures x * y * (p * q) == (x * p) * (y * q)
  {
  }

  /** Term by term: `comb(n, row1) * term == comb(n, col1) * transposed term`. */
  lemma TermTransposes(a: nat, b: nat, c: nat, d: nat)
    ensures Comb(a + b + c + d, a + b) * (Comb(a + b, a) * Comb(c + d, c))
         == Comb(a + b + c + d, a + c) * (Comb(a + c, a) * Comb(b + d, b))
  {
    var n := a + b + c + d;
    var cells := Factorial(a) * Factorial(b) * (Factorial(c) * Factorial(d));
    CombFactorial(n, a + b);
    CombFactorial(n, a + c);
    TermFactorials(a, b, c, d);
    TermFactorials(a, c, b, d);
    var fa, fb, fc, fd := Factorial(a), Factorial(b), Factorial(c), Factorial(d);
    assert fa * fc * (fb * fd) == fa * fb * (fc * fd) by { Exchange(fa, fb, fc, fd); }
    CellsPositive(fa, fb, fc, fd);
    var x, y := Comb(n, a + b), Comb(a + b, a) * Comb(c + d, c);
    var u, v := Comb(n, a + c), Comb(a + c, a) * Comb(b + d, b);
    assert x * (y * cells) == Factorial(n);
    assert u * (v * cells) == Factorial(n);
    CancelCells(x, y, u, v, cells);
  }

  lemma Exchange(a: nat, b: nat, c: nat, d: nat)
    ensures a * c * (b * d) == a * b * (c * d)
  {
  }

  lemma CellsPositive(a: nat, b: nat, c: nat, d: nat)
    requires a > 0 && b > 0 && c > 0 && d > 0
    ensures a * b * (c * d) > 0
  {
    ProductAtLeastOne(a, b);
    ProductAtLeastOne(c, d);
    ProductAtLeastOne(a * b, c * d);
  }

  lemma CancelCells(x: nat, y: nat, u: nat, v: nat, z: nat)
    requires x * (y * z) == u * (v * z) && z > 0
    ensures x * y == u * v
  {
    assert (x * y) * z == x * (y * z);
    assert (u * v) * z == u * (v * z);
    CancelRight(x * y, u * v, z);
  }

  lemma CancelRight(x: nat, y: nat, z: nat)
    requires x * z == y * z && z > 0
    ensures x == y
  {
    if x < y { MoreTimes(x, y, z); } else if y < x { MoreTimes(y, x, z); }
  }

  lemma MoreTimes(x: nat, y: nat, z: nat)
    requires x < y && z > 0
    ensures x * z < y * z
  {
    assert y * z == x * z + (y - x) * z;
    ProductAtLeastOne(y - x, z);
  }

  lemma OneTermTransposes(row1: nat, col1: nat, n: nat, i: nat)
    requires row1 <= n && col1 <= n && i <= row1 && i <= col1
    ensures Comb(n, row1) * FisherTerm(row1, n - row1, col1, i) == Comb(n, col1) * FisherTerm(col1, n - col1, row1, i)
  {
    if col1 - i <= n - row1 {
      var b, c := row1 - i, col1 - i;
      var d := n - row1 - c;
      hide FisherTerm, Comb;
      TermTransposes(i, b, c, d);
      assert n == i + b + c + d && row1 == i + b && col1 == i + c && n - row1 == c + d && n - col1 == b + d;
    } else {
      assert FisherTerm(row1, n - row1, col1, i) == 0 && FisherTerm(col1, n - col1, row1, i) == 0;
    }
  }

  lemma {:induction false} SumTransposes(row1: nat, col1: nat, n: nat, m: nat)
    requires row1 <= n && col1 <= n && m <= row1 + 1 && m <= col1 + 1
    ensures Comb(n, row1) * FisherSum(row1, n - row1, col1, m) == Comb(n, col1) * FisherSum(col1, n - col1, row1, m)
  {
    hide FisherTerm, Comb;
    if m > 0 {
      var i := m - 1;
      SumTransposes(row1, col1, n, i);
      var x, y := FisherTerm(row1, n - row1, col1, i), FisherTerm(col1, n - col1, row1, i);
      OneTermTransposes(row1, col1, n, i);
      Distribute(Comb(n, row1), FisherSum(row1, n - row1, col1, i), x);
      Distribute(Comb(n, col1), FisherSum(col1, n - col1, row1, i), y);
    }
  }

  lemma Distribute(k: nat, s: nat, t: nat)
    ensures k * (s + t) == k * s + k * t
  {
  }

  /** Transposing the table, swapping its rows for its columns, leaves the p-value unchanged. */
  lemma FisherTransposes(a: nat, b: nat, c: nat, d: nat)
    ensures FisherExactLess(a, b, c, d) == FisherExactLess(a, c, b, d)
  {
    if !EmptyMargin(a, b, c, d) {
      var n := a + b + c + d;
      FisherIsProbability(a, b, c, d);
      FisherIsProbability(a, c, b, d);
      SumTransposes(a + b, a + c, n, a + 1);
      CombPositive(n, a + b);
      CombPositive(n, a + c);
      CrossQuotients(FisherSum(a + b, c + d, a + c, a + 1), Comb(n, a + c),
                     FisherSum(a + c, b + d, a + b, a + 1), Comb(n, a + b));
    }
  }

  lemma CrossQuotients(s: nat, x: nat, t: nat, y: nat)
    requires x > 0 && y > 0 && y * s == x * t
    ensures s as real / x as real == t as real / y as real
  {
    var s', x', t', y' := s as real, x as real, t as real, y as real;
    assert (y * s) as real == y' * s' && (x * t) as real == x' * t';
    assert s' / x' == (y' * s') / (y' * x');
    assert t' / y' == (x' * t') / (x' * y');
  }

  // ----- the counts that feed the test

  /** A decision that says something: known, and not `unknown`. */
  predicate Decided(decisions: map<int, string>, p: int) {
    p in decisions && decisions[p] != "" && decisions[p] != "unknown"
  }

  predicate Accepted(decisions: map<int, string>, p: int) {
    Decided(decisions, p) && "accept" <= decisions[p]
  }

  /** The decided papers of `ids` on one side of the remark; only the accepted ones if asked for. */
  ghost function Group(ids: set<int>, withIds: set<int>, decisions: map<int, string>, remarked: bool,
                       acceptedOnly: bool)
    : set<int>
  {
    set p | p in ids && (p in withIds <==> remarked) && Decided(decisions, p)
        && (acceptedOnly ==> Accepted(decisions, p))
  }

  /** `_accept_contrast`: accepted and decided papers, with and without the remark. */
  method AcceptContrast(withIds: set<int>, allIds: set<int>, decisions: map<int, string>)
    returns (aw: nat, dw: nat, ao: nat, do': nat)
    ensures dw
         == |set p | p in allIds && p in withIds && p in decisions && decisions[p] != "" && decisions[p] != "unknown"|
    ensures do'
         == |set p | p in allIds && p !in withIds && p in decisions && decisions[p] != "" && decisions[p] != "unknown"|
    ensures aw == |set p | p in allIds && p in withIds && p in decisions && "accept" <= decisions[p]|
    ensures ao == |set p | p in allIds && p !in withIds && p in decisions && "accept" <= decisions[p]|
    ensures aw <= dw && ao <= do'
  {
    hide Group;
    aw, dw, ao, do' := 0, 0, 0, 0;
    var todo := allIds;
    ghost var done: set<int> := {};
    NoneCounted(withIds, decisions);
    while todo != {}
      invariant done + todo == allIds && done !! todo
      invariant dw == |Group(done, withIds, decisions, true, false)|
      invariant do' == |Group(done, withIds, decisions, false, false)|
      invariant aw == |Group(done, withIds, decisions, true, true)|
      invariant ao == |Group(done, withIds, decisions, false, true)|
      invariant aw <= dw && ao <= do'
      decreases todo
    {
      ghost var some := Sorting.SomeMember(todo);
      var pid :| pid in todo;
      forall remarked, acceptedOnly {
        CountOne(done, pid, withIds, decisions, remarked, acceptedOnly);
      }
      if Decided(decisions, pid) {
        var accepted := "accept" <= decisions[pid];
        if pid in withIds {
          dw := dw + 1;
          aw := aw + if accepted then 1 else 0;
        } else {
          do' := do' + 1;
          ao := ao + if accepted then 1 else 0;
        }
      }
      todo, done := todo - {pid}, done + {pid};
    }
    assert done == allIds;
    GroupsAre(allIds, withIds, decisions);
  }

  lemma GroupsAre(ids: set<int>, withIds: set<int>, decisions: map<int, string>)
    ensures Group(ids, withIds, decisions, true, false)
         == set p | p in ids && p in withIds && p in decisions && decisions[p] != "" && decisions[p] != "unknown"
    ensures Group(ids, withIds, decisions, false, false)
         == set p | p in ids && p !in withIds && p in decisions && decisions[p] != "" && decisions[p] != "unknown"
    ensures Group(ids, withIds, decisions, true, true)
         == set p | p in ids && p in withIds && p in decisions && "accept" <= decisions[p]
    ensures Group(ids, withIds, decisions, false, true)
         == set p | p in ids && p !in withIds && p in decisions && "accept" <= decisions[p]
  {
    forall p | p in decisions && "accept" <= decisions[p] ensures Decided(decisions, p) {
      assert decisions[p][0] == 'a' && "unknown"[0] == 'u';
    }
  }

  lemma NoneCounted(withIds: set<int>, decisions: map<int, string>)
    ensures forall remarked, acceptedOnly :: Group({}, withIds, decisions, remarked, acceptedOnly) == {}
  {
  }

  lemma CountOne(done: set<int>, pid: int, withIds: set<int>, decisions: map<int, string>, remarked: bool,
                 acceptedOnly: bool)
    requires pid !in done
    ensures |Group(done + {pid}, withIds, decisions, remarked, acceptedOnly)|
         == |Group(done, withIds, decisions, remarked, acceptedOnly)|
          + if (pid in withIds <==> remarked) && Decided(decisions, pid) && (acceptedOnly ==> Accepted(decisions, pid))
            then 1 else 0
  {
    var before := Group(done, withIds, decisions, remarked, acceptedOnly);
    var after := Group(done + {pid}, withIds, decisions, remarked, acceptedOnly);
    if (pid in withIds <==> remarked) && Decided(decisions, pid) && (acceptedOnly ==> Accepted(decisions, pid)) {
      assert after == before + {pid};
    } else {
      assert after == before;
    }
  }
}
