/** Binomial coefficients: factorial form, the binomial theorem and Vandermonde's identity. */
module Combinatorics {

  /** `math.comb(n, k)`, which is 0 for `k > n`. */
  function Comb(n: nat, k: nat): nat {
    if k == 0 then 1 else if n == 0 then 0 else Comb(n - 1, k - 1) + Comb(n - 1, k)
  }

  function Factorial(n: nat): (r: nat)
    ensures r > 0
  {
    if n == 0 then 1 else n * Factorial(n - 1)
  }

  lemma {:induction false} CombBeyond(n: nat, k: nat)
    requires k > n
    ensures Comb(n, k) == 0
  {
    if n > 0 {
      CombBeyond(n - 1, k - 1);
      CombBeyond(n - 1, k);
    }
  }

  lemma {:induction false} CombPositive(n: nat, k: nat)
    requires k <= n
    ensures Comb(n, k) > 0
  {
    if k > 0 { CombPositive(n - 1, k - 1); }
  }

  lemma {:induction false} CombAll(n: nat)
    ensures Comb(n, n) == 1
  {
    if n > 0 {
      CombAll(n - 1);
      CombBeyond(n - 1, n);
    }
  }

  /** `comb(n, k) * k! * (n - k)! == n!` */
  lemma {:induction false} CombFactorial(n: nat, k: nat)
    requires k <= n
    ensures Comb(n, k) * (Factorial(k) * Factorial(n - k)) == Factorial(n)
  {
    if k == 0 {
    } else if k == n {
      CombAll(n);
    } else {
      CombFactorial(n - 1, k - 1);
      CombFactorial(n - 1, k);
      var u, v, f := Comb(n - 1, k - 1), Comb(n - 1, k), Factorial(n - 1);
      var a, b := Factorial(k - 1), Factorial(n - k - 1);
      PascalFactorials(u, v, a, b, k, n - k, f);
    }
  }

  lemma PascalFactorials(u: nat, v: nat, a: nat, b: nat, k: nat, m: nat, f: nat)
    requires u * (a * (m * b)) == f && v * ((k * a) * b) == f
    ensures (u + v) * ((k * a) * (m * b)) == (k + m) * f
  {
    calc {
      (u + v) * ((k * a) * (m * b));
      u * ((k * a) * (m * b)) + v * ((k * a) * (m * b));
      { Shuffle1(u, k, a, m * b); Shuffle2(v, k * a, m, b); }
      k * (u * (a * (m * b))) + m * (v * ((k * a) * b));
      k * f + m * f;
      (k + m) * f;
    }
  }

  lemma Shuffle1(u: nat, k: nat, a: nat, c: nat)
    ensures u * ((k * a) * c) == k * (u * (a * c))
  {
  }

  lemma Shuffle2(v: nat, x: nat, m: nat, b: nat)
    ensures v * (x * (m * b)) == m * (v * (x * b))
  {
  }

  // ----- Vandermonde

  /** The first `m` terms of the convolution of two rows. */
  function Convolution(r: nat, s: nat, c: nat, m: nat): nat
    requires m <= c + 1
  {
    if m == 0 then 0 else Convolution(r, s, c, m - 1) + Comb(r, m - 1) * Comb(s, c - (m - 1))
  }

  lemma {:induction false} ConvolutionOfNone(s: nat, c: nat, m: nat)
    requires 1 <= m <= c + 1
    ensures Convolution(0, s, c, m) == Comb(s, c)
  {
    if m > 1 {
      ConvolutionOfNone(s, c, m - 1);
      assert Comb(0, m - 1) == 0;
    }
  }

  lemma {:induction false} ConvolutionStep(r: nat, s: nat, c: nat, m: nat)
    requires m <= c
    ensures Convolution(r + 1, s, c, m + 1)
            == Convolution(r, s, c, m + 1) + (if c == 0 then 0 else Convolution(r, s, c - 1, m))
  {
    if m > 0 {
      ConvolutionStep(r, s, c, m - 1);
      PascalProduct(r, m, Comb(s, c - m));
    }
  }

  lemma PascalProduct(r: nat, m: nat, z: nat)
    requires m > 0
    ensures Comb(r + 1, m) * z == Comb(r, m - 1) * z + Comb(r, m) * z
  {
    var x, y := Comb(r, m - 1), Comb(r, m);
    assert Comb(r + 1, m) == x + y;
    assert (x + y) * z == x * z + y * z;
  }

  /** Vandermonde's identity. */
  lemma {:induction false} Vandermonde(r: nat, s: nat, c: nat)
    ensures Convolution(r, s, c, c + 1) == Comb(r + s, c)
  {
    if r == 0 {
      ConvolutionOfNone(s, c, c + 1);
    } else {
      ConvolutionStep(r - 1, s, c, c);
      Vandermonde(r - 1, s, c);
      if c > 0 { Vandermonde(r - 1, s, c - 1); }
    }
  }

  lemma {:induction false} ConvolutionGrows(r: nat, s: nat, c: nat, m: nat, n: nat)
    requires m <= n <= c + 1
    ensures Convolution(r, s, c, m) <= Convolution(r, s, c, n)
  {
    if m < n { ConvolutionGrows(r, s, c, m, n - 1); }
  }

  // ----- the binomial theorem

  function Power(x: real, k: nat): real {
    if k == 0 then 1.0 else x * Power(x, k - 1)
  }

  lemma {:induction false} PowerPositive(x: real, k: nat)
    requires x > 0.0
    ensures Power(x, k) > 0.0
  {
    if k > 0 { PowerPositive(x, k - 1); }
  }

  lemma {:induction false} PowerOfOne(k: nat)
    ensures Power(1.0, k) == 1.0
  {
    if k > 0 { PowerOfOne(k - 1); }
  }

  /** One term of the expansion of `(x + y)^n`. */
  function Term(x: real, y: real, n: nat, i: nat): real
    requires i <= n
  {
    Comb(n, i) as real * Power(x, i) * Power(y, n - i)
  }

  /** The terms `lo` to `hi - 1`. */
  function Terms(x: real, y: real, n: nat, lo: nat, hi: nat): real
    requires lo <= hi <= n + 1
  {
    if lo == hi then 0.0 else Terms(x, y, n, lo, hi - 1) + Term(x, y, n, hi - 1)
  }

  lemma TermStep(x: real, y: real, n: nat, i: nat)
    requires 1 <= i <= n
    ensures Term(x, y, n + 1, i) == x * Term(x, y, n, i - 1) + y * Term(x, y, n, i)
  {
    var a, b := Comb(n, i - 1) as real, Comb(n, i) as real;
    var p, q := Power(x, i - 1), Power(y, n - i);
    assert Power(x, i) == x * p && Power(y, n - i + 1) == y * q;
    assert Comb(n + 1, i) as real == a + b;
    calc {
      Term(x, y, n + 1, i);
      (a + b) * (x * p) * (y * q);
      { DistributeTerm(a, b, x, p, y, q); }
      x * (a * p * (y * q)) + y * (b * (x * p) * q);
    }
  }

  lemma DistributeTerm(a: real, b: real, x: real, p: real, y: real, q: real)
    ensures (a + b) * (x * p) * (y * q) == x * (a * p * (y * q)) + y * (b * (x * p) * q)
  {
    var u, v := x * p, y * q;
    assert (a + b) * u == a * u + b * u;
    assert (a * u + b * u) * v == a * u * v + b * u * v;
    assert a * u * v == x * (a * p * v);
    assert b * u * v == y * (b * u * q);
  }

  lemma FirstTerm(x: real, y: real, n: nat)
    ensures Term(x, y, n + 1, 0) == y * Term(x, y, n, 0)
  {
    assert Power(y, n + 1) == y * Power(y, n);
  }

  lemma LastTerm(x: real, y: real, n: nat)
    ensures Term(x, y, n + 1, n + 1) == x * Term(x, y, n, n)
  {
    CombAll(n);
    CombAll(n + 1);
  }

  lemma {:induction false} TermsStep(x: real, y: real, n: nat, m: nat)
    requires m <= n
    ensures Terms(x, y, n + 1, 0, m + 1) == x * Terms(x, y, n, 0, m) + y * Terms(x, y, n, 0, m + 1)
  {
    hide Term;
    if m == 0 {
      FirstTerm(x, y, n);
      assert Terms(x, y, n + 1, 0, 1) == 0.0 + Term(x, y, n + 1, 0);
      assert Terms(x, y, n, 0, 1) == 0.0 + Term(x, y, n, 0);
    } else {
      TermsStep(x, y, n, m - 1);
      TermStep(x, y, n, m);
      var s, t := Terms(x, y, n, 0, m - 1), Terms(x, y, n, 0, m);
      assert x * t == x * s + x * Term(x, y, n, m - 1);
      assert y * (t + Term(x, y, n, m)) == y * t + y * Term(x, y, n, m);
    }
  }

  lemma {:induction false} BinomialTheorem(x: real, y: real, n: nat)
    ensures Terms(x, y, n, 0, n + 1) == Power(x + y, n)
  {
    if n == 0 {
      assert Terms(x, y, 0, 0, 1) == 0.0 + Term(x, y, 0, 0);
    } else {
      var m := n - 1;
      BinomialTheorem(x, y, m);
      TermsStep(x, y, m, m);
      LastTerm(x, y, m);
      var s, l := Terms(x, y, m, 0, m), Term(x, y, m, m);
      assert Terms(x, y, m, 0, m + 1) == s + l;
      assert x * (s + l) == x * s + x * l;
      assert (x + y) * (s + l) == x * (s + l) + y * (s + l);
    }
  }

  lemma {:induction false} TermsSplit(x: real, y: real, n: nat, lo: nat, mid: nat, hi: nat)
    requires lo <= mid <= hi <= n + 1
    ensures Terms(x, y, n, lo, hi) == Terms(x, y, n, lo, mid) + Terms(x, y, n, mid, hi)
  {
    hide Term;
    if mid < hi { TermsSplit(x, y, n, lo, mid, hi - 1); }
  }

  /** The last terms of a row, from those of the row before. */
  lemma LastTermsStep(x: real, y: real, n: nat, j: nat) returns (u: real, v: real)
    requires j <= n
    ensures u == Terms(x, y, n, j, n + 1) && v == Terms(x, y, n, j + 1, n + 1)
    ensures Terms(x, y, n + 1, j + 1, n + 2) == x * u + y * v
  {
    hide Terms, Power;
    u, v := Terms(x, y, n, j, n + 1), Terms(x, y, n, j + 1, n + 1);
    var all, first, second := Terms(x, y, n, 0, n + 1), Terms(x, y, n, 0, j), Terms(x, y, n, 0, j + 1);
    var r, s := Terms(x, y, n + 1, 0, n + 2), Terms(x, y, n + 1, 0, j + 1);
    assert r == (x + y) * all by { WholeRow(x, y, n); }
    assert s == x * first + y * second by { TermsStep(x, y, n, j); }
    TermsSplit(x, y, n + 1, 0, j + 1, n + 2);
    TermsSplit(x, y, n, 0, j, n + 1);
    TermsSplit(x, y, n, 0, j + 1, n + 1);
    RestOfRow(x, y, all, first, second, u, v);
  }

  lemma WholeRow(x: real, y: real, n: nat)
    ensures Terms(x, y, n + 1, 0, n + 2) == (x + y) * Terms(x, y, n, 0, n + 1)
  {
    BinomialTheorem(x, y, n);
    BinomialTheorem(x, y, n + 1);
  }

  lemma RestOfRow(x: real, y: real, all: real, first: real, second: real, u: real, v: real)
    requires all == first + u && all == second + v
    ensures (x + y) * all - (x * first + y * second) == x * u + y * v
  {
    assert (x + y) * all == x * (first + u) + y * (second + v);
  }

  lemma {:induction false} TermsNonNegative(x: real, y: real, n: nat, lo: nat, hi: nat)
    requires lo <= hi <= n + 1 && x > 0.0 && y > 0.0
    ensures Terms(x, y, n, lo, hi) >= 0.0
    ensures lo < hi ==> Terms(x, y, n, lo, hi) > 0.0
  {
    if lo < hi {
      TermsNonNegative(x, y, n, lo, hi - 1);
      TermPositive(x, y, n, hi - 1);
    }
  }

  lemma TermPositive(x: real, y: real, n: nat, i: nat)
    requires i <= n && x > 0.0 && y > 0.0
    ensures Term(x, y, n, i) > 0.0
  {
    PowerPositive(x, i);
    PowerPositive(y, n - i);
    CombPositive(n, i);
    ProductPositive(Comb(n, i) as real, Power(x, i), Power(y, n - i));
  }

  lemma ProductPositive(a: real, b: real, c: real)
    requires a > 0.0 && b > 0.0 && c > 0.0
    ensures a * b * c > 0.0
  {
  }
}
