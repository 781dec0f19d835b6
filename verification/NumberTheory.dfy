/** Divisibility, greatest common divisors, primes and Fermat's theorem. */
module NumberTheory {
  import opened Arith

  predicate Divides(d: int, a: int)
    requires d > 0
  {
    a % d == 0
  }

  lemma DividesIntro(d: int, a: int, k: int)
    requires d > 0 && a == k * d
    ensures Divides(d, a)
  {
    DivModUnique(a, d, k, 0);
  }

  lemma DividesElim(d: int, a: int) returns (k: int)
    requires d > 0 && Divides(d, a)
    ensures a == k * d
  {
    k := a / d;
  }

  lemma DividesSum(d: int, a: int, b: int, x: int, y: int)
    requires d > 0 && Divides(d, a) && Divides(d, b)
    ensures Divides(d, x * a + y * b)
  {
    var k := DividesElim(d, a);
    var l := DividesElim(d, b);
    assert x * (k * d) + y * (l * d) == (x * k + y * l) * d;
    DividesIntro(d, x * a + y * b, x * k + y * l);
  }

  lemma DividesTrans(d: int, a: int, b: int)
    requires d > 0 && a > 0 && Divides(d, a) && Divides(a, b)
    ensures Divides(d, b)
  {
    var k := DividesElim(d, a);
    var l := DividesElim(a, b);
    assert l * (k * d) == (l * k) * d;
    DividesIntro(d, b, l * k);
  }

  lemma DividesLe(d: int, a: int)
    requires d > 0 && a > 0 && Divides(d, a)
    ensures d <= a
  {
  }

  // ----- greatest common divisor

  function Gcd(a: nat, b: nat): nat
    decreases b
  {
    if b == 0 then a else Gcd(b, a % b)
  }

  lemma {:induction false} Bezout(a: nat, b: nat) returns (x: int, y: int)
    ensures x * a + y * b == Gcd(a, b)
    decreases b
  {
    if b == 0 {
      x, y := 1, 0;
    } else {
      var x', y' := Bezout(b, a % b);
      x, y := y', x' - (a / b) * y';
      BezoutStep(a, b, x', y');
    }
  }

  lemma BezoutStep(a: nat, b: nat, x: int, y: int)
    requires b > 0
    ensures y * a + (x - (a / b) * y) * b == x * b + y * (a % b)
  {
  }

  lemma {:induction false} GcdDivides(a: nat, b: nat)
    requires a > 0 || b > 0
    ensures Gcd(a, b) > 0 && Divides(Gcd(a, b), a) && Divides(Gcd(a, b), b)
    decreases b
  {
    if b == 0 {
      DividesIntro(a, a, 1);
      DividesIntro(a, 0, 0);
    } else {
      GcdDivides(b, a % b);
      var g := Gcd(a, b);
      DividesSum(g, b, a % b, a / b, 1);
      assert a == (a / b) * b + 1 * (a % b);
    }
  }

  /** Every common divisor divides the gcd. */
  lemma GcdGreatest(a: nat, b: nat, d: int)
    requires d > 0 && Divides(d, a) && Divides(d, b)
    ensures Divides(d, Gcd(a, b))
  {
    var x, y := Bezout(a, b);
    DividesSum(d, a, b, x, y);
  }

  // ----- primes

  ghost predicate Prime(p: int) {
    p >= 2 && forall d :: 1 < d < p ==> !Divides(d, p)
  }

  lemma PrimeCoprime(p: int, a: nat)
    requires Prime(p) && !Divides(p, a)
    ensures Gcd(p, a) == 1
  {
    GcdDivides(p, a);
    DividesLe(Gcd(p, a), p);
  }

  /** Euclid's lemma. */
  lemma Euclid(p: int, a: nat, b: int)
    requires Prime(p) && Divides(p, a * b) && !Divides(p, a)
    ensures Divides(p, b)
  {
    PrimeCoprime(p, a);
    var x, y := Bezout(p, a);
    assert (x * b) * p + y * (a * b) == b by {
      assert (x * p + y * a) * b == b;
      assert (x * p) * b == (x * b) * p;
      assert (y * a) * b == y * (a * b);
    }
    DividesIntro(p, p, 1);
    DividesSum(p, p, a * b, x * b, y);
  }

  /** A number divisible by two distinct primes is divisible by their product. */
  lemma DistinctPrimes(p: int, q: int, x: int)
    requires Prime(p) && Prime(q) && p != q && Divides(p, x) && Divides(q, x)
    ensures p * q > 0 && Divides(p * q, x)
  {
    MulLe(1, p, q);
    var k := DividesElim(q, x);
    assert !Divides(p, q);
    assert q * k == k * q;
    Euclid(p, q, k);
    var l := DividesElim(p, k);
    assert (l * p) * q == l * (p * q);
    DividesIntro(p * q, x, l);
  }

  // ----- binomial coefficients

  function Choose(n: nat, k: nat): nat {
    if k == 0 then 1 else if n == 0 then 0 else Choose(n - 1, k - 1) + Choose(n - 1, k)
  }

  lemma {:induction false} ChooseTop(n: nat, k: nat)
    requires k >= n
    ensures Choose(n, k) == if k == n then 1 else 0
    decreases n
  {
    if n > 0 {
      ChooseTop(n - 1, k - 1);
      ChooseTop(n - 1, k);
    }
  }

  lemma {:induction false} Absorb(n: nat, k: nat)
    ensures (k + 1) * Choose(n + 1, k + 1) == (n + 1) * Choose(n, k)
    decreases n
  {
    if n > 0 {
      Absorb(n - 1, k);
      if k > 0 {
        Absorb(n - 1, k - 1);
      }
      AbsorbArith(n, k, Choose(n, k), Choose(n, k + 1), Choose(n - 1, k), if k > 0 then Choose(n - 1, k - 1) else 0);
    }
  }

  lemma AbsorbArith(n: int, k: int, c: int, d: int, e: int, f: int)
    requires (k + 1) * d == n * e && k * c == n * f && (c == f + e || (k == 0 && c == e && f == 0))
    ensures (k + 1) * (c + d) == (n + 1) * c
  {
  }

  lemma ChoosePrime(p: nat, k: nat)
    requires Prime(p) && 0 < k < p
    ensures Divides(p, Choose(p, k))
  {
    hide Choose;
    Absorb(p - 1, k - 1);
    var c := Choose(p - 1, k - 1);
    assert k * Choose(p, k) == c * p;
    DividesIntro(p, k * Choose(p, k), c);
    DivModUnique(k, p, 0, k);
    Euclid(p, k, Choose(p, k));
  }

  /** Sum of the first k terms of the expansion of (a+1)^n. */
  function BinSum(n: nat, a: int, k: nat): int {
    if k == 0 then 0 else BinSum(n, a, k - 1) + Choose(n, k - 1) * Pow(a, k - 1)
  }

  lemma BinSumNext(n: nat, a: int, k: nat)
    ensures BinSum(n, a, k + 1) == BinSum(n, a, k) + Choose(n, k) * Pow(a, k)
  {
  }

  lemma ChooseNext(n: nat, k: nat)
    ensures Choose(n + 1, k + 1) == Choose(n, k) + Choose(n, k + 1)
  {
  }

  lemma BinArith(x: int, s: int, t: int, c: int, d: int, a: int, w: int)
    requires x == s + a * t
    ensures x + (d + c) * (a * w) == (s + c * (a * w)) + a * (t + d * w)
  {
  }

  lemma {:induction false} BinSumStep(n: nat, a: int, k: nat)
    ensures BinSum(n + 1, a, k + 1) == BinSum(n, a, k + 1) + a * BinSum(n, a, k)
    decreases k
  {
    if k == 0 {
      BinSumNext(n, a, 0);
      BinSumNext(n + 1, a, 0);
    } else {
      hide BinSum, Choose, Pow;
      PowUnfold(a, k);
      BinSumStep(n, a, k - 1);
      BinSumNext(n + 1, a, k);
      BinSumNext(n, a, k);
      BinSumNext(n, a, k - 1);
      ChooseNext(n, k - 1);
      BinArith(BinSum(n + 1, a, k), BinSum(n, a, k), BinSum(n, a, k - 1),
               Choose(n, k), Choose(n, k - 1), a, Pow(a, k - 1));
    }
  }

  lemma PowUnfold(b: int, e: nat)
    requires e > 0
    ensures Pow(b, e) == b * Pow(b, e - 1)
  {
  }

  lemma BinomialArith(s: int, a: int, w: int)
    ensures (a + 1) * s == (s + 0 * w) + a * s
  {
  }

  lemma {:induction false} Binomial(n: nat, a: int)
    ensures BinSum(n, a, n + 1) == Pow(a + 1, n)
    decreases n
  {
    if n == 0 {
      BinSumNext(0, a, 0);
    } else {
      hide BinSum, Choose, Pow;
      Binomial(n - 1, a);
      BinSumStep(n - 1, a, n);
      BinSumNext(n - 1, a, n);
      ChooseTop(n - 1, n);
      PowUnfold(a + 1, n);
      BinomialArith(Pow(a + 1, n - 1), a, Pow(a, n));
    }
  }

  lemma {:induction false} MiddleTerms(p: nat, a: int, k: nat)
    requires Prime(p) && 1 <= k <= p
    ensures Cong(BinSum(p, a, k), 1, p)
    decreases k
  {
    if k == 1 {
      assert BinSum(p, a, 1) == BinSum(p, a, 0) + Choose(p, 0) * Pow(a, 0);
    } else {
      MiddleTerms(p, a, k - 1);
      ChoosePrime(p, k - 1);
      var c, w := Choose(p, k - 1), Pow(a, k - 1);
      var l := DividesElim(p, c);
      assert c * w == (l * w) * p;
      CongIntro(c * w, 0, p, l * w);
      CongAdd(BinSum(p, a, k - 1), 1, c * w, 0, p);
    }
  }

  lemma Freshman(p: nat, a: int)
    requires Prime(p)
    ensures Cong(Pow(a + 1, p), Pow(a, p) + 1, p)
  {
    Binomial(p, a);
    MiddleTerms(p, a, p);
    ChooseTop(p, p);
    var w := Pow(a, p);
    assert BinSum(p, a, p + 1) == BinSum(p, a, p) + 1 * w;
    CongRefl(w, p);
    CongAdd(BinSum(p, a, p), 1, w, w, p);
  }

  lemma {:induction false} PowOfZero(e: nat)
    requires e > 0
    ensures Pow(0, e) == 0
  {
  }

  /** Fermat: a^p = a modulo p. */
  lemma {:induction false} Fermat(p: nat, a: nat)
    requires Prime(p)
    ensures Cong(Pow(a, p), a, p)
    decreases a
  {
    if a == 0 {
      PowOfZero(p);
    } else {
      Fermat(p, a - 1);
      Freshman(p, a - 1);
      CongRefl(1, p);
      CongAdd(Pow(a - 1, p), a - 1, 1, 1, p);
      CongTrans(Pow(a, p), Pow(a - 1, p) + 1, a, p);
    }
  }

  /** Exponents at least one may be reduced modulo p-1. */
  lemma {:induction false} FermatExponent(p: nat, a: nat, e: nat, m: nat)
    requires Prime(p) && e >= 1
    ensures m * (p - 1) >= 0 && Cong(Pow(a, e + m * (p - 1)), Pow(a, e), p)
    decreases m
  {
    if m > 0 {
      FermatExponent(p, a, e, m - 1);
      var f := e + (m - 1) * (p - 1);
      assert m * (p - 1) == (m - 1) * (p - 1) + (p - 1);
      Fermat(p, a);
      PowAdd(a, f - 1, p);
      CongRefl(Pow(a, f - 1), p);
      CongMul(Pow(a, f - 1), Pow(a, f - 1), Pow(a, p), a, p);
      PowAdd(a, f - 1, 1);
      assert Pow(a, 1) == a * Pow(a, 0);
      CongTrans(Pow(a, e + m * (p - 1)), Pow(a, f), Pow(a, e), p);
    }
  }
}
