/** Binary gcd (HAC 14.54) and modular inverse by binary extended Euclid (HAC 14.61), on integers. */
module IntegerInverse {
  import opened Arith
  import opened Common
  import opened NumberTheory

  const ERR_NOT_ACCEPTABLE := -0x000E

  // ----- odd divisors

  /** d divides both numbers. */
  predicate CommonDivisor(d: int, a: int, b: int)
    requires d > 0
  {
    Divides(d, a) && Divides(d, b)
  }

  lemma OddDividesDouble(d: int, a: int)
    requires d > 0 && d % 2 == 1
    ensures Divides(d, 2 * a) <==> Divides(d, a)
  {
    if Divides(d, a) {
      var k := DividesElim(d, a);
      DividesIntro(d, 2 * a, 2 * k);
    } else if Divides(d, 2 * a) {
      var k := DividesElim(d, 2 * a);
      EvenFactor(k, d, a);
      DividesIntro(d, a, k / 2);
    }
  }

  lemma EvenFactor(k: int, d: int, a: int)
    requires d % 2 == 1 && k * d == 2 * a
    ensures k % 2 == 0 && a == (k / 2) * d
  {
    var h, g := k / 2, d / 2;
    assert (2 * h + 1) * (2 * g + 1) == 2 * (h * (2 * g + 1) + g) + 1;
  }

  lemma CommonHalf(d: int, a: int, b: int)
    requires d > 0 && d % 2 == 1 && a % 2 == 0
    ensures CommonDivisor(d, a / 2, b) <==> CommonDivisor(d, a, b)
  {
    OddDividesDouble(d, a / 2);
  }

  lemma CommonDifference(d: int, a: int, b: int)
    requires d > 0
    ensures CommonDivisor(d, a - b, b) <==> CommonDivisor(d, a, b)
  {
    if CommonDivisor(d, a, b) {
      DividesSum(d, a, b, 1, -1);
    }
    if CommonDivisor(d, a - b, b) {
      DividesSum(d, a - b, b, 1, 1);
    }
  }

  /** The pairs have the same odd common divisors. */
  ghost predicate SameOdd(a: int, b: int, a': int, b': int) {
    forall d :: d > 0 && d % 2 == 1 ==> (CommonDivisor(d, a, b) <==> CommonDivisor(d, a', b'))
  }

  lemma SameOddHalf(a: int, b: int)
    requires a % 2 == 0
    ensures SameOdd(a, b, a / 2, b)
  {
    forall d | d > 0 && d % 2 == 1
      ensures CommonDivisor(d, a, b) <==> CommonDivisor(d, a / 2, b)
    {
      CommonHalf(d, a, b);
    }
  }

  lemma SameOddSub(a: int, b: int)
    ensures SameOdd(a, b, a - b, b)
  {
    forall d | d > 0 && d % 2 == 1
      ensures CommonDivisor(d, a, b) <==> CommonDivisor(d, a - b, b)
    {
      CommonDifference(d, a, b);
    }
  }

  lemma SameOddSwap(a: int, b: int, a': int, b': int)
    requires SameOdd(a, b, a', b')
    ensures SameOdd(b, a, b', a')
  {
    forall d | d > 0 && d % 2 == 1
      ensures CommonDivisor(d, b, a) <==> CommonDivisor(d, b', a')
    {
      assert CommonDivisor(d, a, b) <==> CommonDivisor(d, a', b');
    }
  }

  lemma SameOddTrans(a: int, b: int, c: int, d: int, e: int, f: int)
    requires SameOdd(a, b, c, d) && SameOdd(c, d, e, f)
    ensures SameOdd(a, b, e, f)
  {
  }

  // ----- gcd

  /** What the binary gcd returns for a nonzero first argument: the odd part of the gcd. */
  ghost predicate OddGcd(g: int, a: int, b: int) {
    && g > 0 && g % 2 == 1
    && CommonDivisor(g, a, b)
    && forall d :: d > 0 && d % 2 == 1 && CommonDivisor(d, a, b) ==> Divides(d, g)
  }

  lemma OddGcdDone(g: int, a: int, b: int)
    requires g > 0 && g % 2 == 1 && SameOdd(a, b, 0, g)
    ensures OddGcd(g, a, b)
  {
  }

  /** It is the gcd exactly when the arguments are not both even. */
  lemma OddGcdIsGcd(g: int, a: nat, b: nat)
    requires OddGcd(g, a, b) && (a > 0 || b > 0)
    ensures g == Gcd(a, b) <==> !(a % 2 == 0 && b % 2 == 0)
  {
    var h := Gcd(a, b);
    GcdDivides(a, b);
    GcdGreatest(a, b, g);
    if a % 2 == 0 && b % 2 == 0 {
      GcdGreatest(a, b, 2);
    } else {
      if h % 2 == 0 {
        DividesTrans(2, h, a);
        DividesTrans(2, h, b);
      }
      assert h % 2 == 1 && CommonDivisor(h, a, b);
      DividesLe(h, g);
      DividesLe(g, h);
    }
  }

  /** Divides out the factors of two. */
  method StripTwos(t: int, b: int) returns (r: int)
    requires t > 0
    ensures 0 < r <= t && r % 2 == 1 && SameOdd(t, b, r, b)
  {
    r := t;
    while r % 2 == 0
      invariant 0 < r <= t && SameOdd(t, b, r, b)
      decreases r
    {
      SameOddHalf(r, b);
      SameOddTrans(t, b, r, b, r / 2, b);
      r := r / 2;
    }
  }

  /** One turn of the gcd loop on odd x, y: the larger becomes half the difference. */
  lemma GcdStep(a: int, b: int, x: int, y: int)
    requires SameOdd(a, b, x, y) && x % 2 == 1 && y % 2 == 1
    ensures SameOdd(a, b, (x - y) / 2, y) && SameOdd(a, b, x, (y - x) / 2)
  {
    hide SameOdd;
    SameOddSub(x, y);
    SameOddTrans(a, b, x, y, x - y, y);
    SameOddHalf(x - y, y);
    SameOddTrans(a, b, x - y, y, (x - y) / 2, y);
    SameOddSub(y, x);
    SameOddSwap(y, x, y - x, x);
    SameOddTrans(a, b, x, y, x, y - x);
    SameOddHalf(y - x, x);
    SameOddSwap(y - x, x, (y - x) / 2, x);
    SameOddTrans(a, b, x, y - x, x, (y - x) / 2);
  }

  lemma SameOddRefl(a: int, b: int)
    ensures SameOdd(a, b, a, b)
  {
  }

  method BinaryGcd(A: int, B: int) returns (G: int)
    requires A != 0 ==> B != 0
    ensures A == 0 ==> G == Abs(B)
    ensures A != 0 ==> OddGcd(G, Abs(A), Abs(B))
    ensures A != 0 ==> (G == Gcd(Abs(A), Abs(B)) <==> !(A % 2 == 0 && B % 2 == 0))
  {
    hide SameOdd, OddGcd, Gcd;
    var TA, TB := Abs(A), Abs(B);
    ghost var a, b := TA, TB;
    SameOddRefl(a, b);
    while TA != 0
      invariant TA >= 0 && SameOdd(a, b, TA, TB)
      invariant a > 0 ==> TB > 0 && (TA == 0 ==> TB % 2 == 1)
      invariant a == 0 ==> TA == 0 && TB == b
      decreases TA + TB
    {
      var x := StripTwos(TA, TB);
      SameOddTrans(a, b, TA, TB, x, TB);
      var y := StripTwos(TB, x);
      SameOddSwap(TB, x, y, x);
      SameOddTrans(a, b, x, TB, x, y);
      GcdStep(a, b, x, y);
      if x >= y {
        TA, TB := (x - y) / 2, y;
      } else {
        TA, TB := x, (y - x) / 2;
      }
    }
    G := TB;
    if a > 0 {
      OddGcdDone(G, a, b);
      OddGcdIsGcd(G, a, b);
    }
  }

  function Abs(x: int): nat {
    if x < 0 then -x else x
  }

  /** Two even arguments lose their common factor of two. */
  lemma BothEvenExample(g: int)
    requires OddGcd(g, 4, 6)
    ensures g == 1 && Gcd(4, 6) == 2
  {
  }

  // ----- modular inverse

  lemma EvenTimes(h: int, y: int)
    ensures ((2 * h) * y) % 2 == 0
  {
    assert (2 * h) * y == 2 * (h * y);
  }

  lemma OddTimes(h: int, g: int)
    ensures ((2 * h + 1) * (2 * g + 1)) % 2 == 1
  {
    assert (2 * h + 1) * (2 * g + 1) == 2 * (h * (2 * g + 1) + g) + 1;
  }

  lemma ParityProduct(x: int, y: int)
    ensures (x * y) % 2 == (if x % 2 == 0 || y % 2 == 0 then 0 else 1)
  {
    var h, g := x / 2, y / 2;
    if x % 2 == 0 {
      assert x == 2 * h;
      EvenTimes(h, y);
    } else if y % 2 == 0 {
      assert y == 2 * g && x * y == y * x;
      EvenTimes(g, x);
    } else {
      assert x == 2 * h + 1 && y == 2 * g + 1;
      OddTimes(h, g);
    }
  }

  lemma ParitySum(p: int, q: int, t: int, pe: bool, qe: bool)
    requires p + q == t && t % 2 == 0 && p % 2 == (if pe then 0 else 1) && q % 2 == (if qe then 0 else 1)
    ensures pe == qe
  {
  }

  /** The coefficients are both even, or both become even after adding tb and subtracting ta. */
  ghost predicate Halvable(u1: int, u2: int, ta: int, tb: int) {
    if u1 % 2 != 0 || u2 % 2 != 0 then (u1 + tb) % 2 == 0 && (u2 - ta) % 2 == 0 else true
  }

  lemma CoefficientParity(u1: int, u2: int, ta: int, tb: int)
    requires !(ta % 2 == 0 && tb % 2 == 0)
    requires (u1 % 2 == 0 || ta % 2 == 0) == (u2 % 2 == 0 || tb % 2 == 0)
    ensures Halvable(u1, u2, ta, tb)
  {
  }

  /** When ta and tb are not both even and the combination is even, it can be halved exactly. */
  lemma HalvedCoefficients(u1: int, u2: int, ta: int, tb: int, t: int)
    requires u1 * ta + u2 * tb == t && t % 2 == 0 && !(ta % 2 == 0 && tb % 2 == 0)
    ensures Halvable(u1, u2, ta, tb)
  {
    hide Halvable;
    ParityProduct(u1, ta);
    ParityProduct(u2, tb);
    ParitySum(u1 * ta, u2 * tb, t, u1 % 2 == 0 || ta % 2 == 0, u2 % 2 == 0 || tb % 2 == 0);
    CoefficientParity(u1, u2, ta, tb);
  }

  /** A one-bit right shift of the magnitude. */
  function Halved(u: int): int {
    if u < 0 then -(-u / 2) else u / 2
  }

  /** One turn of the halving loop. */
  lemma HalvedExact(u1: int, u2: int, ta: int, tb: int, t: int)
    requires u1 * ta + u2 * tb == t && t % 2 == 0 && !(ta % 2 == 0 && tb % 2 == 0)
    ensures var odd := u1 % 2 != 0 || u2 % 2 != 0;
            Halved(if odd then u1 + tb else u1) * ta + Halved(if odd then u2 - ta else u2) * tb == t / 2
  {
    HalvedCoefficients(u1, u2, ta, tb, t);
    var odd := u1 % 2 != 0 || u2 % 2 != 0;
    var x, y := if odd then u1 + tb else u1, if odd then u2 - ta else u2;
    ShiftCoefficients(u1, u2, ta, tb);
    assert Halved(x) == x / 2 && Halved(y) == y / 2;
    HalfCombination(x, y, ta, tb, t);
  }

  lemma ShiftCoefficients(u1: int, u2: int, ta: int, tb: int)
    ensures (u1 + tb) * ta + (u2 - ta) * tb == u1 * ta + u2 * tb
  {
  }

  lemma HalfCombination(u1: int, u2: int, ta: int, tb: int, t: int)
    requires u1 % 2 == 0 && u2 % 2 == 0 && t % 2 == 0 && u1 * ta + u2 * tb == t
    ensures (u1 / 2) * ta + (u2 / 2) * tb == t / 2
  {
  }

  /** An odd divisor of both a and n is 1 when gcd(a, n) = 1. */
  lemma CoprimeUnit(v: int, a: int, n: int, ta: int)
    requires n > 1 && v > 0 && v % 2 == 1 && ta == a % n && CommonDivisor(v, ta, n) && Gcd(Abs(a), n) == 1
    ensures v == 1
  {
    hide Gcd;
    var q := a / n;
    DividesSum(v, ta, n, 1, q);
    assert a == 1 * ta + q * n;
    if a < 0 {
      DividesSum(v, a, n, -1, 0);
    }
    GcdGreatest(Abs(a), n, v);
    DividesLe(v, 1);
  }

  lemma NotBothEven(a: int, n: int)
    requires n > 0 && !(a % 2 == 0 && n % 2 == 0)
    ensures !((a % n) % 2 == 0 && n % 2 == 0)
  {
    var q, r := a / n, a % n;
    ParityProduct(q, n);
    if n % 2 == 0 {
      EvenPlus(q * n, r, a);
    }
  }

  lemma EvenPlus(x: int, r: int, a: int)
    requires a == x + r && x % 2 == 0
    ensures a % 2 == r % 2
  {
  }

  lemma Differences(u1: int, u2: int, w1: int, w2: int, ta: int, tb: int)
    ensures (u1 - w1) * ta + (u2 - w2) * tb == (u1 * ta + u2 * tb) - (w1 * ta + w2 * tb)
    ensures (w1 - u1) * ta + (w2 - u2) * tb == (w1 * ta + w2 * tb) - (u1 * ta + u2 * tb)
  {
  }

  lemma LastDivisor(v: int, ta: int, tb: int)
    requires v > 0 && v % 2 == 1 && SameOdd(ta, tb, 0, v)
    ensures CommonDivisor(v, ta, tb)
  {
  }

  /** No odd number but 1 divides both. */
  ghost predicate OddCoprime(a: int, n: int) {
    forall d :: d > 1 && d % 2 == 1 ==> !CommonDivisor(d, Abs(a), n)
  }

  lemma OddGcdOne(g: int, a: int, n: int)
    requires OddGcd(g, Abs(a), n)
    ensures g == 1 <==> OddCoprime(a, n)
  {
    if g == 1 {
      forall d | d > 1 && d % 2 == 1
        ensures !CommonDivisor(d, Abs(a), n)
      {
        if CommonDivisor(d, Abs(a), n) {
          DividesLe(d, 1);
        }
      }
    }
  }

  predicate PowerOfTwo(n: int) {
    n == 1 || (n > 1 && n % 2 == 0 && PowerOfTwo(n / 2))
  }

  /** A number without an odd divisor but 1 is a power of two. */
  lemma {:induction false} OddDivisor(n: int) returns (d: int)
    requires n > 0 && !PowerOfTwo(n)
    ensures d > 1 && d % 2 == 1 && Divides(d, n)
  {
    if n % 2 == 1 {
      d := n;
      DividesIntro(n, n, 1);
    } else {
      d := OddDivisor(n / 2);
      var k := DividesElim(d, n / 2);
      DividesIntro(d, n, 2 * k);
    }
  }

  lemma {:induction false} PowerDivisor(n: int, d: int)
    requires PowerOfTwo(n) && d > 1 && d % 2 == 1
    ensures !Divides(d, n)
  {
    if n == 1 {
      if Divides(d, 1) {
        DividesLe(d, 1);
      }
    } else {
      OddDividesDouble(d, n / 2);
      PowerDivisor(n / 2, d);
    }
  }

  /** A multiple of n has no odd divisor in common with n exactly if n is a power of two. */
  lemma MultipleOf(a: int, n: int)
    requires n > 0 && a % n == 0
    ensures OddCoprime(a, n) <==> PowerOfTwo(n)
  {
    if PowerOfTwo(n) {
      forall d | d > 1 && d % 2 == 1
        ensures !CommonDivisor(d, Abs(a), n)
      {
        PowerDivisor(n, d);
      }
    } else {
      var d := OddDivisor(n);
      var q := a / n;
      var k := DividesElim(d, n);
      MulAssoc(q, k, d);
      MulAssoc(-q, k, d);
      DividesIntro(d, a, q * k);
      DividesIntro(d, -a, -q * k);
      assert CommonDivisor(d, Abs(a), n);
    }
  }

  lemma BothEvenNoInverse(a: int, x: int, n: int)
    requires a % 2 == 0 && n % 2 == 0 && n > 0
    ensures !Cong(a * x, 1, n)
  {
    if Cong(a * x, 1, n) {
      var k := CongElim(a * x, 1, n);
      ParityProduct(a, x);
      ParityProduct(k, n);
      assert false;
    }
  }

  lemma GcdZero(n: nat)
    requires n > 0
    ensures Gcd(0, n) == n
  {
  }

  lemma InverseOf(v1: int, v2: int, a: int, n: int)
    requires n > 0 && v1 * (a % n) + v2 * n == 1
    ensures Cong(a * v1, 1, n)
  {
    var q := a / n;
    assert a == q * n + a % n;
    assert a * v1 - 1 == (q * v1 - v2) * n;
    CongIntro(a * v1, 1, n, q * v1 - v2);
  }

  lemma ShiftInverse(a: int, v: int, n: int, k: int)
    requires n > 0 && Cong(a * v, 1, n)
    ensures Cong(a * (v + k * n), 1, n)
  {
    var l := CongElim(a * v, 1, n);
    assert a * (v + k * n) - 1 == (l + a * k) * n;
    CongIntro(a * (v + k * n), 1, n, l + a * k);
  }

  /** The halving loop: t loses its factors of two, and the combination stays exact unless ta and tb are both even. */
  method HalveWithCoefficients(t0: int, c1: int, c2: int, ta: int, tb: int, ghost o: int)
    returns (t: int, u1: int, u2: int)
    requires t0 > 0
    ensures 0 < t <= t0 && t % 2 == 1 && SameOdd(t0, o, t, o)
    ensures !(ta % 2 == 0 && tb % 2 == 0) && c1 * ta + c2 * tb == t0 ==> u1 * ta + u2 * tb == t
  {
    hide SameOdd;
    ghost var exact := !(ta % 2 == 0 && tb % 2 == 0) && c1 * ta + c2 * tb == t0;
    t, u1, u2 := t0, c1, c2;
    SameOddRefl(t0, o);
    while t % 2 == 0
      invariant 0 < t <= t0 && SameOdd(t0, o, t, o)
      invariant exact ==> u1 * ta + u2 * tb == t
      decreases t
    {
      SameOddHalf(t, o);
      SameOddTrans(t0, o, t, o, t / 2, o);
      if exact {
        HalvedExact(u1, u2, ta, tb, t);
      }
      t := t / 2;
      if u1 % 2 != 0 || u2 % 2 != 0 {
        u1 := u1 + tb;
        u2 := u2 - ta;
      }
      u1, u2 := Halved(u1), Halved(u2);
    }
  }

  /** The extended Euclid loop: a combination of ta and n equal to 1, if they are coprime and not both even. */
  method ExtendedEuclid(a: int, n: int) returns (v1: int, ghost v2: int)
    requires n > 0 && a % n > 0
    ensures !(a % 2 == 0 && n % 2 == 0) && Gcd(Abs(a), n) == 1 ==> v1 * (a % n) + v2 * n == 1
  {
    hide Gcd, SameOdd, CommonDivisor;
    ghost var exact := !(a % 2 == 0 && n % 2 == 0);
    if exact {
      NotBothEven(a, n);
    }
    var ta, tb := a % n, n;
    var tu, tv := ta, tb;
    var u1, u2, w1, w2 := 1, 0, 0, 1;
    SameOddRefl(ta, tb);
    while true
      invariant tu > 0 && tv > 0
      invariant exact ==> u1 * ta + u2 * tb == tu && w1 * ta + w2 * tb == tv
      invariant SameOdd(ta, tb, tu, tv)
      decreases tu + tv
    {
      var x, y;
      x, u1, u2 := HalveWithCoefficients(tu, u1, u2, ta, tb, tv);
      SameOddTrans(ta, tb, tu, tv, x, tv);
      y, w1, w2 := HalveWithCoefficients(tv, w1, w2, ta, tb, x);
      SameOddSwap(tv, x, y, x);
      SameOddTrans(ta, tb, x, tv, x, y);
      Differences(u1, u2, w1, w2, ta, tb);
      SameOddSub(x, y);
      SameOddSub(y, x);
      SameOddSwap(y, x, y - x, x);
      if x >= y {
        SameOddTrans(ta, tb, x, y, x - y, y);
        tu, tv, u1, u2 := x - y, y, u1 - w1, u2 - w2;
        if tu == 0 {
          LastDivisor(tv, ta, tb);
          if Gcd(Abs(a), n) == 1 {
            CoprimeUnit(tv, a, n, ta);
          }
          v1, v2 := w1, w2;
          return;
        }
      } else {
        SameOddTrans(ta, tb, x, y, x, y - x);
        tu, tv, w1, w2 := x, y - x, w1 - u1, w2 - u2;
      }
    }
  }

  /** What the gcd test accepts: the gcd of 0 and n is n, and that of other numbers has lost its factors of two. */
  ghost predicate Accepted(a: int, n: int) {
    if a == 0 then n == 1 else OddCoprime(a, n)
  }

  /** The inverse returns unless N is 1 or A is a nonzero multiple of a power of two N. */
  predicate Ends(a: int, n: int)
    requires n > 0
  {
    !(a % n == 0 && PowerOfTwo(n) && (a != 0 || n == 1))
  }

  /** The extended loop is entered with the residue 0 exactly if the inverse does not return. */
  lemma ZeroResidue(a: int, n: int)
    requires n > 0
    ensures Accepted(a, n) && a % n == 0 <==> !Ends(a, n)
  {
    hide OddCoprime, PowerOfTwo;
    if a % n == 0 {
      MultipleOf(a, n);
    }
    PowerOne();
  }

  lemma PowerOne()
    ensures PowerOfTwo(1)
  {
  }

  /**
   * X = A^-1 mod N: succeeds exactly when A is not 0 and has no odd divisor in common with N, and gives an inverse exactly
   * when they are not both even.
   */
  method InvMod(A: int, N: int) returns (ret: int, X: int)
    requires N > 0 ==> Ends(A, N)
    ensures N <= 0 ==> ret == ERR_BAD_INPUT_DATA
    ensures N > 0 ==> ret == if Accepted(A, N) then 0 else ERR_NOT_ACCEPTABLE
    ensures N > 0 && !(A % 2 == 0 && N % 2 == 0) ==> (ret == 0 <==> Gcd(Abs(A), N) == 1)
    ensures ret == 0 ==> N > 1 && 0 <= X < N && (Cong(A * X, 1, N) <==> !(A % 2 == 0 && N % 2 == 0))
  {
    hide Gcd, OddGcd, Cong, OddCoprime, PowerOfTwo;
    X := 0;
    if N <= 0 {
      return ERR_BAD_INPUT_DATA, 0;
    }
    var G := BinaryGcd(A, N);
    UnitCases(A, N, G);
    if G != 1 {
      return ERR_NOT_ACCEPTABLE, 0;
    }
    var V1, v2 := ExtendedEuclid(A, N);
    ghost var exact := !(A % 2 == 0 && N % 2 == 0);
    if exact {
      InverseOf(V1, v2, A, N);
    }
    while V1 < 0
      invariant exact ==> Cong(A * V1, 1, N)
      decreases -V1
    {
      if exact {
        ShiftInverse(A, V1, N, 1);
      }
      V1 := V1 + N;
    }
    while V1 >= N
      invariant V1 >= 0 && (exact ==> Cong(A * V1, 1, N))
      decreases V1
    {
      if exact {
        ShiftInverse(A, V1, N, -1);
      }
      V1 := V1 - N;
    }
    if !exact {
      BothEvenNoInverse(A, V1, N);
    }
    return 0, V1;
  }

  /** The gcd test, from what the gcd is. */
  lemma UnitCases(a: int, n: int, g: int)
    requires n > 0
    requires a == 0 ==> g == n
    requires a != 0 ==> OddGcd(g, Abs(a), n) && (g == Gcd(Abs(a), n) <==> !(a % 2 == 0 && n % 2 == 0))
    ensures g == 1 <==> Accepted(a, n)
    ensures !(a % 2 == 0 && n % 2 == 0) ==> (g == 1 <==> Gcd(Abs(a), n) == 1)
    ensures g == 1 && Ends(a, n) ==> a % n > 0 && n > 1
  {
    hide Gcd, OddGcd, OddCoprime, Ends;
    if a == 0 {
      GcdZero(n);
    } else {
      OddGcdOne(g, a, n);
    }
    ZeroResidue(a, n);
  }

  lemma ProductSwap(a: int, x: int, y: int)
    ensures (a * x) * y == (a * y) * x && 1 * x == x && 1 * y == y
  {
  }

  lemma InversesMeet(a: int, x: int, y: int, n: int)
    requires n > 0 && Cong(a * x, 1, n) && Cong(a * y, 1, n)
    ensures Cong(x, y, n)
  {
    hide Cong;
    ProductSwap(a, x, y);
    CongRefl(x, n);
    CongRefl(y, n);
    CongMul(a * x, 1, y, y, n);
    CongMul(a * y, 1, x, x, n);
    CongSym((a * y) * x, x, n);
    CongTrans(x, (a * y) * x, y, n);
  }

  /** Two inverses in the range of the residues are the same. */
  lemma InverseUnique(a: int, x: int, y: int, n: int)
    requires n > 0 && 0 <= x < n && 0 <= y < n && Cong(a * x, 1, n) && Cong(a * y, 1, n)
    ensures x == y
  {
    hide Cong;
    InversesMeet(a, x, y, n);
    CongReduced(x, y, n);
    DivModUnique(y, n, 0, y);
  }

  /** A common divisor of a number and the modulus divides 1, if the number has an inverse. */
  lemma UnitDivisor(d: int, a: int, x: int, k: int, n: int)
    requires d > 0 && a * x - 1 == k * n && Divides(d, a) && Divides(d, n)
    ensures d == 1
  {
    hide Divides;
    DividesSum(d, a, n, x, -k);
    UnitSum(a, x, k, n);
    DividesLe(d, 1);
  }

  lemma UnitSum(a: int, x: int, k: int, n: int)
    requires a * x - 1 == k * n
    ensures x * a + -k * n == 1
  {
  }

  lemma DividesAbs(d: int, a: int)
    requires d > 0 && Divides(d, Abs(a))
    ensures Divides(d, a)
  {
    var k := DividesElim(d, Abs(a));
    DividesIntro(d, a, if a >= 0 then k else -k);
  }

  /** A number with an inverse is accepted, and the inverse returns. */
  lemma InvertibleAccepted(a: int, x: int, n: int)
    requires n > 1 && Cong(a * x, 1, n)
    ensures Accepted(a, n) && Ends(a, n)
  {
    hide Cong, Divides;
    var k := CongElim(a * x, 1, n);
    forall d | d > 1 && d % 2 == 1
      ensures !CommonDivisor(d, Abs(a), n)
    {
      if CommonDivisor(d, Abs(a), n) {
        DividesAbs(d, a);
        UnitDivisor(d, a, x, k, n);
      }
    }
    if a % n == 0 {
      NoZeroInverse(a, x, k, n);
    }
  }

  lemma NoZeroInverse(a: int, x: int, k: int, n: int)
    requires n > 1 && a % n == 0
    ensures a * x - 1 != k * n
  {
    if a * x - 1 == k * n {
      UnitDivisor(n, a, x, k, n);
    }
  }
}
