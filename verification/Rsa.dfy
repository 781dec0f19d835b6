/** The RSA private and public key operations over the limb-level routines. */
module Rsa {
  import opened Arith
  import opened Limbs
  import opened Bignum
  import opened Division
  import opened Exponentiation
  import opened NumberTheory
  import opened IntegerInverse
  import opened CarryRun
  import opened ModInverse

  const ERR_RSA_BAD_INPUT_DATA := -0x0400

  // ----- the number theory of a key

  /** The relations that key generation sets up between the numbers of a key. */
  ghost predicate KeyRelations(n: int, e: int, d: int, p: int, q: int, dp: int, dq: int, qp: int) {
    && Prime(p) && Prime(q) && p != q && p % 2 == 1 && q % 2 == 1
    && n == p * q && e > 0 && d > 0
    && (p - 1) * (q - 1) > 0 && Cong(e * d, 1, (p - 1) * (q - 1))
    && dp == d % (p - 1) && dq == d % (q - 1)
    && 0 <= qp < p && Cong(qp * q, 1, p)
  }

  /** Modulo one prime, the short exponent gives the same power as the long one. */
  lemma ShortExponent(t: nat, e: nat, d: nat, p: nat, k: int)
    requires Prime(p) && p >= 3 && d > 0 && k > 0 && Cong(e * d, 1, (p - 1) * k) && (p - 1) * k > 0
    ensures d % (p - 1) >= 0 && Cong(Pow(t, d % (p - 1)), Pow(t, d), p)
  {
    var m := d / (p - 1);
    var r := d % (p - 1);
    assert d == m * (p - 1) + r;
    assert r > 0 by {
      if r == 0 {
        var l := CongElim(e * d, 1, (p - 1) * k);
        UnitMultiple(e, m, l, k, p - 1);
      }
    }
    FermatExponent(p, t, r, m);
    CongSym(Pow(t, r + m * (p - 1)), Pow(t, r), p);
  }

  lemma UnitMultiple(e: int, m: int, l: int, k: int, w: int)
    requires w >= 2
    ensures e * (m * w) - 1 != l * (w * k)
  {
    var x := e * m - l * k;
    assert e * (m * w) - l * (w * k) == x * w;
    MulSign(x, w);
    if x <= 0 {
      MulLe(x, 0, w);
    }
  }

  lemma RecombineBound(t2: int, h: int, p: int, q: int)
    requires 0 <= t2 < q && 0 <= h < p
    ensures 0 <= t2 + h * q < p * q
  {
    MulLe(0, h, q);
    MulLe(h + 1, p, q);
  }

  lemma RecombineModP(t1: int, t2: int, h: int, p: int, q: int, qp: int)
    requires p > 0 && Cong(qp * q, 1, p) && h == ((t1 - t2) * qp) % p
    ensures Cong(h * q, t1 - t2, p)
  {
    hide Cong;
    var u := (t1 - t2) * qp;
    CongMod(u, p);
    CongSym(u, h, p);
    CongRefl(q, p);
    CongMul(h, u, q, q, p);
    CongRefl(t1 - t2, p);
    CongMul(t1 - t2, t1 - t2, qp * q, 1, p);
    assert u * q == (t1 - t2) * (qp * q);
    CongTrans(h * q, u * q, t1 - t2, p);
  }

  /** Garner: the recombined number is below n and has the two given residues. */
  lemma Recombine(t1: int, t2: int, h: int, p: int, q: int, qp: int)
    requires p > 0 && q > 0 && 0 <= t2 < q && Cong(qp * q, 1, p) && h == ((t1 - t2) * qp) % p
    ensures 0 <= t2 + h * q < p * q
    ensures Cong(t2 + h * q, t1, p) && Cong(t2 + h * q, t2, q)
  {
    hide Cong;
    RecombineModP(t1, t2, h, p, q, qp);
    RecombineBound(t2, h, p, q);
    CongRefl(t2, p);
    CongAdd(t2, t2, h * q, t1 - t2, p);
    CongIntro(t2 + h * q, t2, q, h);
  }

  /** Two residues modulo distinct primes fix a number modulo their product. */
  lemma ChineseUnique(x: int, y: int, p: int, q: int)
    requires Prime(p) && Prime(q) && p != q && Cong(x, y, p) && Cong(x, y, q)
    ensures p * q > 0 && Cong(x, y, p * q)
  {
    DistinctPrimes(p, q, x - y);
  }

  lemma PrimeOdd(p: int)
    requires Prime(p) && p % 2 == 1
    ensures p >= 3
  {
  }

  lemma KeyPrimes(n: int, e: int, d: int, p: int, q: int, dp: int, dq: int, qp: int)
    requires KeyRelations(n, e, d, p, q, dp, dq, qp)
    ensures Prime(p) && Prime(q) && p != q && p >= 3 && q >= 3 && n == p * q && n > 0 && e > 0 && d > 0
    ensures dp >= 0 && dq >= 0 && 0 <= qp < p && Cong(qp * q, 1, p)
    ensures dp == d % (p - 1) && dq == d % (q - 1)
    ensures (p - 1) * (q - 1) > 0 && Cong(e * d, 1, (p - 1) * (q - 1))
    ensures (q - 1) * (p - 1) > 0 && Cong(e * d, 1, (q - 1) * (p - 1))
  {
    hide Cong, Prime;
    PrimeOdd(p);
    PrimeOdd(q);
    MulLe(1, p, q);
  }

  lemma KeyParity(n: int, e: int, d: int, p: int, q: int, dp: int, dq: int, qp: int)
    requires KeyRelations(n, e, d, p, q, dp, dq, qp)
    ensures p % 2 == 1 && q % 2 == 1 && n % 2 == 1 && qp > 0
  {
    ParityProduct(p, q);
    KeyPrimes(n, e, d, p, q, dp, dq, qp);
    if qp == 0 {
      UnitNotZero(q, p);
    }
  }

  lemma UnitNotZero(q: int, p: int)
    requires p >= 2
    ensures !Cong(0 * q, 1, p)
  {
  }

  lemma KeyResidues(t: nat, n: int, e: int, d: int, p: int, q: int, dp: int, dq: int, qp: int)
    requires KeyRelations(n, e, d, p, q, dp, dq, qp)
    ensures dp >= 0 && dq >= 0 && d >= 0 && p > 0 && q > 0
    ensures Cong(Pow(t, dp), Pow(t, d), p) && Cong(Pow(t, dq), Pow(t, d), q)
  {
    hide Cong, Prime, KeyRelations, Pow;
    KeyPrimes(n, e, d, p, q, dp, dq, qp);
    ShortExponent(t, e, d, p, q - 1);
    ShortExponent(t, e, d, q, p - 1);
  }

  /** The CRT recombination equals the direct exponentiation t^d mod n. */
  lemma CrtIsDirect(t: nat, n: int, e: int, d: int, p: int, q: int, dp: int, dq: int, qp: int, h: int)
    requires KeyRelations(n, e, d, p, q, dp, dq, qp) && dp >= 0 && dq >= 0
    requires h == ((Pow(t, dp) % p - Pow(t, dq) % q) * qp) % p
    ensures n > 0 && d > 0 && Pow(t, dq) % q + h * q == Pow(t, d) % n
  {
    hide Cong, Prime, KeyRelations, Pow;
    KeyPrimes(n, e, d, p, q, dp, dq, qp);
    KeyResidues(t, n, e, d, p, q, dp, dq, qp);
    var w := Pow(t, d);
    var t1, t2 := Pow(t, dp) % p, Pow(t, dq) % q;
    Recombine(t1, t2, h, p, q, qp);
    var x := t2 + h * q;
    ResidueOf(x, t1, Pow(t, dp), w, p);
    ResidueOf(x, t2, Pow(t, dq), w, q);
    ChineseUnique(x, w, p, q);
    CongReduced(x, w, n);
  }

  lemma ResidueOf(x: int, r: int, a: int, b: int, m: int)
    requires m > 0 && Cong(x, r, m) && r == a % m && Cong(a, b, m)
    ensures Cong(x, b, m)
  {
    hide Cong;
    CongMod(a, m);
    CongSym(a, r, m);
    CongTrans(x, r, a, m);
    CongTrans(x, a, b, m);
  }

  /** Modulo one prime the exponents e and d cancel. */
  lemma CancelModPrime(t: nat, e: nat, d: nat, p: nat, k: int)
    requires Prime(p) && p >= 3 && e > 0 && d > 0 && k > 0 && (p - 1) * k > 0 && Cong(e * d, 1, (p - 1) * k)
    ensures e * d >= 0 && Cong(Pow(t, e * d), t, p)
  {
    hide Cong, Prime, Pow;
    var l := CongElim(e * d, 1, (p - 1) * k);
    MulLe(1, e, d);
    MulSign(l, (p - 1) * k);
    MulLe(0, l, k);
    assert l * ((p - 1) * k) == (l * k) * (p - 1);
    FermatExponent(p, t, 1, l * k);
    PowFirst(t);
  }

  lemma PowFirst(t: int)
    ensures Pow(t, 1) == t
  {
  }

  /** Decryption undoes encryption and the other way round: t^(e*d) = t modulo n. */
  lemma ExponentsCancel(t: nat, n: int, e: nat, d: nat, p: int, q: int, dp: int, dq: int, qp: int)
    requires KeyRelations(n, e, d, p, q, dp, dq, qp) && t < n
    ensures n > 0 && e * d >= 0 && Pow(t, e * d) % n == t
  {
    hide Cong, Prime, KeyRelations, Pow;
    KeyPrimes(n, e, d, p, q, dp, dq, qp);
    CancelModPrime(t, e, d, p, q - 1);
    CancelModPrime(t, e, d, q, p - 1);
    ChineseUnique(Pow(t, e * d), t, p, q);
    CongSym(Pow(t, e * d), t, n);
    CongReduced(t, Pow(t, e * d), n);
  }

  /** The public operation after the private one, and the private after the public, return the input. */
  lemma RoundTrip(t: nat, n: int, e: nat, d: nat, p: int, q: int, dp: int, dq: int, qp: int)
    requires KeyRelations(n, e, d, p, q, dp, dq, qp) && t < n
    ensures n > 0 && Pow(Pow(t, d) % n, e) % n == t && Pow(Pow(t, e) % n, d) % n == t
  {
    hide Cong, KeyRelations, Pow;
    ExponentsCancel(t, n, e, d, p, q, dp, dq, qp);
    PowOfResidue(t, d, e, n);
    PowOfResidue(t, e, d, n);
    assert d * e == e * d;
  }

  lemma PowOfResidue(t: nat, a: nat, b: nat, n: int)
    requires n > 0
    ensures a * b >= 0 && Pow(Pow(t, a) % n, b) % n == Pow(t, a * b) % n
  {
    hide Cong, Pow;
    MulLe(0, a, b);
    var x := Pow(t, a);
    CongMod(x, n);
    CongPow(x, x % n, b, n);
    PowPow(t, a, b);
    CongIff(Pow(x, b), Pow(x % n, b), n);
  }

  // ----- the operations on limbs

  /** Adding a smaller number into a buffer cannot lose a carry. */
  lemma NoCarryFromSmaller(a: seq<Limb>, n: nat, b: seq<Limb>)
    requires Val(b) == 0 || Val(a) <= Val(b)
    ensures !CarryLost(Fit(a, n), b)
  {
    hide Val, Fit;
    if Val(b) == 0 {
      NoCarryFromZero(Fit(a, n), b);
    } else {
      SigMono(a, b);
    }
  }

  /** T = (T1 - T2) * QP mod P, with T1 overwritten by the product. */
  method CrtQuotient(T: Mpi, T1: Mpi, T2: Mpi, P: Mpi, QP: Mpi)
    requires T !in {T1, T2, P, QP} && T1 !in {T2, P, QP}
    requires T1.s == 1 && T2.s == 1 && P.s == 1 && QP.s == 1 && QP.Mag() > 0 && P.Mag() > 0
    modifies T, T1
    ensures T.s == 1 && T1.Valid()
    ensures T.Mag() == ((old(T1.Mag()) - T2.Mag()) * QP.Mag()) % P.Mag()
  {
    hide Val, CarryLost;
    ghost var t1, t2, qp := T1.Mag(), T2.Mag(), QP.Mag();
    SubMpi(T, T1, T2);
    ghost var s, m := T.s, T.Mag();
    MulMpi(T1, T, QP);
    NonzeroProduct(m, qp);
    MulAssoc(s, m, qp);
    var ret := ModMpi(T, T1, P);
  }

  /** T = T2 + T * Q, with T1 overwritten by the product. */
  method CrtSum(T: Mpi, T1: Mpi, T2: Mpi, Q: Mpi)
    requires T !in {T1, T2, Q} && T1 !in {T2, Q}
    requires T.s == 1 && T2.s == 1 && Q.s == 1 && T2.Mag() < Q.Mag()
    modifies T, T1
    ensures T.s == 1 && T.Mag() == T2.Mag() + old(T.Mag()) * Q.Mag()
  {
    hide Val, CarryLost, Fit;
    MulMpi(T1, T, Q);
    MultipleBound(T.Mag(), Q.Mag(), T2.Mag());
    NoCarryFromSmaller(T2.p, |T.p|, T1.p);
    AddMpi(T, T2, T1);
  }

  lemma NonzeroProduct(m: int, k: int)
    requires m >= 0 && k > 0
    ensures m * k == 0 <==> m == 0
  {
  }

  lemma MultipleBound(h: int, q: int, t: int)
    requires h >= 0 && 0 <= t < q
    ensures h * q == 0 || t <= h * q
  {
  }

  /** A key pair; RN, RP and RQ cache the Montgomery constants between calls. */
  class Context {
    const N: Mpi
    const E: Mpi
    const D: Mpi
    const P: Mpi
    const Q: Mpi
    const DP: Mpi
    const DQ: Mpi
    const QP: Mpi
    const RN: Mpi
    const RP: Mpi
    const RQ: Mpi

    constructor (n: Mpi, e: Mpi, d: Mpi, p: Mpi, q: Mpi, dp: Mpi, dq: Mpi, qp: Mpi, rn: Mpi, rp: Mpi, rq: Mpi)
      ensures N == n && E == e && D == d && P == p && Q == q && DP == dp && DQ == dq && QP == qp
      ensures RN == rn && RP == rp && RQ == rq
    {
      N, E, D, P, Q, DP, DQ, QP, RN, RP, RQ := n, e, d, p, q, dp, dq, qp, rn, rp, rq;
    }

    ghost function Numbers(): set<Mpi> {
      {N, E, D, P, Q, DP, DQ, QP}
    }

    ghost predicate Positive(X: Mpi)
      reads X
    {
      X.s == 1 && |X.p| >= 1
    }

    /** The numbers of the key, apart from the cached constants. */
    ghost predicate KeyOk()
      reads N, E, D, P, Q, DP, DQ, QP
    {
      && Positive(N) && Positive(E) && Positive(D) && Positive(P) && Positive(Q)
      && Positive(DP) && Positive(DQ) && Positive(QP)
      && KeyRelations(N.Mag(), E.Mag(), D.Mag(), P.Mag(), Q.Mag(), DP.Mag(), DQ.Mag(), QP.Mag())
    }

    ghost predicate Valid()
      reads N, E, D, P, Q, DP, DQ, QP, RN, RP, RQ
    {
      && RN !in Numbers() && RP !in Numbers() && RQ !in Numbers() && RN != RP && RN != RQ && RP != RQ
      && KeyOk()
      && N.Mag() > 0 && P.Mag() > 0 && Q.Mag() > 0
      && CacheOk(RN, N) && CacheOk(RP, P) && CacheOk(RQ, Q)
    }

    /** Numbers with the relations of a key make a key, with empty caches. */
    lemma Complete()
      requires RN !in Numbers() && RP !in Numbers() && RQ !in Numbers() && RN != RP && RN != RQ && RP != RQ
      requires RN.p == [] && RP.p == [] && RQ.p == []
      requires N.s == 1 && E.s == 1 && D.s == 1 && P.s == 1 && Q.s == 1 && DP.s == 1 && DQ.s == 1 && QP.s == 1
      requires KeyRelations(N.Mag(), E.Mag(), D.Mag(), P.Mag(), Q.Mag(), DP.Mag(), DQ.Mag(), QP.Mag())
      ensures Valid()
    {
      hide Val, Cong, Prime;
      ghost var e, d, p, q := E.Mag(), D.Mag(), P.Mag(), Q.Mag();
      KeyPositive(N.Mag(), e, d, p, q, DP.Mag(), DQ.Mag(), QP.Mag());
      LowBit(N.p);
      LowBit(E.p);
      LowBit(D.p);
      LowBit(P.p);
      LowBit(Q.p);
      LowBit(DP.p);
      LowBit(DQ.p);
      LowBit(QP.p);
    }

    /** What the operations need of a key. */
    lemma Facts()
      requires KeyOk()
      ensures Positive(N) && Positive(E) && Positive(P) && Positive(Q) && Positive(DP) && Positive(DQ) && Positive(QP)
      ensures N.p[0] % 2 == 1 && P.p[0] % 2 == 1 && Q.p[0] % 2 == 1
      ensures QP.Mag() > 0 && D.Mag() > 0
    {
      hide Val, Pow, Cong, Prime, KeyRelations, CacheOk;
      KeyPrimes(N.Mag(), E.Mag(), D.Mag(), P.Mag(), Q.Mag(), DP.Mag(), DQ.Mag(), QP.Mag());
      KeyParity(N.Mag(), E.Mag(), D.Mag(), P.Mag(), Q.Mag(), DP.Mag(), DQ.Mag(), QP.Mag());
      LowBit(N.p);
      LowBit(P.p);
      LowBit(Q.p);
    }

    lemma CrtResult(t: nat, h: int)
      requires KeyOk() && P.Mag() > 0 && Q.Mag() > 0
      requires h == ((Pow(t, DP.Mag()) % P.Mag() - Pow(t, DQ.Mag()) % Q.Mag()) * QP.Mag()) % P.Mag()
      ensures N.Mag() > 0 && Pow(t, DQ.Mag()) % Q.Mag() + h * Q.Mag() == Pow(t, D.Mag()) % N.Mag()
    {
      hide Val, Pow, Cong, Prime, KeyRelations;
      CrtIsDirect(t, N.Mag(), E.Mag(), D.Mag(), P.Mag(), Q.Mag(), DP.Mag(), DQ.Mag(), QP.Mag(), h);
    }

    /** T = T^D mod N by the Chinese remainder theorem. */
    method Private(T: Mpi) returns (ret: int)
      requires Valid() && T.s == 1 && T !in Numbers() && T !in {RN, RP, RQ}
      modifies T, RP, RQ
      ensures Valid()
      ensures ret == if old(T.Mag()) >= N.Mag() then ERR_RSA_BAD_INPUT_DATA else 0
      ensures ret == 0 ==> T.s == 1 && T.Mag() == Pow(old(T.Mag()), D.Mag()) % N.Mag()
    {
      hide Val, Pow, Sign, CacheOk, Sig, KeyOk;
      ghost var t := T.Mag();
      Facts();
      var cmp := CmpMpi(T, N);
      SignFacts(T.Mag() - N.Mag());
      if cmp >= 0 {
        return ERR_RSA_BAD_INPUT_DATA;
      }
      var T1 := new Mpi();
      var T2 := new Mpi();
      ret := ExpMod(T1, T, DP, P, RP);
      ret := ExpMod(T2, T, DQ, Q, RQ);
      CrtQuotient(T, T1, T2, P, QP);
      CrtResult(t, T.Mag());
      CrtSum(T, T1, T2, Q);
      return 0;
    }

    /** T = T^E mod N. */
    method Public(T: Mpi) returns (ret: int)
      requires Valid() && T.s == 1 && T !in Numbers() && T !in {RN, RP, RQ}
      modifies T, RN
      ensures Valid()
      ensures ret == if old(T.Mag()) >= N.Mag() then ERR_RSA_BAD_INPUT_DATA else 0
      ensures ret == 0 ==> T.s == 1 && T.Mag() == Pow(old(T.Mag()), E.Mag()) % N.Mag()
    {
      hide Val, Pow, Sign, CacheOk, Sig, KeyOk;
      Facts();
      var cmp := CmpMpi(T, N);
      SignFacts(T.Mag() - N.Mag());
      if cmp >= 0 {
        return ERR_RSA_BAD_INPUT_DATA;
      }
      ret := ExpMod(T, T, E, N, RN);
      return 0;
    }

    /** Signing and then applying the public operation gives back the input. */
    method PrivateThenPublic(T: Mpi) returns (ret: int)
      requires Valid() && T.s == 1 && T !in Numbers() && T !in {RN, RP, RQ}
      modifies T, RN, RP, RQ
      ensures Valid()
      ensures ret == 0 ==> T.s == 1 && T.Mag() == old(T.Mag())
      ensures ret == 0 <==> old(T.Mag()) < N.Mag()
    {
      hide Val, Pow, CacheOk;
      ghost var t := T.Mag();
      ret := Private(T);
      if ret == 0 {
        ret := Public(T);
        RoundTrip(t, N.Mag(), E.Mag(), D.Mag(), P.Mag(), Q.Mag(), DP.Mag(), DQ.Mag(), QP.Mag());
      }
    }
  }

  // ----- key derivation

  lemma PrimesCoprime(p: int, q: int)
    requires Prime(p) && Prime(q) && p != q
    ensures Gcd(q, p) == 1
  {
    GcdDivides(q, p);
    DividesLe(Gcd(q, p), p);
    DividesLe(Gcd(q, p), q);
  }

  lemma InversePositive(e: int, d: int, h: int)
    requires h >= 2 && d >= 0 && Cong(e * d, 1, h)
    ensures d > 0
  {
  }

  /** Euler's function of the product of two primes. */
  function Phi(p: int, q: int): int {
    (p - 1) * (q - 1)
  }

  lemma Totient(p: int, q: int)
    requires Prime(p) && Prime(q) && p % 2 == 1 && q % 2 == 1
    ensures p > 2 && q > 2 && Phi(p, q) > 2 && Phi(p, q) % 2 == 0
  {
    PrimeOdd(p);
    PrimeOdd(q);
    MulLe(2, p - 1, q - 1);
    ParityProduct(p - 1, q - 1);
  }

  lemma OddNotPower(p: int)
    requires p > 1 && p % 2 == 1
    ensures !PowerOfTwo(p)
  {
  }

  /** X = A - 1 for a positive A. */
  method Predecessor(A: Mpi) returns (X: Mpi)
    requires A.s == 1 && A.Mag() >= 1
    ensures fresh(X) && X.s == 1 && X.Mag() == A.Mag() - 1
  {
    hide Val;
    var one := new Mpi();
    Lset(one, 1);
    X := new Mpi();
    SubMpi(X, A, one);
  }

  /** H = (P - 1)(Q - 1), with its factors. */
  method TotientOf(P: Mpi, Q: Mpi) returns (P1: Mpi, Q1: Mpi, H: Mpi)
    requires P.s == 1 && Q.s == 1 && Prime(P.Mag()) && Prime(Q.Mag()) && P.Mag() % 2 == 1 && Q.Mag() % 2 == 1
    ensures fresh({P1, Q1, H}) && P1 != Q1 && P1 != H && Q1 != H && P1.s == 1 && Q1.s == 1 && H.s == 1
    ensures P1.Mag() == P.Mag() - 1 > 1 && Q1.Mag() == Q.Mag() - 1 > 1
    ensures H.Mag() == Phi(P.Mag(), Q.Mag()) > 2 && H.Mag() % 2 == 0
  {
    hide Val, Prime;
    Totient(P.Mag(), Q.Mag());
    P1 := Predecessor(P);
    Q1 := Predecessor(Q);
    H := new Mpi();
    MulMpi(H, P1, Q1);
  }

  /** What remains to be shown of the numbers of a key once the two inverses are known. */
  lemma Related(n: int, e: int, d: int, p: int, q: int, dp: int, dq: int, qp: int)
    requires Prime(p) && Prime(q) && p != q && p % 2 == 1 && q % 2 == 1 && e > 0 && p > 2 && q > 2
    requires Phi(p, q) > 2 && n == p * q
    requires e % 2 == 1 ==> d >= 0 && Cong(e * d, 1, Phi(p, q)) && dp == d % (p - 1) && dq == d % (q - 1)
    requires e % 2 == 0 ==> !Cong(e * d, 1, Phi(p, q))
    requires 0 <= qp < p && Cong(q * qp, 1, p)
    ensures KeyRelations(n, e, d, p, q, dp, dq, qp) <==> e % 2 == 1
  {
    hide Prime, Cong;
    assert q * qp == qp * q;
    if e % 2 == 1 {
      InversePositive(e, d, Phi(p, q));
    }
  }

  lemma AcceptedPositive(e: nat, h: int)
    requires h > 1 && Accepted(e, h)
    ensures e > 0
  {
  }

  lemma PrimesAccepted(p: int, q: int)
    requires Prime(p) && Prime(q) && p != q && p % 2 == 1
    ensures Gcd(Abs(q), p) == 1 && p > 2 && Ends(q, p)
  {
    PrimesCoprime(p, q);
    PrimeOdd(p);
    OddNotPower(p);
  }

  /**
   * The last steps of rsa_gen_key on exact integers: the numbers of a key from two primes and an exponent. The gcd test
   * accepts exactly the exponents that have no odd divisor in common with (p-1)(q-1). An odd exponent that passes gives a
   * key; an even one passes too, and then the numbers are not a key.
   */
  method KeyNumbers(p: int, q: int, e: nat) returns (ret: int, n: int, d: int, dp: int, dq: int, qp: int)
    requires Prime(p) && Prime(q) && p != q && p % 2 == 1 && q % 2 == 1 && Phi(p, q) > 0 && Ends(e, Phi(p, q))
    ensures ret == 0 <==> Accepted(e, Phi(p, q))
    ensures e % 2 == 1 ==> (ret == 0 <==> Gcd(e, Phi(p, q)) == 1)
    ensures ret == 0 ==> (KeyRelations(n, e, d, p, q, dp, dq, qp) <==> e % 2 == 1)
  {
    hide Prime, Gcd, Cong, Accepted, Ends, KeyRelations, Phi;
    n := p * q;
    var h := Phi(p, q);
    Totient(p, q);
    d, dp, dq, qp := 0, 0, 0, 0;
    ret, d := InvMod(e, h);
    if ret != 0 {
      return;
    }
    AcceptedPositive(e, h);
    dp := d % (p - 1);
    dq := d % (q - 1);
    PrimesAccepted(p, q);
    ret, qp := InvMod(q, p);
    Related(n, e, d, p, q, dp, dq, qp);
  }

  /** One of the two inverses of a key loses a carry. */
  predicate KeyLoses(e: int, p: int, q: int) {
    (Phi(p, q) > 0 && e % Phi(p, q) > 0 && LosesCarry(e, Phi(p, q))) || (p > 0 && q % p > 0 && LosesCarry(q, p))
  }

  /** No key of small primes does. */
  lemma SmallKey(e: int, p: int, q: int)
    requires Phi(p, q) < SMALL && p < SMALL
    ensures !KeyLoses(e, p, q)
  {
    hide LosesCarry, Phi;
    if Phi(p, q) > 0 && e % Phi(p, q) > 0 {
      SmallModulus(e, Phi(p, q));
    }
    if p > 0 && q % p > 0 {
      SmallModulus(q, p);
    }
  }

  /** QP = Q^-1 mod P. */
  method InverseOfPrime(QP: Mpi, P: Mpi, Q: Mpi)
    requires QP != P && QP != Q && P.s == 1 && Q.s == 1 && Prime(P.Mag()) && Prime(Q.Mag()) && P.Mag() != Q.Mag()
    requires P.Mag() % 2 == 1
    modifies QP
    ensures P.Mag() > 2 && Q.Mag() % P.Mag() > 0 && QP.Valid() && QP.Value() == CodeInverse(Q.Mag(), P.Mag())
    ensures !LosesCarry(Q.Mag(), P.Mag()) ==>
              QP.s == 1 && QP.Mag() < P.Mag() && Cong(Q.Mag() * QP.Mag(), 1, P.Mag())
  {
    hide Val, Prime, Gcd, Cong, Accepted, Ends, LosesCarry, CodeInverse;
    PrimesAccepted(P.Mag(), Q.Mag());
    var ret := InvMpi(QP, Q, P);
  }

  /**
   * The same steps on limbs. Unless an inverse loses a carry, an odd exponent that passes gives a key; an even one passes
   * too, and then the numbers are not a key.
   */
  method DeriveKey(N: Mpi, E: Mpi, D: Mpi, P: Mpi, Q: Mpi, DP: Mpi, DQ: Mpi, QP: Mpi) returns (ret: int)
    requires {N, D, DP, DQ, QP} !! {E, P, Q} && N !in {D, DP, DQ, QP} && D !in {DP, DQ, QP} && DP !in {DQ, QP} && DQ != QP
    requires E.s == 1 && P.s == 1 && Q.s == 1 && P.Mag() != Q.Mag()
    requires Prime(P.Mag()) && Prime(Q.Mag()) && P.Mag() % 2 == 1 && Q.Mag() % 2 == 1 && Phi(P.Mag(), Q.Mag()) > 0
    requires Ends(E.Mag(), Phi(P.Mag(), Q.Mag()))
    modifies N, D, DP, DQ, QP
    ensures ret == 0 <==> Accepted(E.Mag(), Phi(P.Mag(), Q.Mag()))
    ensures E.Mag() % 2 == 1 ==> (ret == 0 <==> Gcd(E.Mag(), Phi(P.Mag(), Q.Mag())) == 1)
    ensures N.s == 1 && N.Mag() == P.Mag() * Q.Mag()
    ensures ret == 0 ==> E.Mag() % Phi(P.Mag(), Q.Mag()) > 0 && P.Mag() > 2 && Q.Mag() > 2 && Q.Mag() % P.Mag() > 0
    ensures ret == 0 ==>
              && D.Valid() && D.Value() == CodeInverse(E.Mag(), Phi(P.Mag(), Q.Mag()))
              && DP.s == 1 && DP.Mag() == D.Value() % (P.Mag() - 1) && DQ.s == 1 && DQ.Mag() == D.Value() % (Q.Mag() - 1)
              && QP.Valid() && QP.Value() == CodeInverse(Q.Mag(), P.Mag())
    ensures ret == 0 && !KeyLoses(E.Mag(), P.Mag(), Q.Mag()) ==>
              (KeyRelations(N.Mag(), E.Mag(), D.Mag(), P.Mag(), Q.Mag(), DP.Mag(), DQ.Mag(), QP.Mag()) <==> E.Mag() % 2 == 1)
    ensures ret == 0 && !KeyLoses(E.Mag(), P.Mag(), Q.Mag()) && E.Mag() % 2 == 1 ==>
              N.s == 1 && D.s == 1 && DP.s == 1 && DQ.s == 1 && QP.s == 1
  {
    hide Val, Prime, Gcd, Cong, Accepted, Ends, KeyRelations, Phi, LosesCarry, CodeInverse;
    MulMpi(N, P, Q);
    var P1, Q1, H := TotientOf(P, Q);
    ret := Exponents(E, D, DP, DQ, P1, Q1, H);
    if ret != 0 {
      return;
    }
    AcceptedPositive(E.Mag(), H.Mag());
    InverseOfPrime(QP, P, Q);
    if !KeyLoses(E.Mag(), P.Mag(), Q.Mag()) {
      Related(N.Mag(), E.Mag(), D.Mag(), P.Mag(), Q.Mag(), DP.Mag(), DQ.Mag(), QP.Mag());
    }
  }

  /** D = E^-1 mod H, and D modulo P - 1 and Q - 1. */
  method Exponents(E: Mpi, D: Mpi, DP: Mpi, DQ: Mpi, P1: Mpi, Q1: Mpi, H: Mpi) returns (ret: int)
    requires {D, DP, DQ} !! {E, P1, Q1, H} && D != DP && D != DQ && DP != DQ
    requires E.s == 1 && P1.s == 1 && Q1.s == 1 && H.s == 1 && P1.Mag() > 0
    requires Q1.Mag() > 0 && H.Mag() > 0 && H.Mag() % 2 == 0 && Ends(E.Mag(), H.Mag())
    modifies D, DP, DQ
    ensures ret == 0 <==> Accepted(E.Mag(), H.Mag())
    ensures E.Mag() % 2 == 1 ==> (ret == 0 <==> Gcd(E.Mag(), H.Mag()) == 1)
    ensures E.Mag() % 2 == 0 ==> !Cong(E.Mag() * D.Mag(), 1, H.Mag())
    ensures ret == 0 ==> E.Mag() % H.Mag() > 0 && D.Valid() && D.Value() == CodeInverse(E.Mag(), H.Mag())
    ensures ret == 0 ==> DP.s == 1 && DP.Mag() == D.Value() % P1.Mag() && DQ.s == 1 && DQ.Mag() == D.Value() % Q1.Mag()
    ensures ret == 0 && !LosesCarry(E.Mag(), H.Mag()) && E.Mag() % 2 == 1 ==>
              D.s == 1 && Cong(E.Mag() * D.Mag(), 1, H.Mag())
  {
    hide Val, Gcd, Cong, Accepted, Ends, LosesCarry, CodeInverse;
    ret := InvMpi(D, E, H);
    BothEven(E.Mag(), D.Mag(), H.Mag());
    if ret != 0 {
      return;
    }
    var r := ModMpi(DP, D, P1);
    r := ModMpi(DQ, D, Q1);
  }

  lemma InverseNotZero(e: int, d: int, h: int)
    requires h > 1 && Cong(e * d, 1, h)
    ensures d != 0
  {
  }

  lemma BothEven(e: int, d: int, h: int)
    requires h > 0 && h % 2 == 0
    ensures e % 2 == 0 ==> !Cong(e * d, 1, h)
  {
    hide Cong;
    if e % 2 == 0 {
      BothEvenNoInverse(e, d, h);
    }
  }

  /** The exponent 4 passes the gcd test for the primes 3 and 7, and has no inverse. */
  method EvenExponentExample() returns (ret: int, E: Mpi, P: Mpi, Q: Mpi, D: Mpi)
    ensures E.Mag() == 4 && P.Mag() == 3 && Q.Mag() == 7 && ret == 0 && !Cong(E.Mag() * D.Mag(), 1, 12)
  {
    hide Val, Cong, KeyRelations, OddCoprime, PowerOfTwo, KeyLoses;
    E := FromLimb(1, 4);
    P := FromLimb(1, 3);
    Q := FromLimb(1, 7);
    var N := FromLimb(1, 0);
    D := FromLimb(1, 0);
    var DP := FromLimb(1, 0);
    var DQ := FromLimb(1, 0);
    var QP := FromLimb(1, 0);
    OddCoprimeExample();
    ret := DeriveKey(N, E, D, P, Q, DP, DQ, QP);
    BothEven(4, D.Mag(), 12);
  }

  lemma OddCoprimeExample()
    ensures Prime(3) && Prime(7) && OddCoprime(4, 12)
  {
    assert Prime(3);
    assert Prime(7);
    forall d | d > 1 && d % 2 == 1
      ensures !CommonDivisor(d, Abs(4), 12)
    {
      if Divides(d, 4) {
        DividesLe(d, 4);
      }
    }
  }

  lemma Distribute(e: int, f: int, k: int, x: int, y: int)
    ensures (e * f - k * y) * x == e * (f * x) - k * (x * y)
  {
  }

  lemma NotOne(m: int, x: int)
    requires x > 1
    ensures m * x != 1
  {
    MulSign(m, x);
  }

  /** A number with an inverse modulo x * y is not a multiple of x. */
  lemma ShortNotZero(e: int, d: int, x: int, y: int)
    requires x > 1 && x * y > 0 && Cong(e * d, 1, x * y)
    ensures d % x > 0
  {
    hide Cong;
    var k := CongElim(e * d, 1, x * y);
    Distribute(e, d / x, k, x, y);
    NotOne(e * (d / x) - k * y, x);
  }

  lemma KeyPositive(n: int, e: int, d: int, p: int, q: int, dp: int, dq: int, qp: int)
    requires KeyRelations(n, e, d, p, q, dp, dq, qp)
    ensures n > 0 && e > 0 && d > 0 && p > 0 && q > 0 && dp > 0 && dq > 0 && qp > 0
  {
    hide Cong, Prime, KeyRelations;
    KeyPrimes(n, e, d, p, q, dp, dq, qp);
    ShortNotZero(e, d, p - 1, q - 1);
    ShortNotZero(e, d, q - 1, p - 1);
    assert qp * q == q * qp;
    InverseNotZero(q, qp, p);
  }

  /** A key made from two primes and an odd exponent is ready for the private and the public operation. */
  method NewKey(E: Mpi, P: Mpi, Q: Mpi) returns (ret: int, key: Context)
    requires E != P && E != Q && P != Q && E.s == 1 && P.s == 1 && Q.s == 1 && P.Mag() != Q.Mag()
    requires Prime(P.Mag()) && Prime(Q.Mag()) && P.Mag() % 2 == 1 && Q.Mag() % 2 == 1 && Phi(P.Mag(), Q.Mag()) > 0
    requires Ends(E.Mag(), Phi(P.Mag(), Q.Mag()))
    ensures ret == 0 <==> Accepted(E.Mag(), Phi(P.Mag(), Q.Mag()))
    ensures key.E == E && key.P == P && key.Q == Q && fresh(key.Numbers() - {E, P, Q}) && fresh({key.RN, key.RP, key.RQ})
    ensures ret == 0 && !KeyLoses(E.Mag(), P.Mag(), Q.Mag()) && E.Mag() % 2 == 1 ==> key.Valid()
  {
    hide Val, Prime, Gcd, Cong, Accepted, Ends, KeyRelations, Phi, KeyLoses, CodeInverse;
    var N := new Mpi();
    var D := new Mpi();
    var DP := new Mpi();
    var DQ := new Mpi();
    var QP := new Mpi();
    var RN := new Mpi();
    var RP := new Mpi();
    var RQ := new Mpi();
    ret := DeriveKey(N, E, D, P, Q, DP, DQ, QP);
    key := new Context(N, E, D, P, Q, DP, DQ, QP, RN, RP, RQ);
    if ret == 0 && !KeyLoses(E.Mag(), P.Mag(), Q.Mag()) && E.Mag() % 2 == 1 {
      key.Complete();
    }
  }
}
