/** Binary gcd (HAC 14.54) and modular inverse by binary extended Euclid (HAC 14.61), on limbs. */
module ModInverse {
  import opened Common
  import opened Arith
  import opened Limbs
  import opened Bignum
  import opened Shift
  import opened Division
  import opened NumberTheory
  import opened IntegerInverse
  import opened CarryRun

  // ----- gcd

  /** Divides out the factors of two. */
  method StripTwos(T: Mpi, ghost b: int)
    requires T.Mag() > 0
    modifies T`p
    ensures 0 < T.Mag() <= old(T.Mag()) && T.Mag() % 2 == 1 && SameOdd(old(T.Mag()), b, T.Mag(), b)
  {
    hide SameOdd, Val, Pow2;
    ghost var t := T.Mag();
    SameOddRefl(t, b);
    LowBit(T.p);
    Pow2One();
    while T.p[0] % 2 == 0
      invariant |T.p| >= 1 && 0 < T.Mag() <= t && SameOdd(t, b, T.Mag(), b) && T.Mag() % 2 == T.p[0] % 2
      decreases T.Mag()
    {
      SameOddHalf(T.Mag(), b);
      SameOddTrans(t, b, T.Mag(), b, T.Mag() / 2, b);
      ShiftR(T, 1);
      LowBit(T.p);
    }
  }

  /** One turn of the gcd loop. */
  method GcdTurn(TA: Mpi, TB: Mpi, ghost a: int, ghost b: int)
    requires TA != TB && TA.s == 1 && TB.s == 1 && TA.Mag() > 0 && TB.Mag() > 0 && SameOdd(a, b, TA.Mag(), TB.Mag())
    modifies TA, TB
    ensures TA.s == 1 && TB.s == 1 && TB.Mag() > 0 && SameOdd(a, b, TA.Mag(), TB.Mag())
    ensures TA.Mag() + TB.Mag() < old(TA.Mag() + TB.Mag()) && (TA.Mag() == 0 ==> TB.Mag() % 2 == 1)
  {
    hide SameOdd, Val, Pow2;
    Pow2One();
    ghost var tb := TB.Mag();
    SameOddTrans(a, b, TA.Mag(), tb, TA.Mag(), tb);
    StripTwos(TA, tb);
    ghost var x := TA.Mag();
    SameOddTrans(a, b, old(TA.Mag()), tb, x, tb);
    StripTwos(TB, x);
    ghost var y := TB.Mag();
    SameOddSwap(tb, x, y, x);
    SameOddTrans(a, b, x, tb, x, y);
    GcdStep(a, b, x, y);
    var cmp := CmpMpi(TA, TB);
    SignFacts(x - y);
    var ret;
    if cmp >= 0 {
      ret := SubAbs(TA, TA, TB);
      ShiftR(TA, 1);
    } else {
      ret := SubAbs(TB, TB, TA);
      ShiftR(TB, 1);
    }
  }

  /** mpi_gcd: the odd part of the gcd, or |B| if A is 0. */
  method GcdMpi(G: Mpi, A: Mpi, B: Mpi)
    requires A.Mag() != 0 ==> B.Mag() != 0
    modifies G
    ensures G.s == 1
    ensures old(A.Mag()) == 0 ==> G.Mag() == old(B.Mag())
    ensures old(A.Mag()) != 0 ==> OddGcd(G.Mag(), old(A.Mag()), old(B.Mag()))
    ensures old(A.Mag()) != 0 ==>
              (G.Mag() == Gcd(old(A.Mag()), old(B.Mag())) <==> !old(A.Mag() % 2 == 0 && B.Mag() % 2 == 0))
  {
    hide SameOdd, OddGcd, Gcd, Val, Fit, Sign;
    ghost var a, b := A.Mag(), B.Mag();
    var TG := new Mpi();
    var TA := new Mpi();
    var TB := new Mpi();
    Lset(TG, 1);
    Copy(TA, A);
    Copy(TB, B);
    TA.s, TB.s := 1, 1;
    SameOddRefl(a, b);
    SignZero(1, TA.Mag());
    var cmp := CmpInt(TA, 0);
    while cmp != 0
      invariant TG.s == 1 && TG.Mag() == 1 && TA.s == 1 && TB.s == 1
      invariant (cmp == 0 <==> TA.Mag() == 0) && SameOdd(a, b, TA.Mag(), TB.Mag())
      invariant a > 0 ==> TB.Mag() > 0 && (TA.Mag() == 0 ==> TB.Mag() % 2 == 1)
      invariant a == 0 ==> TA.Mag() == 0 && TB.Mag() == b
      decreases TA.Mag() + TB.Mag()
    {
      GcdTurn(TA, TB, a, b);
      SignZero(1, TA.Mag());
      cmp := CmpInt(TA, 0);
    }
    if a > 0 {
      OddGcdDone(TB.Mag(), a, b);
      OddGcdIsGcd(TB.Mag(), a, b);
    }
    MulMpi(G, TG, TB);
  }

  // ----- the extended algorithm

  method IsOdd(X: Mpi) returns (odd: bool)
    requires |X.p| >= 1
    ensures odd == (X.Mag() % 2 == 1)
  {
    hide Val;
    LowBit(X.p);
    odd := X.p[0] % 2 == 1;
  }

  method HalveMpi(X: Mpi)
    modifies X`p
    ensures X.Mag() == old(X.Mag()) / 2 && |X.p| == |old(X.p)|
  {
    hide Val, Pow2;
    Pow2One();
    ShiftR(X, 1);
  }

  /** A number as a buffer of the run. */
  ghost function CoefOf(X: Mpi): Coef
    reads X
  {
    Coef(X.s, X.Mag(), |X.p|)
  }

  lemma SumIs(s: int, x: seq<Limb>, b: seq<Limb>)
    ensures Sum(Coef(s, Val(x), |x|), Val(b)) == Coef(s, Val(x) + Val(b) - Lost(x, b), SumLen(x, b))
  {
    hide Val, Place, Width, Sig, Lossy, CarryLost;
    LossyIs(s, x, b);
    WidthIs(b);
  }

  lemma DiffIs(x: seq<Limb>, b: seq<Limb>)
    ensures DiffLen(x, b) == if Val(x) >= Val(b) then |x| else Max(|x|, Width(Val(b)))
  {
    hide Val, Place, Width;
    WidthIs(b);
    ValSig(b);
  }

  lemma DifferenceMag(s: int, t: int, a: int, u: int, b: int, m: int)
    requires (s == 1 || s == -1) && (u == 1 || u == -1)
    ensures s != u && t == (if a >= b then s else -s) && t * m == s * a + u * b ==> m == if a >= b then a - b else b - a
  {
  }

  lemma SignedMinus(s: int, b: int)
    ensures -s * b == -(s * b)
  {
  }

  /** X += B. */
  method AddTo(X: Mpi, B: Mpi)
    requires X.Valid() && B.Valid() && X != B
    modifies X
    ensures X.Valid() && CoefOf(X) == Plus(old(CoefOf(X)), B.s, B.Mag()) && |X.p| >= |old(X.p)|
  {
    hide Val, Sum, SumLen, DiffLen, Lost, SumFails;
    SumIs(X.s, X.p, B.p);
    DiffIs(X.p, B.p);
    ghost var s, a := X.s, X.Mag();
    AddMpi(X, X, B);
    DifferenceMag(s, X.s, a, B.s, B.Mag(), X.Mag());
  }

  /** X -= B. */
  method SubFrom(X: Mpi, B: Mpi)
    requires X.Valid() && B.Valid() && X != B
    modifies X
    ensures X.Valid() && CoefOf(X) == Plus(old(CoefOf(X)), -B.s, B.Mag()) && |X.p| >= |old(X.p)|
  {
    hide Val, Sum, SumLen, DiffLen, Lost, SumFails;
    SumIs(X.s, X.p, B.p);
    DiffIs(X.p, B.p);
    ghost var s, a, b := X.s, X.Mag(), B.Mag();
    SubMpi(X, X, B);
    SignedMinus(B.s, b);
    DifferenceMag(s, X.s, a, -B.s, b, X.Mag());
  }

  /** One line of the algorithm: t and its coefficients, meant to keep t = c1 * ta + c2 * tb. */
  class Row {
    const t: Mpi
    const c1: Mpi
    const c2: Mpi

    constructor (x: Mpi, x1: int, x2: int)
      requires 0 <= x1 <= 1 && 0 <= x2 <= 1 && x.s == 1
      ensures Valid() && fresh({t, c1, c2}) && (|x.p| >= 1 ==> |t.p| >= 1)
      ensures State() == Line(x.Mag(), Coef(1, x1, 1), Coef(1, x2, 1))
    {
      hide Val;
      var T := new Mpi();
      var C1 := new Mpi();
      var C2 := new Mpi();
      CopyLimbs(x.p);
      Copy(T, x);
      Lset(C1, x1);
      Lset(C2, x2);
      t, c1, c2 := T, C1, C2;
    }

    ghost predicate Valid()
      reads t, c1, c2
    {
      t != c1 && t != c2 && c1 != c2 && t.s == 1 && c1.Valid() && c2.Valid() && |c1.p| >= 1 && |c2.p| >= 1
    }

    ghost predicate Apart(X: Mpi) {
      X != t && X != c1 && X != c2
    }

    /** The line as a line of the run. */
    ghost function State(): Line
      reads t, c1, c2
    {
      Line(t.Mag(), CoefOf(c1), CoefOf(c2))
    }

    lemma LineOk()
      requires Valid()
      ensures State().Ok()
    {
    }

    /** One turn of the halving loop. */
    method HalveTurn(TA: Mpi, TB: Mpi)
      requires Valid() && TA.s == 1 && TB.s == 1 && Apart(TA) && Apart(TB)
      modifies t, c1, c2
      ensures Valid() && old(State().Ok()) && State() == HalveOnce(old(State()), TA.Mag(), TB.Mag()) && |t.p| == |old(t.p)|
    {
      hide Val, Pow2, Plus;
      Pow2One();
      ShiftR(t, 1);
      var odd1 := IsOdd(c1);
      var odd2 := IsOdd(c2);
      if odd1 || odd2 {
        AddTo(c1, TB);
        SubFrom(c2, TA);
      }
      HalveMpi(c1);
      HalveMpi(c2);
    }

    /** The halving loop. */
    method Halve(TA: Mpi, TB: Mpi)
      requires Valid() && TA.s == 1 && TB.s == 1 && Apart(TA) && Apart(TB) && t.Mag() > 0
      modifies t, c1, c2
      ensures Valid() && old(State().Ok()) && State() == HalveAll(old(State()), TA.Mag(), TB.Mag())
    {
      hide Val, HalveOnce, Line.Ok;
      ghost var l := State();
      LineOk();
      LowBit(t.p);
      while t.p[0] % 2 == 0
        modifies t, c1, c2
        invariant Valid() && |t.p| >= 1 && t.Mag() > 0 && t.Mag() % 2 == t.p[0] % 2
        invariant State().Ok() && HalveAll(State(), TA.Mag(), TB.Mag()) == HalveAll(l, TA.Mag(), TB.Mag())
        decreases t.Mag()
      {
        HalveOnceT(State(), TA.Mag(), TB.Mag());
        HalveTurn(TA, TB);
        LowBit(t.p);
      }
    }

    /** The larger line gives up the smaller one. */
    method Subtract(o: Row)
      requires Valid() && o.Valid() && Apart(o.t) && Apart(o.c1) && Apart(o.c2) && t.Mag() >= o.t.Mag()
      modifies t, c1, c2
      ensures Valid() && old(State().Ok()) && o.State().Ok() && State() == Less(old(State()), o.State())
    {
      hide Val, Plus;
      SubMpi(t, t, o.t);
      SubFrom(c1, o.c1);
      SubFrom(c2, o.c2);
    }
  }

  ghost predicate Separate(u: Row, v: Row, TA: Mpi, TB: Mpi)
    reads u.t, u.c1, u.c2, v.t, v.c1, v.c2, TA, TB
  {
    && u.Valid() && v.Valid() && {u.t, u.c1, u.c2} !! {v.t, v.c1, v.c2}
    && TA.s == 1 && TB.s == 1 && {TA, TB} !! {u.t, u.c1, u.c2, v.t, v.c1, v.c2}
  }

  ghost function PairOf(u: Row, v: Row): Pair
    reads u.t, u.c1, u.c2, v.t, v.c1, v.c2
  {
    Pair(u.State(), v.State())
  }

  /** One turn of the extended loop. */
  method EuclidTurn(u: Row, v: Row, TA: Mpi, TB: Mpi)
    requires Separate(u, v, TA, TB) && PairOf(u, v).Ok()
    modifies u.t, u.c1, u.c2, v.t, v.c1, v.c2
    ensures Separate(u, v, TA, TB) && old(PairOf(u, v).Ok()) && PairOf(u, v) == Turn(old(PairOf(u, v)), TA.Mag(), TB.Mag())
  {
    hide Val, HalveAll, Less, Sign;
    u.Halve(TA, TB);
    v.Halve(TA, TB);
    var cmp := CmpMpi(u.t, v.t);
    SignFacts(u.t.Mag() - v.t.Mag());
    if cmp >= 0 {
      u.Subtract(v);
    } else {
      v.Subtract(u);
    }
  }

  /** The extended loop. */
  method EuclidLoop(u: Row, v: Row, TA: Mpi, TB: Mpi)
    requires Separate(u, v, TA, TB) && PairOf(u, v).Ok()
    modifies u.t, u.c1, u.c2, v.t, v.c1, v.c2
    ensures Separate(u, v, TA, TB) && old(PairOf(u, v).Ok()) && PairOf(u, v) == Final(old(PairOf(u, v)), TA.Mag(), TB.Mag())
  {
    hide Val, Sign, Turn;
    ghost var p, ta, tb := PairOf(u, v), TA.Mag(), TB.Mag();
    while true
      modifies u.t, u.c1, u.c2, v.t, v.c1, v.c2
      invariant Separate(u, v, TA, TB) && PairOf(u, v).Ok() && Final(PairOf(u, v), ta, tb) == Final(p, ta, tb)
      decreases u.t.Mag() + v.t.Mag()
    {
      EuclidTurn(u, v, TA, TB);
      SignZero(1, u.t.Mag());
      var cmp := CmpInt(u.t, 0);
      if cmp == 0 {
        return;
      }
    }
  }

  /** TA = A mod N. */
  method Residue(A: Mpi, N: Mpi) returns (TA: Mpi)
    requires A.Valid() && N.s == 1 && N.Mag() > 0 && A.Mag() != 0
    ensures fresh(TA) && TA.s == 1 && TA.Mag() == A.Value() % N.Mag() && (A.Mag() >= N.Mag() ==> |TA.p| >= 1)
  {
    hide Val;
    TA := new Mpi();
    var ret := ModMpi(TA, A, N);
  }

  /** From the residue to the end of the extended loop. */
  method ExtendedLoop(A: Mpi, N: Mpi) returns (V1: Mpi)
    requires A.Valid() && N.s == 1 && N.Mag() > 0 && A.Value() % N.Mag() > 0
    ensures fresh(V1) && V1.Valid()
    ensures var ta := A.Value() % N.Mag(); CoefOf(V1) == Final(Start(ta, N.Mag()), ta, N.Mag()).v.c1
  {
    hide Val, Final;
    assert A.Mag() != 0;
    var TA := Residue(A, N);
    var u := new Row(TA, 1, 0);
    var v := new Row(N, 0, 1);
    EuclidLoop(u, v, TA, N);
    V1 := v.c1;
  }


  // ----- the two correction loops

  /** A sum of a negative and a positive number, and a difference of two positive ones, are exact. */
  method AddModulus(V1: Mpi, N: Mpi)
    requires V1 != N && V1.s == -1 && N.s == 1
    modifies V1
    ensures V1.Valid() && V1.Value() == old(V1.Value()) + N.Mag()
    ensures V1.s == (if old(V1.Mag()) >= N.Mag() then -1 else 1)
  {
    hide Val;
    AddMpi(V1, V1, N);
  }

  /** A number that the second correction loop meets: not negative, or what becomes of a negative zero. */
  predicate Normal(s: int, v: int, n: int) {
    v >= 0 && (s == 1 || (s == -1 && (v == 0 || v == n)))
  }

  method CmpNormal(V1: Mpi, N: Mpi) returns (cmp: int)
    requires Normal(V1.s, V1.Mag(), N.Mag()) && N.s == 1 && N.Mag() > 1
    ensures cmp >= 0 <==> if V1.s == 1 then V1.Mag() >= N.Mag() else V1.Mag() == 0
  {
    hide Val, Sig;
    ValSig(V1.p);
    ValSig(N.p);
    if V1.Mag() == N.Mag() {
      SigUnique(V1.p, N.p);
    }
    cmp := CmpMpi(V1, N);
  }

  method SubModulus(V1: Mpi, N: Mpi)
    requires V1 != N && Normal(V1.s, V1.Mag(), N.Mag()) && N.s == 1 && N.Mag() > 1
    requires if V1.s == 1 then V1.Mag() >= N.Mag() else V1.Mag() == 0
    modifies V1
    ensures Normal(V1.s, V1.Mag(), N.Mag()) && V1.s == old(V1.s)
    ensures V1.Value() == old(V1.Value()) - N.Mag()
  {
    hide Val, CarryLost;
    if V1.s == -1 {
      NoCarryIntoZero(V1.p, N.p);
    }
    SubMpi(V1, V1, N);
  }


  lemma CorrectedUp(c: Coef, d: Coef, n: int)
    requires n > 0 && c.s == -1 && c.v > 0 && d.Value() == c.Value() + n && d.v >= 0 && d.s == if c.v >= n then -1 else 1
    ensures Corrected(d, n) == Corrected(c, n)
  {
    AddMod(-c.v, n);
    AddMod(c.v - n, n);
  }

  lemma AddMod(x: int, n: int)
    requires n > 0
    ensures (x + n) % n == x % n
  {
    DivModUnique(x + n, n, x / n + 1, x % n);
  }

  /** The first correction loop: adds the modulus while the coefficient is negative. */
  method Raise(V1: Mpi, N: Mpi)
    requires V1 != N && V1.Valid() && N.s == 1 && N.Mag() > 1
    modifies V1
    ensures V1.Valid() && V1.Value() >= 0 && Corrected(CoefOf(V1), N.Mag()) == Corrected(old(CoefOf(V1)), N.Mag())
  {
    hide Val, Sign, Corrected;
    var cmp := CmpInt(V1, 0);
    SignFacts(V1.Value());
    while cmp < 0
      invariant V1.Valid() && (cmp < 0 <==> V1.Value() < 0)
      invariant Corrected(CoefOf(V1), N.Mag()) == Corrected(old(CoefOf(V1)), N.Mag())
      decreases if V1.Value() < 0 then -V1.Value() else 0
    {
      ghost var c := CoefOf(V1);
      AddModulus(V1, N);
      CorrectedUp(c, CoefOf(V1), N.Mag());
      cmp := CmpInt(V1, 0);
      SignFacts(V1.Value());
    }
  }

  /** The second correction loop ends at x. */
  ghost predicate Lowers(s: int, v: int, x: int, n: int)
    requires n > 0
  {
    if s == 1 then v % n == x else x == -n
  }

  lemma LowersFrom(c: Coef, n: int)
    requires n > 1 && c.Ok() && c.Value() >= 0
    ensures Lowers(c.s, c.v, Corrected(c, n), n) && Normal(c.s, c.v, n)
  {
  }

  lemma LowersNext(s: int, v: int, w: int, x: int, n: int)
    requires n > 0 && Lowers(s, v, x, n) && (s == 1 ==> w == v - n)
    ensures Lowers(s, w, x, n)
  {
    AddMod(v - n, n);
  }

  lemma LowersTo(s: int, v: int, x: int, n: int)
    requires n > 1 && Lowers(s, v, x, n) && Normal(s, v, n) && if s == 1 then v < n else v != 0
    ensures s * v == x
  {
  }

  /** The second correction loop: subtracts the modulus while the comparison calls the coefficient no smaller. */
  method Lower(V1: Mpi, N: Mpi)
    requires V1 != N && V1.Valid() && V1.Value() >= 0 && N.s == 1 && N.Mag() > 1
    modifies V1
    ensures V1.Valid() && V1.Value() == Corrected(old(CoefOf(V1)), N.Mag()) && (V1.s == 1 || V1.Mag() > 0)
  {
    hide Val, Lowers, Corrected;
    ghost var n, x := N.Mag(), Corrected(CoefOf(V1), N.Mag());
    LowersFrom(CoefOf(V1), n);
    var cmp := CmpNormal(V1, N);
    while cmp >= 0
      invariant Normal(V1.s, V1.Mag(), n) && (cmp >= 0 <==> if V1.s == 1 then V1.Mag() >= n else V1.Mag() == 0)
      invariant Lowers(V1.s, V1.Mag(), x, n)
      decreases if cmp < 0 then 0 else if V1.s == 1 then V1.Mag() else 1
    {
      ghost var v := V1.Mag();
      SubModulus(V1, N);
      LowersNext(V1.s, v, V1.Mag(), x, n);
      cmp := CmpNormal(V1, N);
    }
    LowersTo(V1.s, V1.Mag(), x, n);
  }

  // ----- mpi_inv_mod

  lemma MagnitudeOf(s: int, v: nat)
    requires s == 1 || s == -1
    ensures Abs(s * v) == v && (s * v == 0 <==> v == 0) && (s * v) % 2 == v % 2
  {
  }

  /** The gcd test of mpi_inv_mod. */
  method Unit(A: Mpi, N: Mpi) returns (unit: bool)
    requires A.Valid() && N.s == 1 && N.Mag() > 0
    ensures unit <==> Accepted(A.Value(), N.Mag())
    ensures !(A.Value() % 2 == 0 && N.Mag() % 2 == 0) ==> (unit <==> Gcd(Abs(A.Value()), N.Mag()) == 1)
    ensures unit && Ends(A.Value(), N.Mag()) ==> A.Value() % N.Mag() > 0 && N.Mag() > 1
  {
    hide Gcd, OddGcd, Accepted, Val, Sign, Ends;
    var G := new Mpi();
    GcdMpi(G, A, N);
    ghost var a := A.Value();
    MagnitudeOf(A.s, A.Mag());
    UnitCases(a, N.Mag(), G.Mag());
    var cmp := CmpInt(G, 1);
    SignFacts(G.Mag() - 1);
    return cmp == 0;
  }

  /**
   * mpi_inv_mod, whenever it returns: it succeeds exactly when A is not 0 and has no odd divisor in common with N, and
   * gives what the carry-exact run gives. Unless that run loses a carry, this is an inverse exactly when A and N are not
   * both even.
   */
  method InvMpi(X: Mpi, A: Mpi, N: Mpi) returns (ret: int)
    requires A.Valid() && N.Valid() && (N.Value() > 0 ==> Ends(A.Value(), N.Mag()))
    modifies X
    ensures old(N.Value()) <= 0 ==> ret == ERR_BAD_INPUT_DATA
    ensures old(N.Value()) > 0 ==> ret == if Accepted(old(A.Value()), old(N.Mag())) then 0 else ERR_NOT_ACCEPTABLE
    ensures old(N.Value() > 0 && !(A.Value() % 2 == 0 && N.Mag() % 2 == 0)) ==>
              (ret == 0 <==> Gcd(Abs(old(A.Value())), old(N.Mag())) == 1)
    ensures ret != 0 ==> X.s == old(X.s) && X.p == old(X.p)
    ensures ret == 0 ==> X.Valid() && (X.s == 1 || X.Mag() > 0) && old(N.Mag()) > 1 && old(A.Value()) % old(N.Mag()) > 0
    ensures ret == 0 ==> X.Value() == CodeInverse(old(A.Value()), old(N.Mag()))
    ensures ret == 0 && !LosesCarry(old(A.Value()), old(N.Mag())) ==>
              (Cong(old(A.Value()) * X.Value(), 1, old(N.Mag())) <==> !old(A.Value() % 2 == 0 && N.Mag() % 2 == 0))
    ensures ret == 0 && !LosesCarry(old(A.Value()), old(N.Mag())) && !old(A.Value() % 2 == 0 && N.Mag() % 2 == 0) ==>
              0 <= X.Value() < old(N.Mag())
  {
    hide Gcd, Cong, Accepted, Val, Sign, Ends, LosesCarry, Corrected, Final;
    ghost var a, n := A.Value(), N.Mag();
    var cmp := CmpInt(N, 0);
    SignFacts(N.Value());
    if cmp <= 0 {
      return ERR_BAD_INPUT_DATA;
    }
    var unit := Unit(A, N);
    if !unit {
      return ERR_NOT_ACCEPTABLE;
    }
    var V1 := ExtendedLoop(A, N);
    Raise(V1, N);
    Lower(V1, N);
    if a % 2 == 0 && n % 2 == 0 {
      BothEvenNoInverse(a, V1.Value(), n);
    } else if !LosesCarry(a, n) {
      CodeExact(a, n);
    }
    Copy(X, V1);
    return 0;
  }

  /** Where it returns and no carry is lost, the limbs hold the inverse that exact integers give. */
  method Agreement(A: Mpi, N: Mpi, a: int, n: int) returns (ret: int, exact: int, X: Mpi, x: int)
    requires A.Valid() && N.Valid() && a == A.Value() && n == N.Value() && (n > 0 ==> Ends(a, n))
    ensures ret == exact
    ensures ret == 0 ==> n > 1 && a % n > 0
    ensures ret == 0 && !LosesCarry(a, n) && !(a % 2 == 0 && n % 2 == 0) ==> X.Value() == x
  {
    hide Gcd, Cong, Accepted, Val, Ends, LosesCarry, CodeInverse;
    X := new Mpi();
    ret := InvMpi(X, A, N);
    exact, x := InvMod(a, n);
    ghost var meets := ret == 0 && !LosesCarry(a, n) && !(a % 2 == 0 && n % 2 == 0);
    if meets {
      InverseUnique(a, X.Value(), x, n);
    }
  }

  /**
   * The loop that does not end: on a nonzero multiple of a power of two N the gcd test passes, the residue is 0, and after
   * any number of turns from there the first halving loop is still asked to take another.
   */
  method Stuck(A: Mpi, N: Mpi, turns: nat) returns (unit: bool, u: Row)
    requires A.Valid() && N.s == 1 && N.Mag() > 0 && A.Mag() != 0 && !Ends(A.Value(), N.Mag())
    ensures unit && |u.t.p| >= 1 && u.t.p[0] % 2 == 0
    ensures u.State() == HalveTimes(Start(0, N.Mag()).u, 0, N.Mag(), turns)
  {
    hide Val, Accepted, Ends, HalveTimes;
    ghost var a, n := A.Value(), N.Mag();
    ZeroResidue(a, n);
    unit := Unit(A, N);
    if A.Mag() < n {
      NoMultiple(A.s, A.Mag(), n);
    }
    var TA := Residue(A, N);
    u := new Row(TA, 1, 0);
    TurnsOnZero(u, TA, N, turns);
  }

  lemma NoMultiple(s: int, v: int, n: int)
    requires (s == 1 || s == -1) && 0 < v < n
    ensures (s * v) % n != 0
  {
    if s == 1 {
      DivModUnique(v, n, 0, v);
    } else {
      DivModUnique(-v, n, -1, n - v);
    }
  }

  method TurnsOnZero(u: Row, TA: Mpi, N: Mpi, turns: nat)
    requires u.Valid() && TA.s == 1 && N.s == 1 && u.Apart(TA) && u.Apart(N) && |u.t.p| >= 1 && u.t.Mag() == 0
    modifies u.t, u.c1, u.c2
    ensures |u.t.p| >= 1 && u.t.p[0] % 2 == 0
    ensures old(u.State().Ok()) && u.State() == HalveTimes(old(u.State()), TA.Mag(), N.Mag(), turns)
  {
    hide Val, HalveOnce;
    LowBit(u.t.p);
    for i := 0 to turns
      invariant u.Valid() && |u.t.p| >= 1 && u.t.Mag() == 0 && u.t.p[0] % 2 == 0
      invariant u.State() == HalveTimes(old(u.State()), TA.Mag(), N.Mag(), i)
    {
      HalveOnceT(u.State(), TA.Mag(), N.Mag());
      u.HalveTurn(TA, N);
      LowBit(u.t.p);
    }
  }

  /** An instance of it: the inverse of 2 modulo 2. */
  lemma StuckExample()
    ensures !Ends(2, 2)
  {
    assert PowerOfTwo(1);
  }
}
