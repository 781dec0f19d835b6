/** A run of mpi_inv_mod in which a carry is lost: the inverse of 2^63 + 2 modulo 2^64 + 5 comes out wrong. */
module LostInverse {
  import opened Arith
  import opened Limbs
  import opened Bignum
  import opened NumberTheory
  import opened IntegerInverse
  import opened CarryRun
  import opened ModInverse

  const W: int := 0x1000_0000_0000_0000 // 2^60
  const NUMBER: int := 8 * W + 2
  const MODULUS: int := 16 * W + 5

  /** A line of the run, by the values of its numbers. */
  predicate Is(l: Line, t: int, x1: int, x2: int) {
    l.Ok() && l.t == t && l.c1.Value() == x1 && l.c2.Value() == x2
  }

  /** Numbers below 2^66 can be added to two or more limbs. */
  lemma WideAddend(c: Coef, s: int, w: nat)
    requires c.Ok() && -64 * W < c.Value() < 64 * W && w >= BASE
    ensures !Fails(c, s, w)
  {
    hide Place, Width;
    assert c.v < 64 * W;
    var m := Width(w);
    PlaceLow();
    PlaceNext(1);
    if m <= 1 {
      PlaceMono(m, 1);
    } else {
      PlaceMono(2, m);
      if Lossy(c, w) {
        TopDigit(c.v, Place(m));
      }
    }
  }

  lemma ThreeLimbs(w: nat)
    requires BASE * BASE <= w < 2 * BASE * BASE
    ensures Width(w) == 3
  {
    hide Place, Width;
    PlaceLow();
    PlaceNext(1);
    PlaceNext(2);
    var k := Width(w);
    if k < 3 {
      PlaceMono(k, 2);
    } else if k > 3 {
      PlaceMono(3, k - 1);
    }
  }

  /** One halving of a line of the run. */
  lemma Halving(l: Line, t: int, x1: int, x2: int, ta: nat, tb: nat)
    requires Is(l, t, x1, x2) && -64 * W < x1 < 64 * W && -64 * W < x2 < 64 * W && ta >= BASE && tb >= BASE
    ensures var odd := x1 % 2 != 0 || x2 % 2 != 0;
            var r := HalveOnce(l, ta, tb);
            && Is(r, t / 2, Halved(if odd then x1 + tb else x1), Halved(if odd then x2 - ta else x2))
            && (odd && x1 > 0 ==> r.c1.len >= Width(tb)) && (l.c1.len >= 3 ==> r.c1.len >= 3)
            && (odd && x2 <= 0 && 0 <= -x2 < ta ==> r.c2.len >= Width(ta)) && (l.c2.len >= 3 ==> r.c2.len >= 3)
  {
    hide Place, Width, Lossy, Halved;
    WideAddend(l.c1, 1, tb);
    WideAddend(l.c2, -1, ta);
    HalveOnceValues(l, ta, tb);
    HalfValue(l.c1);
    HalfValue(l.c2);
  }

  lemma Unfold(l: Line, ta: nat, tb: nat)
    requires l.Ok()
    ensures HalveAll(l, ta, tb) == if l.t > 0 && l.t % 2 == 0 then HalveAll(HalveOnce(l, ta, tb), ta, tb) else l
  {
  }

  /** The larger of two lines gives up the smaller, and no carry is lost. */
  lemma Giving(u: Line, t: int, x1: int, x2: int, v: Line, d: int, y1: int, y2: int)
    requires Is(u, t, x1, x2) && Is(v, d, y1, y2) && -SAFE < x1 < SAFE && -SAFE < x2 < SAFE
    ensures Is(Less(u, v), t - d, x1 - y1, x2 - y2)
  {
    hide Plus, Fails, Coef.Value;
    SafeCoef(u.c1, -v.c1.s, v.c1.v);
    SafeCoef(u.c2, -v.c2.s, v.c2.v);
    LessValues(u, v);
  }

  /** The first turn. */
  lemma FirstTurn(p: Pair)
    requires p == Start(NUMBER, MODULUS)
    ensures var q := Turn(p, NUMBER, MODULUS);
            && Is(q.u, 4 * W + 1, 8 * W + 3, -4 * W - 1)
            && Is(q.v, 12 * W + 4, -8 * W - 3, 4 * W + 2)
  {
    hide HalveOnce, HalveAll, Less, Is;
    assert Is(p.u, NUMBER, 1, 0) && Is(p.v, MODULUS, 0, 1) by {
      Started(p);
    }
    LineIs(p.u, NUMBER, 1, 0);
    LineIs(p.v, MODULUS, 0, 1);
    Unfold(p.u, NUMBER, MODULUS);
    Halving(p.u, NUMBER, 1, 0, NUMBER, MODULUS);
    var u := HalveOnce(p.u, NUMBER, MODULUS);
    LineIs(u, 4 * W + 1, 8 * W + 3, -4 * W - 1);
    Unfold(u, NUMBER, MODULUS);
    Unfold(p.v, NUMBER, MODULUS);
    Giving(p.v, MODULUS, 0, 1, u, 4 * W + 1, 8 * W + 3, -4 * W - 1);
  }

  lemma Started(p: Pair)
    requires p == Start(NUMBER, MODULUS)
    ensures Is(p.u, NUMBER, 1, 0) && Is(p.v, MODULUS, 0, 1)
  {
  }

  lemma LineIs(l: Line, t: int, x1: int, x2: int)
    requires Is(l, t, x1, x2)
    ensures l.Ok() && l.t == t
  {
  }

  /** The second turn. */
  lemma SecondTurn(p: Pair)
    requires Is(p.u, 4 * W + 1, 8 * W + 3, -4 * W - 1) && Is(p.v, 12 * W + 4, -8 * W - 3, 4 * W + 2)
    ensures p.Ok()
    ensures var q := Turn(p, NUMBER, MODULUS);
            Is(q.u, W, -2 * W, W) && Is(q.v, 3 * W + 1, 10 * W + 3, -5 * W - 1)
  {
    hide HalveOnce, HalveAll, Less, Is;
    LineIs(p.u, 4 * W + 1, 8 * W + 3, -4 * W - 1);
    LineIs(p.v, 12 * W + 4, -8 * W - 3, 4 * W + 2);
    Unfold(p.u, NUMBER, MODULUS);
    Unfold(p.v, NUMBER, MODULUS);
    Halving(p.v, 12 * W + 4, -8 * W - 3, 4 * W + 2, NUMBER, MODULUS);
    var v := HalveOnce(p.v, NUMBER, MODULUS);
    LineIs(v, 6 * W + 2, 4 * W + 1, -2 * W);
    Unfold(v, NUMBER, MODULUS);
    Halving(v, 6 * W + 2, 4 * W + 1, -2 * W, NUMBER, MODULUS);
    var w := HalveOnce(v, NUMBER, MODULUS);
    LineIs(w, 3 * W + 1, 10 * W + 3, -5 * W - 1);
    Unfold(w, NUMBER, MODULUS);
    Giving(p.u, 4 * W + 1, 8 * W + 3, -4 * W - 1, w, 3 * W + 1, 10 * W + 3, -5 * W - 1);
  }

  lemma PowSixty()
    ensures Pow2(60) == W && Pow2(0) == 1
  {
    Pow2Word();
    PowAdd(2, 28, 4);
    PowAdd(2, 28, 32);
    assert Pow(2, 4) == 16;
  }

  /** The first line is halved sixty times. */
  lemma {:induction false} HalveFirst(l: Line, i: nat)
    requires Is(l, Pow2(i), -2 * Pow2(i), Pow2(i)) && 0 < Pow2(i) <= W
    ensures Is(HalveAll(l, NUMBER, MODULUS), 1, -2, 1)
    decreases i
  {
    hide Pow2, HalveOnce, HalveAll, Is;
    LineIs(l, Pow2(i), -2 * Pow2(i), Pow2(i));
    Unfold(l, NUMBER, MODULUS);
    PowSixty();
    if i > 0 {
      Pow2Next(i - 1);
      Halving(l, Pow2(i), -2 * Pow2(i), Pow2(i), NUMBER, MODULUS);
      HalveFirst(HalveOnce(l, NUMBER, MODULUS), i - 1);
    }
  }

  /** The third turn. */
  lemma ThirdTurn(p: Pair)
    requires Is(p.u, W, -2 * W, W) && Is(p.v, 3 * W + 1, 10 * W + 3, -5 * W - 1)
    ensures p.Ok()
    ensures var q := Turn(p, NUMBER, MODULUS);
            Is(q.u, 1, -2, 1) && Is(q.v, 3 * W, 10 * W + 5, -5 * W - 2)
  {
    hide Pow2, HalveOnce, HalveAll, Less, Is;
    LineIs(p.u, W, -2 * W, W);
    LineIs(p.v, 3 * W + 1, 10 * W + 3, -5 * W - 1);
    PowSixty();
    HalveFirst(p.u, 60);
    var u := HalveAll(p.u, NUMBER, MODULUS);
    LineIs(u, 1, -2, 1);
    Unfold(p.v, NUMBER, MODULUS);
    Giving(p.v, 3 * W + 1, 10 * W + 3, -5 * W - 1, u, 1, -2, 1);
  }

  lemma Filled(q: int)
    requires 0 < q <= W
    ensures (MODULUS - 12 * q) % 2 == 1 && (6 * q) % 2 == 0
    ensures Halved(MODULUS - 12 * q + MODULUS) == MODULUS - 6 * q && Halved(6 * q - NUMBER - NUMBER) == 3 * q - NUMBER
  {
  }

  /** The second line is halved sixty times: it fills its first coefficient with ones. */
  lemma {:induction false} HalveSecond(l: Line, i: nat)
    requires Is(l, 3 * Pow2(i), MODULUS - 6 * Pow2(i), 3 * Pow2(i) - NUMBER) && 0 < Pow2(i) <= W && (i > 0 || l.c1.len >= 3)
    ensures Is(HalveAll(l, NUMBER, MODULUS), 3, MODULUS - 6, 3 - NUMBER) && HalveAll(l, NUMBER, MODULUS).c1.len >= 3
    decreases i
  {
    hide Pow2, HalveOnce, HalveAll, Is, Halved;
    LineIs(l, 3 * Pow2(i), MODULUS - 6 * Pow2(i), 3 * Pow2(i) - NUMBER);
    Unfold(l, NUMBER, MODULUS);
    PowSixty();
    ThreeLimbs(MODULUS);
    if i > 0 {
      Pow2Next(i - 1);
      Filled(Pow2(i - 1));
      Halving(l, 3 * Pow2(i), MODULUS - 6 * Pow2(i), 3 * Pow2(i) - NUMBER, NUMBER, MODULUS);
      HalveSecond(HalveOnce(l, NUMBER, MODULUS), i - 1);
    }
  }

  lemma LostHere(c: Coef)
    requires c.s == 1 && c.v == 16 * W - 1 && c.len >= 3
    ensures Fails(c, 1, 2) && Plus(c, 1, 2).s == 1 && Plus(c, 1, 2).v == BASE + 1
  {
    hide Place;
    PlaceLow();
    PlaceNext(1);
    assert Width(2) == 1 by {
      assert Width(2 / BASE) == 0;
    }
    DivModUnique(16 * W - 1, BASE, BASE - 1, BASE - 1);
  }

  /** The fourth turn: the carry of 2^64 - 1 + 2 is lost. */
  lemma FourthTurn(p: Pair)
    requires Is(p.u, 1, -2, 1) && Is(p.v, 3 * W, 10 * W + 5, -5 * W - 2)
    ensures p.Ok() && TurnLoses(p, NUMBER, MODULUS)
    ensures var q := Turn(p, NUMBER, MODULUS);
            Is(q.u, 1, -2, 1) && Is(q.v, 2, BASE + 1, -8 * W)
  {
    hide Pow2, HalveOnce, HalveAll;
    PowSixty();
    HalveSecond(p.v, 60);
    var v := HalveAll(p.v, NUMBER, MODULUS);
    Unfold(p.u, NUMBER, MODULUS);
    TakeLost(p.u, v);
  }

  lemma TakeLost(u: Line, v: Line)
    requires Is(u, 1, -2, 1) && Is(v, 3, MODULUS - 6, 3 - NUMBER) && v.c1.len >= 3
    ensures LessFails(v, u) && Is(Less(v, u), 2, BASE + 1, -8 * W)
  {
    hide Lossy, Sum, Width, Place;
    LostHere(v.c1);
    SafeCoef(v.c2, -1, 1);
    PlusValue(v.c2, -1, 1);
    assert u.c1 == Coef(-1, 2, u.c1.len) && u.c2 == Coef(1, 1, u.c2.len);
  }

  /** The fifth and last turn. */
  lemma FifthTurn(p: Pair)
    requires Is(p.u, 1, -2, 1) && Is(p.v, 2, BASE + 1, -8 * W)
    ensures p.Ok() && Turn(p, NUMBER, MODULUS).u.t == 0
    ensures Turn(p, NUMBER, MODULUS).v.c1.s == 1 && Turn(p, NUMBER, MODULUS).v.c1.v == 8 * W + 0x8000_0003
  {
    hide HalveOnce, HalveAll;
    Unfold(p.u, NUMBER, MODULUS);
    Unfold(p.v, NUMBER, MODULUS);
    Halving(p.v, 2, BASE + 1, -8 * W, NUMBER, MODULUS);
    Unfold(HalveOnce(p.v, NUMBER, MODULUS), NUMBER, MODULUS);
  }

  /** The run loses a carry, and its result is no inverse. */
  lemma WrongRun()
    ensures NUMBER % MODULUS == NUMBER && LosesCarry(NUMBER, MODULUS)
    ensures CodeInverse(NUMBER, MODULUS) == 8 * W + 0x8000_0003
    ensures !Cong(NUMBER * CodeInverse(NUMBER, MODULUS), 1, MODULUS) && Cong(NUMBER * (MODULUS - 2), 1, MODULUS)
  {
    hide Turn, TurnLoses, Is, Cong;
    var p1 := Start(NUMBER, MODULUS);
    FirstTurn(p1);
    var p2 := Turn(p1, NUMBER, MODULUS);
    SecondTurn(p2);
    var p3 := Turn(p2, NUMBER, MODULUS);
    ThirdTurn(p3);
    var p4 := Turn(p3, NUMBER, MODULUS);
    FourthTurn(p4);
    var p5 := Turn(p4, NUMBER, MODULUS);
    FifthTurn(p5);
    Runs(p5, NUMBER, MODULUS);
    Runs(p4, NUMBER, MODULUS);
    Runs(p3, NUMBER, MODULUS);
    Runs(p2, NUMBER, MODULUS);
    Runs(p1, NUMBER, MODULUS);
    NotInverse();
  }

  lemma Runs(p: Pair, ta: nat, tb: nat)
    requires p.Ok()
    ensures var q := Turn(p, ta, tb);
            && Final(p, ta, tb) == (if q.u.t == 0 then q else Final(q, ta, tb))
            && (TurnLoses(p, ta, tb) || (q.u.t > 0 && Loses(q, ta, tb)) ==> Loses(p, ta, tb))
  {
    hide Turn, TurnLoses;
  }

  lemma NotInverse()
    ensures !Cong(NUMBER * (8 * W + 0x8000_0003), 1, MODULUS) && Cong(NUMBER * (MODULUS - 2), 1, MODULUS)
  {
    CongIntro(NUMBER * (MODULUS - 2), 1, MODULUS, NUMBER - 1);
  }

  /** mpi_inv_mod on these limbs succeeds with a number that is no inverse. */
  method WrongInverse() returns (ret: int, X: Mpi)
    ensures ret == 0 && X.Value() == 8 * W + 0x8000_0003 && !Cong(NUMBER * X.Value(), 1, MODULUS)
  {
    hide Val, Cong, Accepted, Ends, LosesCarry, CodeInverse;
    var A := new Mpi();
    var N := new Mpi();
    A.p, N.p := [2, 0x8000_0000], [5, 0, 1];
    X := new Mpi();
    Inputs();
    WrongRun();
    InvertibleAccepted(NUMBER, MODULUS - 2, MODULUS);
    ret := InvMpi(X, A, N);
  }

  lemma Inputs()
    ensures Val([2, 0x8000_0000]) == NUMBER && Val([5, 0, 1]) == MODULUS
  {
    var q: seq<Limb> := [5, 0, 1];
    assert q[..2] == [5, 0];
    assert Place(1) == BASE && Place(2) == BASE * BASE;
    SmallValues(5, 0);
    SmallValues(2, 0x8000_0000);
  }

  // ----- a loss that does no harm: the inverse of 2^64 modulo 2^64 + 1

  const EVEN: int := 16 * W
  const NEXT: int := 16 * W + 1

  lemma Shrunk(q: int)
    requires 0 < q <= 8 * W
    ensures (NEXT - 2 * q) % 2 == 1 && Halved(NEXT - 2 * q + NEXT) == NEXT - q && Halved(2 * q - EVEN - EVEN) == q - EVEN
    ensures (2 * q) % 2 == 0 && (-2 * q) % 2 == 0 && Halved(2 * q) == q && Halved(-2 * q) == -q
  {
  }

  /** The first line is halved until it is 1. */
  lemma {:induction false} HalveEven(l: Line, i: nat)
    requires Is(l, Pow2(i), NEXT - Pow2(i), Pow2(i) - EVEN) && 0 < Pow2(i) <= EVEN && (i > 0 || l.c2.len >= 3)
    ensures Is(HalveAll(l, EVEN, NEXT), 1, EVEN, 1 - EVEN) && HalveAll(l, EVEN, NEXT).c2.len >= 3
    decreases i
  {
    hide Pow2, HalveOnce, HalveAll, Is, Halved;
    LineIs(l, Pow2(i), NEXT - Pow2(i), Pow2(i) - EVEN);
    Unfold(l, EVEN, NEXT);
    PowSixty();
    ThreeLimbs(EVEN);
    if i > 0 {
      Pow2Next(i - 1);
      Shrunk(Pow2(i - 1));
      Halving(l, Pow2(i), NEXT - Pow2(i), Pow2(i) - EVEN, EVEN, NEXT);
      HalveEven(HalveOnce(l, EVEN, NEXT), i - 1);
    }
  }

  /** And so is the second. */
  lemma {:induction false} HalveNext(l: Line, i: nat)
    requires Is(l, Pow2(i), -Pow2(i), Pow2(i)) && 0 < Pow2(i) <= EVEN
    ensures Is(HalveAll(l, EVEN, NEXT), 1, -1, 1)
    decreases i
  {
    hide Pow2, HalveOnce, HalveAll, Is, Halved;
    LineIs(l, Pow2(i), -Pow2(i), Pow2(i));
    Unfold(l, EVEN, NEXT);
    PowSixty();
    if i > 0 {
      Pow2Next(i - 1);
      Shrunk(Pow2(i - 1));
      Halving(l, Pow2(i), -Pow2(i), Pow2(i), EVEN, NEXT);
      HalveNext(HalveOnce(l, EVEN, NEXT), i - 1);
    }
  }

  lemma PowSixtyFour()
    ensures Pow2(64) == EVEN
  {
    hide Pow2;
    PowSixty();
    Pow2Next(60);
    Pow2Next(61);
    Pow2Next(62);
    Pow2Next(63);
  }

  lemma LostThere(c: Coef)
    requires c.s == -1 && c.v == EVEN - 1 && c.len >= 3
    ensures Fails(c, -1, 1)
  {
    hide Place;
    PlaceLow();
    assert Width(1) == 1 by {
      assert Width(1 / BASE) == 0;
    }
    DivModUnique(16 * W - 1, BASE, BASE - 1, BASE - 1);
  }

  lemma EvenTurn(p: Pair)
    requires p == Start(EVEN, NEXT)
    ensures var q := Turn(p, EVEN, NEXT);
            Is(q.u, 1, EVEN, 1 - EVEN) && q.u.c2.len >= 3 && Is(q.v, EVEN, -EVEN, EVEN)
  {
    hide Pow2, HalveOnce, HalveAll, Less;
    PowSixtyFour();
    HalveEven(p.u, 64);
    var u := HalveAll(p.u, EVEN, NEXT);
    Unfold(p.v, EVEN, NEXT);
    Giving(p.v, NEXT, 0, 1, u, 1, EVEN, 1 - EVEN);
  }

  lemma NextTurn(p: Pair)
    requires Is(p.u, 1, EVEN, 1 - EVEN) && p.u.c2.len >= 3 && Is(p.v, EVEN, -EVEN, EVEN)
    ensures p.Ok() && TurnLoses(p, EVEN, NEXT) && Turn(p, EVEN, NEXT).u.t == 0 && Is(Turn(p, EVEN, NEXT).v, 1, -1, 1)
  {
    hide Pow2, HalveOnce, HalveAll, Plus, Fails;
    PowSixtyFour();
    HalveNext(p.v, 64);
    Unfold(p.u, EVEN, NEXT);
    LostThere(p.u.c2);
  }

  /** A lost carry need not reach the result: this run loses one and gives the inverse. */
  lemma HarmlessLoss()
    ensures EVEN % NEXT == EVEN && LosesCarry(EVEN, NEXT) && Cong(EVEN * CodeInverse(EVEN, NEXT), 1, NEXT)
  {
    hide Turn, TurnLoses, Is, Cong;
    var p := Start(EVEN, NEXT);
    EvenTurn(p);
    var q := Turn(p, EVEN, NEXT);
    NextTurn(q);
    Runs(q, EVEN, NEXT);
    Runs(p, EVEN, NEXT);
    Minus(Turn(q, EVEN, NEXT).v);
    CongIntro(EVEN * EVEN, 1, NEXT, EVEN - 1);
  }

  lemma Minus(v: Line)
    requires Is(v, 1, -1, 1)
    ensures Corrected(v.c1, NEXT) == EVEN
  {
    DivModUnique(-1, NEXT, -1, EVEN);
  }
}
