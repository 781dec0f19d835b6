/**
 * The extended loop of mpi_inv_mod as a run over its buffers: every coefficient is a sign, a magnitude and a number of
 * limbs, which determine the limbs, and with them the carries that mpi_add_abs loses.
 */
module CarryRun {
  import opened Common
  import opened Arith
  import opened Limbs
  import opened Bignum
  import opened NumberTheory
  import opened IntegerInverse

  // ----- one buffer

  datatype Coef = Coef(s: int, v: int, len: nat) {
    predicate Ok() {
      (s == 1 || s == -1) && v >= 0
    }

    function Value(): int {
      s * v
    }
  }

  lemma WidthStep(v: nat, k: nat)
    requires v / BASE < Place(k) && (k > 0 ==> Place(k - 1) <= v / BASE) && v > 0
    ensures v < Place(k + 1) && Place(k) <= v
  {
    PlaceNext(k);
    if k > 0 {
      PlaceNext(k - 1);
    } else {
      assert v / BASE == 0;
    }
  }

  /** How many limbs a number has. */
  function Width(v: nat): (k: nat)
    ensures v < Place(k) && (k > 0 ==> Place(k - 1) <= v)
  {
    if v == 0 then 0 else
      var k := Width(v / BASE);
      WidthStep(v, k);
      k + 1
  }

  lemma WidthIs(p: seq<Limb>)
    ensures Width(Val(p)) == Sig(p)
  {
    hide Val, Place, Sig, Width;
    ValSig(p);
    var k, m := Width(Val(p)), Sig(p);
    if k < m {
      PlaceMono(k, m - 1);
    } else if k > m {
      PlaceMono(m, k - 1);
    }
  }

  /** Adding a magnitude to a buffer loses the carry. */
  predicate Lossy(c: Coef, w: nat) {
    var m := Width(w);
    m + 1 < c.len && c.v / Place(m) % BASE == BASE - 1 && c.v % Place(m) + w >= Place(m)
  }

  /** The limbs do not matter beyond the magnitude and their number. */
  lemma LossyIs(s: int, x: seq<Limb>, b: seq<Limb>)
    ensures Lossy(Coef(s, Val(x), |x|), Val(b)) <==> CarryLost(x, b)
  {
    hide Val, Place, Width;
    WidthIs(b);
    if Sig(b) < |x| {
      LimbAt(x, Sig(b));
    }
  }

  /** The sum of a buffer and a magnitude, as mpi_add_abs leaves it. */
  function Sum(c: Coef, w: nat): Coef {
    var m, n := Width(w), Max(c.len, Width(w));
    var v := c.v + w - if Lossy(c, w) then Place(m + 1) - Place(m) else 0;
    Coef(c.s, v, if v < Place(n) then n else n + 1)
  }

  /** c + s * w, as mpi_add_mpi and mpi_sub_mpi leave it in the buffer of c. */
  function Plus(c: Coef, s: int, w: nat): Coef {
    if c.s == s then Sum(c, w)
    else if c.v >= w then Coef(c.s, c.v - w, c.len)
    else Coef(-c.s, w - c.v, Max(c.len, Width(w)))
  }

  /** Whether that loses a carry. */
  predicate Fails(c: Coef, s: int, w: nat) {
    c.s == s && Lossy(c, w)
  }

  lemma TopDigit(v: int, w: int)
    requires v >= 0 && w > 0 && v / w % BASE == BASE - 1
    ensures (BASE - 1) * w <= v
  {
    MulLe(BASE - 1, v / w, w);
  }

  lemma PlusOk(c: Coef, s: int, w: nat)
    requires c.Ok()
    ensures Plus(c, s, w).Ok()
  {
    hide Place, Width;
    if Fails(c, s, w) {
      TopDigit(c.v, Place(Width(w)));
      PlaceNext(Width(w));
    }
  }

  lemma PlusValue(c: Coef, s: int, w: nat)
    requires c.Ok() && (s == 1 || s == -1)
    ensures !Fails(c, s, w) ==> Plus(c, s, w).Ok() && Plus(c, s, w).Value() == c.Value() + s * w
  {
    hide Place, Width, Lossy;
  }

  /** A step is exact if and only if it loses no carry. */
  lemma PlusExact(c: Coef, s: int, w: nat)
    requires c.Ok() && (s == 1 || s == -1)
    ensures Plus(c, s, w).Value() == c.Value() + s * w <==> !Fails(c, s, w)
  {
    hide Place, Width, Lossy;
    PlusValue(c, s, w);
    PlaceNext(Width(w));
  }

  function HalfOf(c: Coef): Coef {
    Coef(c.s, c.v / 2, c.len)
  }

  lemma HalfValue(c: Coef)
    requires c.Ok()
    ensures HalfOf(c).Ok() && HalfOf(c).Value() == Halved(c.Value()) && c.v % 2 == c.Value() % 2
  {
  }

  // ----- one line

  datatype Line = Line(t: int, c1: Coef, c2: Coef) {
    predicate Ok() {
      c1.Ok() && c2.Ok()
    }

    predicate Odd() {
      c1.v % 2 == 1 || c2.v % 2 == 1
    }

    /** t = c1 * ta + c2 * tb. */
    predicate Exact(ta: int, tb: int) {
      c1.Value() * ta + c2.Value() * tb == t
    }

    predicate Within(c: int) {
      -c <= c1.Value() <= c && -c <= c2.Value() <= c
    }
  }

  /** One turn of the halving loop. */
  function HalveOnce(l: Line, ta: nat, tb: nat): (r: Line)
    requires l.Ok()
    ensures r.Ok()
  {
    PlusOk(l.c1, 1, tb);
    PlusOk(l.c2, -1, ta);
    if l.Odd() then Line(l.t / 2, HalfOf(Plus(l.c1, 1, tb)), HalfOf(Plus(l.c2, -1, ta)))
    else Line(l.t / 2, HalfOf(l.c1), HalfOf(l.c2))
  }

  predicate HalveFails(l: Line, ta: nat, tb: nat) {
    l.Odd() && (Fails(l.c1, 1, tb) || Fails(l.c2, -1, ta))
  }

  /** The halving loop. */
  function HalveAll(l: Line, ta: nat, tb: nat): (r: Line)
    requires l.Ok()
    ensures r.Ok()
    ensures l.t > 0 ==> 0 < r.t <= l.t && r.t % 2 == 1 && (l.t % 2 == 0 ==> 2 * r.t <= l.t)
    decreases l.t
  {
    if l.t > 0 && l.t % 2 == 0 then HalveAll(HalveOnce(l, ta, tb), ta, tb) else l
  }

  /** A number of turns of the halving loop, whether or not its guard holds. */
  function HalveTimes(l: Line, ta: nat, tb: nat, k: nat): (r: Line)
    requires l.Ok()
    ensures r.Ok()
  {
    if k == 0 then l else HalveOnce(HalveTimes(l, ta, tb, k - 1), ta, tb)
  }

  predicate HalvesLose(l: Line, ta: nat, tb: nat)
    requires l.Ok()
    decreases l.t
  {
    l.t > 0 && l.t % 2 == 0 && (HalveFails(l, ta, tb) || HalvesLose(HalveOnce(l, ta, tb), ta, tb))
  }

  /** The difference of two lines. */
  function Less(u: Line, v: Line): (r: Line)
    requires u.Ok() && v.Ok()
    ensures r.Ok()
  {
    PlusOk(u.c1, -v.c1.s, v.c1.v);
    PlusOk(u.c2, -v.c2.s, v.c2.v);
    Line(u.t - v.t, Plus(u.c1, -v.c1.s, v.c1.v), Plus(u.c2, -v.c2.s, v.c2.v))
  }

  predicate LessFails(u: Line, v: Line)
    requires v.Ok()
  {
    Fails(u.c1, -v.c1.s, v.c1.v) || Fails(u.c2, -v.c2.s, v.c2.v)
  }

  // ----- the run

  datatype Pair = Pair(u: Line, v: Line) {
    predicate Ok() {
      u.Ok() && v.Ok() && u.t > 0 && v.t > 0
    }
  }

  /** One turn of the extended loop: both lines are halved until they are odd, and the larger gives up the smaller. */
  function Turn(p: Pair, ta: nat, tb: nat): (r: Pair)
    requires p.Ok()
    ensures r.u.Ok() && r.v.Ok() && r.u.t >= 0 && r.v.t > 0 && r.u.t + r.v.t < p.u.t + p.v.t
    ensures r.u.t == 0 ==> r.v.t % 2 == 1
  {
    var u, v := HalveAll(p.u, ta, tb), HalveAll(p.v, ta, tb);
    if u.t >= v.t then Pair(Less(u, v), v) else Pair(u, Less(v, u))
  }

  predicate TurnLoses(p: Pair, ta: nat, tb: nat)
    requires p.Ok()
  {
    var u, v := HalveAll(p.u, ta, tb), HalveAll(p.v, ta, tb);
    HalvesLose(p.u, ta, tb) || HalvesLose(p.v, ta, tb) || if u.t >= v.t then LessFails(u, v) else LessFails(v, u)
  }

  /** The loop, until the first line is 0. */
  function Final(p: Pair, ta: nat, tb: nat): (r: Pair)
    requires p.Ok()
    ensures r.u.Ok() && r.v.Ok() && r.u.t == 0 && r.v.t > 0 && r.v.t % 2 == 1
    decreases p.u.t + p.v.t
  {
    var q := Turn(p, ta, tb);
    if q.u.t == 0 then q else Final(q, ta, tb)
  }

  /** Some turn loses a carry. */
  predicate Loses(p: Pair, ta: nat, tb: nat)
    requires p.Ok()
    decreases p.u.t + p.v.t
  {
    TurnLoses(p, ta, tb) || (Turn(p, ta, tb).u.t > 0 && Loses(Turn(p, ta, tb), ta, tb))
  }

  function Start(ta: int, tb: int): Pair {
    Pair(Line(ta, Coef(1, 1, 1), Coef(1, 0, 1)), Line(tb, Coef(1, 0, 1), Coef(1, 1, 1)))
  }

  /** The run of mpi_inv_mod on a modulo n loses a carry. */
  predicate LosesCarry(a: int, n: nat)
    requires n > 0 && a % n > 0
  {
    Loses(Start(a % n, n), a % n, n)
  }

  /** The two correction loops: a residue, unless they make -n of a multiple of n with a minus sign. */
  function Corrected(c: Coef, n: int): int
    requires n > 0
  {
    if c.s == -1 && c.v % n == 0 then -n else c.Value() % n
  }

  /** What mpi_inv_mod returns. */
  function CodeInverse(a: int, n: nat): int
    requires n > 0 && a % n > 0
  {
    Corrected(Final(Start(a % n, n), a % n, n).v.c1, n)
  }

  // ----- a run without loss is the algorithm on integers

  /** A turn of the halving loop that loses nothing halves exactly. */
  lemma HalveOnceExact(l: Line, ta: nat, tb: nat)
    requires l.Ok() && l.Exact(ta, tb) && l.t % 2 == 0 && !(ta % 2 == 0 && tb % 2 == 0) && !HalveFails(l, ta, tb)
    ensures HalveOnce(l, ta, tb).Exact(ta, tb)
  {
    hide Plus, Fails, Halved;
    HalvedExact(l.c1.Value(), l.c2.Value(), ta, tb, l.t);
    HalveOnceValues(l, ta, tb);
  }

  lemma HalveOnceValues(l: Line, ta: nat, tb: nat)
    requires l.Ok() && !HalveFails(l, ta, tb)
    ensures var r, x1, x2 := HalveOnce(l, ta, tb), l.c1.Value(), l.c2.Value();
            var odd := x1 % 2 != 0 || x2 % 2 != 0;
            && r.c1.Value() == Halved(if odd then x1 + tb else x1)
            && r.c2.Value() == Halved(if odd then x2 - ta else x2)
  {
    hide Plus, Fails, Halved;
    HalfValue(l.c1);
    HalfValue(l.c2);
    if l.Odd() {
      PlusOk(l.c1, 1, tb);
      PlusOk(l.c2, -1, ta);
      PlusValue(l.c1, 1, tb);
      PlusValue(l.c2, -1, ta);
      HalfValue(Plus(l.c1, 1, tb));
      HalfValue(Plus(l.c2, -1, ta));
    }
  }

  lemma {:induction false} HalveAllExact(l: Line, ta: nat, tb: nat, o: int)
    requires l.Ok() && l.t > 0
    ensures SameOdd(l.t, o, HalveAll(l, ta, tb).t, o)
    ensures l.Exact(ta, tb) && !(ta % 2 == 0 && tb % 2 == 0) && !HalvesLose(l, ta, tb) ==> HalveAll(l, ta, tb).Exact(ta, tb)
    decreases l.t
  {
    hide SameOdd, Plus, Fails, HalveOnce;
    SameOddRefl(l.t, o);
    if l.t % 2 == 0 {
      var r := HalveOnce(l, ta, tb);
      HalveOnceT(l, ta, tb);
      HalveAllExact(r, ta, tb, o);
      SameOddHalf(l.t, o);
      SameOddTrans(l.t, o, r.t, o, HalveAll(r, ta, tb).t, o);
      if l.Exact(ta, tb) && !(ta % 2 == 0 && tb % 2 == 0) && !HalveFails(l, ta, tb) {
        HalveOnceExact(l, ta, tb);
      }
    }
  }

  lemma HalveOnceT(l: Line, ta: nat, tb: nat)
    requires l.Ok()
    ensures HalveOnce(l, ta, tb).t == l.t / 2
  {
  }

  lemma LessValues(u: Line, v: Line)
    requires u.Ok() && v.Ok() && !LessFails(u, v)
    ensures Less(u, v).t == u.t - v.t
    ensures Less(u, v).c1.Value() == u.c1.Value() - v.c1.Value() && Less(u, v).c2.Value() == u.c2.Value() - v.c2.Value()
  {
    hide Plus, Fails;
    PlusValue(u.c1, -v.c1.s, v.c1.v);
    PlusValue(u.c2, -v.c2.s, v.c2.v);
  }

  lemma LessExact(u: Line, v: Line, ta: int, tb: int)
    requires u.Ok() && v.Ok() && !LessFails(u, v) && u.Exact(ta, tb) && v.Exact(ta, tb)
    ensures Less(u, v).Exact(ta, tb)
  {
    hide Less, LessFails;
    LessValues(u, v);
    Differences(u.c1.Value(), u.c2.Value(), v.c1.Value(), v.c2.Value(), ta, tb);
  }

  /** Both lines are exact. */
  ghost predicate Sound(p: Pair, ta: int, tb: int) {
    p.u.Exact(ta, tb) && p.v.Exact(ta, tb)
  }

  lemma TurnOdd(p: Pair, ta: nat, tb: nat)
    requires p.Ok() && SameOdd(ta, tb, p.u.t, p.v.t)
    ensures SameOdd(ta, tb, Turn(p, ta, tb).u.t, Turn(p, ta, tb).v.t)
  {
    hide SameOdd, Less, HalveAll;
    var u, v := HalveAll(p.u, ta, tb), HalveAll(p.v, ta, tb);
    HalveAllExact(p.u, ta, tb, p.v.t);
    SameOddTrans(ta, tb, p.u.t, p.v.t, u.t, p.v.t);
    HalveAllExact(p.v, ta, tb, u.t);
    SameOddSwap(p.v.t, u.t, v.t, u.t);
    SameOddTrans(ta, tb, u.t, p.v.t, u.t, v.t);
    SameOddSub(u.t, v.t);
    SameOddSub(v.t, u.t);
    SameOddSwap(v.t, u.t, v.t - u.t, u.t);
    LessT(u, v);
    LessT(v, u);
    if u.t >= v.t {
      SameOddTrans(ta, tb, u.t, v.t, u.t - v.t, v.t);
    } else {
      SameOddTrans(ta, tb, u.t, v.t, u.t, v.t - u.t);
    }
  }

  lemma LessT(u: Line, v: Line)
    requires u.Ok() && v.Ok()
    ensures Less(u, v).t == u.t - v.t
  {
  }

  lemma TurnExact(p: Pair, ta: nat, tb: nat)
    requires p.Ok() && Sound(p, ta, tb) && !(ta % 2 == 0 && tb % 2 == 0) && !TurnLoses(p, ta, tb)
    ensures Sound(Turn(p, ta, tb), ta, tb)
  {
    hide SameOdd, Less, LessFails, HalveAll, HalvesLose;
    var u, v := HalveAll(p.u, ta, tb), HalveAll(p.v, ta, tb);
    HalveAllExact(p.u, ta, tb, 0);
    HalveAllExact(p.v, ta, tb, 0);
    if u.t >= v.t {
      LessExact(u, v, ta, tb);
    } else {
      LessExact(v, u, ta, tb);
    }
  }

  lemma {:induction false} FinalExact(p: Pair, ta: nat, tb: nat)
    requires p.Ok() && SameOdd(ta, tb, p.u.t, p.v.t)
    ensures SameOdd(ta, tb, 0, Final(p, ta, tb).v.t)
    ensures Sound(p, ta, tb) && !(ta % 2 == 0 && tb % 2 == 0) && !Loses(p, ta, tb) ==> Sound(Final(p, ta, tb), ta, tb)
    decreases p.u.t + p.v.t
  {
    hide SameOdd, Turn, TurnLoses, Sound;
    var q := Turn(p, ta, tb);
    TurnOdd(p, ta, tb);
    if Sound(p, ta, tb) && !(ta % 2 == 0 && tb % 2 == 0) && !TurnLoses(p, ta, tb) {
      TurnExact(p, ta, tb);
    }
    if q.u.t > 0 {
      FinalExact(q, ta, tb);
    }
  }

  /** The combination at the end of a run without loss. */
  lemma RunExact(a: int, n: nat)
    requires n > 0 && a % n > 0 && !(a % 2 == 0 && n % 2 == 0) && Gcd(Abs(a), n) == 1 && !LosesCarry(a, n)
    ensures var v := Final(Start(a % n, n), a % n, n).v; v.c1.Value() * (a % n) + v.c2.Value() * n == 1
  {
    hide SameOdd, Gcd, Final, Loses, CommonDivisor;
    var ta := a % n;
    NotBothEven(a, n);
    SameOddRefl(ta, n);
    StartExact(ta, n);
    FinalExact(Start(ta, n), ta, n);
    var v := Final(Start(ta, n), ta, n).v;
    LastDivisor(v.t, ta, n);
    CoprimeUnit(v.t, a, n, ta);
  }

  lemma StartExact(ta: int, tb: int)
    ensures Sound(Start(ta, tb), ta, tb)
  {
  }

  lemma CorrectedInverse(a: int, c: Coef, n: int)
    requires n > 1 && c.Ok() && Cong(a * c.Value(), 1, n)
    ensures 0 <= Corrected(c, n) < n && Cong(a * Corrected(c, n), 1, n)
  {
    hide Cong;
    var x := c.Value();
    if c.v % n == 0 {
      MultipleNoInverse(a, c.s, c.v, n);
    }
    ShiftInverse(a, x, n, -(x / n));
    assert x + -(x / n) * n == x % n;
  }

  lemma MultipleNoInverse(a: int, s: int, v: int, n: int)
    requires n > 1 && v % n == 0
    ensures !Cong(a * (s * v), 1, n)
  {
    var q := v / n;
    assert v == q * n;
    Regroup(a, s, q, n);
    if Cong(a * (s * v), 1, n) {
      var k := CongElim(a * (s * v), 1, n);
      MulSign((a * s * q) - k, n);
    }
  }

  lemma Regroup(a: int, s: int, q: int, n: int)
    ensures a * (s * (q * n)) == (a * s * q) * n
  {
  }

  /** Without a lost carry the code's result is the inverse, for every modulus. */
  lemma CodeExact(a: int, n: nat)
    requires n > 1 && a % n > 0 && !(a % 2 == 0 && n % 2 == 0) && Gcd(Abs(a), n) == 1 && !LosesCarry(a, n)
    ensures 0 <= CodeInverse(a, n) < n && Cong(a * CodeInverse(a, n), 1, n)
  {
    hide Cong, Gcd, LosesCarry, Corrected, Final;
    RunExact(a, n);
    var v := Final(Start(a % n, n), a % n, n).v;
    InverseOf(v.c1.Value(), v.c2.Value(), a, n);
    CorrectedInverse(a, v.c1, n);
  }

  // ----- how long small moduli take

  /** After k turns: the product of the two lines has halved at each turn but the first. */
  ghost predicate Turns(k: nat, tu: int, tv: int, n: int) {
    && tu >= 0 && tv > 0
    && if k == 0 then tu * tv <= n * n
       else Pow2(k) * (tu * tv) <= 2 * (n * n) && (tu % 2 == 0 || tv % 2 == 0)
  }

  lemma ProductLe(a: int, b: int, c: int, d: int)
    requires 0 <= a <= c && 0 <= b <= d
    ensures 0 <= a * b <= c * d
  {
    MulLe(a, c, b);
    MulLe(b, d, c);
  }

  lemma TurnsProduct(k: nat, tu: int, tv: int, n: int, z: int)
    requires Turns(k, tu, tv, n) && (k == 0 ==> z <= tu * tv) && (k > 0 ==> 2 * z <= tu * tv)
    ensures Pow2(k + 1) * z <= 2 * (n * n)
  {
    hide Pow2;
    Pow2Next(k);
    if k == 0 {
      Pow2One();
    } else {
      MulLe(2 * z, tu * tv, Pow2(k));
      assert Pow2(k + 1) * z == (2 * z) * Pow2(k);
    }
  }

  lemma OddDifference(x: int, y: int)
    requires x % 2 == 1 && y % 2 == 1
    ensures (x - y) % 2 == 0
  {
  }

  lemma TurnsAfter(k: nat, tu: int, tv: int, n: int, a: int, b: int)
    requires Turns(k, tu, tv, n) && a >= 0 && b > 0 && (a % 2 == 0 || b % 2 == 0)
    requires (k == 0 ==> a * b <= tu * tv) && (k > 0 ==> 2 * (a * b) <= tu * tv)
    ensures Turns(k + 1, a, b, n)
  {
    hide Pow2;
    TurnsProduct(k, tu, tv, n, a * b);
  }

  /** The odd parts of two numbers, of which one is even unless this is the first turn. */
  lemma OddParts(k: nat, tu: int, tv: int, n: int, x: int, y: int)
    requires Turns(k, tu, tv, n) && 0 < x <= tu && 0 < y <= tv
    requires (tu % 2 == 0 ==> 2 * x <= tu) && (tv % 2 == 0 ==> 2 * y <= tv)
    ensures x * y <= tu * tv && (k > 0 ==> 2 * (x * y) <= tu * tv)
  {
    hide Pow2;
    ProductLe(x, y, tu, tv);
    if tu % 2 == 0 {
      ProductLe(2 * x, y, tu, tv);
      MulAssoc(2, x, y);
    } else if tv % 2 == 0 {
      ProductLe(x, 2 * y, tu, tv);
      MulAssoc(2, y, x);
    }
  }

  lemma TurnsNext(k: nat, tu: int, tv: int, n: int, x: int, y: int)
    requires Turns(k, tu, tv, n) && 0 < x <= tu && 0 < y <= tv && x % 2 == 1 && y % 2 == 1
    requires (tu % 2 == 0 ==> 2 * x <= tu) && (tv % 2 == 0 ==> 2 * y <= tv)
    ensures x >= y ==> Turns(k + 1, x - y, y, n)
    ensures x < y ==> Turns(k + 1, x, y - x, n)
  {
    hide Pow2, Turns;
    OddParts(k, tu, tv, n, x, y);
    OddDifference(x, y);
    OddDifference(y, x);
    if x >= y {
      ProductLe(x - y, y, x, y);
      TurnsAfter(k, tu, tv, n, x - y, y);
    } else {
      ProductLe(x, y - x, x, y);
      TurnsAfter(k, tu, tv, n, x, y - x);
    }
  }

  /** 2^56: with a modulus up to it, which may have two limbs, the coefficients stay below 2^64. */
  const SMALL: int := 0x100_0000_0000_0000

  /** A modulus up to 2^56 takes at most 112 turns. */
  lemma FewTurns(k: nat, tu: int, tv: int, n: int)
    requires Turns(k, tu, tv, n) && tu > 0 && 0 < n < SMALL
    ensures k <= 112
  {
    hide Pow2;
    ProductLe(1, 1, tu, tv);
    if k > 112 {
      Pow2Of113();
      PowMono(2, 113, k);
      MulLe(1, tu * tv, Pow2(k));
      assert Pow2(113) <= Pow2(k) by {
        Pow2Is(113);
        Pow2Is(k);
      }
      ProductLe(n, n, SMALL - 1, SMALL - 1);
    }
  }

  lemma Pow2Is(k: nat)
    ensures Pow2(k) == Pow(2, k)
  {
  }

  lemma Pow2Of113()
    ensures Pow2(113) == 2 * SMALL * SMALL
  {
    hide Pow2;
    Pow2Word();
    Pow2Is(24);
    Pow2Is(32);
    Pow2Is(56);
    Pow2Is(112);
    assert Pow(2, 8) == 256;
    PowAdd(2, 8, 8);
    PowAdd(2, 16, 8);
    PowAdd(2, 24, 32);
    PowAdd(2, 56, 56);
    Pow2Next(112);
  }

  /** How large the coefficients of a line can be after k turns. */
  function Bound(k: nat, n: int, t: int): int {
    if t % 2 == 0 then 2 * (n * (k + 1)) else n * (k + 1)
  }

  lemma BoundSafe(k: nat, n: int, t: int)
    requires 0 < n < SMALL && k <= 112
    ensures 0 <= Bound(k, n, t) && Bound(k, n, t) + n < SAFE && 0 <= n * (k + 2) < SAFE
    ensures (if t % 2 == 0 then Bound(k, n, t) / 2 + n else Bound(k, n, t)) <= n * (k + 2)
  {
    ProductLe(n, k + 1, SMALL, 113);
    assert n * (k + 2) == n * (k + 1) + n;
  }

  lemma NextBounds(k: nat, n: int, x: int, y: int)
    requires x % 2 == 1 && y % 2 == 1
    ensures Bound(k + 1, n, x) == n * (k + 2) == Bound(k + 1, n, y)
    ensures Bound(k + 1, n, x - y) == 2 * (n * (k + 2)) == Bound(k + 1, n, y - x)
  {
  }

  lemma HalvedBound(x: int, c: int, n: int, d: int, first: bool)
    requires c >= 0 && n >= 0 && -n <= d <= n && (if first then -c <= x <= c else -(c / 2 + n) <= x <= c / 2 + n)
    ensures -(c / 2 + n) <= Halved(x) <= c / 2 + n && -(c / 2 + n) <= Halved(x + d) <= c / 2 + n
  {
  }

  /** A coefficient below this loses no carry. */
  const SAFE: int := (BASE - 1) * BASE

  lemma PlaceLow()
    ensures Place(0) == 1 && Place(1) == BASE
  {
  }

  lemma SafeCoef(c: Coef, s: int, w: nat)
    requires c.Ok() && -SAFE < c.Value() < SAFE
    ensures !Fails(c, s, w)
  {
    hide Place;
    if Lossy(c, w) {
      TopDigit(c.v, Place(Width(w)));
      if Width(w) == 0 {
        PlaceLow();
      } else {
        PlaceMono(1, Width(w));
        PlaceLow();
      }
    }
  }

  /** A line with small coefficients is halved without loss, and its coefficients stay small. */
  lemma {:induction false} SmallHalves(l: Line, ta: nat, tb: nat, c: int, first: bool)
    requires l.Ok() && l.t > 0 && ta <= tb && c >= 0 && c + tb < SAFE && l.Within(if first then c else c / 2 + tb)
    ensures !HalvesLose(l, ta, tb) && HalveAll(l, ta, tb).Within(if first && l.t % 2 == 1 then c else c / 2 + tb)
    decreases l.t
  {
    hide Plus, Fails, Halved, HalveOnce;
    if l.t % 2 == 0 {
      SafeCoef(l.c1, 1, tb);
      SafeCoef(l.c2, -1, ta);
      HalveOnceT(l, ta, tb);
      HalveOnceValues(l, ta, tb);
      HalvedBound(l.c1.Value(), c, tb, tb, first);
      var d: int := ta;
      HalvedBound(l.c2.Value(), c, tb, -d, first);
      SmallHalves(HalveOnce(l, ta, tb), ta, tb, c, false);
    }
  }

  /** The bounds that a run with a small modulus keeps. */
  ghost predicate Small(p: Pair, n: int, k: nat) {
    Turns(k, p.u.t, p.v.t, n) && p.u.Within(Bound(k, n, p.u.t)) && p.v.Within(Bound(k, n, p.v.t))
  }

  lemma SmallHalf(l: Line, ta: nat, tb: nat, k: nat)
    requires l.Ok() && l.t > 0 && ta <= tb && 0 < tb < SMALL && k <= 112 && l.Within(Bound(k, tb, l.t))
    ensures !HalvesLose(l, ta, tb) && HalveAll(l, ta, tb).Within(tb * (k + 2)) && 0 <= tb * (k + 2) < SAFE
  {
    hide HalvesLose, HalveAll, Bound;
    BoundSafe(k, tb, l.t);
    SmallHalves(l, ta, tb, Bound(k, tb, l.t), true);
  }

  lemma SmallLess(u: Line, v: Line, c: int)
    requires u.Ok() && v.Ok() && 0 <= c < SAFE && u.Within(c) && v.Within(c)
    ensures !LessFails(u, v) && Less(u, v).t == u.t - v.t && Less(u, v).Within(2 * c)
  {
    hide Fails, Less;
    SafeCoef(u.c1, -v.c1.s, v.c1.v);
    SafeCoef(u.c2, -v.c2.s, v.c2.v);
    LessValues(u, v);
  }

  lemma SmallTurn(p: Pair, ta: nat, tb: nat, k: nat)
    requires p.Ok() && ta <= tb && 0 < tb < SMALL && Small(p, tb, k)
    ensures !TurnLoses(p, ta, tb) && Small(Turn(p, ta, tb), tb, k + 1)
  {
    hide HalvesLose, HalveAll, Less, LessFails, Bound, Turns;
    FewTurns(k, p.u.t, p.v.t, tb);
    SmallHalf(p.u, ta, tb, k);
    SmallHalf(p.v, ta, tb, k);
    var u, v, c := HalveAll(p.u, ta, tb), HalveAll(p.v, ta, tb), tb * (k + 2);
    TurnsNext(k, p.u.t, p.v.t, tb, u.t, v.t);
    NextBounds(k, tb, u.t, v.t);
    SmallLess(u, v, c);
    SmallLess(v, u, c);
  }

  lemma {:induction false} SmallFinal(p: Pair, ta: nat, tb: nat, k: nat)
    requires p.Ok() && ta <= tb && 0 < tb < SMALL && Small(p, tb, k)
    ensures !Loses(p, ta, tb)
    decreases p.u.t + p.v.t
  {
    hide Turn, TurnLoses, Small;
    SmallTurn(p, ta, tb, k);
    if Turn(p, ta, tb).u.t > 0 {
      SmallFinal(Turn(p, ta, tb), ta, tb, k + 1);
    }
  }

  /** With a modulus below 2^56 no carry is lost. */
  lemma SmallModulus(a: int, n: nat)
    requires 0 < n < SMALL && a % n > 0
    ensures !LosesCarry(a, n)
  {
    hide Loses;
    var ta := a % n;
    MulLe(ta, n, n);
    SmallStart(ta, n);
    SmallFinal(Start(ta, n), ta, n, 0);
  }

  lemma SmallStart(ta: int, n: int)
    requires 0 < ta <= n && ta * n <= n * n
    ensures Small(Start(ta, n), n, 0)
  {
  }
}
