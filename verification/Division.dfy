/** Long division of multi-precision integers (HAC 14.20) and the reduction built on it. */
module Division {
  import opened Arith
  import opened Limbs
  import opened Bignum
  import opened Shift

  const ERR_DIVISION_BY_ZERO := -0x000C

  // ----- the quotient digit

  /** The true digit never exceeds what the leading parts allow. */
  lemma DigitFits(x: int, d: int, w: int, xt: int, dt: int, xl: int, dl: int)
    requires w > 0 && 0 <= xl < w && 0 <= dl < w && d > 0 && x >= 0
    requires x == xl + w * xt && d == dl + w * dt
    ensures (x / d) * dt <= xt
  {
    var q := x / d;
    if q * dt > xt {
      assert q * d == q * dl + w * (q * dt) by {
        assert q * (w * dt) == w * (q * dt);
      }
      MulLe(0, q, dl);
      MulLe(xt + 1, q * dt, w);
      assert false;
    }
  }

  /** A digit below BASE that passes the three-limb test is at most one too large. */
  lemma DigitClose(x: int, d: int, w: int, xt: int, dt: int, xl: int, dl: int, q: int)
    requires w > 0 && 0 <= xl < w && 0 <= dl < w && d > 0 && x >= 0
    requires x == xl + w * xt && d == dl + w * dt
    requires 0 <= q < BASE <= dt && q * dt <= xt
    ensures q <= x / d + 1
  {
    var t := x / d;
    assert q * d == q * dl + w * (q * dt) by {
      assert q * (w * dt) == w * (q * dt);
    }
    MulLe(q * dt, xt, w);
    MulLe(dl, w, q);
    MulLe(q + 1, dt, w);
    assert q * d < x + d;
    if q > t + 1 {
      MulLe(t + 2, q, d);
      assert false;
    }
  }

  /** The leading two limbs of the divisor, the leading three of the dividend, as the code reads them. */
  function Top2(y: seq<Limb>, t: nat): int
    requires t < |y|
  {
    (if t < 1 then 0 else y[t - 1]) + BASE * y[t]
  }

  function Top3(x: seq<Limb>, i: nat): int
    requires 0 < i < |x|
  {
    (if i < 2 then 0 else x[i - 2]) + BASE * (x[i - 1] + BASE * x[i])
  }

  /** BASE times a number of k+1 limbs, split below its two leading limbs. */
  lemma SplitTop2(y: seq<Limb>, t: nat) returns (lo: int)
    requires t < |y| && Sig(y) <= t + 1
    ensures 0 <= lo < Place(t)
    ensures BASE * Val(y) == lo + Place(t) * Top2(y, t)
  {
    hide Val;
    assert y == y[..t + 1] + Zeros(|y| - t - 1);
    ValPad(y[..t + 1], |y| - t - 1);
    ValTake(y, t);
    if t < 1 {
      lo := 0;
      assert y[..0] == [];
      EmptyVal();
    } else {
      ValTake(y, t - 1);
      lo := BASE * Val(y[..t - 1]);
      assert Place(t) == BASE * Place(t - 1);
      SplitArith2(Val(y[..t - 1]), y[t - 1], y[t], Place(t - 1));
    }
  }

  lemma EmptyVal()
    ensures Val([]) == 0 && Place(0) == 1 && Place(1) == BASE
  {
  }

  lemma SplitArith2(v: int, a: int, b: int, w: int)
    ensures BASE * (v + a * w + b * (BASE * w)) == BASE * v + (BASE * w) * (a + BASE * b)
  {
  }

  lemma SplitTop3(x: seq<Limb>, i: nat) returns (lo: int)
    requires 0 < i < |x| && Sig(x) <= i + 1
    ensures 0 <= lo < Place(i - 1)
    ensures BASE * Val(x) == lo + Place(i - 1) * Top3(x, i)
  {
    hide Val;
    assert x == x[..i + 1] + Zeros(|x| - i - 1);
    ValPad(x[..i + 1], |x| - i - 1);
    ValTake(x, i);
    ValTake(x, i - 1);
    var u := x[i - 1] + BASE * x[i];
    assert Place(i) == BASE * Place(i - 1);
    assert Val(x) == Val(x[..i - 1]) + Place(i - 1) * u by {
      SplitArith(x[i - 1], x[i], Place(i - 1));
    }
    if i < 2 {
      lo := 0;
      assert x[..0] == [];
      EmptyVal();
    } else {
      ValTake(x, i - 2);
      lo := BASE * Val(x[..i - 2]);
      assert Place(i - 1) == BASE * Place(i - 2);
      SplitArith3(Val(x[..i - 2]), x[i - 2], u, Place(i - 2));
    }
  }

  lemma SplitArith(a: int, b: int, w: int)
    ensures a * w + b * (BASE * w) == w * (a + BASE * b)
  {
  }

  lemma SplitArith3(v: int, a: int, u: int, w: int)
    ensures BASE * ((v + a * w) + (BASE * w) * u) == BASE * v + (BASE * w) * (a + BASE * u)
  {
  }

  /** Digit i-t-1 of the quotient, when the dividend has i+1 limbs and the divisor t+1. */
  ghost function Divisor(y: seq<Limb>, i: nat, t: nat): int
    requires t < i
  {
    Val(y) * Place(i - t - 1)
  }

  lemma DivisorPos(y: seq<Limb>, i: nat, t: nat)
    requires t < i && Sig(y) == t + 1
    ensures Divisor(y, i, t) > 0
  {
  }

  lemma ScaledSplit(lo: int, w: int, top: int, e: int)
    requires 0 <= lo < w && e > 0
    ensures 0 <= lo * e < w * e
    ensures (lo + w * top) * e == lo * e + (w * e) * top
  {
  }

  lemma DivScale(x: int, d: int)
    requires x >= 0 && d > 0
    ensures (BASE * x) / (BASE * d) == x / d
  {
    DivDiv(BASE * x, BASE, d);
    DivModUnique(BASE * x, BASE, x, 0);
  }

  lemma SplitTop1(y: seq<Limb>, t: nat)
    requires t < |y| && Sig(y) <= t + 1
    ensures Val(y) == Val(y[..t]) + Place(t) * y[t]
  {
    hide Val, Place;
    LowLimbs(y, t + 1);
    ValTake(y, t);
  }

  lemma SplitLead(x: seq<Limb>, i: nat)
    requires 0 < i < |x| && Sig(x) <= i + 1
    ensures Val(x) == Val(x[..i - 1]) + Place(i - 1) * (x[i - 1] + BASE * x[i])
  {
    hide Val, Place;
    LowLimbs(x, i + 1);
    ValTake(x, i);
    ValTake(x, i - 1);
    PlaceNext(i - 1);
    SplitArith(x[i - 1], x[i], Place(i - 1));
  }

  /** The first estimate, from two limbs over one, is not below the true digit. */
  lemma DigitEstimate(x: seq<Limb>, y: seq<Limb>, i: nat, t: nat)
    requires t < i < |x| && t < |y| && Sig(y) == t + 1 && Sig(x) <= i + 1
    ensures Divisor(y, i, t) > 0
    ensures (Val(x) / Divisor(y, i, t)) * y[t] <= x[i] * BASE + x[i - 1]
  {
    hide Val, Sig, Place;
    DivisorPos(y, i, t);
    var w := Place(i - t - 1);
    PlaceAdd(t, i - t - 1);
    SplitTop1(y, t);
    ScaledSplit(Val(y[..t]), Place(t), y[t], w);
    SplitLead(x, i);
    DigitFits(Val(x), Divisor(y, i, t), Place(i - 1), x[i - 1] + BASE * x[i], y[t],
              Val(x[..i - 1]), Val(y[..t]) * w);
  }

  /** The three-limb test: the true digit passes it, and a digit that passes is at most one too large. */
  lemma DigitTest(x: seq<Limb>, y: seq<Limb>, i: nat, t: nat, q: Limb)
    requires t < i < |x| && t < |y| && Sig(y) == t + 1 && Sig(x) <= i + 1
    ensures Divisor(y, i, t) > 0
    ensures (Val(x) / Divisor(y, i, t)) * Top2(y, t) <= Top3(x, i)
    ensures q * Top2(y, t) <= Top3(x, i) ==> q <= Val(x) / Divisor(y, i, t) + 1
  {
    hide Val, Sig, Place, Top3;
    DivisorPos(y, i, t);
    var d := Divisor(y, i, t);
    var w := Place(i - t - 1);
    PlaceAdd(t, i - t - 1);
    var yl := SplitTop2(y, t);
    var xl := SplitTop3(x, i);
    ScaledSplit(yl, Place(t), Top2(y, t), w);
    assert BASE * d == (BASE * Val(y)) * w;
    DivScale(Val(x), d);
    DigitFits(BASE * Val(x), BASE * d, Place(i - 1), Top3(x, i), Top2(y, t), xl, yl * w);
    if q * Top2(y, t) <= Top3(x, i) {
      assert Top2(y, t) >= BASE;
      DigitClose(BASE * Val(x), BASE * d, Place(i - 1), Top3(x, i), Top2(y, t), xl, yl * w, q);
    }
  }

  /** A dividend below BASE shifted divisors has a one-limb digit. */
  lemma DigitIsLimb(x: int, d: int)
    requires 0 <= x < BASE * d && d > 0
    ensures 0 <= x / d < BASE
  {
  }

  lemma SigTop(y: seq<Limb>, t: nat)
    requires Sig(y) == t + 1
    ensures t < |y| && y[t] > 0
  {
  }

  lemma ZeroTop(x: seq<Limb>, i: nat)
    requires 0 < i < |x| && Val(x) == 0
    ensures Top3(x, i) == 0
  {
    hide Val;
    ValSig(x);
  }

  lemma EstimateBound(u: int, d: int, q: int)
    requires d > 0 && q * d <= u
    ensures q <= u / d
  {
    if q > u / d {
      MulLe(u / d + 1, q, d);
    }
  }

  lemma WrapDown(z: Limb)
    ensures ((z + 1) % BASE - 1) % BASE == z
  {
  }

  lemma SmallerDigit(q: int, z: int, a: int, b: int)
    requires a > 0 && q * a <= b < z * a
    ensures q < z
  {
  }

  lemma ZeroDigit(z: int, a: int)
    requires z >= 0 && a > 0 && z * a <= 0
    ensures z == 0
  {
  }

  lemma LowLimbs(p: seq<Limb>, k: nat)
    requires k <= |p| && forall j :: k <= j < |p| ==> p[j] == 0
    ensures Val(p) == Val(p[..k])
  {
    hide Val;
    assert p == p[..k] + Zeros(|p| - k);
    ValPad(p[..k], |p| - k);
  }

  lemma TwoLimbs(a: Limb, b: Limb)
    ensures Val([a, b]) == a + BASE * b
  {
  }

  lemma ThreeLimbs(a: Limb, b: Limb, c: Limb)
    ensures Val([a, b, c]) == a + BASE * (b + BASE * c)
  {
    hide Val;
    assert [a, b, c] == [a] + [b, c];
    ValCons(a, [b, c]);
    TwoLimbs(b, c);
  }

  lemma LowTwo(p: seq<Limb>)
    requires |p| >= 2 && forall j :: 2 <= j < |p| ==> p[j] == 0
    ensures Val(p) == p[0] + BASE * p[1]
  {
  }

  lemma LowThree(p: seq<Limb>)
    requires |p| >= 3 && forall j :: 3 <= j < |p| ==> p[j] == 0
    ensures Val(p) == p[0] + BASE * (p[1] + BASE * p[2])
  {
    LowLimbs(p, 3);
    assert p[..3] == [p[0], p[1], p[2]];
    ThreeLimbs(p[0], p[1], p[2]);
  }

  method SetTop2(T1: Mpi, Y: Mpi, t: nat)
    requires Y != T1 && t < |Y.p| && |T1.p| >= 2
    modifies T1
    ensures |T1.p| >= 2 && T1.s == 1 && T1.Mag() == Top2(Y.p, t)
  {
    hide Val;
    Lset(T1, 0);
    T1.p := T1.p[0 := if t < 1 then 0 else Y.p[t - 1]][1 := Y.p[t]];
    LowTwo(T1.p);
  }

  method SetTop3(T2: Mpi, X: Mpi, i: nat)
    requires X != T2 && 0 < i < |X.p| && |T2.p| >= 3
    modifies T2
    ensures |T2.p| >= 3 && T2.s == 1 && T2.Mag() == Top3(X.p, i)
  {
    hide Val;
    Lset(T2, 0);
    T2.p := T2.p[0 := if i < 2 then 0 else X.p[i - 2]][1 := if i < 1 then 0 else X.p[i - 1]][2 := X.p[i]];
    LowThree(T2.p);
  }

  /** Compares z times the two leading limbs of the divisor with three limbs of the dividend. */
  method TestDigit(X: Mpi, Y: Mpi, z: Limb, T1: Mpi, T2: Mpi, i: nat, t: nat) returns (cmp: int)
    requires X !in {T1, T2} && Y !in {T1, T2} && T1 != T2
    requires t < i < |X.p| && t < |Y.p| && |T1.p| >= 2 && |T2.p| >= 3
    modifies T1, T2
    ensures |T1.p| >= 2 && |T2.p| >= 3
    ensures cmp == Sign(z * Top2(Y.p, t) - Top3(X.p, i))
  {
    hide Val, Sig, Sign, Top2, Top3;
    SetTop2(T1, Y, t);
    MulInt(T1, T1, z);
    SetTop3(T2, X, i);
    cmp := CmpMpi(T1, T2);
  }

  /** The first guess at a digit: the two leading limbs by the leading one, cut off at the largest limb. */
  method FirstGuess(x1: Limb, x0: Limb, y: Limb, ghost q: int) returns (z: Limb)
    requires y > 0 && 0 <= q < BASE && q * y <= x1 * BASE + x0
    ensures q <= z == if x1 >= y then BASE - 1 else (x1 * BASE + x0) / y
  {
    if x1 >= y {
      return BASE - 1;
    }
    var r := (x1 * BASE + x0) / y;
    EstimateBound(x1 * BASE + x0, y, q);
    DigitIsLimb(x1 * BASE + x0, y);
    if r > BASE - 1 {
      r := BASE - 1;
    }
    return r;
  }

  /** The estimate loop of the division: leaves the digit, or the digit plus one, in Z. */
  method TrialDigit(X: Mpi, Y: Mpi, Z: Mpi, T1: Mpi, T2: Mpi, i: nat, t: nat)
    requires X !in {Z, T1, T2} && Y !in {Z, T1, T2} && Z !in {T1, T2} && T1 != T2
    requires t < i < |X.p| && t < |Y.p| && i - t - 1 < |Z.p| && |T1.p| >= 2 && |T2.p| >= 3
    requires Sig(Y.p) == t + 1 && Sig(X.p) <= i + 1
    requires Divisor(Y.p, i, t) > 0 && Val(X.p) < BASE * Divisor(Y.p, i, t)
    modifies Z`p, T1, T2
    ensures |Z.p| == |old(Z.p)| && Z.p == old(Z.p)[i - t - 1 := Z.p[i - t - 1]]
    ensures |T1.p| >= 2 && |T2.p| >= 3
    ensures var q := Val(X.p) / Divisor(Y.p, i, t);
            (Z.p[i - t - 1] == q || Z.p[i - t - 1] == q + 1) && (Val(X.p) == 0 ==> Z.p[i - t - 1] == 0)
  {
    hide Val, Sig, Place, Divisor;
    var e := i - t - 1;
    ghost var q := Val(X.p) / Divisor(Y.p, i, t);
    DigitIsLimb(Val(X.p), Divisor(Y.p, i, t));
    DigitEstimate(X.p, Y.p, i, t);
    SigTop(Y.p, t);
    var z := FirstGuess(X.p[i], X.p[i - 1], Y.p[t], q);
    Z.p := Z.p[e := z];
    Z.p := Z.p[e := (Z.p[e] + 1) % BASE];
    WrapDown(z);
    while true
      invariant |Z.p| == |old(Z.p)| && Z.p == old(Z.p)[e := Z.p[e]]
      invariant |T1.p| >= 2 && |T2.p| >= 3
      invariant q <= (Z.p[e] - 1) % BASE
      decreases (Z.p[e] - 1) % BASE
    {
      z := (Z.p[e] - 1) % BASE;
      Z.p := Z.p[e := z];
      var cmp := TestDigit(X, Y, z, T1, T2, i, t);
      DigitTest(X.p, Y.p, i, t, z);
      if cmp <= 0 {
        break;
      }
      SmallerDigit(q, z, Top2(Y.p, t), Top3(X.p, i));
      DivModUnique(z - 1, BASE, 0, z - 1);
    }
    if Val(X.p) == 0 {
      ZeroTop(X.p, i);
      SigTop(Y.p, t);
      ZeroDigit(Z.p[e], Top2(Y.p, t));
    }
  }

  // ----- the division loop

  lemma ValUpdate(p: seq<Limb>, e: nat, q: Limb)
    requires e < |p|
    ensures Val(p[e := q]) == Val(p) + (q - p[e]) * Place(e)
  {
    hide Val, Place;
    var r := p[e := q];
    ValSplit(p, e + 1);
    ValSplit(r, e + 1);
    ValTake(p, e);
    ValTake(r, e);
    assert r[..e] == p[..e] && r[e + 1..] == p[e + 1..];
    UpdateArith(q, p[e], Place(e));
  }

  lemma UpdateArith(q: int, x: int, w: int)
    ensures q * w == x * w + (q - x) * w
  {
  }

  /** State at the head of the loop: quotient digits i-t.. are in Z, the rest of the dividend in X. */
  ghost predicate DivInv(X: Mpi, Y: Mpi, Z: Mpi, n: nat, i: nat, t: nat, a: int)
    reads X, Y, Z
  {
    && X !in {Y, Z} && Y != Z
    && t <= i <= n && |X.p| > n && |Z.p| > n - t
    && X.Valid() && X.Value() >= 0
    && Y.s == 1 && |Y.p| > t && Sig(Y.p) == t + 1
    && (forall k :: 0 <= k < i - t ==> Z.p[k] == 0)
    && a == Val(Z.p) * Val(Y.p) + Val(X.p)
    && Val(X.p) < Val(Y.p) * Place(i - t)
  }

  lemma DivisorNext(y: seq<Limb>, i: nat, t: nat)
    requires t < i
    ensures Val(y) * Place(i - t) == BASE * Divisor(y, i, t)
  {
  }

  /** The rest of the dividend has at most i+1 limbs. */
  lemma RestFits(x: seq<Limb>, y: seq<Limb>, i: nat, t: nat)
    requires t <= i && Sig(y) == t + 1 && Val(x) < Val(y) * Place(i - t)
    ensures Sig(x) <= i + 1
  {
    hide Val, Place, Sig;
    ValSig(y);
    MulLt(Val(y), Place(t + 1), Place(i - t));
    PlaceAdd(t + 1, i - t);
    SigBelow(x, i + 1);
  }

  lemma MulRotate(y: int, z: int, w: int)
    ensures (y * z) * w == z * (y * w)
  {
  }

  lemma NoCarryFromZero(x: seq<Limb>, b: seq<Limb>)
    requires Val(b) == 0
    ensures !CarryLost(x, b)
  {
  }

  lemma DigitRest(x: int, d: int, z: int)
    requires x >= 0 && d > 0 && (z == x / d || z == x / d + 1)
    ensures x - z * d == (if z == x / d then x % d else x % d - d)
  {
  }

  lemma NonnegValue(s: int, v: int)
    requires (s == 1 || s == -1) && v >= 0 && s * v >= 0
    ensures s * v == v
  {
  }

  /** T = z * Y, shifted left by e limbs. */
  method ShiftedMultiple(T: Mpi, Y: Mpi, z: Limb, e: nat)
    requires T != Y && Y.s == 1
    modifies T
    ensures T.s == 1 && |T.p| >= |old(T.p)| && T.Mag() == z * (Y.Mag() * Place(e))
  {
    hide Val, Place, Pow;
    PlaceIsPow2(e);
    MulInt(T, Y, z);
    ShiftL(T, BITS * e);
    MulRotate(Val(Y.p), z, Place(e));
  }

  method ShiftedCopy(T: Mpi, Y: Mpi, e: nat)
    requires T != Y && Y.s == 1 && |T.p| >= 1
    modifies T
    ensures T.s == 1 && |T.p| >= |old(T.p)| && T.Mag() == Y.Mag() * Place(e)
  {
    hide Val, Place, Pow;
    PlaceIsPow2(e);
    Copy(T, Y);
    ShiftL(T, BITS * e);
  }

  /** X -= q * Y * BASE^e, then one addition back if that was too much. */
  method SubtractDigit(X: Mpi, Y: Mpi, Z: Mpi, T1: Mpi, i: nat, t: nat)
    requires X !in {Y, Z, T1} && Y !in {Z, T1} && Z != T1
    requires t < i && i - t - 1 < |Z.p| && |T1.p| >= 1 && |Y.p| >= 1
    requires X.Valid() && X.Value() >= 0 && Y.s == 1 && Divisor(Y.p, i, t) > 0
    requires var q := Val(X.p) / Divisor(Y.p, i, t);
             (Z.p[i - t - 1] == q || Z.p[i - t - 1] == q + 1) && (Val(X.p) == 0 ==> Z.p[i - t - 1] == 0)
    modifies X, Z`p, T1
    ensures |X.p| >= |old(X.p)| && X.Valid() && X.Value() >= 0
    ensures |T1.p| >= |old(T1.p)|
    ensures |Z.p| == |old(Z.p)| && Z.p == old(Z.p)[i - t - 1 := Z.p[i - t - 1]]
    ensures Z.p[i - t - 1] == old(Val(X.p)) / Divisor(Y.p, i, t)
    ensures Val(X.p) == old(Val(X.p)) % Divisor(Y.p, i, t)
  {
    hide Val, Place, Sig, CarryLost;
    var e := i - t - 1;
    ghost var d := Divisor(Y.p, i, t);
    ghost var x, z := Val(X.p), Z.p[e];
    ShiftedMultiple(T1, Y, Z.p[e], e);
    NonnegValue(X.s, x);
    DigitRest(x, d, z);
    NoCarryFromZeros(X.s, X.p, T1.p, z, d);
    SubMpi(X, X, T1);
    var cmp := CmpInt(X, 0);
    if cmp < 0 {
      ShiftedCopy(T1, Y, e);
      AddMpi(X, X, T1);
      Z.p := Z.p[e := (Z.p[e] - 1) % BASE];
      DivModUnique(z - 1, BASE, 0, z - 1);
    }
    NonnegValue(X.s, Val(X.p));
  }

  lemma NoCarryFromZeros(s: int, x: seq<Limb>, b: seq<Limb>, z: int, d: int)
    requires s == 1 || s == -1
    requires s * Val(x) == Val(x) && Val(b) == z * d && (Val(x) == 0 ==> z == 0)
    ensures s == 1 || !CarryLost(x, b)
  {
  }

  lemma DivStep(a: int, y: int, z0: seq<Limb>, x0: int, e: nat, q: Limb, x1: int)
    requires y > 0 && x0 >= 0 && e < |z0| && z0[e] == 0
    requires y * Place(e) > 0 && a == Val(z0) * y + x0 && q == x0 / (y * Place(e)) && x1 == x0 % (y * Place(e))
    ensures a == Val(z0[e := q]) * y + x1
  {
    hide Val, Place;
    ValUpdate(z0, e, q);
    var v, w := Val(z0), Place(e);
    assert x0 == q * (y * w) + x1;
    assert (v + q * w) * y == v * y + q * (y * w);
  }

  method DivLoop(X: Mpi, Y: Mpi, Z: Mpi, T1: Mpi, T2: Mpi, n: nat, t: nat, ghost a: int)
    requires T1 !in {X, Y, Z} && T2 !in {X, Y, Z} && T1 != T2 && |T1.p| >= 2 && |T2.p| >= 3
    requires t <= n && DivInv(X, Y, Z, n, n, t, a)
    modifies X, Z`p, T1, T2
    ensures DivInv(X, Y, Z, n, t, t, a)
  {
    hide Val, Place, Sig, Divisor;
    var i := n;
    while i > t
      invariant t <= i <= n && |T1.p| >= 2 && |T2.p| >= 3
      invariant DivInv(X, Y, Z, n, i, t, a)
    {
      var e := i - t - 1;
      ghost var z0, x0 := Z.p, Val(X.p);
      RestFits(X.p, Y.p, i, t);
      DivisorPos(Y.p, i, t);
      DivisorNext(Y.p, i, t);
      TrialDigit(X, Y, Z, T1, T2, i, t);
      SubtractDigit(X, Y, Z, T1, i, t);
      DivisorIs(Y.p, i, t);
      DivStep(a, Val(Y.p), z0, x0, e, Z.p[e], Val(X.p));
      assert Z.p == z0[e := Z.p[e]];
      i := i - 1;
    }
  }

  lemma DivisorIs(y: seq<Limb>, i: nat, t: nat)
    requires t < i && Divisor(y, i, t) > 0
    ensures Divisor(y, i, t) == Val(y) * Place(i - t - 1) && Val(y) > 0
  {
  }

  /** Repeated subtraction of Y from X, counted in limb e of Z. */
  method SubtractRepeatedly(X: Mpi, Y: Mpi, Z: Mpi, e: nat)
    requires X !in {Y, Z} && Y != Z && X.s == 1 && Y.s == 1
    requires e < |Z.p| && Z.p[e] == 0 && Y.Mag() > 0 && X.Mag() < BASE * Y.Mag()
    modifies X, Z`p
    ensures X.s == 1 && |X.p| >= |old(X.p)| && X.Mag() == old(X.Mag()) % Y.Mag()
    ensures |Z.p| == |old(Z.p)| && Z.p == old(Z.p)[e := Z.p[e]] && Z.p[e] == old(X.Mag()) / Y.Mag()
  {
    hide Val, Sign, CarryLost, Taken;
    ghost var a, d := X.Mag(), Y.Mag();
    TakenNone(a, d);
    var cmp := CmpMpi(X, Y);
    SignFacts(X.Mag() - d);
    while cmp >= 0
      invariant X.s == 1 && |X.p| >= |old(X.p)|
      invariant cmp >= 0 <==> X.Mag() >= d
      invariant |Z.p| == |old(Z.p)| && Z.p == old(Z.p)[e := Z.p[e]]
      invariant Taken(a, d, Z.p[e], X.Mag())
      decreases X.Mag()
    {
      TakenNext(a, d, Z.p[e], X.Mag());
      Z.p := Z.p[e := (Z.p[e] + 1) % BASE];
      SubMpi(X, X, Y);
      cmp := CmpMpi(X, Y);
      SignFacts(X.Mag() - d);
    }
    TakenAll(a, d, Z.p[e], X.Mag());
  }

  /** x is left of a after c copies of d have been taken from it. */
  ghost predicate Taken(a: int, d: int, c: int, x: int) {
    a == c * d + x
  }

  lemma TakenNone(a: int, d: int)
    ensures Taken(a, d, 0, a)
  {
  }

  lemma TakenNext(a: int, d: int, c: Limb, x: int)
    requires Taken(a, d, c, x) && d > 0 && x >= d && a < BASE * d
    ensures (c + 1) % BASE == c + 1 && Taken(a, d, c + 1, x - d)
  {
    assert (c + 1) * d == c * d + d;
  }

  lemma TakenAll(a: int, d: int, c: int, x: int)
    requires Taken(a, d, c, x) && 0 <= x < d
    ensures c == a / d && x == a % d
  {
    DivModUnique(a, d, c, x);
  }

  /** The dividend is below BASE copies of the divisor moved to its top limb. */
  lemma LeadingBound(x: seq<Limb>, y: seq<Limb>, n: nat, t: nat)
    requires t <= n && |x| == n + 1 && Sig(y) == t + 1
    ensures Val(x) < BASE * (Val(y) * Place(n - t)) && Val(y) * Place(n - t) > 0 && Val(y) > 0
  {
    hide Val, Place, Sig;
    ValSig(y);
    PlaceAdd(t, n - t);
    PlaceNext(n);
    MulLe(Place(t), Val(y), Place(n - t));
  }

  /** The leading quotient digit, by repeated subtraction of the divisor shifted to the top. */
  method LeadingDigit(X: Mpi, Y: Mpi, Z: Mpi, n: nat, t: nat)
    requires X !in {Y, Z} && Y != Z && X.s == 1 && Y.s == 1
    requires t <= n && |X.p| == n + 1 && |Y.p| == t + 1 && Sig(Y.p) == t + 1
    requires |Z.p| > n - t && Z.p == Zeros(|Z.p|)
    modifies X, Y`p, Z`p
    ensures DivInv(X, Y, Z, n, n, t, old(Val(X.p))) && Val(Y.p) == old(Val(Y.p)) && |Z.p| == |old(Z.p)|
  {
    hide Val, Place, Sig, Pow, IsBitLen, ShiftedLen;
    ghost var a, y, w := Val(X.p), Val(Y.p), Place(n - t);
    ghost var len := |Z.p|;
    LeadingBound(X.p, Y.p, n, t);
    PlaceIsPow2(n - t);
    ShiftL(Y, BITS * (n - t));
    SubtractRepeatedly(X, Y, Z, n - t);
    ShiftR(Y, BITS * (n - t));
    DivModUnique(y * w, w, y, 0);
    LeadingDone(a, Y.p, old(Y.p), Z.p, n - t, Val(X.p));
  }

  lemma LeadingDone(a: int, y: seq<Limb>, y0: seq<Limb>, z: seq<Limb>, e: nat, x: int)
    requires Val(y) == Val(y0) && e < |z| && z == Zeros(|z|)[e := z[e]]
    requires Val(y0) * Place(e) > 0 && z[e] == a / (Val(y0) * Place(e)) && x == a % (Val(y0) * Place(e))
    ensures Sig(y) == Sig(y0) && Sig(y0) <= |y|
    ensures a == Val(z) * Val(y) + x
  {
    hide Val, Place, Sig;
    SigUnique(y, y0);
    OneDigit(z, e);
    LeadingArith(a, Val(y), Place(e), z[e], x);
  }

  lemma OneDigit(z: seq<Limb>, e: nat)
    requires e < |z| && z == Zeros(|z|)[e := z[e]]
    ensures Val(z) == z[e] * Place(e)
  {
    hide Val, Place;
    var o := Zeros(|z|);
    var q := z[e];
    ValZeros(|z|);
    ValUpdate(o, e, q);
    assert q - o[e] == q;
  }

  lemma LeadingArith(a: int, y: int, w: int, q: int, x: int)
    requires y * w > 0 && q == a / (y * w) && x == a % (y * w)
    ensures a == (q * w) * y + x
  {
  }

  // ----- normalisation

  /** A buffer without leading zeros stays one under a left shift, and grows by at most one limb for k < 32. */
  lemma TopReached(v: int, msb: nat, k: nat, m: nat)
    requires v > 0 && IsBitLen(v, msb) && BITS * m < msb + k
    ensures Place(m) <= v * Pow2(k)
  {
    hide Place, Pow;
    PlaceIsPow2(m);
    ValPositiveBits(v, msb);
    PowAdd(2, msb - 1, k);
    MulLe(Pow2(msb - 1), v, Pow2(k));
    PowMono(2, BITS * m, msb - 1 + k);
  }

  lemma BitsFit(p: seq<Limb>, msb: nat)
    requires IsBitLen(Val(p), msb) && Val(p) > 0
    ensures msb <= BITS * |p|
  {
    hide Val, Place, Pow;
    PlaceIsPow2(|p|);
    if msb > BITS * |p| {
      PowMono(2, BITS * |p|, msb - 1);
    }
  }

  lemma TopUsed(q: seq<Limb>)
    requires |q| >= 1 && Place(|q| - 1) <= Val(q)
    ensures Sig(q) == |q|
  {
    hide Val, Place, Sig;
    ValSig(q);
    if Sig(q) < |q| {
      PlaceMono(Sig(q), |q| - 1);
    }
  }

  lemma TightShift(p: seq<Limb>, q: seq<Limb>, msb: nat, k: nat)
    requires |p| == Sig(p) >= 1 && IsBitLen(Val(p), msb)
    requires Val(q) == Val(p) * Pow2(k) && |q| == ShiftedLen(|p|, msb + k)
    ensures Sig(q) == |q|
    ensures k < BITS ==> |q| <= |p| + 1
  {
    hide Val, Place, Sig, Pow, IsBitLen;
    ValSig(p);
    BitsFit(p, msb);
    var m := |q| - 1;
    assert Place(m) <= Val(q) by {
      if |q| == |p| {
        MulLe(1, Pow2(k), Val(p));
      } else {
        TopReached(Val(p), msb, k, m);
      }
    }
    TopUsed(q);
  }

  lemma ValPositiveBits(v: int, msb: nat)
    requires IsBitLen(v, msb) && v > 0
    ensures msb > 0
  {
  }

  method ShiftTight(X: Mpi, k: nat)
    requires |X.p| == Sig(X.p) >= 1
    modifies X`p
    ensures X.Mag() == old(X.Mag()) * Pow2(k)
    ensures |X.p| == Sig(X.p) && |X.p| >= 1 && (k < BITS ==> |X.p| <= |old(X.p)| + 1)
  {
    hide Val, Sig, Pow, IsBitLen;
    ghost var p := X.p;
    ShiftL(X, k);
    ghost var msb: nat :| IsBitLen(Val(p), msb) && |X.p| == ShiftedLen(|p|, msb + k);
    TightShift(p, X.p, msb, k);
  }

  /** Shifts both operands so that the top limb of the divisor has 31 bits. */
  method Normalise(X: Mpi, Y: Mpi) returns (k: nat)
    requires X != Y && |X.p| == Sig(X.p) >= 1 && |Y.p| == Sig(Y.p) >= 1
    modifies X`p, Y`p
    ensures exists bits :: IsBitLen(old(Y.Mag()), bits) && k == BITS - 1 - bits % BITS
    ensures X.Mag() == old(X.Mag()) * Pow2(k) && Y.Mag() == old(Y.Mag()) * Pow2(k)
    ensures 1 <= |X.p| == Sig(X.p) <= |old(X.p)| + 1
    ensures 1 <= |Y.p| == Sig(Y.p)
  {
    hide Val, Sig, Pow, IsBitLen;
    PowZero();
    var msb := Msb(Y);
    k := msb % BITS;
    if k < BITS - 1 {
      k := BITS - 1 - k;
      ShiftTight(X, k);
      ShiftTight(Y, k);
    } else {
      k := 0;
    }
  }

  lemma CopyTight(p: seq<Limb>)
    requires Val(p) > 0
    ensures |Fit(p, 0)| == Sig(Fit(p, 0)) >= 1 && Sig(p) <= |p|
  {
  }

  lemma ScaledDivision(a: int, b: int, k: int, z: int, x: int)
    requires b > 0 && k > 0 && a >= 0 && x >= 0
    requires a * k == z * (b * k) + x && x < b * k
    ensures z == a / b && x == (a % b) * k && x / k == a % b
  {
    var q, r := a / b, a % b;
    assert a * k == q * (b * k) + r * k by {
      assert a == q * b + r;
      assert (q * b) * k == q * (b * k);
    }
    MulLt(r, b, k);
    MulLe(0, r, k);
    assert b * k > 0 by {
      MulLe(1, b, k);
    }
    DivModUnique(a * k, b * k, q, r * k);
    DivModUnique(a * k, b * k, z, x);
    DivModUnique(r * k, k, r, 0);
  }

  /** Working copies of the operands, normalised, and an empty quotient large enough for the digits. */
  method DivSetup(A: Mpi, B: Mpi) returns (X: Mpi, Y: Mpi, Z: Mpi, k: nat)
    requires A.Mag() >= B.Mag() > 0
    ensures fresh({X, Y, Z}) && X !in {Y, Z} && Y != Z && X.s == 1 && Y.s == 1 && Z.s == 1
    ensures X.Mag() == A.Mag() * Pow2(k) && Y.Mag() == B.Mag() * Pow2(k)
    ensures 1 <= |Y.p| <= |X.p| && Sig(Y.p) == |Y.p|
    ensures |Z.p| > |X.p| - |Y.p| && Z.p == Zeros(|Z.p|)
  {
    hide Val, Sig, Pow, Fit, CopyLen;
    X := new Mpi();
    Y := new Mpi();
    Z := new Mpi();
    CopyTight(A.p);
    CopyTight(B.p);
    Copy(X, A);
    Copy(Y, B);
    X.s := 1;
    Y.s := 1;
    Grow(Z, |A.p| + 2);
    Lset(Z, 0);
    assert Z.p == Zeros(|Z.p|);
    k := Normalise(X, Y);
    MulLe(B.Mag(), A.Mag(), Pow2(k));
    SigMono(Y.p, X.p);
  }

  /** The division of magnitudes: quotient limbs in Z, the remainder shifted by k in X. */
  method DivCore(A: Mpi, B: Mpi) returns (X: Mpi, Z: Mpi, k: nat)
    requires A.Mag() >= B.Mag() > 0
    ensures fresh({X, Z}) && X != Z && X.Valid() && X.Value() >= 0 && |X.p| >= 1
    ensures Z.s == 1 && Z.Mag() == A.Mag() / B.Mag()
    ensures X.Mag() / Pow2(k) == A.Mag() % B.Mag()
  {
    hide Val, Sig, Pow, Place;
    var Y;
    X, Y, Z, k := DivSetup(A, B);
    var T1 := new Mpi();
    Grow(T1, 2);
    var T2 := new Mpi();
    Grow(T2, 3);
    var n, t := |X.p| - 1, |Y.p| - 1;
    LeadingDigit(X, Y, Z, n, t);
    DivLoop(X, Y, Z, T1, T2, n, t, A.Mag() * Pow2(k));
    PlaceOne();
    ScaledDivision(A.Mag(), B.Mag(), Pow2(k), Val(Z.p), Val(X.p));
  }

  lemma PlaceOne()
    ensures Place(0) == 1
  {
  }

  // ----- the public routines

  /** The sign `mpi_div_mpi` gives the quotient: an operand that the quotient is stored over has lost its own. */
  function QuotientSign(overA: bool, overB: bool, sa: int, sb: int): int {
    (if overA then 1 else sa) * if overB then 1 else sb
  }

  /** The sign `mpi_div_mpi` gives a remainder: that of the dividend, which is lost when R or Q is stored over it. */
  function RemainderSign(remOverA: bool, overA: bool, overB: bool, sa: int, sb: int, a: int, b: int): int {
    if a < b then sa else if remOverA then 1 else if overA then QuotientSign(overA, overB, sa, sb) else sa
  }

  /** A dividend that is smaller than the divisor: the quotient is 0, and the remainder what is then in A. */
  method SmallDividend(Q: Mpi?, R: Mpi?, A: Mpi)
    requires A.Valid()
    modifies Q, R
    ensures Q != null && Q != R ==> Q.Valid() && Q.Mag() == 0
    ensures R != null ==>
              && R.Valid() && |R.p| >= |old(R.p)| && R.Mag() == (if Q == A then 0 else old(A.Mag()))
              && R.s == if Q == A then 1 else old(A.s)
  {
    hide Val, Fit;
    if Q != null {
      Lset(Q, 0);
    }
    if R != null {
      Copy(R, A);
    }
  }

  /** The division proper, with the results stored over whatever they are stored over. */
  method LargeDividend(Q: Mpi?, R: Mpi?, A: Mpi, B: Mpi)
    requires A.Valid() && B.Valid() && A.Mag() >= B.Mag() > 0
    modifies Q, R
    ensures Q != null && Q != R ==>
              Q.Valid() && Q.s == QuotientSign(Q == A, Q == B, old(A.s), old(B.s)) && Q.Mag() == old(A.Mag()) / old(B.Mag())
    ensures R != null ==>
              && R.Valid() && |R.p| >= |old(R.p)| && |R.p| >= 1 && R.Mag() == old(A.Mag()) % old(B.Mag())
              && R.s == (if R.Mag() == 0 then 1
                         else RemainderSign(R == A, Q == A, Q == B, old(A.s), old(B.s), old(A.Mag()), old(B.Mag())))
  {
    hide Val, Sig, Pow, Sign, Fit;
    SignProduct(A.s, B.s);
    var X, Z, k := DivCore(A, B);
    if Q != null {
      Copy(Q, Z);
      Q.s := A.s * B.s;
    }
    if R != null {
      NonnegValue(X.s, X.Mag());
      ZeroShifted(X.Mag(), Pow2(k));
      ShiftR(X, k);
      CopyLimbs(X.p);
      Copy(R, X);
      R.s := A.s;
      var c := CmpInt(R, 0);
      SignZero(R.s, Val(R.p));
      if c == 0 {
        R.s := 1;
      }
    }
  }

  lemma CopyLimbs(p: seq<Limb>)
    ensures |p| >= 1 ==> forall n: nat :: |Fit(p, n)| >= 1
  {
  }

  /**
   * Q and R, which are optional, under every aliasing: their magnitudes and signs, and A = Q * B + R with |R| < |B| exactly
   * if no result cost an operand its sign or value.
   */
  method DivMpi(Q: Mpi?, R: Mpi?, A: Mpi, B: Mpi) returns (ret: int)
    requires A.Valid() && B.Valid()
    modifies Q, R
    ensures ret == if old(B.Mag()) == 0 then ERR_DIVISION_BY_ZERO else 0
    ensures ret == 0 && Q != null && Q != R ==>
              Q.Valid() && Q.Value() == QuotientSign(Q == A, Q == B, old(A.s), old(B.s)) * (old(A.Mag()) / old(B.Mag()))
    ensures ret == 0 && R != null ==>
              && R.Valid() && |R.p| >= |old(R.p)| && (old(A.Mag() >= B.Mag()) ==> |R.p| >= 1)
              && R.Mag() == (if Q == A && old(A.Mag() < B.Mag()) then 0 else old(A.Mag()) % old(B.Mag()))
              && R.s == (if R.Mag() == 0 && (Q == A || old(A.Mag() >= B.Mag())) then 1
                         else RemainderSign(R == A, Q == A, Q == B, old(A.s), old(B.s), old(A.Mag()), old(B.Mag())))
    ensures ret == 0 && Q != null && R != null && Q != R ==>
              && R.Mag() < old(B.Mag())
              && (old(A.Value()) == Q.Value() * old(B.Value()) + R.Value() <==>
                  !DivisionFails(R == A, Q == A, Q == B, old(A.s), old(A.Mag()), old(B.s), old(B.Mag())))
  {
    hide Val, Sign, QuotientSign, RemainderSign, DivisionFails;
    ghost var sa, a, sb, b := A.s, A.Mag(), B.s, B.Mag();
    var zero := CmpInt(B, 0);
    SignZero(B.s, B.Mag());
    if zero == 0 {
      return ERR_DIVISION_BY_ZERO;
    }
    var cmp := CmpAbs(A, B);
    SignFacts(A.Mag() - B.Mag());
    if cmp < 0 {
      SmallSigns(R == A, Q == A, Q == B, sa, sb, a, b);
      SmallDividend(Q, R, A);
    } else {
      LargeDividend(Q, R, A, B);
    }
    if Q != null && R != null && Q != R {
      DivisionMeets(R == A, Q == A, Q == B, sa, a, sb, b, Q.Value(), R.s, R.Mag());
    }
    return 0;
  }

  lemma SmallSigns(remOverA: bool, overA: bool, overB: bool, sa: int, sb: int, a: int, b: int)
    requires 0 <= a < b
    ensures a / b == 0 && a % b == a && RemainderSign(remOverA, overA, overB, sa, sb, a, b) == sa
    ensures QuotientSign(overA, overB, sa, sb) * (a / b) == 0
  {
    DivModUnique(a, b, 0, a);
  }

  /** The identity for a remainder that is given by sign and magnitude. */
  lemma DivisionMeets(remOverA: bool, overA: bool, overB: bool, sa: int, a: int, sb: int, b: int, q: int, rs: int, rm: int)
    requires (sa == 1 || sa == -1) && (sb == 1 || sb == -1) && a >= 0 && b > 0
    requires !(overA && remOverA) && (overA && overB ==> sa == sb && a == b)
    requires q == QuotientSign(overA, overB, sa, sb) * (a / b)
    requires rm == if overA && a < b then 0 else a % b
    requires rs == if rm == 0 && (overA || a >= b) then 1 else RemainderSign(remOverA, overA, overB, sa, sb, a, b)
    ensures sa * a == q * (sb * b) + rs * rm <==> !DivisionFails(remOverA, overA, overB, sa, a, sb, b)
    ensures 0 <= rm < b
  {
    hide QuotientSign, RemainderSign, DivisionFails;
    DivisionIdentity(remOverA, overA, overB, sa, a, sb, b);
    var r := RemainderSign(remOverA, overA, overB, sa, sb, a, b);
    assert rm == 0 ==> rs * rm == 0 && r * rm == 0;
  }

  lemma SignZero(s: int, v: int)
    requires s == 1 || s == -1
    ensures Sign(s * v) == 0 <==> v == 0
  {
  }

  lemma ZeroShifted(v: int, k: int)
    requires k > 0
    ensures v == 0 ==> v / k == 0
  {
  }

  /** When quotient and remainder do not give back the dividend: a result stored over an operand cost it its sign or value. */
  predicate DivisionFails(remOverA: bool, overA: bool, overB: bool, sa: int, a: int, sb: int, b: int)
    requires b > 0
  {
    if a < b then overA && a != 0
    else
      || (overA && !overB && (sa == -1 || (sb == -1 && a % b != 0)))
      || (overB && !overA && sb == -1)
      || (remOverA && sa == -1 && a % b != 0)
  }

  /** The division identity for the results of `mpi_div_mpi`, and its exact exceptions. */
  lemma DivisionIdentity(remOverA: bool, overA: bool, overB: bool, sa: int, a: int, sb: int, b: int)
    requires (sa == 1 || sa == -1) && (sb == 1 || sb == -1) && a >= 0 && b > 0
    requires !(overA && remOverA) && (overA && overB ==> sa == sb && a == b)
    ensures var q := QuotientSign(overA, overB, sa, sb) * (a / b);
            var r := if overA && a < b then 0 else RemainderSign(remOverA, overA, overB, sa, sb, a, b) * (a % b);
            sa * a == q * (sb * b) + r <==> !DivisionFails(remOverA, overA, overB, sa, a, sb, b)
    ensures 0 <= a % b < b
  {
    var t := (a / b) * b;
    QuotientBound(a, b);
    assert overA && overB ==> a % b == 0;
    SignedProduct(QuotientSign(overA, overB, sa, sb), a / b, sb, b);
  }

  lemma QuotientBound(a: int, b: int)
    requires a >= 0 && b > 0
    ensures a == (a / b) * b + a % b && 0 <= a % b < b
    ensures if a < b then a / b == 0 && (a / b) * b == 0 else (a / b) * b >= b
  {
  }

  lemma SignedProduct(s: int, q: int, t: int, b: int)
    requires (s == 1 || s == -1) && (t == 1 || t == -1)
    ensures (s * q) * (t * b) == s * t * (q * b)
  {
  }

  method FromLimb(s: int, x: Limb) returns (X: Mpi)
    requires s == 1 || s == -1
    ensures fresh(X) && X.Valid() && X.s == s && X.p == [x] && X.Mag() == x
  {
    X := new Mpi();
    X.s, X.p := s, [x];
    SmallValues(x, 0);
  }

  /** -7 divided by 5 in place leaves 2, not -2. */
  method RemainderExample() returns (R: Mpi)
    ensures R.Value() == 2
  {
    R := FromLimb(-1, 7);
    var B := FromLimb(1, 5);
    var ret := DivMpi(null, R, R, B);
  }

  /** -7 modulo 5 in place is 2, not 3. */
  method ModExample() returns (R: Mpi)
    ensures R.Value() == 2 && -7 % 5 == 3
  {
    R := FromLimb(-1, 7);
    var B := FromLimb(1, 5);
    var ret := ModMpi(R, R, B);
  }

  /** A negative zero modulo 5 is -5. */
  method ModZeroExample() returns (R: Mpi)
    ensures R.Value() == -5
  {
    var A := FromLimb(-1, 0);
    var B := FromLimb(1, 5);
    R := FromLimb(1, 0);
    var ret := ModMpi(R, A, B);
  }

  /** A zero with a minus sign, which the signed subtraction can leave behind. */
  predicate NegativeZero(s: int, v: int) {
    s == -1 && v == 0
  }

  lemma NoCarryIntoZero(x: seq<Limb>, b: seq<Limb>)
    requires Val(x) == 0
    ensures !CarryLost(x, b)
  {
    ValSig(x);
  }

  /** A reduced number against the modulus: below it, unless it is a negative zero. */
  method CmpReduced(R: Mpi, B: Mpi, ghost neg0: bool) returns (cmp: int)
    requires R.Valid() && B.s == 1 && R.Mag() < B.Mag()
    requires if neg0 then NegativeZero(R.s, R.Mag()) else R.s == 1
    ensures cmp >= 0 <==> neg0
  {
    hide Val, Sig;
    ValSig(R.p);
    ValSig(B.p);
    cmp := CmpMpi(R, B);
  }

  /** -B against B. */
  method CmpOpposite(R: Mpi, B: Mpi) returns (cmp: int)
    requires R.s == -1 && B.s == 1 && R.Mag() == B.Mag() > 0
    ensures cmp < 0
  {
    hide Val, Sig;
    SigUnique(R.p, B.p);
    cmp := CmpMpi(R, B);
  }

  /** The two correction loops after the division. */
  method Reduce(R: Mpi, B: Mpi)
    requires R != B && R.Valid() && B.s == 1 && R.Mag() < B.Mag()
    modifies R
    ensures R.Valid() && |R.p| >= |old(R.p)|
    ensures R.Value() == if old(NegativeZero(R.s, R.Mag())) then -B.Mag()
                         else if old(R.Value()) < 0 then old(R.Value()) + B.Mag() else old(R.Value())
    ensures !old(NegativeZero(R.s, R.Mag())) ==> R.s == 1
  {
    hide Val, Sig, Sign, CarryLost;
    ghost var neg0, r, s := NegativeZero(R.s, R.Mag()), R.Value(), R.s;
    var cmp := CmpInt(R, 0);
    SignFacts(R.Value());
    while cmp < 0
      invariant R.Valid() && |R.p| >= |old(R.p)| && (cmp < 0 <==> R.Value() < 0)
      invariant if r < 0 && R.s == 1 then R.Value() == r + B.Mag() else R.Value() == r && R.s == s
      decreases if cmp < 0 then 1 else 0
    {
      AddMpi(R, R, B);
      cmp := CmpInt(R, 0);
      SignFacts(R.Value());
    }
    cmp := CmpReduced(R, B, neg0);
    while cmp >= 0
      invariant |R.p| >= |old(R.p)|
      invariant if cmp >= 0 then neg0 && NegativeZero(R.s, R.Mag())
                else if neg0 then R.s == -1 && R.Mag() == B.Mag()
                else R.s == 1 && R.Value() == (if r < 0 then r + B.Mag() else r)
      decreases if cmp >= 0 then 1 else 0
    {
      NoCarryIntoZero(R.p, B.p);
      SubMpi(R, R, B);
      cmp := CmpOpposite(R, B);
    }
  }

  lemma SignedMod(s: int, a: int, b: int)
    requires (s == 1 || s == -1) && a >= 0 && b > 0
    ensures (s * a) % b == if s * (a % b) < 0 then s * (a % b) + b else s * (a % b)
  {
    var q, r := a / b, a % b;
    assert a == q * b + r;
    if s == 1 || r == 0 {
      assert s * a == (s * q) * b + r;
      DivModUnique(s * a, b, s * q, r);
    } else {
      assert s * a == (-q - 1) * b + (b - r);
      DivModUnique(s * a, b, -q - 1, b - r);
    }
  }

  /** A number and its opposite have the same residue exactly if twice the number has residue 0. */
  lemma ModOpposite(a: int, b: int)
    requires b > 0
    ensures a % b == (-a) % b <==> 2 * a % b == 0
  {
    var q, r := a / b, a % b;
    assert 2 * a == (2 * q) * b + 2 * r;
    if r == 0 {
      DivModUnique(-a, b, -q, 0);
      DivModUnique(2 * a, b, 2 * q, 0);
    } else {
      assert -a == (-q - 1) * b + (b - r);
      DivModUnique(-a, b, -q - 1, b - r);
      if 2 * r < b {
        DivModUnique(2 * a, b, 2 * q, 2 * r);
      } else {
        assert 2 * a == (2 * q + 1) * b + (2 * r - b);
        DivModUnique(2 * a, b, 2 * q + 1, 2 * r - b);
      }
    }
  }

  /**
   * R = A mod B for positive B. The dividend loses its sign when R is A and |A| >= B, and a negative
   * zero comes out as -B: the signed comparison answers wrongly for it.
   */
  method ModMpi(R: Mpi, A: Mpi, B: Mpi) returns (ret: int)
    requires A.Valid() && B.s == 1 && R != B
    modifies R
    ensures ret == if B.Mag() == 0 then ERR_DIVISION_BY_ZERO else 0
    ensures ret == 0 ==> R.Valid() && |R.p| >= |old(R.p)| && (old(A.Mag()) >= B.Mag() ==> |R.p| >= 1)
    ensures ret == 0 ==>
              R.Value() == if old(NegativeZero(A.s, A.Mag())) then -B.Mag()
                           else old(if R == A && A.Mag() >= B.Mag() then A.Mag() else A.Value()) % B.Mag()
    ensures ret == 0 ==>
              (R.Value() == old(A.Value()) % B.Mag() <==>
               !old(NegativeZero(A.s, A.Mag())) &&
               !old(R == A && A.s == -1 && A.Mag() >= B.Mag() && 2 * A.Mag() % B.Mag() != 0))
    ensures ret == 0 && !old(NegativeZero(A.s, A.Mag())) ==> R.s == 1
  {
    hide Val;
    ghost var s, a, b := A.s, A.Mag(), B.Mag();
    ret := DivMpi(null, R, A, B);
    if ret != 0 {
      return;
    }
    SignedMod(RemainderSign(R == A, false, false, s, 1, a, b), a, b);
    ModOpposite(a, b);
    if a < b {
      DivModUnique(a, b, 0, a);
    }
    Reduce(R, B);
  }
}
