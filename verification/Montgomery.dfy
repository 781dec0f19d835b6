/** Montgomery arithmetic: the limb inverse and the product A*B*R^-1 mod N (HAC 14.36). */
module Montgomery {
  import opened Arith
  import opened Limbs
  import opened Bignum

  // ----- the inverse of the low limb

  function Wrap(x: int): Limb {
    x % BASE
  }

  /** x * (2 - m0 * x), wrapping. */
  function Newton(m0: Limb, x: Limb): Limb {
    Wrap(x * Wrap(2 - Wrap(m0 * x)))
  }

  lemma WrapCong(x: int, k: int)
    requires k > 0 && BASE % k == 0
    ensures Cong(Wrap(x), x, k)
  {
    var q, j := x / BASE, BASE / k;
    assert BASE == j * k;
    assert x - x % BASE == q * BASE;
    assert q * (j * k) == (q * j) * k;
    CongIntro(x % BASE, x, k, -(q * j));
  }

  lemma NewtonCong(m0: Limb, x: Limb, k: int)
    requires k > 0 && BASE % k == 0
    ensures Cong(m0 * Newton(m0, x), m0 * (x * (2 - m0 * x)), k)
  {
    hide Cong, Wrap;
    var p: int := m0 * x;
    var u: int := Wrap(p);
    WrapCong(p, k);
    CongNeg(u, p, k);
    CongRefl(2, k);
    CongAdd(2, 2, -u, -p, k);
    var v: int := Wrap(2 - u);
    WrapCong(2 - u, k);
    CongTrans(v, 2 - u, 2 - p, k);
    CongRefl(x, k);
    CongMul(x, x, v, 2 - p, k);
    WrapCong(x * v, k);
    CongTrans(Wrap(x * v), x * v, x * (2 - p), k);
    CongRefl(m0, k);
    CongMul(m0, m0, Wrap(x * v), x * (2 - p), k);
  }

  /** Each step doubles the number of correct low bits. */
  lemma NewtonStep(m0: Limb, x: Limb, k: int)
    requires k > 0 && k * k <= BASE && BASE % (k * k) == 0
    requires Cong(m0 * x, 1, k)
    ensures Cong(m0 * Newton(m0, x), 1, k * k)
  {
    hide Cong, Newton;
    var kk := k * k;
    var e := CongElim(m0 * x, 1, k);
    NewtonCong(m0, x, kk);
    NewtonArith(m0, x, e, k);
    CongIntro(m0 * (x * (2 - m0 * x)), 1, kk, -(e * e));
    CongTrans(m0 * Newton(m0, x), m0 * (x * (2 - m0 * x)), 1, kk);
  }

  lemma NewtonArith(m: int, x: int, e: int, k: int)
    requires m * x - 1 == e * k
    ensures m * (x * (2 - m * x)) - 1 == -(e * e) * (k * k)
  {
  }

  /** (m0 + 2) & 4, moved up one bit. */
  function SeedBit(m0: int): int {
    if ((m0 + 2) / 4) % 2 == 1 then 8 else 0
  }

  lemma SeedTable(r: int)
    requires 0 <= r < 16 && r % 2 == 1
    ensures Cong(r * (r + SeedBit(r)), 1, 16)
  {
    if r == 1 {
      assert SeedBit(1) == 0;
    } else if r == 3 {
      assert SeedBit(3) == 8;
    } else if r == 5 {
      assert SeedBit(5) == 8;
    } else if r == 7 {
      assert SeedBit(7) == 0;
    } else if r == 9 {
      assert SeedBit(9) == 0;
    } else if r == 11 {
      assert SeedBit(11) == 8;
    } else if r == 13 {
      assert SeedBit(13) == 8;
    } else {
      assert r == 15 && SeedBit(15) == 0;
    }
  }

  lemma SeedBitLow(q: int, r: int)
    ensures SeedBit(16 * q + r) == SeedBit(r)
  {
    var s := (r + 2) / 4;
    DivModUnique(16 * q + r + 2, 4, 4 * q + s, (r + 2) % 4);
    DivModUnique(4 * q + s, 2, 2 * q + s / 2, s % 2);
  }

  lemma OddLow(x: int)
    requires x % 2 == 1
    ensures x == 16 * (x / 16) + x % 16 && 0 <= x % 16 < 16 && (x % 16) % 2 == 1
  {
    var k := x / 2 - 8 * (x / 16);
    assert x == 16 * (x / 16) + x % 16;
    assert x % 16 == 2 * k + 1;
    OddForm(k);
  }

  lemma OddForm(k: int)
    ensures (2 * k + 1) % 2 == 1
  {
  }

  lemma SeedCombine(m0: int, r: int, b: int, w: int)
    requires Cong(m0, r, 16) && Cong(w, m0 + b, 16) && Cong(r * (r + b), 1, 16)
    ensures Cong(m0 * w, 1, 16)
  {
    hide Cong;
    CongRefl(b, 16);
    CongAdd(m0, r, b, b, 16);
    CongTrans(w, m0 + b, r + b, 16);
    CongMul(m0, r, w, r + b, 16);
    CongTrans(m0 * w, r * (r + b), 1, 16);
  }

  /** The starting value is right in its four low bits. */
  lemma SeedCorrect(m0: Limb)
    requires m0 % 2 == 1
    ensures Cong(m0 * Wrap(m0 + SeedBit(m0)), 1, 16)
  {
    hide Cong, Wrap, SeedBit;
    var x: int := m0;
    var r, q := x % 16, x / 16;
    OddLow(x);
    SeedBitLow(q, r);
    SeedTable(r);
    CongMod(x, 16);
    WrapCong(x + SeedBit(x), 16);
    SeedCombine(x, r, SeedBit(x), Wrap(x + SeedBit(x)));
  }

  /** mm with N[0] * mm = -1 modulo the limb base, for every odd N[0] (32-bit limbs: three doublings). */
  function MontgInit(m0: Limb): (mm: Limb)
    requires m0 % 2 == 1
    ensures Cong(m0 * mm, -1, BASE)
  {
    var x0 := Wrap(m0 + SeedBit(m0));
    var x1 := Newton(m0, x0);
    var x2 := Newton(m0, x1);
    var x3 := Newton(m0, x2);
    SeedCorrect(m0);
    NewtonStep(m0, x0, 16);
    NewtonStep(m0, x1, 256);
    NewtonStep(m0, x2, 65536);
    NegCorrect(m0, x3);
    Wrap((BASE - 1 - x3) + 1)
  }

  lemma NegCorrect(m0: int, x: Limb)
    requires Cong(m0 * x, 1, BASE)
    ensures Cong(m0 * Wrap((BASE - 1 - x) + 1), -1, BASE)
  {
    hide Cong;
    var z: int := x;
    var y := (BASE - 1 - z) + 1;
    WrapCong(y, BASE);
    CongIntro(y, -z, BASE, 1);
    CongTrans(Wrap(y), y, -z, BASE);
    CongRefl(m0, BASE);
    CongMul(m0, m0, Wrap(y), -z, BASE);
    CongNeg(m0 * z, 1, BASE);
    assert m0 * (-z) == -(m0 * z);
    CongTrans(m0 * Wrap(y), -(m0 * z), -1, BASE);
  }

  // ----- the product

  lemma LowLimb(p: seq<Limb>)
    requires |p| >= 1
    ensures Cong(Val(p), p[0], BASE)
  {
    hide Val;
    assert p == [p[0]] + p[1..];
    ValCons(p[0], p[1..]);
    CongIntro(Val(p), p[0], BASE, Val(p[1..]));
  }

  /** (d0 + u0 * b0) * mm, wrapping. */
  function MontDigit(d0: Limb, u0: Limb, b0: Limb, mm: Limb): Limb {
    var w: int := Wrap(d0 + u0 * b0);
    Wrap(w * mm)
  }

  /** With u1 chosen from the low limbs, the low limb of the accumulator becomes zero. */
  lemma LowLimbClears(d: int, d0: Limb, b: int, b0: Limb, n: int, n0: Limb, u0: Limb, mm: Limb)
    requires Cong(d, d0, BASE) && Cong(b, b0, BASE) && Cong(n, n0, BASE) && Cong(n0 * mm, -1, BASE)
    ensures Cong(d + b * u0 + n * MontDigit(d0, u0, b0, mm), 0, BASE)
  {
    hide Cong, Wrap;
    var s: int := d0 + u0 * b0;
    var w: int := Wrap(s);
    var u1: int := Wrap(w * mm);
    CongRefl(u0, BASE);
    CongMul(b, b0, u0, u0, BASE);
    CongAdd(d, d0, b * u0, b0 * u0, BASE);
    assert b0 * u0 == u0 * b0;
    // n * u1 = n0 * (s * mm) = -s
    WrapCong(s, BASE);
    CongRefl(mm, BASE);
    CongMul(w, s, mm, mm, BASE);
    WrapCong(w * mm, BASE);
    CongTrans(u1, w * mm, s * mm, BASE);
    CongMul(n, n0, u1, s * mm, BASE);
    assert n0 * (s * mm) == s * (n0 * mm);
    CongRefl(s, BASE);
    CongMul(s, s, n0 * mm, -1, BASE);
    CongTrans(n * u1, s * (n0 * mm), s * (-1), BASE);
    CongAdd(d + b * u0, s, n * u1, -s, BASE);
  }

  /**
   * After i limbs of `a`: the rest of the buffer, times BASE^i, is a[..i]*b plus a multiple of n
   * with factor u below BASE^i.
   */
  ghost predicate MontInv(t: seq<Limb>, a: seq<Limb>, b: int, n: int, i: int, u: int) {
    && 0 <= i <= |t| && i <= |a|
    && 0 <= u < Place(i)
    && Val(t[i..]) * Place(i) == Val(a[..i]) * b + u * n
  }

  /** The accumulator stays below b + n, hence below 2n. */
  lemma MontBound(t: seq<Limb>, a: seq<Limb>, b: int, n: int, i: int, u: int)
    requires MontInv(t, a, b, n, i, u) && 0 <= b <= n && n > 0
    ensures Val(t[i..]) < b + n
  {
    hide Val, Place;
    var w := Place(i);
    MulLe(Val(a[..i]), w, b);
    MulLt(u, w, n);
    var d := Val(t[i..]);
    assert (b + n) * w == w * b + w * n;
    if d >= b + n {
      MulLe(b + n, d, w);
    }
  }

  lemma MontArith(d: int, w: int, A: int, b: int, u: int, n: int, u0: int, u1: int, e: int)
    requires d * w == A * b + u * n && e * BASE == d + b * u0 + n * u1
    ensures e * (BASE * w) == (A + u0 * w) * b + (u + u1 * w) * n
  {
  }

  lemma UBound(u: int, u1: Limb, w: int)
    requires 0 <= u < w
    ensures 0 <= u + u1 * w < BASE * w
  {
  }

  /** One limb: after adding u0*b and u1*n the window slides up by one. */
  lemma MontStep(t: seq<Limb>, t': seq<Limb>, a: seq<Limb>, b: int, n: int, i: int, u: int, u1: Limb)
    requires MontInv(t, a, b, n, i, u) && i < |a| && i < |t| == |t'|
    requires Val(t'[i..]) == Val(t[i..]) + b * a[i] + n * u1 && Cong(Val(t'[i..]), 0, BASE)
    ensures t'[i] == 0 && MontInv(t', a, b, n, i + 1, u + u1 * Place(i))
  {
    hide Val;
    var p := t'[i..];
    LowLimb(p);
    CongSym(Val(p), p[0], BASE);
    CongTrans(p[0], Val(p), 0, BASE);
    CongReduced(p[0], 0, BASE);
    assert p == [0] + t'[i + 1..];
    ValCons(0, t'[i + 1..]);
    ValTake(a, i);
    MontArith(Val(t[i..]), Place(i), Val(a[..i]), b, u, n, a[i], u1, Val(t'[i + 1..]));
    UBound(u, u1, Place(i));
  }

  /** Room for one round: two products are added to an accumulator below 2n. */
  lemma RoundRoom(d: int, b: int, n: int, k: nat, len: nat, u0: Limb, u1: Limb)
    requires 0 <= d < b + n && 0 <= b <= n < Place(k) && len >= k + 2
    ensures d + b * u0 < Place(len) && d + b * u0 + n * u1 < Place(len)
  {
    hide Place;
    var w := Place(k);
    MulLe(u0, BASE - 1, b);
    MulLe(u1, BASE - 1, n);
    MulLe(0, u1, n);
    PlaceNext(k);
    PlaceNext(k + 1);
    PlaceMono(k + 2, len);
  }

  /** T += (u0*B + u1*N) at limb i. */
  method MontRound(T: Mpi, bp: seq<Limb>, m: nat, np: seq<Limb>, i: nat, u0: Limb, u1: Limb)
    requires m <= |bp| && Val(bp[..m]) == Val(bp) <= Val(np) && m <= |np|
    requires i + |np| + 2 < |T.p| && Val(T.p[i..]) < Val(bp) + Val(np)
    modifies T`p
    ensures |T.p| == |old(T.p)|
    ensures Val(T.p[i..]) == old(Val(T.p[i..])) + Val(bp) * u0 + Val(np) * u1
  {
    hide Val, Place;
    RoundRoom(Val(T.p[i..]), Val(bp), Val(np), |np|, |T.p| - i, u0, u1);
    MulHlp(m, bp, T, i, u0);
    assert np[..|np|] == np;
    MulHlp(|np|, np, T, i, u1);
  }

  lemma MontStart(t: seq<Limb>, a: seq<Limb>, b: int, n: int)
    requires t == Zeros(|t|)
    ensures MontInv(t, a, b, n, 0, 0)
  {
    ValZeros(|t|);
    assert t[0..] == t && a[..0] == [];
  }

  /** Overwriting limbs that no longer count: the cleared low limb, and a zero far above. */
  lemma MontOverwrite(t: seq<Limb>, a: seq<Limb>, b: int, n: int, i: int, u: int, x: Limb, k: nat)
    requires 0 < i && MontInv(t, a, b, n, i, u) && 0 <= b <= n < Place(k) && n > 0 && i + k + 1 < |t|
    ensures MontInv(t[i - 1 := x][i + k + 1 := 0], a, b, n, i, u)
  {
    hide Val, Place;
    MontBound(t, a, b, n, i, u);
    PlaceNext(k);
    SigBelow(t[i..], k + 1);
    assert t[i..][k + 1] == 0;
    assert t[i - 1 := x][i + k + 1 := 0][i..] == t[i..];
  }

  /** The limb loop, from a cleared buffer. */
  method MontLoop(T: Mpi, ap: seq<Limb>, bp: seq<Limb>, np: seq<Limb>, mm: Limb) returns (ghost u: int)
    requires |np| >= 1 && |bp| >= 1 && |ap| >= |np| && |T.p| >= 2 * |np| + 2
    requires Cong(np[0] * mm, -1, BASE) && Val(bp) <= Val(np) && Val(np) > 0
    requires T.p == Zeros(|T.p|)
    modifies T`p
    ensures |T.p| == |old(T.p)|
    ensures MontInv(T.p, ap, Val(bp), Val(np), |np|, u)
  {
    hide Val, Place, MontInv, Cong, MontDigit;
    var n := |np|;
    var m := if |bp| < n then |bp| else n;
    ShortOperand(bp, np, m);
    u := 0;
    MontStart(T.p, ap, Val(bp), Val(np));
    var i := 0;
    while i < n
      invariant 0 <= i <= n && |T.p| == |old(T.p)|
      invariant MontInv(T.p, ap, Val(bp), Val(np), i, u)
    {
      var u0 := ap[i];
      var u1 := MontDigit(T.p[i], u0, bp[0], mm);
      ghost var t := T.p;
      MontBound(t, ap, Val(bp), Val(np), i, u);
      LowLimb(t[i..]);
      LowLimb(bp);
      LowLimb(np);
      LowLimbClears(Val(t[i..]), t[i], Val(bp), bp[0], Val(np), np[0], u0, mm);
      MontRound(T, bp, m, np, i, u0, u1);
      MontStep(t, T.p, ap, Val(bp), Val(np), i, u, u1);
      u := u + u1 * Place(i);
      MontOverwrite(T.p, ap, Val(bp), Val(np), i + 1, u, u0, n);
      T.p := T.p[i := u0];
      i := i + 1;
      T.p := T.p[i + n + 1 := 0];
    }
  }

  lemma ShortOperand(b: seq<Limb>, n: seq<Limb>, m: nat)
    requires Val(b) <= Val(n) && m == if |b| < |n| then |b| else |n|
    ensures Val(b[..m]) == Val(b)
  {
    hide Val;
    if m == |b| {
      assert b[..m] == b;
    } else {
      Trim(b, m);
    }
  }

  /** A = A * B * R^-1 mod N, fully reduced, with R = BASE^n. */
  method MontMul(A: Mpi, B: Mpi, N: Mpi, mm: Limb, T: Mpi)
    requires A != N && T !in {A, B, N}
    requires |N.p| >= 1 && |B.p| >= 1 && |A.p| > |N.p| && |T.p| >= 2 * |N.p| + 2
    requires Cong(N.p[0] * mm, -1, BASE)
    requires Val(A.p) < Place(|N.p|) && Val(B.p) <= Val(N.p) && Val(N.p) > 0
    modifies A`p, T`p
    ensures |A.p| == |old(A.p)| && |T.p| == |old(T.p)|
    ensures A.Mag() < N.Mag()
    ensures Cong(A.Mag() * Place(|N.p|), old(A.Mag() * B.Mag()), N.Mag())
  {
    hide Val, Place, MontInv, Cong, Sign;
    ghost var a, b, r, nv := A.Mag(), B.Mag(), Place(|N.p|), N.Mag();
    var n := |N.p|;
    T.p := Zeros(|T.p|);
    ghost var ap := A.p;
    ghost var u := MontLoop(T, A.p, B.p, N.p, mm);
    MontBound(T.p, ap, b, nv, n, u);
    MontCopied(T.p, ap, n);
    MontResult(T.p, ap, b, nv, n, u);
    A.p := T.p[n..2 * n + 1] + A.p[n + 1..];
    var cmp := CmpAbs(A, N);
    SignFacts(A.Mag() - N.Mag());
    assert N.p[..n] == N.p;
    if cmp >= 0 {
      MontReduced(A.Mag(), r, a * b, nv, u);
      SubHlp(n, N.p, A);
    } else {
      CongIntro(A.Mag() * r, a * b, nv, u);
      DummyFits(T.p, A.p, n);
      SubHlp(n, A.p, T);
    }
  }

  /** Copying n+1 limbs out of the window copies its whole value. */
  lemma MontCopied(t: seq<Limb>, a: seq<Limb>, n: nat)
    requires |a| > n && |t| >= 2 * n + 1
    requires Val(a) < Place(n) && Val(t[n..]) < BASE * Place(n)
    ensures Val(t[n..2 * n + 1] + a[n + 1..]) == Val(t[n..])
    ensures Val(a[..n]) == Val(a)
  {
    hide Val, Place;
    var d := t[n..];
    PlaceNext(n);
    Trim(a, n);
    WindowIs(t, n);
    TrimPad(d, n + 1, |a| - n - 1);
    ZeroTail(a, n);
  }

  lemma WindowIs(t: seq<Limb>, n: nat)
    requires |t| >= 2 * n + 1
    ensures t[n..2 * n + 1] == t[n..][..n + 1]
  {
  }

  lemma ZeroTail(a: seq<Limb>, n: nat)
    requires |a| > n && Val(a) < Place(n)
    ensures a[n + 1..] == Zeros(|a| - n - 1)
  {
    hide Val, Place;
    PlaceNext(n);
    Trim(a, n + 1);
  }

  lemma MontResult(t: seq<Limb>, a: seq<Limb>, b: int, nv: int, n: nat, u: int)
    requires n <= |a| && MontInv(t, a, b, nv, n, u) && Val(a[..n]) == Val(a)
    ensures Val(t[n..]) * Place(n) - Val(a) * b == u * nv
  {
  }

  lemma MontReduced(d: int, r: int, ab: int, n: int, u: int)
    requires n > 0 && d * r - ab == u * n
    ensures Cong((d - n) * r, ab, n)
  {
    assert (d - n) * r - ab == (u - r) * n;
    CongIntro((d - n) * r, ab, n, u - r);
  }

  /** The subtraction that only evens out the running time never borrows past the end of T. */
  lemma DummyFits(t: seq<Limb>, a: seq<Limb>, n: nat)
    requires n <= |t| && n <= |a| && Val(a) == Val(t[n..])
    ensures Val(a[..n]) <= Val(t)
  {
    hide Val, Place;
    ValSplit(t, n);
    ValSplit(a, n);
    MulLe(1, Place(n), Val(t[n..]));
    MulLe(0, Val(a[n..]), Place(n));
    assert Place(n) * Val(a[n..]) >= 0 && Place(n) * Val(t[n..]) >= Val(t[n..]);
  }
}
