/** Bit length and shifts of multi-precision integers. */
module Shift {
  import opened Arith
  import opened Common
  import opened Limbs
  import opened Bignum

  lemma PlaceIsPow2(k: nat)
    ensures Place(k) == Pow2(BITS * k)
  {
    Pow2Word();
    PowPow(2, 32, k);
  }

  lemma TwoPowers(t: nat)
    requires t <= BITS
    ensures Pow2(t) > 0 && Pow2(BITS - t) > 0
    ensures Pow2(t) * Pow2(BITS - t) == BASE
  {
    PowPos(2, t);
    PowPos(2, BITS - t);
    PowAdd(2, t, BITS - t);
    Pow2Word();
  }

  // ----- bit length

  /** `r` is the number of bits of `v`. */
  ghost predicate IsBitLen(v: int, r: int) {
    && 0 <= r
    && 0 <= v < Pow2(r)
    && (r > 0 ==> Pow2(r - 1) <= v)
  }

  /** Number of bits of one limb, found by testing bits downwards. */
  method LimbBits(x: Limb) returns (j: int)
    ensures -1 <= j < BITS && IsBitLen(x, j + 1)
  {
    j := BITS - 1;
    Pow2Word();
    while j >= 0
      invariant -1 <= j < BITS
      invariant x < Pow2(j + 1)
    {
      PowPos(2, j);
      BitTest(x, Pow2(j));
      if (x / Pow2(j)) % 2 != 0 {
        break;
      }
      j := j - 1;
    }
  }

  lemma BitTest(x: int, w: int)
    requires 0 <= x < 2 * w
    ensures (x / w) % 2 != 0 <==> x >= w
  {
    if x >= w {
      DivModUnique(x, w, 1, x - w);
    } else {
      DivModUnique(x, w, 0, x);
    }
  }

  lemma BitLenPlaced(v: int, x: int, lo: int, i: nat, j: int)
    requires IsBitLen(x, j + 1) && 0 <= lo < Place(i) && v == lo + x * Place(i)
    requires x > 0 || (i == 0 && j == -1)
    ensures IsBitLen(v, BITS * i + j + 1)
  {
    hide Pow, Place;
    PlaceIsPow2(i);
    if x > 0 {
      PowAdd(2, BITS * i, j + 1);
      PlacedBound(lo, x, Place(i), Pow2(j + 1));
      if j >= 0 {
        PowAdd(2, BITS * i, j);
        MulLe(Pow2(j), x, Place(i));
      }
    } else {
      PowZero();
    }
  }

  lemma PlacedBound(lo: int, x: int, w: int, m: int)
    requires lo < w && w > 0 && x < m
    ensures lo + x * w < w * m
  {
    MulLe(x + 1, m, w);
  }

  method Msb(X: Mpi) returns (r: nat)
    requires |X.p| >= 1
    ensures IsBitLen(X.Mag(), r)
  {
    hide Val, Place, IsBitLen;
    var i := |X.p| - 1;
    while i > 0
      invariant 0 <= i < |X.p|
      invariant forall k :: i < k < |X.p| ==> X.p[k] == 0
    {
      if X.p[i] != 0 {
        break;
      }
      i := i - 1;
    }
    var j := LimbBits(X.p[i]);
    assert X.p == X.p[..i + 1] + Zeros(|X.p| - i - 1);
    ValPad(X.p[..i + 1], |X.p| - i - 1);
    ValTake(X.p, i);
    if X.p[i] == 0 {
      ZeroBits(j + 1);
    }
    BitLenPlaced(X.Mag(), X.p[i], Val(X.p[..i]), i, j);
    BitLenNat(X.Mag(), BITS * i + j + 1);
    r := i * BITS + j + 1;
  }

  lemma ZeroBits(r: int)
    requires IsBitLen(0, r)
    ensures r == 0
  {
  }

  lemma BitLenNat(v: int, r: int)
    requires IsBitLen(v, r)
    ensures r >= 0
  {
  }

  // ----- left shift

  /** One limb of a left shift by t < 32 bits: (limb << t) | r0, and the bits that leave. */
  function ShlCore(x: Limb, t: nat, r0: Limb): (r: (Limb, Limb))
    requires 0 < t < BITS && r0 < Pow2(t)
    ensures r.0 + r.1 * BASE == x * Pow2(t) + r0
    ensures r.1 < Pow2(t)
  {
    TwoPowers(t);
    ShlLimb(x, Pow2(t), Pow2(BITS - t), r0);
    (((x * Pow2(t)) % BASE + r0), x / Pow2(BITS - t))
  }

  /** With u*v = BASE: the low part of x*u is a multiple of u, so the bits below u are free for r0. */
  lemma ShlLimb(x: Limb, u: int, v: int, r0: Limb)
    requires u > 0 && v > 0 && u * v == BASE && r0 < u
    ensures 0 <= x / v < u
    ensures (x * u) % BASE + (x / v) * BASE == x * u
    ensures (x * u) % BASE + r0 < BASE
    ensures u <= BASE
  {
    var q, e := x / v, x % v;
    assert x * u == q * BASE + e * u by {
      assert x == q * v + e;
      ShlProduct(q, v, e, u);
    }
    assert e * u + u <= BASE by {
      MulLe(e + 1, v, u);
    }
    assert 0 <= e * u by {
      MulLe(0, e, u);
    }
    DivModUnique(x * u, BASE, q, e * u);
    if q >= u {
      MulLe(u, q, v);
    }
    MulLe(1, v, u);
  }

  lemma ShlProduct(q: int, v: int, e: int, u: int)
    requires u * v == BASE
    ensures (q * v + e) * u == q * BASE + e * u
  {
  }

  /** The first i limbs of d times k, with the overflow c pending, are in p. */
  ghost predicate ScaleInv(p: seq<Limb>, d: seq<Limb>, i: int, c: int, k: int) {
    && 0 <= i <= |p| == |d|
    && p[i..] == d[i..]
    && Val(p[..i]) + c * Place(i) == Val(d[..i]) * k
  }

  lemma ScaleStep(V: int, w: int, c: int, V0: int, k: int, d: int, r: int, c': int)
    requires V + c * w == V0 * k && r + c' * BASE == d * k + c
    ensures (V + r * w) + c' * (BASE * w) == (V0 + d * w) * k
  {
  }

  lemma ScaleStore(p: seq<Limb>, d: seq<Limb>, i: nat, t: nat, c: Limb)
    requires 0 < t < BITS && c < Pow2(t) && i < |p|
    requires ScaleInv(p, d, i, c, Pow2(t))
    ensures var (r, c') := ShlCore(p[i], t, c);
            ScaleInv(p[i := r], d, i + 1, c', Pow2(t))
  {
    hide Val;
    var (r, c') := ShlCore(p[i], t, c);
    StoreLimb(p, d, i, r);
    ScaleStep(Val(p[..i]), Place(i), c, Val(d[..i]), Pow2(t), p[i], r, c');
  }

  lemma ScaleDone(p: seq<Limb>, d: seq<Limb>, c: int, k: int)
    requires ScaleInv(p, d, |p|, c, k) && c >= 0 && Val(d) * k < Place(|d|)
    ensures Val(p) == Val(d) * k
  {
    hide Val, Place;
    assert p[..|p|] == p && d[..|d|] == d;
    MulSign(c, Place(|p|));
  }

  lemma ScaleStart(d: seq<Limb>, v: nat, k: int)
    requires v <= |d| && d[..v] == Zeros(v)
    ensures ScaleInv(d, d, v, 0, k)
  {
    ValZeros(v);
  }

  /** Moves the limbs of X up by v places; the limbs pushed out must be zero. */
  method ShiftLimbsUp(X: Mpi, v: nat)
    requires 0 < v <= |X.p|
    modifies X`p
    ensures X.p == Zeros(v) + old(X.p)[..|old(X.p)| - v]
  {
    ghost var p0 := X.p;
    var n := |X.p|;
    var i := n - 1;
    while i >= v
      invariant v - 1 <= i < n == |X.p|
      invariant forall k :: 0 <= k <= i ==> X.p[k] == p0[k]
      invariant forall k :: i < k < n ==> X.p[k] == p0[k - v]
    {
      X.p := X.p[i := X.p[i - v]];
      i := i - 1;
    }
    while i >= 0
      invariant -1 <= i < v && |X.p| == n
      invariant forall k :: i < k < v ==> X.p[k] == 0
      invariant forall k :: v <= k < n ==> X.p[k] == p0[k - v]
    {
      X.p := X.p[i := 0];
      i := i - 1;
    }
  }

  /** Number of limbs after a left shift: enough for the shifted bits, never fewer than before. */
  function ShiftedLen(n: nat, bits: nat): nat {
    Max(n, (bits + BITS - 1) / BITS)
  }

  lemma ShiftRoom(v: int, msb: nat, count: nat, n: nat)
    requires IsBitLen(v, msb)
    ensures v * Pow2(count) < Place(ShiftedLen(n, msb + count))
    ensures count / BITS <= ShiftedLen(n, msb + count)
  {
    var m := ShiftedLen(n, msb + count);
    PlaceIsPow2(m);
    PowAdd(2, msb, count);
    PowPos(2, count);
    MulLt(v, Pow2(msb), Pow2(count));
    PowMono(2, msb + count, BITS * m);
  }

  method ShiftL(X: Mpi, count: nat)
    requires |X.p| >= 1
    modifies X`p
    ensures X.Mag() == old(X.Mag()) * Pow2(count)
    ensures exists msb: nat :: IsBitLen(old(X.Mag()), msb) && |X.p| == ShiftedLen(|old(X.p)|, msb + count)
  {
    hide Val, Place, Pow, ScaleInv, IsBitLen;
    ghost var v := X.Mag();
    var v0 := count / BITS;
    var t1 := count % BITS;
    var i := Msb(X);
    ghost var n0, msb := |X.p|, i;
    ShiftRoom(v, msb, count, n0);
    i := i + count;
    if |X.p| * BITS < i {
      Grow(X, (i + BITS - 1) / BITS);
    }
    assert |X.p| == ShiftedLen(n0, msb + count);
    ShiftParts(X.p, v0, t1, count);
    if v0 > 0 {
      ShiftLimbsUp(X, v0);
    }
    ghost var d := X.p;
    assert d[..v0] == Zeros(v0);
    if t1 > 0 {
      var r0: Limb := 0;
      i := v0;
      ScaleStart(d, v0, Pow2(t1));
      PowPos(2, t1);
      while i < |X.p|
        invariant v0 <= i <= |X.p| == |d| && r0 < Pow2(t1)
        invariant ScaleInv(X.p, d, i, r0, Pow2(t1))
      {
        ScaleStore(X.p, d, i, t1, r0);
        var (r, r1) := ShlCore(X.p[i], t1, r0);
        X.p := X.p[i := r];
        r0 := r1;
        i := i + 1;
      }
      ScaleDone(X.p, d, r0, Pow2(t1));
    } else {
      PowZero();
    }
  }

  lemma PowZero()
    ensures Pow2(0) == 1
  {
  }

  /** The whole-limb move multiplies by Place(v0), and what remains is the shift by t1 bits. */
  lemma ShiftParts(p: seq<Limb>, v0: nat, t1: nat, count: nat)
    requires count == BITS * v0 + t1 && v0 <= |p|
    requires Val(p) * Pow2(count) < Place(|p|)
    ensures var d := if v0 > 0 then Zeros(v0) + p[..|p| - v0] else p;
            Val(d) * Pow2(t1) == Val(p) * Pow2(count)
  {
    hide Val, Place, Pow;
    PlaceIsPow2(v0);
    PowAdd(2, BITS * v0, t1);
    PowPos(2, t1);
    PowPos(2, count);
    var d := if v0 > 0 then Zeros(v0) + p[..|p| - v0] else p;
    if v0 > 0 {
      var m := |p| - v0;
      PlaceAdd(m, v0);
      ShiftTop(Val(p), Place(m), Place(v0), Pow2(t1), Place(|p|));
      SigBelow(p, m);
      assert p == p[..m] + Zeros(v0);
      ValPad(p[..m], v0);
      ValSplit(d, v0);
      assert d[..v0] == Zeros(v0) && d[v0..] == p[..m];
      ValZeros(v0);
      assert (Val(p) * Place(v0)) * Pow2(t1) == Val(p) * (Place(v0) * Pow2(t1));
    }
  }

  lemma ShiftTop(v: int, m: int, w: int, k: int, top: int)
    requires v >= 0 && m > 0 && w > 0 && k > 0 && top == m * w && v * (w * k) < top
    ensures v < m
  {
    if v >= m {
      MulLe(m, v, w * k);
      assert w * k >= w by {
        MulLe(1, k, w);
      }
      MulLe(w, w * k, m);
      assert false;
    }
  }

  // ----- right shift

  /** One limb of a right shift by t < 32 bits: (limb >> t) | r0, and the bits for the limb below. */
  function ShrCore(x: Limb, t: nat, r0: Limb): (r: (Limb, Limb))
    requires 0 < t < BITS && r0 % Pow2(BITS - t) == 0
    ensures r.0 == x / Pow2(t) + r0
    ensures r.1 == (x % Pow2(t)) * Pow2(BITS - t) && r.1 % Pow2(BITS - t) == 0
  {
    TwoPowers(t);
    ShrLimb(x, Pow2(t), Pow2(BITS - t), r0);
    (x / Pow2(t) + r0, (x * Pow2(BITS - t)) % BASE)
  }

  lemma ShrLimb(x: Limb, u: int, v: int, r0: Limb)
    requires u > 0 && v > 0 && u * v == BASE && r0 % v == 0
    ensures 0 <= x / u + r0 < BASE
    ensures (x * v) % BASE == (x % u) * v
    ensures ((x % u) * v) % v == 0
  {
    var q, e := x / u, x % u;
    assert q < v by {
      if q >= v {
        MulLe(v, q, u);
      }
    }
    var k := r0 / v;
    assert r0 == k * v;
    assert k < u by {
      if k >= u {
        MulLe(u, k, v);
      }
    }
    assert q + r0 < BASE by {
      MulLe(k + 1, u, v);
    }
    assert x * v == q * BASE + e * v by {
      assert x == q * u + e;
      assert v * u == u * v;
      ShlProduct(q, u, e, v);
    }
    assert 0 <= e * v < BASE by {
      MulLe(0, e, v);
      MulLt(e, u, v);
    }
    DivModUnique(x * v, BASE, q, e * v);
    DivModUnique(e * v, v, e, 0);
  }

  /** Limbs i.. of d divided by k: quotient limbs in p, remainder rem, with the limbs below untouched. */
  ghost predicate ShrInv(p: seq<Limb>, d: seq<Limb>, i: int, rem: int, k: int) {
    && 0 <= i <= |p| == |d|
    && p[..i] == d[..i]
    && 0 <= rem < k
    && Val(d[i..]) == Val(p[i..]) * k + rem
  }

  lemma ShrStep(x: int, y: int, q: int, k: int, v: int, rem: int)
    requires k > 0 && k * v == BASE && y == x / k + rem * v
    ensures x + BASE * (q * k + rem) == (y + BASE * q) * k + x % k
  {
  }

  lemma ShrStore(p: seq<Limb>, d: seq<Limb>, i: nat, t: nat, rem: int, r0: Limb)
    requires 0 < t < BITS && 0 < i <= |p|
    requires ShrInv(p, d, i, rem, Pow2(t)) && r0 == rem * Pow2(BITS - t) && r0 % Pow2(BITS - t) == 0
    ensures var (r, r1) := ShrCore(p[i - 1], t, r0);
            ShrInv(p[i - 1 := r], d, i - 1, p[i - 1] % Pow2(t), Pow2(t))
  {
    hide Val, Pow;
    TwoPowers(t);
    var j := i - 1;
    var x := p[j];
    var (r, r1) := ShrCore(x, t, r0);
    var p' := p[j := r];
    assert p'[j..] == [r] + p[i..];
    assert d[j..] == [x] + d[i..] by {
      assert d[j] == d[..i][j] == p[..i][j];
    }
    assert p'[..j] == p[..i][..j] == d[..j];
    ValCons(r, p[i..]);
    ValCons(x, d[i..]);
    ShrStep(x, r, Val(p[i..]), Pow2(t), Pow2(BITS - t), rem);
  }

  /** Moves the limbs of X down by v places and clears the rest. */
  method ShiftLimbsDown(X: Mpi, v: nat)
    requires 0 < v
    modifies X`p
    ensures |X.p| == |old(X.p)|
    ensures X.p == if v <= |X.p| then old(X.p)[v..] + Zeros(v) else Zeros(|X.p|)
  {
    ghost var p0 := X.p;
    var n := |X.p|;
    var i := 0;
    while i < n - v
      invariant 0 <= i <= n == |X.p| && (i > 0 ==> i <= n - v)
      invariant forall k :: i <= k < n ==> X.p[k] == p0[k]
      invariant forall k :: 0 <= k < i ==> X.p[k] == p0[k + v]
    {
      X.p := X.p[i := X.p[i + v]];
      i := i + 1;
    }
    while i < n
      invariant 0 <= i <= n == |X.p| && i >= n - v
      invariant forall k :: 0 <= k < n - v ==> X.p[k] == p0[k + v]
      invariant forall k :: 0 <= k < i && k >= n - v ==> X.p[k] == 0
    {
      X.p := X.p[i := 0];
      i := i + 1;
    }
  }

  /** Floor division by a product is floor division twice. */
  lemma DivDiv(a: int, m: int, k: int)
    requires a >= 0 && m > 0 && k > 0
    ensures m * k > 0 && (a / m) / k == a / (m * k)
  {
    var q, r := a / m, a % m;
    var q2, r2 := q / k, q % k;
    MulLe(1, k, m);
    assert a == q2 * (m * k) + (r2 * m + r) by {
      assert (q2 * k) * m == q2 * (m * k);
      assert q * m == (q2 * k + r2) * m;
    }
    assert 0 <= r2 * m by {
      MulLe(0, r2, m);
    }
    assert r2 * m + r < m * k by {
      MulLe(r2 + 1, k, m);
    }
    DivModUnique(a, m * k, q2, r2 * m + r);
  }

  lemma ShiftDownParts(p: seq<Limb>, v: nat)
    ensures var d := if v <= |p| then p[v..] + Zeros(v) else Zeros(|p|);
            Val(d) == Val(p) / Place(v)
  {
    hide Val, Place;
    if v <= |p| {
      ValPad(p[v..], v);
      ValSplit(p, v);
      DivModUnique(Val(p), Place(v), Val(p[v..]), Val(p[..v]));
    } else {
      PlaceMono(|p|, v);
      ValZeros(|p|);
      DivModUnique(Val(p), Place(v), 0, Val(p));
    }
  }

  method ShiftR(X: Mpi, count: nat)
    modifies X`p
    ensures |X.p| == |old(X.p)|
    ensures Pow2(count) > 0 && X.Mag() == old(X.Mag()) / Pow2(count)
  {
    hide Val, Place, Pow, ShrInv;
    var v0 := count / BITS;
    var v1 := count % BITS;
    ShiftDownParts(X.p, v0);
    PlaceIsPow2(v0);
    PowAdd(2, BITS * v0, v1);
    PowPos(2, v1);
    DivDiv(X.Mag(), Place(v0), Pow2(v1));
    if v0 > 0 {
      ShiftLimbsDown(X, v0);
    } else {
      assert X.p[0..] + Zeros(0) == X.p;
    }
    ghost var d := X.p;
    if v1 > 0 {
      var r0: Limb := 0;
      ghost var rem := 0;
      var i := |X.p| - 1;
      ShrStart(d, Pow2(v1), Pow2(BITS - v1));
      DivModUnique(0, Pow2(BITS - v1), 0, 0);
      while i >= 0
        invariant -1 <= i < |X.p| == |d|
        invariant ShrInv(X.p, d, i + 1, rem, Pow2(v1))
        invariant Pow2(BITS - v1) > 0 && r0 == rem * Pow2(BITS - v1) && r0 % Pow2(BITS - v1) == 0
      {
        ShrStore(X.p, d, i + 1, v1, rem, r0);
        var (r, r1) := ShrCore(X.p[i], v1, r0);
        rem := X.p[i] % Pow2(v1);
        X.p := X.p[i := r];
        r0 := r1;
        i := i - 1;
      }
      ShrDone(X.p, d, rem, Pow2(v1));
    } else {
      PowZero();
    }
  }

  lemma ShrStart(d: seq<Limb>, k: int, v: int)
    requires k > 0
    ensures ShrInv(d, d, |d|, 0, k) && 0 * v == 0
  {
  }

  lemma ShrDone(p: seq<Limb>, d: seq<Limb>, rem: int, k: int)
    requires ShrInv(p, d, 0, rem, k)
    ensures Val(p) == Val(d) / k
  {
    assert p[0..] == p && d[0..] == d;
    DivModUnique(Val(d), k, Val(p), rem);
  }
}
