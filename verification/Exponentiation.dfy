/** Sliding-window modular exponentiation over Montgomery form (HAC 14.85). */
module Exponentiation {
  import opened Arith
  import opened Common
  import opened Limbs
  import opened Bignum
  import opened Shift
  import opened Division
  import opened Montgomery

  // ----- powers of two are invertible modulo an odd number

  lemma {:induction false} PowOne(k: nat)
    ensures Pow(1, k) == 1
  {
    if k > 0 {
      PowOne(k - 1);
    }
  }

  lemma Pow2Inverse(n: int, k: nat) returns (inv: int)
    requires n > 0 && n % 2 == 1
    ensures Cong(Pow2(k) * inv, 1, n)
  {
    var h := (n + 1) / 2;
    assert 2 * h == n + 1;
    CongIntro(2 * h, 1, n, 1);
    inv := Pow(h, k);
    PowProduct(2, h, k);
    CongPow(2 * h, 1, k, n);
    PowOne(k);
  }

  lemma CancelPow2(a: int, b: int, n: int, k: nat)
    requires n > 0 && n % 2 == 1 && Cong(a * Pow2(k), b * Pow2(k), n)
    ensures Cong(a, b, n)
  {
    hide Cong, Pow2;
    var inv := Pow2Inverse(n, k);
    var r := Pow2(k);
    CongRefl(inv, n);
    CongMul(a * r, b * r, inv, inv, n);
    CancelSide(a, r, inv, n);
    CancelSide(b, r, inv, n);
    CongSym((a * r) * inv, a, n);
    CongTrans(a, (a * r) * inv, (b * r) * inv, n);
    CongTrans(a, (b * r) * inv, b, n);
  }

  lemma CancelSide(a: int, r: int, inv: int, n: int)
    requires n > 0 && Cong(r * inv, 1, n)
    ensures Cong((a * r) * inv, a, n)
  {
    hide Cong;
    CongRefl(a, n);
    CongMul(a, a, r * inv, 1, n);
    assert (a * r) * inv == a * (r * inv);
  }

  // ----- numbers in Montgomery form

  /** x is the reduced residue of v*R, with R = BASE^k. */
  ghost predicate Residue(x: int, v: int, k: nat, n: int) {
    n > 0 && 0 <= x < n && Cong(x, v * Place(k), n)
  }

  lemma ResidueProduct(x: int, v: int, y: int, w: int, z: int, k: nat, n: int)
    requires n > 0 && n % 2 == 1 && Residue(x, v, k, n) && Residue(y, w, k, n)
    requires 0 <= z < n && Cong(z * Place(k), x * y, n)
    ensures Residue(z, v * w, k, n)
  {
    hide Cong, Place;
    var r := Place(k);
    CongMul(x, v * r, y, w * r, n);
    MulSwap(v, r, w, r);
    assert (v * r) * (w * r) == ((v * w) * r) * r by {
      assert (v * w) * (r * r) == ((v * w) * r) * r;
    }
    CongTrans(z * r, x * y, ((v * w) * r) * r, n);
    PlaceIsPow2(k);
    CancelPow2(z, (v * w) * r, n, BITS * k);
  }

  /** What the Montgomery routines need of the modulus, its limb inverse and the scratch buffer. */
  ghost predicate Ready(N: Mpi, mm: Limb, T: Mpi)
    reads N, T
  {
    && T != N && |N.p| >= 1 && N.p[0] % 2 == 1
    && Cong(N.p[0] * mm, -1, BASE)
    && |T.p| >= 2 * |N.p| + 2
  }

  lemma OddValue(p: seq<Limb>)
    requires |p| >= 1 && p[0] % 2 == 1
    ensures Val(p) % 2 == 1 && Val(p) > 0
  {
    hide Val;
    LowBit(p);
  }

  ghost predicate Mont(X: Mpi, N: Mpi, v: int)
    reads X, N
  {
    |X.p| > |N.p| && Residue(X.Mag(), v, |N.p|, N.Mag())
  }

  method Times(X: Mpi, Y: Mpi, N: Mpi, mm: Limb, T: Mpi, ghost v: int, ghost w: int)
    requires X !in {N, T} && Y !in {N, T} && Ready(N, mm, T)
    requires Mont(X, N, v) && Mont(Y, N, w)
    modifies X`p, T`p
    ensures Ready(N, mm, T) && Mont(X, N, v * w)
  {
    hide Val, Place, Cong;
    OddValue(N.p);
    ghost var x, y := X.Mag(), Y.Mag();
    MontMul(X, Y, N, mm, T);
    ResidueProduct(x, v, y, w, X.Mag(), |N.p|, N.Mag());
  }

  // ----- the bits of the exponent

  /** The exponent without its `pos` low bits. */
  ghost function Prefix(e: int, pos: nat): int {
    e / Pow2(pos)
  }

  lemma PrefixAll(e: int, pos: nat)
    requires 0 <= e < Pow2(pos)
    ensures Prefix(e, pos) == 0
  {
  }

  lemma PrefixNone(e: int)
    ensures Prefix(e, 0) == e
  {
  }

  lemma LimbBitParity(x: int, v: int, u: int, w: int)
    requires x >= 0 && v >= 0 && u > 0 && w > 0 && w % 2 == 0 && u * w == BASE
    ensures ((x + BASE * v) / u) % 2 == (x / u) % 2
  {
    var q, r := x / u, x % u;
    var h := w / 2;
    assert x + BASE * v == (q + w * v) * u + r by {
      assert (w * v) * u == (u * w) * v;
    }
    DivModUnique(x + BASE * v, u, q + w * v, r);
    assert w * v == 2 * (h * v);
    ParityAdd(q, h * v);
  }

  lemma ParityAdd(q: int, t: int)
    ensures (q + 2 * t) % 2 == q % 2
  {
  }

  /** Reading bit j of limb k extends the prefix by one bit. */
  lemma PrefixStep(p: seq<Limb>, k: nat, j: nat)
    requires k < |p| && j < BITS
    ensures Prefix(Val(p), BITS * k + j) == 2 * Prefix(Val(p), BITS * k + j + 1) + (p[k] / Pow2(j)) % 2
  {
    hide Val, Pow, Pow2;
    var e := Val(p);
    var pos := BITS * k + j;
    Pow2Next(pos);
    DivDiv(e, Pow2(pos), 2);
    LimbShift(p, k, j);
    TwoPowers(j);
    Pow2Next(BITS - j - 1);
    LimbBitParity(p[k], Val(p[k + 1..]), Pow2(j), Pow2(BITS - j));
  }

  lemma LimbShift(p: seq<Limb>, k: nat, j: nat)
    requires k < |p|
    ensures Prefix(Val(p), BITS * k + j) == (p[k] + BASE * Val(p[k + 1..])) / Pow2(j)
  {
    hide Val, Place, Pow;
    PlaceIsPow2(k);
    PowAdd(2, BITS * k, j);
    DivDiv(Val(p), Place(k), Pow2(j));
    LimbAt(p, k);
  }

  // ----- the window

  /**
   * The exponent bits read so far are `done` followed by the nbits bits `pend` waiting in the window;
   * wbits holds them at the top of a window of wsize bits, and a started window begins with a one.
   */
  ghost predicate Window(e: int, done: int, pend: int, nbits: int, wbits: int, wsize: int, state: int) {
    && 0 <= nbits < wsize
    && done >= 0
    && 0 <= pend < Pow2(nbits)
    && e == done * Pow2(nbits) + pend
    && wbits == pend * Pow2(wsize - nbits)
    && (state == 0 ==> done == 0 && nbits == 0)
    && (state == 1 ==> nbits == 0)
    && (state == 2 ==> nbits > 0 && Pow2(nbits - 1) <= pend)
    && 0 <= state <= 2
  }

  /** A bit goes into the window; a full window holds a table index and is closed. */
  lemma WindowPush(e: int, done: int, pend: int, nbits: int, wbits: int, wsize: int, state: int, ei: int)
    requires Window(e, done, pend, nbits, wbits, wsize, state) && 0 <= ei <= 1 && (ei == 1 || state == 2)
    ensures var n, p, wb := nbits + 1, 2 * pend + ei, wbits + ei * Pow2(wsize - nbits - 1);
            if n < wsize then Window(2 * e + ei, done, p, n, wb, wsize, 2)
            else wb == p && Pow2(wsize - 1) <= p < Pow2(wsize)
                 && Window(2 * e + ei, done * Pow2(wsize) + p, 0, 0, 0, wsize, 1)
  {
    hide Pow;
    Pow2Next(nbits);
    Pow2Next(wsize - nbits - 1);
    PowZero();
    if nbits > 0 {
      Pow2Next(nbits - 1);
    }
    PushArith(done, Pow2(nbits), pend, ei, Pow2(wsize - nbits - 1));
    MulLe(0, done, Pow2(wsize));
  }

  lemma PushArith(done: int, u: int, pend: int, ei: int, w: int)
    ensures done * (u * 2) == 2 * (done * u)
    ensures pend * (w * 2) + ei * w == (2 * pend + ei) * w
  {
  }

  lemma WindowStart(wsize: int)
    requires wsize >= 1
    ensures Window(0, 0, 0, 0, 0, wsize, 0)
  {
  }

  lemma WindowSkip(e: int, done: int, pend: int, nbits: int, wbits: int, wsize: int)
    requires Window(e, done, pend, nbits, wbits, wsize, 0)
    ensures Window(2 * e, done, pend, nbits, wbits, wsize, 0)
  {
  }

  lemma WindowFacts(e: int, done: int, pend: int, nbits: int, wbits: int, wsize: int, state: int)
    requires Window(e, done, pend, nbits, wbits, wsize, state)
    ensures 0 <= nbits < wsize && done >= 0 && 0 <= pend < Pow2(nbits) && 0 <= state <= 2
    ensures e == done * Pow2(nbits) + pend && wbits == pend * Pow2(wsize - nbits)
  {
  }

  lemma SquareWindow(e: int, done: int, pend: int, nbits: int, wbits: int, wsize: int)
    requires Window(e, done, pend, nbits, wbits, wsize, 1)
    ensures done * Pow2(1) >= 0 && Window(2 * e, done * Pow2(1), pend, nbits, wbits, wsize, 1)
  {
  }

  // ----- the table of odd-window powers

  method NewTable() returns (W: seq<Mpi>)
    ensures |W| == 64 && Distinct(W)
    ensures forall w :: w in W ==> fresh(w)
  {
    W := [];
    while |W| < 64
      invariant |W| <= 64 && Distinct(W)
      invariant forall w :: w in W ==> fresh(w)
    {
      var w := new Mpi();
      W := W + [w];
    }
  }

  /** W[i] holds a^i in Montgomery form, for i = 1 and for every i with its top window bit set. */
  ghost predicate Table(W: seq<Mpi>, N: Mpi, a: int, wsize: nat)
    reads W, N
  {
    && 1 <= wsize <= 6 && |W| == 64 && Distinct(W)
    && Mont(W[1], N, a)
    && forall i :: Pow2(wsize - 1) <= i < Pow2(wsize) && i < 64 ==> Mont(W[i], N, Pow(a, i))
  }

  lemma SmallPow2(k: nat)
    requires k <= 6
    ensures Pow2(0) == 1 && Pow2(1) == 2 && Pow2(2) == 4 && Pow2(3) == 8 && Pow2(4) == 16 && Pow2(5) == 32 && Pow2(6) == 64
    ensures 1 <= Pow2(k) <= 64
  {
  }

  lemma PowSquare(a: int, i: nat)
    ensures Pow(a, Pow2(i)) * Pow(a, Pow2(i)) == Pow(a, Pow2(i + 1))
  {
    Pow2Next(i);
    PowAdd(a, Pow2(i), Pow2(i));
  }

  /** W := copy of V, in a buffer of at least n+1 limbs. */
  method CopyMont(W: Mpi, V: Mpi, N: Mpi, ghost v: int)
    requires W !in {V, N} && Mont(V, N, v)
    modifies W
    ensures Mont(W, N, v)
  {
    hide Val, Place, Cong, Fit;
    Grow(W, |N.p| + 1);
    Copy(W, V);
  }

  method FillTable(W: seq<Mpi>, N: Mpi, mm: Limb, T: Mpi, wsize: nat, ghost a: int)
    requires 1 <= wsize <= 6 && |W| == 64 && Distinct(W)
    requires N !in W && T !in W && T != N && Ready(N, mm, T) && Mont(W[1], N, a)
    modifies W, T`p
    ensures Ready(N, mm, T) && Table(W, N, a, wsize)
  {
    hide Pow2, Pow, Ready, Mont;
    SmallPow2(wsize);
    PowBase(a);
    if wsize > 1 {
      SmallPow2(wsize - 1);
      var j := Pow2(wsize - 1);
      Pow2Next(wsize - 1);
      assert j > 1;
      CopyMont(W[j], W[1], N, a);
      var i := 0;
      while i < wsize - 1
        invariant 0 <= i <= wsize - 1
        invariant Ready(N, mm, T) && Mont(W[1], N, a) && Mont(W[j], N, Pow(a, Pow2(i)))
      {
        assert W[1] != W[j];
        Times(W[j], W[j], N, mm, T, Pow(a, Pow2(i)), Pow(a, Pow2(i)));
        PowSquare(a, i);
        i := i + 1;
      }
      i := j + 1;
      while i < Pow2(wsize)
        invariant j < i <= Pow2(wsize)
        invariant Ready(N, mm, T) && Mont(W[1], N, a)
        invariant forall k :: j <= k < i ==> Mont(W[k], N, Pow(a, k))
      {
        assert W[1] != W[i] && forall k :: j <= k < i ==> W[k] != W[i];
        CopyMont(W[i], W[i - 1], N, Pow(a, i - 1));
        Times(W[i], W[1], N, mm, T, Pow(a, i - 1), a);
        PowNext(a, i);
        i := i + 1;
      }
    }
  }

  lemma PowBase(a: int)
    ensures Pow(a, 1) == a && Pow(a, 0) == 1
  {
  }

  lemma PowNext(a: int, i: nat)
    requires i >= 1
    ensures Pow(a, i - 1) * a == Pow(a, i)
  {
  }

  // ----- scanning the exponent

  /** Square X k times. */
  method Squares(X: Mpi, N: Mpi, mm: Limb, T: Mpi, k: nat, ghost a: int, ghost e: nat)
    requires X !in {N, T} && T != N && Ready(N, mm, T) && Mont(X, N, Pow(a, e))
    modifies X`p, T`p
    ensures Ready(N, mm, T) && e * Pow2(k) >= 0 && Mont(X, N, Pow(a, e * Pow2(k)))
  {
    hide Ready, Mont, Pow;
    var i := 0;
    PowZero();
    while i < k
      invariant 0 <= i <= k && e * Pow2(i) >= 0
      invariant Ready(N, mm, T) && Mont(X, N, Pow(a, e * Pow2(i)))
    {
      ghost var f: nat := e * Pow2(i);
      Times(X, X, N, mm, T, Pow(a, f), Pow(a, f));
      PowAdd(a, f, f);
      Pow2Next(i);
      assert f + f == e * Pow2(i + 1);
      i := i + 1;
    }
  }

  lemma TableEntry(W: seq<Mpi>, N: Mpi, a: int, wsize: nat, i: int)
    requires Table(W, N, a, wsize) && Pow2(wsize - 1) <= i < Pow2(wsize)
    ensures 0 <= i < |W| && Mont(W[i], N, Pow(a, i))
  {
    SmallPow2(wsize);
  }

  /** A full window: X = X^(2^wsize) * W[wbits]. */
  method CloseWindow(X: Mpi, N: Mpi, mm: Limb, T: Mpi, W: seq<Mpi>, wsize: nat, wbits: int, ghost a: int, ghost done: nat)
    requires X !in {N, T} && X !in W && T !in W && N !in W && T != N && Ready(N, mm, T)
    requires Table(W, N, a, wsize) && Pow2(wsize - 1) <= wbits < Pow2(wsize)
    requires Mont(X, N, Pow(a, done))
    modifies X`p, T`p
    ensures Ready(N, mm, T) && Table(W, N, a, wsize)
    ensures done * Pow2(wsize) + wbits >= 0 && Mont(X, N, Pow(a, done * Pow2(wsize) + wbits))
  {
    hide Ready, Mont, Pow, Table;
    Squares(X, N, mm, T, wsize, a, done);
    TableEntry(W, N, a, wsize, wbits);
    ghost var f: nat := done * Pow2(wsize);
    Times(X, W[wbits], N, mm, T, Pow(a, f), Pow(a, wbits));
    PowAdd(a, f, wbits);
  }

  /** The bit loop: X becomes the power given by the bits of E that have left the window. */
  method ScanExponent(X: Mpi, ep: seq<Limb>, N: Mpi, mm: Limb, T: Mpi, W: seq<Mpi>, wsize: nat, ghost a: int)
    returns (nbits: nat, wbits: nat, ghost done: nat, ghost pend: nat)
    requires X !in {N, T} && X !in W && T !in W && N !in W && T != N && Ready(N, mm, T)
    requires 1 <= wsize && Table(W, N, a, wsize) && Mont(X, N, 1)
    modifies X`p, T`p
    ensures Ready(N, mm, T) && Table(W, N, a, wsize) && Mont(X, N, Pow(a, done))
    ensures nbits < wsize && pend < Pow2(nbits) && Val(ep) == done * Pow2(nbits) + pend
    ensures wbits == pend * Pow2(wsize - nbits)
  {
    hide Val, Ready, Mont, Table, Pow, Prefix, Place, Pow2, Window;
    var nblimbs, bufsize := |ep|, 0;
    nbits, wbits := 0, 0;
    var state := 0;
    done, pend := 0, 0;
    ghost var e := 0;
    PlaceIsPow2(|ep|);
    PrefixAll(Val(ep), BITS * |ep|);
    PowBase(a);
    WindowStart(wsize);
    while true
      invariant 0 <= nblimbs <= |ep| && 0 <= bufsize < BITS && (bufsize > 0 ==> nblimbs < |ep|)
      invariant Ready(N, mm, T) && Table(W, N, a, wsize) && Mont(X, N, Pow(a, done))
      invariant e == Prefix(Val(ep), BITS * nblimbs + bufsize)
      invariant Window(e, done, pend, nbits, wbits, wsize, state)
      decreases BITS * nblimbs + bufsize
    {
      if bufsize == 0 {
        if nblimbs == 0 {
          break;
        }
        nblimbs := nblimbs - 1;
        bufsize := BITS;
      }
      bufsize := bufsize - 1;
      var ei := (ep[nblimbs] / Pow2(bufsize)) % 2;
      PrefixStep(ep, nblimbs, bufsize);
      WindowFacts(e, done, pend, nbits, wbits, wsize, state);
      ghost var e0 := e;
      e := 2 * e + ei;
      if ei == 0 && state == 0 {
        WindowSkip(e0, done, pend, nbits, wbits, wsize);
        continue;
      }
      if ei == 0 && state == 1 {
        Squares(X, N, mm, T, 1, a, done);
        SquareWindow(e0, done, pend, nbits, wbits, wsize);
        done := done * Pow2(1);
        continue;
      }
      WindowPush(e0, done, pend, nbits, wbits, wsize, state, ei);
      state := 2;
      nbits := nbits + 1;
      wbits := wbits + ei * Pow2(wsize - nbits);
      pend := 2 * pend + ei;
      if nbits == wsize {
        CloseWindow(X, N, mm, T, W, wsize, wbits, a, done);
        done := done * Pow2(wsize) + pend;
        pend := 0;
        state := state - 1;
        nbits := 0;
        wbits := 0;
      }
    }
    PrefixNone(Val(ep));
    WindowFacts(e, done, pend, nbits, wbits, wsize, state);
  }

  /** The unfinished window holds its bits at the top: shifting left brings them out one by one. */
  lemma LeftoverBit(pend: nat, wsize: nat, nbits: nat, i: nat)
    requires i < nbits < wsize
    ensures (pend * Pow2(wsize - nbits + i + 1)) / Pow2(wsize) == pend / Pow2(nbits - i - 1)
    ensures pend / Pow2(nbits - i - 1) == 2 * (pend / Pow2(nbits - i)) + (pend / Pow2(nbits - i - 1)) % 2
  {
    hide Pow;
    var m := nbits - i - 1;
    PowAdd(2, wsize - m, m);
    ScaleQuotient(pend, Pow2(wsize - m), Pow2(m));
    Pow2Next(m);
    DivDiv(pend, Pow2(m), 2);
  }

  lemma ScaleQuotient(x: int, c: int, d: int)
    requires x >= 0 && c > 0 && d > 0
    ensures c * d > 0 && (x * c) / (c * d) == x / d
  {
    MulLe(0, x, c);
    DivDiv(x * c, c, d);
    DivModUnique(x * c, c, x, 0);
  }

  method FinishWindow(X: Mpi, N: Mpi, mm: Limb, T: Mpi, W1: Mpi, wsize: nat, nbits: nat, wbits0: nat,
                      ghost a: int, ghost done: nat, ghost pend: nat)
    requires X !in {N, T, W1} && W1 !in {N, T} && T != N && Ready(N, mm, T)
    requires Mont(W1, N, a) && Mont(X, N, Pow(a, done))
    requires nbits < wsize && pend < Pow2(nbits) && wbits0 == pend * Pow2(wsize - nbits)
    modifies X`p, T`p
    ensures Ready(N, mm, T)
    ensures done * Pow2(nbits) >= 0 && Mont(X, N, Pow(a, done * Pow2(nbits) + pend))
  {
    hide Ready, Mont, Pow, Pow2;
    var wbits := wbits0;
    var i := 0;
    ghost var e: nat := done;
    PowZero();
    DivModUnique(pend, Pow2(nbits), 0, pend);
    while i < nbits
      invariant 0 <= i <= nbits
      invariant wbits == pend * Pow2(wsize - nbits + i)
      invariant e == done * Pow2(i) + pend / Pow2(nbits - i)
      invariant Ready(N, mm, T) && Mont(W1, N, a) && Mont(X, N, Pow(a, e))
    {
      Squares(X, N, mm, T, 1, a, e);
      LeftoverBit(pend, wsize, nbits, i);
      LeftoverStep(pend, done, e, wsize, nbits, i);
      wbits := wbits * 2;
      e := e * Pow2(1);
      if (wbits / Pow2(wsize)) % 2 != 0 {
        Times(X, W1, N, mm, T, Pow(a, e), a);
        PowNext(a, e + 1);
        e := e + 1;
      }
      i := i + 1;
    }
  }

  lemma LeftoverStep(pend: nat, done: nat, e: nat, wsize: nat, nbits: nat, i: nat)
    requires i < nbits < wsize && e == done * Pow2(i) + pend / Pow2(nbits - i)
    ensures pend * Pow2(wsize - nbits + i) * 2 == pend * Pow2(wsize - nbits + i + 1)
    ensures e * Pow2(1) == done * Pow2(i + 1) + 2 * (pend / Pow2(nbits - i))
  {
  }

  // ----- entering and leaving Montgomery form

  /** R^2 mod N, the constant that a caller may keep between calls. */
  ghost function RSquared(N: Mpi): int
    requires N.Mag() > 0
    reads N
  {
    Place(2 * |N.p|) % N.Mag()
  }

  /** The cached constant of a key is absent or right. */
  ghost predicate CacheOk(C: Mpi, N: Mpi)
    requires N.Mag() > 0
    reads C, N
  {
    C.p == [] || (C.s == 1 && C.Mag() == RSquared(N))
  }

  method PrepareRR(N: Mpi, C: Mpi?) returns (RR: Mpi)
    requires N.s == 1 && N.Mag() > 0
    requires C != null ==> C != N && CacheOk(C, N)
    modifies C
    ensures fresh(RR) && RR.s == 1 && |RR.p| >= 1 && RR.Mag() == RSquared(N)
    ensures C != null ==> CacheOk(C, N) && C.p == RR.p && (old(C.p) != [] ==> C.p == old(C.p))
  {
    hide Val, Place, Pow;
    RR := new Mpi();
    if C == null || C.p == [] {
      Lset(RR, 1);
      PlaceIsPow2(2 * |N.p|);
      ShiftL(RR, |N.p| * 2 * BITS);
      var ret := ModMpi(RR, RR, N);
      SmallMod(Place(2 * |N.p|), N.Mag());
      if C != null {
        C.s, C.p := RR.s, RR.p;
      }
    } else {
      RR.s, RR.p := C.s, C.p;
    }
  }

  lemma SmallMod(a: int, n: int)
    requires n > 0 && a >= 0
    ensures 1 * a == a && a % n >= 0
  {
  }

  lemma EnterMont(x: int, z: int, a: int, rr: int, k: nat, n: int)
    requires n > 0 && n % 2 == 1 && 0 <= z < n && Cong(x, a, n) && rr == Place(2 * k) % n
    requires Cong(z * Place(k), x * rr, n)
    ensures Residue(z, a, k, n)
  {
    hide Cong, Place;
    var r := Place(k);
    PlaceAdd(k, k);
    CongMod(r * r, n);
    CongSym(r * r, rr, n);
    CongMul(x, a, rr, r * r, n);
    CongTrans(z * r, x * rr, a * (r * r), n);
    assert a * (r * r) == (a * r) * r;
    PlaceIsPow2(k);
    CancelPow2(z, a * r, n, BITS * k);
  }

  /**
   * The base that is exponentiated: A, or the magnitude of a negative A that has as many limbs as N. A negative A with
   * fewer limbs compares above N, and so is reduced.
   */
  ghost function BaseOf(A: Mpi, N: Mpi): int
    requires N.Mag() > 0
    reads A, N
  {
    if A.s == 1 || Sig(A.p) >= Sig(N.p) then A.Mag() else A.Value() % N.Mag()
  }

  /** W = A, or A mod N, before it enters Montgomery form. */
  method TakeBase(W: Mpi, A: Mpi, N: Mpi)
    requires W !in {A, N} && A.Valid() && N.s == 1 && N.Mag() > 0 && (A.s == -1 ==> A.Mag() < Place(|N.p|))
    modifies W
    ensures Cong(W.Mag(), BaseOf(A, N), N.Mag()) && W.Mag() < Place(|N.p|) && |W.p| >= |old(W.p)|
  {
    hide Val, Place, Cong, Fit, Sig;
    ghost var a, n := A.Value(), N.Mag();
    ValSig(A.p);
    ValSig(N.p);
    var cmp := CmpMpi(A, N);
    if cmp >= 0 {
      var ret := ModMpi(W, A, N);
      ReducedBase(a, n);
    } else {
      Copy(W, A);
    }
    CongRefl(A.Mag(), n);
  }

  lemma ReducedBase(a: int, n: int)
    requires n > 0
    ensures Cong(a % n, a, n) && Cong(a % n, a % n, n) && (a == 0 ==> Cong(n, a, n) && a % n == 0)
  {
    CongMod(a, n);
    CongSym(a, a % n, n);
    CongRefl(a % n, n);
    CongIntro(n, 0, n, 1);
  }

  /** W = A * R mod N. */
  method ToMont(W: Mpi, A: Mpi, N: Mpi, RR: Mpi, mm: Limb, T: Mpi)
    requires W !in {A, N, RR, T} && T !in {A, N, RR} && Ready(N, mm, T)
    requires A.Valid() && N.s == 1 && N.Mag() > 0 && |RR.p| >= 1 && RR.Mag() == RSquared(N)
    requires A.s == -1 ==> A.Mag() < Place(|N.p|)
    modifies W, T`p
    ensures Ready(N, mm, T) && Mont(W, N, BaseOf(A, N))
  {
    hide Val, Place, Cong, Fit, Sig, Residue, BaseOf;
    OddValue(N.p);
    Grow(W, |N.p| + 1);
    TakeBase(W, A, N);
    ghost var x := W.Mag();
    MontMul(W, RR, N, mm, T);
    EnterMont(x, W.Mag(), BaseOf(A, N), RR.Mag(), |N.p|, N.Mag());
  }

  method MontRed(X: Mpi, N: Mpi, mm: Limb, T: Mpi)
    requires X !in {N, T} && Ready(N, mm, T) && |X.p| > |N.p| && X.Mag() < N.Mag()
    modifies X`p, T`p
    ensures Ready(N, mm, T) && |X.p| > |N.p| && X.Mag() < N.Mag()
    ensures Cong(X.Mag() * Place(|N.p|), old(X.Mag()), N.Mag())
  {
    hide Val, Place, Cong;
    OddValue(N.p);
    var U := new Mpi();
    U.p := [1];
    EmptyVal();
    assert [1] == [1] + [];
    ValCons(1, []);
    MontMul(X, U, N, mm, T);
  }

  lemma LeaveMont(x: int, z: int, v: int, k: nat, n: int)
    requires n > 0 && n % 2 == 1 && 0 <= z < n && Residue(x, v, k, n) && Cong(z * Place(k), x, n)
    ensures z == v % n
  {
    hide Cong, Place;
    var r := Place(k);
    CongTrans(z * r, x, v * r, n);
    PlaceIsPow2(k);
    CancelPow2(z, v, n, BITS * k);
    CongReduced(z, v, n);
  }

  /** X = R mod N, the number one in Montgomery form. */
  method MontOne(X: Mpi, N: Mpi, RR: Mpi, mm: Limb, T: Mpi)
    requires X !in {N, RR, T} && T !in {N, RR} && Ready(N, mm, T)
    requires N.Mag() > 0 && |X.p| > |N.p| && RR.Mag() == RSquared(N)
    modifies X, T`p
    ensures Ready(N, mm, T) && Mont(X, N, 1) && X.s == RR.s
  {
    hide Val, Place, Cong, Fit;
    OddValue(N.p);
    Copy(X, RR);
    ghost var x := X.Mag();
    MontRed(X, N, mm, T);
    OneMont(x, X.Mag(), |N.p|, N.Mag());
  }

  lemma OneMont(rr: int, z: int, k: nat, n: int)
    requires n > 0 && n % 2 == 1 && 0 <= z < n && rr == Place(2 * k) % n
    requires Cong(z * Place(k), rr, n)
    ensures Residue(z, 1, k, n)
  {
    hide Cong, Place;
    var r := Place(k);
    PlaceAdd(k, k);
    CongMod(r * r, n);
    CongSym(r * r, rr, n);
    CongTrans(z * r, rr, r * r, n);
    PlaceIsPow2(k);
    CancelPow2(z, r, n, BITS * k);
  }

  function WindowSize(bits: nat): (w: nat)
    ensures 1 <= w <= 6
  {
    if bits > 671 then 6 else if bits > 239 then 5 else if bits > 79 then 4 else if bits > 23 then 3 else 1
  }

  lemma ReadyAfter(N: Mpi, mm: Limb, T: Mpi)
    requires T != N && |N.p| >= 1 && N.p[0] % 2 == 1 && Cong(N.p[0] * mm, -1, BASE) && |T.p| >= 2 * |N.p| + 2
    ensures Ready(N, mm, T)
  {
  }

  /** Scratch space, the table of powers, and X = 1 in Montgomery form. */
  method ExpSetup(X: Mpi, A: Mpi, N: Mpi, RR: Mpi, mm: Limb, wsize: nat) returns (W: seq<Mpi>, T: Mpi)
    requires X !in {N, RR} && A.Valid() && N.s == 1 && N.Mag() > 0 && 1 <= wsize <= 6
    requires A.s == -1 ==> A.Mag() < Place(|N.p|)
    requires |N.p| >= 1 && N.p[0] % 2 == 1 && Cong(N.p[0] * mm, -1, BASE)
    requires RR.s == 1 && |RR.p| >= 1 && RR.Mag() == RSquared(N)
    modifies X
    ensures fresh(T) && (forall w :: w in W ==> fresh(w)) && T !in W
    ensures X.s == 1 && Ready(N, mm, T) && Mont(X, N, 1) && Table(W, N, old(BaseOf(A, N)), wsize)
  {
    hide Val, Place, Cong, Pow, Ready, Mont, Table, RSquared, Distinct;
    ghost var a := BaseOf(A, N);
    W := NewTable();
    assert forall i :: 0 <= i < |W| ==> W[i] in W;
    assert W[1] !in {A, N, RR, X};
    T := new Mpi();
    assert T !in W;
    Grow(X, |N.p| + 1);
    Grow(T, (|N.p| + 1) * 2);
    ReadyAfter(N, mm, T);
    ToMont(W[1], A, N, RR, mm, T);
    MontOne(X, N, RR, mm, T);
    assert X !in W && N !in W;
    FillTable(W, N, mm, T, wsize, a);
  }

  /** The exponentiation proper, once the modulus is known to be odd. */
  method ExpWindow(X: Mpi, A: Mpi, E: Mpi, N: Mpi, RR: Mpi, mm: Limb, wsize: nat)
    requires X !in {E, N, RR} && A.Valid() && N.s == 1 && N.Mag() > 0 && 1 <= wsize <= 6
    requires A.s == -1 ==> A.Mag() < Place(|N.p|)
    requires |N.p| >= 1 && N.p[0] % 2 == 1 && Cong(N.p[0] * mm, -1, BASE)
    requires RR.s == 1 && |RR.p| >= 1 && RR.Mag() == RSquared(N)
    modifies X
    ensures X.s == 1 && X.Mag() == Pow(old(BaseOf(A, N)), E.Mag()) % N.Mag()
  {
    hide Val, Place, Cong, Pow, Ready, Mont, Table, RSquared, Distinct;
    ghost var a := BaseOf(A, N);
    OddValue(N.p);
    var W, T := ExpSetup(X, A, N, RR, mm, wsize);
    assert X !in W && N !in W;
    var nbits, wbits, done, pend := ScanExponent(X, E.p, N, mm, T, W, wsize, a);
    TableBase(W, N, a, wsize);
    FinishWindow(X, N, mm, T, W[1], wsize, nbits, wbits, a, done, pend);
    MontMag(X, N, Pow(a, E.Mag()));
    ghost var x := X.Mag();
    MontRed(X, N, mm, T);
    LeaveMont(x, X.Mag(), Pow(a, E.Mag()), |N.p|, N.Mag());
  }

  lemma TableBase(W: seq<Mpi>, N: Mpi, a: int, wsize: nat)
    requires Table(W, N, a, wsize)
    ensures |W| == 64 && Mont(W[1], N, a)
  {
  }

  lemma MontMag(X: Mpi, N: Mpi, v: int)
    requires Mont(X, N, v)
    ensures |X.p| > |N.p| && Residue(X.Mag(), v, |N.p|, N.Mag()) && X.Mag() < N.Mag()
  {
  }

  /** The power of a negative base that is used without its sign. */
  predicate SignLost(s: int, a: seq<Limb>, e: int, n: seq<Limb>) {
    s == -1 && Sig(a) >= Sig(n) && e % 2 == 1
  }

  lemma {:induction false} PowOpposite(a: int, e: nat)
    ensures Pow(-a, e) == if e % 2 == 0 then Pow(a, e) else -Pow(a, e)
  {
    if e > 0 {
      PowOpposite(a, e - 1);
    }
  }

  /** The power of the base that is used against the power of A. */
  lemma BasePower(A: Mpi, N: Mpi, e: nat)
    requires A.Valid() && N.Mag() > 0
    ensures Pow(BaseOf(A, N), e) % N.Mag() == Pow(A.Value(), e) % N.Mag()
            <==> !(SignLost(A.s, A.p, e, N.p) && 2 * Pow(A.Mag(), e) % N.Mag() != 0)
  {
    hide Val, Sig, Cong, Pow;
    var n := N.Mag();
    if A.s == -1 && Sig(A.p) >= Sig(N.p) {
      PowOpposite(A.Mag(), e);
      ModOpposite(Pow(A.Mag(), e), n);
      assert A.Value() == -A.Mag();
    } else if A.s == -1 {
      CongMod(A.Value(), n);
      CongPow(A.Value(), A.Value() % n, e, n);
      CongIff(Pow(A.Value(), e), Pow(A.Value() % n, e), n);
    }
  }

  /** X = A^E mod N, for every A that is not negative and longer than N; an odd power of a negative A can lose its sign. */
  method ExpMod(X: Mpi, A: Mpi, E: Mpi, N: Mpi, C: Mpi?) returns (ret: int)
    requires A.Valid() && N.Valid() && |N.p| >= 1 && |E.p| >= 1 && (A.s == -1 ==> A.Mag() < Place(|N.p|))
    requires X !in {E, N} && (C != null ==> C !in {X, A, E, N})
    requires C != null && N.Mag() > 0 ==> CacheOk(C, N)
    modifies X, C
    ensures ret == if N.Value() < 0 || N.p[0] % 2 == 0 then ERR_BAD_INPUT_DATA else 0
    ensures ret == 0 ==> N.Mag() > 0 && X.s == 1 && X.Mag() == Pow(old(BaseOf(A, N)), E.Mag()) % N.Mag()
    ensures ret == 0 ==>
              (X.Mag() == Pow(old(A.Value()), E.Mag()) % N.Mag() <==>
               !(old(SignLost(A.s, A.p, E.Mag(), N.p)) && 2 * Pow(old(A.Mag()), E.Mag()) % N.Mag() != 0))
    ensures ret == 0 && C != null ==> CacheOk(C, N) && C.p != [] && (old(C.p) != [] ==> C.p == old(C.p))
  {
    hide Val, Place, Cong, Pow, Mont, RSquared, Table, Sign, CacheOk, BaseOf, SignLost;
    var neg := CmpInt(N, 0);
    SignFacts(N.Value());
    if neg < 0 || N.p[0] % 2 == 0 {
      return ERR_BAD_INPUT_DATA;
    }
    OddValue(N.p);
    BasePower(A, N, E.Mag());
    var mm := MontgInit(N.p[0]);
    var bits := Msb(E);
    var wsize := WindowSize(bits);
    var RR := PrepareRR(N, C);
    ExpWindow(X, A, E, N, RR, mm, wsize);
    return 0;
  }


  /** -4 to the power 1 modulo 5 is 4, not 1. */
  method NegativeBaseExample() returns (X: Mpi)
    ensures X.Mag() == 4 && -4 % 5 == 1
  {
    hide Val, Pow, BaseOf, SignLost;
    var A := FromLimb(-1, 4);
    var E := FromLimb(1, 1);
    var N := FromLimb(1, 5);
    X := FromLimb(1, 0);
    NegativeBase(A, N);
    var ret := ExpMod(X, A, E, N, null);
  }

  lemma NegativeBase(A: Mpi, N: Mpi)
    requires A.s == -1 && A.Mag() == 4 && N.Mag() == 5
    ensures BaseOf(A, N) == 4 && Pow(4, 1) == 4 && Place(1) == BASE
  {
    hide Val;
    var four: seq<Limb> := [4];
    var five: seq<Limb> := [5];
    SmallValues(4, 0);
    SmallValues(5, 0);
    SigUnique(A.p, four);
    SigUnique(N.p, five);
  }
}
