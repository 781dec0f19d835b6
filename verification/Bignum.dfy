/** Multi-precision integers: the storage, comparison, addition, subtraction and product routines. */
module Bignum {
  import opened Arith
  import opened Common
  import opened Limbs

  /** A signed number; `p` holds the limbs (its length is the C field `n`). */
  class Mpi {
    var s: int
    var p: seq<Limb>

    constructor ()
      ensures s == 1 && p == []
    {
      s, p := 1, [];
    }

    ghost predicate Valid()
      reads this
    {
      s == 1 || s == -1
    }

    ghost function Mag(): (v: int)
      reads this
      ensures v >= 0
    {
      Val(p)
    }

    ghost function Value(): int
      reads this
    {
      s * Val(p)
    }
  }

  // ----- storage

  method Grow(X: Mpi, nblimbs: nat)
    modifies X`p
    ensures |X.p| == Max(|old(X.p)|, nblimbs)
    ensures X.p[..|old(X.p)|] == old(X.p)
    ensures forall i :: |old(X.p)| <= i < |X.p| ==> X.p[i] == 0
    ensures Val(X.p) == old(Val(X.p))
  {
    hide Val;
    if |X.p| < nblimbs {
      ValPad(X.p, nblimbs - |X.p|);
      X.p := X.p + Zeros(nblimbs - |X.p|);
    }
  }

  /** Limbs that `mpi_copy` transfers: the significant ones, but at least one if there are any. */
  function CopyLen(p: seq<Limb>): nat {
    if |p| == 0 then 0 else Max(1, Sig(p))
  }

  /** The buffer of `n` limbs that `mpi_copy` leaves behind when it copies `p` into it. */
  function Fit(p: seq<Limb>, n: nat): (r: seq<Limb>)
    ensures |r| == Max(n, CopyLen(p))
    ensures Val(r) == Val(p)
    ensures Sig(r) == Sig(p)
  {
    var k := CopyLen(p);
    var m := Max(n, k);
    ValPad(p[..k], m - k);
    ValPad(p[..k], |p| - k);
    assert p == p[..k] + Zeros(|p| - k);
    SigUnique(p[..k] + Zeros(m - k), p);
    p[..k] + Zeros(m - k)
  }

  method Copy(X: Mpi, Y: Mpi)
    modifies X
    ensures X.s == old(Y.s)
    ensures X.p == if X == Y then old(X.p) else Fit(Y.p, |old(X.p)|)
    ensures Val(X.p) == old(Val(Y.p)) && |X.p| >= |old(X.p)|
  {
    if X == Y {
      return;
    }
    var i := |Y.p| - 1;
    while i > 0
      invariant -1 <= i < |Y.p|
      invariant |Y.p| > 0 ==> i >= 0
      invariant forall k :: i < k < |Y.p| ==> Y.p[k] == 0
    {
      if Y.p[i] != 0 {
        break;
      }
      i := i - 1;
    }
    i := i + 1;
    CopyLenIs(Y.p, i);
    X.s := Y.s;
    Grow(X, i);
    X.p := Y.p[..i] + Zeros(|X.p| - i);
  }

  lemma CopyLenIs(p: seq<Limb>, i: nat)
    requires i <= |p| && (|p| > 0 ==> i >= 1)
    requires forall k :: i <= k < |p| ==> p[k] == 0
    requires i > 1 ==> p[i - 1] != 0
    ensures CopyLen(p) == i
  {
  }

  method Lset(X: Mpi, z: int)
    requires -BASE < z < BASE
    modifies X
    ensures X.s == (if z < 0 then -1 else 1) && X.Value() == z
    ensures |X.p| == Max(1, |old(X.p)|)
    ensures forall i :: 1 <= i < |X.p| ==> X.p[i] == 0
    ensures X.p[0] == if z < 0 then -z else z
  {
    Grow(X, 1);
    var a: Limb := if z < 0 then -z else z;
    X.p := [a] + Zeros(|X.p| - 1);
    ValPad([a], |X.p| - 1);
    assert Val([a]) == a by {
      assert [a][..0] == [];
    }
    X.s := if z < 0 then -1 else 1;
  }

  // ----- comparison

  method TopLimb(p: seq<Limb>) returns (i: int)
    ensures i == Sig(p) - 1
  {
    i := |p| - 1;
    while i >= 0
      invariant -1 <= i < |p|
      invariant forall k :: i < k < |p| ==> p[k] == 0
    {
      if p[i] != 0 {
        break;
      }
      i := i - 1;
    }
  }

  function Sign(x: int): int {
    if x > 0 then 1 else if x < 0 then -1 else 0
  }

  lemma SignFacts(x: int)
    ensures (Sign(x) >= 0 <==> x >= 0) && (Sign(x) > 0 <==> x > 0)
  {
  }

  method CmpAbs(X: Mpi, Y: Mpi) returns (r: int)
    ensures r == Sign(X.Mag() - Y.Mag())
  {
    hide Val, Place, Sig;
    var i := TopLimb(X.p);
    var j := TopLimb(Y.p);
    ValSig(X.p);
    ValSig(Y.p);
    if i < 0 && j < 0 {
      return 0;
    }
    if i > j {
      PlaceMono(j + 1, i);
      return 1;
    }
    if j > i {
      PlaceMono(i + 1, j);
      return -1;
    }
    r := CmpLimbs(X.p, Y.p, i + 1);
  }

  /** Downward limb comparison shared by the two compare routines. */
  method CmpLimbs(x: seq<Limb>, y: seq<Limb>, k: nat) returns (r: int)
    requires k <= |x| && k <= |y|
    ensures r == Sign(Val(x[..k]) - Val(y[..k]))
  {
    var i := k - 1;
    while i >= 0
      invariant -1 <= i < k
      invariant forall m :: i < m < k ==> x[m] == y[m]
    {
      if x[i] > y[i] {
        ValOrder(x[..k], y[..k], i);
        return 1;
      }
      if x[i] < y[i] {
        ValOrder(y[..k], x[..k], i);
        return -1;
      }
      i := i - 1;
    }
    assert x[..k] == y[..k];
    return 0;
  }

  /** The one situation in which `mpi_cmp_mpi` answers with the wrong sign. */
  predicate CmpMisleads(xs: int, x: seq<Limb>, ys: int, y: seq<Limb>) {
    Sig(x) < Sig(y) && xs != ys
  }

  lemma SignScale(s: int, a: int, b: int)
    requires s == 1 || s == -1
    ensures Sign(s * a - s * b) == s * Sign(a - b)
  {
  }

  method CmpMpi(X: Mpi, Y: Mpi) returns (r: int)
    requires X.Valid() && Y.Valid()
    ensures r == Sign(X.Value() - Y.Value()) <==> !CmpMisleads(X.s, X.p, Y.s, Y.p)
    ensures r == if CmpMisleads(X.s, X.p, Y.s, Y.p) then -Sign(X.Value() - Y.Value()) else Sign(X.Value() - Y.Value())
  {
    hide Val, Place, Sig;
    var i := TopLimb(X.p);
    var j := TopLimb(Y.p);
    ValSig(X.p);
    ValSig(Y.p);
    if i < 0 && j < 0 {
      return 0;
    }
    if i > j {
      PlaceMono(j + 1, i);
      return X.s;
    }
    if j > i {
      PlaceMono(i + 1, j);
      return -X.s;
    }
    if X.s > 0 && Y.s < 0 {
      return 1;
    }
    if Y.s > 0 && X.s < 0 {
      return -1;
    }
    r := CmpLimbs(X.p, Y.p, i + 1);
    SignScale(X.s, X.Mag(), Y.Mag());
    r := X.s * r;
  }

  /** Comparison with a small integer goes wrong only for a zero of the other sign. */
  method CmpInt(X: Mpi, z: int) returns (r: int)
    requires X.Valid() && -BASE < z < BASE
    ensures r == Sign(X.Value() - z) <==> !(X.Mag() == 0 && z != 0 && X.s != Sign(z))
    ensures r == if X.Mag() == 0 && z != 0 && X.s != Sign(z) then -Sign(X.Value() - z) else Sign(X.Value() - z)
  {
    var Y := new Mpi();
    Lset(Y, z);
    ValSig(Y.p);
    ValSig(X.p);
    SigIsOne(Y.p);
    r := CmpMpi(X, Y);
  }

  lemma SmallValues(a: Limb, b: Limb)
    ensures Val([a]) == a && Val([a, b]) == a + b * BASE
    ensures Sig([a]) == (if a == 0 then 0 else 1) && (b != 0 ==> Sig([a, b]) == 2)
  {
    assert [a, b][..1] == [a];
    assert Place(1) == BASE;
  }

  /** 5 compares below -2^32, and -2^32 below 5. */
  method CmpExample() returns (X: Mpi, Y: Mpi, r: int, back: int)
    ensures X.Value() == 5 && Y.Value() == -BASE && r == -1 && back == -1
  {
    hide Val, Sig;
    X := new Mpi();
    Y := new Mpi();
    X.p := [5];
    Y.s, Y.p := -1, [0, 1];
    SmallValues(5, 0);
    SmallValues(0, 1);
    assert X.Value() == 5 && Y.Value() == -BASE;
    r := CmpMpi(X, Y);
    back := CmpMpi(Y, X);
  }

  /** A zero with a minus sign compares above every positive number. */
  method NegativeZeroExample(z: int) returns (X: Mpi, r: int)
    requires 0 < z < BASE
    ensures X.s == -1 && X.Mag() == 0 && r == 1
  {
    hide Val, Sig;
    X := new Mpi();
    X.s, X.p := -1, [0];
    SmallValues(0, 0);
    assert X.Value() == 0;
    r := CmpInt(X, z);
  }

  lemma SigIsOne(p: seq<Limb>)
    requires |p| >= 1 && forall i :: 1 <= i < |p| ==> p[i] == 0
    ensures Sig(p) == if p[0] == 0 then 0 else 1
  {
  }

  // ----- subtraction

  /** One limb of a subtraction with borrow, wrapping as unsigned arithmetic does. */
  function SubCore(d: Limb, c: int, s: Limb): (r: (Limb, int))
    requires 0 <= c <= 1
    ensures 0 <= r.1 <= 1
    ensures r.0 == d - c - s + r.1 * BASE
  {
    var z := if d < c then 1 else 0;
    var e: Limb := (d - c) % BASE;
    var c' := (if e < s then 1 else 0) + z;
    SubLimb(d, c, s);
    ((e - s) % BASE, c')
  }

  lemma SubLimb(d: Limb, c: int, s: Limb)
    requires 0 <= c <= 1
    ensures var z := if d < c then 1 else 0;
            var e := (d - c) % BASE;
            var c' := (if e < s then 1 else 0) + z;
            0 <= c' <= 1 && (e - s) % BASE == d - c - s + c' * BASE
  {
  }

  lemma SubStart(d: seq<Limb>)
    ensures SubInv(d, d, 0, 0, 0) && Val([]) == 0
  {
  }

  lemma SubStep(V: int, w: int, c: int, V0: int, t: int, d: int, s: int, r: int, c': int)
    requires V - c * w == V0 - t && r == d - c - s + c' * BASE
    ensures (V + r * w) - c' * (BASE * w) == (V0 + d * w) - (t + s * w)
  {
  }

  /** The first `i` limbs of `d` minus `t`, with a borrow `c` pending, are in `p`. */
  ghost predicate SubInv(p: seq<Limb>, d: seq<Limb>, i: int, c: int, t: int) {
    && 0 <= i <= |p| == |d|
    && 0 <= c <= 1
    && p[i..] == d[i..]
    && Val(p[..i]) - c * Place(i) == Val(d[..i]) - t
  }

  lemma SubStore(p: seq<Limb>, d: seq<Limb>, i: int, c: int, t: int, s: Limb)
    requires SubInv(p, d, i, c, t) && i < |p|
    ensures var (r, c') := SubCore(p[i], c, s);
            SubInv(p[i := r], d, i + 1, c', t + s * Place(i)) && 0 <= c' <= 1
  {
    var (r, c') := SubCore(p[i], c, s);
    StoreLimb(p, d, i, r);
    SubStep(Val(p[..i]), Place(i), c, Val(d[..i]), t, p[i], s, r, c');
  }

  /** A pending borrow has a limb to go to as long as the difference is not negative. */
  lemma SubFits(p: seq<Limb>, d: seq<Limb>, i: int, c: int, t: int)
    requires SubInv(p, d, i, c, t) && t <= Val(d)
    ensures c == 1 ==> i < |p|
    ensures c == 0 ==> Val(p) == Val(d) - t
  {
    hide Val, Place;
    if i == |p| {
      assert p[..i] == p && d[..i] == d;
    }
    if c == 0 {
      ValSplit(p, i);
      ValSplit(d, i);
    }
  }

  method SubHlp(n: nat, s: seq<Limb>, D: Mpi)
    requires n <= |s| && n <= |D.p|
    requires Val(s[..n]) <= Val(D.p)
    modifies D`p
    ensures |D.p| == |old(D.p)|
    ensures Val(D.p) == old(Val(D.p)) - Val(s[..n])
  {
    hide Val, Place, SubInv;
    ghost var d0 := D.p;
    var i, c := 0, 0;
    SubStart(d0);
    assert s[..0] == [];
    while i < n
      invariant 0 <= i <= n && 0 <= c <= 1 && |D.p| == |d0|
      invariant SubInv(D.p, d0, i, c, Val(s[..i]))
    {
      SubStore(D.p, d0, i, c, Val(s[..i]), s[i]);
      ValTake(s, i);
      var (r, c') := SubCore(D.p[i], c, s[i]);
      D.p := D.p[i := r];
      c := c';
      i := i + 1;
    }
    SubFits(D.p, d0, i, c, Val(s[..n]));
    while c != 0
      invariant n <= i <= |D.p| == |d0| && 0 <= c <= 1
      invariant SubInv(D.p, d0, i, c, Val(s[..n]))
      invariant c == 1 ==> i < |D.p|
      invariant c == 0 ==> Val(D.p) == Val(d0) - Val(s[..n])
      decreases |D.p| - i, c
    {
      SubStore(D.p, d0, i, c, Val(s[..n]), 0);
      var (r, c') := SubCore(D.p[i], c, 0);
      D.p := D.p[i := r];
      c := c';
      i := i + 1;
      SubFits(D.p, d0, i, c, Val(s[..n]));
    }
  }

  // ----- addition of a multiple, in place

  /** The first `i` limbs of `d` plus `t`, with a carry `c` pending, are in `p`. */
  ghost predicate AddInv(p: seq<Limb>, d: seq<Limb>, i: int, c: int, t: int) {
    && 0 <= i <= |p| == |d|
    && 0 <= c < BASE
    && p[i..] == d[i..]
    && Val(p[..i]) + c * Place(i) == Val(d[..i]) + t
  }

  lemma AddStart(d: seq<Limb>)
    ensures AddInv(d, d, 0, 0, 0) && Val([]) == 0
  {
  }

  lemma AddStep(V: int, w: int, c: int, V0: int, t: int, d: int, x: int, r: int, c': int)
    requires V + c * w == V0 + t && r + c' * BASE == d + c + x
    ensures (V + r * w) + c' * (BASE * w) == (V0 + d * w) + (t + x * w)
  {
  }

  lemma AddStore(p: seq<Limb>, d: seq<Limb>, i: int, c: int, t: int, x: int, r: Limb, c': Limb)
    requires AddInv(p, d, i, c, t) && i < |p|
    requires r + c' * BASE == x + c + p[i]
    ensures AddInv(p[i := r], d, i + 1, c', t + x * Place(i))
  {
    StoreLimb(p, d, i, r);
    AddStep(Val(p[..i]), Place(i), c, Val(d[..i]), t, p[i], x, r, c');
  }

  /** A pending carry has a limb to go to as long as the sum fits. */
  lemma AddFits(p: seq<Limb>, d: seq<Limb>, i: int, c: int, t: int)
    requires AddInv(p, d, i, c, t) && Val(d) + t < Place(|d|)
    ensures c != 0 ==> i < |p|
    ensures c == 0 ==> Val(p) == Val(d) + t
  {
    hide Val, Place;
    if i == |p| {
      assert p[..i] == p && d[..i] == d;
      MulSign(c, Place(i));
    }
    if c == 0 {
      ValSplit(p, i);
      ValSplit(d, i);
    }
  }

  /** Carry propagation: one limb plus the carry, which becomes 0 or 1. */
  function CarryCore(d: Limb, c: Limb): (r: (Limb, Limb))
    ensures r.0 + r.1 * BASE == d + c && r.1 <= 1
  {
    AddCarry(d, c);
    var x: Limb := (d + c) % BASE;
    (x, if x < c then 1 else 0)
  }

  lemma MulPrefix(s: seq<Limb>, i: nat, b: int)
    requires i < |s|
    ensures Val(s[..i + 1]) * b == Val(s[..i]) * b + (s[i] * b) * Place(i)
  {
    hide Val, Place;
    ValTake(s, i);
    var u, x, w := Val(s[..i]), s[i], Place(i);
    assert (u + x * w) * b == u * b + (x * b) * w;
  }

  /** AddInv on the part of the buffer from limb `off` on; the limbs below are untouched. */
  ghost predicate MulInv(p: seq<Limb>, d: seq<Limb>, off: nat, i: int, c: int, t: int) {
    && off <= |p| == |d|
    && p[..off] == d[..off]
    && AddInv(p[off..], d[off..], i, c, t)
  }

  lemma MulStore(p: seq<Limb>, d: seq<Limb>, off: nat, i: int, c: Limb, s: seq<Limb>, b: Limb)
    requires 0 <= i < |s| && off + i < |p|
    requires MulInv(p, d, off, i, c, Val(s[..i]) * b)
    ensures var (r, c') := MulAddCore(s[i], b, c, p[off + i]);
            MulInv(p[off + i := r], d, off, i + 1, c', Val(s[..i + 1]) * b)
  {
    var (r, c') := MulAddCore(s[i], b, c, p[off + i]);
    AddStore(p[off..], d[off..], i, c, Val(s[..i]) * b, s[i] * b, r, c');
    MulPrefix(s, i, b);
    StoreAt(p, off, i, r);
  }

  lemma CarryStore(p: seq<Limb>, d: seq<Limb>, off: nat, i: int, c: Limb, t: int)
    requires 0 <= i && off + i < |p|
    requires MulInv(p, d, off, i, c, t)
    ensures var (r, c') := CarryCore(p[off + i], c);
            MulInv(p[off + i := r], d, off, i + 1, c', t)
  {
    var (r, c') := CarryCore(p[off + i], c);
    AddStore(p[off..], d[off..], i, c, t, 0, r, c');
    StoreAt(p, off, i, r);
  }

  lemma StoreAt(p: seq<Limb>, off: nat, i: nat, r: Limb)
    requires off + i < |p|
    ensures p[off + i := r][..off] == p[..off]
    ensures p[off + i := r][off..] == p[off..][i := r]
  {
  }

  /** D, from limb `off` on, gains b times the first n limbs of s. */
  method MulHlp(n: nat, s: seq<Limb>, D: Mpi, off: nat, b: Limb)
    requires n <= |s| && off + n < |D.p|
    requires Val(D.p[off..]) + Val(s[..n]) * b < Place(|D.p| - off)
    modifies D`p
    ensures |D.p| == |old(D.p)| && D.p[..off] == old(D.p)[..off]
    ensures Val(D.p[off..]) == old(Val(D.p[off..])) + Val(s[..n]) * b
  {
    hide Val, Place, AddInv;
    ghost var d0 := D.p;
    var i, c: Limb := 0, 0;
    AddStart(d0[off..]);
    assert s[..0] == [];
    while i < n
      invariant 0 <= i <= n
      invariant MulInv(D.p, d0, off, i, c, Val(s[..i]) * b)
    {
      MulStore(D.p, d0, off, i, c, s, b);
      var (r, c') := MulAddCore(s[i], b, c, D.p[off + i]);
      D.p := D.p[off + i := r];
      c := c';
      i := i + 1;
    }
    ghost var t := Val(s[..n]) * b;
    while true
      invariant n <= i && off + i < |D.p|
      invariant MulInv(D.p, d0, off, i, c, t)
      decreases |D.p| - i
    {
      CarryStore(D.p, d0, off, i, c, t);
      var (r, c') := CarryCore(D.p[off + i], c);
      D.p := D.p[off + i := r];
      c := c';
      i := i + 1;
      AddFits(D.p[off..], d0[off..], i, c, t);
      if c == 0 {
        break;
      }
    }
  }

  const ERR_NEGATIVE_VALUE := -0x000A

  /** X = |A| - |B|, or an error and no change. */
  method SubAbs(X: Mpi, A: Mpi, B: Mpi) returns (ret: int)
    modifies X
    ensures ret == 0 <==> old(A.Mag() >= B.Mag())
    ensures ret != 0 ==> ret == ERR_NEGATIVE_VALUE && X.p == old(X.p) && X.s == old(X.s)
    ensures ret == 0 ==> X.s == old(A.s) && X.Mag() == old(A.Mag() - B.Mag())
    ensures ret == 0 ==> |X.p| == if X == A then |old(X.p)| else Max(|old(X.p)|, CopyLen(A.p))
  {
    hide Val, Place, Sig;
    var cmp := CmpAbs(A, B);
    if cmp < 0 {
      return ERR_NEGATIVE_VALUE;
    }
    var b := B.p;
    if X == B {
      var TB := new Mpi();
      Copy(TB, B);
      SigUnique(TB.p, B.p);
      b := TB.p;
    }
    if X != A {
      Copy(X, A);
    }
    var n := TopLimb(b);
    ValSig(b);
    ValSig(X.p);
    SigMono(b, X.p);
    SubHlp(n + 1, b, X);
    return 0;
  }

  lemma SigMono(p: seq<Limb>, q: seq<Limb>)
    requires Val(p) <= Val(q)
    ensures Sig(p) <= Sig(q)
  {
    ValSig(q);
    SigBelow(p, Sig(q));
  }

  // ----- addition

  /** One limb of an addition with carry. */
  function AddCore(d: Limb, c: Limb, o: Limb): (r: (Limb, Limb))
    requires c <= 1
    ensures r.0 + r.1 * BASE == o + c + d && r.1 <= 1
  {
    AddCarry(d, c);
    var x: Limb := (d + c) % BASE;
    var c1 := if x < c then 1 else 0;
    AddCarry(x, o);
    var y: Limb := (x + o) % BASE;
    (y, c1 + (if y < o then 1 else 0))
  }

  /**
   * The addition of `b` into the buffer `x` loses its carry: the carry out of the low part
   * meets a full limb that is not the last one, and the carry loop adds to that limb again.
   */
  ghost predicate CarryLost(x: seq<Limb>, b: seq<Limb>) {
    var m := Sig(b);
    && m + 1 < |x|
    && x[m] == BASE - 1
    && Val(x[..m]) + Val(b) >= Place(m)
  }

  /** 2^64 - 1 and 1, with a third limb in the buffer: the sum comes out as 2^32. */
  method CarryExample() returns (X: Mpi)
    ensures X.Mag() == 0x1_0000_0000
  {
    hide Val, Sig, Place, CarryLost, Lost;
    var B := new Mpi();
    X := new Mpi();
    X.p, B.p := [0xFFFF_FFFF, 0xFFFF_FFFF, 0], [1];
    CarryExampleLost();
    AddAbs(X, X, B);
  }

  /** What a lost carry takes from the sum: it is added one limb too low. */
  ghost function Lost(x: seq<Limb>, b: seq<Limb>): (r: int)
    ensures r >= 0 && (r == 0 <==> !CarryLost(x, b))
  {
    if CarryLost(x, b) then Place(Sig(b) + 1) - Place(Sig(b)) else 0
  }

  lemma CarryExampleLost()
    ensures CarryLost([0xFFFF_FFFF, 0xFFFF_FFFF, 0], [1])
    ensures Val([0xFFFF_FFFF, 0xFFFF_FFFF, 0]) + Val([1]) == 0x1_0000_0000_0000_0000
    ensures Lost([0xFFFF_FFFF, 0xFFFF_FFFF, 0], [1]) == 0xFFFF_FFFF_0000_0000
  {
    var x: seq<Limb> := [0xFFFF_FFFF, 0xFFFF_FFFF, 0];
    SmallValues(0xFFFF_FFFF, 0xFFFF_FFFF);
    SmallValues(1, 0);
    assert Place(2) == BASE * BASE;
    assert x[..1] == [0xFFFF_FFFF] && x[..2] == [0xFFFF_FFFF, 0xFFFF_FFFF];
    assert Place(1) == BASE;
  }

  /** A number added to itself in place: 2^31 becomes 0. */
  method SelfExample() returns (X: Mpi)
    ensures X.Mag() == 0
  {
    X := new Mpi();
    X.p := [0x8000_0000];
    AddAbs(X, X, X);
    assert X.p == [0];
    SmallValues(0, 0);
  }

  lemma AddStoreLimb(p: seq<Limb>, d: seq<Limb>, i: nat, c: Limb, o: seq<Limb>)
    requires i < |o| && i < |p| && c <= 1
    requires AddInv(p, d, i, c, Val(o[..i]))
    ensures var (r, c') := AddCore(p[i], c, o[i]);
            AddInv(p[i := r], d, i + 1, c', Val(o[..i + 1]))
  {
    var (r, c') := AddCore(p[i], c, o[i]);
    AddStore(p, d, i, c, Val(o[..i]), o[i], r, c');
    ValTake(o, i);
  }

  /** The limbs that receive the sum in `mpi_add_abs`, before the addition starts. */
  ghost function SumBuffer(X: Mpi, A: Mpi, B: Mpi): seq<Limb>
    reads X, A, B
  {
    if X == B then X.p else if X == A then A.p else Fit(A.p, |X.p|)
  }

  ghost function Addend(X: Mpi, A: Mpi, B: Mpi): seq<Limb>
    reads X, A, B
  {
    if X == B then A.p else B.p
  }

  /** Where the carry loop of `mpi_add_abs` can be: `i` counts limbs, `q` is the limb it adds to. */
  ghost predicate CarryLoop(p: seq<Limb>, d: seq<Limb>, b: seq<Limb>, i: int, q: int, c: int) {
    var m := Sig(b);
    && m <= |d|
    && 0 <= c <= 1
    && if i == m then
         q == m && AddInv(p, d, m, c, Val(b))
       else if i == m + 1 && c == 1 then
         && q == m && m < |d| == |p| && d[m] == BASE - 1 && p[m] == 0
         && AddInv(p, d, m + 1, 1, Val(b))
         && Val(d[..m]) + Val(b) >= Place(m)
       else
         && c == 0
         && m < i <= m + 2
         && Val(p) == Val(d) + Val(b) - Lost(d, b)
         && (|p| == |d| || (|p| == |d| + 1 && Val(p) >= Place(|d|)))
  }

  lemma CarryDone(p: seq<Limb>, d: seq<Limb>, b: seq<Limb>, i: int, q: int)
    requires CarryLoop(p, d, b, i, q, 0)
    ensures Val(p) == Val(d) + Val(b) - Lost(d, b)
    ensures |p| == if Val(p) < Place(|d|) then |d| else |d| + 1
  {
    var m := Sig(b);
    if i == m {
      ValSplit(p, m);
      ValSplit(d, m);
    }
  }

  /** First turn of the carry loop. */
  lemma CarryFirst(p: seq<Limb>, d: seq<Limb>, b: seq<Limb>)
    requires CarryLoop(p, d, b, Sig(b), Sig(b), 1)
    ensures var m := Sig(b);
            var p' := if m < |p| then p else p + Zeros(1);
            var (r, c) := CarryCore(p'[m], 1);
            CarryLoop(p'[m := r], d, b, m + 1, m, c)
  {
    hide Val, Sig;
    var m := Sig(b);
    var t := Val(b);
    if m < |p| {
      var (r, c) := CarryCore(p[m], 1);
      AddStore(p, d, m, 1, t, 0, r, c);
      if c == 0 {
        ValSplit(p[m := r], m + 1);
        ValSplit(d, m + 1);
        StoreLimb(p, d, m, r);
      }
    } else {
      assert p[..m] == p && d[..m] == d;
      assert (p + Zeros(1))[m := 1] == p + [1];
      ValSnoc(p, 1);
    }
  }

  /** Second turn: the last limb overflowed, or the carry goes to the wrong limb. */
  lemma CarrySecond(p: seq<Limb>, d: seq<Limb>, b: seq<Limb>)
    requires CarryLoop(p, d, b, Sig(b) + 1, Sig(b), 1)
    ensures var m := Sig(b);
            var p', q := if m + 1 < |p| then p else p + Zeros(1), if m + 1 < |p| then m else m + 1;
            var (r, c) := CarryCore(p'[q], 1);
            CarryLoop(p'[q := r], d, b, m + 2, q, c)
  {
    hide Val, Sig;
    var m := Sig(b);
    if m + 1 < |p| {
      assert p[m := 1][..m + 1] == p[..m] + [1];
      assert p[m := 1][m + 1..] == p[m + 1..];
      ValSplit(p[m := 1], m + 1);
      ValTake(p[m := 1], m);
      assert p[m := 1][..m] == p[..m];
      ValTake(p, m);
      ValSplit(d, m + 1);
    } else {
      assert p[..m + 1] == p && d[..m + 1] == d;
      assert (p + Zeros(1))[m + 1 := 1] == p + [1];
      ValSnoc(p, 1);
    }
  }

  /** A buffer that is small against the addend's limbs loses no carry. */
  lemma NoLoss(x: seq<Limb>, b: seq<Limb>)
    requires Sig(b) > 0 ==> Val(x) < (BASE - 1) * Place(Sig(b))
    ensures !CarryLost(x, b)
  {
    hide Place;
    var m := Sig(b);
    ValSig(b);
    if m + 1 < |x| && x[m] == BASE - 1 {
      ValSplit(x, m + 1);
      ValTake(x, m);
      MulLe(0, Val(x[m + 1..]), Place(m + 1));
    }
  }

  lemma GrownCarry(x: seq<Limb>, d: seq<Limb>, b: seq<Limb>)
    requires |x| <= |d| && d[..|x|] == x && |d| == Max(|x|, Sig(b))
    ensures CarryLost(d, b) == CarryLost(x, b) && Lost(d, b) == Lost(x, b)
  {
    if |x| >= Sig(b) {
      assert d == x;
    }
  }

  /** How many limbs a buffer has after the addition: it grows for the addend, and for a carry out of the top. */
  ghost function SumLen(x: seq<Limb>, b: seq<Limb>): nat {
    var n := Max(|x|, Sig(b));
    if Val(x) + Val(b) - Lost(x, b) < Place(n) then n else n + 1
  }

  /** The addition proper: the limbs of b are added into the buffer of X. */
  method AddInto(X: Mpi, b: seq<Limb>)
    modifies X`p
    ensures X.Mag() == old(X.Mag()) + Val(b) - Lost(old(X.p), b)
    ensures |X.p| == SumLen(old(X.p), b)
  {
    hide Val, Place, Sig, AddInv, CarryLost, Lost;
    ghost var x := X.p;
    var j := TopLimb(b);
    ValSig(b);
    Grow(X, j + 1);
    ghost var d0 := X.p;
    GrownCarry(x, d0, b);
    var i, c: Limb := 0, 0;
    AddStart(d0);
    assert b[..0] == [];
    while i <= j
      invariant 0 <= i <= j + 1 && c <= 1 && |X.p| == |d0|
      invariant AddInv(X.p, d0, i, c, Val(b[..i]))
    {
      AddStoreLimb(X.p, d0, i, c, b);
      var (r, c') := AddCore(X.p[i], c, b[i]);
      X.p := X.p[i := r];
      c := c';
      i := i + 1;
    }
    var q := i;
    while c != 0
      invariant CarryLoop(X.p, d0, b, i, q, c) && |X.p| >= |d0|
      decreases j + 4 - i
    {
      if i == j + 1 {
        CarryFirst(X.p, d0, b);
      } else {
        CarrySecond(X.p, d0, b);
      }
      if i >= |X.p| {
        X.p := X.p + Zeros(i + 1 - |X.p|);
        q := i;
      }
      var (r, c') := CarryCore(X.p[q], c);
      X.p := X.p[q := r];
      c := c';
      i := i + 1;
    }
    CarryDone(X.p, d0, b, i, q);
  }

  /** Every limb doubled, without carries. */
  function Doubled(p: seq<Limb>): seq<Limb> {
    seq(|p|, i requires 0 <= i < |p| => 2 * p[i] % BASE)
  }

  /** The bits that doubling pushes out of the limbs. */
  function Overflow(p: seq<Limb>): seq<Limb> {
    seq(|p|, i requires 0 <= i < |p| => 2 * p[i] / BASE)
  }

  lemma DoubledTerm(u: int, v: int, w: int, x: int, d: int, o: int, pl: int)
    requires d + BASE * o == 2 * x && u + BASE * v == 2 * w
    ensures u + d * pl + BASE * (v + o * pl) == 2 * (w + x * pl)
  {
  }

  lemma {:induction false} DoubledValue(p: seq<Limb>)
    ensures Val(Doubled(p)) + BASE * Val(Overflow(p)) == 2 * Val(p)
    decreases |p|
  {
    hide Place;
    if p != [] {
      var k := |p| - 1;
      DoubledValue(p[..k]);
      var d, o := Doubled(p), Overflow(p);
      assert d[..k] == Doubled(p[..k]) && o[..k] == Overflow(p[..k]);
      DoubledTerm(Val(d[..k]), Val(o[..k]), Val(p[..k]), p[k], d[k], o[k], Place(k));
    }
  }

  /** Doubling without carries is exact if and only if no limb overflows. */
  lemma DoubledExact(p: seq<Limb>)
    ensures Val(Doubled(p)) == 2 * Val(p) <==> forall x <- p :: x < BASE / 2
  {
    hide Val, Place, Sig;
    DoubledValue(p);
    ValSig(Overflow(p));
    if Sig(Overflow(p)) > 0 {
      var k := Sig(Overflow(p)) - 1;
      assert p[k] in p && p[k] >= BASE / 2;
    } else {
      forall x | x in p
        ensures x < BASE / 2
      {
        var k :| 0 <= k < |p| && p[k] == x;
        assert Overflow(p)[k] == 0;
      }
    }
  }

  /** mpi_add_abs with one object for all three numbers: source and target limb are the same, so no carry is ever seen. */
  method AddSelf(X: Mpi)
    modifies X`p
    ensures X.p == Doubled(old(X.p))
  {
    ghost var d := X.p;
    var j := TopLimb(X.p);
    for i := 0 to j + 1
      invariant |X.p| == |d| && forall k :: 0 <= k < |d| ==> X.p[k] == if k < i then 2 * d[k] % BASE else d[k]
    {
      var x: Limb := 2 * X.p[i] % BASE;
      X.p := X.p[i := x];
    }
  }

  /** When `mpi_add_abs` does not give the sum. */
  ghost predicate SumFails(X: Mpi, A: Mpi, B: Mpi)
    reads X, A, B
  {
    if X == A && X == B then exists x <- X.p :: x >= BASE / 2
    else CarryLost(SumBuffer(X, A, B), Addend(X, A, B))
  }

  /** X = |A| + |B|, exactly when no carry is lost. */
  method AddAbs(X: Mpi, A: Mpi, B: Mpi)
    modifies X
    ensures X.Mag() == old(A.Mag() + B.Mag()) <==> !old(SumFails(X, A, B))
    ensures X == A && X == B ==> X.p == Doubled(old(X.p))
    ensures !(X == A && X == B) ==> X.Mag() == old(A.Mag() + B.Mag() - Lost(SumBuffer(X, A, B), Addend(X, A, B)))
    ensures |X.p| >= |old(X.p)| && (X == A && X != B ==> |X.p| == SumLen(old(X.p), B.p))
  {
    hide Val, Place, Sig, Fit, CarryLost, Lost;
    var A', B' := A, B;
    if X == B {
      A', B' := X, A;
    }
    if X != A' {
      Copy(X, A');
    }
    if X == B' {
      DoubledExact(X.p);
      AddSelf(X);
    } else {
      AddInto(X, B'.p);
    }
  }

  // ----- signed addition and subtraction

  lemma SignedSum(s: int, m: int, a: int, b: int)
    requires s == 1 || s == -1
    ensures s * m == s * a + s * b <==> m == a + b
  {
  }

  lemma EqualSigns(a: int, b: int)
    requires (a == 1 || a == -1) && (b == 1 || b == -1)
    ensures (a * b > 0 <==> a == b) && (a * b < 0 <==> a != b)
  {
  }

  lemma SignedDifference(s: int, a: int, b: int)
    requires s == 1 || s == -1
    ensures s * (a - b) == s * a - s * b && -s * (b - a) == s * a - s * b
    ensures -s * b == -(s * b)
  {
  }

  /** How many limbs a buffer has after the difference with b. */
  ghost function DiffLen(x: seq<Limb>, b: seq<Limb>): nat {
    if Val(x) >= Val(b) then |x| else Max(|x|, CopyLen(b))
  }

  method AddMpi(X: Mpi, A: Mpi, B: Mpi)
    requires A.Valid() && B.Valid()
    modifies X
    ensures X.Valid() && |X.p| >= |old(X.p)|
    ensures X.Value() == old(A.Value() + B.Value()) <==> !old(A.s == B.s && SumFails(X, A, B))
    ensures X.s == (if old(A.s == B.s || A.Mag() >= B.Mag()) then old(A.s) else -old(A.s))
    ensures old(A.s == B.s) && !(X == A && X == B) ==>
              && X.Mag() == old(A.Mag() + B.Mag() - Lost(SumBuffer(X, A, B), Addend(X, A, B)))
              && (X == A ==> |X.p| == SumLen(old(X.p), B.p))
    ensures old(A.s != B.s) && X == A ==> |X.p| == DiffLen(old(X.p), B.p)
  {
    hide Val, CarryLost, SumFails, Lost, Doubled, SumLen;
    var s := A.s;
    var ret := 0;
    EqualSigns(A.s, B.s);
    SignedDifference(s, A.Mag(), B.Mag());
    if A.s * B.s < 0 {
      var cmp := CmpAbs(A, B);
      if cmp >= 0 {
        ret := SubAbs(X, A, B);
        X.s := s;
      } else {
        ret := SubAbs(X, B, A);
        X.s := -s;
      }
    } else {
      AddAbs(X, A, B);
      X.s := s;
      SignedSum(s, X.Mag(), old(A.Mag()), old(B.Mag()));
    }
  }

  method SubMpi(X: Mpi, A: Mpi, B: Mpi)
    requires A.Valid() && B.Valid()
    modifies X
    ensures X.Valid() && |X.p| >= |old(X.p)|
    ensures X.Value() == old(A.Value() - B.Value())
            <==> !old(A.s != B.s && SumFails(X, A, B))
    ensures X.s == (if old(A.s != B.s || A.Mag() >= B.Mag()) then old(A.s) else -old(A.s))
    ensures old(A.s != B.s) ==> X.Mag() == old(A.Mag() + B.Mag() - Lost(SumBuffer(X, A, B), Addend(X, A, B)))
    ensures X == A && X != B ==>
              |X.p| == if old(A.s != B.s) then SumLen(old(X.p), B.p) else DiffLen(old(X.p), B.p)
  {
    hide Val, CarryLost, SumFails, Lost, Doubled, SumLen;
    var s := A.s;
    var ret := 0;
    EqualSigns(A.s, B.s);
    SignedDifference(s, A.Mag(), B.Mag());
    if A.s * B.s > 0 {
      var cmp := CmpAbs(A, B);
      if cmp >= 0 {
        ret := SubAbs(X, A, B);
        X.s := s;
      } else {
        ret := SubAbs(X, B, A);
        X.s := -s;
      }
    } else {
      AddAbs(X, A, B);
      X.s := s;
      SignedSum(s, X.Mag(), old(A.Mag()), old(B.Mag()));
    }
  }

  // ----- product

  /** Limbs j.. of the product of `a` (i limbs) and the limbs j.. of `b`; the limbs below are zero. */
  ghost predicate ProductInv(x: seq<Limb>, a: seq<Limb>, b: seq<Limb>, j: int) {
    && 0 <= j <= |b|
    && |x| >= |a| + |b| && |x| >= 1
    && x[..j] == Zeros(j)
    && Val(x[j..]) == Val(a) * Val(b[j..])
  }

  lemma ProductStart(x: seq<Limb>, a: seq<Limb>, b: seq<Limb>)
    requires |x| >= |a| + |b| && |x| >= 1 && x == Zeros(|x|)
    ensures ProductInv(x, a, b, |b|)
  {
    ValZeros(|x| - |b|);
    assert x[|b|..] == Zeros(|x| - |b|);
    assert b[|b|..] == [];
  }

  /** Before limb j is added: what the buffer holds there, and that the sum has room. */
  lemma ProductRoom(x: seq<Limb>, a: seq<Limb>, b: seq<Limb>, j: int)
    requires ProductInv(x, a, b, j) && j > 0
    ensures Val(x[j - 1..]) + Val(a) * b[j - 1] == Val(a) * Val(b[j - 1..])
    ensures Val(a) * Val(b[j - 1..]) < Place(|x| - (j - 1))
  {
    hide Val, Place;
    var k := j - 1;
    assert x[k..] == [0] + x[j..] by {
      assert x[k] == x[..j][k] == 0;
    }
    ValCons(0, x[j..]);
    assert b[k..] == [b[k]] + b[j..];
    ValCons(b[k], b[j..]);
    ProductShift(Val(a), b[k], Val(b[j..]));
    PlaceAdd(|a|, |b| - k);
    PlaceMono(|a| + |b| - k, |x| - k);
    ProductBound(Val(a), Place(|a|), Val(b[k..]), Place(|b| - k));
  }

  lemma ProductNext(x: seq<Limb>, y: seq<Limb>, a: seq<Limb>, b: seq<Limb>, j: int)
    requires 0 <= j && ProductInv(x, a, b, j + 1)
    requires |y| == |x| && y[..j] == x[..j] && Val(y[j..]) == Val(x[j..]) + Val(a) * b[j]
    ensures ProductInv(y, a, b, j)
  {
    ProductRoom(x, a, b, j + 1);
    assert x[..j] == x[..j + 1][..j] == Zeros(j + 1)[..j] == Zeros(j);
  }

  lemma ProductDone(x: seq<Limb>, a: seq<Limb>, b: seq<Limb>)
    requires ProductInv(x, a, b, 0)
    ensures Val(x) == Val(a) * Val(b)
  {
  }

  lemma ProductShift(a: int, x: int, v: int)
    ensures BASE * (a * v) + a * x == a * (x + BASE * v)
  {
  }

  lemma ProductBound(a: int, A: int, b: int, B: int)
    requires 0 <= a < A && 0 <= b < B
    ensures a * b < A * B
  {
  }

  lemma SignProduct(s: int, t: int)
    requires (s == 1 || s == -1) && (t == 1 || t == -1)
    ensures s * t == (if s == t then 1 else -1)
  {
  }

  /** The schoolbook loop: X receives the product of two limb buffers that are not its own. */
  method MulLimbs(X: Mpi, a: seq<Limb>, b: seq<Limb>)
    modifies X
    ensures |X.p| >= |old(X.p)| && |X.p| >= 1
    ensures Val(X.p) == Val(a) * Val(b)
  {
    hide Val, Place, Sig, ProductInv;
    var i := TopLimb(a);
    var j := TopLimb(b);
    ValSig(a);
    ValSig(b);
    Grow(X, i + j + 2);
    Lset(X, 0);
    i := i + 1;
    ghost var a', b' := a[..i], b[..j + 1];
    assert X.p == Zeros(|X.p|);
    ProductStart(X.p, a', b');
    while j >= 0
      invariant -1 <= j < |b'|
      invariant ProductInv(X.p, a', b', j + 1)
      invariant |X.p| >= |old(X.p)| && |X.p| >= |a'| + |b'| && |X.p| >= 1
    {
      ghost var x := X.p;
      ProductRoom(x, a', b', j + 1);
      MulHlp(i, a, X, j, b[j]);
      ProductNext(x, X.p, a', b', j);
      j := j - 1;
    }
    ProductDone(X.p, a', b');
  }

  method MulMpi(X: Mpi, A: Mpi, B: Mpi)
    requires A.Valid() && B.Valid()
    modifies X
    ensures X.Valid() && |X.p| >= |old(X.p)| && |X.p| >= 1
    ensures X.s == old(A.s * B.s) && X.Mag() == old(A.Mag() * B.Mag())
  {
    hide Val;
    SignProduct(A.s, B.s);
    var A', B' := A, B;
    if X == A {
      var TA := new Mpi();
      Copy(TA, A);
      A' := TA;
    }
    if X == B {
      var TB := new Mpi();
      Copy(TB, B);
      B' := TB;
    }
    MulLimbs(X, A'.p, B'.p);
    X.s := A'.s * B'.s;
  }

  method MulInt(X: Mpi, A: Mpi, b: Limb)
    requires A.Valid()
    modifies X
    ensures X.Valid() && |X.p| >= |old(X.p)| && |X.p| >= 1
    ensures X.s == old(A.s) && X.Mag() == old(A.Mag()) * b
  {
    hide Val;
    var B := new Mpi();
    B.p := [b];
    ValCons(b, []);
    assert [b] + [] == [b];
    MulMpi(X, A, B);
  }
}
