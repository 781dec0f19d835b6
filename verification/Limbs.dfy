/** Little-endian limb sequences and the number they stand for (32-bit build of `t_int`). */
module Limbs {
  import opened Arith

  const BITS: nat := 32
  const BASE: int := 0x1_0000_0000

  type Limb = x: int | 0 <= x < 0x1_0000_0000

  /** Weight of limb `k`. */
  function Place(k: nat): (r: int)
    ensures r > 0
  {
    PowPos(BASE, k);
    Pow(BASE, k)
  }

  function Val(p: seq<Limb>): (v: int)
    ensures 0 <= v < Place(|p|)
  {
    if |p| == 0 then 0 else
      var k := |p| - 1;
      var x: int := p[k];
      MulLe(0, x, Place(k));
      MulLe(x + 1, BASE, Place(k));
      Val(p[..k]) + p[k] * Place(k)
  }

  function Zeros(k: nat): (z: seq<Limb>)
    ensures |z| == k && forall i :: 0 <= i < k ==> z[i] == 0
  {
    seq(k, _ => 0)
  }

  lemma PlaceAdd(i: nat, j: nat)
    ensures Place(i + j) == Place(i) * Place(j)
  {
    PowAdd(BASE, i, j);
  }

  lemma PlaceNext(k: nat)
    ensures Place(k + 1) == BASE * Place(k)
  {
  }

  lemma PlaceMono(i: nat, j: nat)
    requires i <= j
    ensures Place(i) <= Place(j)
  {
    PowMono(BASE, i, j);
  }

  lemma ValTake(p: seq<Limb>, i: nat)
    requires i < |p|
    ensures Val(p[..i + 1]) == Val(p[..i]) + p[i] * Place(i)
  {
    assert p[..i + 1][..i] == p[..i];
  }

  lemma ValSnoc(p: seq<Limb>, x: Limb)
    ensures Val(p + [x]) == Val(p) + x * Place(|p|)
  {
  }

  lemma SplitStep(u: int, x: int, a: int, c: int)
    ensures a * (u + x * c) == a * u + x * (a * c)
  {
  }

  lemma {:induction false} ValSplit(p: seq<Limb>, k: nat)
    requires k <= |p|
    ensures Val(p) == Val(p[..k]) + Place(k) * Val(p[k..])
    decreases |p|
  {
    if k == |p| {
      assert p[..k] == p;
    } else {
      var m := |p| - 1;
      var q := p[..m];
      ValSplit(q, k);
      assert q[..k] == p[..k];
      assert q[k..] == p[k..][..m - k];
      PlaceAdd(k, m - k);
      assert p[k..][m - k] == p[m];
      SplitStep(Val(q[k..]), p[m], Place(k), Place(m - k));
    }
  }

  lemma ValCons(x: Limb, p: seq<Limb>)
    ensures Val([x] + p) == x + BASE * Val(p)
  {
    var q := [x] + p;
    ValSplit(q, 1);
    assert q[..1] == [x] && q[1..] == p;
    assert [x][..0] == [];
    assert Place(1) == BASE * Place(0);
  }

  lemma {:induction false} ValZeros(k: nat)
    ensures Val(Zeros(k)) == 0
    decreases k
  {
    if k > 0 {
      ValZeros(k - 1);
      assert Zeros(k)[..k - 1] == Zeros(k - 1);
    }
  }

  lemma ValPad(p: seq<Limb>, k: nat)
    ensures Val(p + Zeros(k)) == Val(p)
  {
    ValSplit(p + Zeros(k), |p|);
    assert (p + Zeros(k))[..|p|] == p;
    assert (p + Zeros(k))[|p|..] == Zeros(k);
    ValZeros(k);
  }

  /** Overwriting limb `i` of a buffer that still agrees with `d` from `i` on. */
  lemma StoreLimb(p: seq<Limb>, d: seq<Limb>, i: nat, r: Limb)
    requires i < |p| == |d| && p[i..] == d[i..]
    ensures p[i] == d[i]
    ensures p[i := r][i + 1..] == d[i + 1..]
    ensures p[i := r][..i] == p[..i]
    ensures Val(p[i := r][..i + 1]) == Val(p[..i]) + r * Place(i)
    ensures Val(d[..i + 1]) == Val(d[..i]) + d[i] * Place(i)
  {
    assert p[i] == p[i..][0] && d[i] == d[i..][0];
    assert p[i := r][i + 1..] == p[i..][1..];
    assert d[i + 1..] == d[i..][1..];
    assert p[i := r][..i] == p[..i];
    ValTake(p[i := r], i);
    ValTake(d, i);
  }

  // ----- significant limbs

  /** Number of limbs up to and including the highest nonzero one. */
  function Sig(p: seq<Limb>): (k: nat)
    ensures k <= |p|
    ensures k > 0 ==> p[k - 1] != 0
    ensures forall i :: k <= i < |p| ==> p[i] == 0
  {
    if |p| == 0 then 0
    else if p[|p| - 1] != 0 then |p|
    else Sig(p[..|p| - 1])
  }

  lemma ValSig(p: seq<Limb>)
    ensures Val(p) == Val(p[..Sig(p)])
    ensures Val(p) < Place(Sig(p))
    ensures Sig(p) > 0 ==> Place(Sig(p) - 1) <= Val(p)
    ensures Sig(p) == 0 <==> Val(p) == 0
  {
    var k := Sig(p);
    assert p == p[..k] + Zeros(|p| - k);
    ValPad(p[..k], |p| - k);
    if k > 0 {
      ValTake(p, k - 1);
      MulLe(1, p[k - 1], Place(k - 1));
    }
  }

  /** A value below Place(k) has only zeros from limb k on. */
  lemma SigBelow(p: seq<Limb>, k: nat)
    requires Val(p) < Place(k)
    ensures Sig(p) <= k
  {
    ValSig(p);
    if Sig(p) > k {
      PlaceMono(k, Sig(p) - 1);
    }
  }

  lemma Trim(p: seq<Limb>, k: nat)
    requires k <= |p| && Val(p) < Place(k)
    ensures p[k..] == Zeros(|p| - k) && p == p[..k] + Zeros(|p| - k)
    ensures Val(p[..k]) == Val(p)
  {
    hide Val, Place;
    SigBelow(p, k);
    assert p == p[..k] + Zeros(|p| - k);
    ValPad(p[..k], |p| - k);
  }

  lemma TrimPad(d: seq<Limb>, k: nat, z: nat)
    requires k <= |d| && Val(d) < Place(k)
    ensures Val(d[..k] + Zeros(z)) == Val(d)
  {
    Trim(d, k);
    ValPad(d[..k], z);
  }

  /** The number fixes the count of significant limbs. */
  lemma SigUnique(p: seq<Limb>, q: seq<Limb>)
    requires Val(p) == Val(q)
    ensures Sig(p) == Sig(q)
  {
    ValSig(p);
    ValSig(q);
    SigBelow(p, Sig(q));
    SigBelow(q, Sig(p));
  }

  lemma ValOrder(p: seq<Limb>, q: seq<Limb>, i: nat)
    requires i < |p| == |q| && p[i] > q[i]
    requires forall k :: i < k < |p| ==> p[k] == q[k]
    ensures Val(p) > Val(q)
  {
    assert p[i + 1..] == q[i + 1..];
    ValSplit(p, i + 1);
    ValSplit(q, i + 1);
    ValTake(p, i);
    ValTake(q, i);
    OrderStep(Val(p[..i]), p[i], Val(q[..i]), q[i], Place(i));
  }

  lemma OrderStep(u: int, x: int, v: int, y: int, w: int)
    requires 0 <= u && 0 <= v < w && x > y
    ensures u + x * w > v + y * w
  {
    MulLe(y + 1, x, w);
  }

  // ----- one limb step of the schoolbook product (MULADDC_CORE, long long form)

  /** Unsigned overflow of an addition shows as a result below the addend. */
  lemma AddCarry(a: Limb, c: Limb)
    ensures var x := (a + c) % BASE; a + c == x + (if x < c then BASE else 0)
  {
  }

  lemma LimbProduct(s: Limb, b: Limb)
    ensures 0 <= s * b <= (BASE - 1) * (BASE - 1)
  {
    MulLe(s, BASE - 1, b);
    MulLe(b, BASE - 1, BASE - 1);
    MulLe(0, s, b);
  }

  function MulAddCore(s: Limb, b: Limb, c: Limb, d: Limb): (r: (Limb, Limb))
    ensures r.0 + r.1 * BASE == s * b + c + d
  {
    LimbProduct(s, b);
    var r := s * b;
    var r0: Limb := r % BASE;
    var r1: int := r / BASE;
    AddCarry(r0, c);
    var x0: Limb := (r0 + c) % BASE;
    var x1 := r1 + (if x0 < c then 1 else 0);
    AddCarry(x0, d);
    var y0: Limb := (x0 + d) % BASE;
    var y1 := x1 + (if y0 < d then 1 else 0);
    (y0, y1)
  }

  lemma LowBit(p: seq<Limb>)
    ensures Val(p) > 0 ==> |p| >= 1
    ensures |p| >= 1 ==> Val(p) % 2 == p[0] % 2
  {
    if |p| >= 1 {
      LowLimb(p);
    }
  }

  lemma LowLimb(p: seq<Limb>)
    requires |p| >= 1
    ensures Val(p) % 2 == p[0] % 2
  {
    hide Val;
    ValHead(p);
    LowParity(p[0], Val(p[1..]));
  }

  lemma LowParity(x: int, v: int)
    ensures (x + BASE * v) % 2 == x % 2
  {
    EvenShift(x, 0x8000_0000 * v);
  }

  lemma EvenShift(x: int, y: int)
    ensures (x + 2 * y) % 2 == x % 2
  {
  }

  lemma ValHead(p: seq<Limb>)
    requires |p| >= 1
    ensures Val(p) == p[0] + BASE * Val(p[1..])
  {
    hide *;
    assert p == [p[0]] + p[1..];
    ValCons(p[0], p[1..]);
  }

  lemma LimbSplit(x: seq<Limb>, m: nat)
    requires m < |x|
    ensures Val(x) == Val(x[..m]) + Place(m) * Val(x[m..]) && Val(x[m..]) == x[m] + BASE * Val(x[m + 1..])
  {
    hide Val, Place;
    ValSplit(x, m);
    ValHead(x[m..]);
    assert x[m..][1..] == x[m + 1..];
  }

  /** A limb, and what is below and above it, from the magnitude. */
  lemma LimbAt(x: seq<Limb>, m: nat)
    requires m < |x|
    ensures x[m] == Val(x) / Place(m) % BASE && Val(x[..m]) == Val(x) % Place(m)
    ensures Val(x) / Place(m) == x[m] + BASE * Val(x[m + 1..])
  {
    hide *;
    LimbSplit(x, m);
    Digit(Val(x), Place(m), Val(x[..m]), Val(x[m..]), x[m], Val(x[m + 1..]));
  }

  lemma Digit(v: int, w: int, low: int, h: int, d: Limb, high: int)
    requires v == low + w * h && 0 <= low < w && h == d + BASE * high
    ensures d == v / w % BASE && low == v % w && v / w == h
  {
    DivModUnique(v, w, h, low);
    DivModUnique(h, BASE, high, d);
  }
}
