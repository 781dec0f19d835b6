/** The 64-bit arithmetic of VMAC: the polynomial step modulo 2^127-1 and the final hash modulo 2^64-257. */
module VmacArith {
  import opened Arith

  const B31 := 0x8000_0000
  const B32 := 0x1_0000_0000
  const B63 := 0x8000_0000_0000_0000
  const B64 := 0x1_0000_0000_0000_0000
  const PROD := 0x2000_0000_0000_0000
  const P64 := 0xffff_ffff_ffff_feff
  const P127 := 0x7fff_ffff_ffff_ffff_ffff_ffff_ffff_ffff

  type Word = x: int | 0 <= x < B64

  /** Addition in a 64-bit register. */
  function Add(a: Word, b: Word): Word {
    (a + b) % B64
  }

  function Lo(x: Word): nat {
    x % B32
  }

  function Hi(x: Word): nat {
    x / B32
  }

  /** A polynomial key word: both halves masked to 29 bits. */
  ghost predicate PolyKey(k: Word) {
    Lo(k) < 0x2000_0000 && Hi(k) < 0x2000_0000
  }

  /** The polynomial key word of x: the low 29 bits of each half are those of x, and the others are cleared. */
  function Mask(x: Word): (k: Word)
    ensures PolyKey(k)
    ensures Lo(k) <= Lo(x) && (Lo(x) - Lo(k)) % 0x2000_0000 == 0
    ensures Hi(k) <= Hi(x) && (Hi(x) - Hi(k)) % 0x2000_0000 == 0
  {
    Hi(x) % 0x2000_0000 * B32 + Lo(x) % 0x2000_0000
  }

  function Wide(h: Word, l: Word): nat {
    h * B64 + l
  }

  lemma ProductBelow(a: nat, k: nat)
    requires a < B32 && k < B32
    ensures 0 <= a * k < B64 && (k < 0x2000_0000 ==> a * k < PROD)
  {
    MulLe(0, a, k);
    MulLe(a, B32 - 1, k);
  }

  /** The product of two four-limb numbers, limb by limb. */
  lemma Convolution(a0: int, a1: int, a2: int, a3: int, k0: int, k1: int, k2: int, k3: int)
    ensures (a3 * 0x1_0000_0000_0000_0000_0000_0000 + a2 * B64 + a1 * B32 + a0)
            * (k3 * 0x1_0000_0000_0000_0000_0000_0000 + k2 * B64 + k1 * B32 + k0)
         == a0 * k0 + (a0 * k1 + a1 * k0) * B32 + (a0 * k2 + a1 * k1 + a2 * k0) * B64
            + (a0 * k3 + a1 * k2 + a2 * k1 + a3 * k0) * (B64 * B32)
            + (a1 * k3 + a2 * k2 + a3 * k1) * (B64 * B64)
            + (a2 * k3 + a3 * k2) * (B64 * B64 * B32) + a3 * k3 * (B64 * B64 * B64)
  {
  }

  /** What the four register stages add up to, given the limbs c0..c6 of the product. */
  lemma StepSum(c0: int, c1: int, c2: int, c3: int, c4: int, c5: int, c6: int, mh: int, l0: int, l1: int,
                s0: int, s1: int, s2: int, s3: int)
    requires s0 == 2 * c6 + mh + c2 && s1 == s0 / B32 + c3
    requires s2 == s1 / B31 + l0 + c0 + 2 * c4 && s3 == s2 / B32 + l1 + c1 + 2 * c5
    ensures c0 + c1 * B32 + c2 * B64 + c3 * (B64 * B32) + c4 * (B64 * B64) + c5 * (B64 * B64 * B32) + c6 * (B64 * B64 * B64)
            + mh * B64 + l1 * B32 + l0
            - ((s0 % B32 + s1 % B31 * B32) * B64 + s3 * B32 + s2 % B32)
         == (s1 / B31 + 2 * c4 + 2 * c5 * B32 + 2 * c6 * B64) * P127
  {
  }

  function Mul32(a: nat, b: nat): (r: Word)
    requires a < B32 && b < B32
    ensures r == a * b && (b < 0x2000_0000 ==> r < PROD)
  {
    ProductBelow(a, b);
    a * b
  }

  /** A register addition that does not wrap. */
  function Plus(a: Word, b: Word): (r: Word)
    requires a + b < B64
    ensures r == a + b
  {
    Add(a, b)
  }

  /** The register sums of the four stages, in the order of the source; none of them wraps. */
  function Stage0(d: Word, m: Word, x: Word, y: Word, z: Word): (p: Word)
    requires d < PROD && m < 2 * PROD && x < PROD && y < PROD && z < PROD
    ensures p == 2 * d + m + x + y + z
  {
    Plus(Plus(Plus(Plus(Plus(d, d), m), x), y), z)
  }

  function Stage1(p0: Word, x: Word, y: Word, z: Word, w: Word): (p: Word)
    requires p0 < B32 && x < PROD && y < PROD && z < PROD && w < PROD
    ensures p == p0 + x + y + z + w
  {
    Plus(Plus(Plus(Plus(p0, x), y), z), w)
  }

  function Stage2(p0: Word, l: Word, d: Word, x: Word, y: Word, z: Word): (p: Word)
    requires p0 < 2 * B32 && l < B32 && d < PROD && x < PROD && y < PROD && z < PROD
    ensures p == p0 + l + d + 2 * (x + y + z)
  {
    var q := Plus(Plus(x, y), z);
    Plus(Plus(Plus(p0, l), d), Plus(q, q))
  }

  function Stage3(p0: Word, l: Word, d: Word, e: Word, x: Word, y: Word): (p: Word)
    requires p0 < B32 && l < B32 && d < PROD && e < PROD && x < PROD && y < PROD
    ensures p == p0 + l + d + e + 2 * (x + y)
  {
    var q := Plus(x, y);
    Plus(Plus(Plus(Plus(p0, l), d), e), Plus(q, q))
  }

  /** poly_step_func: no register wraps, and the result is a*k+m up to multiples of 2^127-1. */
  method PolyStep(ah: Word, al: Word, kh: Word, kl: Word, mh: Word, ml: Word) returns (rh: Word, rl: Word)
    requires PolyKey(kh) && PolyKey(kl) && mh < 0x4000_0000_0000_0000
    ensures Cong(Wide(ah, al) * Wide(kh, kl) + Wide(mh, ml), Wide(rh, rl), P127)
    ensures rh < B63 + B32
  {
    hide Lo, Hi, Cong, Stage0, Stage1, Stage2, Stage3, Mul32;
    LimbBounds(ah, al);
    LimbBounds(kh, kl);
    LimbBounds(mh, ml);
    var a0, a1, a2, a3 := Lo(al), Hi(al), Lo(ah), Hi(ah);
    var k0, k1, k2, k3 := Lo(kl), Hi(kl), Lo(kh), Hi(kh);
    var p := Stage0(Mul32(a3, k3), mh, Mul32(a0, k2), Mul32(a1, k1), Mul32(a2, k0));
    ghost var s0 := p;
    var t := p % B32;
    p := Stage1(p / B32, Mul32(a0, k3), Mul32(a1, k2), Mul32(a2, k1), Mul32(a3, k0));
    ghost var s1 := p;
    t := t + p % B31 * B32;
    p := Stage2(p / B31, Lo(ml), Mul32(a0, k0), Mul32(a1, k3), Mul32(a2, k2), Mul32(a3, k1));
    ghost var s2 := p;
    var t2 := p % B32;
    p := Stage3(p / B32, Hi(ml), Mul32(a0, k1), Mul32(a1, k0), Mul32(a2, k3), Mul32(a3, k2));
    rl := p % B32 * B32 + t2;
    rh := Add(p / B32, t);
    StepCongruent(ah, al, kh, kl, mh, ml, s0, s1, s2, p, rh, rl);
  }

  lemma LimbBounds(h: Word, l: Word)
    ensures h == Hi(h) * B32 + Lo(h) && 0 <= Hi(h) < B32 && 0 <= Lo(h) < B32
    ensures l == Hi(l) * B32 + Lo(l) && 0 <= Hi(l) < B32 && 0 <= Lo(l) < B32
    ensures Wide(h, l) == Hi(h) * 0x1_0000_0000_0000_0000_0000_0000 + Lo(h) * B64 + Hi(l) * B32 + Lo(l)
  {
  }

  lemma WideProduct(ah: Word, al: Word, kh: Word, kl: Word)
    ensures var a0, a1, a2, a3 := Lo(al), Hi(al), Lo(ah), Hi(ah);
            var k0, k1, k2, k3 := Lo(kl), Hi(kl), Lo(kh), Hi(kh);
            Wide(ah, al) * Wide(kh, kl)
            == a0 * k0 + (a0 * k1 + a1 * k0) * B32 + (a0 * k2 + a1 * k1 + a2 * k0) * B64
               + (a0 * k3 + a1 * k2 + a2 * k1 + a3 * k0) * (B64 * B32)
               + (a1 * k3 + a2 * k2 + a3 * k1) * (B64 * B64)
               + (a2 * k3 + a3 * k2) * (B64 * B64 * B32) + a3 * k3 * (B64 * B64 * B64)
  {
    hide Lo, Hi, Wide;
    LimbBounds(ah, al);
    LimbBounds(kh, kl);
    Convolution(Lo(al), Hi(al), Lo(ah), Hi(ah), Lo(kl), Hi(kl), Lo(kh), Hi(kh));
  }

  /** What the four stages leave in the accumulator. */
  lemma StepCongruent(ah: Word, al: Word, kh: Word, kl: Word, mh: Word, ml: Word,
                      s0: int, s1: int, s2: int, s3: int, rh: Word, rl: Word)
    requires var a0, a1, a2, a3 := Lo(al), Hi(al), Lo(ah), Hi(ah);
             var k0, k1, k2, k3 := Lo(kl), Hi(kl), Lo(kh), Hi(kh);
             && s0 == 2 * (a3 * k3) + mh + a0 * k2 + a1 * k1 + a2 * k0
             && s1 == s0 / B32 + a0 * k3 + a1 * k2 + a2 * k1 + a3 * k0
             && s2 == s1 / B31 + Lo(ml) + a0 * k0 + 2 * (a1 * k3 + a2 * k2 + a3 * k1)
             && s3 == s2 / B32 + Hi(ml) + a0 * k1 + a1 * k0 + 2 * (a2 * k3 + a3 * k2)
    requires rl == s3 % B32 * B32 + s2 % B32 && rh == s3 / B32 + (s0 % B32 + s1 % B31 * B32)
    ensures Cong(Wide(ah, al) * Wide(kh, kl) + Wide(mh, ml), Wide(rh, rl), P127)
  {
    hide Lo, Hi, Cong, Wide;
    WideProduct(ah, al, kh, kl);
    var a0, a1, a2, a3 := Lo(al), Hi(al), Lo(ah), Hi(ah);
    var k0, k1, k2, k3 := Lo(kl), Hi(kl), Lo(kh), Hi(kh);
    var c0, c1, c2 := a0 * k0, a0 * k1 + a1 * k0, a0 * k2 + a1 * k1 + a2 * k0;
    var c3, c4, c5, c6 := a0 * k3 + a1 * k2 + a2 * k1 + a3 * k0, a1 * k3 + a2 * k2 + a3 * k1, a2 * k3 + a3 * k2, a3 * k3;
    StepTotal(Wide(ah, al) * Wide(kh, kl), c0, c1, c2, c3, c4, c5, c6, mh, ml, s0, s1, s2, s3, rh, rl);
  }

  lemma StepTotal(ak: int, c0: int, c1: int, c2: int, c3: int, c4: int, c5: int, c6: int, mh: Word, ml: Word,
                  s0: int, s1: int, s2: int, s3: int, rh: Word, rl: Word)
    requires ak == c0 + c1 * B32 + c2 * B64 + c3 * (B64 * B32) + c4 * (B64 * B64) + c5 * (B64 * B64 * B32)
                   + c6 * (B64 * B64 * B64)
    requires s0 == 2 * c6 + mh + c2 && s1 == s0 / B32 + c3
    requires s2 == s1 / B31 + Lo(ml) + c0 + 2 * c4 && s3 == s2 / B32 + Hi(ml) + c1 + 2 * c5
    requires rl == s3 % B32 * B32 + s2 % B32 && rh == s3 / B32 + (s0 % B32 + s1 % B31 * B32)
    ensures Cong(ak + Wide(mh, ml), Wide(rh, rl), P127)
  {
    hide Cong;
    StepSum(c0, c1, c2, c3, c4, c5, c6, mh, Lo(ml), Hi(ml), s0, s1, s2, s3);
    assert Wide(mh, ml) == mh * B64 + Hi(ml) * B32 + Lo(ml);
    assert Wide(rh, rl) == (s0 % B32 + s1 % B31 * B32) * B64 + s3 * B32 + s2 % B32;
    CongIntro(ak + Wide(mh, ml), Wide(rh, rl), P127, s1 / B31 + 2 * c4 + 2 * c5 * B32 + 2 * c6 * B64);
  }

  // ----- 128-bit helpers

  method Add128(rh: Word, rl: Word, ih: Word, il: Word) returns (h: Word, l: Word)
    ensures Wide(h, l) == (Wide(rh, rl) + Wide(ih, il)) % (B64 * B64)
    ensures Wide(rh, rl) + Wide(ih, il) < B64 * B64 ==> Wide(h, l) == Wide(rh, rl) + Wide(ih, il)
  {
    l := Add(rl, il);
    h := rh;
    ghost var carry := 0;
    if l < il {
      h := Add(h, 1);
      carry := 1;
    }
    assert rl + il == carry * B64 + l;
    h := Add(h, ih);
    ghost var over := if rh + carry + ih >= B64 then 1 else 0;
    assert rh + carry + ih == over * B64 + h;
    AddTotal(rh, rl, ih, il, h, l, carry, over);
  }

  lemma AddTotal(rh: Word, rl: Word, ih: Word, il: Word, h: Word, l: Word, carry: int, over: int)
    requires rl + il == carry * B64 + l && rh + carry + ih == over * B64 + h && 0 <= over <= 1
    ensures Wide(h, l) == (Wide(rh, rl) + Wide(ih, il)) % (B64 * B64)
    ensures Wide(rh, rl) + Wide(ih, il) < B64 * B64 ==> Wide(h, l) == Wide(rh, rl) + Wide(ih, il)
  {
  }

  /** The full product from four half products. */
  method Mul64(a: Word, b: Word) returns (rh: Word, rl: Word)
    ensures Wide(rh, rl) == a * b
  {
    hide Lo, Hi;
    LimbBounds(a, b);
    var m1, m2 := Mul32(Lo(a), Hi(b)), Mul32(Hi(a), Lo(b));
    FourProducts(a, b);
    LimbBounds(m1, m2);
    rh, rl := Mul32(Hi(a), Hi(b)), Mul32(Lo(a), Lo(b));
    rh, rl := Add128(rh, rl, Hi(m1), Lo(m1) * B32);
    rh, rl := Add128(rh, rl, Hi(m2), Lo(m2) * B32);
  }

  lemma FourProducts(a: Word, b: Word)
    ensures a * b == Hi(a) * Hi(b) * B64 + (Lo(a) * Hi(b) + Hi(a) * Lo(b)) * B32 + Lo(a) * Lo(b)
    ensures a * b < B64 * B64 && 0 <= Hi(a) * Hi(b) && 0 <= Lo(a) * Hi(b) && 0 <= Hi(a) * Lo(b) && 0 <= Lo(a) * Lo(b)
  {
  }

  // ----- the final hash

  const DIVISOR := B64 - B32

  /** The input with the length added to its high word, reduced modulo 2^127-1. */
  function Folded(p1: Word, p2: Word, len: Word): nat {
    (Wide(p1, p2) + len * B64) % P127
  }

  /** Quotient and remainder by 2^64-2^32, each with a key added, multiplied modulo 2^64-257. */
  function Final(v: nat, k1: Word, k2: Word): (r: Word)
    ensures r < P64
  {
    (v / DIVISOR + k1) * (v % DIVISOR + k2) % P64
  }

  /** Each key is added to its own part: the hash vanishes where either sum does. */
  lemma FinalVanishes(v: nat, k1: Word, k2: Word)
    requires (v / DIVISOR + k1) % P64 == 0 || (v % DIVISOR + k2) % P64 == 0
    ensures Final(v, k1, k2) == 0
  {
    var x, y := v / DIVISOR + k1, v % DIVISOR + k2;
    if x % P64 == 0 {
      DivModUnique(x * y, P64, x / P64 * y, 0);
    } else {
      DivModUnique(x * y, P64, x * (y / P64), 0);
    }
  }

  method Reduce127(h: Word, l: Word, len: Word) returns (p1: Word, p2: Word)
    requires len < 1024
    ensures Wide(p1, p2) == Folded(h, l, len) && p1 < B63
  {
    hide Wide, Folded;
    var t := h / B63;
    p1, p2 := h % B63, l;
    FoldBounds(h, l, len);
    p1, p2 := Add128(p1, p2, len, t);
    ghost var v := Wide(p1, p2);
    t := (if p1 > B63 - 1 then 1 else 0) + if p1 == B63 - 1 && p2 == B64 - 1 then 1 else 0;
    FoldStep(h, l, len, p1, p2, t);
    p1, p2 := Add128(p1, p2, 0, t);
    FoldDone(h, l, len, v, p1, p2, t);
    p1 := p1 % B63;
  }

  lemma FoldBounds(h: Word, l: Word, len: Word)
    requires len < 1024
    ensures Wide(h % B63, l) + Wide(len, h / B63) <= P127 + 1 + 1023 * B64
    ensures Cong(Wide(h, l) + len * B64, Wide(h % B63, l) + Wide(len, h / B63), P127)
  {
  }

  lemma FoldStep(h: Word, l: Word, len: Word, p1: Word, p2: Word, t: int)
    requires len < 1024 && Wide(p1, p2) == Wide(h % B63, l) + Wide(len, h / B63)
    requires t == (if p1 > B63 - 1 then 1 else 0) + if p1 == B63 - 1 && p2 == B64 - 1 then 1 else 0
    ensures 0 <= t <= 1 && (t == 1 <==> Wide(p1, p2) >= P127) && Wide(p1, p2) <= P127 + 1 + 1023 * B64
    ensures Wide(0, t) == t
  {
  }

  lemma FoldDone(h: Word, l: Word, len: Word, v: nat, p1: Word, p2: Word, t: int)
    requires len < 1024 && v == Wide(h % B63, l) + Wide(len, h / B63) && v <= P127 + 1 + 1023 * B64
    requires Wide(p1, p2) == v + t && (if v >= P127 then t == 1 else t == 0)
    ensures Wide(p1 % B63, p2) == Folded(h, l, len)
  {
    hide Cong;
    MaskHigh(v, p1, p2, t);
    FoldBounds(h, l, len);
    var x: int := Wide(h, l) + len * B64;
    CongIff(x, v, P127);
    DivModUnique(v, P127, t, Wide(p1 % B63, p2));
  }

  lemma MaskHigh(v: nat, p1: Word, p2: Word, t: int)
    requires v <= P127 + 1 + 1023 * B64 && Wide(p1, p2) == v + t && (if v >= P127 then t == 1 else t == 0)
    ensures 0 <= Wide(p1 % B63, p2) < P127 && v == t * P127 + Wide(p1 % B63, p2)
  {
  }

  /** Quotient and remainder by 2^64-2^32 without a division. */
  method DivideBy(p1: Word, p2: Word) returns (q: Word, r: Word)
    requires p1 < B63
    ensures q == Wide(p1, p2) / DIVISOR && r == Wide(p1, p2) % DIVISOR
  {
    hide Add, Plus, Wide, FoldHigh;
    var t := FoldHigh(Plus(p1, p2 / B32));
    q := Plus(p1, t / B32);
    r := Add(p2, q * B32 % B64);
    WrapTwice(p2, q * B32);
    Quotient(p1, p2, q, r);
  }

  lemma WrapTwice(a: Word, b: nat)
    ensures Add(a, b % B64) == (a + b) % B64
  {
  }

  /** The high half of the result is the quotient by 2^32-1. */
  function FoldHigh(t: Word): (v: Word)
    requires t < B63 + B32
    ensures v < B63 + 2 * B32 + B31 && v / B32 == t / B32 + if t / B32 + t % B32 >= B32 - 1 then 1 else 0
  {
    CarryUp(t);
    var u := Plus(t, t / B32);
    Plus(u, if u % B32 > 0xffff_fffe then 1 else 0)
  }

  /** Adding the high half to the low half, and one more when the low half is all ones, divides by 2^32-1. */
  lemma CarryUp(t: nat)
    requires t < B63 + B32
    ensures var u := t + t / B32;
            var v := u + if u % B32 > 0xffff_fffe then 1 else 0;
            v < B63 + 2 * B32 + B31 && v / B32 == t / B32 + if t / B32 + t % B32 >= B32 - 1 then 1 else 0
  {
  }

  lemma Quotient(p1: Word, p2: Word, q: Word, r: Word)
    requires p1 < B63
    requires var t := p1 + p2 / B32;
             var s := t / B32 + t % B32;
             q == p1 + t / B32 + if s >= B32 - 1 then 1 else 0
    requires r == (p2 + q * B32) % B64
    ensures q == Wide(p1, p2) / DIVISOR && r == Wide(p1, p2) % DIVISOR
  {
    var rest := Wide(p1, p2) - q * DIVISOR;
    assert 0 <= rest < DIVISOR;
    assert rest == p2 + q * B32 - (q - p1) * B64;
    DivModUnique(p2 + q * B32, B64, q - p1, rest);
    DivModUnique(Wide(p1, p2), DIVISOR, q, rest);
  }

  /** x + k modulo 2^64-257, not necessarily reduced: a wrap is repaid by 257. */
  method AddMod(x: Word, k: Word) returns (y: Word)
    requires x < DIVISOR && k < P64
    ensures Cong(x + k, y, P64)
  {
    y := Add(x, k);
    ghost var wrap := y < k;
    if y < k {
      y := Add(y, 257);
    }
    assert x + k - y == (if wrap then 1 else 0) * P64;
    CongIntro(x + k, y, P64, if wrap then 1 else 0);
  }

  /** A 128-bit product reduced modulo 2^64-257, fully. */
  method Reduce64(h: Word, l: Word) returns (r: Word)
    ensures r == Wide(h, l) % P64
  {
    hide Wide;
    var rh, t, rl := h, h / 0x100_0000_0000_0000, l;
    ShiftSum(h, l);
    t, rl := Add128(t, rl, 0, rh);
    rh := rh * 256 % B64;
    t, rl := Add128(t, rl, 0, rh);
    ghost var v := Wide(t, rl);
    TopSmall(h, l, t, rl);
    t := Add(t, t * 256);
    r := Add(rl, t);
    ghost var wrap := r < t;
    if r < t {
      r := Add(r, 257);
    }
    ghost var over := r > P64 - 1;
    if r > P64 - 1 {
      r := Add(r, 257);
    }
    FinalResidue(h, l, t, rl, wrap, over, r);
  }

  lemma ShiftSum(h: Word, l: Word)
    ensures Wide(h / 0x100_0000_0000_0000, l) + Wide(0, h) + Wide(0, h * 256 % B64) == l + 257 * h
    ensures Wide(h / 0x100_0000_0000_0000, l) + Wide(0, h) < B64 * B64 && l + 257 * h < B64 * B64
  {
  }

  lemma TopSmall(h: Word, l: Word, t: Word, rl: Word)
    requires Wide(t, rl) == l + 257 * h
    ensures t <= 257
  {
  }

  lemma FinalResidue(h: Word, l: Word, t257: Word, rl: Word, wrap: bool, over: bool, r: Word)
    requires exists t: Word :: t <= 257 && t257 == 257 * t && Wide(t, rl) == l + 257 * h
    requires wrap <==> rl + t257 >= B64
    requires var s := if wrap then rl + t257 - P64 else rl + t257; (over <==> s >= P64) && r == if over then s - P64 else s
    ensures r == Wide(h, l) % P64
  {
  }

  /** l3hash: the canonical residue, from 64-bit steps only. */
  method L3Hash(p1: Word, p2: Word, k1: Word, k2: Word, len: Word) returns (r: Word)
    requires k1 < P64 && k2 < P64 && len < 1024
    ensures r == Final(Folded(p1, p2, len), k1, k2)
  {
    hide Wide, Folded, Cong;
    var h, l := Reduce127(p1, p2, len);
    ghost var v := Wide(h, l);
    var q, s := DivideBy(h, l);
    QuotientSmall(h, l);
    var x := AddMod(q, k1);
    var y := AddMod(s, k2);
    var rh, rl := Mul64(x, y);
    r := Reduce64(rh, rl);
    ghost var a: int, b: int, c: int, d: int := q, k1, s, k2;
    CongMul(a + b, x, c + d, y, P64);
    ghost var xy: int := Wide(rh, rl);
    CongIff((a + b) * (c + d), xy, P64);
  }

  lemma QuotientSmall(h: Word, l: Word)
    requires h < B63
    ensures Wide(h, l) / DIVISOR < DIVISOR && Wide(h, l) % DIVISOR < DIVISOR
  {
  }
}
