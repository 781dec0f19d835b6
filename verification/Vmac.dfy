/** VMAC with 64-bit tags: the NH layer, the incremental polynomial hash and the nonce cache. */
module Vmac {
  import opened Arith
  import opened VmacArith

  const BLOCK := 16 // words in VMAC_NHBYTES = 128 bytes
  const B62 := 0x4000_0000_0000_0000

  // ----- NH

  /** The sum of the products of paired words, each with its key word added. */
  function NhSum(m: seq<Word>, k: seq<Word>): nat
    requires |m| <= |k| && |m| % 2 == 0
    decreases |m|
  {
    if m == [] then 0
    else
      var i := |m| - 2;
      NhSum(m[..i], k) + Add(m[i], k[i]) * Add(m[i + 1], k[i + 1])
  }

  /** Changing one word changes the sum by the change of its masked word times the masked word it is paired with. */
  lemma {:induction false} NhOneWord(m: seq<Word>, k: seq<Word>, i: nat, x: Word)
    requires i < |m| <= |k| && |m| % 2 == 0
    ensures var j := if i % 2 == 0 then i + 1 else i - 1;
            NhSum(m[i := x], k) - NhSum(m, k) == (Add(x, k[i]) - Add(m[i], k[i])) * Add(m[j], k[j])
    decreases |m|
  {
    hide Add, NhSum;
    var n := |m| - 2;
    var m' := m[i := x];
    NhLast(m, k);
    NhLast(m', k);
    if i < n {
      assert m'[..n] == m[..n][i := x];
      NhOneWord(m[..n], k, i, x);
    } else {
      assert m'[..n] == m[..n];
      if i == n {
        ProductChange(Add(m[n], k[n]), Add(x, k[n]), Add(m[n + 1], k[n + 1]));
      } else {
        ProductChange(Add(m[n + 1], k[n + 1]), Add(x, k[n + 1]), Add(m[n], k[n]));
      }
    }
  }

  lemma NhLast(m: seq<Word>, k: seq<Word>)
    requires 0 < |m| <= |k| && |m| % 2 == 0
    ensures var n := |m| - 2; NhSum(m, k) == NhSum(m[..n], k) + Add(m[n], k[n]) * Add(m[n + 1], k[n + 1])
  {
  }

  lemma ProductChange(a: int, c: int, b: int)
    ensures c * b - a * b == (c - a) * b && b * c - b * a == (c - a) * b
  {
  }

  /** Words that are opposite to their keys have no weight. */
  lemma {:induction false} NhOpposite(m: seq<Word>, k: seq<Word>)
    requires |m| <= |k| && |m| % 2 == 0 && forall i :: 0 <= i < |m| && i % 2 == 0 ==> (m[i] + k[i]) % B64 == 0
    ensures NhSum(m, k) == 0
    decreases |m|
  {
    if m != [] {
      NhOpposite(m[..|m| - 2], k);
    }
  }

  /** NH as the callers use it: the 128-bit sum with the top two bits masked off. */
  function Nh(m: seq<Word>, k: seq<Word>): (n: nat)
    requires |m| <= |k| && |m| % 2 == 0
    ensures n < B62 * B64
  {
    NhSum(m, k) % (B62 * B64)
  }

  /** One pair of the loop: three partial sums take the four half products. */
  lemma NhStep(a: Word, b: Word, h: Word, l: Word, t: nat, h': Word, l': Word, t': nat, h1: Word)
    requires var m1, m2 := Lo(a) * Hi(b), Hi(a) * Lo(b);
             && Cong(Wide(h1, l'), Wide(h, l) + Hi(a) * Hi(b) * B64 + Lo(a) * Lo(b), B64 * B64)
             && h' == (h1 + m1 / B32 + m2 / B32) % B64 && t' == t + m1 % B32 + m2 % B32
    ensures Cong(Wide(h', l') + t' * B32, Wide(h, l) + t * B32 + a * b, B64 * B64)
  {
    hide Cong, Lo, Hi;
    var m1, m2 := Lo(a) * Hi(b), Hi(a) * Lo(b);
    FourProducts(a, b);
    var w := (h1 + m1 / B32 + m2 / B32) / B64;
    var x: int, y: int := Wide(h', l') + t' * B32, Wide(h1, l') + t * B32 + (m1 + m2) * B32;
    assert x - y == -w * (B64 * B64);
    CongIntro(x, y, B64 * B64, -w);
    CongRefl(t * B32 + (m1 + m2) * B32, B64 * B64);
    CongAdd(Wide(h1, l'), Wide(h, l) + Hi(a) * Hi(b) * B64 + Lo(a) * Lo(b), t * B32 + (m1 + m2) * B32,
            t * B32 + (m1 + m2) * B32, B64 * B64);
    CongTrans(x, y, Wide(h, l) + t * B32 + a * b, B64 * B64);
  }

  /** One pass of the loop: a pair of words is multiplied into the three partial sums. */
  method NhPass(a: Word, b: Word, h0: Word, l0: Word, s0: Word) returns (h: Word, l: Word, s: Word)
    requires s0 <= BLOCK * B32
    ensures s <= s0 + 2 * B32 && Cong(Wide(h, l) + s * B32, Wide(h0, l0) + s0 * B32 + a * b, B64 * B64)
  {
    hide Cong, Lo, Hi, Add;
    LimbBounds(a, b);
    var m2, m1 := Mul32(Hi(a), Lo(b)), Mul32(Lo(a), Hi(b));
    h, l := Add128(h0, l0, Mul32(Hi(a), Hi(b)), Mul32(Lo(a), Lo(b)));
    ghost var h1 := h;
    h := Add(h, m1 / B32 + m2 / B32);
    s := Add(s0, m1 % B32 + m2 % B32);
    NhAdds(a, b, h0, l0, s0, h1, l, m1, m2, h, s);
  }

  /** nh_16 for 32-bit machines: it computes the sum of full products from half products. */
  method Nh16(m: seq<Word>, k: seq<Word>) returns (rh: Word, rl: Word)
    requires |m| <= |k| && |m| % 2 == 0 && |m| <= BLOCK
    ensures Wide(rh, rl) == NhSum(m, k) % (B64 * B64)
  {
    hide Cong, Wide, Add, NhSum;
    rh, rl := 0, 0;
    var t: Word := 0;
    NhStart(m, k);
    var i := 0;
    while i < |m|
      invariant 0 <= i <= |m| && i % 2 == 0 && t <= i * B32
      invariant Cong(Wide(rh, rl) + t * B32, NhSum(m[..i], k), B64 * B64)
    {
      var t1, t2 := Add(m[i], k[i]), Add(m[i + 1], k[i + 1]);
      ghost var x: int := Wide(rh, rl) + t * B32;
      rh, rl, t := NhPass(t1, t2, rh, rl, t);
      ghost var z: int := Wide(rh, rl) + t * B32;
      NhChain(m, k, i, t1, t2, x, z);
      i := i + 2;
    }
    assert m[..i] == m;
    ghost var h0, l0 := rh, rl;
    rh, rl := Add128(rh, rl, t / B32, t * B32 % B64);
    NhEnd(h0, l0, t, NhSum(m, k), Wide(rh, rl));
  }

  lemma NhStart(m: seq<Word>, k: seq<Word>)
    requires |m| <= |k| && |m| % 2 == 0
    ensures Cong(Wide(0, 0) + 0 * B32, NhSum(m[..0], k), B64 * B64)
  {
  }

  lemma NhChain(m: seq<Word>, k: seq<Word>, i: nat, a: int, b: int, x: int, z: int)
    requires i + 2 <= |m| <= |k| && i % 2 == 0 && a == Add(m[i], k[i]) && b == Add(m[i + 1], k[i + 1])
    requires Cong(x, NhSum(m[..i], k), B64 * B64) && Cong(z, x + a * b, B64 * B64)
    ensures Cong(z, NhSum(m[..i + 2], k), B64 * B64)
  {
    hide Cong, NhSum, Add;
    NhSnoc(m, k, i);
    CongRefl(a * b, B64 * B64);
    CongAdd(x, NhSum(m[..i], k), a * b, a * b, B64 * B64);
    CongTrans(z, x + a * b, NhSum(m[..i + 2], k), B64 * B64);
  }

  /** What one pass of the loop leaves in the registers. */
  ghost predicate NhRegisters(a: Word, b: Word, h0: Word, l0: Word, s0: Word, h1: Word, l1: Word,
                              m1: Word, m2: Word, h: Word, s: Word) {
    && m1 == Lo(a) * Hi(b) && m2 == Hi(a) * Lo(b)
    && 0 <= Hi(a) * Hi(b) < B64 && 0 <= Lo(a) * Lo(b) < B64
    && Wide(h1, l1) == (Wide(h0, l0) + Wide(Hi(a) * Hi(b), Lo(a) * Lo(b))) % (B64 * B64)
    && h == Add(h1, m1 / B32 + m2 / B32) && s == Add(s0, m1 % B32 + m2 % B32)
  }

  lemma NhAdds(a: Word, b: Word, h0: Word, l0: Word, s0: Word, h1: Word, l1: Word, m1: Word, m2: Word, h: Word, s: Word)
    requires NhRegisters(a, b, h0, l0, s0, h1, l1, m1, m2, h, s) && s0 <= 16 * B32
    ensures s <= s0 + 2 * B32 && Cong(Wide(h, l1) + s * B32, Wide(h0, l0) + s0 * B32 + a * b, B64 * B64)
  {
    hide Cong, Lo, Hi;
    var hh, ll := Hi(a) * Hi(b), Lo(a) * Lo(b);
    WideSum(h0, l0, hh, ll, h1, l1);
    assert s == s0 + m1 % B32 + m2 % B32;
    NhStep(a, b, h0, l0, s0, h, l1, s, h1);
  }

  lemma WideSum(h0: Word, l0: Word, hh: Word, ll: Word, h1: Word, l1: Word)
    requires Wide(h1, l1) == (Wide(h0, l0) + Wide(hh, ll)) % (B64 * B64)
    ensures Cong(Wide(h1, l1), Wide(h0, l0) + hh * B64 + ll, B64 * B64)
  {
  }

  lemma NhSnoc(m: seq<Word>, k: seq<Word>, i: nat)
    requires i + 2 <= |m| <= |k| && i % 2 == 0
    ensures NhSum(m[..i + 2], k) == NhSum(m[..i], k) + Add(m[i], k[i]) * Add(m[i + 1], k[i + 1])
  {
    assert m[..i + 2][..i] == m[..i];
  }

  lemma NhEnd(h0: Word, l0: Word, t: Word, sum: nat, r: nat)
    requires Cong(Wide(h0, l0) + t * B32, sum, B64 * B64)
    requires r == (Wide(h0, l0) + Wide(t / B32, t * B32 % B64)) % (B64 * B64)
    ensures r == sum % (B64 * B64)
  {
    DivModUnique(t * B32, B64, t / B32, t % B32 * B32);
    assert Wide(t / B32, t * B32 % B64) == t * B32;
    CongIff(Wide(h0, l0) + t * B32, sum, B64 * B64);
  }

  lemma MaskTop(h: Word, l: Word, sum: nat)
    requires Wide(h, l) == sum % (B64 * B64)
    ensures Wide(h % B62, l) == sum % (B62 * B64)
  {
    var q := sum / (B64 * B64);
    assert sum == q * (B64 * B64) + Wide(h, l);
    DivModUnique(sum, B62 * B64, q * 4 + h / B62, Wide(h % B62, l));
  }

  /** NH of a block with its two top bits cleared, as two words. */
  method NhWords(m: seq<Word>, k: seq<Word>) returns (rh: Word, rl: Word)
    requires |m| <= |k| && |m| % 2 == 0 && |m| <= BLOCK
    ensures Wide(rh, rl) == Nh(m, k) && rh < B62
  {
    rh, rl := Nh16(m, k);
    MaskTop(rh, rl, NhSum(m, k));
    rh := rh % B62;
  }

  // ----- the polynomial hash

  /** The keys: NH words, the polynomial key and the two keys of the final hash. */
  datatype Keys = Keys(nh: seq<Word>, polyHi: Word, polyLo: Word, l3a: Word, l3b: Word) {
    ghost predicate Ok() {
      |nh| == BLOCK && PolyKey(polyHi) && PolyKey(polyLo) && l3a < P64 && l3b < P64
    }

    function Poly(): nat {
      Wide(polyHi, polyLo)
    }
  }

  ghost predicate Blocks(ws: seq<Word>) {
    |ws| % BLOCK == 0
  }

  /** The hash of whole blocks by Horner's rule, modulo 2^127-1. */
  ghost function Horner(ws: seq<Word>, keys: Keys): (v: nat)
    requires keys.Ok() && Blocks(ws)
    ensures v < P127
    decreases |ws|
  {
    if ws == [] then 1
    else
      var n := |ws| - BLOCK;
      (Horner(ws[..n], keys) * keys.Poly() + Nh(ws[n..], keys.nh)) % P127
  }

  /** The number of words that the last, partial block takes. */
  function TailWords(remaining: nat): nat {
    2 * ((remaining + 15) / 16)
  }

  /** The polynomial value of a message whose last block has `remaining` bytes, 0 for none. */
  ghost function Value(ws: seq<Word>, remaining: nat, keys: Keys): nat
    requires keys.Ok() && remaining < 128 && TailWords(remaining) <= |ws| && Blocks(ws[..|ws| - TailWords(remaining)])
  {
    var n := |ws| - TailWords(remaining);
    if remaining > 0 then (Horner(ws[..n], keys) * keys.Poly() + Nh(ws[n..], keys.nh)) % P127
    else if ws == [] then keys.Poly()
    else Horner(ws, keys)
  }

  /** The hash of a whole message, with no state. */
  ghost function Hash(ws: seq<Word>, remaining: nat, keys: Keys): Word
    requires keys.Ok() && remaining < 128 && TailWords(remaining) <= |ws| && Blocks(ws[..|ws| - TailWords(remaining)])
  {
    Final((Value(ws, remaining, keys) + 8 * remaining * B64) % P127, keys.l3a, keys.l3b)
  }

  /** The number of bytes in the last block counts: values that agree are told apart by it. */
  lemma LengthCounts(v: nat, r: nat, r': nat)
    requires r < 128 && r' < 128
    ensures (v + 8 * r * B64) % P127 == (v + 8 * r' * B64) % P127 <==> r == r'
  {
    if (v + 8 * r * B64) % P127 == (v + 8 * r' * B64) % P127 {
      var q := (v + 8 * r * B64) / P127 - (v + 8 * r' * B64) / P127;
      assert 8 * (r - r') * B64 == q * P127;
      MulSign(q, P127);
    }
  }

  /** The words of a partial block hold its bytes, in units of 16 bytes. */
  lemma TailHolds(remaining: nat)
    ensures TailWords(remaining) % 2 == 0 && 8 * TailWords(remaining) - 16 < remaining <= 8 * TailWords(remaining)
  {
  }

  /** One more block. */
  lemma HornerSnoc(ws: seq<Word>, b: seq<Word>, keys: Keys)
    requires keys.Ok() && Blocks(ws) && |b| == BLOCK
    ensures Blocks(ws + b) && Horner(ws + b, keys) == (Horner(ws, keys) * keys.Poly() + Nh(b, keys.nh)) % P127
  {
    assert (ws + b)[..|ws + b| - BLOCK] == ws && (ws + b)[|ws + b| - BLOCK..] == b;
  }

  /** The blocks as coefficients, the first block with the highest power of the key. */
  ghost function Terms(ws: seq<Word>, keys: Keys): int
    requires keys.Ok() && Blocks(ws)
    decreases |ws|
  {
    if ws == [] then 0
    else Nh(ws[..BLOCK], keys.nh) * Pow(keys.Poly(), |ws| / BLOCK - 1) + Terms(ws[BLOCK..], keys)
  }

  /** The monic polynomial at the key, with the block hashes as its other coefficients. */
  ghost function Polynomial(ws: seq<Word>, keys: Keys): int
    requires keys.Ok() && Blocks(ws)
  {
    Pow(keys.Poly(), |ws| / BLOCK) + Terms(ws, keys)
  }

  lemma {:induction false} TermsSnoc(ws: seq<Word>, b: seq<Word>, keys: Keys)
    requires keys.Ok() && Blocks(ws) && |b| == BLOCK
    ensures Blocks(ws + b) && Terms(ws + b, keys) == Terms(ws, keys) * keys.Poly() + Nh(b, keys.nh)
    decreases |ws|
  {
    hide Nh, Wide;
    if ws == [] {
      assert ws + b == b && b[..BLOCK] == b;
      assert Terms(b[BLOCK..], keys) == 0 && Pow(keys.Poly(), 0) == 1;
    } else {
      TermsSnoc(ws[BLOCK..], b, keys);
      assert (ws + b)[..BLOCK] == ws[..BLOCK] && (ws + b)[BLOCK..] == ws[BLOCK..] + b;
      var c, k, e := Nh(ws[..BLOCK], keys.nh), keys.Poly(), |ws| / BLOCK - 1;
      assert |ws + b| / BLOCK - 1 == e + 1;
      TimesPower(c, k, e, Terms(ws[BLOCK..], keys));
    }
  }

  lemma TimesPower(c: int, k: int, e: nat, rest: int)
    ensures (c * Pow(k, e) + rest) * k == c * Pow(k, e + 1) + rest * k
  {
  }

  /** Horner's rule computes that polynomial. */
  lemma {:induction false} HornerIsPolynomial(ws: seq<Word>, keys: Keys)
    requires keys.Ok() && Blocks(ws)
    ensures Cong(Horner(ws, keys), Polynomial(ws, keys), P127)
    decreases |ws|
  {
    hide Cong, Nh, Terms, Wide, Pow, Horner;
    var k := keys.Poly();
    if ws == [] {
      EmptyTerms(keys);
      CongRefl(1, P127);
    } else {
      var n := |ws| - BLOCK;
      var a, b := ws[..n], ws[n..];
      assert ws == a + b;
      HornerIsPolynomial(a, keys);
      HornerSnoc(a, b, keys);
      TermsSnoc(a, b, keys);
      assert |ws| / BLOCK == |a| / BLOCK + 1;
      TimesPower(1, k, |a| / BLOCK, Terms(a, keys));
      ReducedStep(Horner(a, keys), Pow(k, |a| / BLOCK) + Terms(a, keys), k, Nh(b, keys.nh));
    }
  }

  lemma EmptyTerms(keys: Keys)
    requires keys.Ok()
    ensures Terms([], keys) == 0 && Pow(keys.Poly(), 0) == 1 && Horner([], keys) == 1
  {
  }

  /** A register pair that stands for the hash so far stands for the next one after a polynomial step. */
  lemma StepKeeps(ws: seq<Word>, b: seq<Word>, keys: Keys, acc: nat, acc': nat)
    requires keys.Ok() && Blocks(ws) && |b| == BLOCK && Cong(Horner(ws, keys), acc, P127)
    requires Cong(acc * keys.Poly() + Nh(b, keys.nh), acc', P127)
    ensures Blocks(ws + b) && Cong(Horner(ws + b, keys), acc', P127)
  {
    hide Cong, Horner, Nh;
    var h, k, n := Horner(ws, keys), keys.Poly(), Nh(b, keys.nh);
    HornerSnoc(ws, b, keys);
    ReducedStep(h, acc, k, n);
    CongTrans(Horner(ws + b, keys), acc * k + n, acc', P127);
  }

  lemma StepValue(h: int, acc: int, k: int, n: int)
    requires Cong(h, acc, P127)
    ensures Cong(h * k + n, acc * k + n, P127)
  {
    hide Cong;
    CongRefl(k, P127);
    CongRefl(n, P127);
    CongMul(h, acc, k, k, P127);
    CongAdd(h * k, acc * k, n, n, P127);
  }

  lemma ReducedStep(h: int, acc: int, k: int, n: int)
    requires Cong(h, acc, P127)
    ensures Cong((h * k + n) % P127, acc * k + n, P127)
  {
    hide Cong;
    StepValue(h, acc, k, n);
    var x := h * k + n;
    CongMod(x, P127);
    CongSym(x, x % P127, P127);
    CongTrans(x % P127, x, acc * k + n, P127);
  }

  /** The first block is added to the key without a multiplication. */
  lemma FirstBlock(b: seq<Word>, keys: Keys, acc: nat)
    requires keys.Ok() && |b| == BLOCK && acc == keys.Poly() + Nh(b, keys.nh)
    ensures Cong(Horner(b, keys), acc, P127)
  {
    hide Cong, Nh;
    CongRefl(1, P127);
    CongRefl(acc, P127);
    assert [] + b == b && Horner([], keys) == 1;
    StepKeeps([], b, keys, 1, acc);
  }

  lemma KeyPlusNh(keys: Keys, h: Word, l: Word)
    requires keys.Ok() && h < B62
    ensures keys.Poly() + Wide(h, l) < B64 * B64
  {
  }

  lemma WordsSplit(mbytes: nat)
    ensures TailWords(mbytes) == mbytes / 128 * BLOCK + TailWords(mbytes % 128)
    ensures TailWords(mbytes % 128) <= BLOCK && (mbytes % 128 > 0 <==> TailWords(mbytes % 128) > 0)
  {
    var q, r := mbytes / 128, mbytes % 128;
    var k := (r + 15) / 16;
    DivModUnique(mbytes + 15, 16, 8 * q + k, (r + 15) % 16);
  }

  /** The partial block after whole blocks. */
  lemma TailValue(ws: seq<Word>, tail: seq<Word>, remaining: nat, keys: Keys, acc: nat, acc': nat)
    requires keys.Ok() && Blocks(ws) && 0 < remaining < 128 && |tail| == TailWords(remaining) <= BLOCK
    requires Cong(Horner(ws, keys), acc, P127) && Cong(acc * keys.Poly() + Nh(tail, keys.nh), acc', P127)
    ensures Blocks((ws + tail)[..|ws + tail| - TailWords(remaining)])
    ensures Cong(Value(ws + tail, remaining, keys), acc', P127)
  {
    hide Cong, Horner, Nh;
    assert (ws + tail)[..|ws|] == ws && (ws + tail)[|ws|..] == tail;
    var h, k, n := Horner(ws, keys), keys.Poly(), Nh(tail, keys.nh);
    ReducedStep(h, acc, k, n);
    CongTrans((h * k + n) % P127, acc * k + n, acc', P127);
  }

  /** A message with a partial block is a monic polynomial too, with the partial block as its last coefficient. */
  lemma TailPolynomial(ws: seq<Word>, tail: seq<Word>, remaining: nat, keys: Keys)
    requires keys.Ok() && Blocks(ws) && 0 < remaining < 128 && |tail| == TailWords(remaining) <= BLOCK
    ensures (ws + tail)[..|ws + tail| - TailWords(remaining)] == ws
    ensures Cong(Value(ws + tail, remaining, keys), Polynomial(ws, keys) * keys.Poly() + Nh(tail, keys.nh), P127)
  {
    hide Cong, Nh, Polynomial, Horner, Wide, Value;
    var h, k, n := Horner(ws, keys), keys.Poly(), Nh(tail, keys.nh);
    HornerIsPolynomial(ws, keys);
    CongRefl(h, P127);
    CongRefl(h * k + n, P127);
    TailValue(ws, tail, remaining, keys, h, h * k + n);
    StepValue(h, Polynomial(ws, keys), k, n);
    CongTrans(Value(ws + tail, remaining, keys), h * k + n, Polynomial(ws, keys) * k + n, P127);
  }

  /** A message of one partial block. */
  lemma OnlyTail(tail: seq<Word>, remaining: nat, keys: Keys, acc: nat)
    requires keys.Ok() && 0 < remaining < 128 && |tail| == TailWords(remaining) <= BLOCK
    requires acc == keys.Poly() + Nh(tail, keys.nh)
    ensures Blocks(tail[..|tail| - TailWords(remaining)]) && Cong(Value(tail, remaining, keys), acc, P127)
  {
    hide Cong, Nh;
    CongRefl(1, P127);
    CongRefl(acc, P127);
    assert [] + tail == tail;
    TailValue([], tail, remaining, keys, 1, acc);
  }

  lemma FinalAgrees(v: nat, h: Word, l: Word, len: Word)
    requires Cong(v, Wide(h, l), P127)
    ensures (v + len * B64) % P127 == Folded(h, l, len)
  {
  }

  // ----- nonces

  type Nonce = n: seq<int> | |n| == 16 && forall b <- n :: 0 <= b < 256
    witness [0, 0, 0, 0, 0, 0, 0, 0, 0, 0, 0, 0, 0, 0, 0, 0]

  /** The content of the nonce cache of a fresh context. */
  const ILLEGAL: Nonce := [255, 255, 255, 255, 255, 255, 255, 255, 0, 0, 0, 0, 0, 0, 0, 0]

  function LowBit(n: Nonce): nat {
    n[15] % 2
  }

  function WithBit(n: Nonce, bit: nat): Nonce
    requires bit < 2
  {
    n[15 := n[15] - n[15] % 2 + bit]
  }

  function Half(p: (Word, Word), i: nat): Word {
    if i == 0 then p.0 else p.1
  }

  /** The pad of a nonce. */
  function Pad(n: Nonce, cipher: Nonce -> (Word, Word)): Word {
    Half(cipher(WithBit(n, 0)), LowBit(n))
  }

  /** An even nonce takes the first word of its own encryption, an odd one the second word of that of the nonce before it. */
  lemma PadIs(n: Nonce, cipher: Nonce -> (Word, Word))
    ensures n[15] % 2 == 0 ==> Pad(n, cipher) == cipher(n).0
    ensures n[15] % 2 == 1 ==> Pad(n, cipher) == cipher(n[15 := n[15] - 1]).1
  {
    if n[15] % 2 == 0 {
      assert WithBit(n, 0) == n;
    }
  }

  /**
   * The words of two encrypted blocks are different, over the blocks and over their halves. (Of all blocks at once this
   * cannot hold: there are more blocks than words.)
   */
  ghost predicate Scattered(a: Nonce, b: Nonce, cipher: Nonce -> (Word, Word)) {
    && cipher(a).0 != cipher(a).1 && cipher(b).0 != cipher(b).1
    && (a != b ==> cipher(a).0 !in {cipher(b).0, cipher(b).1} && cipher(a).1 !in {cipher(b).0, cipher(b).1})
  }

  /** The nonce with its last byte made even. */
  function EvenNonce(n: Nonce): Nonce {
    if n[15] % 2 == 0 then n else n[15 := n[15] - 1]
  }

  /** The other nonce of a pair. */
  function Partner(n: Nonce): Nonce {
    if n[15] % 2 == 0 then n[15 := n[15] + 1] else n[15 := n[15] - 1]
  }

  /** The two nonces of a pair share one block and take its two halves. */
  lemma PartnersShare(n: Nonce, cipher: Nonce -> (Word, Word))
    ensures Partner(Partner(n)) == n != Partner(n) && EvenNonce(Partner(n)) == EvenNonce(n)
    ensures {Pad(n, cipher), Pad(Partner(n), cipher)} == {cipher(EvenNonce(n)).0, cipher(EvenNonce(n)).1}
  {
    hide Pad;
    PadIs(n, cipher);
    PadIs(Partner(n), cipher);
    assert Partner(n)[15] != n[15];
    assert Partner(Partner(n)) == n;
  }

  /** Unless the encryptions themselves repeat a word, two nonces do not share a pad. */
  lemma PadsDiffer(n: Nonce, m: Nonce, cipher: Nonce -> (Word, Word))
    requires Scattered(EvenNonce(n), EvenNonce(m), cipher)
    ensures Pad(n, cipher) == Pad(m, cipher) <==> n == m
  {
    hide Pad;
    PadIs(n, cipher);
    PadIs(m, cipher);
    if Pad(n, cipher) == Pad(m, cipher) && n[15] % 2 == 1 && m[15] % 2 == 1 {
      SameBefore(n, m);
    }
  }

  lemma SameBefore(n: Nonce, m: Nonce)
    requires n[15 := n[15] - 1] == m[15 := m[15] - 1]
    ensures n == m
  {
    var a, b := n[15 := n[15] - 1], m[15 := m[15] - 1];
    assert a[15] == n[15] - 1 && b[15] == m[15] - 1;
    assert forall i :: 0 <= i < 15 ==> n[i] == a[i] && m[i] == b[i];
  }

  /** The tag of a whole message, with no state and no cache. */
  ghost function Tag(ws: seq<Word>, remaining: nat, n: Nonce, keys: Keys, cipher: Nonce -> (Word, Word)): Word
    requires keys.Ok() && remaining < 128 && TailWords(remaining) <= |ws| && Blocks(ws[..|ws| - TailWords(remaining)])
  {
    Add(Pad(n, cipher), Hash(ws, remaining, keys))
  }

  /** Tags of one message under different nonces differ. */
  lemma TagsDiffer(ws: seq<Word>, remaining: nat, n: Nonce, m: Nonce, keys: Keys, cipher: Nonce -> (Word, Word))
    requires keys.Ok() && remaining < 128 && TailWords(remaining) <= |ws| && Blocks(ws[..|ws| - TailWords(remaining)])
    requires Scattered(EvenNonce(n), EvenNonce(m), cipher)
    ensures Tag(ws, remaining, n, keys, cipher) == Tag(ws, remaining, m, keys, cipher) <==> n == m
  {
    hide Pad, Hash, Scattered;
    PadsDiffer(n, m, cipher);
    AddCancels(Pad(n, cipher), Pad(m, cipher), Hash(ws, remaining, keys));
  }

  lemma AddCancels(a: Word, b: Word, h: Word)
    ensures Add(a, h) == Add(b, h) <==> a == b
  {
  }

  // ----- the key schedule

  /** The block that is encrypted for the c-th pair of words of a key part. */
  function KeyBlock(part: nat, c: nat): Nonce
    requires part < 256 && c < 256
  {
    [part, 0, 0, 0, 0, 0, 0, 0, 0, 0, 0, 0, 0, 0, 0, c]
  }

  /** No block is encrypted twice. */
  lemma KeyBlocksDiffer(part: nat, c: nat, part': nat, c': nat)
    requires part < 256 && c < 256 && part' < 256 && c' < 256
    ensures KeyBlock(part, c) == KeyBlock(part', c') <==> part == part' && c == c'
    ensures KeyBlock(part, c)[0] == part && KeyBlock(part, c)[15] == c
    ensures forall i :: 0 < i < 15 ==> KeyBlock(part, c)[i] == 0
  {
    assert KeyBlock(part, c)[0] == part && KeyBlock(part, c)[15] == c;
    assert KeyBlock(part', c')[0] == part' && KeyBlock(part', c')[15] == c';
  }

  predicate Fits(w: (Word, Word)) {
    w.0 < P64 && w.1 < P64
  }

  /** The words of the hash key. */
  ghost predicate HashKey(aes: Nonce -> (Word, Word), nh: seq<Word>) {
    forall i :: 0 <= i < |nh| <= 2 * BLOCK ==> nh[i] == Half(aes(KeyBlock(0x80, i / 2)), i % 2)
  }

  /** The first pair whose words are both below 2^64 - 257. */
  ghost predicate FirstFit(aes: Nonce -> (Word, Word), c: nat) {
    c < 256 && Fits(aes(KeyBlock(0xE0, c))) && forall i :: 0 <= i < c ==> !Fits(aes(KeyBlock(0xE0, i)))
  }

  /** The keys of a cipher. */
  ghost predicate Scheduled(aes: Nonce -> (Word, Word), k: Keys) {
    && |k.nh| == BLOCK && HashKey(aes, k.nh)
    && k.polyHi == Mask(aes(KeyBlock(0xC0, 0)).0) && k.polyLo == Mask(aes(KeyBlock(0xC0, 0)).1)
    && exists c :: FirstFit(aes, c) && (k.l3a, k.l3b) == aes(KeyBlock(0xE0, c))
  }

  /** The words of the keys, read off the encrypted blocks. */
  lemma ScheduledWords(aes: Nonce -> (Word, Word), k: Keys, c: nat)
    requires Scheduled(aes, k) && c < 8
    ensures k.nh[2 * c] == aes([0x80, 0, 0, 0, 0, 0, 0, 0, 0, 0, 0, 0, 0, 0, 0, c]).0
    ensures k.nh[2 * c + 1] == aes([0x80, 0, 0, 0, 0, 0, 0, 0, 0, 0, 0, 0, 0, 0, 0, c]).1
    ensures k.polyHi == Mask(aes([0xC0, 0, 0, 0, 0, 0, 0, 0, 0, 0, 0, 0, 0, 0, 0, 0]).0)
    ensures k.polyLo == Mask(aes([0xC0, 0, 0, 0, 0, 0, 0, 0, 0, 0, 0, 0, 0, 0, 0, 0]).1)
  {
    hide Mask;
    assert 2 * c / 2 == c && (2 * c + 1) / 2 == c;
  }

  /** The keys of the final hash: the first pair of words that are both residues modulo 2^64-257. */
  lemma ScheduledLast(aes: Nonce -> (Word, Word), k: Keys) returns (c: nat)
    requires Scheduled(aes, k)
    ensures c < 256 && k.l3a == aes([0xE0, 0, 0, 0, 0, 0, 0, 0, 0, 0, 0, 0, 0, 0, 0, c]).0
    ensures k.l3b == aes([0xE0, 0, 0, 0, 0, 0, 0, 0, 0, 0, 0, 0, 0, 0, 0, c]).1
    ensures k.l3a % P64 == k.l3a && k.l3b % P64 == k.l3b
    ensures forall i :: 0 <= i < c ==>
              var w := aes(KeyBlock(0xE0, i)); !(w.0 % P64 == w.0 && w.1 % P64 == w.1)
  {
    hide Mask;
    c :| FirstFit(aes, c) && (k.l3a, k.l3b) == aes(KeyBlock(0xE0, c));
    forall i | 0 <= i < c
      ensures var w := aes(KeyBlock(0xE0, i)); !(w.0 % P64 == w.0 && w.1 % P64 == w.1)
    {
      FitsIff(aes(KeyBlock(0xE0, i)));
    }
  }

  /** A cipher has one key schedule, and it takes the first pair of words that are residues modulo 2^64-257. */
  lemma ScheduledUnique(aes: Nonce -> (Word, Word), j: Keys, k: Keys)
    requires Scheduled(aes, j) && Scheduled(aes, k)
    ensures j == k
  {
    hide Mask;
    var b :| FirstFit(aes, b) && (j.l3a, j.l3b) == aes(KeyBlock(0xE0, b));
    var c :| FirstFit(aes, c) && (k.l3a, k.l3b) == aes(KeyBlock(0xE0, c));
    assert b == c;
    assert forall i :: 0 <= i < BLOCK ==> j.nh[i] == k.nh[i];
    assert j.nh == k.nh;
  }

  lemma FitsIff(w: (Word, Word))
    ensures Fits(w) <==> w.0 % P64 == w.0 && w.1 % P64 == w.1
  {
  }

  method FillHashKey(aes: Nonce -> (Word, Word)) returns (nh: seq<Word>)
    ensures |nh| == BLOCK && HashKey(aes, nh)
  {
    nh := [];
    for c := 0 to BLOCK / 2
      invariant |nh| == 2 * c && HashKey(aes, nh)
    {
      var out := aes(KeyBlock(0x80, c));
      nh := nh + [out.0, out.1];
    }
  }

  /** The loop does not end if no pair fits. */
  method FillLastKey(aes: Nonce -> (Word, Word)) returns (l3: (Word, Word), ghost c: nat)
    requires exists j :: 0 <= j < 256 && Fits(aes(KeyBlock(0xE0, j)))
    ensures FirstFit(aes, c) && l3 == aes(KeyBlock(0xE0, c))
  {
    var i := 0;
    l3 := aes(KeyBlock(0xE0, 0));
    while !Fits(l3)
      invariant 0 <= i < 256 && l3 == aes(KeyBlock(0xE0, i)) && forall k :: 0 <= k < i ==> !Fits(aes(KeyBlock(0xE0, k)))
      decreases 256 - i
    {
      assert i < 255;
      i := i + 1;
      l3 := aes(KeyBlock(0xE0, i));
    }
    c := i;
  }

  method KeySchedule(aes: Nonce -> (Word, Word)) returns (k: Keys)
    requires exists j :: 0 <= j < 256 && Fits(aes(KeyBlock(0xE0, j)))
    ensures k.Ok() && Scheduled(aes, k)
  {
    hide Mask, HashKey, KeyBlock;
    var nh := FillHashKey(aes);
    var poly := aes(KeyBlock(0xC0, 0));
    var l3, c := FillLastKey(aes);
    k := Keys(nh, Mask(poly.0), Mask(poly.1), l3.0, l3.1);
  }

  class Context {
    const keys: Keys
    const cipher: Nonce -> (Word, Word)
    var tmpHi: Word
    var tmpLo: Word
    var firstBlockProcessed: bool
    var cachedNonce: Nonce
    var cachedAes: (Word, Word)
    ghost var absorbed: seq<Word>
    ghost var primed: bool

    /** The accumulator stands for the blocks absorbed since the last finish. */
    ghost predicate HashOk()
      reads this`tmpHi, this`tmpLo, this`firstBlockProcessed, this`absorbed
    {
      && keys.Ok() && Blocks(absorbed) && (firstBlockProcessed <==> absorbed != [])
      && (!firstBlockProcessed ==> tmpHi == keys.polyHi && tmpLo == keys.polyLo)
      && (firstBlockProcessed ==> Cong(Horner(absorbed, keys), Wide(tmpHi, tmpLo), P127))
    }

    /** Once primed, the cache holds the encryption of its nonce with the low bit cleared. */
    ghost predicate CacheOk()
      reads this`primed, this`cachedAes, this`cachedNonce
    {
      if primed then cachedAes == cipher(WithBit(cachedNonce, 0)) else cachedNonce == ILLEGAL
    }

    ghost predicate Valid()
      reads this
    {
      HashOk() && CacheOk()
    }

    /** vmac_set_key; the cached pad is whatever the memory holds. */
    constructor (aes: Nonce -> (Word, Word), garbage: (Word, Word))
      requires exists j :: 0 <= j < 256 && Fits(aes(KeyBlock(0xE0, j)))
      ensures Valid() && absorbed == [] && !primed && cipher == aes && cachedAes == garbage && Scheduled(aes, keys)
    {
      var k := KeySchedule(aes);
      keys, cipher := k, aes;
      tmpHi, tmpLo, firstBlockProcessed := k.polyHi, k.polyLo, false;
      cachedNonce, cachedAes := ILLEGAL, garbage;
      absorbed, primed := [], false;
    }

    /** The loop over whole blocks that update and the final call share. */
    method Absorb(m: seq<Word>, ch0: Word, cl0: Word, ghost before: seq<Word>) returns (ch: Word, cl: Word)
      requires keys.Ok() && Blocks(before) && Blocks(m) && Cong(Horner(before, keys), Wide(ch0, cl0), P127)
      ensures Blocks(before + m) && Cong(Horner(before + m, keys), Wide(ch, cl), P127)
    {
      hide Cong, Horner, Nh, Wide;
      ch, cl := ch0, cl0;
      var pos := 0;
      assert before + m[..0] == before;
      while pos < |m|
        invariant 0 <= pos <= |m| && Blocks(m[..pos]) && Blocks(before + m[..pos])
        invariant Cong(Horner(before + m[..pos], keys), Wide(ch, cl), P127)
        decreases |m| - pos
      {
        ghost var acc, b := Wide(ch, cl), m[pos..pos + BLOCK];
        var rh, rl := NhWords(m[pos..pos + BLOCK], keys.nh);
        ch, cl := PolyStep(ch, cl, keys.polyHi, keys.polyLo, rh, rl);
        StepKeeps(before + m[..pos], b, keys, acc, Wide(ch, cl));
        assert before + m[..pos] + b == before + m[..pos + BLOCK];
        pos := pos + BLOCK;
      }
      assert m[..pos] == m;
    }

    /** The first block is added to the key. */
    method Begin(b: seq<Word>) returns (ch: Word, cl: Word)
      requires keys.Ok() && |b| == BLOCK
      ensures Cong(Horner(b, keys), Wide(ch, cl), P127)
    {
      var rh, rl := NhWords(b, keys.nh);
      KeyPlusNh(keys, rh, rl);
      ch, cl := Add128(rh, rl, keys.polyHi, keys.polyLo);
      FirstBlock(b, keys, Wide(ch, cl));
    }

    /** Whole blocks on top of what has been absorbed: the first block of a message is added, the others are steps. */
    method Whole(m: seq<Word>) returns (ch: Word, cl: Word)
      requires HashOk() && Blocks(m) && (firstBlockProcessed || m != [])
      ensures Blocks(absorbed + m) && Cong(Horner(absorbed + m, keys), Wide(ch, cl), P127)
    {
      hide Cong, Horner, Wide;
      if firstBlockProcessed {
        ch, cl := Absorb(m, tmpHi, tmpLo, absorbed);
      } else {
        ch, cl := Begin(m[..BLOCK]);
        ch, cl := Absorb(m[BLOCK..], ch, cl, m[..BLOCK]);
        assert m[..BLOCK] + m[BLOCK..] == absorbed + m;
      }
    }

    /** vhash_update: whole blocks join the message. */
    method Update(m: seq<Word>)
      requires Valid() && m != [] && Blocks(m)
      modifies this`tmpHi, this`tmpLo, this`firstBlockProcessed, this`absorbed
      ensures Valid() && absorbed == old(absorbed) + m
    {
      hide Cong, Horner, Wide, CacheOk;
      var ch, cl := Whole(m);
      firstBlockProcessed := true;
      tmpHi, tmpLo := ch, cl;
      absorbed := absorbed + m;
    }

    method Abort()
      requires Valid()
      modifies this`tmpHi, this`tmpLo, this`firstBlockProcessed, this`absorbed
      ensures Valid() && absorbed == []
    {
      tmpHi, tmpLo, firstBlockProcessed := keys.polyHi, keys.polyLo, false;
      absorbed := [];
    }

    /** The value of the message in the accumulator, before the final hash. */
    method Accumulate(m: seq<Word>, mbytes: nat) returns (ch: Word, cl: Word)
      requires HashOk() && |m| == TailWords(mbytes)
      ensures Blocks((absorbed + m)[..|absorbed + m| - TailWords(mbytes % 128)])
      ensures Cong(Value(absorbed + m, mbytes % 128, keys), Wide(ch, cl), P127)
    {
      hide Cong, Horner, Wide, Nh;
      WordsSplit(mbytes);
      var whole, remaining := mbytes / 128 * BLOCK, mbytes % 128;
      if firstBlockProcessed || whole > 0 {
        ch, cl := Whole(m[..whole]);
        ch, cl := TailStep(m[whole..], remaining, ch, cl, absorbed + m[..whole]);
        assert absorbed + m == absorbed + m[..whole] + m[whole..];
      } else if remaining > 0 {
        ch, cl := TailFirst(m, remaining);
        assert absorbed + m == m;
      } else {
        ch, cl := keys.polyHi, keys.polyLo;
        CongRefl(Wide(ch, cl), P127);
      }
    }

    /** The partial block, if there is one, after whole blocks. */
    method TailStep(tail: seq<Word>, remaining: nat, ch0: Word, cl0: Word, ghost ws: seq<Word>) returns (ch: Word, cl: Word)
      requires keys.Ok() && Blocks(ws) && ws != [] && Cong(Horner(ws, keys), Wide(ch0, cl0), P127)
      requires remaining < 128 && |tail| == TailWords(remaining) <= BLOCK
      ensures Blocks((ws + tail)[..|ws + tail| - TailWords(remaining)])
      ensures Cong(Value(ws + tail, remaining, keys), Wide(ch, cl), P127)
    {
      hide Cong, Horner, Wide, Nh;
      ch, cl := ch0, cl0;
      if remaining > 0 {
        var rh, rl := NhWords(tail, keys.nh);
        ch, cl := PolyStep(ch, cl, keys.polyHi, keys.polyLo, rh, rl);
        TailValue(ws, tail, remaining, keys, Wide(ch0, cl0), Wide(ch, cl));
      } else {
        assert ws + tail == ws;
      }
    }

    method TailFirst(m: seq<Word>, remaining: nat) returns (ch: Word, cl: Word)
      requires keys.Ok() && 0 < remaining < 128 && |m| == TailWords(remaining) <= BLOCK
      ensures Blocks(m[..|m| - TailWords(remaining)]) && Cong(Value(m, remaining, keys), Wide(ch, cl), P127)
    {
      hide Cong, Horner, Nh;
      var rh, rl := NhWords(m, keys.nh);
      KeyPlusNh(keys, rh, rl);
      ch, cl := Add128(rh, rl, keys.polyHi, keys.polyLo);
      OnlyTail(m, remaining, keys, Wide(ch, cl));
    }

    /** vhash: the hash of everything absorbed and of m, however the message was divided; the state starts over. */
    method Finish(m: seq<Word>, mbytes: nat) returns (h: Word)
      requires Valid() && |m| == TailWords(mbytes)
      modifies this`tmpHi, this`tmpLo, this`firstBlockProcessed, this`absorbed
      ensures Valid() && absorbed == []
      ensures var ws := old(absorbed) + m;
              && TailWords(mbytes % 128) <= |ws| && Blocks(ws[..|ws| - TailWords(mbytes % 128)])
              && h == Hash(ws, mbytes % 128, keys)
              && h == Final((Value(ws, mbytes % 128, keys) + 8 * (mbytes % 128) * B64) % P127, keys.l3a, keys.l3b)
    {
      hide Cong, Horner, Wide, Nh, Folded, Final;
      WordsSplit(mbytes);
      var ch, cl := Accumulate(m, mbytes);
      FinalAgrees(Value(absorbed + m, mbytes % 128, keys), ch, cl, 8 * (mbytes % 128));
      Abort();
      h := L3Hash(ch, cl, keys.l3a, keys.l3b, 8 * (mbytes % 128));
    }

    /**
     * vmac: the tag of the whole message under a nonce, whatever the cache holds. Before the first other nonce, the one
     * that marks an empty cache takes the pad from memory that was never written.
     */
    method Mac(m: seq<Word>, mbytes: nat, n: Nonce) returns (tag: Word)
      requires Valid() && |m| == TailWords(mbytes)
      modifies this
      ensures Valid() && absorbed == [] && (primed <==> old(primed) || n != ILLEGAL)
      // one encryption serves a nonce and the other one of its pair: that is the one the cache waits for
      ensures n == old(cachedNonce) ==> cachedNonce == n && cachedAes == old(cachedAes)
      ensures n != old(cachedNonce) ==> cachedNonce == Partner(n) && cachedAes == cipher(EvenNonce(n))
      ensures var ws := old(absorbed) + m;
              && TailWords(mbytes % 128) <= |ws| && Blocks(ws[..|ws| - TailWords(mbytes % 128)])
              && (primed ==> tag == Tag(ws, mbytes % 128, n, keys, cipher))
              && (primed && n[15] % 2 == 0 ==> tag == Add(cipher(n).0, Hash(ws, mbytes % 128, keys)))
              && (primed && n[15] % 2 == 1 ==> tag == Add(cipher(n[15 := n[15] - 1]).1, Hash(ws, mbytes % 128, keys)))
              && (!primed ==> tag == Add(old(cachedAes).0, Hash(ws, mbytes % 128, keys)))
    {
      hide Cong, Horner, Wide, Nh, HashOk, Hash, Add;
      var i := n[15] % 2;
      if n != cachedNonce {
        cachedNonce := WithBit(n, 0);
        cachedAes := cipher(cachedNonce);
        cachedNonce := WithBit(cachedNonce, 1 - i);
        primed := true;
      }
      BitsAgree(n, cachedNonce);
      PairBits(n);
      PadIs(n, cipher);
      var p := Half(cachedAes, i);
      var h := Finish(m, mbytes);
      tag := Add(p, h);
    }
  }

  lemma PairBits(n: Nonce)
    ensures WithBit(n, 0) == EvenNonce(n) && WithBit(WithBit(n, 0), 1 - n[15] % 2) == Partner(n)
  {
  }

  /** Clearing the low bit forgets it. */
  lemma BitsAgree(n: Nonce, c: Nonce)
    ensures WithBit(WithBit(n, 0), 0) == WithBit(n, 0)
    ensures WithBit(WithBit(WithBit(n, 0), 1 - LowBit(n)), 0) == WithBit(n, 0)
  {
  }
}
