/** Label lists as dotted text and in the wire form of section 3.1 of RFC 1035, and label-aligned suffixes. */
module Labels {
  import opened Common

  type Byte = b: int | 0 <= b < 256

  const DOT: Byte := 46
  const SPACE: Byte := 32
  const STAR: Byte := 42
  const MAX_LEN := 255

  type Label = seq<Byte>

  function ToLower(c: Byte): Byte {
    if 65 <= c <= 90 then c + 32 else c
  }

  /** What keeps a label in one piece inside a null-terminated dotted string. */
  ghost predicate Clean(l: Label) {
    0 < |l| < 256 && forall c <- l :: c != DOT && c != 0
  }

  /** A clean label that serialisation copies unchanged. */
  ghost predicate Plain(l: Label) {
    Clean(l) && forall c <- l :: c != SPACE && ToLower(c) == c
  }

  /** Each label has a length that its length byte can hold. */
  ghost predicate Fits(ls: seq<Label>) {
    forall l <- ls :: 0 < |l| < 256
  }

  ghost predicate Short(ls: seq<Label>) {
    forall l <- ls :: |l| < 256
  }

  ghost predicate AllClean(ls: seq<Label>) {
    forall l <- ls :: Clean(l)
  }

  ghost predicate AllPlain(ls: seq<Label>) {
    forall l <- ls :: Plain(l)
  }

  // ----- text

  /** The labels joined by dots. */
  ghost function Dotted(ls: seq<Label>): (s: seq<Byte>)
    requires ls != []
  {
    if |ls| == 1 then ls[0] else ls[0] + [DOT] + Dotted(ls[1..])
  }

  /** The stored text: the root is a single space. */
  ghost function Text(ls: seq<Label>): seq<Byte> {
    if ls == [] then [SPACE] else Dotted(ls)
  }

  /** The pieces of a string between its dots. */
  ghost function Split(s: seq<Byte>): (ls: seq<Label>)
    ensures ls != []
  {
    if s == [] then [[]]
    else
      var rest := Split(s[1..]);
      if s[0] == DOT then [[]] + rest else [[s[0]] + rest[0]] + rest[1..]
  }

  lemma SplitCons(c: Byte, s: seq<Byte>)
    ensures Split([c] + s) == if c == DOT then [[]] + Split(s) else [[c] + Split(s)[0]] + Split(s)[1..]
  {
  }

  lemma {:induction false} SplitJoin(x: seq<Byte>, y: seq<Byte>)
    ensures Split(x + [DOT] + y) == Split(x) + Split(y)
    decreases |x|
  {
    if x == [] {
      SplitCons(DOT, y);
      assert x + [DOT] + y == [DOT] + y;
    } else {
      hide Split;
      var c, rest := x[0], x[1..];
      SplitJoin(rest, y);
      assert x == [c] + rest && x + [DOT] + y == [c] + (rest + [DOT] + y);
      SplitCons(c, rest);
      SplitCons(c, rest + [DOT] + y);
      JoinFirst(Split(rest), Split(y), c);
    }
  }

  lemma JoinFirst(a: seq<Label>, b: seq<Label>, c: Byte)
    requires a != []
    ensures [[c] + (a + b)[0]] + (a + b)[1..] == ([[c] + a[0]] + a[1..]) + b
    ensures [[]] + (a + b) == ([[]] + a) + b
  {
  }

  lemma {:induction false} SplitLabel(l: Label)
    requires forall c <- l :: c != DOT
    ensures Split(l) == [l]
    decreases |l|
  {
    if l != [] {
      assert l[0] in l && forall c <- l[1..] :: c in l;
      SplitLabel(l[1..]);
      assert [l[0]] + l[1..] == l;
    }
  }

  lemma {:induction false} SplitDotted(ls: seq<Label>)
    requires ls != [] && AllClean(ls)
    ensures Split(Dotted(ls)) == ls
    decreases |ls|
  {
    assert Clean(ls[0]);
    SplitLabel(ls[0]);
    if |ls| > 1 {
      SplitDotted(ls[1..]);
      SplitJoin(ls[0], Dotted(ls[1..]));
      assert [ls[0]] + ls[1..] == ls;
    } else {
      assert ls == [ls[0]];
    }
  }

  lemma {:induction false} DottedAppend(a: seq<Label>, b: seq<Label>)
    requires a != [] && b != []
    ensures Dotted(a + b) == Dotted(a) + [DOT] + Dotted(b)
    decreases |a|
  {
    assert (a + b)[1..] == a[1..] + b;
    if |a| > 1 {
      DottedAppend(a[1..], b);
    } else {
      assert a[1..] + b == b;
    }
  }

  // ----- wire form

  /** Each label behind its length, then a zero byte. */
  ghost function Wire(ls: seq<Label>): (w: seq<Byte>)
    requires Fits(ls)
  {
    if ls == [] then [0] else Framed(ls[0]) + Wire(ls[1..])
  }

  /** A label behind its length. */
  function Framed(l: Label): seq<Byte>
    requires |l| < 256
  {
    [|l|] + l
  }

  /** The labels that a buffer starts with; any nonempty bytes count as a label. */
  ghost function Decode(b: seq<Byte>): (r: Option<seq<Label>>)
    ensures r.Some? ==> Fits(r.value)
    decreases |b|
  {
    if b == [] then None
    else if b[0] == 0 then Some([])
    else if b[0] + 1 > |b| then None
    else
      match Decode(b[b[0] + 1..])
      case None => None
      case Some(ls) => Some([b[1..b[0] + 1]] + ls)
  }

  /** Decoding finds the labels again, whatever follows them in the buffer. */
  lemma {:induction false} DecodeWire(ls: seq<Label>, junk: seq<Byte>)
    requires Fits(ls)
    ensures Decode(Wire(ls) + junk) == Some(ls)
    decreases |ls|
  {
    if ls == [] {
      assert (Wire(ls) + junk)[0] == 0;
    } else {
      hide Decode;
      assert ls[0] in ls;
      DecodeWire(ls[1..], junk);
      DecodeFramed(ls[0], Wire(ls[1..]) + junk);
      assert Wire(ls) + junk == Framed(ls[0]) + (Wire(ls[1..]) + junk);
      assert [ls[0]] + ls[1..] == ls;
    }
  }

  /** What decodes begins with the wire form of its labels. */
  lemma {:induction false} WireDecode(b: seq<Byte>)
    requires Decode(b).Some?
    ensures |Wire(Decode(b).value)| <= |b| && Wire(Decode(b).value) == b[..|Wire(Decode(b).value)|]
    decreases |b|
  {
    hide Decode;
    DecodeShape(b);
    if b[0] != 0 {
      var l, rest := b[1..b[0] + 1], b[b[0] + 1..];
      assert b == Framed(l) + rest;
      DecodeFramed(l, rest);
      WireDecode(rest);
      var tail := Decode(rest).value;
      assert Decode(b).value == [l] + tail && ([l] + tail)[1..] == tail;
    }
  }

  lemma DecodeShape(b: seq<Byte>)
    requires Decode(b).Some?
    ensures b != [] && (b[0] == 0 ==> Decode(b).value == []) && b[0] + 1 <= |b|
  {
  }

  lemma {:induction false} WireLength(ls: seq<Label>)
    requires ls != [] && Fits(ls)
    ensures |Wire(ls)| == |Dotted(ls)| + 2
    decreases |ls|
  {
    assert ls[0] in ls;
    if |ls| > 1 {
      WireLength(ls[1..]);
    } else {
      assert ls[1..] == [];
    }
  }

  /** The framed labels without the closing zero. */
  ghost function Head(ls: seq<Label>): seq<Byte>
    requires Short(ls)
  {
    if ls == [] then [] else Head(ls[..|ls| - 1]) + Framed(ls[|ls| - 1])
  }

  lemma {:induction false} WireAppend(a: seq<Label>, b: seq<Label>)
    requires Fits(a) && Fits(b)
    ensures Fits(a + b) && Wire(a + b) == Head(a) + Wire(b)
    decreases |a|
  {
    if a == [] {
      assert a + b == b;
    } else {
      var n := |a| - 1;
      assert a[n] in a && a[..n] + ([a[n]] + b) == a + b;
      WireAppend(a[..n], [a[n]] + b);
      assert ([a[n]] + b)[1..] == b;
      assert Head(a[..n]) + (Framed(a[n]) + Wire(b)) == (Head(a[..n]) + Framed(a[n])) + Wire(b);
    }
  }

  lemma HeadSnoc(a: seq<Label>, l: Label)
    requires Short(a) && |l| < 256
    ensures Short(a + [l]) && Head(a + [l]) == Head(a) + Framed(l)
  {
    assert (a + [l])[..|a|] == a;
  }

  lemma {:induction false} HeadCons(l: Label, a: seq<Label>)
    requires Short(a) && |l| < 256
    ensures Short([l] + a) && Head([l] + a) == Framed(l) + Head(a)
    decreases |a|
  {
    if a == [] {
      assert [l] + a == [] + [l];
      HeadSnoc([], l);
    } else {
      hide Head;
      var n := |a| - 1;
      assert a[n] in a && a == a[..n] + [a[n]];
      HeadCons(l, a[..n]);
      HeadSnoc(a[..n], a[n]);
      HeadSnoc([l] + a[..n], a[n]);
      assert [l] + a == ([l] + a[..n]) + [a[n]];
    }
  }

  lemma HeadZero(ls: seq<Label>)
    requires Fits(ls)
    ensures Wire(ls) == Head(ls) + [0]
  {
    WireAppend(ls, []);
    assert ls + [] == ls;
  }

  /** Each label with a dot behind it: the text while it is being read. */
  ghost function Pieces(ls: seq<Label>): seq<Byte> {
    if ls == [] then [] else Pieces(ls[..|ls| - 1]) + ls[|ls| - 1] + [DOT]
  }

  lemma PiecesSnoc(ls: seq<Label>, l: Label)
    ensures Pieces(ls + [l]) == Pieces(ls) + l + [DOT]
  {
  }

  lemma {:induction false} PiecesDotted(ls: seq<Label>)
    requires ls != []
    ensures Pieces(ls) == Dotted(ls) + [DOT]
    decreases |ls|
  {
    var n := |ls| - 1;
    assert ls == ls[..n] + [ls[n]];
    if n == 0 {
      assert Pieces(ls[..0]) == [];
    } else {
      PiecesDotted(ls[..n]);
      DottedAppend(ls[..n], [ls[n]]);
    }
  }

  lemma {:induction false} PiecesLength(ls: seq<Label>)
    requires Fits(ls)
    ensures |Pieces(ls)| == |Head(ls)|
    decreases |ls|
  {
    if ls != [] {
      PiecesLength(ls[..|ls| - 1]);
    }
  }

  /** How many labels are not the wildcard. */
  ghost function Counted(ls: seq<Label>): nat {
    if ls == [] then 0 else Counted(ls[..|ls| - 1]) + if ls[|ls| - 1] == [STAR] then 0 else 1
  }

  /** The number of positions with another label than the wildcard. */
  lemma {:induction false} CountedIs(ls: seq<Label>)
    ensures Counted(ls) == |set i | 0 <= i < |ls| && ls[i] != [STAR]|
    decreases |ls|
  {
    var b := set i | 0 <= i < |ls| && ls[i] != [STAR];
    if ls == [] {
      assert b == {};
    } else {
      var n := |ls| - 1;
      CountedIs(ls[..n]);
      var a := set i | 0 <= i < n && ls[..n][i] != [STAR];
      assert forall i :: 0 <= i < n ==> ls[..n][i] == ls[i];
      assert b == if ls[n] == [STAR] then a else a + {n};
    }
  }

  lemma CountedSnoc(ls: seq<Label>, l: Label)
    ensures Counted(ls + [l]) == Counted(ls) + if l == [STAR] then 0 else 1
  {
  }

  /** Labels already read in front of what the rest of the buffer gives. */
  ghost function With(done: seq<Label>, rest: Option<seq<Label>>): Option<seq<Label>> {
    match rest
    case None => None
    case Some(ls) => Some(done + ls)
  }

  lemma DecodeFramed(l: Label, rest: seq<Byte>)
    requires 0 < |l| < 256
    ensures Decode(Framed(l) + rest) == With([l], Decode(rest))
  {
  }

  /** One label more has been read. */
  lemma DecodeStep(b: seq<Byte>, done: seq<Label>, pos: nat)
    requires pos < |b| && 0 < b[pos] && pos + b[pos] + 1 <= |b| && Decode(b) == With(done, Decode(b[pos..]))
    ensures var l := b[pos + 1..pos + b[pos] + 1]; Decode(b) == With(done + [l], Decode(b[pos + b[pos] + 1..]))
  {
    hide Decode, With;
    var n := b[pos];
    var l, rest := b[pos + 1..pos + n + 1], b[pos + n + 1..];
    FramedAt(b, pos);
    DecodeFramed(l, rest);
    WithWith(done, l, Decode(rest));
  }

  lemma FramedAt(b: seq<Byte>, pos: nat)
    requires pos < |b| && pos + b[pos] + 1 <= |b|
    ensures b[pos..] == Framed(b[pos + 1..pos + b[pos] + 1]) + b[pos + b[pos] + 1..]
  {
  }

  lemma WithWith(done: seq<Label>, l: Label, r: Option<seq<Label>>)
    ensures With(done, With([l], r)) == With(done + [l], r)
  {
    if r.Some? {
      assert done + ([l] + r.value) == done + [l] + r.value;
    }
  }

  /** The end of a name: the root label. */
  lemma DecodeEnd(b: seq<Byte>, done: seq<Label>, pos: nat)
    requires pos < |b| && b[pos] == 0 && Decode(b) == With(done, Decode(b[pos..]))
    ensures Decode(b) == Some(done)
  {
    assert b[pos..][0] == 0 && done + [] == done;
  }

  /** A label or a name that does not end within the buffer. */
  lemma DecodeStuck(b: seq<Byte>, done: seq<Label>, pos: nat)
    requires pos <= |b| && Decode(b) == With(done, Decode(b[pos..])) && (pos < |b| ==> pos + b[pos] + 1 > |b|)
    ensures Decode(b) == None
  {
  }

  lemma DecodeLong(b: seq<Byte>, done: seq<Label>, pos: nat)
    requires pos <= |b| && Fits(done) && |Pieces(done)| == pos && Decode(b) == With(done, Decode(b[pos..]))
    ensures Decode(b).Some? ==> |Wire(Decode(b).value)| > pos
  {
    if Decode(b).Some? {
      var rest := Decode(b[pos..]).value;
      WireAppend(done, rest);
      PiecesLength(done);
      HeadZero(rest);
    }
  }

  // ----- the serialiser's loop

  lemma {:induction false} SplitSnoc(x: seq<Byte>, c: Byte)
    ensures var p := Split(x);
            Split(x + [c]) == if c == DOT then p + [[]] else p[..|p| - 1] + [p[|p| - 1] + [c]]
    decreases |x|
  {
    if c == DOT {
      SplitJoin(x, []);
      assert x + [DOT] + [] == x + [c];
    } else if x == [] {
      assert x + [c] == [c] + [];
      SplitCons(c, []);
    } else {
      hide Split;
      SplitSnoc(x[1..], c);
      assert x == [x[0]] + x[1..] && x + [c] == [x[0]] + (x[1..] + [c]);
      SplitCons(x[0], x[1..]);
      SplitCons(x[0], x[1..] + [c]);
      LastOfCons(Split(x[1..]), x[0], c);
    }
  }

  lemma LastOfCons(p: seq<Label>, d: Byte, c: Byte)
    requires p != []
    ensures var q := p[..|p| - 1] + [p[|p| - 1] + [c]];
            var dp, dq := [[d] + p[0]] + p[1..], [[d] + q[0]] + q[1..];
            dq == dp[..|dp| - 1] + [dp[|dp| - 1] + [c]]
    ensures var q := p[..|p| - 1] + [p[|p| - 1] + [c]];
            var dp, dq := [[]] + p, [[]] + q;
            dq == dp[..|dp| - 1] + [dp[|dp| - 1] + [c]]
  {
    var q := p[..|p| - 1] + [p[|p| - 1] + [c]];
    if |p| == 1 {
      assert q == [p[0] + [c]] && [d] + (p[0] + [c]) == ([d] + p[0]) + [c];
    } else {
      assert q[0] == p[0] && q[1..] == p[1..][..|p| - 2] + [p[|p| - 1] + [c]];
    }
  }

  /** How many characters of a piece its length byte counts. */
  function Nonspaces(p: seq<Byte>): (n: nat)
    ensures n <= |p| && (n == |p| <==> SPACE !in p)
  {
    if p == [] then 0 else
      assert p == p[..|p| - 1] + [p[|p| - 1]];
      Nonspaces(p[..|p| - 1]) + if p[|p| - 1] == SPACE then 0 else 1
  }

  lemma NonspacesSnoc(p: seq<Byte>, c: Byte)
    ensures Nonspaces(p + [c]) == Nonspaces(p) + if c == SPACE then 0 else 1
  {
    assert (p + [c])[..|p|] == p;
  }

  function ByteAt(b: seq<Byte>, j: nat): Byte {
    if j < |b| then b[j] else 0
  }

  /** The characters of a piece, written behind `at`: a space is skipped, and takes the place of the character before it. */
  ghost function Body(p: Label, before: seq<Byte>, at: nat): seq<Byte> {
    seq(|p|, j requires 0 <= j < |p| =>
      if j + 1 < |p| && p[j + 1] == SPACE then 0 else if p[j] == SPACE then ByteAt(before, at + 1 + j) else ToLower(p[j]))
  }

  /** A piece behind its length byte, at `at`. */
  ghost function Frame(p: Label, before: seq<Byte>, at: nat): seq<Byte>
    requires |p| < 256
  {
    [Nonspaces(p)] + Body(p, before, at)
  }

  /** What the loop of serialize makes of pieces in a buffer that held `before`. */
  ghost function Frames(ps: seq<Label>, before: seq<Byte>): seq<Byte>
    requires Short(ps)
  {
    if ps == [] then [] else
      var front := Frames(ps[..|ps| - 1], before);
      front + Frame(ps[|ps| - 1], before, |front|)
  }

  lemma FramesSnoc(a: seq<Label>, l: Label, before: seq<Byte>)
    requires Short(a) && |l| < 256
    ensures Short(a + [l]) && Frames(a + [l], before) == Frames(a, before) + Frame(l, before, |Frames(a, before)|)
  {
    assert (a + [l])[..|a|] == a;
  }

  lemma BodySnoc(p: Label, c: Byte, before: seq<Byte>, at: nat)
    ensures c != SPACE ==> Body(p + [c], before, at) == Body(p, before, at) + [ToLower(c)]
    ensures c == SPACE && p == [] ==> Body(p + [c], before, at) == [ByteAt(before, at + 1)]
    ensures c == SPACE && p != [] ==>
              Body(p + [c], before, at) == Body(p, before, at)[|p| - 1 := 0] + [ByteAt(before, at + 1 + |p|)]
  {
  }

  /**
   * The pieces `p` of the text so far are written into a buffer that held `before`; the length byte of the last one, at
   * `start`, is still open.
   */
  ghost predicate Written(p: seq<Label>, buf: seq<Byte>, before: seq<Byte>, start: nat) {
    && p != [] && Short(p) && |buf| == |before|
    && start + |p[|p| - 1]| + 1 <= |buf| && |Frames(p[..|p| - 1], before)| == start
    && buf[..start] == Frames(p[..|p| - 1], before)
    && buf[start + 1..start + |p[|p| - 1]| + 1] == Body(p[|p| - 1], before, start)
    && buf[start + |p[|p| - 1]| + 1..] == before[start + |p[|p| - 1]| + 1..]
  }

  lemma WrittenStart(buf: seq<Byte>)
    requires |buf| > 0
    ensures Written(Split([]), buf, buf, 0)
  {
    assert Split([]) == [[]] && Split([])[..0] == [];
  }

  /** The last piece grows by a character, which is written or changes the buffer as a space does. */
  lemma WrittenMore(p: seq<Label>, buf: seq<Byte>, before: seq<Byte>, start: nat, c: Byte, b: seq<Byte>)
    requires Written(p, buf, before, start) && |p[|p| - 1]| < 255 && start + |p[|p| - 1]| + 1 < |buf|
    requires b == if c == SPACE then buf[start + |p[|p| - 1]| := 0] else buf[start + |p[|p| - 1]| + 1 := ToLower(c)]
    ensures Written(p[..|p| - 1] + [p[|p| - 1] + [c]], b, before, start)
  {
    hide Frames, Body;
    var l, q := p[|p| - 1], p[..|p| - 1] + [p[|p| - 1] + [c]];
    var n := |l|;
    assert q[..|q| - 1] == p[..|p| - 1] && b[..start] == buf[..start];
    BodySnoc(l, c, before, start);
    BodyLength(l, before, start);
    assert b[start + n + 2..] == buf[start + n + 1..][1..] && before[start + n + 2..] == before[start + n + 1..][1..];
    assert buf[start + n + 1] == buf[start + n + 1..][0] == before[start + n + 1..][0];
    assert b[start + 1..start + n + 2] == b[start + 1..start + n + 1] + [b[start + n + 1]];
    if c == SPACE && n > 0 {
      assert b[start + 1..start + n + 1] == buf[start + 1..start + n + 1][n - 1 := 0];
    } else {
      assert b[start + 1..start + n + 1] == buf[start + 1..start + n + 1];
    }
  }

  lemma BodyLength(p: Label, before: seq<Byte>, at: nat)
    ensures |Body(p, before, at)| == |p|
  {
  }

  lemma FrameLength(p: Label, before: seq<Byte>, at: nat)
    requires |p| < 256
    ensures |Frame(p, before, at)| == |p| + 1
  {
  }

  /** The length byte of the last piece is filled in. */
  lemma WrittenLabel(p: seq<Label>, buf: seq<Byte>, before: seq<Byte>, start: nat)
    requires Written(p, buf, before, start)
    ensures p != [] && Short(p) && start + |p[|p| - 1]| + 1 <= |buf| == |before|
    ensures var l := p[|p| - 1]; var b := buf[start := Nonspaces(l)];
            b[..start + |l| + 1] == Frames(p, before) && b[start + |l| + 1..] == before[start + |l| + 1..]
  {
    hide Body, Frames;
    var l := p[|p| - 1];
    var b := buf[start := Nonspaces(l)];
    assert p == p[..|p| - 1] + [l] && l in p;
    FramesSnoc(p[..|p| - 1], l, before);
    BodyLength(l, before, start);
    assert b[..start + |l| + 1] == buf[..start] + [Nonspaces(l)] + buf[start + 1..start + |l| + 1];
    assert b[start + |l| + 1..] == buf[start + |l| + 1..];
  }

  /** And the next piece begins. */
  lemma WrittenNext(p: seq<Label>, b: seq<Byte>, before: seq<Byte>, start: nat)
    requires Short(p) && start < |b| == |before| && b[..start] == Frames(p, before) && b[start..] == before[start..]
    ensures Written(p + [[]], b, before, start)
  {
    hide Body, Frames;
    var q := p + [[]];
    assert q[..|q| - 1] == p;
    BodyLength([], before, start);
    assert b[start + 1..] == b[start..][1..] && before[start + 1..] == before[start..][1..];
  }

  /** Where the loop stands in its text: the last piece starts at `start`, and `count` of its characters are no spaces. */
  ghost predicate Open(text: seq<Byte>, i: nat, start: nat, count: nat)
    requires i <= |text|
  {
    var p := Split(text[..i]);
    start + |p[|p| - 1]| == i && count == Nonspaces(p[|p| - 1])
  }

  lemma Opened(text: seq<Byte>)
    ensures Open(text, 0, 0, 0) && text[..0] == []
  {
    assert text[..0] == [] && Split([]) == [[]];
  }

  lemma OpenNext(text: seq<Byte>, i: nat, start: nat, count: nat)
    requires i < |text| && Open(text, i, start, count)
    ensures var p, c := Split(text[..i]), text[i];
            && Split(text[..i + 1]) == (if c == DOT then p + [[]] else p[..|p| - 1] + [p[|p| - 1] + [c]])
            && (if c == DOT then Open(text, i + 1, i + 1, 0)
                else Open(text, i + 1, start, count + if c == SPACE then 0 else 1))
            && start + |p[|p| - 1]| == i && count == Nonspaces(p[|p| - 1])
  {
    hide Split, Nonspaces;
    var p, c := Split(text[..i]), text[i];
    assert text[..i + 1] == text[..i] + [c];
    SplitSnoc(text[..i], c);
    NonspacesSnoc(p[|p| - 1], c);
    NonspacesNone();
  }

  lemma NonspacesNone()
    ensures Nonspaces([]) == 0
  {
  }

  /** The loop of serialize after i characters. */
  ghost predicate Writing(text: seq<Byte>, i: nat, buf: seq<Byte>, before: seq<Byte>, start: nat, count: nat) {
    i <= |text| && Open(text, i, start, count) && Written(Split(text[..i]), buf, before, start) && |text| < 255
  }

  lemma WritingStart(text: seq<Byte>, buf: seq<Byte>)
    requires |buf| > 0 && |text| < 255
    ensures Writing(text, 0, buf, buf, 0, 0)
  {
    Opened(text);
    WrittenStart(buf);
  }

  lemma WritingNext(text: seq<Byte>, i: nat, buf: seq<Byte>, before: seq<Byte>, start: nat, count: nat, b: seq<Byte>)
    requires Writing(text, i, buf, before, start, count) && i < |text| && |text| + 1 <= |buf| && start <= i
    requires count < 256 && b == if text[i] == DOT then buf[start := count] else
                                 if text[i] == SPACE then buf[i := 0] else buf[i + 1 := ToLower(text[i])]
    ensures if text[i] == DOT then Writing(text, i + 1, b, before, i + 1, 0)
            else Writing(text, i + 1, b, before, start, count + if text[i] == SPACE then 0 else 1)
  {
    hide Split, Open, Written, Nonspaces;
    OpenNext(text, i, start, count);
    var p := Split(text[..i]);
    if text[i] == DOT {
      WrittenLabel(p, buf, before, start);
      WrittenNext(p, b, before, i + 1);
    } else {
      WrittenMore(p, buf, before, start, text[i], b);
    }
  }

  lemma WritingFacts(text: seq<Byte>, i: nat, buf: seq<Byte>, before: seq<Byte>, start: nat, count: nat)
    requires Writing(text, i, buf, before, start, count)
    ensures start <= i && count <= i && |buf| == |before|
  {
  }

  lemma WritingEnd(text: seq<Byte>, buf: seq<Byte>, before: seq<Byte>, start: nat, count: nat)
    requires Writing(text, |text|, buf, before, start, count) && start < |buf| && count < 256
    ensures var k, b := |text| + 1, buf[start := count];
            k <= |b| == |before| && Short(Split(text)) && b[..k] == Frames(Split(text), before) && b[k..] == before[k..]
  {
    hide Split, Written, Nonspaces, Frames;
    assert text[..|text|] == text;
    WrittenLabel(Split(text), buf, before, start);
  }

  lemma OneFrame(l: Label, before: seq<Byte>)
    requires |l| < 256
    ensures Short([l]) && Frames([l], before) == Frame(l, before, 0)
  {
    hide Frames;
    FramesOne(l, before);
    assert [l] + [] == [l];
  }

  lemma SpaceFrame(before: seq<Byte>)
    requires |before| >= 2
    ensures Frame([SPACE], before, 0) == [0, before[1]]
  {
  }

  lemma RootFrame(before: seq<Byte>)
    requires |before| >= 2
    ensures Split([SPACE]) == [[SPACE]] && Short([[SPACE]]) && Frames([[SPACE]], before) == [0, before[1]]
  {
    hide Split, Frames, Frame;
    OneFrame([SPACE], before);
    SpaceFrame(before);
    SplitLabel([SPACE]);
  }

  /** The end of the loop, without the padding of a buffer of one byte. */
  lemma Closed(text: seq<Byte>, buf: seq<Byte>, was: seq<Byte>, pad: seq<Byte>)
    requires var k, b, before := |text| + 1, buf + pad, was + pad;
             && k <= |b| == |before| && Short(Split(text)) && b[..k] == Frames(Split(text), before) && b[k..] == before[k..]
    requires pad == [] || (text == [SPACE] && |buf| == 1)
    ensures text == [SPACE] ==> |buf| > 0 && buf[0] == 0 && buf[1..] == was[1..]
    ensures |text| + 1 <= |buf| ==> buf[..|text| + 1] == Frames(Split(text), was) && buf[|text| + 1..] == was[|text| + 1..]
  {
    hide Frames, Split;
    var b, before := buf + pad, was + pad;
    if pad == [] {
      assert b == buf && before == was;
    }
    if text == [SPACE] {
      RootFrame(before);
      assert b[0] == b[..2][0] && b[1] == b[..2][1];
      if pad == [] {
        assert buf[1..] == [buf[1]] + buf[2..] && was[1..] == [was[1]] + was[2..];
      }
    }
  }

  /** Without spaces the pieces come out framed and in lower case. */
  lemma {:induction false} FramesPlain(ps: seq<Label>, before: seq<Byte>)
    requires Short(ps) && Spaceless(ps)
    ensures Short(Lowered(ps)) && Frames(ps, before) == Head(Lowered(ps))
    decreases |ps|
  {
    LoweredShort(ps);
    if ps != [] {
      var n := |ps| - 1;
      assert ps == ps[..n] + [ps[n]] && ps[n] in ps;
      FramesPlain(ps[..n], before);
      LoweredSnoc(ps[..n], ps[n]);
      HeadSnoc(Lowered(ps[..n]), LowerAll(ps[n]));
      FramePlain(ps[n], before, |Frames(ps[..n], before)|);
    }
  }

  lemma FramePlain(p: Label, before: seq<Byte>, at: nat)
    requires |p| < 256 && SPACE !in p
    ensures Frame(p, before, at) == Framed(LowerAll(p))
  {
    assert forall j :: 0 <= j < |p| ==> p[j] in p;
  }

  lemma FramesOne(l: Label, before: seq<Byte>)
    requires |l| < 256
    ensures Frames([], before) == [] && Frames([l] + [], before) == Frame(l, before, 0)
  {
    assert [l] + [] == [] + [l];
    FramesSnoc([], l, before);
  }

  lemma {:induction false} FramesCons(l: Label, a: seq<Label>, before: seq<Byte>)
    requires Short(a) && |l| < 256 && |l| + 1 <= |before|
    ensures Short([l] + a) && Frames([l] + a, before) == Frame(l, before, 0) + Frames(a, before[|l| + 1..])
    decreases |a|
  {
    hide Frames, Frame;
    var rest := before[|l| + 1..];
    if a == [] {
      FramesOne(l, before);
      FramesOne(l, rest);
    } else {
      var n, x := |a| - 1, a[|a| - 1];
      var b := a[..n];
      assert x in a && a == b + [x];
      FramesCons(l, b, before);
      FrameLength(l, before, 0);
      var f, g := Frame(l, before, 0), Frames(b, rest);
      FramesSnoc(b, x, rest);
      FramesSnoc([l] + b, x, before);
      FrameShift(x, before, |l| + 1, |g|);
      assert [l] + a == ([l] + b) + [x];
      assert (f + g) + Frame(x, rest, |g|) == f + (g + Frame(x, rest, |g|));
    }
  }

  lemma FrameShift(p: Label, before: seq<Byte>, k: nat, at: nat)
    requires |p| < 256 && k <= |before|
    ensures Frame(p, before, k + at) == Frame(p, before[k..], at)
  {
  }

  lemma LoweredSnoc(a: seq<Label>, l: Label)
    ensures Lowered(a + [l]) == Lowered(a) + [LowerAll(l)]
    ensures Short(a) ==> Short(Lowered(a))
  {
    forall m | m in Lowered(a) && Short(a)
      ensures |m| < 256
    {
      var i :| 0 <= i < |a| && Lowered(a)[i] == m;
      assert a[i] in a;
    }
  }

  lemma NothingRead(b: seq<Byte>)
    ensures Fits([]) && Pieces([]) == [] && Counted([]) == 0 && Decode(b) == With([], Decode(b[0..]))
  {
    assert b[0..] == b;
    if Decode(b).Some? {
      assert [] + Decode(b).value == Decode(b).value;
    }
  }

  lemma FitsSnoc(ls: seq<Label>, l: Label)
    requires Fits(ls) && 0 < |l| < 256
    ensures Fits(ls + [l])
  {
  }

  /** The text without its last dot, and its size on the wire. */
  lemma TextDone(ls: seq<Label>)
    requires Fits(ls)
    ensures |Wire(ls)| == |Pieces(ls)| + 1
    ensures Pieces(ls) == [] <==> ls == []
    ensures ls != [] ==> Pieces(ls)[..|Pieces(ls)| - 1] == Text(ls)
  {
    PiecesLength(ls);
    HeadZero(ls);
    if ls != [] {
      PiecesDotted(ls);
    }
  }

  // ----- names in the grammar of section 2.3.1 of RFC 1035

  predicate Letter(c: Byte) {
    97 <= c <= 122 || 65 <= c <= 90
  }

  predicate LetterDigit(c: Byte) {
    Letter(c) || 48 <= c <= 57
  }

  predicate LetterDigitHyphen(c: Byte) {
    LetterDigit(c) || c == 45
  }

  ghost predicate AllNamed(ls: seq<Label>) {
    forall l <- ls :: 0 < |l| < 256 && forall c <- l :: LetterDigitHyphen(c)
  }

  ghost function LowerAll(s: seq<Byte>): seq<Byte> {
    seq(|s|, i requires 0 <= i < |s| => ToLower(s[i]))
  }

  lemma LowerNone(s: seq<Byte>)
    ensures LowerAll(s[..0]) == [] && Dots(s[..0]) == 0
  {
  }

  lemma LowerSnoc(s: seq<Byte>, i: nat)
    requires i < |s|
    ensures LowerAll(s[..i + 1]) == LowerAll(s[..i]) + [ToLower(s[i])]
  {
  }

  lemma LowerConcat(a: seq<Byte>, b: seq<Byte>)
    ensures LowerAll(a + b) == LowerAll(a) + LowerAll(b)
  {
  }

  ghost function Lowered(ls: seq<Label>): seq<Label> {
    seq(|ls|, i requires 0 <= i < |ls| => LowerAll(ls[i]))
  }

  function Dots(s: seq<Byte>): nat {
    if s == [] then 0 else Dots(s[..|s| - 1]) + if s[|s| - 1] == DOT then 1 else 0
  }

  lemma {:induction false} DotsConcat(a: seq<Byte>, b: seq<Byte>)
    ensures Dots(a + b) == Dots(a) + Dots(b)
    decreases |b|
  {
    if b == [] {
      assert a + b == a;
    } else {
      var n := |b| - 1;
      DotsConcat(a, b[..n]);
      assert (a + b)[..|a + b| - 1] == a + b[..n];
    }
  }

  lemma {:induction false} DotsNone(l: Label)
    requires forall i :: 0 <= i < |l| ==> l[i] != DOT
    ensures Dots(l) == 0
    decreases |l|
  {
    if l != [] {
      DotsNone(l[..|l| - 1]);
    }
  }

  lemma LoweredLabel(l: Label)
    requires 0 < |l| < 256 && forall c <- l :: LetterDigitHyphen(c)
    ensures Plain(LowerAll(l)) && LowerAll(l) != [STAR] && Dots(l) == 0 && l != [SPACE]
  {
    forall c | c in LowerAll(l)
      ensures c != DOT && c != 0 && c != SPACE && ToLower(c) == c && c != STAR
    {
      var i :| 0 <= i < |l| && ToLower(l[i]) == c;
      assert LetterDigitHyphen(l[i]);
    }
    forall i | 0 <= i < |l|
      ensures l[i] != DOT
    {
      assert l[i] in l;
    }
    DotsNone(l);
    assert LowerAll(l)[0] in LowerAll(l);
  }

  /** What the loops of parse compute on the text of a name. */
  lemma LoweredText(ls: seq<Label>)
    requires AllNamed(ls)
    ensures AllPlain(Lowered(ls)) && Fits(Lowered(ls)) && LowerAll(Text(ls)) == Text(Lowered(ls))
    ensures |Wire(Lowered(ls))| == if ls == [] then 1 else |Text(ls)| + 2
    ensures Counted(Lowered(ls)) == if ls == [] then 0 else Dots(Text(ls)) + 1
    ensures ls == [] <==> |Text(ls)| == 1 && Text(ls)[0] == SPACE
  {
    var low := Lowered(ls);
    forall l | l in low
      ensures Plain(l) && l != [STAR]
    {
      var i :| 0 <= i < |ls| && low[i] == l;
      assert ls[i] in ls;
      LoweredLabel(ls[i]);
    }
    assert forall i :: 0 <= i < |low| ==> low[i] in low;
    CountedAll(low);
    if ls != [] {
      LoweredDotted(ls);
      WireLength(low);
    }
  }

  /** What the copy loop of parse stores: the text and its null, or a part of the text without a null. */
  lemma TextCut(text: seq<Byte>, n: nat, ls: seq<Label>)
    requires AllNamed(ls) && text == Text(ls) && n <= |text|
    ensures n == |text| ==> LowerAll((text + [0])[..n + 1]) == LowerAll(text) + [0] && |LowerAll(text)| == n
    ensures n < |text| ==> (text + [0])[..n + 1] == text[..n + 1] && 0 !in LowerAll(text[..n + 1])
  {
    NamedText(ls);
    if n < |text| {
      var low := LowerAll(text[..n + 1]);
      forall c | c in low
        ensures c != 0
      {
        var i :| 0 <= i < |low| && low[i] == c;
        assert text[i] in text;
      }
    }
  }

  lemma NamedText(ls: seq<Label>)
    requires AllNamed(ls)
    ensures 0 !in Text(ls) && |Text(ls)| > 0
  {
    if ls != [] {
      TextNulls(ls);
      assert ls[0] in ls;
    }
  }

  lemma {:induction false} CountedAll(ls: seq<Label>)
    requires forall i :: 0 <= i < |ls| ==> ls[i] != [STAR]
    ensures Counted(ls) == |ls|
    decreases |ls|
  {
    if ls != [] {
      CountedAll(ls[..|ls| - 1]);
    }
  }

  lemma {:induction false} LoweredDotted(ls: seq<Label>)
    requires ls != [] && AllNamed(ls)
    ensures LowerAll(Dotted(ls)) == Dotted(Lowered(ls)) && Dots(Dotted(ls)) == |ls| - 1
    ensures !(|Dotted(ls)| == 1 && Dotted(ls)[0] == SPACE)
    decreases |ls|
  {
    assert ls[0] in ls;
    LoweredLabel(ls[0]);
    if |ls| > 1 {
      var rest := ls[1..];
      assert forall l <- rest :: l in ls;
      LoweredDotted(rest);
      assert Lowered(ls)[1..] == Lowered(rest) && Lowered(ls)[0] == LowerAll(ls[0]);
      var d := Dotted(rest);
      LowerConcat(ls[0], [DOT]);
      LowerConcat(ls[0] + [DOT], d);
      DotsConcat(ls[0], [DOT]);
      DotsConcat(ls[0] + [DOT], d);
      assert LowerAll([DOT]) == [DOT] && Dots([DOT]) == 1;
    } else {
      assert Dotted(ls) == ls[0] && Lowered(ls) == [LowerAll(ls[0])];
    }
  }

  // ----- what the text shows of the labels

  /** A C string: what precedes the first null. */
  ghost function Chars(s: seq<Byte>): (r: seq<Byte>)
    ensures |r| <= |s| && r == s[..|r|] && 0 !in r && (|r| < |s| ==> s[|r|] == 0)
  {
    if s == [] || s[0] == 0 then [] else [s[0]] + Chars(s[1..])
  }

  lemma {:induction false} CharsStop(s: seq<Byte>, rest: seq<Byte>)
    ensures Chars(s + [0] + rest) == Chars(s)
    decreases |s|
  {
    var t := s + [0] + rest;
    if s == [] {
      assert t[0] == 0;
    } else {
      CharsStop(s[1..], rest);
      assert t[0] == s[0] && t[1..] == s[1..] + [0] + rest;
    }
  }

  lemma {:induction false} CharsAll(s: seq<Byte>)
    requires 0 !in s
    ensures Chars(s) == s
    decreases |s|
  {
    if s != [] {
      assert s[0] in s && 0 !in s[1..];
      CharsAll(s[1..]);
    }
  }

  /** The labels that can be seen in the text of a name: the pieces between its dots, up to the first null. */
  ghost function Apparent(ls: seq<Label>): seq<Label> {
    Split(Chars(Text(ls)))
  }

  ghost predicate NullFree(ls: seq<Label>) {
    forall l <- ls :: 0 !in l
  }

  lemma {:induction false} PiecesPlain(s: seq<Byte>, l: Label, c: Byte)
    requires l in Split(s) && c in l
    ensures c != DOT && c in s
    decreases |s|
  {
    if s != [] {
      var rest := Split(s[1..]);
      if s[0] == DOT {
        assert l == [] || l in rest;
        PiecesPlain(s[1..], l, c);
      } else if l == [s[0]] + rest[0] && c != s[0] {
        PiecesPlain(s[1..], rest[0], c);
      } else if l in rest[1..] {
        assert l in rest;
        PiecesPlain(s[1..], l, c);
      }
    }
  }

  lemma {:induction false} TextNulls(ls: seq<Label>)
    requires ls != []
    ensures 0 !in Dotted(ls) <==> NullFree(ls)
    decreases |ls|
  {
    if |ls| > 1 {
      TextNulls(ls[1..]);
      assert ls == [ls[0]] + ls[1..];
    } else {
      assert ls == [ls[0]];
    }
  }

  /** The visible labels are the labels exactly when no label holds a dot or a null. */
  lemma ApparentIff(ls: seq<Label>)
    requires ls != [] && Fits(ls)
    ensures Apparent(ls) == ls <==> AllClean(ls)
  {
    hide Split, Dotted, Chars;
    TextNulls(ls);
    if AllClean(ls) {
      CharsAll(Dotted(ls));
      SplitDotted(ls);
    }
    if Apparent(ls) == ls {
      forall l, c | l in ls && c in l
        ensures c != DOT && c != 0
      {
        PiecesPlain(Chars(Text(ls)), l, c);
      }
    }
  }

  ghost predicate Spaceless(ls: seq<Label>) {
    forall l <- ls :: SPACE !in l
  }

  /** What a serialised name shows: its visible pieces, then untouched bytes, then a zero. */
  ghost predicate SeenOnWire(ls: seq<Label>, w: seq<Byte>, before: seq<Byte>) {
    var seen := Apparent(ls);
    Short(seen) &&
    var frames := Frames(seen, before);
    && |frames| < |w| == |before| && w[|w| - 1] == 0
    && w[..|frames|] == frames && w[|frames|..|w| - 1] == before[|frames|..|w| - 1]
  }

  lemma SerialiseFacts(ls: seq<Label>)
    requires Fits(ls)
    ensures ls == [] ==> |Wire(ls)| == 1 && Chars(Text(ls)) == [SPACE] && Text(ls) == [SPACE]
    ensures ls != [] ==> |Chars(Text(ls))| + 2 <= |Wire(ls)|
  {
    if ls != [] {
      WireLength(ls);
    } else {
      CharsAll([SPACE]);
    }
  }

  /** The loop's output with the closing zero in place. */
  lemma SeenFrom(ls: seq<Label>, before: seq<Byte>, middle: seq<Byte>, n: nat)
    requires ls != [] && Short(Apparent(ls))
    requires var k := |Chars(Text(ls))| + 1;
             && k < n <= |middle| == |before| && middle[..k] == Frames(Apparent(ls), before) && middle[k..] == before[k..]
    ensures SeenOnWire(ls, middle[n - 1 := 0][..n], before[..n])
  {
    hide Apparent, Chars, Frames;
    var k, w := |Chars(Text(ls))| + 1, middle[n - 1 := 0][..n];
    FramesTake(Apparent(ls), before, n);
    assert w[..k] == middle[..k];
    assert w[k..n - 1] == middle[k..][..n - 1 - k] && before[..n][k..n - 1] == before[k..][..n - 1 - k];
  }

  /** Only the bytes under the frames matter. */
  lemma {:induction false} FramesTake(ps: seq<Label>, before: seq<Byte>, n: nat)
    requires Short(ps) && |Frames(ps, before)| <= n <= |before|
    ensures Frames(ps, before[..n]) == Frames(ps, before)
    decreases |ps|
  {
    if ps != [] {
      hide Frames, Body;
      var k := |ps| - 1;
      var at := |Frames(ps[..k], before)|;
      assert ps == ps[..k] + [ps[k]] && ps[k] in ps;
      FramesSnoc(ps[..k], ps[k], before);
      FramesSnoc(ps[..k], ps[k], before[..n]);
      BodyLength(ps[k], before, at);
      FramesTake(ps[..k], before, n);
      FrameTake(ps[k], before, n, at);
    }
  }

  lemma FrameTake(p: Label, before: seq<Byte>, n: nat, at: nat)
    requires |p| < 256 && at + |p| + 1 <= n <= |before|
    ensures Frame(p, before[..n], at) == Frame(p, before, at)
  {
  }

  /** A serialised name without dots, nulls or spaces in its labels is the wire form in lower case. */
  lemma CleanSerialised(ls: seq<Label>, w: seq<Byte>, before: seq<Byte>)
    requires ls != [] && Fits(ls) && |w| == |Wire(ls)| && SeenOnWire(ls, w, before)
    ensures AllClean(ls) && Spaceless(ls) ==> Fits(Lowered(ls)) && w == Wire(Lowered(ls))
  {
    hide Head, Frames, Wire, Apparent;
    if AllClean(ls) && Spaceless(ls) {
      ApparentIff(ls);
      FramesPlain(ls, before);
      LoweredFits(ls);
      HeadZero(Lowered(ls));
      HeadLowerShort(ls);
      HeadZero(ls);
      assert w == Head(Lowered(ls)) + [0];
    }
  }

  lemma LoweredFits(ls: seq<Label>)
    requires Fits(ls)
    ensures Fits(Lowered(ls))
  {
    forall m | m in Lowered(ls)
      ensures 0 < |m| < 256
    {
      var i :| 0 <= i < |ls| && Lowered(ls)[i] == m;
      assert ls[i] in ls;
    }
  }

  ghost predicate AllLower(ls: seq<Label>) {
    forall l <- ls :: forall c <- l :: ToLower(c) == c
  }

  /** Names in lower case are those without a byte from 65 to 90, that is from A to Z. */
  lemma LowerIff(ls: seq<Label>)
    ensures AllLower(ls) <==> forall l <- ls :: forall c <- l :: !(65 <= c <= 90)
  {
  }

  /** Equal but for the case of letters. */
  ghost predicate SameButCase(s: seq<Byte>, t: seq<Byte>) {
    |s| == |t| && forall i :: 0 <= i < |s| ==>
      s[i] == t[i] || (65 <= s[i] <= 90 && t[i] == s[i] + 32) || (65 <= t[i] <= 90 && s[i] == t[i] + 32)
  }

  /** Two texts are folded to the same one exactly if they are equal but for the case of letters. */
  lemma FoldedIff(s: seq<Byte>, t: seq<Byte>)
    ensures LowerAll(s) == LowerAll(t) <==> SameButCase(s, t)
  {
    if LowerAll(s) == LowerAll(t) {
      assert |s| == |LowerAll(s)| == |t|;
      forall i | 0 <= i < |s|
        ensures s[i] == t[i] || (65 <= s[i] <= 90 && t[i] == s[i] + 32) || (65 <= t[i] <= 90 && s[i] == t[i] + 32)
      {
        assert LowerAll(s)[i] == LowerAll(t)[i];
      }
    }
  }

  /** So are names, label by label. */
  lemma FoldedNames(ls: seq<Label>, ms: seq<Label>)
    ensures Lowered(ls) == Lowered(ms) <==> |ls| == |ms| && forall i :: 0 <= i < |ls| ==> SameButCase(ls[i], ms[i])
  {
    hide LowerAll, SameButCase;
    if |ls| == |ms| {
      forall i | 0 <= i < |ls|
        ensures Lowered(ls)[i] == Lowered(ms)[i] <==> SameButCase(ls[i], ms[i])
      {
        FoldedIff(ls[i], ms[i]);
      }
    }
  }

  lemma LowerFixed(ls: seq<Label>)
    requires AllLower(ls)
    ensures Lowered(ls) == ls
  {
    forall i | 0 <= i < |ls|
      ensures Lowered(ls)[i] == ls[i]
    {
      assert ls[i] in ls;
      assert forall j :: 0 <= j < |ls[i]| ==> ls[i][j] in ls[i];
    }
  }

  /** The first piece of a text. */
  lemma {:induction false} FirstPiece(s: seq<Byte>)
    ensures var p := Split(s)[0]; p <= s && DOT !in p && (|p| < |s| ==> s[|p|] == DOT)
    decreases |s|
  {
    if s != [] && s[0] != DOT {
      FirstPiece(s[1..]);
      assert s == [s[0]] + s[1..];
    }
  }

  /** The first visible piece is no longer than the first label, and begins it. */
  lemma FirstSeen(ls: seq<Label>)
    requires ls != []
    ensures Split(Chars(Dotted(ls)))[0] <= ls[0]
  {
    hide Split, Chars;
    var d := Dotted(ls);
    var t := Chars(d);
    FirstPiece(t);
    var p := Split(t)[0];
    assert d[..|ls[0]|] == ls[0] && (|d| > |ls[0]| ==> d[|ls[0]|] == DOT);
    forall i | 0 <= i < |p|
      ensures p[i] != DOT
    {
      assert p[i] in p;
    }
  }

  lemma {:induction false} CharsJoin(x: seq<Byte>, y: seq<Byte>)
    requires 0 !in x
    ensures Chars(x + y) == x + Chars(y)
    decreases |x|
  {
    if x == [] {
      assert x + y == y;
    } else {
      assert x[0] in x && 0 !in x[1..];
      CharsJoin(x[1..], y);
      assert (x + y)[1..] == x[1..] + y && x == [x[0]] + x[1..];
    }
  }

  /** If the first piece is the whole first label, the other pieces are those of the other labels. */
  lemma OtherSeen(ls: seq<Label>)
    requires |ls| > 1 && Split(Chars(Dotted(ls)))[0] == ls[0]
    ensures Split(Chars(Dotted(ls))) == [ls[0]] + Split(Chars(Dotted(ls[1..])))
  {
    hide Split, Chars, Dotted;
    var l, t := ls[0], Chars(Dotted(ls));
    FirstPiece(t);
    PrefixIn(l, t);
    SplitLabel(l);
    CharsMore(ls);
    SplitJoin(l, Chars(Dotted(ls[1..])));
  }

  lemma CharsMore(ls: seq<Label>)
    requires |ls| > 1 && 0 !in ls[0]
    ensures Chars(Dotted(ls)) == ls[0] + [DOT] + Chars(Dotted(ls[1..]))
  {
    hide Chars, Dotted;
    var l, rest := ls[0], Dotted(ls[1..]);
    MoreDotted(ls);
    CharsJoin(l, [DOT] + rest);
    CharsJoin([DOT], rest);
    assert l + ([DOT] + Chars(rest)) == l + [DOT] + Chars(rest);
  }

  lemma OnlySeen(ls: seq<Label>)
    requires |ls| == 1 && Split(Chars(Dotted(ls)))[0] == ls[0]
    ensures Split(Chars(Dotted(ls))) == ls
  {
    hide Split, Chars;
    var t := Chars(Dotted(ls));
    FirstPiece(t);
    assert t == ls[0];
    SplitLabel(t);
  }

  lemma PrefixIn(l: Label, t: seq<Byte>)
    requires l <= t && 0 !in t
    ensures 0 !in l
  {
  }

  lemma MoreDotted(ls: seq<Label>)
    requires |ls| > 1
    ensures Dotted(ls) == ls[0] + ([DOT] + Dotted(ls[1..]))
  {
  }

  /** A frame that is a framed label: no space, and in lower case. */
  lemma FrameFull(p: Label, l: Label, before: seq<Byte>)
    requires |l| < 256 && p <= l && Frame(p, before, 0)[0] == |l|
    ensures p == l && SPACE !in l
    ensures Frame(p, before, 0) == Framed(l) ==> forall c <- l :: ToLower(c) == c
  {
    if Frame(p, before, 0) == Framed(l) {
      FramePlain(p, before, 0);
      assert LowerAll(l) == Framed(l)[1..];
      forall c | c in l
        ensures ToLower(c) == c
      {
        var j :| 0 <= j < |l| && l[j] == c;
        assert LowerAll(l)[j] == l[j];
      }
    }
  }

  lemma FramedStart(p: Label, l: Label, x: seq<Byte>, y: seq<Byte>, before: seq<Byte>)
    requires |l| < 256 && p <= l && Frame(p, before, 0) + x <= Framed(l) + y
    ensures p == l && SPACE !in l && (forall c <- l :: ToLower(c) == c) && x <= y
  {
    hide Frame, Body, Nonspaces;
    FrameLength(p, before, 0);
    var f, g := Frame(p, before, 0) + x, Framed(l) + y;
    assert f[0] == Frame(p, before, 0)[0] && g[0] == |l|;
    FrameFull(p, l, before);
    assert f[..|l| + 1] == Frame(p, before, 0) && g[..|l| + 1] == Framed(l);
    assert f[..|l| + 1] == g[..|l| + 1];
    assert f[|l| + 1..] == x && g[|l| + 1..] == y;
  }

  /**
   * If the frames of the visible pieces begin the framed labels, the pieces are the labels: the length byte of the first
   * label with a dot, a null or a space would be too small.
   */
  lemma {:induction false} FramesMeet(ls: seq<Label>, before: seq<Byte>)
    requires ls != [] && Fits(ls) && Short(Split(Chars(Dotted(ls)))) && |Head(ls)| <= |before|
    requires Frames(Split(Chars(Dotted(ls))), before) <= Head(ls)
    ensures Split(Chars(Dotted(ls))) == ls && Spaceless(ls) && AllLower(ls)
    decreases |ls|
  {
    hide Frames, Head, Split, Chars, Frame, Dotted;
    var ps, l, rest := Split(Chars(Dotted(ls))), ls[0], ls[1..];
    var p := ps[0];
    assert l in ls && ls == [l] + rest && p in ps && ps == [p] + ps[1..];
    FirstSeen(ls);
    HeadCons(l, rest);
    FramesCons(p, ps[1..], before);
    FramedStart(p, l, Frames(ps[1..], before[|p| + 1..]), Head(rest), before);
    if |ls| == 1 {
      OnlySeen(ls);
    } else {
      OtherSeen(ls);
      FramesMeet(rest, before[|p| + 1..]);
    }
  }

  /** A name is reproduced byte for byte exactly if its labels hold no dot, null, space or upper-case letter. */
  lemma ReproducedIff(ls: seq<Label>, w: seq<Byte>, before: seq<Byte>)
    requires ls != [] && Fits(ls) && |w| == |Wire(ls)| && SeenOnWire(ls, w, before)
    ensures w == Wire(ls) <==> AllClean(ls) && AllLower(ls) && Spaceless(ls)
  {
    hide Head, Frames, Wire, Split, Chars, Dotted, AllClean, AllLower, Spaceless;
    if AllClean(ls) && AllLower(ls) && Spaceless(ls) {
      CleanSerialised(ls, w, before);
      LowerFixed(ls);
    }
    if w == Wire(ls) {
      HeadZero(ls);
      var frames := Frames(Apparent(ls), before);
      assert frames <= Head(ls);
      FramesMeet(ls, before);
      ApparentIff(ls);
    }
  }

  lemma LoweredShort(a: seq<Label>)
    ensures Short(a) <==> Short(Lowered(a))
  {
    if Short(Lowered(a)) {
      forall l | l in a
        ensures |l| < 256
      {
        var i :| 0 <= i < |a| && a[i] == l;
        assert Lowered(a)[i] in Lowered(a);
      }
    }
    LoweredSnoc(a, []);
  }

  lemma {:induction false} HeadLowerShort(ls: seq<Label>)
    requires Short(ls)
    ensures Short(Lowered(ls)) && |Head(Lowered(ls))| == |Head(ls)|
    decreases |ls|
  {
    LoweredShort(ls);
    if ls != [] {
      var n := |ls| - 1;
      HeadLowerShort(ls[..n]);
      assert ls == ls[..n] + [ls[n]] && ls[n] in ls;
      LoweredSnoc(ls[..n], ls[n]);
      HeadSnoc(ls[..n], ls[n]);
      HeadSnoc(Lowered(ls[..n]), LowerAll(ls[n]));
    }
  }

  // ----- suffixes and equality

  /** The parent's labels end the child's. */
  predicate IsSuffix(parent: seq<Label>, child: seq<Label>) {
    |parent| <= |child| && child[|child| - |parent|..] == parent
  }

  lemma SuffixTransitive(a: seq<Label>, b: seq<Label>, c: seq<Label>)
    requires IsSuffix(a, b) && IsSuffix(b, c)
    ensures IsSuffix(a, c)
  {
  }

  /** The text of the parent ends the child's, at a label boundary. */
  ghost predicate EndsAtLabel(child: seq<Byte>, parent: seq<Byte>) {
    && |parent| <= |child| && child[|child| - |parent|..] == parent
    && (|parent| == |child| || child[|child| - |parent| - 1] == DOT)
  }

  /** A text ends another one at a label boundary exactly if its pieces end the other's, for all texts. */
  lemma SuffixText(c: seq<Byte>, p: seq<Byte>)
    ensures EndsAtLabel(c, p) <==> IsSuffix(Split(p), Split(c))
  {
    hide Split, Dotted;
    if EndsAtLabel(c, p) {
      SplitSuffix(c, p);
    }
    if IsSuffix(Split(p), Split(c)) {
      var front := Split(c)[..|Split(c)| - |Split(p)|];
      assert Split(c) == front + Split(p);
      DottedSuffix(front, Split(p));
      DottedSplit(c);
      DottedSplit(p);
    }
  }

  lemma {:induction false} DottedSplit(s: seq<Byte>)
    ensures Dotted(Split(s)) == s
    decreases |s|
  {
    if s != [] {
      DottedSplit(s[1..]);
      var rest := Split(s[1..]);
      if s[0] == DOT {
        assert ([[]] + rest)[1..] == rest;
      } else if |rest| > 1 {
        var q := [[s[0]] + rest[0]] + rest[1..];
        assert q[1..] == rest[1..];
      }
    }
  }

  lemma SplitSuffix(c: seq<Byte>, p: seq<Byte>)
    requires EndsAtLabel(c, p)
    ensures IsSuffix(Split(p), Split(c))
  {
    hide Split;
    var n := |c| - |p|;
    if n == 0 {
      assert c == p;
    } else {
      assert c == c[..n - 1] + [DOT] + p;
      SplitJoin(c[..n - 1], p);
    }
  }

  lemma DottedSuffix(front: seq<Label>, parent: seq<Label>)
    requires parent != []
    ensures EndsAtLabel(Dotted(front + parent), Dotted(parent))
  {
    hide Dotted;
    if front == [] {
      assert front + parent == parent;
    } else {
      DottedAppend(front, parent);
    }
  }

  lemma SuffixShorter(child: seq<Label>, parent: seq<Label>)
    requires Fits(child) && Fits(parent)
    ensures IsSuffix(parent, child) ==> |Wire(parent)| <= |Wire(child)|
    ensures |Wire(parent)| == 1 <==> parent == []
    ensures parent != [] ==> |Wire(parent)| == |Text(parent)| + 2
  {
    if IsSuffix(parent, child) {
      var front := child[..|child| - |parent|];
      assert child == front + parent && Fits(front);
      WireAppend(front, parent);
    }
    if parent != [] {
      WireLength(parent);
    }
  }

  lemma RootSuffix(cl: seq<Label>)
    ensures IsSuffix([], cl) && IsSuffix(cl, cl)
  {
  }

  lemma RootWire()
    ensures Fits([]) && Wire([]) == [0] && Lowered([]) == [] && AllClean([]) && AllLower([]) && Spaceless([])
  {
  }

  /** With clean labels the text decides; without nulls a shorter text never has the larger size. */
  lemma SuffixSeen(child: seq<Label>, parent: seq<Label>)
    requires Fits(child) && Fits(parent)
    ensures AllClean(child) && AllClean(parent) && child != [] && parent != [] ==>
              Apparent(child) == child && Apparent(parent) == parent
    ensures NullFree(child) && parent != [] && |Wire(parent)| <= |Wire(child)| ==>
              |Chars(Text(parent))| <= |Chars(Text(child))|
  {
    hide Wire, Dotted, Split, Chars, AllClean;
    SuffixShorter(child, child);
    SuffixShorter(child, parent);
    if child != [] {
      ApparentIff(child);
      TextNulls(child);
      if NullFree(child) {
        CharsAll(Text(child));
      }
    }
    if parent != [] {
      ApparentIff(parent);
    }
  }

  lemma CleanNull(ls: seq<Label>)
    ensures AllClean(ls) ==> NullFree(ls)
  {
  }

  lemma EqualSeen(l1: seq<Label>, l2: seq<Label>)
    requires Fits(l1) && Fits(l2) && AllClean(l1) && AllClean(l2)
    ensures |Wire(l1)| == |Wire(l2)| && Chars(Text(l1)) <= Chars(Text(l2)) ==> l1 == l2
  {
    hide Wire, Dotted, Split, Chars;
    SuffixShorter(l1, l1);
    SuffixShorter(l2, l2);
    if |Wire(l1)| == |Wire(l2)| && Chars(Text(l1)) <= Chars(Text(l2)) && l1 != [] {
      TextNulls(l1);
      TextNulls(l2);
      CharsAll(Text(l1));
      CharsAll(Text(l2));
      assert |Text(l1)| == |Text(l2)| && Text(l1) == Text(l2);
      SplitDotted(l1);
      SplitDotted(l2);
    }
  }
}
