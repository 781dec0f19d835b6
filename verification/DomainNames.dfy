/** Domain names in a buffer of 255 characters: reading, writing and comparing them. */
module DomainNames {
  import opened Common
  import opened Labels

  /** An answer, or an access outside the name's buffer, after which nothing can be said. */
  datatype Outcome = Yes | No | OutOfBounds

  /** A label that starts inside the name buffer runs past its end. */
  ghost predicate Overruns(b: seq<Byte>, pos: nat)
    decreases |b| - pos
  {
    && pos < MAX_LEN && pos < |b| && 0 < b[pos] && pos + b[pos] + 1 <= |b|
    && (pos + b[pos] >= MAX_LEN || Overruns(b, pos + b[pos] + 1))
  }

  /** The buffer begins with complete labels of which the last starts within 255 bytes and ends beyond them. */
  ghost predicate TooLong(b: seq<Byte>, done: seq<Label>, l: Label) {
    && Fits(done + [l]) && Head(done + [l]) <= b
    && |Head(done)| < MAX_LEN < |Head(done + [l])|
  }

  /** That is when a read runs past the end. */
  lemma {:induction false} OverrunsFrom(b: seq<Byte>, done: seq<Label>) returns (more: seq<Label>, l: Label)
    requires Fits(done) && Head(done) <= b && Overruns(b, |Head(done)|)
    ensures TooLong(b, done + more, l)
    decreases |b| - |Head(done)|
  {
    hide Head;
    var pos := |Head(done)|;
    var x := b[pos + 1..pos + b[pos] + 1];
    ReadNext(b, done);
    if pos + b[pos] >= MAX_LEN {
      more, l := [], x;
      assert done + [] == done;
    } else {
      more, l := OverrunsFrom(b, done + [x]);
      assert (done + [x]) + more == done + ([x] + more);
      more := [x] + more;
    }
  }

  lemma ReadNext(b: seq<Byte>, done: seq<Label>)
    requires Fits(done) && Head(done) <= b
    requires var pos := |Head(done)|; pos < |b| && 0 < b[pos] && pos + b[pos] + 1 <= |b|
    ensures var pos := |Head(done)|; var x := b[pos + 1..pos + b[pos] + 1];
            Fits(done + [x]) && Head(done + [x]) <= b && |Head(done + [x])| == pos + b[pos] + 1
  {
    hide Head;
    var pos := |Head(done)|;
    var x := b[pos + 1..pos + b[pos] + 1];
    FitsSnoc(done, x);
    HeadSnoc(done, x);
    FramedAt(b, pos);
    assert b == Head(done) + b[pos..];
  }

  lemma {:induction false} OverrunsTo(b: seq<Byte>, done: seq<Label>, rest: seq<Label>, l: Label)
    requires TooLong(b, done + rest, l)
    ensures Overruns(b, |Head(done)|)
    decreases |rest|
  {
    hide Head;
    if rest == [] {
      assert done + rest == done && done + [l] + [] == done + [l];
      NextLabel(b, done, [], l);
    } else {
      var x := rest[0];
      assert rest == [x] + rest[1..] && done + rest == (done + [x]) + rest[1..];
      assert (done + rest) + [l] == (done + [x]) + (rest[1..] + [l]);
      FitsParts(done + [x], rest[1..] + [l]);
      FitsParts(done + [x], rest[1..]);
      NextLabel(b, done, rest[1..] + [l], x);
      OverrunsTo(b, done + [x], rest[1..], l);
      HeadLonger(done + [x], rest[1..]);
    }
  }

  lemma FitsParts(a: seq<Label>, c: seq<Label>)
    requires Fits(a + c)
    ensures Fits(a) && Fits(c)
  {
    assert forall l <- a :: l in a + c;
    assert forall l <- c :: l in a + c;
  }

  lemma HeadLonger(a: seq<Label>, c: seq<Label>)
    requires Fits(a + c)
    ensures Fits(a) && |Head(a)| <= |Head(a + c)| && Head(a) <= Head(a + c)
  {
    hide Head, Wire;
    FitsParts(a, c);
    WireAppend(a, c);
    HeadZero(a + c);
    HeadZero(c);
    assert Head(a + c) + [0] == (Head(a) + Head(c)) + [0];
    assert (Head(a + c) + [0])[..|Head(a + c)|] == Head(a + c);
  }

  /** The next label of the buffer, behind those that were read. */
  lemma NextLabel(b: seq<Byte>, done: seq<Label>, rest: seq<Label>, x: Label)
    requires Fits(done + [x] + rest) && Head(done + [x] + rest) <= b
    ensures Fits(done) && Fits(done + [x]) && var pos := |Head(done)|;
            && pos + |x| + 1 <= |b| && b[pos] == |x| > 0 && |Head(done + [x])| == pos + |x| + 1
  {
    hide Head;
    HeadLonger(done + [x], rest);
    HeadLonger(done, [x]);
    assert x in done + [x];
    HeadSnoc(done, x);
    assert Head(done + [x]) <= b;
    assert Head(done + [x])[|Head(done)|] == |x|;
  }

  /** The wire constructor leaves its buffer exactly if the bytes begin with such labels. */
  lemma OverrunsIff(b: seq<Byte>)
    ensures Overruns(b, 0) <==> exists done: seq<Label>, l: Label :: TooLong(b, done, l)
  {
    hide TooLong;
    if Overruns(b, 0) {
      var more, l := OverrunsFrom(b, []);
      assert [] + more == more;
    }
    forall done: seq<Label>, l: Label | TooLong(b, done, l)
      ensures Overruns(b, 0)
    {
      assert [] + done == done;
      OverrunsTo(b, [], done, l);
    }
  }

  /** The wildcard label, a single asterisk, is not counted. */
  lemma WildcardExample()
    ensures Decode([1, 42, 1, 97, 0]) == Some([[42], [97]]) && Counted([[42], [97]]) == 1
  {
    hide Decode;
    var star: Label, a: Label := [42], [97];
    assert [1, 42, 1, 97, 0] == Framed(star) + [1, 97, 0];
    DecodeFramed(star, [1, 97, 0]);
    DecodeOne(a, [1, 97, 0]);
    assert [star] + [a] == [star, a];
    CountedSnoc([], star);
    CountedSnoc([star], a);
    assert [] + [star] == [star];
  }

  /** Labels of 200 and 60 bytes: the second one would be stored at 201 to 261. */
  lemma OverrunExample(b: seq<Byte>)
    requires |b| >= 262 && b[0] == 200 && b[201] == 60
    ensures Overruns(b, 0)
  {
    assert Overruns(b, 201);
  }

  /** The labels `done` have been read from the first `pos` bytes. */
  ghost predicate Reading(b: seq<Byte>, done: seq<Label>, text: seq<Byte>, pos: nat, count: nat) {
    && pos <= |b| && Fits(done) && count == Counted(done) && text == Pieces(done) && |text| == pos
    && Decode(b) == With(done, Decode(b[pos..])) && (Overruns(b, 0) <==> Overruns(b, pos))
  }

  lemma ReadingStart(b: seq<Byte>)
    ensures Reading(b, [], [], 0, 0)
  {
    NothingRead(b);
  }

  lemma ReadingStep(b: seq<Byte>, done: seq<Label>, text: seq<Byte>, pos: nat, count: nat)
    requires Reading(b, done, text, pos, count) && pos < MAX_LEN && pos < |b| && 0 < b[pos] && pos + b[pos] + 1 <= |b|
    ensures var n, l := b[pos], b[pos + 1..pos + b[pos] + 1];
            if pos + n < MAX_LEN then
              Reading(b, done + [l], text + l + [DOT], pos + n + 1, count + if n == 1 && b[pos + 1] == STAR then 0 else 1)
            else
              Overruns(b, 0) && (Decode(b).Some? ==> |Wire(Decode(b).value)| > MAX_LEN)
  {
    hide Decode, Wire, Pieces, Counted, Fits;
    var n, l := b[pos], b[pos + 1..pos + b[pos] + 1];
    DecodeStep(b, done, pos);
    PiecesSnoc(done, l);
    CountedSnoc(done, l);
    FitsSnoc(done, l);
    assert l == [STAR] <==> n == 1 && b[pos + 1] == STAR;
    if pos + n >= MAX_LEN {
      DecodeLong(b, done + [l], pos + n + 1);
    }
  }

  /** Where the loop stops, and what the buffer decodes to then. */
  lemma ReadingEnds(b: seq<Byte>, done: seq<Label>, text: seq<Byte>, pos: nat, count: nat)
    requires Reading(b, done, text, pos, count)
    ensures pos <= |b| && Fits(done) && count == Counted(done) && text == Pieces(done) && |Wire(done)| == pos + 1
    ensures pos == |b| || pos + b[pos] + 1 > |b| ==> Decode(b) == None && !Overruns(b, 0)
    ensures pos < |b| && b[pos] == 0 ==> Decode(b) == Some(done) && !Overruns(b, 0)
    ensures pos >= MAX_LEN ==> !Overruns(b, 0) && (Decode(b).Some? ==> |Wire(Decode(b).value)| > MAX_LEN)
  {
    hide Decode, Wire, Pieces, Counted, Fits;
    TextDone(done);
    DecodeLong(b, done, pos);
    if pos == |b| || pos + b[pos] + 1 > |b| {
      DecodeStuck(b, done, pos);
    } else if b[pos] == 0 {
      DecodeEnd(b, done, pos);
    }
  }

  class DomainName {
    const nameBytes: array<Byte>
    var len: nat
    var numLabels: nat

    constructor ()
      ensures nameBytes.Length == MAX_LEN && fresh(nameBytes) && len == 0 && numLabels == 0
    {
      nameBytes := new Byte[MAX_LEN];
      len, numLabels := 0, 0;
    }

    /** The object stands for these labels: their text with a null behind it, their size and their number. */
    ghost predicate Holds(ls: seq<Label>)
      reads this, nameBytes
    {
      && nameBytes.Length == MAX_LEN && Fits(ls) && len == |Wire(ls)| && numLabels == Counted(ls)
      && |Text(ls)| < MAX_LEN && nameBytes[..|Text(ls)|] == Text(ls) && nameBytes[|Text(ls)|] == 0
    }

    lemma HoldsChars(ls: seq<Label>)
      requires Holds(ls)
      ensures Chars(nameBytes[..]) == Chars(Text(ls)) && |Chars(Text(ls))| < MAX_LEN
      ensures nameBytes[..|Chars(Text(ls))|] == Chars(Text(ls)) && nameBytes[|Chars(Text(ls))|] == 0
    {
      var n := |Text(ls)|;
      assert nameBytes[..] == Text(ls) + [0] + nameBytes[n + 1..];
      CharsStop(Text(ls), nameBytes[n + 1..]);
    }

    /** lite_strlen. */
    method Length(ghost ls: seq<Label>) returns (n: nat)
      requires Holds(ls)
      ensures n == |Chars(Text(ls))| < MAX_LEN && nameBytes[..n] == Chars(Text(ls)) && nameBytes[n] == 0
    {
      HoldsChars(ls);
      ghost var s := Chars(Text(ls));
      n := 0;
      while nameBytes[n] != 0
        invariant n <= |s|
        decreases |s| - n
      {
        n := n + 1;
      }
      NoNull(nameBytes[..], s, n);
    }

    /** A label and the dot behind it, stored at `at`. */
    method StoreLabel(at: nat, piece: seq<Byte>)
      requires nameBytes.Length == MAX_LEN && at + |piece| < MAX_LEN
      modifies nameBytes
      ensures nameBytes[..at + |piece| + 1] == old(nameBytes[..at]) + piece + [DOT]
    {
      for i := 0 to |piece|
        invariant nameBytes[..at + i] == old(nameBytes[..at]) + piece[..i]
      {
        nameBytes[at + i] := piece[i];
        assert nameBytes[..at + i + 1] == nameBytes[..at + i] + [piece[i]];
      }
      nameBytes[at + |piece|] := DOT;
      assert nameBytes[..at + |piece| + 1] == nameBytes[..at + |piece|] + [DOT];
    }

    /** The root label: the text of the root, or a null in the place of the last dot. */
    method StoreEnd(ghost done: seq<Label>)
      requires nameBytes.Length == MAX_LEN && Fits(done) && len < MAX_LEN
      requires nameBytes[..len] == Pieces(done) && numLabels == Counted(done)
      modifies this`len, nameBytes
      ensures Holds(done) && len == old(len) + 1
    {
      hide Wire, Pieces, Counted, Fits;
      TextDone(done);
      ghost var text := nameBytes[..len];
      if len == 0 {
        nameBytes[0] := SPACE;
        nameBytes[1] := 0;
        assert nameBytes[..1] == [SPACE];
      } else {
        nameBytes[len - 1] := 0;
        assert nameBytes[..len - 1] == text[..len - 1];
      }
      len := len + 1;
    }

    /**
     * The wire constructor. It leaves its buffer exactly if a label that starts inside runs past the end, and accepts exactly
     * the buffers that begin with a complete name of at most 255 bytes; those never make it leave.
     */
    method ReadWire(buffer: seq<Byte>) returns (r: Outcome)
      requires nameBytes.Length == MAX_LEN
      modifies this, nameBytes
      ensures r == OutOfBounds <==> Overruns(buffer, 0)
      ensures r == Yes <==> Decode(buffer).Some? && |Wire(Decode(buffer).value)| <= MAX_LEN
      ensures r == Yes ==> Holds(Decode(buffer).value)
    {
      hide Decode, Wire, Pieces, Counted, Fits, Reading, Overruns;
      len, numLabels := 0, 0;
      ghost var done: seq<Label> := [];
      ReadingStart(buffer);
      if |buffer| == 0 {
        ReadingEnds(buffer, done, [], 0, 0);
        return No;
      }
      var bound := if MAX_LEN < |buffer| then MAX_LEN else |buffer|;
      while len < bound
        invariant len <= MAX_LEN && Reading(buffer, done, nameBytes[..len], len, numLabels)
        decreases bound - len
      {
        var labelLen := buffer[len];
        ReadingEnds(buffer, done, nameBytes[..len], len, numLabels);
        if len + labelLen + 1 > |buffer| {
          return No;
        }
        if labelLen == 0 {
          StoreEnd(done);
          return Yes;
        }
        var piece := buffer[len + 1..len + labelLen + 1];
        ReadingStep(buffer, done, nameBytes[..len], len, numLabels);
        if len + labelLen >= MAX_LEN {
          return OutOfBounds;
        }
        StoreLabel(len, piece);
        if !(labelLen == 1 && buffer[len + 1] == STAR) {
          numLabels := numLabels + 1;
        }
        done := done + [piece];
        len := len + labelLen + 1;
      }
      ReadingEnds(buffer, done, nameBytes[..len], len, numLabels);
      return No;
    }

    /** The copy loop of parse, over a text with its null. */
    method StoreText(text: seq<Byte>, n: nat)
      requires nameBytes.Length == MAX_LEN && n < |text| && n < MAX_LEN
      modifies nameBytes
      ensures nameBytes[..n + 1] == LowerAll(text[..n + 1])
    {
      hide LowerAll;
      LowerNone(text);
      for i := 0 to n + 1
        invariant nameBytes[..i] == LowerAll(text[..i])
      {
        LowerSnoc(text, i);
        nameBytes[i] := ToLower(text[i]);
        assert nameBytes[..i + 1] == nameBytes[..i] + [ToLower(text[i])];
      }
    }

    /** The label count and the size on the wire of the first n characters. */
    method CountText(text: seq<Byte>, n: nat)
      requires 0 < n <= |text|
      modifies this
      ensures var root := n == 1 && text[0] == SPACE;
              numLabels == (if root then 0 else Dots(text[..n]) + 1) && len == if root then 1 else n + 2
    {
      numLabels := 0;
      if n == 1 && text[0] == SPACE {
        len := 1;
      } else {
        for i := 0 to n
          invariant numLabels == Dots(text[..i])
        {
          assert text[..i + 1] == text[..i] + [text[i]];
          if text[i] == DOT {
            numLabels := numLabels + 1;
          }
        }
        numLabels := numLabels + 1;
        len := n - (numLabels - 1) + numLabels + 1;
      }
    }

    /**
     * parse, for a dotted name that passed the syntax check: the name in lower case, with its label count and its size on the wire.
     * The length is kept in one byte. At 255 the copy loop, whose counter is a byte too, leaves the buffer, and a text of more than
     * 255 characters is cut to its length modulo 256, without a null, or refused if that is 0.
     */
    method ParseText(text: seq<Byte>, ghost ls: seq<Label>) returns (r: Outcome)
      requires nameBytes.Length == MAX_LEN && AllNamed(ls) && text == Text(ls)
      modifies this, nameBytes
      ensures r == if |text| % 256 == 0 then No else if |text| % 256 == MAX_LEN then OutOfBounds else Yes
      ensures |text| < MAX_LEN ==> r == Yes && Holds(Lowered(ls)) && AllPlain(Lowered(ls))
      ensures r == Yes && |text| > MAX_LEN ==>
                var n := |text| % 256; nameBytes[..n + 1] == LowerAll(text[..n + 1]) && 0 !in nameBytes[..n + 1]
    {
      hide Wire, Dotted, Counted, Fits, AllNamed, Lowered, AllPlain, LowerAll, Dots;
      LoweredText(ls);
      NamedText(ls);
      var nameLength := |text| % 256;
      if nameLength == 0 {
        return No;
      }
      if nameLength == MAX_LEN {
        return OutOfBounds;
      }
      StoreText(text + [0], nameLength);
      TextCut(text, nameLength, ls);
      CountText(text, nameLength);
      if |text| < MAX_LEN {
        assert text[..nameLength] == text;
        assert nameBytes[..nameLength] == nameBytes[..nameLength + 1][..nameLength];
        assert nameBytes[nameLength] == nameBytes[..nameLength + 1][nameLength];
      }
      return Yes;
    }

    /** The loop of serialize: the frames of the pieces. The text of the root needs one byte of the buffer. */
    method WritePieces(text: seq<Byte>, buffer: array<Byte>)
      requires |text| < MAX_LEN && (|text| + 1 <= buffer.Length || (text == [SPACE] && buffer.Length == 1))
      modifies buffer
      ensures text == [SPACE] ==> buffer[0] == 0 && buffer[1..] == old(buffer[1..])
      ensures |text| + 1 <= buffer.Length ==>
                && Short(Split(text)) && buffer[..|text| + 1] == Frames(Split(text), old(buffer[..]))
                && buffer[|text| + 1..] == old(buffer[|text| + 1..])
    {
      hide Split, Frames, Writing;
      var labelPos: nat, labelLen: Byte, i := 0, 0, 0;
      ghost var pad: seq<Byte> := if |text| + 1 <= buffer.Length then [] else [0];
      ghost var before := buffer[..] + pad;
      WritingStart(text, before);
      while i < |text|
        invariant 0 <= i <= |text| && (text == [SPACE] ==> labelPos == 0)
        invariant Writing(text, i, buffer[..] + pad, before, labelPos, labelLen)
      {
        ghost var held, p, n := buffer[..] + pad, labelPos, labelLen;
        WritingFacts(text, i, held, before, labelPos, labelLen);
        if text[i] == DOT {
          buffer[labelPos] := labelLen;
          assert buffer[..] + pad == held[labelPos := labelLen];
          labelLen := 0;
          labelPos := i + 1;
        } else if text[i] == SPACE {
          buffer[i] := 0;
          assert buffer[..] + pad == held[i := 0];
        } else {
          buffer[i + 1] := ToLower(text[i]);
          assert buffer[..] + pad == held[i + 1 := ToLower(text[i])];
          labelLen := labelLen + 1;
        }
        WritingNext(text, i, held, before, p, n, buffer[..] + pad);
        i := i + 1;
      }
      ghost var held := buffer[..] + pad;
      WritingFacts(text, i, held, before, labelPos, labelLen);
      WritingEnd(text, held, before, labelPos, labelLen);
      buffer[labelPos] := labelLen;
      assert buffer[..] + pad == held[labelPos := labelLen];
      Closed(text, buffer[..], old(buffer[..]), pad);
    }

    /**
     * serialize: the visible labels behind their lengths, in lower case and without their spaces, and a zero in the last of the
     * size() bytes. For labels without a dot, a null or a space this is the wire form in lower case.
     */
    method Serialize(buffer: array<Byte>, ghost ls: seq<Label>) returns (n: nat)
      requires Holds(ls) && len <= buffer.Length && buffer != nameBytes
      modifies buffer
      ensures n == len && buffer[n..] == old(buffer[n..])
      ensures ls == [] ==> buffer[..n] == [0]
      ensures ls != [] ==> SeenOnWire(ls, buffer[..n], old(buffer[..n]))
      ensures AllClean(ls) && Spaceless(ls) ==> Fits(Lowered(ls)) && buffer[..n] == Wire(Lowered(ls))
    {
      hide Wire, Frames, Dotted, Spaceless, AllClean, Split, Chars, Fits, Lowered, Counted;
      SerialiseFacts(ls);
      ghost var before := buffer[..];
      var length := Length(ls);
      WritePieces(nameBytes[..length], buffer);
      ghost var middle := buffer[..];
      buffer[len - 1] := 0;
      n := len;
      assert buffer[..] == middle[n - 1 := 0];
      if ls != [] {
        assert before[length + 1..] == middle[length + 1..];
        SeenFrom(ls, before, middle, n);
        CleanSerialised(ls, buffer[..n], before[..n]);
      } else {
        RootWire();
        assert buffer[..n] == [0];
      }
    }
  }

  /** A name in lower case that is written can be read back and is the same. */
  method WriteThenRead(d: DomainName, copy: DomainName, buffer: array<Byte>, ghost ls: seq<Label>) returns (r: Outcome)
    requires d != copy && d.Holds(ls) && AllPlain(ls) && d.len <= MAX_LEN && d.len <= buffer.Length
    requires copy.nameBytes.Length == MAX_LEN && d.nameBytes !in {copy.nameBytes, buffer} && copy.nameBytes != buffer
    modifies buffer, copy, copy.nameBytes
    ensures r == Yes && copy.Holds(ls)
  {
    hide Wire, Decode, Counted;
    var n := d.Serialize(buffer, ls);
    LowerFixed(ls);
    DecodeWire(ls, buffer[n..]);
    assert buffer[..] == buffer[..n] + buffer[n..];
    r := copy.ReadWire(buffer[..]);
  }

  /**
   * A name that is read and written again gives back its bytes exactly if no label holds a dot, a null, a space or an upper-case
   * letter.
   */
  method ReadThenWrite(d: DomainName, wire: seq<Byte>, buffer: array<Byte>) returns (r: Outcome)
    requires Decode(wire).Some? && |Wire(Decode(wire).value)| <= MAX_LEN
    requires d.nameBytes.Length == MAX_LEN && |wire| <= buffer.Length && buffer != d.nameBytes
    modifies buffer, d, d.nameBytes
    ensures r == Yes && d.len <= |wire|
    ensures var ls := Decode(wire).value; buffer[..d.len] == wire[..d.len] <==> AllClean(ls) && AllLower(ls) && Spaceless(ls)
  {
    hide Wire, Decode, Counted, SeenOnWire, AllClean, AllLower, Spaceless;
    ghost var ls := Decode(wire).value;
    WireDecode(wire);
    r := d.ReadWire(wire);
    ghost var before := buffer[..d.len];
    var n := d.Serialize(buffer, ls);
    RootWire();
    if ls != [] {
      ReproducedIff(ls, buffer[..n], before);
    }
  }

  /** One upper-case letter: what comes back is another name. */
  lemma UpperCaseExample()
    ensures Decode([1, 65, 0]) == Some([[65]]) && Spaceless([[65]]) && NullFree([[65]])
    ensures AllClean([[65]]) && !AllLower([[65]]) && Wire(Lowered([[65]])) == [1, 97, 0]
  {
    var l: Label, zero: seq<Byte> := [65], [0];
    assert Framed(l) == [1, 65] && Framed(l) + zero == [1, 65, 0];
    DecodeFramed(l, zero);
    assert zero[0] == 0 && Decode(zero) == Some([]) && [l] + [] == [l];
    assert LowerAll(l) == [97] && Lowered([l]) == [[97]] && [[97]][1..] == [];
    assert l in [l] && 65 in l;
  }

  lemma DecodeOne(l: Label, b: seq<Byte>)
    requires 0 < |l| < 256 && b == [|l|] + l + [0]
    ensures Decode(b) == Some([l])
  {
    assert b == Framed(l) + [0];
    DecodeFramed(l, [0]);
    assert Decode([0]) == Some([]) && [l] + [] == [l];
  }

  /** What is written of a name of one label without dots. */
  lemma WrittenOne(l: Label, seen: Label, w: seq<Byte>, before: seq<Byte>)
    requires Chars(l) == seen && |seen| < 256 && DOT !in seen && SeenOnWire([l], w, before)
    ensures |seen| + 1 < |w| && w[..|seen| + 1] == Frame(seen, before, 0)
  {
    hide Frames, Frame, Split, Chars;
    SplitLabel(seen);
    OneFrame(seen, before);
    FrameLength(seen, before, 0);
  }

  /** A space inside a label: "a b" comes back with length 2 and without its first letter. */
  lemma SpaceExample(w: seq<Byte>, before: seq<Byte>)
    requires SeenOnWire([[97, 32, 98]], w, before) && |w| == 5
    ensures Decode([3, 97, 32, 98, 0]) == Some([[97, 32, 98]]) && w == [2, 0, before[2], 98, 0]
  {
    hide Decode, SeenOnWire, Frame;
    var l: Label := [97, 32, 98];
    DecodeOne(l, [3, 97, 32, 98, 0]);
    CharsAll(l);
    LastZero([l], w, before);
    WrittenOne(l, l, w, before);
    SpacedFrame(before);
    assert w == w[..4] + [w[4]];
  }

  lemma SpacedFrame(before: seq<Byte>)
    requires |before| >= 4
    ensures Frame([97, 32, 98], before, 0) == [2, 0, before[2], 98]
  {
    hide Nonspaces;
    SpacedCount();
  }

  lemma SpacedCount()
    ensures Nonspaces([97, 32, 98]) == 2
  {
    hide Nonspaces;
    NonspacesNone();
    NonspacesSnoc([], 97);
    NonspacesSnoc([97], 32);
    NonspacesSnoc([97, 32], 98);
    assert [] + [97] == [97] && [97] + [32] == [97, 32] && [97, 32] + [98] == [97, 32, 98];
  }

  lemma LastZero(ls: seq<Label>, w: seq<Byte>, before: seq<Byte>)
    requires SeenOnWire(ls, w, before)
    ensures |w| == |before| > 0 && w[|w| - 1] == 0
  {
  }

  /** A null inside a label: "a", null, "b" comes back with length 1, and two bytes are never written. */
  lemma NullWritten(w: seq<Byte>, before: seq<Byte>)
    requires SeenOnWire([[97, 0, 98]], w, before) && |w| == 5
    ensures Decode([3, 97, 0, 98, 0]) == Some([[97, 0, 98]]) && w[..2] == [1, 97]
  {
    hide Decode, SeenOnWire;
    var l: Label := [97, 0, 98];
    DecodeOne(l, [3, 97, 0, 98, 0]);
    assert [97] + [0] + [98] == l;
    CharsStop([97], [98]);
    CharsAll([97]);
    WrittenOne(l, [97], w, before);
    assert Nonspaces([97]) == 1 by {
      assert [97][..0] == [];
    }
  }

  /** A label that is one space comes back as the root. */
  lemma SpaceAlone(w: seq<Byte>, before: seq<Byte>)
    requires SeenOnWire([[32]], w, before) && |w| == 3
    ensures Decode([1, 32, 0]) == Some([[32]]) && Decode(w) == Some([])
  {
    hide SeenOnWire;
    DecodeOne([32], [1, 32, 0]);
    CharsAll([32]);
    LastZero([[32]], w, before);
    WrittenOne([32], [32], w, before);
    SpaceFrame(before);
    assert w[0] == w[..2][0];
  }

  /** The suffix test: the visible labels and the sizes on the wire decide; everything is under the root. */
  ghost predicate Under(cl: seq<Label>, pl: seq<Label>)
    requires Fits(cl) && Fits(pl)
  {
    pl == [] || (|Wire(pl)| <= |Wire(cl)| && IsSuffix(Apparent(pl), Apparent(cl)))
  }

  /** The suffix test leaves the child's name: its visible text ends the parent's longer one. */
  ghost predicate LeavesName(cl: seq<Label>, pl: seq<Label>)
    requires Fits(cl) && Fits(pl)
  {
    var c, p := Chars(Text(cl)), Chars(Text(pl));
    pl != [] && |Wire(pl)| <= |Wire(cl)| && |c| < |p| && p[|p| - |c|..] == c
  }

  /** The suffix test passes from name to name. */
  lemma UnderTransitive(a: seq<Label>, b: seq<Label>, c: seq<Label>)
    requires Fits(a) && Fits(b) && Fits(c) && Under(b, a) && Under(c, b)
    ensures Under(c, a)
  {
    hide Wire, Apparent;
    if a != [] {
      SuffixShorter(b, a);
      SuffixShorter(b, b);
      SuffixTransitive(Apparent(a), Apparent(b), Apparent(c));
    }
  }

  /** For labels without dots and nulls it is the suffix relation. */
  lemma UnderClean(cl: seq<Label>, pl: seq<Label>)
    requires Fits(cl) && Fits(pl)
    ensures AllClean(cl) && AllClean(pl) ==> (Under(cl, pl) <==> IsSuffix(pl, cl))
  {
    hide Wire, Dotted, AllClean, Chars, Split, IsSuffix;
    SuffixShorter(cl, pl);
    SuffixShorter(cl, cl);
    RootSuffix(cl);
    SuffixSeen(cl, pl);
    RootUnder(pl);
  }

  lemma RootUnder(pl: seq<Label>)
    ensures IsSuffix(pl, []) <==> pl == []
  {
  }

  lemma NotBoth(cl: seq<Label>, pl: seq<Label>)
    requires Fits(cl) && Fits(pl)
    ensures !(Under(cl, pl) && LeavesName(cl, pl))
  {
    hide Wire, Chars, Split, Dotted;
    SuffixText(Chars(Text(cl)), Chars(Text(pl)));
  }

  /** suffix: the answer depends on the visible labels and the sizes only. */
  method Suffix(child: DomainName, parent: DomainName?, ghost cl: seq<Label>, ghost pl: seq<Label>) returns (r: Outcome)
    requires child.Holds(cl) && (parent != null ==> parent.Holds(pl))
    ensures r == Yes <==> parent != null && Under(cl, pl)
    ensures r == Yes <==>
              parent != null && (parent.len == 1 || (parent.len <= child.len && IsSuffix(Apparent(pl), Apparent(cl))))
    ensures r == OutOfBounds <==> parent != null && LeavesName(cl, pl)
    ensures NullFree(cl) ==> r != OutOfBounds
    ensures AllClean(cl) && AllClean(pl) ==> (r == Yes <==> parent != null && IsSuffix(pl, cl))
  {
    hide Wire, Dotted, AllClean, Fits, IsSuffix, Chars, Split, Counted;
    if parent == null {
      return No;
    }
    SuffixShorter(cl, pl);
    SuffixShorter(cl, cl);
    RootSuffix(cl);
    CleanNull(cl);
    SuffixSeen(cl, pl);
    if !(parent.len <= child.len) {
      return No;
    }
    if parent.len == 1 {
      return Yes;
    }
    var m := parent.Length(pl);
    var n := child.Length(cl);
    SuffixText(Chars(Text(cl)), Chars(Text(pl)));
    r := EndsWith(child.nameBytes[..n], parent.nameBytes[..m]);
  }

  /** The two texts agree behind these positions. */
  ghost predicate Agree(c: seq<Byte>, p: seq<Byte>, pos: int, parentPos: int) {
    && -1 <= parentPos < |p| && -1 <= pos < |c| && pos - parentPos == |c| - |p|
    && c[pos + 1..] == p[parentPos + 1..]
  }

  lemma AgreeStart(c: seq<Byte>, p: seq<Byte>)
    ensures Agree(c, p, |c| - 1, |p| - 1)
  {
  }

  lemma AgreeNext(c: seq<Byte>, p: seq<Byte>, pos: int, parentPos: int)
    requires Agree(c, p, pos, parentPos) && pos >= 0 && parentPos >= 0 && c[pos] == p[parentPos]
    ensures Agree(c, p, pos - 1, parentPos - 1)
  {
    assert c[pos..] == [c[pos]] + c[pos + 1..] && p[parentPos..] == [p[parentPos]] + p[parentPos + 1..];
  }

  /** The child's text is used up first. */
  lemma AgreeOut(c: seq<Byte>, p: seq<Byte>, parentPos: int)
    requires Agree(c, p, -1, parentPos) && parentPos >= 0
    ensures !EndsAtLabel(c, p) && |c| < |p| && p[|p| - |c|..] == c
  {
    assert c[0..] == c;
  }

  /** The parent's text is used up. */
  lemma AgreeEnd(c: seq<Byte>, p: seq<Byte>, pos: int)
    requires Agree(c, p, pos, -1)
    ensures |c| >= |p| && (EndsAtLabel(c, p) <==> pos < 0 || c[pos] == DOT)
  {
    assert p[0..] == p;
  }

  /** The comparison from the last character on; it leaves the child's buffer exactly if the child's text ends the longer parent's. */
  method EndsWith(child: seq<Byte>, parent: seq<Byte>) returns (r: Outcome)
    ensures r == Yes <==> EndsAtLabel(child, parent)
    ensures r == OutOfBounds <==> |child| < |parent| && parent[|parent| - |child|..] == child
  {
    hide Agree, EndsAtLabel;
    var parentPos, pos := |parent| - 1, |child| - 1;
    AgreeStart(child, parent);
    while parentPos >= 0
      invariant -1 <= parentPos < |parent| && -1 <= pos < |child| && pos - parentPos == |child| - |parent|
      invariant Agree(child, parent, pos, parentPos)
    {
      if pos < 0 {
        AgreeOut(child, parent, parentPos);
        return OutOfBounds;
      }
      if child[pos] != parent[parentPos] {
        Mismatch(child, parent, pos, parentPos);
        return No;
      }
      AgreeNext(child, parent, pos, parentPos);
      parentPos := parentPos - 1;
      pos := pos - 1;
    }
    AgreeEnd(child, parent, pos);
    return if pos < 0 || child[pos] == DOT then Yes else No;
  }

  lemma Mismatch(c: seq<Byte>, p: seq<Byte>, pos: int, parentPos: int)
    requires 0 <= parentPos < |p| && 0 <= pos < |c| && pos - parentPos == |c| - |p| && c[pos] != p[parentPos]
    ensures !EndsAtLabel(c, p) && !(|c| < |p| && p[|p| - |c|..] == c)
  {
    assert |p| <= |c| ==> c[|c| - |p|..][parentPos] == c[pos];
    assert |c| < |p| ==> p[|p| - |c|..][pos] == p[parentPos];
  }

  lemma DottedUnder()
    ensures var child, parent: seq<Label> := [[97, 46, 99, 111, 109]], [[99, 111, 109]];
            Fits(child) && Fits(parent) && Under(child, parent)
  {
    hide Chars, EndsAtLabel, Split;
    var child: seq<Label>, parent: seq<Label> := [[97, 46, 99, 111, 109]], [[99, 111, 109]];
    SuffixExample();
    SuffixText(Chars(Text(child)), Chars(Text(parent)));
    WireLength(child);
    WireLength(parent);
  }

  /** The label "a.com" ends in "com" for the test, although it is one label. */
  lemma SuffixExample()
    ensures var child, parent: seq<Label> := [[97, 46, 99, 111, 109]], [[99, 111, 109]];
            && Fits(child) && Fits(parent) && NullFree(child) && NullFree(parent)
            && EndsAtLabel(Chars(Text(child)), Chars(Text(parent))) && !IsSuffix(parent, child) && !AllClean(child)
  {
    var l: Label, m: Label := [97, 46, 99, 111, 109], [99, 111, 109];
    CharsAll(l);
    CharsAll(m);
    assert l[2..] == m;
    assert l in [l] && 46 in l;
  }

  /** operator==: true exactly for equal sizes and counts and a text that begins the other one. */
  method Equal(d1: DomainName, d2: DomainName, ghost l1: seq<Label>, ghost l2: seq<Label>) returns (b: bool)
    requires d1.Holds(l1) && d2.Holds(l2)
    ensures b <==> |Wire(l1)| == |Wire(l2)| && Counted(l1) == Counted(l2) && Chars(Text(l1)) <= Chars(Text(l2))
    ensures AllClean(l1) && AllClean(l2) ==> (b <==> l1 == l2)
  {
    hide Wire, Dotted, AllClean, Fits, Counted, Chars;
    if AllClean(l1) && AllClean(l2) {
      EqualSeen(l1, l2);
    }
    if d1.len != d2.len || d1.numLabels != d2.numLabels {
      return false;
    }
    var n := d1.Length(l1);
    ghost var m := d2.Length(l2);
    ghost var s, t := Chars(Text(l1)), Chars(Text(l2));
    var i := 0;
    while i < n
      invariant 0 <= i <= n && i <= |t| && s[..i] == t[..i]
    {
      SameChar(d1.nameBytes[..], s, d2.nameBytes[..], t, i);
      if d1.nameBytes[i] != d2.nameBytes[i] {
        return false;
      }
      i := i + 1;
    }
    assert s[..i] == s;
    return true;
  }

  /** Two parsed names are equal exactly if their labels are equal but for the case of letters. */
  method ParsedAlike(d: DomainName, e: DomainName, s: seq<Byte>, t: seq<Byte>, ghost ls: seq<Label>, ghost ms: seq<Label>)
    returns (b: bool)
    requires d != e && d.nameBytes != e.nameBytes && d.nameBytes.Length == MAX_LEN && e.nameBytes.Length == MAX_LEN
    requires AllNamed(ls) && s == Text(ls) && |s| < MAX_LEN && AllNamed(ms) && t == Text(ms) && |t| < MAX_LEN
    modifies d, d.nameBytes, e, e.nameBytes
    ensures b <==> |ls| == |ms| && forall i :: 0 <= i < |ls| ==> SameButCase(ls[i], ms[i])
  {
    hide Wire, Dotted, Counted, Fits, AllNamed, Lowered, SameButCase, Clean;
    var r := d.ParseText(s, ls);
    r := e.ParseText(t, ms);
    FoldedNames(ls, ms);
    b := Equal(d, e, Lowered(ls), Lowered(ms));
  }

  lemma NoNull(a: seq<Byte>, s: seq<Byte>, n: nat)
    requires n <= |s| <= |a| && a[..|s|] == s && 0 !in s
    ensures n < |s| ==> a[n] != 0
  {
    if n < |s| {
      assert a[..|s|][n] == s[n] && s[n] in s;
    }
  }

  lemma SameChar(a: seq<Byte>, s: seq<Byte>, b: seq<Byte>, t: seq<Byte>, i: nat)
    requires i < |s| <= |a| && a[..|s|] == s && 0 !in s && |t| < |b| && b[..|t|] == t && b[|t|] == 0 && i <= |t|
    ensures a[i] == b[i] <==> i < |t| && s[i] == t[i]
    ensures a[i] == b[i] && s[..i] == t[..i] ==> s[..i + 1] == t[..i + 1]
    ensures a[i] != b[i] ==> !(s <= t)
  {
    assert a[..|s|][i] == a[i] && s[i] in s;
    assert i < |t| ==> b[..|t|][i] == b[i];
    if a[i] == b[i] && s[..i] == t[..i] {
      assert s[..i + 1] == s[..i] + [s[i]] && t[..i + 1] == t[..i] + [t[i]];
    }
  }

  /** Two different names that compare as equal: the dot inside a label is not told from the one between labels. */
  lemma EqualExample()
    ensures var l1: seq<Label>, l2: seq<Label> := [[97, 46, 98], [99]], [[97], [98, 46, 99]];
            && Fits(l1) && Fits(l2) && l1 != l2 && |Wire(l1)| == |Wire(l2)| && Counted(l1) == Counted(l2)
            && Text(l1) == Text(l2) && !AllClean(l1) && !AllClean(l2)
  {
    var a: Label, b: Label, c: Label, d: Label := [97, 46, 98], [99], [97], [98, 46, 99];
    assert [a, b][1..] == [b] && [c, d][1..] == [d] && [a, b] != [c, d];
    assert Dotted([a, b]) == a + [DOT] + b && Dotted([c, d]) == c + [DOT] + d;
    WireLength([a, b]);
    WireLength([c, d]);
    CountedAll([a, b]);
    CountedAll([c, d]);
    assert a in [a, b] && 46 in a && d in [c, d] && 46 in d;
  }

  /** A null ends the comparison early: the label "a", null, "c" compares as equal to "abc". */
  lemma NullExample()
    ensures var l1: seq<Label>, l2: seq<Label> := [[97, 0, 99]], [[97, 98, 99]];
            && Fits(l1) && Fits(l2) && l1 != l2 && |Wire(l1)| == |Wire(l2)| && Counted(l1) == Counted(l2)
            && Chars(Text(l1)) <= Chars(Text(l2)) && !AllClean(l1)
  {
    var a: Label, b: Label := [97, 0, 99], [97, 98, 99];
    CharsStop([97], [99]);
    assert [97] + [0] + [99] == a;
    CharsAll([97]);
    CharsAll(b);
    WireLength([a]);
    WireLength([b]);
    CountedAll([a]);
    CountedAll([b]);
    assert a in [a] && 0 in a && [a][0][1] != [b][0][1];
  }
}
