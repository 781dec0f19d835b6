/** The syntax check of domain names in text, after section 2.3.1 of RFC 1035, and the text constructor on top of it. */
module Grammar {
  import opened Common
  import opened Labels
  import opened DomainNames

  /** The characters of the grammar: A to Z, a to z, 0 to 9 and the hyphen; upper case is folded onto lower case. */
  lemma Alphabet(c: Byte)
    ensures Letter(c) <==> 'A' <= c as char <= 'Z' || 'a' <= c as char <= 'z'
    ensures LetterDigit(c) <==> Letter(c) || '0' <= c as char <= '9'
    ensures LetterDigitHyphen(c) <==> LetterDigit(c) || c as char == '-'
    ensures Letter(c) <==> 'a' <= ToLower(c) as char <= 'z'
  {
  }

  /** A letter, then letters, digits and hyphens, with a letter or a digit at the end. */
  ghost predicate Grammatical(l: Label) {
    && 0 < |l| < 256 && Letter(l[0]) && LetterDigit(l[|l| - 1])
    && forall c <- l :: LetterDigitHyphen(c)
  }

  ghost predicate AllGrammatical(ls: seq<Label>) {
    forall l <- ls :: Grammatical(l)
  }

  /** A text that ends, behind complete labels, in one more character, which is no letter. */
  ghost predicate Hangs(s: seq<Byte>, good: seq<Label>, c: Byte) {
    AllGrammatical(good) && !Letter(c) && s == Pieces(good) + [c]
  }

  /** How many letters, digits and hyphens a text begins with. */
  ghost function Run(s: seq<Byte>): (n: nat)
    ensures n <= |s| && (n < |s| ==> !LetterDigitHyphen(s[n])) && forall i :: 0 <= i < n ==> LetterDigitHyphen(s[i])
  {
    if s == [] || !LetterDigitHyphen(s[0]) then 0 else 1 + Run(s[1..])
  }

  lemma RunIs(s: seq<Byte>, n: nat)
    requires n <= |s| && (n < |s| ==> !LetterDigitHyphen(s[n])) && forall i :: 0 <= i < n ==> LetterDigitHyphen(s[i])
    ensures Run(s) == n
  {
    hide Run;
  }

  /** The label at the start of a text, or -1. */
  ghost function LabelEnd(s: seq<Byte>): int {
    if s != [] && Letter(s[0]) && LetterDigit(s[Run(s) - 1]) then Run(s) else -1
  }

  /** checkLabel, on what is left of the text. */
  method CheckLabel(s: seq<Byte>) returns (n: int)
    ensures n == LabelEnd(s)
  {
    hide Run, LetterDigitHyphen, LetterDigit, Letter;
    if |s| == 0 || !Letter(s[0]) {
      return -1;
    }
    LetterFirst(s[0]);
    n := 1;
    while n < |s| && LetterDigitHyphen(s[n])
      invariant 1 <= n <= |s| && forall i :: 0 <= i < n ==> LetterDigitHyphen(s[i])
    {
      n := n + 1;
    }
    RunIs(s, n);
    if !LetterDigit(s[n - 1]) {
      n := -1;
    }
  }

  lemma LetterFirst(c: Byte)
    requires Letter(c)
    ensures LetterDigitHyphen(c) && LetterDigit(c)
  {
  }

  /** The first piece of a text is a label exactly if the run of characters ends with it. */
  lemma FirstLabel(s: seq<Byte>)
    requires s != []
    ensures var n := LabelEnd(s);
            Grammatical(Split(s)[0]) <==> 0 < n < 256 && (n == |s| || s[n] == DOT)
    ensures Grammatical(Split(s)[0]) ==> Split(s)[0] == s[..LabelEnd(s)]
  {
    hide Split, Run, LetterDigit, Letter;
    FirstPiece(s);
    var p, n := Split(s)[0], Run(s);
    DotIsNone();
    if Grammatical(p) {
      forall i | 0 <= i < |p|
        ensures LetterDigitHyphen(s[i])
      {
        assert s[i] == p[i] && p[i] in p;
      }
      RunIs(s, |p|);
      assert p == s[..n];
    }
    if 0 < LabelEnd(s) < 256 && (n == |s| || s[n] == DOT) {
      RunPiece(s, p, n);
    }
  }

  lemma DotIsNone()
    ensures !LetterDigitHyphen(DOT) && !Letter(DOT)
  {
  }

  lemma RunPiece(s: seq<Byte>, p: Label, n: nat)
    requires 0 < n <= |s| && (n == |s| || s[n] == DOT) && forall i :: 0 <= i < n ==> LetterDigitHyphen(s[i])
    requires p <= s && DOT !in p && (|p| < |s| ==> s[|p|] == DOT)
    ensures p == s[..n] && forall c <- p :: LetterDigitHyphen(c)
  {
    DotIsNone();
    assert forall i :: 0 <= i < n ==> s[i] != DOT;
    assert forall i :: 0 <= i < |p| ==> p[i] in p;
  }

  /** The pieces of a text behind its first one. */
  lemma OtherPieces(s: seq<Byte>, n: nat)
    requires n <= |s| && (n == |s| || s[n] == DOT) && Split(s)[0] == s[..n]
    ensures Split(s) == [s[..n]] + if n == |s| then [] else Split(s[n + 1..])
  {
    hide Split;
    FirstPiece(s);
    SplitLabel(s[..n]);
    if n == |s| {
      assert s[..n] == s;
    } else {
      assert s == s[..n] + [DOT] + s[n + 1..];
      SplitJoin(s[..n], s[n + 1..]);
    }
  }

  /** What checkSubdomain answers for a text below 255 characters. */
  ghost predicate Answers(s: seq<Byte>, r: Outcome) {
    && (r == Yes <==> s != [] && AllGrammatical(Split(s)))
    && (r == OutOfBounds <==> exists good, c :: Hangs(s, good, c))
  }

  lemma AnswersNone(r: Outcome)
    requires r == No
    ensures Answers([], r)
  {
    forall good: seq<Label>, c: Byte
      ensures !Hangs([], good, c)
    {
    }
  }

  /** A text without a label at its start: only a single character that is no letter makes the check leave the text. */
  lemma AnswersBad(s: seq<Byte>, r: Outcome)
    requires 0 < |s| < 255 && LabelEnd(s) == -1 && r == if |s| == 1 then OutOfBounds else No
    ensures Answers(s, r)
  {
    hide Split, Run, LetterDigitHyphen;
    FirstLabel(s);
    assert Split(s)[0] in Split(s);
    if |s| == 1 {
      OneBad(s);
      assert Hangs(s, [], s[0]);
    } else {
      forall good, c | Hangs(s, good, c)
        ensures false
      {
        HangsFirst(s, good, c);
      }
    }
  }

  lemma OneBad(s: seq<Byte>)
    requires |s| == 1 && LabelEnd(s) == -1
    ensures !Letter(s[0]) && s == Pieces([]) + [s[0]]
  {
    if Letter(s[0]) {
      RunIs(s, 1);
    }
  }

  /** A text that hangs behind a label begins with that label. */
  lemma HangsFirst(s: seq<Byte>, good: seq<Label>, c: Byte)
    requires Hangs(s, good, c) && |s| > 1
    ensures good != [] && LabelEnd(s) == |good[0]| < |s| && s[|good[0]|] == DOT
    ensures Hangs(s[|good[0]| + 1..], good[1..], c)
  {
    hide Run, LetterDigit, Letter, Pieces;
    if good == [] {
      NoPieces();
    } else {
      var l := good[0];
      assert l in good && good == [l] + good[1..];
      PiecesCons(l, good[1..]);
      var n := |l|;
      assert s == l + ([DOT] + (Pieces(good[1..]) + [c]));
      DotIsNone();
      forall i | 0 <= i < n
        ensures LetterDigitHyphen(s[i])
      {
        assert s[i] == l[i] && l[i] in l;
      }
      RunIs(s, n);
      assert s[n + 1..] == Pieces(good[1..]) + [c];
    }
  }

  lemma NoPieces()
    ensures Pieces([]) == []
  {
  }

  lemma {:induction false} PiecesCons(l: Label, ls: seq<Label>)
    ensures Pieces([l] + ls) == l + [DOT] + Pieces(ls)
    decreases |ls|
  {
    if ls == [] {
      assert [l] + ls == [] + [l];
      PiecesSnoc([], l);
      NoPieces();
    } else {
      hide Pieces;
      var n := |ls| - 1;
      assert ls == ls[..n] + [ls[n]] && [l] + ls == ([l] + ls[..n]) + [ls[n]];
      PiecesCons(l, ls[..n]);
      PiecesSnoc(ls[..n], ls[n]);
      PiecesSnoc([l] + ls[..n], ls[n]);
    }
  }

  /** A label that fills the text. */
  lemma AnswersWhole(s: seq<Byte>)
    requires 0 < |s| < 255 && LabelEnd(s) == |s|
    ensures Answers(s, Yes)
  {
    hide Split, Run, LetterDigitHyphen;
    FirstLabel(s);
    OtherPieces(s, |s|);
    forall good, c | Hangs(s, good, c)
      ensures false
    {
      if |s| == 1 {
        OnePiece(s, good, c);
      } else {
        HangsFirst(s, good, c);
      }
    }
  }

  lemma OnePiece(s: seq<Byte>, good: seq<Label>, c: Byte)
    requires Hangs(s, good, c) && |s| == 1
    ensures !Letter(s[0])
  {
    assert |Pieces(good)| == 0;
    assert s[0] == c;
  }

  /** A label that is not followed by a dot, or by a dot and nothing. */
  lemma AnswersStop(s: seq<Byte>)
    requires |s| < 255 && 0 < LabelEnd(s) < |s| && (s[LabelEnd(s)] != DOT || LabelEnd(s) == |s| - 1)
    ensures Answers(s, No)
  {
    hide Split, Run, LetterDigitHyphen;
    var n := LabelEnd(s);
    FirstLabel(s);
    assert Split(s)[0] in Split(s);
    if s[n] == DOT {
      OtherPieces(s, n);
      assert s[n + 1..] == [];
      NoText();
      assert Split(s)[1] == [] && Split(s)[1] in Split(s);
    }
    forall good, c | Hangs(s, good, c)
      ensures false
    {
      HangsFirst(s, good, c);
    }
  }

  /** A label and a dot: the rest decides. */
  lemma AnswersMore(s: seq<Byte>, r: Outcome)
    requires |s| < 255 && 0 < LabelEnd(s) < |s| - 1 && s[LabelEnd(s)] == DOT && Answers(s[LabelEnd(s) + 1..], r)
    ensures Answers(s, r)
  {
    hide Split, Run, LetterDigitHyphen, LetterDigit, Letter, Pieces;
    var n := LabelEnd(s);
    var l, rest := s[..n], s[n + 1..];
    FirstLabel(s);
    OtherPieces(s, n);
    assert Split(s) == [l] + Split(rest);
    if good, c :| Hangs(rest, good, c) {
      PiecesCons(l, good);
      assert s == l + [DOT] + rest;
      assert Hangs(s, [l] + good, c);
    }
    forall good, c | Hangs(s, good, c)
      ensures good != [] && Hangs(rest, good[1..], c)
    {
      HangsFirst(s, good, c);
    }
  }

  /**
   * checkSubdomain, on what is left of the text. The length of a label is kept in a byte, in which -1 is 255, and is compared with
   * an unsigned difference. Below 255 characters it accepts exactly the dotted names of the grammar; one last character that is no
   * letter makes it read beyond the text. Longer names of the grammar are accepted too.
   */
  method CheckSubdomain(s: seq<Byte>) returns (r: Outcome)
    requires |s| < 0x1_0000_0000
    ensures |s| < 255 ==> Answers(s, r)
    ensures s != [] && (AllGrammatical(Split(s)) || LabelEnd(s) % 256 == |s|) ==> r == Yes
    decreases |s|
  {
    hide Split, Run, Answers, LabelEnd, AllGrammatical, Grammatical, Hangs, LetterDigitHyphen, LetterDigit, Letter;
    if |s| == 0 {
      AnswersNone(No);
      return No;
    }
    var n := CheckLabel(s);
    LabelFacts(s);
    var labelLen := n % 256;
    Accepts(s);
    if labelLen == |s| {
      if |s| < 255 {
        AnswersWhole(s);
      }
      return Yes;
    }
    if labelLen > (|s| - 2) % 0x1_0000_0000 {
      if |s| < 255 {
        if n == -1 {
          AnswersBad(s, No);
        } else {
          AnswersStop(s);
        }
      }
      return No;
    }
    if labelLen > |s| {
      AnswersBad(s, OutOfBounds);
      return OutOfBounds;
    }
    if s[labelLen] != DOT {
      if |s| < 255 {
        AnswersStop(s);
      }
      return No;
    }
    r := CheckSubdomain(s[labelLen + 1..]);
    if |s| < 255 {
      AnswersMore(s, r);
    }
  }

  lemma LabelFacts(s: seq<Byte>)
    ensures LabelEnd(s) == -1 || 0 < LabelEnd(s) <= |s|
    ensures LabelEnd(s) > 0 && LabelEnd(s) < |s| ==> !LetterDigitHyphen(s[LabelEnd(s)])
  {
    if s != [] && Letter(s[0]) && Run(s) == 0 {
      LetterFirst(s[0]);
    }
  }

  /** In a name of the grammar every label is found. */
  lemma Accepts(s: seq<Byte>)
    requires s != []
    ensures AllGrammatical(Split(s)) ==>
              var n := LabelEnd(s);
              && 0 < n < 256 && n <= |s| && (n < |s| ==> n < |s| - 1 && s[n] == DOT && AllGrammatical(Split(s[n + 1..])))
  {
    hide Split, Grammatical, AllGrammatical, LabelEnd;
    if AllGrammatical(Split(s)) {
      GrammaticalFirst(Split(s));
      LabelFacts(s);
      FirstLabel(s);
      var n := LabelEnd(s);
      OtherPieces(s, n);
      if n < |s| {
        GrammaticalRest(s[..n], Split(s[n + 1..]));
        TextNotEmpty(s[n + 1..]);
      }
    }
  }

  lemma GrammaticalFirst(ls: seq<Label>)
    requires ls != [] && AllGrammatical(ls)
    ensures Grammatical(ls[0])
  {
  }

  lemma GrammaticalRest(l: Label, ls: seq<Label>)
    requires AllGrammatical([l] + ls)
    ensures AllGrammatical(ls)
  {
    assert forall m <- ls :: m in [l] + ls;
  }

  lemma TextNotEmpty(s: seq<Byte>)
    requires AllGrammatical(Split(s))
    ensures s != []
  {
    hide Split;
    NoText();
    assert Split(s)[0] in Split(s);
  }

  lemma NoText()
    ensures Split([]) == [[]]
  {
  }

  /** checkDomainName: the root is a single space. */
  method CheckDomainName(text: seq<Byte>) returns (r: Outcome)
    requires |text| < 0x1_0000_0000
    ensures |text| < 255 ==> (r == Yes <==> text == [SPACE] || (text != [] && AllGrammatical(Split(text))))
    ensures |text| < 255 ==> (r == OutOfBounds <==> text != [SPACE] && exists good, c :: Hangs(text, good, c))
    ensures text == [SPACE] || (text != [] && (AllGrammatical(Split(text)) || LabelEnd(text) % 256 == |text|)) ==> r == Yes
  {
    hide Split;
    if |text| == 0 {
      AnswersNone(No);
      return No;
    }
    if |text| == 1 && text[0] == SPACE {
      return Yes;
    }
    r := CheckSubdomain(text);
  }

  /** What a text that passes stands for. */
  ghost function Meaning(text: seq<Byte>): seq<Label> {
    if text == [SPACE] then [] else Split(text)
  }

  lemma MeaningIs(text: seq<Byte>)
    ensures text == [SPACE] || (text != [] && AllGrammatical(Split(text))) ==>
              AllNamed(Meaning(text)) && text == Text(Meaning(text))
  {
    hide Split, LetterDigitHyphen;
    if text != [SPACE] {
      DottedSplit(text);
    }
  }

  /**
   * The text constructor, below 255 characters: it accepts exactly the dotted names of the grammar and the root, and then holds them
   * in lower case; it reads beyond the text exactly if the text ends in a lone character that is no letter.
   */
  method Parse(d: DomainName, text: seq<Byte>) returns (r: Outcome)
    requires d.nameBytes.Length == MAX_LEN && |text| < MAX_LEN
    modifies d, d.nameBytes
    ensures r == Yes <==> text == [SPACE] || (text != [] && AllGrammatical(Split(text)))
    ensures r == OutOfBounds <==> text != [SPACE] && exists good, c :: Hangs(text, good, c)
    ensures r == Yes ==> d.Holds(Lowered(Meaning(text)))
  {
    hide Split, AllGrammatical, Meaning, AllNamed, Wire, Dotted, Counted, Lowered, Fits, AllPlain;
    r := CheckDomainName(text);
    MeaningIs(text);
    if r == Yes {
      TextNotLong(text);
      r := d.ParseText(text, Meaning(text));
    }
  }

  lemma TextNotLong(text: seq<Byte>)
    requires 0 < |text| < MAX_LEN
    ensures |text| % 256 == |text|
  {
  }

  /** At 255 characters the failure of checkLabel passes for a label of that length: 255 exclamation marks are accepted. */
  method BadAccepted() returns (text: seq<Byte>, r: Outcome)
    ensures |text| == 255 && (forall i :: 0 <= i < 255 ==> text[i] == 33) && r == Yes && !AllGrammatical(Split(text))
  {
    hide Split;
    text := seq(255, _ => 33);
    r := CheckDomainName(text);
    FirstLabel(text);
    assert Split(text)[0] in Split(text);
  }
}
