/** Wherever the bytes of a token stand, contentTok (expat/xmltok_impl.c) gets through them; with
    what it reads that settles which tokens there are. */
module TokenScanning {
  import opened XmlBytes
  import opened ContentScanner
  import opened ContentLoops
  import opened CharacterData
  import opened TokenSpans
  import opened TokenReading
  import ScannerChunks

  // ------------------------------------------------------------------ wherever the bytes are, the automaton gets through

  /** One byte that leads from one state to another. */
  predicate Leads(st: Scan, b: Byte, to: Scan) {
    match st
    case AfterLt => (b == 0x21 && to == AfterExcl) || (b == 0x3F && to == PiStart) || (b == 0x2F && to == EndStart)
    case AfterExcl => (b == 0x2D && to == CommentStart) || (b == 0x5B && to == Cdata)
    case CommentStart => b == 0x2D && to == InComment
    case InComment => b == 0x2D && to == InCommentMinus
    case InCommentMinus => b == 0x2D && to == CommentEnd
    case PiBody(tok) => b == 0x3F && to == PiQuest(tok)
    case PiQuest(tok) => b == 0x3F && to == PiQuest(tok)
    case TagName(_) => b == 0x2F && to == TagSlash
    case TagSpace => b == 0x2F && to == TagSlash
    case AfterValue => b == 0x2F && to == AttSlash
    case AttGap => b == 0x2F && to == AttSlash
    case AttName(_) => b == 0x3D && to == AttEquals
    case AttSpace => b == 0x3D && to == AttEquals
    case AttEquals => (b == 0x22 && to == Value(Quot)) || (b == 0x27 && to == Value(Apos))
    case Value(open) => (b == 0x22 && open == Quot && to == AfterValue) || (b == 0x27 && open == Apos && to == AfterValue)
    case _ => false
  }

  lemma LedInTag(names: Naming, st: Scan, s: seq<Byte>, i: nat, to: Scan)
    requires i < |s| && Leads(st, s[i], to) && InTag(st)
    ensures TagStep(names, st, s, i) == Go(to, 1)
  {
    hide NameMore;
  }

  lemma LedInAtts(names: Naming, st: Scan, s: seq<Byte>, i: nat, to: Scan)
    requires i < |s| && Leads(st, s[i], to) && InAtts(st)
    ensures AttStep(names, st, s, i) == Go(to, 1)
  {
    hide NameMore, AnyChar, RefRun;
  }

  lemma LedElsewhere(names: Naming, st: Scan, s: seq<Byte>, i: nat, to: Scan)
    requires i < |s| && Leads(st, s[i], to) && !InTag(st) && !InAtts(st)
    ensures OtherStep(names, st, s, i) == Go(to, 1)
  {
    hide NameStart, NameInner, InvalidChar, PiTarget;
  }

  lemma LedStep(names: Naming, st: Scan, s: seq<Byte>, i: nat, to: Scan)
    requires i < |s| && Leads(st, s[i], to)
    ensures Step(names, st, s, i) == Go(to, 1)
  {
    hide TagStep, AttStep, OtherStep, Leads;
    if InTag(st) {
      LedInTag(names, st, s, i, to);
    } else if InAtts(st) {
      LedInAtts(names, st, s, i, to);
    } else {
      LedElsewhere(names, st, s, i, to);
    }
  }

  lemma {:induction false} Led(names: Naming, st: Scan, s: seq<Byte>, i: nat, to: Scan)
    requires i < |s| && Leads(st, s[i], to)
    ensures Run(names, st, s, i) == Run(names, to, s, i + 1)
  {
    hide Run, Step;
    LedStep(names, st, s, i, to);
    Unroll(names, st, s, i);
  }

  /** The greater-than sign that ends a token. */
  function EndsToken(st: Scan): Tok {
    match st
    case CommentEnd => Comment
    case PiNameEnd(tok) => tok
    case PiQuest(tok) => tok
    case EndName => EndTag
    case EndSpace => EndTag
    case TagName(_) => StartTagNoAtts
    case TagSpace => StartTagNoAtts
    case TagSlash => EmptyElementNoAtts
    case AfterValue => StartTagWithAtts
    case AttGap => StartTagWithAtts
    case AttSlash => EmptyElementWithAtts
    case _ => NoTok
  }

  lemma {:induction false} Ended(names: Naming, st: Scan, s: seq<Byte>, i: nat)
    requires i < |s| && s[i] == 0x3E && EndsToken(st) != NoTok
    ensures Run(names, st, s, i) == Token(EndsToken(st), i + 1)
  {
    hide Run, NameMore, RefRun, InvalidChar;
    Unroll(names, st, s, i);
  }

  predicate NameState(st: Scan) {
    st.TagName? || st.AttName? || st.PiName? || st.EndName?
  }

  function Grown(st: Scan, w: seq<Byte>): Scan {
    if st.PiName? then PiName(st.target + w) else st
  }

  lemma {:induction false} NameGoes(names: Naming, st: Scan, s: seq<Byte>, i: nat, j: nat, c: nat)
    requires Text(s, i, j, [c]) && NameState(st) && (NameRest(names, c) || (st == EndName && c == 0x3A))
    ensures i < j && Run(names, st, s, i) == Run(names, Grown(st, s[i..j]), s, j)
  {
    hide Run, Text, NameInner, ByteType, NameRest;
    CharHere(names, s, i, j, c);
    TextInside(s, i, j, [c]);
    Unroll(names, st, s, i);
    TagMark(s[i]);
    ColonRest(names);
  }

  lemma ColonRest(names: Naming)
    ensures !NameRest(names, 0x3A)
  {
  }

  lemma TextInside(s: seq<Byte>, i: nat, j: nat, cs: seq<nat>)
    requires Text(s, i, j, cs)
    ensures i <= j <= |s|
  {
  }

  lemma {:induction false} NameForward(names: Naming, st: Scan, s: seq<Byte>, i: nat, j: nat, cs: seq<nat>)
    requires Text(s, i, j, cs) && NameState(st) && AllRest(names, cs, st == EndName)
    ensures i <= j <= |s| && Run(names, st, s, i) == Run(names, Grown(st, s[i..j]), s, j)
    decreases |cs|
  {
    hide Run, NameRest;
    if cs == [] {
      assert s[i..j] == [];
      assert st.PiName? ==> st.target + [] == st.target;
    } else {
      var k := TextFront(s, i, j, cs);
      NameGoes(names, st, s, i, k, cs[0]);
      NameForward(names, Grown(st, s[i..k]), s, k, j, cs[1..]);
      assert s[i..j] == s[i..k] + s[k..j];
      assert st.PiName? ==> st.target + s[i..k] + s[k..j] == st.target + s[i..j];
    }
  }

  predicate StartState(st: Scan) {
    st.AfterLt? || st.TagColon? || st.TagSpace? || st.AttColon? || st.AttGap? || st.PiStart? || st.EndStart?
  }

  function Entered(st: Scan, w: seq<Byte>): Scan
    requires StartState(st)
  {
    match st
    case AfterLt => TagName(false)
    case TagColon => TagName(true)
    case AttColon => AttName(true)
    case PiStart => PiName(w)
    case EndStart => EndName
    case _ => AttName(false)
  }

  lemma {:induction false} NameEnters(names: Naming, st: Scan, s: seq<Byte>, i: nat, j: nat, c: nat)
    requires Text(s, i, j, [c]) && StartState(st) && NameFirst(names, c)
    ensures i < j && Run(names, st, s, i) == Run(names, Entered(st, s[i..j]), s, j)
  {
    hide Run, Text, NameStart, ByteType, NameFirst;
    CharHere(names, s, i, j, c);
    TextInside(s, i, j, [c]);
    Unroll(names, st, s, i);
  }

  lemma {:induction false} NameThrough(names: Naming, st: Scan, s: seq<Byte>, i: nat, j: nat)
    requires NameAt(names, s, i, j, st == EndStart) && StartState(st)
    ensures i < j <= |s| && Run(names, st, s, i) == Run(names, Entered(st, s[i..j]), s, j)
  {
    hide Run, NameFirst, NameRest, Text, AllRest;
    var cs :| Text(s, i, j, cs) && Named(names, cs, st == EndStart);
    var k := TextFront(s, i, j, cs);
    TextInside(s, i, k, [cs[0]]);
    NameEnters(names, st, s, i, k, cs[0]);
    NameForward(names, Entered(st, s[i..k]), s, k, j, cs[1..]);
    assert s[i..j] == s[i..k] + s[k..j];
  }

  /** From where a name with a prefix or without may start: the state behind it. */
  lemma {:induction false} QNameThrough(names: Naming, st: Scan, s: seq<Byte>, i: nat, j: nat) returns (colon: bool)
    requires QNameAt(names, s, i, j) && (st == AfterLt || st == TagSpace || st == AttGap)
    ensures i < j <= |s| && Run(names, st, s, i) == Run(names, if st == AfterLt then TagName(colon) else AttName(colon), s, j)
  {
    hide Run, NameAt;
    if NameAt(names, s, i, j, false) {
      NameThrough(names, st, s, i, j);
      colon := false;
    } else {
      var k: nat :| i <= k < j <= |s| && NameAt(names, s, i, k, false) && s[k] == 0x3A && NameAt(names, s, k + 1, j, false);
      NameThrough(names, st, s, i, k);
      ColonGoes(names, if st == AfterLt then TagName(false) else AttName(false), s, k);
      NameThrough(names, if st == AfterLt then TagColon else AttColon, s, k + 1, j);
      colon := true;
    }
  }

  lemma {:induction false} ColonGoes(names: Naming, st: Scan, s: seq<Byte>, k: nat)
    requires k < |s| && s[k] == 0x3A && (st == TagName(false) || st == AttName(false))
    ensures Run(names, st, s, k) == Run(names, if st == TagName(false) then TagColon else AttColon, s, k + 1)
  {
    hide Run;
    Unroll(names, st, s, k);
  }

  predicate GapState(st: Scan) {
    st.TagSpace? || st.AttSpace? || st.AttEquals? || st.AttGap? || st.EndSpace?
  }

  /** The state that the first blank leads to. */
  function Gap(st: Scan): Scan {
    match st
    case TagName(_) => TagSpace
    case AttName(_) => AttSpace
    case AfterValue => AttGap
    case EndName => EndSpace
    case _ => st
  }

  lemma {:induction false} BlankGoes(names: Naming, st: Scan, s: seq<Byte>, i: nat)
    requires i < |s| && Blank(s[i]) && GapState(Gap(st))
    ensures Run(names, st, s, i) == Run(names, Gap(st), s, i + 1)
  {
    hide Run, ByteType;
    Unroll(names, st, s, i);
    BlankPlain(names, s, i);
    TagMark(s[i]);
  }

  lemma BlankPlain(names: Naming, s: seq<Byte>, i: nat)
    requires i < |s| && Blank(s[i])
    ensures NameStart(names, s, i) == Others && NameInner(names, s, i) == Others
  {
  }

  lemma {:induction false} BlanksThrough(names: Naming, st: Scan, s: seq<Byte>, i: nat, j: nat)
    requires Blanks(s, i, j) && GapState(Gap(st))
    ensures Run(names, st, s, i) == Run(names, if i < j then Gap(st) else st, s, j)
    decreases j - i
  {
    hide Run;
    if i < j {
      BlankGoes(names, st, s, i);
      BlanksThrough(names, Gap(st), s, i + 1, j);
    }
  }

  // ------------------------------------------------------------------ comments, instructions and end tags

  lemma {:induction false} CommentGoes(names: Naming, s: seq<Byte>, i: nat, j: nat, c: nat, hyphen: bool)
    requires Text(s, i, j, [c]) && !(hyphen && c == 0x2D)
    ensures i < j && Run(names, CommentState(hyphen), s, i) == Run(names, CommentState(c == 0x2D), s, j)
  {
    hide Run, Step, Text, AnyChar, CommentStep, CommentState;
    CharHere(names, s, i, j, c);
    TextInside(s, i, j, [c]);
    Unroll(names, CommentState(hyphen), s, i);
    InComments(names, s, i, hyphen);
    CommentSteps(s, i);
  }

  lemma {:induction false} CommentThrough(names: Naming, s: seq<Byte>, i: nat, j: nat, cs: seq<nat>, hyphen: bool)
    requires Text(s, i, j, cs) && NoPair(cs, 0x2D, 0x2D) && (hyphen && cs != [] ==> cs[0] != 0x2D)
    ensures i <= j && Run(names, CommentState(hyphen), s, i) == Run(names, CommentState(if cs == [] then hyphen else EndsIn(cs, 0x2D)), s, j)
    decreases |cs|
  {
    hide Run;
    if cs != [] {
      var k := TextFront(s, i, j, cs);
      CommentGoes(names, s, i, k, cs[0], hyphen);
      var rest := cs[1..];
      assert forall a {:trigger rest[a]} :: 0 <= a < |rest| ==> rest[a] == cs[a + 1];
      NoPairTail(cs, 0x2D, 0x2D);
      CommentThrough(names, s, k, j, rest, cs[0] == 0x2D);
    }
  }

  lemma NoPairTail(cs: seq<nat>, x: nat, y: nat)
    requires NoPair(cs, x, y) && cs != []
    ensures NoPair(cs[1..], x, y) && (|cs| > 1 ==> !(cs[0] == x && cs[1] == y) && forall z :: EndsIn(cs[1..], z) <==> EndsIn(cs, z))
  {
    var rest := cs[1..];
    forall i, j | 0 <= i < |rest| && j == i + 1 < |rest|
      ensures !(rest[i] == x && rest[j] == y)
    {
      assert rest[i] == cs[i + 1] && rest[j] == cs[j + 1];
    }
  }

  lemma {:induction false} CommentFromOpen(names: Naming, s: seq<Byte>, p: nat)
    requires Stands(s, p, COMMENT_OPEN)
    ensures Run(names, AfterLt, s, p + 1) == Run(names, InComment, s, p + 4)
  {
    hide Run;
    var w := s[p..p + 4];
    assert s[p + 1] == w[1] && s[p + 2] == w[2] && s[p + 3] == w[3];
    Led(names, AfterLt, s, p + 1, AfterExcl);
    Led(names, AfterExcl, s, p + 2, CommentStart);
    Led(names, CommentStart, s, p + 3, InComment);
  }

  lemma {:induction false} CommentToClose(names: Naming, s: seq<Byte>, i: nat)
    requires Stands(s, i, COMMENT_CLOSE)
    ensures Run(names, InComment, s, i) == Token(Comment, i + 3)
  {
    hide Run;
    var w := s[i..i + 3];
    assert s[i] == w[0] && s[i + 1] == w[1] && s[i + 2] == w[2];
    Led(names, InComment, s, i, InCommentMinus);
    Led(names, InCommentMinus, s, i + 1, CommentEnd);
    Ended(names, CommentEnd, s, i + 2);
  }

  lemma {:induction false} CommentComplete(names: Naming, s: seq<Byte>, p: nat, q: nat)
    requires CommentAt(s, p, q)
    ensures Run(names, AfterLt, s, p + 1) == Token(Comment, q)
  {
    hide Run, Text, NoPair, EndsIn, Stands;
    var cs :| Text(s, p + 4, q - 3, cs) && NoPair(cs, 0x2D, 0x2D) && !EndsIn(cs, 0x2D);
    CommentFromOpen(names, s, p);
    CommentThrough(names, s, p + 4, q - 3, cs, false);
    CommentToClose(names, s, q - 3);
  }

  lemma {:induction false} CdataComplete(names: Naming, s: seq<Byte>, p: nat)
    requires Stands(s, p, CDATA_OPEN)
    ensures Run(names, AfterLt, s, p + 1) == Token(CdataSectOpen, p + 9)
  {
    hide Run;
    var w := s[p..p + 9];
    assert s[p + 1] == w[1] && s[p + 2] == w[2];
    assert s[p..p + 3] == w[..3];
    CdataOpens(s, p);
    Led(names, AfterLt, s, p + 1, AfterExcl);
    Led(names, AfterExcl, s, p + 2, Cdata);
    Unroll(names, Cdata, s, p + 3);
  }

  lemma {:induction false} EndTagComplete(names: Naming, s: seq<Byte>, p: nat, q: nat)
    requires EndTagAt(names, s, p, q)
    ensures Run(names, AfterLt, s, p + 1) == Token(EndTag, q)
  {
    hide Run, NameAt;
    var k: nat :| NameAt(names, s, p + 2, k, true) && Blanks(s, k, q - 1);
    assert s[p + 1] == s[p..p + 2][1];
    Led(names, AfterLt, s, p + 1, EndStart);
    NameThrough(names, EndStart, s, p + 2, k);
    BlanksThrough(names, EndName, s, k, q - 1);
    Ended(names, if k < q - 1 then EndSpace else EndName, s, q - 1);
  }

  lemma {:induction false} PiGoes(names: Naming, tok: Tok, s: seq<Byte>, i: nat, j: nat, c: nat, quest: bool)
    requires Text(s, i, j, [c]) && !(quest && c == 0x3E)
    ensures i < j && Run(names, PiState(tok, quest), s, i) == Run(names, PiState(tok, c == 0x3F), s, j)
  {
    hide Run, Step, Text, AnyChar, PiStep, PiState;
    CharHere(names, s, i, j, c);
    TextInside(s, i, j, [c]);
    Unroll(names, PiState(tok, quest), s, i);
    InPis(names, tok, s, i, quest);
    PiSteps(tok, s, i);
  }

  lemma {:induction false} PiThrough(names: Naming, tok: Tok, s: seq<Byte>, i: nat, j: nat, cs: seq<nat>, quest: bool)
    requires Text(s, i, j, cs) && NoPair(cs, 0x3F, 0x3E) && (quest && cs != [] ==> cs[0] != 0x3E)
    ensures i <= j && Run(names, PiState(tok, quest), s, i) == Run(names, PiState(tok, if cs == [] then quest else EndsIn(cs, 0x3F)), s, j)
    decreases |cs|
  {
    hide Run;
    if cs != [] {
      var k := TextFront(s, i, j, cs);
      PiGoes(names, tok, s, i, k, cs[0], quest);
      NoPairTail(cs, 0x3F, 0x3E);
      PiThrough(names, tok, s, k, j, cs[1..], cs[0] == 0x3F);
    }
  }

  lemma {:induction false} TargetThrough(names: Naming, s: seq<Byte>, p: nat, k: nat, declaration: bool)
    requires Stands(s, p, [0x3C, 0x3F]) && TargetAt(names, s, p + 2, k, declaration) && k < |s|
    ensures var tok := if declaration then XmlDecl else Pi;
            && Run(names, AfterLt, s, p + 1) == Run(names, PiName(s[p + 2..k]), s, k)
            && (s[k] == 0x3F ==> Run(names, AfterLt, s, p + 1) == Run(names, PiNameEnd(tok), s, k + 1))
            && (Blank(s[k]) ==> Run(names, AfterLt, s, p + 1) == Run(names, PiBody(tok), s, k + 1))
  {
    hide Run, NameAt, NameInner, ByteType;
    assert s[p + 1] == s[p..p + 2][1];
    Led(names, AfterLt, s, p + 1, PiStart);
    NameThrough(names, PiStart, s, p + 2, k);
    Unroll(names, PiName(s[p + 2..k]), s, k);
    Classes(s[k]);
    if Blank(s[k]) { BlankPlain(names, s, k); } else if s[k] == 0x3F { QuestPlain(names, s, k); }
  }

  lemma QuestPlain(names: Naming, s: seq<Byte>, i: nat)
    requires i < |s| && s[i] == 0x3F
    ensures NameInner(names, s, i) == Others
  {
  }

  lemma {:induction false} PiToClose(names: Naming, tok: Tok, s: seq<Byte>, i: nat, e: nat)
    requires tok == Pi || tok == XmlDecl
    requires Stands(s, e, [0x3F, 0x3E]) && exists cs :: Text(s, i, e, cs) && NoPair(cs, 0x3F, 0x3E)
    ensures Run(names, PiBody(tok), s, i) == Token(tok, e + 2)
  {
    hide Run, Text, NoPair, Stands;
    StandsInside(s, e, [0x3F, 0x3E]);
    FirstTwo(s, e);
    assert s[e] == 0x3F && s[e + 1] == 0x3E;
    var cs :| Text(s, i, e, cs) && NoPair(cs, 0x3F, 0x3E);
    PiThrough(names, tok, s, i, e, cs, false);
    if EndsIn(cs, 0x3F) {
      Led(names, PiQuest(tok), s, e, PiQuest(tok));
    } else {
      Led(names, PiBody(tok), s, e, PiQuest(tok));
    }
    Ended(names, PiQuest(tok), s, e + 1);
  }

  lemma StandsInside(s: seq<Byte>, i: nat, w: seq<Byte>)
    requires Stands(s, i, w)
    ensures i + |w| <= |s|
  {
  }

  lemma {:induction false} PiComplete(names: Naming, s: seq<Byte>, p: nat, q: nat, declaration: bool)
    requires PiAt(names, s, p, q, declaration)
    ensures Run(names, AfterLt, s, p + 1) == Token(if declaration then XmlDecl else Pi, q)
  {
    hide Run, NameAt, Text, NoPair, TargetAt;
    var k: nat :| TargetAt(names, s, p + 2, k, declaration) && PiData(s, k, q - 2);
    var tok := if declaration then XmlDecl else Pi;
    assert s[q - 2] == s[q - 2..q][0] && s[q - 1] == s[q - 2..q][1];
    TargetThrough(names, s, p, k, declaration);
    if k == q - 2 {
      Ended(names, PiNameEnd(tok), s, q - 1);
    } else {
      PiToClose(names, tok, s, k + 1, q - 2);
    }
  }

  // ------------------------------------------------------------------ references and start tags

  lemma {:induction false} RefNameThrough(names: Naming, s: seq<Byte>, i: nat, j: nat, cs: seq<nat>)
    requires Text(s, i, j, cs) && AllRest(names, cs, false)
    ensures i <= j <= |s| && RefRun(names, RefName, s, i) == RefRun(names, RefName, s, j)
    decreases |cs|
  {
    hide RefRun, NameRest, NameInner;
    if cs != [] {
      var k := TextFront(s, i, j, cs);
      CharHere(names, s, i, k, cs[0]);
      RefUnroll(names, RefName, s, i);
      RefNameThrough(names, s, k, j, cs[1..]);
    }
  }

  lemma {:induction false} EntityRefComplete(names: Naming, s: seq<Byte>, p: nat, q: nat)
    requires EntityRefAt(names, s, p, q)
    ensures RefRun(names, RefStart, s, p + 1) == Token(EntityRef, q)
  {
    hide RefRun, NameRest, NameFirst, Text, AllRest;
    var cs :| Text(s, p + 1, q - 1, cs) && Named(names, cs, false);
    var k := TextFront(s, p + 1, q - 1, cs);
    RefNameStarts(names, s, p + 1, k, cs[0]);
    RefNameThrough(names, s, k, q - 1, cs[1..]);
    RefEnds(names, RefName, s, q - 1);
  }

  lemma {:induction false} RefNameStarts(names: Naming, s: seq<Byte>, i: nat, k: nat, c: nat)
    requires Text(s, i, k, [c]) && NameFirst(names, c)
    ensures i < k <= |s| && RefRun(names, RefStart, s, i) == RefRun(names, RefName, s, k)
  {
    hide RefRun, NameFirst, NameStart, ByteType, Utf8, NameInner;
    CharHere(names, s, i, k, c);
    RefUnroll(names, RefStart, s, i);
  }

  /** The semicolon. */
  lemma {:induction false} RefEnds(names: Naming, st: RefState, s: seq<Byte>, i: nat)
    requires i < |s| && s[i] == 0x3B && (st == RefName || st == Decimal || st == Hexadecimal)
    ensures RefRun(names, st, s, i) == Token(if st == RefName then EntityRef else CharRef, i + 1)
  {
    hide RefRun, ByteType, NameInner;
    RefUnroll(names, st, s, i);
    SemiPlain(names, s, i);
    Numeral(s[i]);
  }

  lemma SemiPlain(names: Naming, s: seq<Byte>, i: nat)
    requires i < |s|
    ensures s[i] == 0x3B || s[i] == 0x23 ==> NameInner(names, s, i) == Others && NameStart(names, s, i) == Others
  {
  }

  lemma {:induction false} DigitsThrough(names: Naming, st: RefState, s: seq<Byte>, i: nat, j: nat)
    requires i <= j <= |s| && (st == Decimal || st == Hexadecimal)
    requires forall k :: i <= k < j ==> AsciiDigit(s[k]) || (st == Hexadecimal && HexLetter(s[k]))
    ensures RefRun(names, st, s, i) == RefRun(names, st, s, j)
    decreases j - i
  {
    hide RefRun, ByteType, NameStart, NameInner;
    if i < j {
      RefUnroll(names, st, s, i);
      Numeral(s[i]);
      DigitsThrough(names, st, s, i + 1, j);
    }
  }

  lemma {:induction false} NumberStarts(names: Naming, s: seq<Byte>, p: nat)
    requires p + 3 <= |s| && Stands(s, p, [0x26, 0x23])
    ensures RefRun(names, RefStart, s, p + 1) == RefRun(names, CharRefStart, s, p + 2)
    ensures AsciiDigit(s[p + 2]) ==> RefRun(names, CharRefStart, s, p + 2) == RefRun(names, Decimal, s, p + 3)
    ensures s[p + 2] == 0x78 ==> RefRun(names, CharRefStart, s, p + 2) == RefRun(names, HexStart, s, p + 3)
  {
    hide RefRun, ByteType, NameStart;
    assert s[p + 1] == s[p..p + 2][1];
    RefUnroll(names, RefStart, s, p + 1);
    SemiPlain(names, s, p + 1);
    Numeral(s[p + 1]);
    RefUnroll(names, CharRefStart, s, p + 2);
    Numeral(s[p + 2]);
  }

  lemma {:induction false} HexStarts(names: Naming, s: seq<Byte>, i: nat)
    requires i < |s| && (AsciiDigit(s[i]) || HexLetter(s[i]))
    ensures RefRun(names, HexStart, s, i) == RefRun(names, Hexadecimal, s, i + 1)
  {
    hide RefRun, ByteType;
    RefUnroll(names, HexStart, s, i);
    Numeral(s[i]);
  }

  lemma {:induction false} CharRefComplete(names: Naming, s: seq<Byte>, p: nat, q: nat)
    requires CharRefAt(s, p, q)
    ensures RefRun(names, RefStart, s, p + 1) == Token(CharRef, q)
  {
    hide RefRun, Stands;
    NumberStarts(names, s, p);
    if Digits10(s, p + 2, q - 1) {
      DigitsThrough(names, Decimal, s, p + 3, q - 1);
      RefEnds(names, Decimal, s, q - 1);
    } else {
      HexStarts(names, s, p + 3);
      DigitsThrough(names, Hexadecimal, s, p + 4, q - 1);
      RefEnds(names, Hexadecimal, s, q - 1);
    }
  }

  lemma InValue(names: Naming, open: Bt, s: seq<Byte>, i: nat)
    requires i < |s|
    ensures Step(names, Value(open), s, i) == ValueStep(names, open, s, i)
  {
    hide ValueStep, NameStart, NameInner;
  }

  lemma {:induction false} PlainGoes(names: Naming, s: seq<Byte>, i: nat, j: nat, quote: Byte, c: nat)
    requires PlainAt(s, i, j, c, quote) && (quote == 0x22 || quote == 0x27)
    ensures i < j <= |s| && Run(names, Value(ByteType(quote)), s, i) == Run(names, Value(ByteType(quote)), s, j)
  {
    hide Run, Step, RefRun, Text, ByteType, AnyChar;
    CharHere(names, s, i, j, c);
    TextInside(s, i, j, [c]);
    QuoteMark(s[i]);
    QuoteMark(quote);
    Unroll(names, Value(ByteType(quote)), s, i);
    InValue(names, ByteType(quote), s, i);
  }

  lemma {:induction false} RefGoes(names: Naming, s: seq<Byte>, i: nat, j: nat, quote: Byte)
    requires RefAt(names, s, i, j) && (quote == 0x22 || quote == 0x27)
    ensures i < j <= |s| && Run(names, Value(ByteType(quote)), s, i) == Run(names, Value(ByteType(quote)), s, j)
  {
    hide Run, Step, RefRun, ByteType, AnyChar, RefAt;
    RefBegins(names, s, i, j);
    MarkAlone(s, i);
    QuoteMark(s[i]);
    QuoteMark(quote);
    Unroll(names, Value(ByteType(quote)), s, i);
    InValue(names, ByteType(quote), s, i);
  }

  lemma {:induction false} PieceGoes(names: Naming, s: seq<Byte>, i: nat, j: nat, quote: Byte)
    requires PieceAt(names, s, i, j, quote) && (quote == 0x22 || quote == 0x27) && i < |s|
    ensures i < j <= |s| && Run(names, Value(ByteType(quote)), s, i) == Run(names, Value(ByteType(quote)), s, j)
  {
    hide Run, PlainAt, RefAt, ByteType;
    if c :| PlainAt(s, i, j, c, quote) {
      PlainGoes(names, s, i, j, quote, c);
    } else {
      RefGoes(names, s, i, j, quote);
    }
  }

  lemma {:induction false} RefBegins(names: Naming, s: seq<Byte>, i: nat, j: nat)
    requires RefAt(names, s, i, j)
    ensures i < j <= |s| && s[i] == 0x26
    ensures RefRun(names, RefStart, s, i + 1).Token? && RefRun(names, RefStart, s, i + 1).next == j
  {
    hide RefRun;
    if EntityRefAt(names, s, i, j) {
      EntityRefComplete(names, s, i, j);
    } else {
      CharRefComplete(names, s, i, j);
      assert s[i] == s[i..i + 2][0];
    }
  }

  lemma {:induction false} ValueThrough(names: Naming, s: seq<Byte>, i: nat, j: nat, quote: Byte)
    requires ValueAt(names, s, i, j, quote) && (quote == 0x22 || quote == 0x27)
    ensures i <= j <= |s| && Run(names, Value(ByteType(quote)), s, i) == Run(names, Value(ByteType(quote)), s, j)
    decreases j
  {
    hide Run, PieceAt, ByteType;
    ValueInside(names, s, i, j, quote);
    if i != j {
      var k: nat :| k < j && ValueAt(names, s, i, k, quote) && PieceAt(names, s, k, j, quote);
      ValueThrough(names, s, i, k, quote);
      PieceGoes(names, s, k, j, quote);
    }
  }

  lemma {:induction false} QuotedThrough(names: Naming, s: seq<Byte>, i: nat, j: nat)
    requires QuotedAt(names, s, i, j)
    ensures Run(names, AttEquals, s, i) == Run(names, AfterValue, s, j)
  {
    hide Run, ValueAt;
    Led(names, AttEquals, s, i, Value(ByteType(s[i])));
    ValueThrough(names, s, i + 1, j - 1, s[i]);
    Led(names, Value(ByteType(s[i])), s, j - 1, AfterValue);
  }

  lemma {:induction false} EqualsThrough(names: Naming, colon: bool, s: seq<Byte>, i: nat, j: nat)
    requires EqualsAt(s, i, j)
    ensures i < j <= |s| && Run(names, AttName(colon), s, i) == Run(names, AttEquals, s, j)
  {
    hide Run, Blanks;
    var k: nat :| i <= k < j <= |s| && Blanks(s, i, k) && s[k] == 0x3D && Blanks(s, k + 1, j);
    BlanksThrough(names, AttName(colon), s, i, k);
    Led(names, if i < k then AttSpace else AttName(colon), s, k, AttEquals);
    BlanksThrough(names, AttEquals, s, k + 1, j);
  }

  lemma {:induction false} AttThrough(names: Naming, st: Scan, s: seq<Byte>, i: nat, j: nat)
    requires AttAt(names, s, i, j) && (st == TagSpace || st == AttGap)
    ensures i < j <= |s| && Run(names, st, s, i) == Run(names, AfterValue, s, j)
  {
    hide Run, QNameAt, EqualsAt;
    var n: nat, v: nat :| QNameAt(names, s, i, n) && EqualsAt(s, n, v) && QuotedAt(names, s, v, j);
    var colon := QNameThrough(names, st, s, i, n);
    EqualsThrough(names, colon, s, n, v);
    QuotedThrough(names, s, v, j);
  }

  lemma {:induction false} AttsThrough(names: Naming, colon: bool, s: seq<Byte>, i: nat, j: nat)
    requires AttsAt(names, s, i, j)
    ensures i <= j <= |s| && Run(names, TagName(colon), s, i) == Run(names, if i < j then AfterValue else TagName(colon), s, j)
    decreases j
  {
    hide Run, AttAt;
    if !(i == j <= |s|) {
      var k: nat, b: nat :| k < b < j && AttsAt(names, s, i, k) && Blanks(s, k, b) && AttAt(names, s, b, j);
      AttsThrough(names, colon, s, i, k);
      BlanksThrough(names, if i < k then AfterValue else TagName(colon), s, k, b);
      AttThrough(names, if i < k then AttGap else TagSpace, s, b, j);
    }
  }

  lemma {:induction false} CloseThrough(names: Naming, colon: bool, s: seq<Byte>, m: nat, q: nat, atts: bool, empty: bool)
    requires ClosedAt(s, m, q, empty)
    ensures m <= q && Run(names, if atts then AfterValue else TagName(colon), s, m) == Token(StartTok(atts, empty), q)
  {
    hide Run, Blanks;
    var st := if atts then AfterValue else TagName(colon);
    var e := if empty then q - 2 else q - 1;
    BlanksThrough(names, st, s, m, e);
    BlanksInside(s, m, e);
    var st' := if m < e then Gap(st) else st;
    if empty {
      assert s[e] == s[e..q][0] && s[e + 1] == s[e..q][1];
      Led(names, st', s, e, if atts then AttSlash else TagSlash);
      Ended(names, if atts then AttSlash else TagSlash, s, e + 1);
    } else {
      Ended(names, st', s, e);
    }
  }

  lemma {:induction false} StartTagComplete(names: Naming, s: seq<Byte>, p: nat, q: nat, atts: bool, empty: bool)
    requires StartTagAt(names, s, p, q, atts, empty)
    ensures p < q <= |s| && s[p] == 0x3C && Run(names, AfterLt, s, p + 1) == Token(StartTok(atts, empty), q)
  {
    hide Run, QNameAt, AttsAt, ClosedAt;
    var k: nat, m: nat :| HeadAt(names, s, p, k, m) && atts == (k < m) && ClosedAt(s, m, q, empty);
    var colon := QNameThrough(names, AfterLt, s, p + 1, k);
    AttsThrough(names, colon, s, k, m);
    CloseThrough(names, colon, s, m, q, atts, empty);
  }

  lemma {:induction false} RunComplete(names: Naming, s: seq<Byte>, p: nat, tok: Tok, q: nat)
    requires MarkupAt(names, s, p, tok, q)
    ensures p < q <= |s| && s[p] == 0x3C && Run(names, AfterLt, s, p + 1) == Token(tok, q)
  {
    hide Run, StartTagAt, Instruction, BlanksAfterName;
    match tok {
      case Comment => CommentComplete(names, s, p, q); assert s[p] == s[p..p + 4][0];
      case CdataSectOpen => CdataComplete(names, s, p); assert s[p] == s[p..p + 9][0];
      case Pi => PiComplete(names, s, p, q, false); assert s[p] == s[p..p + 2][0];
      case XmlDecl => PiComplete(names, s, p, q, true); assert s[p] == s[p..p + 2][0];
      case EndTag => EndTagComplete(names, s, p, q); assert s[p] == s[p..p + 2][0];
      case StartTagNoAtts => StartTagComplete(names, s, p, q, false, false);
      case StartTagWithAtts => StartTagComplete(names, s, p, q, true, false);
      case EmptyElementNoAtts => StartTagComplete(names, s, p, q, false, true);
      case EmptyElementWithAtts => StartTagComplete(names, s, p, q, true, true);
    }
  }

  // ------------------------------------------------------------------ runs of data

  lemma {:induction false} TextCons(s: seq<Byte>, i: nat, k: nat, j: nat, c: nat, cs: seq<nat>)
    requires Text(s, i, k, [c]) && Text(s, k, j, cs)
    ensures Text(s, i, j, [c] + cs)
  {
    assert ([c] + cs)[1..] == cs && [c][1..] == [];
    assert Utf8([c]) == Encode(c) + Utf8([]) == Encode(c);
    assert s[i..j] == s[i..k] + s[k..j];
  }

  /** What the character at `q` means for a run of data. */
  lemma {:induction false} DataStepExactly(s: seq<Byte>, q: nat)
    requires q < |s|
    ensures DataStep(s, q) == Others <==> DataEnd(s, q)
    ensures DataStep(s, q).Adv? <==> CharAt(s, q) && DataChar(s[q]) && (s[q] == 0x5D ==> Harmless(s, q))
  {
    hide Text, DataChar, InvalidChar;
    Classes(s[q]);
    StepOfChar(s, q);
    if c: nat, j: nat :| Text(s, q, j, [c]) {
      CharHere(Naming({}, {}), s, q, j, c);
    }
    if !AnyChar(s, q).Fail? {
      var c := CharThere(s, q);
    }
  }

  lemma StepOfChar(s: seq<Byte>, q: nat)
    requires q < |s|
    ensures DataStep(s, q).Adv? <==> !AnyChar(s, q).Fail? && DataChar(s[q]) && (s[q] == 0x5D ==> Harmless(s, q))
    ensures DataStep(s, q) == Others <==> AnyChar(s, q).Fail? || !DataChar(s[q]) || (s[q] == 0x5D && Undecided(s, q))
    ensures DataStep(s, q).Adv? ==> DataStep(s, q).n == if AnyChar(s, q).Adv? then AnyChar(s, q).n else 1
    ensures !AnyChar(s, q).Fail? && s[q] >= 0x80 ==> AnyChar(s, q).Adv?
  {
    hide InvalidChar;
  }

  /** From the front: one character of the run and the rest of it. */
  lemma {:induction false} DataFront(s: seq<Byte>, p: nat, q: nat)
    requires DataRun(s, p, q) && p < q
    ensures DataStep(s, p).Adv? && DataRun(s, p + DataStep(s, p).n, q)
  {
    hide DataStep, DataEnd, Harmless, XmlChars, Utf8;
    var cs :| Text(s, p, q, cs) && AllData(cs);
    SomeText(s, p, q, cs);
    var k := TextFront(s, p, q, cs);
    FirstOfText(s, p, k, cs[0]);
    DataStepExactly(s, p);
    StepWidth(s, p, k, cs[0]);
    RestIsData(cs);
  }

  lemma RestIsData(cs: seq<nat>)
    requires cs != [] && AllData(cs)
    ensures AllData(cs[1..])
  {
  }

  lemma SomeText(s: seq<Byte>, i: nat, j: nat, cs: seq<nat>)
    requires Text(s, i, j, cs)
    ensures i < j <==> cs != []
  {
    if cs != [] { var k := TextFront(s, i, j, cs); }
  }

  lemma FirstOfText(s: seq<Byte>, i: nat, k: nat, c: nat)
    requires Text(s, i, k, [c]) && DataChar(c)
    ensures i < k <= |s| && CharAt(s, i) && DataChar(s[i])
  {
    CharHere(Naming({}, {}), s, i, k, c);
  }

  lemma StepWidth(s: seq<Byte>, i: nat, k: nat, c: nat)
    requires Text(s, i, k, [c]) && i < |s| && DataStep(s, i).Adv?
    ensures DataStep(s, i).n == k - i
  {
    hide Text, AnyChar, DataStep;
    CharHere(Naming({}, {}), s, i, k, c);
    StepOfChar(s, i);
  }

  lemma {:induction false} DataMore(s: seq<Byte>, p: nat, q: nat)
    requires p < |s| && DataStep(s, p).Adv? && DataRun(s, p + DataStep(s, p).n, q)
    ensures DataRun(s, p, q)
  {
    hide DataStep, DataEnd, Harmless, AnyChar, Text, DataChar;
    var n := DataStep(s, p).n;
    var cs :| Text(s, p + n, q, cs) && AllData(cs);
    StepOfChar(s, p);
    DataStepExactly(s, p);
    var c := CharThere(s, p);
    CharHere(Naming({}, {}), s, p, p + n, c);
    BigIsData(s[p], c);
    TextCons(s, p, p + n, q, c, cs);
    InsideChar(s, p, n);
    assert AllData([c] + cs);
  }

  lemma BigIsData(b: Byte, c: nat)
    requires DataChar(b) && if c < 0x80 then b == c else b >= 0x80
    ensures DataChar(c)
  {
  }

  /** No bracket inside a character of several bytes. */
  lemma {:induction false} InsideChar(s: seq<Byte>, p: nat, n: nat)
    requires p < |s| && DataStep(s, p).Adv? && n == DataStep(s, p).n
    ensures forall k: nat :: p < k < p + n ==> s[k] != 0x5D
  {
    if ByteType(s[p]).Lead? {
      ValidIsEncoded(s[p..p + n]);
      forall k: nat | p < k < p + n
        ensures s[k] != 0x5D
      {
        assert s[k] == s[p..p + n][k - p];
      }
    }
  }

  /** A run of data ends exactly where data does. */
  lemma {:induction false} DataExactly(s: seq<Byte>, p: nat, q: nat)
    requires p <= |s|
    ensures Data(s, p) == Token(DataChars, q) <==> DataRun(s, p, q)
    decreases |s| - p
  {
    hide DataStep, DataEnd, DataRun;
    if p == |s| {
      DataNone(s, p, q);
      InputEnds(s);
    } else {
      DataStepExactly(s, p);
      if DataStep(s, p).Adv? {
        DataExactly(s, p + DataStep(s, p).n, q);
        if DataRun(s, p + DataStep(s, p).n, q) { DataMore(s, p, q); }
        if DataRun(s, p, q) {
          DataAfter(s, p, q);
          DataFront(s, p, q);
        }
      } else {
        DataNone(s, p, q);
      }
    }
  }

  lemma DataAfter(s: seq<Byte>, p: nat, q: nat)
    requires p < |s| && DataStep(s, p).Adv? && DataRun(s, p, q)
    ensures p < q
  {
    hide DataStep;
    DataStepExactly(s, p);
  }

  /** Where data cannot go on, only the empty run is one. */
  lemma DataNone(s: seq<Byte>, p: nat, q: nat)
    requires p <= |s| && (p < |s| ==> !DataStep(s, p).Adv?)
    ensures DataRun(s, p, q) <==> p == q && DataEnd(s, p)
  {
    hide DataStep, DataEnd;
    if DataRun(s, p, q) && p < q { DataFront(s, p, q); }
    TextNone(s, p);
  }

  lemma InputEnds(s: seq<Byte>)
    ensures DataEnd(s, |s|)
  {
  }

  // ------------------------------------------------------------------ the tokens of content

  /** The first byte of a token tells what kinds it can be of. */
  predicate StartsWith(tok: Tok, b: Byte) {
    match tok
    case EntityRef => b == 0x26
    case CharRef => b == 0x26
    case DataNewline => b == 0xA || b == 0xD
    case DataChars => DataChar(b)
    case _ => b == 0x3C
  }

  lemma {:induction false} SpanStarts(names: Naming, s: seq<Byte>, p: nat, tok: Tok, q: nat)
    requires SpanAt(names, s, p, tok, q)
    ensures p < |s| && StartsWith(tok, s[p])
    ensures tok == DataChars ==> DataStep(s, p).Adv?
  {
    hide MarkupAt, DataRun, DataStep;
    match tok {
      case EntityRef =>
      case CharRef => assert s[p] == s[p..p + 2][0];
      case DataNewline => NewlineStarts(s, p, q);
      case DataChars =>
        RunInside(s, p, q);
        DataFront(s, p, q);
        DataStepExactly(s, p);
      case _ => RunComplete(names, s, p, tok, q);
    }
  }

  lemma RunInside(s: seq<Byte>, p: nat, q: nat)
    requires DataRun(s, p, q)
    ensures p <= q <= |s|
  {
  }

  lemma NewlineStarts(s: seq<Byte>, p: nat, q: nat)
    requires NewlineAt(s, p, q)
    ensures p < |s| && (s[p] == 0xA || s[p] == 0xD)
  {
    if Stands(s, p, [0xD, 0xA]) { assert s[p] == s[p..p + 2][0]; } else { assert s[p] == s[p..p + 1][0]; }
  }

  lemma {:induction false} NewlineExactly(names: Naming, s: seq<Byte>, p: nat, q: nat)
    requires p < |s| && (s[p] == 0xA || s[p] == 0xD)
    ensures ContentTok(names, s, p) == Token(DataNewline, q) <==> NewlineAt(s, p, q)
    ensures ContentTok(names, s, p).Token? ==> ContentTok(names, s, p).tok == DataNewline
  {
    hide Stands, Run, RefRun, BracketTok, CharTok, AsciiType;
    OneStands(s, p);
    if p + 1 < |s| {
      FirstTwo(s, p);
      LineEnd(s[p + 1]);
    }
  }

  lemma OneStands(s: seq<Byte>, p: nat)
    requires p < |s|
    ensures forall b: Byte :: Stands(s, p, [b]) <==> s[p] == b
    ensures p + 1 == |s| ==> forall b: Byte, c: Byte :: !Stands(s, p, [b, c])
    ensures ByteType(s[p]) == Cr <==> s[p] == 0xD
    ensures ByteType(s[p]) == Lf <==> s[p] == 0xA
  {
    assert s[p..p + 1] == [s[p]];
  }

  lemma LineEnd(b: Byte)
    ensures ByteType(b) == Lf <==> b == 0xA
  {
  }

  lemma {:induction false} MarkupExactly(names: Naming, s: seq<Byte>, p: nat, tok: Tok, q: nat)
    requires p < |s| && s[p] == 0x3C
    ensures ContentTok(names, s, p) == Token(tok, q) <==> MarkupAt(names, s, p, tok, q)
  {
    hide Run, MarkupAt;
    assert Read(names, AfterLt, s, p, p + 1);
    RunSound(names, AfterLt, s, p, p + 1);
    if MarkupAt(names, s, p, tok, q) { RunComplete(names, s, p, tok, q); }
  }

  lemma {:induction false} RefExactly(names: Naming, s: seq<Byte>, p: nat, tok: Tok, q: nat)
    requires p < |s| && s[p] == 0x26
    ensures ContentTok(names, s, p) == Token(tok, q) <==> RefTokenAt(names, s, p, tok, q)
  {
    hide RefRun, EntityRefAt, CharRefAt;
    assert ReadRef(names, RefStart, s, p, p + 1);
    RefSound(names, RefStart, s, p, p + 1);
    if EntityRefAt(names, s, p, q) { EntityRefComplete(names, s, p, q); }
    if CharRefAt(s, p, q) { CharRefComplete(names, s, p, q); }
  }

  lemma {:induction false} PlainExactly(names: Naming, s: seq<Byte>, p: nat, q: nat)
    requires p < |s| && DataChar(s[p])
    ensures ContentTok(names, s, p) == Token(DataChars, q) <==> p < q && DataRun(s, p, q)
    ensures ContentTok(names, s, p).Token? ==> ContentTok(names, s, p).tok == DataChars
  {
    hide Data, DataRun, DataStep, AnyChar;
    Classes(s[p]);
    DataExactly(s, p, q);
    PlainTokens(s, p);
    if DataStep(s, p).Adv? {
      ScannerChunks.DataStarts(names, s, p);
      if DataRun(s, p, q) { DataAfter(s, p, q); }
    } else {
      DataNone(s, p, q);
      NoData(names, s, p);
    }
  }

  lemma NoData(names: Naming, s: seq<Byte>, p: nat)
    requires p < |s| && DataChar(s[p]) && !DataStep(s, p).Adv?
    ensures ContentTok(names, s, p).Halt?
  {
    hide Data;
  }

  /** A token of this kind from `p` to `q` is found exactly where its bytes stand. */
  lemma {:induction false} TokensExactly(names: Naming, s: seq<Byte>, p: nat, tok: Tok, q: nat)
    requires p <= |s|
    ensures ContentTok(names, s, p) == Token(tok, q) <==> SpanAt(names, s, p, tok, q)
  {
    hide ContentTok, MarkupAt, DataRun, NewlineAt, EntityRefAt, CharRefAt;
    if SpanAt(names, s, p, tok, q) { SpanStarts(names, s, p, tok, q); }
    if p == |s| {
      NothingLeft(names, s);
    } else if s[p] == 0x3C {
      MarkupExactly(names, s, p, tok, q);
      if MarkupAt(names, s, p, tok, q) { MarkupKinds(names, s, p, tok, q); }
    } else if s[p] == 0x26 {
      RefExactly(names, s, p, tok, q);
    } else if s[p] == 0xA || s[p] == 0xD {
      NewlineExactly(names, s, p, q);
    } else {
      PlainExactly(names, s, p, q);
    }
  }

  lemma NothingLeft(names: Naming, s: seq<Byte>)
    ensures ContentTok(names, s, |s|).Halt?
  {
  }

  lemma MarkupKinds(names: Naming, s: seq<Byte>, p: nat, tok: Tok, q: nat)
    requires MarkupAt(names, s, p, tok, q)
    ensures tok !in {EntityRef, CharRef, DataNewline, DataChars}
  {
  }
}
