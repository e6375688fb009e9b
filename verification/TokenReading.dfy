/** Whatever contentTok (expat/xmltok_impl.c) takes for markup or a reference, the bytes of it are
    there: what has been read is known in each state and kept by each step. */
module TokenReading {
  import opened XmlBytes
  import opened ContentScanner
  import opened ContentLoops
  import opened CharacterData
  import opened TokenSpans

  // ------------------------------------------------------------------ what has been read in each state

  ghost predicate ColonAt(names: Naming, s: seq<Byte>, i: nat, j: nat) {
    i < j <= |s| && NameAt(names, s, i, j - 1, false) && s[j - 1] == 0x3A
  }

  ghost predicate NamePart(names: Naming, s: seq<Byte>, i: nat, j: nat, colon: bool) {
    if colon then Prefixed(names, s, i, j) else NameAt(names, s, i, j, false)
  }

  /** Blanks behind the head, of which there is at least one. */
  ghost predicate GapAt(names: Naming, s: seq<Byte>, p: nat, i: nat, atts: bool) {
    exists k: nat, m: nat :: HeadAt(names, s, p, k, m) && atts == (k < m) && m < i && Blanks(s, m, i)
  }

  ghost predicate SlashAt(names: Naming, s: seq<Byte>, p: nat, i: nat, atts: bool) {
    && 0 < i <= |s| && s[i - 1] == 0x2F
    && exists k: nat, m: nat :: HeadAt(names, s, p, k, m) && atts == (k < m) && Blanks(s, m, i - 1)
  }

  /** An attribute may start at `b`. */
  ghost predicate AttMay(names: Naming, s: seq<Byte>, p: nat, b: nat) {
    exists atts :: GapAt(names, s, p, b, atts)
  }

  ghost predicate AttNamed(names: Naming, s: seq<Byte>, p: nat, n: nat) {
    exists b: nat :: AttMay(names, s, p, b) && QNameAt(names, s, b, n)
  }

  ghost predicate ReadTag(names: Naming, st: Scan, s: seq<Byte>, p: nat, i: nat)
    requires InTag(st)
  {
    match st
    case AfterLt => i == p + 1
    case TagName(colon) => NamePart(names, s, p + 1, i, colon)
    case TagColon => ColonAt(names, s, p + 1, i)
    case TagSpace => GapAt(names, s, p, i, false)
    case TagSlash => SlashAt(names, s, p, i, false)
  }

  ghost predicate ReadAtts(names: Naming, st: Scan, s: seq<Byte>, p: nat, i: nat)
    requires InAtts(st)
  {
    match st
    case AttName(colon) => (exists b: nat :: AttMay(names, s, p, b) && NamePart(names, s, b, i, colon))
    case AttColon => (exists b: nat :: AttMay(names, s, p, b) && ColonAt(names, s, b, i))
    case AttSpace => (exists n: nat :: AttNamed(names, s, p, n) && n < i && Blanks(s, n, i))
    case AttEquals => (exists n: nat :: AttNamed(names, s, p, n) && EqualsAt(s, n, i))
    case Value(open) => ReadValue(names, s, p, i, open)
    case AfterValue => (exists k: nat :: HeadAt(names, s, p, k, i) && k < i)
    case AttGap => GapAt(names, s, p, i, true)
    case AttSlash => SlashAt(names, s, p, i, true)
  }

  ghost predicate ReadValue(names: Naming, s: seq<Byte>, p: nat, i: nat, open: Bt) {
    exists n: nat, v: nat :: AttNamed(names, s, p, n) && EqualsAt(s, n, v) && OpenValue(names, s, v, i, open)
  }

  ghost predicate OpenValue(names: Naming, s: seq<Byte>, v: nat, i: nat, open: Bt) {
    && v < i <= |s| && (s[v] == 0x22 || s[v] == 0x27) && open == ByteType(s[v]) && ValueAt(names, s, v + 1, i, s[v])
  }

  ghost predicate ReadOther(names: Naming, st: Scan, s: seq<Byte>, p: nat, i: nat)
    requires !InAtts(st) && !InTag(st)
  {
    match st
    case AfterExcl => i == p + 2 && Stands(s, p, [0x3C, 0x21])
    case CommentStart => i == p + 3 && Stands(s, p, [0x3C, 0x21, 0x2D])
    case InComment => ReadComment(s, p, i, false)
    case InCommentMinus => ReadComment(s, p, i, true)
    case CommentEnd => 2 <= i <= |s| && Stands(s, i - 2, [0x2D, 0x2D]) && ReadComment(s, p, i - 2, false)
    case Cdata => i == p + 3 && Stands(s, p, [0x3C, 0x21, 0x5B])
    case PiStart => i == p + 2 && Stands(s, p, [0x3C, 0x3F])
    case PiName(target) =>
      NameAt(names, s, p + 2, i, false) && p + 2 <= i <= |s| && Stands(s, p, [0x3C, 0x3F]) && target == s[p + 2..i]
    case PiNameEnd(tok) =>
      p + 3 <= i <= |s| && Stands(s, p, [0x3C, 0x3F]) && s[i - 1] == 0x3F && TargetOf(names, s, p + 2, i - 1, tok)
    case PiBody(tok) => ReadPi(names, s, p, i, tok, false)
    case PiQuest(tok) => ReadPi(names, s, p, i, tok, true)
    case EndStart => i == p + 2 && Stands(s, p, [0x3C, 0x2F])
    case EndName => Stands(s, p, [0x3C, 0x2F]) && NameAt(names, s, p + 2, i, true)
    case EndSpace => Stands(s, p, [0x3C, 0x2F]) && BlanksAfterName(names, s, p + 2, i)
  }

  ghost predicate TargetOf(names: Naming, s: seq<Byte>, i: nat, k: nat, tok: Tok) {
    (tok == Pi || tok == XmlDecl) && TargetAt(names, s, i, k, tok == XmlDecl)
  }

  ghost predicate ReadComment(s: seq<Byte>, p: nat, i: nat, hyphen: bool) {
    && Stands(s, p, COMMENT_OPEN)
    && exists cs :: Text(s, p + 4, i, cs) && NoPair(cs, 0x2D, 0x2D) && hyphen == EndsIn(cs, 0x2D)
  }

  ghost predicate ReadPi(names: Naming, s: seq<Byte>, p: nat, i: nat, tok: Tok, quest: bool) {
    Stands(s, p, [0x3C, 0x3F]) && OpenInstruction(names, s, p + 2, i, tok, quest)
  }

  ghost predicate OpenInstruction(names: Naming, s: seq<Byte>, j: nat, i: nat, tok: Tok, quest: bool) {
    exists k: nat :: TargetOf(names, s, j, k, tok) && OpenPi(s, k, i, quest)
  }

  ghost predicate OpenPi(s: seq<Byte>, k: nat, i: nat, quest: bool) {
    k < i <= |s| && Blank(s[k]) && exists cs :: Text(s, k + 1, i, cs) && NoPair(cs, 0x3F, 0x3E) && quest == EndsIn(cs, 0x3F)
  }

  /** In state `st` at `i` with markup that starts at `p`. */
  ghost predicate Read(names: Naming, st: Scan, s: seq<Byte>, p: nat, i: nat) {
    && p < i <= |s| && s[p] == 0x3C
    && if InTag(st) then ReadTag(names, st, s, p, i)
       else if InAtts(st) then ReadAtts(names, st, s, p, i)
       else ReadOther(names, st, s, p, i)
  }

  /** What a step makes of it. */
  ghost predicate Keeps(names: Naming, r: Next, s: seq<Byte>, p: nat, i: nat) {
    match r
    case Go(st, n) => Read(names, st, s, p, i + n)
    case Done(tok, n) => MarkupAt(names, s, p, tok, i + n)
    case Stop(_) => true
  }

  // ------------------------------------------------------------------ every step keeps to what has been read

  lemma HeadOnly(names: Naming, s: seq<Byte>, p: nat, k: nat)
    requires p < |s| && s[p] == 0x3C && QNameAt(names, s, p + 1, k)
    ensures k <= |s| && HeadAt(names, s, p, k, k)
  {
  }

  lemma BlankMore(s: seq<Byte>, i: nat, j: nat)
    requires Blanks(s, i, j) && j < |s| && Blank(s[j])
    ensures Blanks(s, i, j + 1)
  {
  }

  /** The blanks, the slash or the end behind the head. */
  lemma {:induction false} AfterHead(names: Naming, s: seq<Byte>, p: nat, k: nat, m: nat, e: nat)
    requires HeadAt(names, s, p, k, m) && Blanks(s, m, e) && e < |s|
    ensures Blank(s[e]) ==> GapAt(names, s, p, e + 1, k < m)
    ensures s[e] == 0x2F ==> SlashAt(names, s, p, e + 1, k < m)
    ensures s[e] == 0x3E ==> StartTagAt(names, s, p, e + 1, k < m, false)
  {
    hide QNameAt, AttsAt;
    if Blank(s[e]) { BlankMore(s, m, e); }
    if s[e] == 0x3E { assert ClosedAt(s, m, e + 1, false); }
  }

  lemma {:induction false} AfterGap(names: Naming, s: seq<Byte>, p: nat, i: nat, atts: bool)
    requires GapAt(names, s, p, i, atts) && i < |s|
    ensures Blank(s[i]) ==> GapAt(names, s, p, i + 1, atts)
    ensures s[i] == 0x2F ==> SlashAt(names, s, p, i + 1, atts)
    ensures s[i] == 0x3E ==> StartTagAt(names, s, p, i + 1, atts, false)
  {
    hide HeadAt, SlashAt, StartTagAt;
    var k: nat, m: nat :| HeadAt(names, s, p, k, m) && atts == (k < m) && m < i && Blanks(s, m, i);
    AfterHead(names, s, p, k, m, i);
  }

  lemma {:induction false} AfterSlash(names: Naming, s: seq<Byte>, p: nat, i: nat, atts: bool)
    requires SlashAt(names, s, p, i, atts) && i < |s| && s[i] == 0x3E
    ensures StartTagAt(names, s, p, i + 1, atts, true)
  {
    hide HeadAt;
    var k: nat, m: nat :| HeadAt(names, s, p, k, m) && atts == (k < m) && Blanks(s, m, i - 1);
    assert s[i - 1..i + 1] == [0x2F, 0x3E];
    assert ClosedAt(s, m, i + 1, true);
  }

  lemma StartTagIsMarkup(names: Naming, s: seq<Byte>, p: nat, q: nat, atts: bool, empty: bool)
    requires StartTagAt(names, s, p, q, atts, empty)
    ensures MarkupAt(names, s, p, StartTok(atts, empty), q)
  {
    hide StartTagAt;
  }

  lemma {:induction false} PartGrows(names: Naming, s: seq<Byte>, i: nat, j: nat, colon: bool)
    requires j < |s| && NamePart(names, s, i, j, colon) && NameInner(names, s, j).Adv?
    ensures NamePart(names, s, i, j + NameInner(names, s, j).n, colon)
  {
    hide NameInner, NameAt;
    if colon {
      var k: nat :| i <= k < j <= |s| && NameAt(names, s, i, k, false) && s[k] == 0x3A && NameAt(names, s, k + 1, j, false);
      NameGrows(names, s, k + 1, j, false);
    } else {
      NameGrows(names, s, i, j, false);
    }
  }

  lemma {:induction false} PrefixedBegins(names: Naming, s: seq<Byte>, i: nat, j: nat)
    requires j < |s| && ColonAt(names, s, i, j) && NameStart(names, s, j).Adv?
    ensures Prefixed(names, s, i, j + NameStart(names, s, j).n)
  {
    hide NameStart, NameAt;
    NameBegins(names, s, j, false);
    assert s[j - 1] == 0x3A;
  }

  lemma NameIsQName(names: Naming, s: seq<Byte>, i: nat, j: nat, colon: bool)
    requires NamePart(names, s, i, j, colon)
    ensures QNameAt(names, s, i, j) && i <= j <= |s|
  {
  }

  lemma EqualsMore(s: seq<Byte>, i: nat, j: nat)
    requires j < |s|
    ensures EqualsAt(s, i, j) && Blank(s[j]) ==> EqualsAt(s, i, j + 1)
    ensures Blanks(s, i, j) && s[j] == 0x3D ==> EqualsAt(s, i, j + 1)
  {
    if EqualsAt(s, i, j) && Blank(s[j]) {
      var k: nat :| i <= k < j <= |s| && Blanks(s, i, k) && s[k] == 0x3D && Blanks(s, k + 1, j);
      BlankMore(s, k + 1, j);
    }
    if Blanks(s, i, j) && s[j] == 0x3D { assert Blanks(s, j + 1, j + 1); }
  }

  /** The name of an attribute ends: blanks or the equals sign. */
  lemma {:induction false} AfterAttName(names: Naming, s: seq<Byte>, p: nat, b: nat, i: nat, colon: bool)
    requires i < |s| && AttMay(names, s, p, b) && NamePart(names, s, b, i, colon)
    ensures AttNamed(names, s, p, i)
    ensures Blank(s[i]) ==> ReadAtts(names, AttSpace, s, p, i + 1)
    ensures s[i] == 0x3D ==> ReadAtts(names, AttEquals, s, p, i + 1)
  {
    hide AttMay, NamePart, QNameAt;
    NameIsQName(names, s, b, i, colon);
    assert AttNamed(names, s, p, i);
    assert Blanks(s, i, i);
    EqualsMore(s, i, i);
  }

  lemma {:induction false} AttNameReads(names: Naming, colon: bool, s: seq<Byte>, p: nat, i: nat)
    requires ReadAtts(names, AttName(colon), s, p, i) && i < |s|
    ensures var r := AttStep(names, AttName(colon), s, i);
            (r.Go? ==> InAtts(r.st) && ReadAtts(names, r.st, s, p, i + r.n)) && !r.Done?
  {
    hide NameInner, ByteType, NameAt, AttMay, AttNamed, EqualsAt, NamePart, ColonAt, NameStart, ValueStep;
    TagMark(s[i]);
    var b: nat :| AttMay(names, s, p, b) && NamePart(names, s, b, i, colon);
    if NameInner(names, s, i).Adv? {
      PartGrows(names, s, b, i, colon);
    } else {
      AfterAttName(names, s, p, b, i, colon);
      if s[i] == 0x3A && !colon { ColonReads(names, s, b, i); }
    }
  }

  lemma {:induction false} AttColonReads(names: Naming, s: seq<Byte>, p: nat, i: nat)
    requires ReadAtts(names, AttColon, s, p, i) && i < |s| && NameStart(names, s, i).Adv?
    ensures ReadAtts(names, AttName(true), s, p, i + NameStart(names, s, i).n)
  {
    hide NameStart, AttMay, ColonAt, NamePart, Prefixed;
    var b: nat :| AttMay(names, s, p, b) && ColonAt(names, s, b, i);
    PrefixedBegins(names, s, b, i);
    PrefixedPart(names, s, b, i + NameStart(names, s, i).n);
  }

  lemma {:induction false} AttSpaceReads(names: Naming, s: seq<Byte>, p: nat, i: nat)
    requires ReadAtts(names, AttSpace, s, p, i) && i < |s|
    ensures Blank(s[i]) ==> ReadAtts(names, AttSpace, s, p, i + 1)
    ensures s[i] == 0x3D ==> ReadAtts(names, AttEquals, s, p, i + 1)
  {
    hide AttNamed, EqualsAt;
    var n: nat :| AttNamed(names, s, p, n) && n < i && Blanks(s, n, i);
    EqualsMore(s, n, i);
  }

  lemma {:induction false} AttEqualsReads(names: Naming, s: seq<Byte>, p: nat, i: nat)
    requires ReadAtts(names, AttEquals, s, p, i) && i < |s|
    ensures Blank(s[i]) ==> ReadAtts(names, AttEquals, s, p, i + 1)
    ensures s[i] == 0x22 || s[i] == 0x27 ==> ReadAtts(names, Value(ByteType(s[i])), s, p, i + 1)
  {
    hide AttNamed, EqualsAt, ByteType;
    var n: nat :| AttNamed(names, s, p, n) && EqualsAt(s, n, i);
    EqualsMore(s, n, i);
    if s[i] == 0x22 || s[i] == 0x27 { OpensValue(names, s, p, n, i); }
  }

  lemma PrefixedPart(names: Naming, s: seq<Byte>, i: nat, j: nat)
    requires Prefixed(names, s, i, j)
    ensures NamePart(names, s, i, j, true)
  {
  }

  lemma ColonReads(names: Naming, s: seq<Byte>, i: nat, j: nat)
    requires j < |s| && NamePart(names, s, i, j, false) && s[j] == 0x3A
    ensures ColonAt(names, s, i, j + 1)
  {
  }

  lemma OpensValue(names: Naming, s: seq<Byte>, p: nat, n: nat, i: nat)
    requires i < |s| && AttNamed(names, s, p, n) && EqualsAt(s, n, i) && (s[i] == 0x22 || s[i] == 0x27)
    ensures ReadValue(names, s, p, i + 1, ByteType(s[i]))
  {
    hide AttNamed, EqualsAt, ByteType;
    assert ValueAt(names, s, i + 1, i + 1, s[i]);
    assert OpenValue(names, s, i, i + 1, ByteType(s[i]));
  }

  // ------------------------------------------------------------------ references

  ghost predicate ReadRef(names: Naming, st: RefState, s: seq<Byte>, p: nat, i: nat) {
    && p < i <= |s| && s[p] == 0x26
    && match st
       case RefStart => i == p + 1
       case RefName => NameAt(names, s, p + 1, i, false)
       case CharRefStart => i == p + 2 && s[p + 1] == 0x23
       case Decimal => p + 2 < i && s[p + 1] == 0x23 && Digits10(s, p + 2, i)
       case HexStart => i == p + 3 && s[p + 1] == 0x23 && s[p + 2] == 0x78
       case Hexadecimal => p + 3 < i && s[p + 1] == 0x23 && s[p + 2] == 0x78 && Digits16(s, p + 3, i)
  }

  ghost predicate RefTokenAt(names: Naming, s: seq<Byte>, p: nat, tok: Tok, q: nat) {
    if tok == EntityRef then EntityRefAt(names, s, p, q) else tok == CharRef && CharRefAt(s, p, q)
  }

  lemma {:induction false} RefReads(names: Naming, st: RefState, s: seq<Byte>, p: nat, i: nat)
    requires ReadRef(names, st, s, p, i) && i < |s|
    ensures var r := RefStep(names, st, s, i);
            && (r.RefGo? ==> ReadRef(names, r.st, s, p, i + r.n))
            && (r.RefDone? ==> RefTokenAt(names, s, p, r.tok, i + 1))
  {
    hide NameStart, NameInner, ByteType, NameAt;
    Numeral(s[i]);
    if NameStart(names, s, i).Adv? { NameBegins(names, s, i, false); }
    if st == RefName { NameGrows(names, s, p + 1, i, false); }
    if p + 1 < |s| { assert s[p..p + 2] == [s[p], s[p + 1]]; }
  }

  lemma {:induction false} RefSound(names: Naming, st: RefState, s: seq<Byte>, p: nat, i: nat)
    requires ReadRef(names, st, s, p, i)
    ensures var v := RefRun(names, st, s, i); v.Token? ==> RefTokenAt(names, s, p, v.tok, v.next)
    decreases |s| - i
  {
    hide RefRun, RefStep, ReadRef, RefTokenAt;
    ReadRefInside(names, st, s, p, i);
    RefUnroll(names, st, s, i);
    if i < |s| {
      RefReads(names, st, s, p, i);
      var r := RefStep(names, st, s, i);
      if r.RefGo? { RefSound(names, r.st, s, p, i + r.n); }
    }
  }

  lemma ReadRefInside(names: Naming, st: RefState, s: seq<Byte>, p: nat, i: nat)
    requires ReadRef(names, st, s, p, i)
    ensures p < i <= |s|
  {
  }

  // ------------------------------------------------------------------ values and attributes

  lemma {:induction false} ValueInside(names: Naming, s: seq<Byte>, i: nat, j: nat, quote: Byte)
    requires ValueAt(names, s, i, j, quote)
    ensures i <= j <= |s|
    decreases j
  {
    if i != j {
      var k: nat :| k < j && ValueAt(names, s, i, k, quote) && PieceAt(names, s, k, j, quote);
      ValueInside(names, s, i, k, quote);
    }
  }

  lemma ValueMore(names: Naming, s: seq<Byte>, v: nat, i: nat, j: nat, open: Bt)
    requires OpenValue(names, s, v, i, open) && i < j <= |s| && PieceAt(names, s, i, j, s[v])
    ensures OpenValue(names, s, v, j, open)
  {
  }

  lemma QuoteCloses(names: Naming, s: seq<Byte>, v: nat, i: nat, open: Bt)
    requires OpenValue(names, s, v, i, open) && i < |s| && ByteType(s[i]) == open
    ensures QuotedAt(names, s, v, i + 1)
  {
    hide ByteType, ValueAt;
    Classes(s[i]);
    Classes(s[v]);
  }

  /** The closing quote makes the value, the attribute and the head that ends with it. */
  lemma {:induction false} AttCloses(names: Naming, s: seq<Byte>, p: nat, i: nat, open: Bt)
    requires ReadValue(names, s, p, i, open) && i < |s| && ByteType(s[i]) == open
    ensures ReadAtts(names, AfterValue, s, p, i + 1)
  {
    hide ByteType, EqualsAt, QNameAt, ValueAt, HeadAt, QuotedAt, AttMay;
    var n: nat, v: nat :| AttNamed(names, s, p, n) && EqualsAt(s, n, v) && OpenValue(names, s, v, i, open);
    QuoteCloses(names, s, v, i, open);
    var b: nat :| AttMay(names, s, p, b) && QNameAt(names, s, b, n);
    assert AttAt(names, s, b, i + 1);
    EqualsInside(s, n, v);
    QNameInside(names, s, b, n);
    AttEnds(names, s, p, b, i + 1);
  }

  lemma {:induction false} AttEnds(names: Naming, s: seq<Byte>, p: nat, b: nat, j: nat)
    requires AttMay(names, s, p, b) && AttAt(names, s, b, j) && b < j
    ensures exists k: nat :: HeadAt(names, s, p, k, j) && k < j
  {
    hide HeadAt, AttAt;
    var atts :| GapAt(names, s, p, b, atts);
    var k: nat, m: nat :| HeadAt(names, s, p, k, m) && atts == (k < m) && m < b && Blanks(s, m, b);
    HeadMore(names, s, p, k, m, b, j);
  }

  lemma EqualsInside(s: seq<Byte>, i: nat, j: nat)
    requires EqualsAt(s, i, j)
    ensures i < j <= |s|
  {
  }

  lemma QNameInside(names: Naming, s: seq<Byte>, i: nat, j: nat)
    requires QNameAt(names, s, i, j)
    ensures i <= j <= |s|
  {
  }

  lemma HeadMore(names: Naming, s: seq<Byte>, p: nat, k: nat, m: nat, b: nat, j: nat)
    requires HeadAt(names, s, p, k, m) && m < b < j && Blanks(s, m, b) && AttAt(names, s, b, j)
    ensures HeadAt(names, s, p, k, j) && k < j
  {
    hide QNameAt, AttAt;
  }

  lemma {:induction false} ValueReads(names: Naming, open: Bt, s: seq<Byte>, p: nat, i: nat)
    requires ReadValue(names, s, p, i, open) && i < |s|
    ensures var r := ValueStep(names, open, s, i);
            r.Go? && r.st == Value(open) ==> ReadValue(names, s, p, i + r.n, open)
  {
    hide ByteType, AnyChar, RefRun, EqualsAt, AttNamed, ValueAt;
    var n: nat, v: nat :| AttNamed(names, s, p, n) && EqualsAt(s, n, v) && OpenValue(names, s, v, i, open);
    var r := ValueStep(names, open, s, i);
    if r.Go? && r.st == Value(open) {
      PieceHere(names, s, v, i, open);
      ValueMore(names, s, v, i, i + r.n, open);
    }
  }

  lemma {:induction false} PieceHere(names: Naming, s: seq<Byte>, v: nat, i: nat, open: Bt)
    requires i < |s| && OpenValue(names, s, v, i, open)
    requires var r := ValueStep(names, open, s, i); r.Go? && r.st == Value(open)
    ensures PieceAt(names, s, i, i + ValueStep(names, open, s, i).n, s[v])
  {
    hide ByteType, AnyChar, RefRun, Text, RefAt, ValueAt, PlainAt;
    QuoteMark(s[i]);
    var r := ValueStep(names, open, s, i);
    MarkAlone(s, i);
    if s[i] == 0x26 {
      RefHere(names, s, i);
    } else {
      PlainHere(names, s, i, i + r.n, s[v]);
    }
  }

  lemma MarkAlone(s: seq<Byte>, i: nat)
    requires i < |s|
    ensures s[i] == 0x26 || s[i] == 0x3C ==> AnyChar(s, i) == Others
  {
  }

  lemma {:induction false} PlainHere(names: Naming, s: seq<Byte>, i: nat, j: nat, quote: Byte)
    requires i < |s| && !AnyChar(s, i).Fail? && j == i + Wide(s, i)
    requires s[i] != 0x26 && s[i] != 0x3C && ByteType(s[i]) != ByteType(quote) && quote < 0x80
    ensures exists c :: PlainAt(s, i, j, c, quote)
  {
    hide AnyChar, Text, ByteType;
    var c := CharThere(s, i);
    CharHere(names, s, i, j, c);
    assert PlainAt(s, i, j, c, quote);
  }

  lemma {:induction false} RefHere(names: Naming, s: seq<Byte>, i: nat)
    requires i < |s| && s[i] == 0x26
    ensures var v := RefRun(names, RefStart, s, i + 1); v.Token? ==> RefTokenAt(names, s, i, v.tok, v.next) && RefAt(names, s, i, v.next)
  {
    hide RefRun, RefTokenAt, RefAt;
    assert ReadRef(names, RefStart, s, i, i + 1);
    RefSound(names, RefStart, s, i, i + 1);
    var v := RefRun(names, RefStart, s, i + 1);
    if v.Token? { TokenIsRef(names, s, i, v.tok, v.next); }
  }

  lemma TokenIsRef(names: Naming, s: seq<Byte>, p: nat, tok: Tok, q: nat)
    requires RefTokenAt(names, s, p, tok, q)
    ensures RefAt(names, s, p, q)
  {
  }

  // ------------------------------------------------------------------ the other kinds of markup

  /** A last character of one byte is taken off. */
  lemma {:induction false} TextLast(s: seq<Byte>, i: nat, j: nat, cs: seq<nat>, c: nat)
    requires Text(s, i, j, cs) && EndsIn(cs, c) && c < 0x80
    ensures i < j && s[j - 1] == c && Text(s, i, j - 1, cs[..|cs| - 1])
  {
    hide Utf8, Encode;
    var init := cs[..|cs| - 1];
    assert cs == init + [c];
    GenxText.Utf8More(init, c);
    OneByte(c);
    assert s[i..j] == Utf8(init) + [c];
    assert s[j - 1] == s[i..j][j - 1 - i];
    assert s[i..j - 1] == s[i..j][..j - 1 - i];
  }

  lemma OneByte(c: nat)
    requires c < 0x80
    ensures Encode(c) == [c]
  {
  }

  lemma NoPairMore(cs: seq<nat>, c: nat, x: nat, y: nat)
    requires NoPair(cs, x, y) && !(EndsIn(cs, x) && c == y)
    ensures NoPair(cs + [c], x, y) && EndsIn(cs + [c], c) && (forall z :: EndsIn(cs + [c], z) <==> z == c)
  {
  }

  lemma NothingPaired(x: nat, y: nat)
    ensures NoPair([], x, y) && !EndsIn([], x)
  {
  }

  lemma NoPairLess(cs: seq<nat>, x: nat, y: nat)
    requires NoPair(cs, x, y) && EndsIn(cs, x)
    ensures NoPair(cs[..|cs| - 1], x, y) && (x == y ==> !EndsIn(cs[..|cs| - 1], x))
  {
  }

  lemma {:induction false} CommentGrows(s: seq<Byte>, p: nat, i: nat, hyphen: bool)
    requires ReadComment(s, p, i, hyphen) && i < |s| && !AnyChar(s, i).Fail? && !(hyphen && s[i] == 0x2D)
    ensures ReadComment(s, p, i + Wide(s, i), s[i] == 0x2D)
  {
    hide AnyChar, Text, NoPair, EndsIn;
    var cs :| Text(s, p + 4, i, cs) && NoPair(cs, 0x2D, 0x2D) && hyphen == EndsIn(cs, 0x2D);
    var c := CharThere(s, i);
    var j := i + Wide(s, i);
    CharHere(Naming({}, {}), s, i, j, c);
    TextMore(s, p + 4, i, j, cs, c);
    NoPairMore(cs, c, 0x2D, 0x2D);
  }

  lemma {:induction false} CommentHyphens(s: seq<Byte>, p: nat, i: nat)
    requires ReadComment(s, p, i, true) && i < |s| && s[i] == 0x2D
    ensures p + 4 < i && Stands(s, i - 1, [0x2D, 0x2D]) && ReadComment(s, p, i - 1, false)
  {
    var cs :| Text(s, p + 4, i, cs) && NoPair(cs, 0x2D, 0x2D) && EndsIn(cs, 0x2D);
    TextLast(s, p + 4, i, cs, 0x2D);
    NoPairLess(cs, 0x2D, 0x2D);
    assert s[i - 1..i + 1] == [s[i - 1], s[i]];
  }

  lemma {:induction false} CommentCloses(s: seq<Byte>, p: nat, i: nat)
    requires 2 <= i < |s| && Stands(s, i - 2, [0x2D, 0x2D]) && ReadComment(s, p, i - 2, false) && s[i] == 0x3E
    ensures CommentAt(s, p, i + 1)
  {
    var cs :| Text(s, p + 4, i - 2, cs) && NoPair(cs, 0x2D, 0x2D) && !EndsIn(cs, 0x2D);
    assert s[i - 2..i + 1] == s[i - 2..i] + [s[i]];
  }

  lemma {:induction false} PiGrows(names: Naming, s: seq<Byte>, p: nat, i: nat, tok: Tok, quest: bool)
    requires ReadPi(names, s, p, i, tok, quest) && i < |s| && !AnyChar(s, i).Fail? && !(quest && s[i] == 0x3E)
    ensures ReadPi(names, s, p, i + Wide(s, i), tok, s[i] == 0x3F)
  {
    hide AnyChar, Text, NoPair, EndsIn, TargetOf;
    var k: nat :| TargetOf(names, s, p + 2, k, tok) && OpenPi(s, k, i, quest);
    var cs :| Text(s, k + 1, i, cs) && NoPair(cs, 0x3F, 0x3E) && quest == EndsIn(cs, 0x3F);
    var c := CharThere(s, i);
    var j := i + Wide(s, i);
    CharHere(Naming({}, {}), s, i, j, c);
    TextMore(s, k + 1, i, j, cs, c);
    NoPairMore(cs, c, 0x3F, 0x3E);
    assert OpenPi(s, k, j, s[i] == 0x3F);
  }

  lemma {:induction false} PiCloses(names: Naming, s: seq<Byte>, p: nat, i: nat, tok: Tok)
    requires ReadPi(names, s, p, i, tok, true) && i < |s| && s[i] == 0x3E
    ensures tok in {Pi, XmlDecl} && PiAt(names, s, p, i + 1, tok == XmlDecl)
  {
    hide NoPair, TargetAt;
    var k: nat :| TargetOf(names, s, p + 2, k, tok) && OpenPi(s, k, i, true);
    var cs :| Text(s, k + 1, i, cs) && NoPair(cs, 0x3F, 0x3E) && EndsIn(cs, 0x3F);
    TextLast(s, k + 1, i, cs, 0x3F);
    NoPairLess(cs, 0x3F, 0x3E);
    assert PiData(s, k, i - 1);
    TargetInside(names, s, p + 2, k, tok);
    assert s[i - 1..i + 1] == [s[i - 1], s[i]];
  }

  lemma TargetInside(names: Naming, s: seq<Byte>, i: nat, k: nat, tok: Tok)
    requires TargetOf(names, s, i, k, tok)
    ensures i <= k <= |s|
  {
  }

  /** The target ends: at once, or before a blank. */
  lemma {:induction false} TargetEnds(names: Naming, s: seq<Byte>, p: nat, i: nat, target: seq<Byte>)
    requires ReadOther(names, PiName(target), s, p, i) && i < |s| && PiTarget(target) != Invalid
    ensures s[i] == 0x3F ==> ReadOther(names, PiNameEnd(PiTarget(target)), s, p, i + 1)
    ensures Blank(s[i]) ==> ReadOther(names, PiBody(PiTarget(target)), s, p, i + 1)
  {
    hide NameAt;
    assert TargetOf(names, s, p + 2, i, PiTarget(target));
    NameInside(names, s, p + 2, i, false);
    if Blank(s[i]) {
      TextNone(s, i + 1);
      NothingPaired(0x3F, 0x3E);
      assert OpenPi(s, i, i + 1, false);
    }
  }

  lemma NameInside(names: Naming, s: seq<Byte>, i: nat, j: nat, colons: bool)
    requires NameAt(names, s, i, j, colons)
    ensures i < j <= |s|
  {
    var cs :| Text(s, i, j, cs) && Named(names, cs, colons);
    var k := TextFront(s, i, j, cs);
  }

  lemma {:induction false} PiClosesAtOnce(names: Naming, s: seq<Byte>, p: nat, i: nat, tok: Tok)
    requires ReadOther(names, PiNameEnd(tok), s, p, i) && i < |s| && s[i] == 0x3E
    ensures tok in {Pi, XmlDecl} && PiAt(names, s, p, i + 1, tok == XmlDecl)
  {
    hide NameAt;
    NameInside(names, s, p + 2, i - 1, false);
    assert PiData(s, i - 1, i - 1);
    assert s[i - 1..i + 1] == [s[i - 1], s[i]];
  }

  lemma CommentOpens(s: seq<Byte>, p: nat)
    requires Stands(s, p, COMMENT_OPEN)
    ensures ReadComment(s, p, p + 4, false)
  {
    TextNone(s, p + 4);
    NothingPaired(0x2D, 0x2D);
  }

  lemma CdataOpens(s: seq<Byte>, p: nat)
    requires Stands(s, p, [0x3C, 0x21, 0x5B])
    ensures |s| - (p + 3) >= 6 ==> (s[p + 3..p + 9] == CDATA_LSQB <==> Stands(s, p, CDATA_OPEN))
  {
    if |s| - (p + 3) >= 6 {
      var w := s[p..p + 9];
      assert w[..3] == s[p..p + 3] && w[3..] == s[p + 3..p + 9] && w == w[..3] + w[3..];
      assert CDATA_OPEN[3..] == CDATA_LSQB;
      assert CDATA_OPEN == [0x3C, 0x21, 0x5B] + CDATA_LSQB;
    }
  }

  lemma Multibyte(s: seq<Byte>, i: nat)
    requires i < |s| && AnyChar(s, i).Adv?
    ensures s[i] >= 0x80
  {
  }

  lemma NoBlanks(s: seq<Byte>, i: nat)
    requires i <= |s|
    ensures Blanks(s, i, i)
  {
  }

  lemma BlanksInside(s: seq<Byte>, i: nat, j: nat)
    requires Blanks(s, i, j)
    ensures i <= j <= |s|
  {
  }

  // ------------------------------------------------------------------ the steps one by one

  predicate Inside(s: seq<Byte>, p: nat, i: nat) {
    p < i < |s| && s[p] == 0x3C
  }

  lemma TagIs(names: Naming, s: seq<Byte>, p: nat, i: nat, colon: bool)
    requires p < i <= |s| && s[p] == 0x3C
    ensures Read(names, TagName(colon), s, p, i) <==> NamePart(names, s, p + 1, i, colon)
    ensures Read(names, TagColon, s, p, i) <==> ColonAt(names, s, p + 1, i)
    ensures Read(names, TagSpace, s, p, i) <==> GapAt(names, s, p, i, false)
    ensures Read(names, TagSlash, s, p, i) <==> SlashAt(names, s, p, i, false)
  {
    hide NamePart, ColonAt, GapAt, SlashAt;
  }

  lemma AttIs(names: Naming, s: seq<Byte>, p: nat, i: nat, st: Scan)
    requires p < i <= |s| && s[p] == 0x3C && InAtts(st)
    ensures Read(names, st, s, p, i) <==> ReadAtts(names, st, s, p, i)
  {
    hide ReadAtts;
  }

  lemma GapIs(names: Naming, s: seq<Byte>, p: nat, i: nat)
    ensures ReadAtts(names, AttGap, s, p, i) <==> GapAt(names, s, p, i, true)
    ensures ReadAtts(names, AttSlash, s, p, i) <==> SlashAt(names, s, p, i, true)
    ensures ReadAtts(names, AfterValue, s, p, i) <==> exists k: nat :: HeadAt(names, s, p, k, i) && k < i
  {
    hide HeadAt, GapAt, SlashAt;
  }

  lemma CommentIs(names: Naming, s: seq<Byte>, p: nat, i: nat, hyphen: bool)
    requires p < i <= |s| && s[p] == 0x3C
    ensures Read(names, CommentState(hyphen), s, p, i) <==> ReadComment(s, p, i, hyphen)
    ensures Read(names, CommentEnd, s, p, i) <==> 2 <= i && Stands(s, i - 2, [0x2D, 0x2D]) && ReadComment(s, p, i - 2, false)
  {
    hide ReadComment, Stands;
  }

  function CommentState(hyphen: bool): Scan {
    if hyphen then InCommentMinus else InComment
  }

  lemma PiIs(names: Naming, s: seq<Byte>, p: nat, i: nat, tok: Tok, quest: bool)
    requires p < i <= |s| && s[p] == 0x3C
    ensures Read(names, PiState(tok, quest), s, p, i) <==> ReadPi(names, s, p, i, tok, quest)
    ensures Read(names, PiNameEnd(tok), s, p, i) <==> ReadOther(names, PiNameEnd(tok), s, p, i)
  {
    hide ReadPi, Stands, TargetOf;
  }

  function PiState(tok: Tok, quest: bool): Scan {
    if quest then PiQuest(tok) else PiBody(tok)
  }

  lemma OpenIs(names: Naming, s: seq<Byte>, p: nat, i: nat, target: seq<Byte>)
    requires p < i <= |s| && s[p] == 0x3C
    ensures Read(names, PiName(target), s, p, i) <==> ReadOther(names, PiName(target), s, p, i)
    ensures Read(names, PiStart, s, p, i) <==> i == p + 2 && Stands(s, p, [0x3C, 0x3F])
    ensures Read(names, EndStart, s, p, i) <==> i == p + 2 && Stands(s, p, [0x3C, 0x2F])
    ensures Read(names, EndName, s, p, i) <==> Stands(s, p, [0x3C, 0x2F]) && NameAt(names, s, p + 2, i, true)
    ensures Read(names, EndSpace, s, p, i) <==> Stands(s, p, [0x3C, 0x2F]) && BlanksAfterName(names, s, p + 2, i)
    ensures Read(names, AfterExcl, s, p, i) <==> i == p + 2 && Stands(s, p, [0x3C, 0x21])
    ensures Read(names, CommentStart, s, p, i) <==> i == p + 3 && Stands(s, p, [0x3C, 0x21, 0x2D])
    ensures Read(names, Cdata, s, p, i) <==> i == p + 3 && Stands(s, p, [0x3C, 0x21, 0x5B])
  {
    hide NameAt, BlanksAfterName, Stands;
  }

  lemma {:induction false} AfterLtReads(names: Naming, s: seq<Byte>, p: nat)
    requires p + 1 < |s| && s[p] == 0x3C
    ensures Keeps(names, TagStep(names, AfterLt, s, p + 1), s, p, p + 1)
  {
    hide NameStart, NameInner, ByteType, NameAt, Read, Stands, MarkupAt, NamePart;
    if NameStart(names, s, p + 1).Adv? {
      var j := p + 1 + NameStart(names, s, p + 1).n;
      NameBegins(names, s, p + 1, false);
      NameIsPart(names, s, p + 1, j);
      TagIs(names, s, p, j, false);
    } else {
      LtMark(s[p + 1]);
      FirstTwo(s, p);
      SecondIs(names, s, p);
    }
  }

  lemma LtMark(b: Byte)
    ensures var t := ByteType(b); (t == Excl <==> b == 0x21) && (t == Quest <==> b == 0x3F) && (t == Sol <==> b == 0x2F)
  {
    hide ByteType;
    Classes(b);
  }

  lemma SecondIs(names: Naming, s: seq<Byte>, p: nat)
    requires p + 2 <= |s| && s[p] == 0x3C
    ensures Read(names, PiStart, s, p, p + 2) <==> Stands(s, p, [0x3C, 0x3F])
    ensures Read(names, EndStart, s, p, p + 2) <==> Stands(s, p, [0x3C, 0x2F])
    ensures Read(names, AfterExcl, s, p, p + 2) <==> Stands(s, p, [0x3C, 0x21])
  {
    hide Stands;
  }

  lemma FirstTwo(s: seq<Byte>, p: nat)
    requires p + 2 <= |s|
    ensures forall b: Byte, c: Byte :: Stands(s, p, [b, c]) <==> s[p] == b && s[p + 1] == c
  {
    assert s[p..p + 2] == [s[p], s[p + 1]];
  }

  lemma NameIsPart(names: Naming, s: seq<Byte>, i: nat, j: nat)
    requires NameAt(names, s, i, j, false)
    ensures NamePart(names, s, i, j, false)
  {
  }

  lemma {:induction false} TagNameReads(names: Naming, colon: bool, s: seq<Byte>, p: nat, i: nat)
    requires Inside(s, p, i) && NamePart(names, s, p + 1, i, colon)
    ensures Keeps(names, TagStep(names, TagName(colon), s, i), s, p, i)
  {
    hide NameInner, ByteType, NamePart, Read, MarkupAt, GapAt, SlashAt, ColonAt, StartTagAt, NameStart;
    TagMark(s[i]);
    TagIs(names, s, p, i + 1, colon);
    if NameInner(names, s, i).Adv? {
      PartGrows(names, s, p + 1, i, colon);
      TagIs(names, s, p, i + NameInner(names, s, i).n, colon);
    } else if s[i] == 0x3A {
      if !colon { ColonReads(names, s, p + 1, i); }
    } else {
      AfterTagName(names, s, p, i, colon);
    }
  }

  lemma {:induction false} AfterTagName(names: Naming, s: seq<Byte>, p: nat, i: nat, colon: bool)
    requires Inside(s, p, i) && NamePart(names, s, p + 1, i, colon)
    ensures Blank(s[i]) ==> GapAt(names, s, p, i + 1, false)
    ensures s[i] == 0x2F ==> SlashAt(names, s, p, i + 1, false)
    ensures s[i] == 0x3E ==> MarkupAt(names, s, p, StartTagNoAtts, i + 1)
  {
    hide NamePart, MarkupAt, GapAt, SlashAt, StartTagAt, HeadAt, QNameAt;
    NameIsQName(names, s, p + 1, i, colon);
    HeadOnly(names, s, p, i);
    NoBlanks(s, i);
    AfterHead(names, s, p, i, i, i);
    if s[i] == 0x3E { StartTagIsMarkup(names, s, p, i + 1, false, false); }
  }

  lemma {:induction false} TagColonReads(names: Naming, s: seq<Byte>, p: nat, i: nat)
    requires Inside(s, p, i) && ColonAt(names, s, p + 1, i)
    ensures Keeps(names, TagStep(names, TagColon, s, i), s, p, i)
  {
    hide NameStart, ByteType, ColonAt, Prefixed, NamePart, Read, MarkupAt, NameInner;
    if NameStart(names, s, i).Adv? {
      var j := i + NameStart(names, s, i).n;
      PrefixedBegins(names, s, p + 1, i);
      PrefixedPart(names, s, p + 1, j);
      TagIs(names, s, p, j, true);
    }
  }

  lemma {:induction false} TagSpaceReads(names: Naming, s: seq<Byte>, p: nat, i: nat)
    requires Inside(s, p, i) && GapAt(names, s, p, i, false)
    ensures Keeps(names, TagStep(names, TagSpace, s, i), s, p, i)
  {
    hide NameStart, ByteType, GapAt, SlashAt, StartTagAt, MarkupAt, Read, NamePart, ReadAtts, NameInner;
    TagMark(s[i]);
    AfterGap(names, s, p, i, false);
    TagIs(names, s, p, i + 1, false);
    if s[i] == 0x3E { StartTagIsMarkup(names, s, p, i + 1, false, false); }
    if NameStart(names, s, i).Adv? { AttStarts(names, s, p, i, false); }
  }

  lemma {:induction false} TagSlashReads(names: Naming, s: seq<Byte>, p: nat, i: nat)
    requires Inside(s, p, i) && SlashAt(names, s, p, i, false)
    ensures Keeps(names, TagStep(names, TagSlash, s, i), s, p, i)
  {
    hide SlashAt, StartTagAt, MarkupAt, Read, ByteType, NameStart, NameInner;
    if s[i] == 0x3E {
      AfterSlash(names, s, p, i, false);
      StartTagIsMarkup(names, s, p, i + 1, false, true);
    }
  }

  lemma {:induction false} TagReads(names: Naming, st: Scan, s: seq<Byte>, p: nat, i: nat)
    requires Read(names, st, s, p, i) && i < |s| && InTag(st)
    ensures Keeps(names, TagStep(names, st, s, i), s, p, i)
  {
    hide TagStep, Keeps, NamePart, ColonAt, GapAt, SlashAt, ReadAtts, ReadOther;
    match st {
      case AfterLt => AfterLtReads(names, s, p);
      case TagName(colon) => TagNameReads(names, colon, s, p, i);
      case TagColon => TagColonReads(names, s, p, i);
      case TagSpace => TagSpaceReads(names, s, p, i);
      case TagSlash => TagSlashReads(names, s, p, i);
    }
  }

  lemma {:induction false} ValueKeeps(names: Naming, open: Bt, s: seq<Byte>, p: nat, i: nat)
    requires Inside(s, p, i) && ReadAtts(names, Value(open), s, p, i)
    ensures Keeps(names, ValueStep(names, open, s, i), s, p, i)
  {
    hide Read, MarkupAt, ReadValue, ByteType, AnyChar, RefRun, ReadAtts;
    ValueIs(names, open, s, p, i);
    if ByteType(s[i]) == open {
      AttCloses(names, s, p, i, open);
      AttIs(names, s, p, i + 1, AfterValue);
    } else {
      ValueReads(names, open, s, p, i);
      var r := ValueStep(names, open, s, i);
      if r.Go? {
        ValueIs(names, open, s, p, i + r.n);
        AttIs(names, s, p, i + r.n, Value(open));
      }
    }
  }

  lemma ValueIs(names: Naming, open: Bt, s: seq<Byte>, p: nat, i: nat)
    ensures ReadAtts(names, Value(open), s, p, i) <==> ReadValue(names, s, p, i, open)
  {
    hide ReadValue;
  }

  lemma {:induction false} AfterValueReads(names: Naming, s: seq<Byte>, p: nat, i: nat)
    requires Inside(s, p, i) && ReadAtts(names, AfterValue, s, p, i)
    ensures Keeps(names, AttStep(names, AfterValue, s, i), s, p, i)
  {
    hide HeadAt, GapAt, SlashAt, StartTagAt, MarkupAt, Read, ReadAtts, ByteType, NameStart, NameInner, ValueStep;
    TagMark(s[i]);
    GapIs(names, s, p, i);
    AttGapIs(names, s, p, i + 1);
    var k: nat :| HeadAt(names, s, p, k, i) && k < i;
    NoBlanks(s, i);
    AfterHead(names, s, p, k, i, i);
    if s[i] == 0x3E { StartTagIsMarkup(names, s, p, i + 1, true, false); }
  }

  lemma {:induction false} AttGapReads(names: Naming, s: seq<Byte>, p: nat, i: nat)
    requires Inside(s, p, i) && GapAt(names, s, p, i, true)
    ensures Keeps(names, AttStep(names, AttGap, s, i), s, p, i)
  {
    hide NameStart, NameInner, ValueStep, ByteType, GapAt, SlashAt, StartTagAt, MarkupAt, Read;
    TagMark(s[i]);
    if NameStart(names, s, i).Adv? {
      AttStarts(names, s, p, i, true);
    } else {
      AfterGap(names, s, p, i, true);
      AttGapIs(names, s, p, i + 1);
      if s[i] == 0x3E { StartTagIsMarkup(names, s, p, i + 1, true, false); }
    }
  }

  lemma AttGapIs(names: Naming, s: seq<Byte>, p: nat, i: nat)
    requires p < i <= |s| && s[p] == 0x3C
    ensures Read(names, AttGap, s, p, i) <==> GapAt(names, s, p, i, true)
    ensures Read(names, AttSlash, s, p, i) <==> SlashAt(names, s, p, i, true)
  {
    hide GapAt, SlashAt;
  }

  lemma {:induction false} AttSlashReads(names: Naming, s: seq<Byte>, p: nat, i: nat)
    requires Inside(s, p, i) && SlashAt(names, s, p, i, true)
    ensures Keeps(names, AttStep(names, AttSlash, s, i), s, p, i)
  {
    hide SlashAt, StartTagAt, MarkupAt, Read, ByteType, NameStart, NameInner, ValueStep;
    if s[i] == 0x3E {
      AfterSlash(names, s, p, i, true);
      StartTagIsMarkup(names, s, p, i + 1, true, true);
    }
  }

  lemma {:induction false} AttStarts(names: Naming, s: seq<Byte>, p: nat, i: nat, atts: bool)
    requires Inside(s, p, i) && GapAt(names, s, p, i, atts) && NameStart(names, s, i).Adv?
    ensures Read(names, AttName(false), s, p, i + NameStart(names, s, i).n)
  {
    hide GapAt, NameAt, NameStart;
    NameBegins(names, s, i, false);
    assert AttMay(names, s, p, i);
    var j := i + NameStart(names, s, i).n;
    NameIsPart(names, s, i, j);
    assert ReadAtts(names, AttName(false), s, p, j);
    AttIs(names, s, p, j, AttName(false));
  }

  lemma {:induction false} AttNameKeeps(names: Naming, colon: bool, s: seq<Byte>, p: nat, i: nat)
    requires Inside(s, p, i) && ReadAtts(names, AttName(colon), s, p, i)
    ensures Keeps(names, AttStep(names, AttName(colon), s, i), s, p, i)
  {
    hide AttStep, ReadAtts, Read, MarkupAt;
    AttNameReads(names, colon, s, p, i);
    var r := AttStep(names, AttName(colon), s, i);
    if r.Go? { AttIs(names, s, p, i + r.n, r.st); }
  }

  lemma {:induction false} AttColonKeeps(names: Naming, s: seq<Byte>, p: nat, i: nat)
    requires Inside(s, p, i) && ReadAtts(names, AttColon, s, p, i)
    ensures Keeps(names, AttStep(names, AttColon, s, i), s, p, i)
  {
    hide NameStart, ReadAtts, Read, MarkupAt, ByteType, NameInner, ValueStep;
    if NameStart(names, s, i).Adv? {
      AttColonReads(names, s, p, i);
      AttIs(names, s, p, i + NameStart(names, s, i).n, AttName(true));
    }
  }

  lemma {:induction false} AttSpaceKeeps(names: Naming, s: seq<Byte>, p: nat, i: nat)
    requires Inside(s, p, i) && ReadAtts(names, AttSpace, s, p, i)
    ensures Keeps(names, AttStep(names, AttSpace, s, i), s, p, i)
  {
    hide ReadAtts, Read, MarkupAt, ByteType, NameStart, NameInner, ValueStep;
    TagMark(s[i]);
    AttSpaceReads(names, s, p, i);
    AttIs(names, s, p, i + 1, AttSpace);
    AttIs(names, s, p, i + 1, AttEquals);
  }

  lemma {:induction false} AttEqualsKeeps(names: Naming, s: seq<Byte>, p: nat, i: nat)
    requires Inside(s, p, i) && ReadAtts(names, AttEquals, s, p, i)
    ensures Keeps(names, AttStep(names, AttEquals, s, i), s, p, i)
  {
    hide ReadAtts, Read, MarkupAt, ByteType, NameStart, NameInner, ValueStep;
    Classes(s[i]);
    AttEqualsReads(names, s, p, i);
    AttIs(names, s, p, i + 1, AttEquals);
    AttIs(names, s, p, i + 1, Value(ByteType(s[i])));
  }

  lemma {:induction false} AttReads(names: Naming, st: Scan, s: seq<Byte>, p: nat, i: nat)
    requires Inside(s, p, i) && InAtts(st) && ReadAtts(names, st, s, p, i)
    ensures Keeps(names, AttStep(names, st, s, i), s, p, i)
  {
    hide Keeps, GapAt, SlashAt, HeadAt, ValueStep, ReadAtts;
    GapIs(names, s, p, i);
    match st {
      case AttName(colon) => AttNameKeeps(names, colon, s, p, i);
      case AttColon => AttColonKeeps(names, s, p, i);
      case AttSpace => AttSpaceKeeps(names, s, p, i);
      case AttEquals => AttEqualsKeeps(names, s, p, i);
      case Value(open) => ValueKeeps(names, open, s, p, i);
      case AfterValue => AfterValueReads(names, s, p, i);
      case AttGap => AttGapReads(names, s, p, i);
      case AttSlash => AttSlashReads(names, s, p, i);
    }
  }

  lemma {:induction false} ExclReads(names: Naming, s: seq<Byte>, p: nat, i: nat)
    requires Inside(s, p, i) && i == p + 2 && Stands(s, p, [0x3C, 0x21])
    ensures Keeps(names, OtherStep(names, AfterExcl, s, i), s, p, i)
  {
    hide ByteType, Read, MarkupAt, NameStart, NameInner, AnyChar, CommentStep, PiStep, PiTarget;
    Classes(s[i]);
    assert s[p..i + 1] == s[p..i] + [s[i]];
    OpenIs(names, s, p, i + 1, []);
  }

  lemma {:induction false} CommentStartReads(names: Naming, s: seq<Byte>, p: nat, i: nat)
    requires Inside(s, p, i) && i == p + 3 && Stands(s, p, [0x3C, 0x21, 0x2D])
    ensures Keeps(names, OtherStep(names, CommentStart, s, i), s, p, i)
  {
    hide ByteType, Read, MarkupAt, ReadComment, NameStart, NameInner, AnyChar, CommentStep, PiStep, PiTarget;
    assert s[p..i + 1] == s[p..i] + [s[i]];
    if s[i] == 0x2D {
      CommentOpens(s, p);
      CommentIs(names, s, p, i + 1, false);
    }
  }

  lemma {:induction false} CdataReads(names: Naming, s: seq<Byte>, p: nat, i: nat)
    requires Inside(s, p, i) && i == p + 3 && Stands(s, p, [0x3C, 0x21, 0x5B])
    ensures Keeps(names, OtherStep(names, Cdata, s, i), s, p, i)
  {
    hide ByteType, Read, CommentAt, PiAt, EndTagAt, StartTagAt, Stands, NameStart, NameInner, AnyChar, CommentStep, PiStep, PiTarget;
    CdataOpens(s, p);
  }

  lemma {:induction false} PiStartReads(names: Naming, s: seq<Byte>, p: nat, i: nat)
    requires Inside(s, p, i) && i == p + 2 && Stands(s, p, [0x3C, 0x3F])
    ensures Keeps(names, OtherStep(names, PiStart, s, i), s, p, i)
  {
    hide ByteType, Read, MarkupAt, NameStart, NameAt, Stands, NameInner, AnyChar, CommentStep, PiStep, PiTarget;
    if NameStart(names, s, i).Adv? {
      var j := i + NameStart(names, s, i).n;
      NameBegins(names, s, i, false);
      OpenIs(names, s, p, j, s[i..j]);
    }
  }

  lemma {:induction false} EndStartReads(names: Naming, s: seq<Byte>, p: nat, i: nat)
    requires Inside(s, p, i) && i == p + 2 && Stands(s, p, [0x3C, 0x2F])
    ensures Keeps(names, OtherStep(names, EndStart, s, i), s, p, i)
  {
    hide ByteType, Read, MarkupAt, NameStart, NameAt, Stands, NameInner, AnyChar, CommentStep, PiStep, PiTarget;
    if NameStart(names, s, i).Adv? {
      var j := i + NameStart(names, s, i).n;
      NameBegins(names, s, i, true);
      OpenIs(names, s, p, j, []);
    }
  }

  lemma OpenedIs(names: Naming, st: Scan, s: seq<Byte>, p: nat, i: nat)
    requires Read(names, st, s, p, i)
    ensures p < i <= |s| && s[p] == 0x3C
  {
    hide ReadTag, ReadAtts, ReadOther;
  }

  lemma {:induction false} OpenReads(names: Naming, st: Scan, s: seq<Byte>, p: nat, i: nat)
    requires Read(names, st, s, p, i) && i < |s| && (st.AfterExcl? || st.CommentStart? || st.Cdata? || st.PiStart? || st.EndStart?)
    ensures Keeps(names, OtherStep(names, st, s, i), s, p, i)
  {
    hide OtherStep, Keeps, Read, Stands, NameAt;
    OpenedIs(names, st, s, p, i);
    OpenIs(names, s, p, i, []);
    match st {
      case AfterExcl => ExclReads(names, s, p, i);
      case CommentStart => CommentStartReads(names, s, p, i);
      case Cdata => CdataReads(names, s, p, i);
      case PiStart => PiStartReads(names, s, p, i);
      case EndStart => EndStartReads(names, s, p, i);
    }
  }

  /** The step inside a comment, and inside an instruction. */
  lemma CommentSteps(s: seq<Byte>, i: nat)
    requires i < |s|
    ensures CommentStep(s, i) == match AnyChar(s, i) case Fail(tok) => Stop(tok) case _ => Go(CommentState(s[i] == 0x2D), Wide(s, i))
  {
    hide AnyChar, ByteType;
    Classes(s[i]);
    if AnyChar(s, i).Adv? { Multibyte(s, i); }
  }

  lemma PiSteps(tok: Tok, s: seq<Byte>, i: nat)
    requires i < |s|
    ensures PiStep(tok, s, i) == match AnyChar(s, i) case Fail(tok) => Stop(tok) case _ => Go(PiState(tok, s[i] == 0x3F), Wide(s, i))
  {
    hide AnyChar, ByteType;
    Classes(s[i]);
    if AnyChar(s, i).Adv? { Multibyte(s, i); }
  }

  lemma InComments(names: Naming, s: seq<Byte>, i: nat, hyphen: bool)
    requires i < |s|
    ensures Step(names, CommentState(hyphen), s, i) == if hyphen && s[i] == 0x2D then Go(CommentEnd, 1) else CommentStep(s, i)
  {
    hide CommentStep, ByteType;
  }

  lemma InPis(names: Naming, tok: Tok, s: seq<Byte>, i: nat, quest: bool)
    requires i < |s|
    ensures Step(names, PiState(tok, quest), s, i) == if quest && s[i] == 0x3E then Done(tok, 1) else PiStep(tok, s, i)
  {
    hide PiStep, ByteType;
  }

  lemma {:induction false} CommentReads(names: Naming, s: seq<Byte>, p: nat, i: nat, hyphen: bool)
    requires Inside(s, p, i) && ReadComment(s, p, i, hyphen)
    ensures Keeps(names, Step(names, CommentState(hyphen), s, i), s, p, i)
  {
    hide Step, AnyChar, CommentStep, Read, ReadComment, MarkupAt, Stands, CommentState, Wide;
    InComments(names, s, i, hyphen);
    if hyphen && s[i] == 0x2D {
      CommentHyphens(s, p, i);
      CommentIs(names, s, p, i + 1, true);
    } else {
      CommentSteps(s, i);
      if !AnyChar(s, i).Fail? {
        CommentGrows(s, p, i, hyphen);
        CharWide(s, i);
        CommentIs(names, s, p, i + Wide(s, i), s[i] == 0x2D);
      }
    }
  }

  lemma CharWide(s: seq<Byte>, i: nat)
    requires i < |s|
    ensures 0 < Wide(s, i) && i + Wide(s, i) <= |s|
  {
  }

  lemma {:induction false} CommentEndReads(names: Naming, s: seq<Byte>, p: nat, i: nat)
    requires Inside(s, p, i) && 2 <= i && Stands(s, i - 2, [0x2D, 0x2D]) && ReadComment(s, p, i - 2, false)
    ensures Keeps(names, OtherStep(names, CommentEnd, s, i), s, p, i)
  {
    hide Read, ReadComment, Stands, CommentAt, PiAt, EndTagAt, StartTagAt, ByteType, NameStart, NameInner, AnyChar, CommentStep, PiStep, PiTarget;
    if s[i] == 0x3E { CommentCloses(s, p, i); }
  }

  lemma {:induction false} PiReads(names: Naming, s: seq<Byte>, p: nat, i: nat, tok: Tok, quest: bool)
    requires Inside(s, p, i) && ReadPi(names, s, p, i, tok, quest)
    ensures Keeps(names, Step(names, PiState(tok, quest), s, i), s, p, i)
  {
    hide Step, AnyChar, PiStep, Read, ReadPi, PiState, Wide, PiAt, CommentAt, EndTagAt, StartTagAt;
    InPis(names, tok, s, i, quest);
    if quest && s[i] == 0x3E {
      PiCloses(names, s, p, i, tok);
    } else {
      PiSteps(tok, s, i);
      if !AnyChar(s, i).Fail? {
        PiGrows(names, s, p, i, tok, quest);
        CharWide(s, i);
        PiIs(names, s, p, i + Wide(s, i), tok, s[i] == 0x3F);
      }
    }
  }

  lemma {:induction false} TargetGrows(names: Naming, s: seq<Byte>, p: nat, i: nat, target: seq<Byte>)
    requires Inside(s, p, i) && ReadOther(names, PiName(target), s, p, i) && NameInner(names, s, i).Adv?
    ensures var j := i + NameInner(names, s, i).n; ReadOther(names, PiName(target + s[i..j]), s, p, j)
  {
    hide NameInner, NameAt, Stands;
    var j := i + NameInner(names, s, i).n;
    NameGrows(names, s, p + 2, i, false);
    assert s[p + 2..j] == target + s[i..j];
  }

  lemma {:induction false} PiNameReads(names: Naming, s: seq<Byte>, p: nat, i: nat, target: seq<Byte>)
    requires Inside(s, p, i) && ReadOther(names, PiName(target), s, p, i)
    ensures Keeps(names, OtherStep(names, PiName(target), s, i), s, p, i)
  {
    hide ByteType, MarkupAt, NameInner, NameStart, AnyChar, CommentStep, PiStep, PiTarget, Read, ReadOther;
    QuestMark(s[i]);
    if NameInner(names, s, i).Adv? {
      var j := i + NameInner(names, s, i).n;
      TargetGrows(names, s, p, i, target);
      PiNameIs(names, s, p, j, target + s[i..j]);
    } else if PiTarget(target) != Invalid {
      TargetEnds(names, s, p, i, target);
      TargetIs(names, s, p, i + 1, PiTarget(target));
    }
  }

  lemma QuestMark(b: Byte)
    ensures var t := ByteType(b); (Space(t) <==> Blank(b)) && (t == Quest <==> b == 0x3F)
  {
    hide ByteType;
    Classes(b);
  }

  lemma PiNameIs(names: Naming, s: seq<Byte>, p: nat, i: nat, target: seq<Byte>)
    requires p < i <= |s| && s[p] == 0x3C
    ensures Read(names, PiName(target), s, p, i) <==> ReadOther(names, PiName(target), s, p, i)
  {
    hide ReadOther;
  }

  lemma TargetIs(names: Naming, s: seq<Byte>, p: nat, i: nat, tok: Tok)
    requires p < i <= |s| && s[p] == 0x3C
    ensures Read(names, PiNameEnd(tok), s, p, i) <==> ReadOther(names, PiNameEnd(tok), s, p, i)
    ensures Read(names, PiBody(tok), s, p, i) <==> ReadOther(names, PiBody(tok), s, p, i)
  {
    hide ReadOther;
  }

  lemma {:induction false} PiNameEndReads(names: Naming, s: seq<Byte>, p: nat, i: nat, tok: Tok)
    requires Inside(s, p, i) && ReadOther(names, PiNameEnd(tok), s, p, i)
    ensures Keeps(names, OtherStep(names, PiNameEnd(tok), s, i), s, p, i)
  {
    hide ByteType, ReadOther, PiAt, CommentAt, EndTagAt, StartTagAt, Read, NameStart, NameInner, AnyChar, CommentStep, PiStep, PiTarget;
    if s[i] == 0x3E { PiClosesAtOnce(names, s, p, i, tok); }
  }

  lemma EndIs(names: Naming, s: seq<Byte>, p: nat, i: nat)
    requires p < i <= |s| && s[p] == 0x3C && Stands(s, p, [0x3C, 0x2F])
    ensures NameAt(names, s, p + 2, i, true) ==> Read(names, EndName, s, p, i)
    ensures BlanksAfterName(names, s, p + 2, i) ==> Read(names, EndSpace, s, p, i)
  {
    hide NameAt, BlanksAfterName, Stands;
  }

  lemma {:induction false} AfterEndName(names: Naming, s: seq<Byte>, p: nat, k: nat, i: nat)
    requires Stands(s, p, [0x3C, 0x2F]) && NameAt(names, s, p + 2, k, true) && Blanks(s, k, i) && i < |s|
    ensures Blank(s[i]) ==> BlanksAfterName(names, s, p + 2, i + 1)
    ensures s[i] == 0x3E ==> MarkupAt(names, s, p, EndTag, i + 1)
  {
    hide NameAt, Stands, MarkupAt;
    NameInside(names, s, p + 2, k, true);
    if Blank(s[i]) { BlankMore(s, k, i); }
    if s[i] == 0x3E { EndTagIsMarkup(names, s, p, i + 1); }
  }

  lemma {:induction false} EndNameReads(names: Naming, s: seq<Byte>, p: nat, i: nat)
    requires Inside(s, p, i) && Stands(s, p, [0x3C, 0x2F]) && NameAt(names, s, p + 2, i, true)
    ensures Keeps(names, OtherStep(names, EndName, s, i), s, p, i)
  {
    hide ByteType, NameInner, NameAt, Read, Stands, MarkupAt, BlanksAfterName, NameStart, AnyChar, CommentStep, PiStep, PiTarget;
    TagMark(s[i]);
    NoBlanks(s, i);
    AfterEndName(names, s, p, i, i);
    NameGrows(names, s, p + 2, i, true);
    EndIs(names, s, p, i + 1);
    if NameInner(names, s, i).Adv? { EndIs(names, s, p, i + NameInner(names, s, i).n); }
  }

  lemma EndTagIsMarkup(names: Naming, s: seq<Byte>, p: nat, q: nat)
    requires EndTagAt(names, s, p, q)
    ensures MarkupAt(names, s, p, EndTag, q)
  {
    hide EndTagAt;
  }

  lemma {:induction false} EndSpaceReads(names: Naming, s: seq<Byte>, p: nat, i: nat)
    requires Inside(s, p, i) && Stands(s, p, [0x3C, 0x2F]) && BlanksAfterName(names, s, p + 2, i)
    ensures Keeps(names, OtherStep(names, EndSpace, s, i), s, p, i)
  {
    hide ByteType, NameAt, Read, Stands, MarkupAt, Blanks, NameStart, NameInner, AnyChar, CommentStep, PiStep, PiTarget;
    TagMark(s[i]);
    var k: nat :| NameAt(names, s, p + 2, k, true) && Blanks(s, k, i);
    AfterEndName(names, s, p, k, i);
    EndIs(names, s, p, i + 1);
  }

  lemma {:induction false} BodyReads(names: Naming, st: Scan, s: seq<Byte>, p: nat, i: nat)
    requires Read(names, st, s, p, i) && i < |s| && !InTag(st) && !InAtts(st)
    ensures Keeps(names, Step(names, st, s, i), s, p, i)
  {
    hide OtherStep, Keeps, Read, Stands, NameAt, ReadComment, ReadPi, TargetOf, BlanksAfterName, ReadOther;
    OpenedIs(names, st, s, p, i);
    OpenIs(names, s, p, i, if st.PiName? then st.target else []);
    match st {
      case InComment => CommentIs(names, s, p, i, false); CommentReads(names, s, p, i, false);
      case InCommentMinus => CommentIs(names, s, p, i, true); CommentReads(names, s, p, i, true);
      case CommentEnd => CommentIs(names, s, p, i, true); CommentEndReads(names, s, p, i);
      case PiName(target) => PiNameReads(names, s, p, i, target);
      case PiNameEnd(tok) => PiIs(names, s, p, i, tok, true); PiNameEndReads(names, s, p, i, tok);
      case PiBody(tok) => PiIs(names, s, p, i, tok, false); PiReads(names, s, p, i, tok, false);
      case PiQuest(tok) => PiIs(names, s, p, i, tok, true); PiReads(names, s, p, i, tok, true);
      case EndName => EndNameReads(names, s, p, i);
      case EndSpace => EndSpaceReads(names, s, p, i);
      case _ => OpenReads(names, st, s, p, i);
    }
  }

  lemma {:induction false} StepReads(names: Naming, st: Scan, s: seq<Byte>, p: nat, i: nat)
    requires Read(names, st, s, p, i) && i < |s|
    ensures Keeps(names, Step(names, st, s, i), s, p, i)
  {
    hide TagStep, AttStep, OtherStep, Read, Keeps, ReadAtts;
    OpenedIs(names, st, s, p, i);
    if InTag(st) {
      TagReads(names, st, s, p, i);
    } else if InAtts(st) {
      AttIs(names, s, p, i, st);
      AttReads(names, st, s, p, i);
    } else {
      BodyReads(names, st, s, p, i);
    }
  }

  /** Whatever the automaton makes of markup, the bytes of it are there. */
  lemma {:induction false} RunSound(names: Naming, st: Scan, s: seq<Byte>, p: nat, i: nat)
    requires i <= |s| && Read(names, st, s, p, i)
    ensures var v := Run(names, st, s, i); v.Token? ==> MarkupAt(names, s, p, v.tok, v.next)
    decreases |s| - i
  {
    hide Run, Step, Read, MarkupAt;
    Unroll(names, st, s, i);
    if i < |s| {
      StepReads(names, st, s, p, i);
      var r := Step(names, st, s, i);
      if r.Go? { RunSound(names, r.st, s, p, i + r.n); }
    }
  }
}
