/** Which bytes make up a token of content (expat/xmltok_impl.c): each kind is described by what stands
    between its two ends, in characters, names and quoted values, and contentTok finds a token exactly
    where such bytes stand. */
module TokenSpans {
  import opened XmlBytes
  import opened ContentScanner
  import opened ContentLoops
  import opened CharacterData
  import GenxText

  // ------------------------------------------------------------------ what a token is made of

  /** The XML characters `cs` stand between `i` and `j`. */
  predicate Text(s: seq<Byte>, i: nat, j: nat, cs: seq<nat>) {
    i <= j <= |s| && XmlChars(cs) && Scalars(cs) && s[i..j] == Utf8(cs)
  }

  predicate Blank(b: Byte) {
    b == 0x9 || b == 0xA || b == 0xD || b == 0x20
  }

  predicate Blanks(s: seq<Byte>, i: nat, j: nat) {
    i <= j <= |s| && forall k :: i <= k < j ==> Blank(s[k])
  }

  predicate AsciiLetter(c: nat) {
    0x41 <= c <= 0x5A || 0x61 <= c <= 0x7A
  }

  predicate AsciiDigit(c: nat) {
    0x30 <= c <= 0x39
  }

  predicate HexLetter(c: nat) {
    0x41 <= c <= 0x46 || 0x61 <= c <= 0x66
  }

  /** The other planes have no name characters. */
  predicate NameFirst(names: Naming, c: nat) {
    if c < 0x80 then AsciiLetter(c) || c == 0x5F else c < 0x10000 && Encode(c) in names.start
  }

  predicate NameRest(names: Naming, c: nat) {
    if c < 0x80 then AsciiLetter(c) || AsciiDigit(c) || c in {0x2D, 0x2E, 0x5F} else c < 0x10000 && Encode(c) in names.inner
  }

  predicate AllRest(names: Naming, cs: seq<nat>, colons: bool) {
    forall i :: 0 <= i < |cs| ==> NameRest(names, cs[i]) || (colons && cs[i] == 0x3A)
  }

  predicate Named(names: Naming, cs: seq<nat>, colons: bool) {
    cs != [] && NameFirst(names, cs[0]) && AllRest(names, cs[1..], colons)
  }

  /** A name between `i` and `j`, with colons inside it or without. */
  ghost predicate NameAt(names: Naming, s: seq<Byte>, i: nat, j: nat, colons: bool) {
    exists cs :: Text(s, i, j, cs) && Named(names, cs, colons)
  }

  ghost predicate Prefixed(names: Naming, s: seq<Byte>, i: nat, j: nat) {
    exists k: nat :: i <= k < j <= |s| && NameAt(names, s, i, k, false) && s[k] == 0x3A && NameAt(names, s, k + 1, j, false)
  }

  ghost predicate QNameAt(names: Naming, s: seq<Byte>, i: nat, j: nat) {
    NameAt(names, s, i, j, false) || Prefixed(names, s, i, j)
  }

  // ------------------------------------------------------------------ comments, instructions, end tags

  predicate NoPair(cs: seq<nat>, x: nat, y: nat) {
    forall i, j :: 0 <= i < |cs| && j == i + 1 < |cs| ==> !(cs[i] == x && cs[j] == y)
  }

  predicate EndsIn(cs: seq<nat>, x: nat) {
    cs != [] && cs[|cs| - 1] == x
  }

  const COMMENT_OPEN: seq<Byte> := [0x3C, 0x21, 0x2D, 0x2D]
  const COMMENT_CLOSE: seq<Byte> := [0x2D, 0x2D, 0x3E]
  const CDATA_OPEN: seq<Byte> := [0x3C, 0x21, 0x5B, 0x43, 0x44, 0x41, 0x54, 0x41, 0x5B]

  predicate Stands(s: seq<Byte>, i: nat, w: seq<Byte>) {
    i + |w| <= |s| && s[i..i + |w|] == w
  }

  /** `<!--`, characters with no two hyphens side by side and none at the end, `-->`. */
  ghost predicate CommentAt(s: seq<Byte>, p: nat, q: nat) {
    && p + 7 <= q <= |s| && Stands(s, p, COMMENT_OPEN) && Stands(s, q - 3, COMMENT_CLOSE)
    && exists cs :: Text(s, p + 4, q - 3, cs) && NoPair(cs, 0x2D, 0x2D) && !EndsIn(cs, 0x2D)
  }

  /** `xml` in any case. */
  predicate AnyXml(w: seq<Byte>) {
    |w| == 3 && (w[0] == 0x78 || w[0] == 0x58) && (w[1] == 0x6D || w[1] == 0x4D) && (w[2] == 0x6C || w[2] == 0x4C)
  }

  /** What follows the target: nothing, or a blank and characters that do not close the instruction. */
  ghost predicate PiData(s: seq<Byte>, k: nat, e: nat) {
    k == e || (k < e <= |s| && Blank(s[k]) && exists cs :: Text(s, k + 1, e, cs) && NoPair(cs, 0x3F, 0x3E))
  }

  /** `<?`, a target, the rest, `?>`. */
  ghost predicate PiAt(names: Naming, s: seq<Byte>, p: nat, q: nat, declaration: bool) {
    && p + 4 <= q <= |s| && Stands(s, p, [0x3C, 0x3F]) && Stands(s, q - 2, [0x3F, 0x3E])
    && Instruction(names, s, p + 2, q - 2, declaration)
  }

  ghost predicate Instruction(names: Naming, s: seq<Byte>, i: nat, e: nat, declaration: bool) {
    exists k: nat :: TargetAt(names, s, i, k, declaration) && PiData(s, k, e)
  }

  ghost predicate TargetAt(names: Naming, s: seq<Byte>, i: nat, k: nat, declaration: bool) {
    NameAt(names, s, i, k, false) && i <= k <= |s| && if declaration then s[i..k] == [0x78, 0x6D, 0x6C] else !AnyXml(s[i..k])
  }

  /** `</`, a name with any colons in it, blanks, `>`. */
  ghost predicate EndTagAt(names: Naming, s: seq<Byte>, p: nat, q: nat) {
    && p + 3 <= q <= |s| && Stands(s, p, [0x3C, 0x2F]) && s[q - 1] == 0x3E && BlanksAfterName(names, s, p + 2, q - 1)
  }

  ghost predicate BlanksAfterName(names: Naming, s: seq<Byte>, i: nat, j: nat) {
    exists k: nat :: NameAt(names, s, i, k, true) && Blanks(s, k, j)
  }

  // ------------------------------------------------------------------ references

  ghost predicate EntityRefAt(names: Naming, s: seq<Byte>, p: nat, q: nat) {
    p + 2 <= q <= |s| && s[p] == 0x26 && s[q - 1] == 0x3B && NameAt(names, s, p + 1, q - 1, false)
  }

  predicate Digits10(s: seq<Byte>, i: nat, j: nat) {
    i < j <= |s| && forall k :: i <= k < j ==> AsciiDigit(s[k])
  }

  predicate Digits16(s: seq<Byte>, i: nat, j: nat) {
    i < j <= |s| && forall k :: i <= k < j ==> AsciiDigit(s[k]) || HexLetter(s[k])
  }

  predicate CharRefAt(s: seq<Byte>, p: nat, q: nat) {
    && p + 3 <= q <= |s| && Stands(s, p, [0x26, 0x23]) && s[q - 1] == 0x3B
    && (Digits10(s, p + 2, q - 1) || (s[p + 2] == 0x78 && Digits16(s, p + 3, q - 1)))
  }

  ghost predicate RefAt(names: Naming, s: seq<Byte>, p: nat, q: nat) {
    EntityRefAt(names, s, p, q) || CharRefAt(s, p, q)
  }

  // ------------------------------------------------------------------ start tags

  /** A character that stands for itself between quotes. */
  predicate PlainAt(s: seq<Byte>, i: nat, j: nat, c: nat, quote: Byte) {
    Text(s, i, j, [c]) && c != quote && c != 0x26 && c != 0x3C
  }

  ghost predicate PieceAt(names: Naming, s: seq<Byte>, i: nat, j: nat, quote: Byte) {
    (exists c :: PlainAt(s, i, j, c, quote)) || RefAt(names, s, i, j)
  }

  /** What is between the quotes: characters and references. */
  ghost predicate ValueAt(names: Naming, s: seq<Byte>, i: nat, j: nat, quote: Byte)
    decreases j
  {
    (i == j <= |s|) || exists k: nat :: k < j && ValueAt(names, s, i, k, quote) && PieceAt(names, s, k, j, quote)
  }

  ghost predicate QuotedAt(names: Naming, s: seq<Byte>, i: nat, j: nat) {
    && i + 2 <= j <= |s| && (s[i] == 0x22 || s[i] == 0x27) && s[j - 1] == s[i]
    && ValueAt(names, s, i + 1, j - 1, s[i])
  }

  ghost predicate EqualsAt(s: seq<Byte>, i: nat, j: nat) {
    exists k: nat :: i <= k < j <= |s| && Blanks(s, i, k) && s[k] == 0x3D && Blanks(s, k + 1, j)
  }

  ghost predicate AttAt(names: Naming, s: seq<Byte>, i: nat, j: nat) {
    exists n: nat, v: nat :: QNameAt(names, s, i, n) && EqualsAt(s, n, v) && QuotedAt(names, s, v, j)
  }

  /** Attributes, with blanks before each. */
  ghost predicate AttsAt(names: Naming, s: seq<Byte>, i: nat, j: nat)
    decreases j
  {
    (i == j <= |s|) || exists k: nat, b: nat :: k < b < j && AttsAt(names, s, i, k) && Blanks(s, k, b) && AttAt(names, s, b, j)
  }

  /** `<` and a name up to `k`, attributes up to `m`. */
  ghost predicate HeadAt(names: Naming, s: seq<Byte>, p: nat, k: nat, m: nat) {
    p < |s| && s[p] == 0x3C && QNameAt(names, s, p + 1, k) && k <= m && AttsAt(names, s, k, m)
  }

  /** The head, blanks, `>` or `/>`. */
  ghost predicate StartTagAt(names: Naming, s: seq<Byte>, p: nat, q: nat, atts: bool, empty: bool) {
    exists k: nat, m: nat :: HeadAt(names, s, p, k, m) && atts == (k < m) && ClosedAt(s, m, q, empty)
  }

  predicate ClosedAt(s: seq<Byte>, m: nat, q: nat, empty: bool) {
    && q <= |s|
    && if empty then q >= 2 && Blanks(s, m, q - 2) && Stands(s, q - 2, [0x2F, 0x3E])
       else q >= 1 && Blanks(s, m, q - 1) && s[q - 1] == 0x3E
  }

  // ------------------------------------------------------------------ all markup

  ghost predicate MarkupAt(names: Naming, s: seq<Byte>, p: nat, tok: Tok, q: nat) {
    match tok
    case Comment => CommentAt(s, p, q)
    case CdataSectOpen => q == p + 9 && Stands(s, p, CDATA_OPEN)
    case Pi => PiAt(names, s, p, q, false)
    case XmlDecl => PiAt(names, s, p, q, true)
    case EndTag => EndTagAt(names, s, p, q)
    case StartTagNoAtts => StartTagAt(names, s, p, q, false, false)
    case StartTagWithAtts => StartTagAt(names, s, p, q, true, false)
    case EmptyElementNoAtts => StartTagAt(names, s, p, q, false, true)
    case EmptyElementWithAtts => StartTagAt(names, s, p, q, true, true)
    case _ => false
  }

  function StartTok(atts: bool, empty: bool): Tok {
    if empty then if atts then EmptyElementWithAtts else EmptyElementNoAtts
    else if atts then StartTagWithAtts else StartTagNoAtts
  }

  // ------------------------------------------------------------------ character data

  /** A line feed, a carriage return and a line feed, or a carriage return before something else. */
  predicate NewlineAt(s: seq<Byte>, p: nat, q: nat) {
    || (Stands(s, p, [0xA]) && q == p + 1)
    || (Stands(s, p, [0xD, 0xA]) && q == p + 2)
    || (Stands(s, p, [0xD]) && q == p + 1 < |s| && s[q] != 0xA)
  }

  predicate DataChar(c: nat) {
    c != 0xA && c != 0xD && c != 0x26 && c != 0x3C
  }

  predicate AllData(cs: seq<nat>) {
    forall i :: 0 <= i < |cs| ==> DataChar(cs[i])
  }

  /** A bracket that certainly starts no `]]>`, and one of which more input must decide. */
  predicate Harmless(s: seq<Byte>, k: nat) {
    k + 1 < |s| && (s[k + 1] != 0x5D || (k + 2 < |s| && s[k + 2] != 0x3E))
  }

  predicate Undecided(s: seq<Byte>, k: nat) {
    k + 1 == |s| || (k + 2 == |s| && s[k + 1] == 0x5D)
  }

  ghost predicate CharAt(s: seq<Byte>, q: nat) {
    exists j: nat, c :: Text(s, q, j, [c])
  }

  /** Data goes no further: the input or valid characters end, something else starts or has to wait. */
  ghost predicate DataEnd(s: seq<Byte>, q: nat) {
    q == |s| || (q < |s| && (!CharAt(s, q) || !DataChar(s[q]) || (s[q] == 0x5D && Undecided(s, q))))
  }

  ghost predicate DataRun(s: seq<Byte>, p: nat, q: nat) {
    && p <= q <= |s| && (exists cs :: Text(s, p, q, cs) && AllData(cs))
    && (forall k: nat :: p <= k < q && s[k] == 0x5D ==> Harmless(s, k)) && DataEnd(s, q)
  }

  // ------------------------------------------------------------------ every token

  /** The bytes that make up a token, whatever its kind. */
  ghost predicate SpanAt(names: Naming, s: seq<Byte>, p: nat, tok: Tok, q: nat) {
    match tok
    case EntityRef => EntityRefAt(names, s, p, q)
    case CharRef => CharRefAt(s, p, q)
    case DataNewline => NewlineAt(s, p, q)
    case DataChars => p < q && DataRun(s, p, q)
    case _ => MarkupAt(names, s, p, tok, q)
  }

  // ------------------------------------------------------------------ characters as the scanner sees them

  lemma ClassesAbove(b: Byte)
    requires b >= 0x80
    ensures var t := ByteType(b); t.Lead? || t == Trail || t == NonXml || t == Malform
  {
  }

  lemma ClassesBelow(b: Byte)
    requires b < 0x80
    ensures ByteType(b) == AsciiType(b)
  {
  }

  lemma ClassesRest(b: Byte)
    requires b < 0x80
    ensures var t := AsciiType(b);
            && (t == Cr <==> b == 0xD) && (t == Lf <==> b == 0xA) && (Space(t) <==> Blank(b))
            && (t == Digit <==> AsciiDigit(b)) && (t == Hex <==> HexLetter(b))
  {
  }

  lemma ClassesMarks(b: Byte)
    requires b < 0x80
    ensures var t := AsciiType(b);
            && (t == Lt <==> b == 0x3C) && (t == Amp <==> b == 0x26) && (t == Rsqb <==> b == 0x5D) && (t == Lsqb <==> b == 0x5B)
            && (t == Gt <==> b == 0x3E) && (t == Quot <==> b == 0x22) && (t == Apos <==> b == 0x27) && (t == Equals <==> b == 0x3D)
            && (t == Quest <==> b == 0x3F) && (t == Excl <==> b == 0x21) && (t == Sol <==> b == 0x2F) && (t == Semi <==> b == 0x3B)
            && (t == Num <==> b == 0x23) && (t == Colon <==> b == 0x3A) && (t == Minus <==> b == 0x2D)
  {
  }

  lemma Classes(b: Byte)
    ensures var t := ByteType(b);
            && (t == Lt <==> b == 0x3C) && (t == Amp <==> b == 0x26) && (t == Rsqb <==> b == 0x5D) && (t == Lsqb <==> b == 0x5B)
            && (t == Gt <==> b == 0x3E) && (t == Quot <==> b == 0x22) && (t == Apos <==> b == 0x27) && (t == Equals <==> b == 0x3D)
            && (t == Quest <==> b == 0x3F) && (t == Excl <==> b == 0x21) && (t == Sol <==> b == 0x2F) && (t == Semi <==> b == 0x3B)
            && (t == Num <==> b == 0x23) && (t == Colon <==> b == 0x3A) && (t == Minus <==> b == 0x2D)
            && (t == Cr <==> b == 0xD) && (t == Lf <==> b == 0xA) && (Space(t) <==> Blank(b))
            && (t == Digit <==> AsciiDigit(b)) && (t == Hex <==> HexLetter(b))
  {
    hide ByteType, AsciiType;
    if b >= 0x80 {
      ClassesAbove(b);
    } else {
      ClassesBelow(b);
      ClassesMarks(b);
      ClassesRest(b);
    }
  }

  lemma TagMark(b: Byte)
    ensures var t := ByteType(b);
            && (Space(t) <==> Blank(b)) && (t == Gt <==> b == 0x3E) && (t == Sol <==> b == 0x2F)
            && (t == Colon <==> b == 0x3A) && (t == Equals <==> b == 0x3D)
  {
    hide ByteType;
    Classes(b);
  }

  lemma QuoteMark(b: Byte)
    ensures var t := ByteType(b);
            && (t == Quot <==> b == 0x22) && (t == Apos <==> b == 0x27) && (t == Amp <==> b == 0x26) && (t == Lt <==> b == 0x3C)
  {
    hide ByteType;
    Classes(b);
  }

  lemma Numeral(b: Byte)
    ensures var t := ByteType(b);
            && (t == Digit <==> AsciiDigit(b)) && (t == Hex <==> HexLetter(b)) && (t == Semi <==> b == 0x3B) && (t == Num <==> b == 0x23)
  {
    hide ByteType;
    Classes(b);
  }

  /** What the macros say where the character `c` stands. */
  lemma {:induction false} CharHere(names: Naming, s: seq<Byte>, i: nat, j: nat, c: nat)
    requires Text(s, i, j, [c])
    ensures i < j && (if c < 0x80 then s[i] == c && j == i + 1 else s[i] >= 0x80)
    ensures AnyChar(s, i) == if c < 0x80 then Others else Adv(j - i)
    ensures NameStart(names, s, i) == if NameFirst(names, c) then Adv(j - i) else if c < 0x80 then Others else Fail(Invalid)
    ensures NameInner(names, s, i) == if NameRest(names, c) then Adv(j - i) else if c < 0x80 then Others else Fail(Invalid)
  {
    assert XmlChar([c][0]);
    assert [c][1..] == [];
    assert Utf8([c]) == Encode(c);
    assert s[i] == s[i..j][0];
    if c >= 0x80 {
      EncodedIsValid(c);
      assert s[i..i + (j - i)] == Encode(c);
    }
  }

  /** The bytes that a macro passes over. */
  function Wide(s: seq<Byte>, i: nat): nat
    requires i < |s|
  {
    if AnyChar(s, i).Adv? then AnyChar(s, i).n else 1
  }

  /** Wherever they do not fail there is a character. */
  lemma {:induction false} CharThere(s: seq<Byte>, i: nat) returns (c: nat)
    requires i < |s| && !AnyChar(s, i).Fail?
    ensures var n := Wide(s, i); Text(s, i, i + n, [c])
  {
    var n := Wide(s, i);
    if AnyChar(s, i).Adv? {
      ValidIsEncoded(s[i..i + n]);
      c := Joined(s[i..i + n]);
    } else {
      c := s[i];
      assert s[i..i + 1] == [s[i]];
    }
    assert [c][1..] == [];
    assert Utf8([c]) == Encode(c);
  }

  lemma {:induction false} NameThere(names: Naming, s: seq<Byte>, i: nat) returns (c: nat)
    requires i < |s| && (NameStart(names, s, i).Adv? || NameInner(names, s, i).Adv?)
    ensures NameStart(names, s, i).Adv? ==> Text(s, i, i + NameStart(names, s, i).n, [c]) && NameFirst(names, c)
    ensures NameInner(names, s, i).Adv? ==> Text(s, i, i + NameInner(names, s, i).n, [c]) && NameRest(names, c)
  {
    c := CharThere(s, i);
    var n := Wide(s, i);
    CharHere(names, s, i, i + n, c);
  }

  lemma {:induction false} TextMore(s: seq<Byte>, i: nat, j: nat, k: nat, cs: seq<nat>, c: nat)
    requires Text(s, i, j, cs) && Text(s, j, k, [c])
    ensures Text(s, i, k, cs + [c])
  {
    hide Utf8, Encode, XmlChars, XmlChar;
    CharOfText(s, j, k, c);
    Utf8Snoc(cs, c);
    assert s[i..k] == s[i..j] + s[j..k];
    AllOfText(cs, c);
  }

  lemma Utf8Snoc(cs: seq<nat>, c: nat)
    requires Scalars(cs) && Scalar(c)
    ensures Scalars(cs + [c]) && Utf8(cs + [c]) == Utf8(cs) + Encode(c)
  {
    hide Utf8, Encode;
    GenxText.Utf8More(cs, c);
  }

  lemma CharOfText(s: seq<Byte>, j: nat, k: nat, c: nat)
    requires Text(s, j, k, [c])
    ensures j <= k <= |s| && XmlChar(c) && Scalar(c) && s[j..k] == Encode(c)
  {
    assert [c][0] == c && [c][1..] == [];
    assert Utf8([c]) == Encode(c) + Utf8([]) == Encode(c);
  }

  lemma AllOfText(cs: seq<nat>, c: nat)
    requires XmlChars(cs) && XmlChar(c)
    ensures XmlChars(cs + [c])
  {
  }

  lemma {:induction false} TextFront(s: seq<Byte>, i: nat, j: nat, cs: seq<nat>) returns (k: nat)
    requires Text(s, i, j, cs) && cs != []
    ensures i < k <= j && Text(s, i, k, [cs[0]]) && Text(s, k, j, cs[1..])
  {
    hide Encode;
    var c := cs[0];
    k := i + |Encode(c)|;
    assert s[i..j] == Encode(c) + Utf8(cs[1..]);
    assert s[i..k] == s[i..j][..k - i] == Encode(c);
    assert s[k..j] == s[i..j][k - i..] == Utf8(cs[1..]);
    TextOfChar(s, i, k, c);
  }

  lemma TextOfChar(s: seq<Byte>, i: nat, k: nat, c: nat)
    requires i <= k <= |s| && XmlChar(c) && Scalar(c) && s[i..k] == Encode(c)
    ensures Text(s, i, k, [c])
  {
    hide Encode;
    assert [c][1..] == [];
    assert Utf8([c]) == Encode(c) + Utf8([]) == Encode(c);
  }

  lemma TextNone(s: seq<Byte>, i: nat)
    requires i <= |s|
    ensures Text(s, i, i, [])
  {
  }

  lemma {:induction false} NameBegins(names: Naming, s: seq<Byte>, i: nat, colons: bool)
    requires i < |s| && NameStart(names, s, i).Adv?
    ensures NameAt(names, s, i, i + NameStart(names, s, i).n, colons)
  {
    hide NameStart, NameInner, Text, NameFirst, NameRest;
    var c := NameThere(names, s, i);
    assert Named(names, [c], colons);
  }

  lemma {:induction false} NameGrows(names: Naming, s: seq<Byte>, i: nat, j: nat, colons: bool)
    requires j < |s| && NameAt(names, s, i, j, colons)
    ensures NameInner(names, s, j).Adv? ==> NameAt(names, s, i, j + NameInner(names, s, j).n, colons)
    ensures colons && s[j] == 0x3A ==> NameAt(names, s, i, j + 1, colons)
  {
    hide NameStart, NameInner, NameFirst, NameRest, Text, AnyChar;
    var cs :| Text(s, i, j, cs) && Named(names, cs, colons);
    if NameInner(names, s, j).Adv? {
      var c := NameThere(names, s, j);
      TextMore(s, i, j, j + NameInner(names, s, j).n, cs, c);
      NamedMore(names, cs, c, colons);
    }
    if colons && s[j] == 0x3A {
      ColonThere(s, j);
      TextMore(s, i, j, j + 1, cs, 0x3A);
      NamedMore(names, cs, 0x3A, colons);
    }
  }

  lemma ColonThere(s: seq<Byte>, j: nat)
    requires j < |s| && s[j] < 0x80 && XmlChar(s[j])
    ensures Text(s, j, j + 1, [s[j]])
  {
    assert s[j..j + 1] == [s[j]];
    assert Utf8([s[j]][1..]) == [];
  }

  lemma NamedMore(names: Naming, cs: seq<nat>, c: nat, colons: bool)
    requires Named(names, cs, colons) && (NameRest(names, c) || (colons && c == 0x3A))
    ensures Named(names, cs + [c], colons)
  {
    hide NameFirst, NameRest;
    assert (cs + [c])[1..] == cs[1..] + [c];
  }
}
