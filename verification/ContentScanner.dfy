/** The content scanner (expat/xmltok_impl.c) for UTF-8 with namespaces: one automaton that reads a
    character at a time, and the nested loops of the source, each proved to compute it. */
module ContentScanner {
  import opened XmlBytes

  datatype Tok =
    | NoTok | Invalid | Partial | PartialChar | TrailingCr | TrailingRsqb
    | DataChars | DataNewline | EntityRef | CharRef | StartTagNoAtts | StartTagWithAtts
    | EmptyElementNoAtts | EmptyElementWithAtts | EndTag | Comment | Pi | XmlDecl | CdataSectOpen
    | AttributeValueS

  /** A scanner either has a token and where it ends, or halts with nothing more to say. */
  datatype Verdict = Halt(tok: Tok) | Token(tok: Tok, next: nat)

  /** The multi-byte characters that may start a name and that may be inside one (nametab.h). */
  datatype Naming = Naming(start: set<seq<Byte>>, inner: set<seq<Byte>>)

  // ------------------------------------------------------------------ single characters

  /** What a macro of cases says about a character: it goes on, it fails, or it is for other cases. */
  datatype Check = Adv(n: nat) | Fail(tok: Tok) | Others

  predicate Within(c: Check, s: seq<Byte>, p: nat) {
    c.Adv? ==> c.n > 0 && p + c.n <= |s|
  }

  function NameMore(named: set<seq<Byte>>, s: seq<Byte>, p: nat, n: nat): (c: Check)
    requires p < |s| && ByteType(s[p]) == Lead(n)
    ensures Within(c, s, p)
  {
    if |s| - p < n then Fail(PartialChar)
    else if InvalidChar(s[p..p + n]) || n == 4 || s[p..p + n] !in named then Fail(Invalid)
    else Adv(n)
  }

  /** CHECK_NMSTRT_CASES */
  function NameStart(names: Naming, s: seq<Byte>, p: nat): (c: Check)
    requires p < |s|
    ensures Within(c, s, p)
  {
    match ByteType(s[p])
    case Nmstrt => Adv(1)
    case Hex => Adv(1)
    case Lead(n) => NameMore(names.start, s, p, n)
    case _ => Others
  }

  /** CHECK_NAME_CASES */
  function NameInner(names: Naming, s: seq<Byte>, p: nat): (c: Check)
    requires p < |s|
    ensures Within(c, s, p)
  {
    match ByteType(s[p])
    case Nmstrt => Adv(1)
    case Hex => Adv(1)
    case Digit => Adv(1)
    case Name => Adv(1)
    case Minus => Adv(1)
    case Lead(n) => NameMore(names.inner, s, p, n)
    case _ => Others
  }

  /** INVALID_CASES */
  function AnyChar(s: seq<Byte>, p: nat): (c: Check)
    requires p < |s|
    ensures Within(c, s, p)
  {
    match ByteType(s[p])
    case Lead(n) =>
      if |s| - p < n then Fail(PartialChar) else if InvalidChar(s[p..p + n]) then Fail(Invalid) else Adv(n)
    case NonXml => Fail(Invalid)
    case Malform => Fail(Invalid)
    case Trail => Fail(Invalid)
    case _ => Others
  }

  predicate Space(t: Bt) {
    t == S || t == Cr || t == Lf
  }

  // ------------------------------------------------------------------ references

  datatype RefState = RefStart | RefName | CharRefStart | Decimal | HexStart | Hexadecimal

  datatype RefNext = RefGo(st: RefState, n: nat) | RefDone(tok: Tok) | RefStop(tok: Tok)

  function RefStep(names: Naming, st: RefState, s: seq<Byte>, p: nat): (r: RefNext)
    requires p < |s|
    ensures r.RefGo? ==> r.n > 0 && p + r.n <= |s|
    ensures r.RefDone? ==> r.tok in {EntityRef, CharRef}
  {
    var t := ByteType(s[p]);
    match st
    case RefStart =>
      (match NameStart(names, s, p)
       case Adv(n) => RefGo(RefName, n)
       case Fail(tok) => RefStop(tok)
       case Others => if t == Num then RefGo(CharRefStart, 1) else RefStop(Invalid))
    case RefName =>
      (match NameInner(names, s, p)
       case Adv(n) => RefGo(RefName, n)
       case Fail(tok) => RefStop(tok)
       case Others => if t == Semi then RefDone(EntityRef) else RefStop(Invalid))
    case CharRefStart =>
      if s[p] == 0x78 then RefGo(HexStart, 1) else if t == Digit then RefGo(Decimal, 1) else RefStop(Invalid)
    case Decimal =>
      if t == Digit then RefGo(Decimal, 1) else if t == Semi then RefDone(CharRef) else RefStop(Invalid)
    case HexStart =>
      if t == Digit || t == Hex then RefGo(Hexadecimal, 1) else RefStop(Invalid)
    case Hexadecimal =>
      if t == Digit || t == Hex then RefGo(Hexadecimal, 1) else if t == Semi then RefDone(CharRef) else RefStop(Invalid)
  }

  /** The reference automaton from `p` on. */
  function RefRun(names: Naming, st: RefState, s: seq<Byte>, p: nat): (v: Verdict)
    requires p <= |s|
    ensures v.Token? ==> p < v.next <= |s| && v.tok in {EntityRef, CharRef}
    decreases |s| - p
  {
    if p == |s| then Halt(Partial) else
    match RefStep(names, st, s, p)
    case RefGo(st', n) => RefRun(names, st', s, p + n)
    case RefDone(tok) => Token(tok, p + 1)
    case RefStop(tok) => Halt(tok)
  }

  // ------------------------------------------------------------------ markup

  /** Where in a piece of markup the scanner is. */
  datatype Scan =
    | AfterLt | TagName(colon: bool) | TagColon | TagSpace | TagSlash
    | AttName(colon: bool) | AttColon | AttSpace | AttEquals | Value(open: Bt) | AfterValue | AttGap | AttSlash
    | AfterExcl | CommentStart | InComment | InCommentMinus | CommentEnd | Cdata
    | PiStart | PiName(target: seq<Byte>) | PiNameEnd(tok: Tok) | PiBody(tok: Tok) | PiQuest(tok: Tok)
    | EndStart | EndName | EndSpace

  datatype Next = Go(st: Scan, n: nat) | Done(tok: Tok, n: nat) | Stop(tok: Tok)

  predicate Fits(r: Next, s: seq<Byte>, p: nat) {
    r.Go? || r.Done? ==> r.n > 0 && p + r.n <= |s|
  }

  const CDATA_LSQB: seq<Byte> := [0x43, 0x44, 0x41, 0x54, 0x41, 0x5B]

  /** checkPiTarget: `xml` is the declaration, in other case it is not allowed. */
  function PiTarget(target: seq<Byte>): Tok {
    if |target| == 3 && target[0] in {0x78, 0x58} && target[1] in {0x6D, 0x4D} && target[2] in {0x6C, 0x4C} then
      if target == [0x78, 0x6D, 0x6C] then XmlDecl else Invalid
    else Pi
  }

  function NameNext(c: Check, st: Scan, rest: Next): (r: Next) {
    match c
    case Adv(n) => Go(st, n)
    case Fail(tok) => Stop(tok)
    case Others => rest
  }

  function CommentStep(s: seq<Byte>, p: nat): (r: Next)
    requires p < |s|
    ensures Fits(r, s, p)
  {
    NameNext(AnyChar(s, p), InComment, Go(if ByteType(s[p]) == Minus then InCommentMinus else InComment, 1))
  }

  function PiStep(tok: Tok, s: seq<Byte>, p: nat): (r: Next)
    requires p < |s|
    ensures Fits(r, s, p)
  {
    NameNext(AnyChar(s, p), PiBody(tok), Go(if ByteType(s[p]) == Quest then PiQuest(tok) else PiBody(tok), 1))
  }

  function ValueStep(names: Naming, open: Bt, s: seq<Byte>, p: nat): (r: Next)
    requires p < |s|
    ensures Fits(r, s, p)
  {
    var t := ByteType(s[p]);
    if t == open then Go(AfterValue, 1)
    else NameNext(AnyChar(s, p), Value(open),
      if t == Amp then
        match RefRun(names, RefStart, s, p + 1)
        case Token(_, q) => Go(Value(open), q - p)
        case Halt(tok) => Stop(tok)
      else if t == Lt then Stop(Invalid)
      else Go(Value(open), 1))
  }

  predicate InTag(st: Scan) {
    st.AfterLt? || st.TagName? || st.TagColon? || st.TagSpace? || st.TagSlash?
  }

  function TagStep(names: Naming, st: Scan, s: seq<Byte>, p: nat): (r: Next)
    requires p < |s| && InTag(st)
    ensures Fits(r, s, p)
  {
    var t := ByteType(s[p]);
    match st
    case AfterLt => NameNext(NameStart(names, s, p), TagName(false),
      if t == Excl then Go(AfterExcl, 1)
      else if t == Quest then Go(PiStart, 1)
      else if t == Sol then Go(EndStart, 1)
      else Stop(Invalid))
    case TagName(colon) => NameNext(NameInner(names, s, p), TagName(colon),
      if t == Colon then if colon then Stop(Invalid) else Go(TagColon, 1)
      else if Space(t) then Go(TagSpace, 1)
      else if t == Gt then Done(StartTagNoAtts, 1)
      else if t == Sol then Go(TagSlash, 1)
      else Stop(Invalid))
    case TagColon => NameNext(NameStart(names, s, p), TagName(true), Stop(Invalid))
    case TagSpace => NameNext(NameStart(names, s, p), AttName(false),
      if Space(t) then Go(TagSpace, 1)
      else if t == Gt then Done(StartTagNoAtts, 1)
      else if t == Sol then Go(TagSlash, 1)
      else Stop(Invalid))
    case TagSlash => if s[p] == 0x3E then Done(EmptyElementNoAtts, 1) else Stop(Invalid)
  }

  predicate InAtts(st: Scan) {
    st.AttName? || st.AttColon? || st.AttSpace? || st.AttEquals? || st.Value? || st.AfterValue? || st.AttGap? || st.AttSlash?
  }

  function AttStep(names: Naming, st: Scan, s: seq<Byte>, p: nat): (r: Next)
    requires p < |s| && InAtts(st)
    ensures Fits(r, s, p)
  {
    var t := ByteType(s[p]);
    match st
    case AttName(colon) => NameNext(NameInner(names, s, p), AttName(colon),
      if t == Colon then if colon then Stop(Invalid) else Go(AttColon, 1)
      else if Space(t) then Go(AttSpace, 1)
      else if t == Equals then Go(AttEquals, 1)
      else Stop(Invalid))
    case AttColon => NameNext(NameStart(names, s, p), AttName(true), Stop(Invalid))
    case AttSpace => if t == Equals then Go(AttEquals, 1) else if Space(t) then Go(AttSpace, 1) else Stop(Invalid)
    case AttEquals => if t == Quot || t == Apos then Go(Value(t), 1) else if Space(t) then Go(AttEquals, 1) else Stop(Invalid)
    case Value(open) => ValueStep(names, open, s, p)
    case AfterValue =>
      if Space(t) then Go(AttGap, 1)
      else if t == Sol then Go(AttSlash, 1)
      else if t == Gt then Done(StartTagWithAtts, 1)
      else Stop(Invalid)
    case AttGap => NameNext(NameStart(names, s, p), AttName(false),
      if Space(t) then Go(AttGap, 1)
      else if t == Gt then Done(StartTagWithAtts, 1)
      else if t == Sol then Go(AttSlash, 1)
      else Stop(Invalid))
    case AttSlash => if s[p] == 0x3E then Done(EmptyElementWithAtts, 1) else Stop(Invalid)
  }

  function OtherStep(names: Naming, st: Scan, s: seq<Byte>, p: nat): (r: Next)
    requires p < |s| && !InAtts(st) && !InTag(st)
    ensures Fits(r, s, p)
  {
    var t := ByteType(s[p]);
    match st
    case AfterExcl => if t == Minus then Go(CommentStart, 1) else if t == Lsqb then Go(Cdata, 1) else Stop(Invalid)
    case CommentStart => if s[p] == 0x2D then Go(InComment, 1) else Stop(Invalid)
    case InComment => CommentStep(s, p)
    case InCommentMinus => if s[p] == 0x2D then Go(CommentEnd, 1) else CommentStep(s, p)
    case CommentEnd => if s[p] == 0x3E then Done(Comment, 1) else Stop(Invalid)
    case Cdata =>
      if |s| - p < 6 then Stop(Partial) else if s[p..p + 6] == CDATA_LSQB then Done(CdataSectOpen, 6) else Stop(Invalid)
    case PiStart =>
      (match NameStart(names, s, p)
       case Adv(n) => Go(PiName(s[p..p + n]), n)
       case Fail(tok) => Stop(tok)
       case Others => Stop(Invalid))
    case PiName(target) =>
      (match NameInner(names, s, p)
       case Adv(n) => Go(PiName(target + s[p..p + n]), n)
       case Fail(tok) => Stop(tok)
       case Others =>
         if !(Space(t) || t == Quest) || PiTarget(target) == Invalid then Stop(Invalid)
         else if t == Quest then Go(PiNameEnd(PiTarget(target)), 1)
         else Go(PiBody(PiTarget(target)), 1))
    case PiNameEnd(tok) => if s[p] == 0x3E then Done(tok, 1) else Stop(Invalid)
    case PiBody(tok) => PiStep(tok, s, p)
    case PiQuest(tok) => if s[p] == 0x3E then Done(tok, 1) else PiStep(tok, s, p)
    case EndStart => NameNext(NameStart(names, s, p), EndName, Stop(Invalid))
    case EndName => NameNext(NameInner(names, s, p), EndName,
      if t == Colon then Go(EndName, 1)
      else if Space(t) then Go(EndSpace, 1)
      else if t == Gt then Done(EndTag, 1)
      else Stop(Invalid))
    case EndSpace => if Space(t) then Go(EndSpace, 1) else if t == Gt then Done(EndTag, 1) else Stop(Invalid)
  }

  function Step(names: Naming, st: Scan, s: seq<Byte>, p: nat): (r: Next)
    requires p < |s|
    ensures Fits(r, s, p)
  {
    if InTag(st) then TagStep(names, st, s, p)
    else if InAtts(st) then AttStep(names, st, s, p)
    else OtherStep(names, st, s, p)
  }

  /** The markup automaton from `p` on. */
  function Run(names: Naming, st: Scan, s: seq<Byte>, p: nat): (v: Verdict)
    requires p <= |s|
    ensures v.Token? ==> p < v.next <= |s|
    decreases |s| - p
  {
    if p == |s| then Halt(Partial) else
    match Step(names, st, s, p)
    case Go(st', n) => Run(names, st', s, p + n)
    case Done(tok, n) => Token(tok, p + n)
    case Stop(tok) => Halt(tok)
  }

  // ------------------------------------------------------------------ character data

  /** Does the character at `p` go on a run of data, end it, or spoil it? */
  function DataStep(s: seq<Byte>, p: nat): (c: Check)
    requires p < |s|
    ensures Within(c, s, p)
  {
    match ByteType(s[p])
    case Lead(n) => if |s| - p < n || InvalidChar(s[p..p + n]) then Others else Adv(n)
    case Rsqb =>
      if p + 1 != |s| && s[p + 1] != 0x5D then Adv(1)
      else if p + 1 != |s| && p + 2 != |s| then if s[p + 2] != 0x3E then Adv(1) else Fail(Invalid)
      else Others
    case Amp => Others
    case Lt => Others
    case NonXml => Others
    case Malform => Others
    case Trail => Others
    case Cr => Others
    case Lf => Others
    case _ => Adv(1)
  }

  /** A run of data under way at `p`. */
  function Data(s: seq<Byte>, p: nat): (v: Verdict)
    requires p <= |s|
    ensures v.Token? ==> p <= v.next <= |s| && v.tok == DataChars
    ensures v.Halt? ==> v.tok == Invalid
    decreases |s| - p
  {
    if p == |s| then Token(DataChars, p) else
    match DataStep(s, p)
    case Adv(n) => Data(s, p + n)
    case Fail(tok) => Halt(Invalid)
    case Others => Token(DataChars, p)
  }

  /** contentTok at a closing bracket, of which two and a greater-than sign are not allowed. */
  function BracketTok(s: seq<Byte>, p: nat): (v: Verdict)
    requires p < |s|
    ensures v.Token? ==> p < v.next <= |s|
  {
    if p + 1 == |s| then Halt(TrailingRsqb)
    else if s[p + 1] != 0x5D then Data(s, p + 1)
    else if p + 2 == |s| then Halt(TrailingRsqb)
    else if s[p + 2] != 0x3E then Data(s, p + 1)
    else Halt(Invalid)
  }

  function NewlineTok(s: seq<Byte>, p: nat): (v: Verdict)
    requires p < |s|
    ensures v.Token? ==> p < v.next <= |s| && v.tok == DataNewline
  {
    if p + 1 == |s| then Halt(TrailingCr)
    else Token(DataNewline, if ByteType(s[p + 1]) == Lf then p + 2 else p + 1)
  }

  function CharTok(s: seq<Byte>, p: nat): (v: Verdict)
    requires p < |s|
    ensures v.Token? ==> p < v.next <= |s|
  {
    match AnyChar(s, p)
    case Adv(n) => Data(s, p + n)
    case Fail(tok) => Halt(tok)
    case Others => Data(s, p + 1)
  }

  /** contentTok */
  function ContentTok(names: Naming, s: seq<Byte>, p: nat): (v: Verdict)
    requires p <= |s|
    ensures v.Token? ==> p < v.next <= |s|
  {
    if p == |s| then Halt(NoTok) else
    match ByteType(s[p])
    case Lt => Run(names, AfterLt, s, p + 1)
    case Amp => RefRun(names, RefStart, s, p + 1)
    case Cr => NewlineTok(s, p)
    case Lf => Token(DataNewline, p + 1)
    case Rsqb => BracketTok(s, p)
    case _ => CharTok(s, p)
  }
}
