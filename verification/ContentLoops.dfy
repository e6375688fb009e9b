/** The scanning functions themselves (expat/xmltok_impl.c): each advances `ptr` in its own loops and
    computes what the automaton does from the corresponding state. */
module ContentLoops {
  import opened XmlBytes
  import opened ContentScanner
  import opened ScannerChunks

  lemma Unroll(names: Naming, st: Scan, s: seq<Byte>, p: nat)
    requires p <= |s|
    ensures Run(names, st, s, p) ==
      if p == |s| then Halt(Partial) else
      match Step(names, st, s, p)
      case Go(st', n) => Run(names, st', s, p + n)
      case Done(tok, n) => Token(tok, p + n)
      case Stop(tok) => Halt(tok)
  {
    hide Step;
  }

  lemma RefUnroll(names: Naming, st: RefState, s: seq<Byte>, p: nat)
    requires p <= |s|
    ensures RefRun(names, st, s, p) ==
      if p == |s| then Halt(Partial) else
      match RefStep(names, st, s, p)
      case RefGo(st', n) => RefRun(names, st', s, p + n)
      case RefDone(tok) => Token(tok, p + 1)
      case RefStop(tok) => Halt(tok)
  {
    hide RefStep;
  }

  /** scanHexCharRef: `ptr` is after the x. */
  method ScanHexCharRef(names: Naming, s: seq<Byte>, start: nat) returns (v: Verdict)
    requires start <= |s|
    ensures v == RefRun(names, HexStart, s, start)
  {
    hide RefRun, NameStart, NameInner, ByteType;
    var ptr := start;
    RefUnroll(names, HexStart, s, ptr);
    if ptr < |s| {
      if ByteType(s[ptr]) != Digit && ByteType(s[ptr]) != Hex {
        return Halt(Invalid);
      }
      ptr := ptr + 1;
      while ptr < |s|
        invariant start < ptr <= |s|
        invariant RefRun(names, HexStart, s, start) == RefRun(names, Hexadecimal, s, ptr)
      {
        RefUnroll(names, Hexadecimal, s, ptr);
        var t := ByteType(s[ptr]);
        if t == Semi {
          return Token(CharRef, ptr + 1);
        } else if t != Digit && t != Hex {
          return Halt(Invalid);
        }
        ptr := ptr + 1;
      }
      RefUnroll(names, Hexadecimal, s, ptr);
    }
    return Halt(Partial);
  }

  /** scanCharRef: `ptr` is after the number sign. */
  method ScanCharRef(names: Naming, s: seq<Byte>, start: nat) returns (v: Verdict)
    requires start <= |s|
    ensures v == RefRun(names, CharRefStart, s, start)
  {
    hide RefRun, NameStart, NameInner, ByteType;
    var ptr := start;
    RefUnroll(names, CharRefStart, s, ptr);
    if ptr < |s| {
      if s[ptr] == 0x78 {
        v := ScanHexCharRef(names, s, ptr + 1);
        return v;
      }
      if ByteType(s[ptr]) != Digit {
        return Halt(Invalid);
      }
      ptr := ptr + 1;
      while ptr < |s|
        invariant start < ptr <= |s|
        invariant RefRun(names, CharRefStart, s, start) == RefRun(names, Decimal, s, ptr)
      {
        RefUnroll(names, Decimal, s, ptr);
        var t := ByteType(s[ptr]);
        if t == Semi {
          return Token(CharRef, ptr + 1);
        } else if t != Digit {
          return Halt(Invalid);
        }
        ptr := ptr + 1;
      }
      RefUnroll(names, Decimal, s, ptr);
    }
    return Halt(Partial);
  }

  /** scanRef: `ptr` is after the ampersand. */
  method ScanRef(names: Naming, s: seq<Byte>, start: nat) returns (v: Verdict)
    requires start <= |s|
    ensures v == RefRun(names, RefStart, s, start)
  {
    hide RefRun, NameStart, NameInner, ByteType;
    var ptr := start;
    RefUnroll(names, RefStart, s, ptr);
    if ptr == |s| {
      return Halt(Partial);
    }
    match NameStart(names, s, ptr) {
      case Adv(n) => ptr := ptr + n;
      case Fail(tok) => return Halt(tok);
      case Others =>
        if ByteType(s[ptr]) == Num {
          v := ScanCharRef(names, s, ptr + 1);
          return v;
        }
        return Halt(Invalid);
    }
    while ptr < |s|
      invariant start < ptr <= |s|
      invariant RefRun(names, RefStart, s, start) == RefRun(names, RefName, s, ptr)
    {
      RefUnroll(names, RefName, s, ptr);
      match NameInner(names, s, ptr) {
        case Adv(n) => ptr := ptr + n;
        case Fail(tok) => return Halt(tok);
        case Others =>
          return if ByteType(s[ptr]) == Semi then Token(EntityRef, ptr + 1) else Halt(Invalid);
      }
    }
    RefUnroll(names, RefName, s, ptr);
    return Halt(Partial);
  }

  /** White space before the end of an end tag. */
  method ScanEndSpace(names: Naming, s: seq<Byte>, start: nat) returns (v: Verdict)
    requires start <= |s|
    ensures v == Run(names, EndSpace, s, start)
  {
    hide Run, NameStart, NameInner, TagStep, AttStep, ByteType, CommentStep, PiStep, PiTarget;
    var ptr := start;
    while ptr < |s|
      invariant start <= ptr <= |s|
      invariant Run(names, EndSpace, s, start) == Run(names, EndSpace, s, ptr)
    {
      Unroll(names, EndSpace, s, ptr);
      var t := ByteType(s[ptr]);
      if t == Gt {
        return Token(EndTag, ptr + 1);
      } else if !Space(t) {
        return Halt(Invalid);
      }
      ptr := ptr + 1;
    }
    Unroll(names, EndSpace, s, ptr);
    return Halt(Partial);
  }

  lemma EndOfInput(names: Naming, st: Scan, s: seq<Byte>)
    ensures Run(names, st, s, |s|) == Halt(Partial)
  {
  }

  lemma EndStartRead(names: Naming, s: seq<Byte>, p: nat)
    requires p <= |s|
    ensures Run(names, EndStart, s, p) ==
      if p == |s| then Halt(Partial) else
      match NameStart(names, s, p)
      case Adv(n) => Run(names, EndName, s, p + n)
      case Fail(tok) => Halt(tok)
      case Others => Halt(Invalid)
  {
    hide Run, NameStart, ByteType, CommentStep, PiStep, PiTarget;
    Unroll(names, EndStart, s, p);
  }

  lemma EndNameRead(names: Naming, s: seq<Byte>, p: nat)
    requires p < |s|
    ensures Run(names, EndName, s, p) ==
      match NameInner(names, s, p)
      case Adv(n) => Run(names, EndName, s, p + n)
      case Fail(tok) => Halt(tok)
      case Others =>
        var t := ByteType(s[p]);
        if t == Colon then Run(names, EndName, s, p + 1)
        else if Space(t) then Run(names, EndSpace, s, p + 1)
        else if t == Gt then Token(EndTag, p + 1)
        else Halt(Invalid)
  {
    hide Run, NameInner, ByteType, CommentStep, PiStep, PiTarget;
    Unroll(names, EndName, s, p);
  }

  /** scanEndTag: `ptr` is after the slash. */
  method ScanEndTag(names: Naming, s: seq<Byte>, start: nat) returns (v: Verdict)
    requires start <= |s|
    ensures v == Run(names, EndStart, s, start)
  {
    hide Run, Step, NameStart, NameInner, ByteType;
    var ptr := start;
    EndStartRead(names, s, ptr);
    if ptr == |s| {
      return Halt(Partial);
    }
    match NameStart(names, s, ptr) {
      case Adv(n) => ptr := ptr + n;
      case Fail(tok) => return Halt(tok);
      case Others => return Halt(Invalid);
    }
    while ptr < |s|
      invariant start < ptr <= |s|
      invariant Run(names, EndStart, s, start) == Run(names, EndName, s, ptr)
    {
      EndNameRead(names, s, ptr);
      match NameInner(names, s, ptr) {
        case Adv(n) => ptr := ptr + n;
        case Fail(tok) => return Halt(tok);
        case Others =>
          var t := ByteType(s[ptr]);
          if Space(t) {
            v := ScanEndSpace(names, s, ptr + 1);
            return v;
          } else if t == Colon {
            ptr := ptr + 1;
          } else {
            return if t == Gt then Token(EndTag, ptr + 1) else Halt(Invalid);
          }
      }
    }
    EndOfInput(names, EndName, s);
    return Halt(Partial);
  }

  /** scanComment: `ptr` is after the first hyphen. */
  method ScanComment(names: Naming, s: seq<Byte>, start: nat) returns (v: Verdict)
    requires start <= |s|
    ensures v == Run(names, CommentStart, s, start)
  {
    hide Run, AnyChar, TagStep, AttStep, ByteType, PiStep, PiTarget, NameStart, NameInner;
    var ptr := start;
    Unroll(names, CommentStart, s, ptr);
    if ptr < |s| {
      if s[ptr] != 0x2D {
        return Halt(Invalid);
      }
      ptr := ptr + 1;
      while ptr < |s|
        invariant start < ptr <= |s|
        invariant Run(names, CommentStart, s, start) == Run(names, InComment, s, ptr)
        decreases |s| - ptr
      {
        Unroll(names, InComment, s, ptr);
        match AnyChar(s, ptr) {
          case Adv(n) => ptr := ptr + n;
          case Fail(tok) => return Halt(tok);
          case Others =>
            if ByteType(s[ptr]) == Minus {
              ptr := ptr + 1;
              Unroll(names, InCommentMinus, s, ptr);
              if ptr == |s| {
                return Halt(Partial);
              }
              if s[ptr] == 0x2D {
                ptr := ptr + 1;
                Unroll(names, CommentEnd, s, ptr);
                if ptr == |s| {
                  return Halt(Partial);
                }
                return if s[ptr] == 0x3E then Token(Comment, ptr + 1) else Halt(Invalid);
              }
              Unroll(names, InComment, s, ptr);
            } else {
              ptr := ptr + 1;
            }
        }
      }
      Unroll(names, InComment, s, ptr);
    }
    return Halt(Partial);
  }

  /** scanCdataSection: `ptr` is after the bracket. */
  method ScanCdataSection(names: Naming, s: seq<Byte>, start: nat) returns (v: Verdict)
    requires start <= |s|
    ensures v == Run(names, Cdata, s, start)
  {
    hide Run, TagStep, AttStep, ByteType;
    Unroll(names, Cdata, s, start);
    if |s| - start < 6 {
      return Halt(Partial);
    }
    var ptr := start;
    for i := 0 to 6
      invariant ptr == start + i && forall k :: 0 <= k < i ==> s[start..start + 6][k] == CDATA_LSQB[k]
    {
      assert s[start..start + 6][i] == s[ptr];
      if s[ptr] != CDATA_LSQB[i] {
        return Halt(Invalid);
      }
      ptr := ptr + 1;
    }
    assert s[start..start + 6] == CDATA_LSQB;
    return Token(CdataSectOpen, ptr);
  }

  /** The inside of a processing instruction, up to its end. */
  method ScanPiBody(names: Naming, s: seq<Byte>, start: nat, tok: Tok) returns (v: Verdict)
    requires start <= |s|
    ensures v == Run(names, PiBody(tok), s, start)
  {
    hide Run, AnyChar, TagStep, AttStep, ByteType, CommentStep, PiTarget, NameStart, NameInner;
    var ptr := start;
    while ptr < |s|
      invariant start <= ptr <= |s|
      invariant Run(names, PiBody(tok), s, start) == Run(names, PiBody(tok), s, ptr)
      decreases |s| - ptr
    {
      Unroll(names, PiBody(tok), s, ptr);
      match AnyChar(s, ptr) {
        case Adv(n) => ptr := ptr + n;
        case Fail(t) => return Halt(t);
        case Others =>
          if ByteType(s[ptr]) == Quest {
            ptr := ptr + 1;
            Unroll(names, PiQuest(tok), s, ptr);
            if ptr == |s| {
              return Halt(Partial);
            }
            if s[ptr] == 0x3E {
              return Token(tok, ptr + 1);
            }
            Unroll(names, PiBody(tok), s, ptr);
          } else {
            ptr := ptr + 1;
          }
      }
    }
    Unroll(names, PiBody(tok), s, ptr);
    return Halt(Partial);
  }

  /** The end of the target at `ptr`: white space, or at once the end of the instruction. */
  method ScanPiTarget(names: Naming, s: seq<Byte>, target: seq<Byte>, ptr: nat) returns (v: Verdict)
    requires ptr < |s| && NameInner(names, s, ptr) == Others
    ensures v == Run(names, PiName(target), s, ptr)
  {
    hide Run, NameStart, NameInner, TagStep, AttStep, PiTarget, PiStep, ByteType;
    Unroll(names, PiName(target), s, ptr);
    var t := ByteType(s[ptr]);
    if !Space(t) && t != Quest {
      return Halt(Invalid);
    }
    var tok := PiTarget(target);
    if tok == Invalid {
      return Halt(Invalid);
    }
    if Space(t) {
      v := ScanPiBody(names, s, ptr + 1, tok);
      return v;
    }
    Unroll(names, PiNameEnd(tok), s, ptr + 1);
    if ptr + 1 == |s| {
      return Halt(Partial);
    }
    return if s[ptr + 1] == 0x3E then Token(tok, ptr + 2) else Halt(Invalid);
  }

  /** scanPi: `ptr` is after the question mark, where the target starts. */
  method ScanPi(names: Naming, s: seq<Byte>, start: nat) returns (v: Verdict)
    requires start <= |s|
    ensures v == Run(names, PiStart, s, start)
  {
    hide Run, NameStart, NameInner, TagStep, AttStep, PiTarget, PiStep, ByteType;
    var ptr := start;
    Unroll(names, PiStart, s, ptr);
    if ptr == |s| {
      return Halt(Partial);
    }
    match NameStart(names, s, ptr) {
      case Adv(n) => ptr := ptr + n;
      case Fail(tok) => return Halt(tok);
      case Others => return Halt(Invalid);
    }
    while ptr < |s|
      invariant start < ptr <= |s|
      invariant Run(names, PiStart, s, start) == Run(names, PiName(s[start..ptr]), s, ptr)
    {
      Unroll(names, PiName(s[start..ptr]), s, ptr);
      match NameInner(names, s, ptr) {
        case Adv(n) =>
          assert s[start..ptr] + s[ptr..ptr + n] == s[start..ptr + n];
          ptr := ptr + n;
        case Fail(tok) => return Halt(tok);
        case Others =>
          v := ScanPiTarget(names, s, s[start..ptr], ptr);
          return v;
      }
    }
    Unroll(names, PiName(s[start..ptr]), s, ptr);
    return Halt(Partial);
  }

  /** After the slash of an empty element only the end may come. */
  method ScanSlash(s: seq<Byte>, ptr: nat, tok: Tok) returns (v: Verdict)
    requires ptr <= |s|
    ensures v == SlashEnd(s, ptr, tok)
  {
    if ptr == |s| {
      return Halt(Partial);
    }
    return if s[ptr] == 0x3E then Token(tok, ptr + 1) else Halt(Invalid);
  }

  /** What ScanSlash finds. */
  function SlashEnd(s: seq<Byte>, p: nat, tok: Tok): Verdict
    requires p <= |s|
  {
    if p == |s| then Halt(Partial) else if s[p] == 0x3E then Token(tok, p + 1) else Halt(Invalid)
  }

  lemma SlashRead(names: Naming, s: seq<Byte>, p: nat)
    requires p <= |s|
    ensures Run(names, TagSlash, s, p) == SlashEnd(s, p, EmptyElementNoAtts)
    ensures Run(names, AttSlash, s, p) == SlashEnd(s, p, EmptyElementWithAtts)
  {
    hide Run, OtherStep, ValueStep;
    Unroll(names, TagSlash, s, p);
    Unroll(names, AttSlash, s, p);
  }

  lemma GapRead(names: Naming, s: seq<Byte>, p: nat)
    requires p < |s|
    ensures Run(names, AfterValue, s, p) ==
      (var t := ByteType(s[p]);
       if Space(t) then Run(names, AttGap, s, p + 1)
       else if t == Sol then SlashEnd(s, p + 1, EmptyElementWithAtts)
       else if t == Gt then Token(StartTagWithAtts, p + 1)
       else Halt(Invalid))
    ensures Run(names, AttGap, s, p) ==
      match NameStart(names, s, p)
      case Adv(n) => Run(names, AttName(false), s, p + n)
      case Fail(tok) => Halt(tok)
      case Others =>
        var t := ByteType(s[p]);
        if Space(t) then Run(names, AttGap, s, p + 1)
        else if t == Gt then Token(StartTagWithAtts, p + 1)
        else if t == Sol then SlashEnd(s, p + 1, EmptyElementWithAtts)
        else Halt(Invalid)
  {
    hide Run, NameStart, NameInner, ByteType, TagStep, OtherStep, ValueStep, SlashEnd;
    Unroll(names, AfterValue, s, p);
    Unroll(names, AttGap, s, p);
    if ByteType(s[p]) == Sol { SlashRead(names, s, p + 1); }
  }

  lemma TagRead(names: Naming, s: seq<Byte>, p: nat, colon: bool)
    requires p < |s|
    ensures Run(names, TagName(colon), s, p) ==
      match NameInner(names, s, p)
      case Adv(n) => Run(names, TagName(colon), s, p + n)
      case Fail(tok) => Halt(tok)
      case Others =>
        var t := ByteType(s[p]);
        if t == Colon then if colon then Halt(Invalid) else Run(names, TagColon, s, p + 1)
        else if Space(t) then Run(names, TagSpace, s, p + 1)
        else if t == Gt then Token(StartTagNoAtts, p + 1)
        else if t == Sol then SlashEnd(s, p + 1, EmptyElementNoAtts)
        else Halt(Invalid)
    ensures Run(names, TagSpace, s, p) ==
      match NameStart(names, s, p)
      case Adv(n) => Run(names, AttName(false), s, p + n)
      case Fail(tok) => Halt(tok)
      case Others =>
        var t := ByteType(s[p]);
        if Space(t) then Run(names, TagSpace, s, p + 1)
        else if t == Gt then Token(StartTagNoAtts, p + 1)
        else if t == Sol then SlashEnd(s, p + 1, EmptyElementNoAtts)
        else Halt(Invalid)
  {
    hide Run, NameStart, NameInner, ByteType, AttStep, OtherStep, SlashEnd;
    Unroll(names, TagName(colon), s, p);
    Unroll(names, TagSpace, s, p);
    if ByteType(s[p]) == Sol { SlashRead(names, s, p + 1); }
  }

  lemma ColonRead(names: Naming, s: seq<Byte>, p: nat)
    requires p <= |s|
    ensures Run(names, TagColon, s, p) ==
      if p == |s| then Halt(Partial) else
      match NameStart(names, s, p)
      case Adv(n) => Run(names, TagName(true), s, p + n)
      case Fail(tok) => Halt(tok)
      case Others => Halt(Invalid)
  {
    hide Run, NameStart, NameInner, ByteType, AttStep, OtherStep;
    Unroll(names, TagColon, s, p);
  }

  /** White space before the equals sign of an attribute. */
  method ScanEquals(names: Naming, s: seq<Byte>, start: nat) returns (stop: bool, v: Verdict, next: nat)
    requires start <= |s|
    ensures stop ==> v == Run(names, AttSpace, s, start)
    ensures !stop ==> start < next <= |s| && Run(names, AttEquals, s, next) == Run(names, AttSpace, s, start)
  {
    hide Run, NameStart, NameInner, TagStep, OtherStep, AnyChar, ValueStep, ByteType;
    var ptr := start;
    while true
      invariant start <= ptr <= |s| && Run(names, AttSpace, s, start) == Run(names, AttSpace, s, ptr)
      decreases |s| - ptr
    {
      Unroll(names, AttSpace, s, ptr);
      if ptr == |s| {
        return true, Halt(Partial), start;
      }
      var t := ByteType(s[ptr]);
      ptr := ptr + 1;
      if t == Equals {
        return false, Halt(Partial), ptr;
      }
      if !Space(t) {
        return true, Halt(Invalid), start;
      }
    }
  }

  /** White space after it, up to the opening quote. */
  method ScanOpen(names: Naming, s: seq<Byte>, start: nat) returns (stop: bool, v: Verdict, open: Bt, next: nat)
    requires start <= |s|
    ensures stop ==> v == Run(names, AttEquals, s, start)
    ensures !stop ==> start < next <= |s| && Run(names, Value(open), s, next) == Run(names, AttEquals, s, start)
  {
    hide Run, NameStart, NameInner, TagStep, OtherStep, AnyChar, ValueStep, ByteType;
    var ptr := start;
    while true
      invariant start <= ptr <= |s| && Run(names, AttEquals, s, start) == Run(names, AttEquals, s, ptr)
      decreases |s| - ptr
    {
      Unroll(names, AttEquals, s, ptr);
      if ptr == |s| {
        return true, Halt(Partial), Quot, start;
      }
      open := ByteType(s[ptr]);
      ptr := ptr + 1;
      if open == Quot || open == Apos {
        return false, Halt(Partial), open, ptr;
      }
      if !Space(open) {
        return true, Halt(Invalid), open, start;
      }
    }
  }

  /** The value of an attribute whose name ends at `start`: up to the closing quote. */
  method ScanValue(names: Naming, s: seq<Byte>, start: nat, hadColon: bool) returns (stop: bool, v: Verdict, next: nat)
    requires start < |s| && (Space(ByteType(s[start])) || ByteType(s[start]) == Equals) && NameInner(names, s, start) == Others
    ensures stop ==> v == Run(names, AttName(hadColon), s, start)
    ensures !stop ==> start < next <= |s| && Run(names, AfterValue, s, next) == Run(names, AttName(hadColon), s, start)
  {
    hide Run, NameStart, NameInner, TagStep, OtherStep, AnyChar, ValueStep, ByteType;
    Unroll(names, AttName(hadColon), s, start);
    next := start + 1;
    if ByteType(s[start]) != Equals {
      stop, v, next := ScanEquals(names, s, next);
      if stop {
        return stop, v, next;
      }
    }
    var open;
    stop, v, open, next := ScanOpen(names, s, next);
    if stop {
      return stop, v, next;
    }
    ghost var quoted := next;
    stop, v, next := ScanQuoted(names, s, next, open);
    assert stop ==> v == Run(names, Value(open), s, quoted);
  }

  /** Inside the quotes. */
  method ScanQuoted(names: Naming, s: seq<Byte>, start: nat, open: Bt) returns (stop: bool, v: Verdict, next: nat)
    requires start <= |s|
    ensures stop ==> v == Run(names, Value(open), s, start)
    ensures !stop ==> start < next <= |s| && Run(names, AfterValue, s, next) == Run(names, Value(open), s, start)
  {
    hide Run, NameStart, NameInner, TagStep, OtherStep, AnyChar, RefRun, ByteType;
    var ptr := start;
    while true
      invariant start <= ptr <= |s| && Run(names, Value(open), s, start) == Run(names, Value(open), s, ptr)
      decreases |s| - ptr
    {
      Unroll(names, Value(open), s, ptr);
      if ptr == |s| {
        return true, Halt(Partial), start;
      }
      var t := ByteType(s[ptr]);
      if t == open {
        break;
      }
      match AnyChar(s, ptr) {
        case Adv(n) => ptr := ptr + n;
        case Fail(tok) => return true, Halt(tok), start;
        case Others =>
          if t == Amp {
            v := ScanRef(names, s, ptr + 1);
            if v.Halt? {
              return true, v, start;
            }
            ptr := v.next;
          } else if t == Lt {
            return true, Halt(Invalid), start;
          } else {
            ptr := ptr + 1;
          }
      }
    }
    return false, Halt(Partial), ptr + 1;
  }

  /** scanAtts: `ptr` is after the first character of an attribute's name. */
  method ScanAtts(names: Naming, s: seq<Byte>, start: nat) returns (v: Verdict)
    requires start <= |s|
    ensures v == Run(names, AttName(false), s, start)
  {
    hide Run, NameStart, NameInner, TagStep, OtherStep, ValueStep, ByteType;
    var ptr, hadColon := start, false;
    while ptr < |s|
      invariant start <= ptr <= |s|
      invariant Run(names, AttName(false), s, start) == Run(names, AttName(hadColon), s, ptr)
      decreases |s| - ptr
    {
      Unroll(names, AttName(hadColon), s, ptr);
      match NameInner(names, s, ptr) {
        case Adv(n) => ptr := ptr + n;
        case Fail(tok) => return Halt(tok);
        case Others =>
          var t := ByteType(s[ptr]);
          if t == Colon {
            if hadColon {
              return Halt(Invalid);
            }
            hadColon := true;
            ptr := ptr + 1;
            Unroll(names, AttColon, s, ptr);
            if ptr == |s| {
              return Halt(Partial);
            }
            match NameStart(names, s, ptr) {
              case Adv(n) => ptr := ptr + n;
              case Fail(tok) => return Halt(tok);
              case Others => return Halt(Invalid);
            }
          } else if Space(t) || t == Equals {
            var stop;
            stop, v, ptr := ScanValue(names, s, ptr, hadColon);
            if stop {
              return v;
            }
            hadColon := false;
            stop, v, ptr := ScanGap(names, s, ptr);
            if stop {
              return v;
            }
          } else {
            return Halt(Invalid);
          }
      }
    }
    Unroll(names, AttName(hadColon), s, ptr);
    return Halt(Partial);
  }

  /** After the closing quote: the next attribute, or the end of the tag. */
  method ScanGap(names: Naming, s: seq<Byte>, start: nat) returns (stop: bool, v: Verdict, next: nat)
    requires start <= |s|
    ensures stop ==> v == Run(names, AfterValue, s, start)
    ensures !stop ==> start < next <= |s| && Run(names, AttName(false), s, next) == Run(names, AfterValue, s, start)
  {
    hide Run, Step, NameStart, ByteType, SlashEnd;
    var ptr := start;
    if ptr == |s| {
      EndOfInput(names, AfterValue, s);
      return true, Halt(Partial), start;
    }
    GapRead(names, s, ptr);
    var t := ByteType(s[ptr]);
    if t == Sol {
      v := ScanSlash(s, ptr + 1, EmptyElementWithAtts);
      return true, v, start;
    } else if t == Gt {
      return true, Token(StartTagWithAtts, ptr + 1), start;
    } else if !Space(t) {
      return true, Halt(Invalid), start;
    }
    while true
      invariant start <= ptr < |s| && Run(names, AfterValue, s, start) == Run(names, AttGap, s, ptr + 1)
      decreases |s| - ptr
    {
      ptr := ptr + 1;
      if ptr == |s| {
        EndOfInput(names, AttGap, s);
        return true, Halt(Partial), start;
      }
      GapRead(names, s, ptr);
      match NameStart(names, s, ptr) {
        case Adv(n) => return false, Halt(Partial), ptr + n;
        case Fail(tok) => return true, Halt(tok), start;
        case Others =>
          t := ByteType(s[ptr]);
          if t == Gt {
            return true, Token(StartTagWithAtts, ptr + 1), start;
          } else if t == Sol {
                  v := ScanSlash(s, ptr + 1, EmptyElementWithAtts);
            return true, v, start;
          } else if !Space(t) {
            return true, Halt(Invalid), start;
          }
      }
    }
  }

  /** White space inside a start tag: an attribute or the end of the tag follows. */
  method ScanTagSpace(names: Naming, s: seq<Byte>, start: nat) returns (v: Verdict)
    requires start <= |s|
    ensures v == Run(names, TagSpace, s, start)
  {
    hide Run, Step, NameStart, NameInner, ByteType, SlashEnd;
    var ptr := start;
    while ptr < |s|
      invariant start <= ptr <= |s|
      invariant Run(names, TagSpace, s, start) == Run(names, TagSpace, s, ptr)
    {
      TagRead(names, s, ptr, false);
      match NameStart(names, s, ptr) {
        case Adv(n) =>
          v := ScanAtts(names, s, ptr + n);
          return v;
        case Fail(tok) => return Halt(tok);
        case Others =>
          var t := ByteType(s[ptr]);
          if t == Gt {
            return Token(StartTagNoAtts, ptr + 1);
          } else if t == Sol {
            v := ScanSlash(s, ptr + 1, EmptyElementNoAtts);
            return v;
          } else if !Space(t) {
            return Halt(Invalid);
          }
          ptr := ptr + 1;
      }
    }
    EndOfInput(names, TagSpace, s);
    return Halt(Partial);
  }

  /** The rest of a start tag, after the first character of its name. */
  method ScanTag(names: Naming, s: seq<Byte>, start: nat) returns (v: Verdict)
    requires start <= |s|
    ensures v == Run(names, TagName(false), s, start)
  {
    hide Run, Step, NameStart, NameInner, ByteType, SlashEnd;
    var ptr, hadColon := start, false;
    while ptr < |s|
      invariant start <= ptr <= |s|
      invariant Run(names, TagName(false), s, start) == Run(names, TagName(hadColon), s, ptr)
      decreases |s| - ptr
    {
      TagRead(names, s, ptr, hadColon);
      match NameInner(names, s, ptr) {
        case Adv(n) => ptr := ptr + n;
        case Fail(tok) => return Halt(tok);
        case Others =>
          var t := ByteType(s[ptr]);
          if t == Colon {
            if hadColon {
              return Halt(Invalid);
            }
            hadColon := true;
            ptr := ptr + 1;
            ColonRead(names, s, ptr);
            if ptr == |s| {
              return Halt(Partial);
            }
            match NameStart(names, s, ptr) {
              case Adv(n) => ptr := ptr + n;
              case Fail(tok) => return Halt(tok);
              case Others => return Halt(Invalid);
            }
          } else if Space(t) {
            v := ScanTagSpace(names, s, ptr + 1);
            return v;
          } else if t == Gt {
            return Token(StartTagNoAtts, ptr + 1);
          } else if t == Sol {
            v := ScanSlash(s, ptr + 1, EmptyElementNoAtts);
            return v;
          } else {
            return Halt(Invalid);
          }
      }
    }
    EndOfInput(names, TagName(hadColon), s);
    return Halt(Partial);
  }

  /** scanLt: `ptr` is after the less-than sign. */
  method ScanLt(names: Naming, s: seq<Byte>, ptr: nat) returns (v: Verdict)
    requires ptr <= |s|
    ensures v == Run(names, AfterLt, s, ptr)
  {
    hide Run, NameStart, NameInner, AttStep, AnyChar, ByteType;
    Unroll(names, AfterLt, s, ptr);
    if ptr == |s| {
      return Halt(Partial);
    }
    match NameStart(names, s, ptr) {
      case Adv(n) => v := ScanTag(names, s, ptr + n);
      case Fail(tok) => v := Halt(tok);
      case Others =>
        var t := ByteType(s[ptr]);
        if t == Excl {
          Unroll(names, AfterExcl, s, ptr + 1);
          if ptr + 1 == |s| {
            return Halt(Partial);
          }
          t := ByteType(s[ptr + 1]);
          if t == Minus {
            v := ScanComment(names, s, ptr + 2);
          } else if t == Lsqb {
            v := ScanCdataSection(names, s, ptr + 2);
          } else {
            v := Halt(Invalid);
          }
        } else if t == Quest {
          v := ScanPi(names, s, ptr + 1);
        } else if t == Sol {
          v := ScanEndTag(names, s, ptr + 1);
        } else {
          v := Halt(Invalid);
        }
    }
  }

  /** contentTok */
  method ScanContent(names: Naming, s: seq<Byte>, start: nat) returns (v: Verdict)
    requires start <= |s|
    ensures v == ContentTok(names, s, start)
  {
    hide Run, RefRun, AnyChar, DataStep, Data;
    if start == |s| {
      return Halt(NoTok);
    }
    var ptr := start;
    var t := ByteType(s[ptr]);
    if t == Lt {
      v := ScanLt(names, s, ptr + 1);
      return v;
    } else if t == Amp {
      v := ScanRef(names, s, ptr + 1);
      return v;
    } else if t == Cr {
      ptr := ptr + 1;
      if ptr == |s| {
        return Halt(TrailingCr);
      }
      if ByteType(s[ptr]) == Lf {
        ptr := ptr + 1;
      }
      return Token(DataNewline, ptr);
    } else if t == Lf {
      return Token(DataNewline, ptr + 1);
    } else if t == Rsqb {
      ptr := ptr + 1;
      if ptr == |s| {
        return Halt(TrailingRsqb);
      }
      if s[ptr] == 0x5D {
        ptr := ptr + 1;
        if ptr == |s| {
          return Halt(TrailingRsqb);
        }
        if s[ptr] == 0x3E {
          return Halt(Invalid);
        }
        ptr := ptr - 1;
      }
    } else {
      match AnyChar(s, ptr) {
        case Adv(n) => ptr := ptr + n;
        case Fail(tok) => return Halt(tok);
        case Others => ptr := ptr + 1;
      }
    }
    assert ContentTok(names, s, start) == Data(s, ptr);
    v := ScanData(s, ptr);
  }

  /** The run of data that contentTok ends with. */
  method ScanData(s: seq<Byte>, start: nat) returns (v: Verdict)
    requires start <= |s|
    ensures v == Data(s, start)
  {
    hide DataStep, ByteType;
    var ptr := start;
    while ptr < |s|
      invariant start <= ptr <= |s| && Data(s, start) == Data(s, ptr)
      decreases |s| - ptr
    {
      match DataStep(s, ptr) {
        case Adv(n) => ptr := ptr + n;
        case Fail(_) => return Halt(Invalid);
        case Others => return Token(DataChars, ptr);
      }
    }
    return Token(DataChars, ptr);
  }

  /** The loop of doContent over a buffer that is not the last one. */
  method DrainBuffer(names: Naming, s: seq<Byte>, start: nat) returns (pieces: seq<Piece>, rest: nat, bad: bool)
    requires start <= |s|
    ensures Drained(pieces, rest, bad) == Drain(names, s, start)
  {
    hide ContentTok, Drain;
    pieces, rest := [], start;
    ghost var whole := Drain(names, s, start);
    while true
      invariant start <= rest <= |s|
      invariant whole == Found(pieces, Drain(names, s, rest))
      decreases |s| - rest
    {
      var v := ScanContent(names, s, rest);
      DrainNext(names, s, rest, pieces);
      if v.Halt? {
        return pieces, rest, v.tok == Invalid;
      }
      pieces := pieces + [Piece(v.tok, s[rest..v.next])];
      rest := v.next;
    }
  }

  function Found(pieces: seq<Piece>, d: Drained): Drained {
    Drained(pieces + d.pieces, d.rest, d.bad)
  }

  lemma DrainNext(names: Naming, s: seq<Byte>, p: nat, pieces: seq<Piece>)
    requires p <= |s|
    ensures var v := ContentTok(names, s, p);
            Found(pieces, Drain(names, s, p)) ==
              if v.Halt? then Drained(pieces, p, v.tok == Invalid)
              else Found(pieces + [Piece(v.tok, s[p..v.next])], Drain(names, s, v.next))
  {
    hide ContentTok;
    var v := ContentTok(names, s, p);
    if v.Token? {
      var x, rest := Piece(v.tok, s[p..v.next]), Drain(names, s, v.next).pieces;
      assert pieces + ([x] + rest) == pieces + [x] + rest;
    }
  }
}
