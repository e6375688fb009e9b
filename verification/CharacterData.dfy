/** What the parser makes of character data: references (expat/xmltok_impl.c, expat/xmltok.c) and the
    text that doContent hands to the application (expat/xmlparse.c). */
module CharacterData {
  import opened Wrappers
  import opened XmlBytes
  import opened ContentScanner
  import opened ScannerChunks
  import opened ContentLoops

  /** The Char production, section 2.2 of XML 1.0. */
  predicate XmlChar(c: nat) {
    c == 0x9 || c == 0xA || c == 0xD || 0x20 <= c < 0xD800 || 0xE000 <= c < 0xFFFE || 0x10000 <= c < 0x110000
  }

  predicate XmlChars(cs: seq<nat>) {
    forall i :: 0 <= i < |cs| ==> XmlChar(cs[i])
  }

  // ------------------------------------------------------------------ character references

  /** checkCharRefNumber */
  function CheckCharRefNumber(result: nat): int
    requires result < 0x110000
  {
    var high := result / 0x100;
    if 0xD8 <= high <= 0xDF then -1
    else if high == 0 then if result < 0x20 && result !in {0x9, 0xA, 0xD} then -1 else result
    else if high == 0xFF then if result == 0xFFFE || result == 0xFFFF then -1 else result
    else result
  }

  lemma CheckIsChar(result: nat)
    requires result < 0x110000
    ensures CheckCharRefNumber(result) == if XmlChar(result) then result else -1
  {
  }

  function HexDigit(b: Byte): nat {
    if 0x30 <= b <= 0x39 then b - 0x30
    else if 0x41 <= b <= 0x46 then 10 + (b - 0x41)
    else if 0x61 <= b <= 0x66 then 10 + (b - 0x61)
    else 0
  }

  function DecDigit(b: Byte): nat {
    if 0x30 <= b <= 0x39 then b - 0x30 else 0
  }

  /** The number that digits denote. */
  function ValueOf(digits: seq<Byte>, hex: bool): nat {
    if digits == [] then 0
    else var n := |digits| - 1;
         if hex then ValueOf(digits[..n], hex) * 16 + HexDigit(digits[n])
         else ValueOf(digits[..n], hex) * 10 + DecDigit(digits[n])
  }

  lemma {:induction false} ValueGrows(digits: seq<Byte>, n: nat, hex: bool)
    requires n <= |digits|
    ensures ValueOf(digits, hex) >= ValueOf(digits[..n], hex)
  {
    if n < |digits| {
      ValueGrows(digits[..|digits| - 1], n, hex);
      assert digits[..|digits| - 1][..n] == digits[..n];
    } else {
      assert digits[..n] == digits;
    }
  }

  /** The digits of a reference and whether they are hexadecimal; `ref` is all of it, from the
      ampersand to the semicolon. */
  predicate IsCharRef(ref: seq<Byte>) {
    && |ref| >= 4 && ref[0] == 0x26 && ref[1] == 0x23 && ref[|ref| - 1] == 0x3B
    && (forall i :: 2 <= i < |ref| - 1 ==> ref[i] != 0x3B)
    && (ref[2] != 0x78 ==> forall i :: 2 <= i < |ref| - 1 ==> 0x30 <= ref[i] <= 0x39)
    && (ref[2] == 0x78 ==> forall i :: 3 <= i < |ref| - 1 ==> ByteType(ref[i]) in {Digit, Hex})
  }

  function DigitsOf(ref: seq<Byte>): seq<Byte>
    requires IsCharRef(ref)
  {
    if ref[2] == 0x78 then ref[3..|ref| - 1] else ref[2..|ref| - 1]
  }

  function NumberOf(ref: seq<Byte>): (r: int)
    requires IsCharRef(ref)
    ensures r < 0x110000
  {
    var n := ValueOf(DigitsOf(ref), ref[2] == 0x78);
    if n < 0x110000 && XmlChar(n) then n else -1
  }

  /** charRefNumber: the loops give up as soon as the number is too large for a character. */
  method CharRefNumber(ref: seq<Byte>) returns (r: int)
    requires IsCharRef(ref)
    ensures r == NumberOf(ref)
  {
    hide ValueOf;
    ghost var digits, hex := DigitsOf(ref), ref[2] == 0x78;
    var result := 0;
    var ptr := 2;
    if ref[ptr] == 0x78 {
      ptr := ptr + 1;
      NoDigits(digits, true);
      while ref[ptr] != 0x3B
        invariant 3 <= ptr < |ref| && result == ValueOf(digits[..ptr - 3], true) < 0x110000
        decreases |ref| - ptr
      {
        MoreDigits(digits, ptr - 3, true);
        assert digits[ptr - 3] == ref[ptr];
        result := result * 16 + HexDigit(ref[ptr]);
        ptr := ptr + 1;
        if result >= 0x110000 {
          ValueGrows(digits, ptr - 3, true);
          return -1;
        }
      }
      assert digits[..ptr - 3] == digits;
    } else {
      NoDigits(digits, false);
      while ref[ptr] != 0x3B
        invariant 2 <= ptr < |ref| && result == ValueOf(digits[..ptr - 2], false) < 0x110000
        decreases |ref| - ptr
      {
        MoreDigits(digits, ptr - 2, false);
        assert digits[ptr - 2] == ref[ptr];
        result := result * 10 + (ref[ptr] - 0x30);
        ptr := ptr + 1;
        if result >= 0x110000 {
          ValueGrows(digits, ptr - 2, false);
          return -1;
        }
      }
      assert digits[..ptr - 2] == digits;
    }
    CheckIsChar(result);
    return CheckCharRefNumber(result);
  }

  lemma NoDigits(digits: seq<Byte>, hex: bool)
    ensures ValueOf(digits[..0], hex) == 0
  {
  }

  lemma {:induction false} MoreDigits(digits: seq<Byte>, n: nat, hex: bool)
    requires n < |digits|
    ensures ValueOf(digits[..n + 1], hex) ==
      if hex then ValueOf(digits[..n], hex) * 16 + HexDigit(digits[n]) else ValueOf(digits[..n], hex) * 10 + DecDigit(digits[n])
  {
    assert digits[..n + 1][..n] == digits[..n];
  }

  /** What the scanner takes for a character reference is one. */
  lemma {:induction false} RefIsCharRef(names: Naming, s: seq<Byte>, p: nat)
    requires p < |s| && s[p] == 0x26
    requires var v := RefRun(names, RefStart, s, p + 1); v.Token? && v.tok == CharRef
    ensures IsCharRef(s[p..RefRun(names, RefStart, s, p + 1).next])
  {
    hide RefRun, NameStart, NameInner, ByteType, IsCharRef;
    RefUnroll(names, RefStart, s, p + 1);
    if NameStart(names, s, p + 1).Adv? {
      NameIsEntity(names, s, p + 1 + NameStart(names, s, p + 1).n);
    } else {
      NumSign(s[p + 1]);
      RefUnroll(names, CharRefStart, s, p + 2);
      if s[p + 2] == 0x78 {
        RefUnroll(names, HexStart, s, p + 3);
        NumSign(s[p + 3]);
        HexDigits(names, s, p + 4);
        HexShaped(s, p, RefRun(names, RefStart, s, p + 1).next);
      } else {
        NumSign(s[p + 2]);
        DecDigits(names, s, p + 3);
        DecShaped(s, p, RefRun(names, RefStart, s, p + 1).next);
      }
    }
  }

  lemma HexShaped(s: seq<Byte>, p: nat, q: nat)
    requires p + 4 < q <= |s| && s[p] == 0x26 && s[p + 1] == 0x23 && s[p + 2] == 0x78 && s[q - 1] == 0x3B
    requires forall i :: p + 3 <= i < q - 1 ==> ByteType(s[i]) in {Digit, Hex}
    ensures IsCharRef(s[p..q])
  {
    var ref := s[p..q];
    forall i | 3 <= i < |ref| - 1
      ensures ByteType(ref[i]) in {Digit, Hex} && ref[i] != 0x3B
    {
      assert ref[i] == s[p + i];
    }
  }

  lemma DecShaped(s: seq<Byte>, p: nat, q: nat)
    requires p + 3 < q <= |s| && s[p] == 0x26 && s[p + 1] == 0x23 && s[q - 1] == 0x3B
    requires forall i :: p + 2 <= i < q - 1 ==> 0x30 <= s[i] <= 0x39
    ensures IsCharRef(s[p..q])
  {
    var ref := s[p..q];
    forall i | 2 <= i < |ref| - 1
      ensures 0x30 <= ref[i] <= 0x39
    {
      assert ref[i] == s[p + i];
    }
  }

  lemma NumSign(b: Byte)
    ensures ByteType(b) == Num <==> b == 0x23
    ensures ByteType(b) == Semi <==> b == 0x3B
    ensures ByteType(b) == Digit <==> 0x30 <= b <= 0x39
  {
  }

  lemma {:induction false} NameIsEntity(names: Naming, s: seq<Byte>, p: nat)
    requires p <= |s|
    ensures var v := RefRun(names, RefName, s, p); v.Token? ==> v.tok == EntityRef && s[v.next - 1] == 0x3B
    decreases |s| - p
  {
    hide RefRun, NameInner, NameStart;
    RefUnroll(names, RefName, s, p);
    if p < |s| {
      NumSign(s[p]);
      if NameInner(names, s, p).Adv? { NameIsEntity(names, s, p + NameInner(names, s, p).n); }
    }
  }

  lemma {:induction false} HexDigits(names: Naming, s: seq<Byte>, p: nat)
    requires p <= |s|
    ensures var v := RefRun(names, Hexadecimal, s, p);
            v.Token? ==> s[v.next - 1] == 0x3B && forall i :: p <= i < v.next - 1 ==> ByteType(s[i]) in {Digit, Hex}
    decreases |s| - p
  {
    hide RefRun;
    RefUnroll(names, Hexadecimal, s, p);
    if p < |s| {
      NumSign(s[p]);
      if ByteType(s[p]) in {Digit, Hex} { HexDigits(names, s, p + 1); }
    }
  }

  lemma {:induction false} DecDigits(names: Naming, s: seq<Byte>, p: nat)
    requires p <= |s|
    ensures var v := RefRun(names, Decimal, s, p);
            v.Token? ==> s[v.next - 1] == 0x3B && forall i :: p <= i < v.next - 1 ==> 0x30 <= s[i] <= 0x39
    decreases |s| - p
  {
    hide RefRun;
    RefUnroll(names, Decimal, s, p);
    if p < |s| {
      NumSign(s[p]);
      if ByteType(s[p]) == Digit { DecDigits(names, s, p + 1); }
    }
  }

  // ------------------------------------------------------------------ predefined entities

  /** predefinedEntityName: zero for a name that is none of the five. */
  function PredefinedEntity(name: seq<Byte>): (b: Byte)
    ensures b < 0x80
  {
    if name == [0x6C, 0x74] then 0x3C
    else if name == [0x67, 0x74] then 0x3E
    else if name == [0x61, 0x6D, 0x70] then 0x26
    else if name == [0x71, 0x75, 0x6F, 0x74] then 0x22
    else if name == [0x61, 0x70, 0x6F, 0x73] then 0x27
    else 0
  }

  // ------------------------------------------------------------------ the text of an element

  /** Text heard, and where and at what the reading of it stopped. */
  datatype Heard = Heard(bytes: seq<Byte>, next: nat, at: Tok)

  function Before(bytes: seq<Byte>, h: Heard): Heard {
    h.(bytes := bytes + h.bytes)
  }

  /** Character data and references to characters from `p` on, as doContent decodes them. */
  function Hear(names: Naming, s: seq<Byte>, p: nat): (h: Heard)
    requires p <= |s|
    decreases |s| - p
  {
    var v := ContentTok(names, s, p);
    if v.Halt? then Heard([], p, v.tok) else
    var piece := Spoken(v.tok, s[p..v.next]);
    if piece.Some? then Before(piece.value, Hear(names, s, v.next))
    else Heard([], p, if v.tok == CharRef then Invalid else v.tok)
  }

  /** The text of a token; none for markup, for a reference to no character and for an entity to look up. */
  function Spoken(tok: Tok, bytes: seq<Byte>): Option<seq<Byte>> {
    match tok
    case DataChars => Some(bytes)
    case DataNewline => Some([0x0A])
    case CharRef => if IsCharRef(bytes) && NumberOf(bytes) >= 0 then Some(Encode(NumberOf(bytes))) else None
    case EntityRef =>
      if |bytes| >= 2 && PredefinedEntity(bytes[1..|bytes| - 1]) != 0 then Some([PredefinedEntity(bytes[1..|bytes| - 1])]) else None
    case _ => None
  }

  /** The text cases of doContent's loop; anything else ends it here. */
  method ReadText(names: Naming, s: seq<Byte>, start: nat) returns (bytes: seq<Byte>, next: nat, at: Tok)
    requires start <= |s|
    ensures Heard(bytes, next, at) == Hear(names, s, start)
  {
    hide ContentTok, IsCharRef, NumberOf, PredefinedEntity, Hear;
    bytes, next := [], start;
    while true
      invariant start <= next <= |s|
      invariant Hear(names, s, start) == Before(bytes, Hear(names, s, next))
      decreases |s| - next
    {
      HearNext(names, s, next, bytes);
      var v := ScanContent(names, s, next);
      if v.Halt? {
        return bytes, next, v.tok;
      }
      if v.tok == DataChars {
        bytes := bytes + s[next..v.next];
      } else if v.tok == DataNewline {
        bytes := bytes + [0x0A];
      } else if v.tok == CharRef {
        CharRefToken(names, s, next);
        var n := CharRefNumber(s[next..v.next]);
        if n < 0 {
          return bytes, next, Invalid;
        }
        bytes := bytes + Encode(n);
      } else if v.tok == EntityRef {
        EntityRefToken(names, s, next);
        var ref := s[next..v.next];
        var ch := PredefinedEntity(ref[1..|ref| - 1]);
        if ch == 0 {
          return bytes, next, EntityRef;
        }
        bytes := bytes + [ch];
      } else {
        return bytes, next, v.tok;
      }
      next := v.next;
    }
  }

  lemma HearNext(names: Naming, s: seq<Byte>, p: nat, bytes: seq<Byte>)
    requires p <= |s|
    ensures var v := ContentTok(names, s, p);
            Before(bytes, Hear(names, s, p)) ==
              if v.Halt? then Heard(bytes, p, v.tok) else
              var piece := Spoken(v.tok, s[p..v.next]);
              if piece.Some? then Before(bytes + piece.value, Hear(names, s, v.next))
              else Heard(bytes, p, if v.tok == CharRef then Invalid else v.tok)
  {
    hide ContentTok, Spoken;
    assert bytes + [] == bytes;
    var v := ContentTok(names, s, p);
    if v.Token? && Spoken(v.tok, s[p..v.next]).Some? {
      BeforeTwice(bytes, Spoken(v.tok, s[p..v.next]).value, Hear(names, s, v.next));
    }
  }

  lemma BeforeTwice(x: seq<Byte>, y: seq<Byte>, h: Heard)
    ensures Before(x, Before(y, h)) == Before(x + y, h)
  {
    assert x + (y + h.bytes) == x + y + h.bytes;
  }

  /** Only an ampersand starts a reference. */
  lemma {:induction false} RefToken(names: Naming, s: seq<Byte>, p: nat)
    requires p <= |s|
    requires var v := ContentTok(names, s, p); v.Token? && v.tok in {CharRef, EntityRef}
    ensures p < |s| && s[p] == 0x26 && ContentTok(names, s, p) == RefRun(names, RefStart, s, p + 1)
  {
    hide Run, RefRun, BracketTok, NewlineTok, CharTok, Sane;
    if ByteType(s[p]) == Lt {
      SaneStart();
      RunTokens(names, AfterLt, s, p + 1);
    } else if ByteType(s[p]) != Amp {
      PlainTokens(s, p);
    }
  }

  lemma PlainTokens(s: seq<Byte>, p: nat)
    requires p < |s|
    ensures BracketTok(s, p).Token? ==> BracketTok(s, p).tok == DataChars
    ensures CharTok(s, p).Token? ==> CharTok(s, p).tok == DataChars
  {
  }

  lemma {:induction false} CharRefToken(names: Naming, s: seq<Byte>, p: nat)
    requires p <= |s|
    requires var v := ContentTok(names, s, p); v.Token? && v.tok == CharRef
    ensures IsCharRef(s[p..ContentTok(names, s, p).next])
  {
    hide ContentTok;
    RefToken(names, s, p);
    RefIsCharRef(names, s, p);
  }

  lemma {:induction false} EntityRefToken(names: Naming, s: seq<Byte>, p: nat)
    requires p <= |s|
    requires var v := ContentTok(names, s, p); v.Token? && v.tok == EntityRef
    ensures ContentTok(names, s, p).next >= p + 2
  {
    hide ContentTok;
    RefToken(names, s, p);
  }
}
