/** UTF-8 as the parser checks and encodes it (expat/xmltok.c) and as the writer decodes it
    (genx/genx.c), with the byte classes that the scanners switch on. */
module XmlBytes {
  type Byte = x: int | 0 <= x < 0x100

  // ------------------------------------------------------------------ byte classes

  /** The classes of xmltok_impl.h; those that only the prolog tells apart are under Other. */
  datatype Bt =
    | NonXml | Malform | Lt | Amp | Rsqb | Lead(n: nat) | Trail | Cr | Lf | Gt | Quot | Apos | Equals
    | Quest | Excl | Sol | Semi | Num | Lsqb | S | Nmstrt | Colon | Hex | Digit | Name | Minus | Other

  /** asciitab.h and utf8tab.h, with the colon told apart for namespaces. */
  function ByteType(b: Byte): (t: Bt)
    ensures t.Lead? ==> 2 <= t.n <= 4
  {
    if b < 0x80 then AsciiType(b)
    else if b < 0xC0 then Trail
    else if b < 0xE0 then Lead(2)
    else if b < 0xF0 then Lead(3)
    else if b < 0xF5 then Lead(4)
    else if b < 0xFE then NonXml
    else Malform
  }

  function AsciiType(b: Byte): (t: Bt)
    requires b < 0x80
    ensures !t.Lead? && t != Trail && t != Malform
  {
    if b == 0x09 || b == 0x20 then S
    else if b == 0x0A then Lf
    else if b == 0x0D then Cr
    else if b < 0x20 then NonXml
    else if 0x30 <= b <= 0x39 then Digit
    else if 0x41 <= b <= 0x46 || 0x61 <= b <= 0x66 then Hex
    else if 0x47 <= b <= 0x5A || b == 0x5F || 0x67 <= b <= 0x7A then Nmstrt
    else match b
      case 0x21 => Excl
      case 0x22 => Quot
      case 0x23 => Num
      case 0x26 => Amp
      case 0x27 => Apos
      case 0x2D => Minus
      case 0x2E => Name
      case 0x2F => Sol
      case 0x3A => Colon
      case 0x3B => Semi
      case 0x3C => Lt
      case 0x3D => Equals
      case 0x3E => Gt
      case 0x3F => Quest
      case 0x5B => Lsqb
      case 0x5D => Rsqb
      case _ => Other
  }

  // ------------------------------------------------------------------ encoding

  /** XmlUtf8Encode */
  function Encode(c: nat): (bs: seq<Byte>)
    requires c < 0x110000
    ensures 1 <= |bs| <= 4
  {
    if c < 0x80 then [c]
    else if c < 0x800 then [0xC0 + c / 0x40, 0x80 + c % 0x40]
    else if c < 0x10000 then [0xE0 + c / 0x1000, 0x80 + c / 0x40 % 0x40, 0x80 + c % 0x40]
    else [0xF0 + c / 0x40000, 0x80 + c / 0x1000 % 0x40, 0x80 + c / 0x40 % 0x40, 0x80 + c % 0x40]
  }

  predicate Scalar(c: nat) {
    c < 0xD800 || 0xE000 <= c < 0x110000
  }

  /** The two characters of the first plane that are no XML characters though they are scalar values. */
  predicate Noncharacter(c: nat) {
    c == 0xFFFE || c == 0xFFFF
  }

  predicate Scalars(cs: seq<nat>) {
    forall i :: 0 <= i < |cs| ==> Scalar(cs[i])
  }

  /** The bytes of a run of characters. */
  function Utf8(cs: seq<nat>): seq<Byte>
    requires Scalars(cs)
  {
    if cs == [] then [] else Encode(cs[0]) + Utf8(cs[1..])
  }

  // ------------------------------------------------------------------ the parser's checks

  /** The bit test for what is not a continuation byte: the high bit clear or the next one set. */
  predicate NotTrail(b: Byte) {
    b < 0x80 || b >= 0xC0
  }

  /** UTF8_INVALID2 */
  predicate Invalid2(p: seq<Byte>)
    requires |p| >= 2
  {
    p[0] < 0xC2 || NotTrail(p[1])
  }

  /** UTF8_INVALID3 */
  predicate Invalid3(p: seq<Byte>)
    requires |p| >= 3
  {
    || p[2] < 0x80
    || (if p[0] == 0xEF && p[1] == 0xBF then p[2] > 0xBD else p[2] >= 0xC0)
    || (if p[0] == 0xE0 then p[1] < 0xA0 || p[1] >= 0xC0
        else p[1] < 0x80 || (if p[0] == 0xED then p[1] > 0x9F else p[1] >= 0xC0))
  }

  /** UTF8_INVALID4 */
  predicate Invalid4(p: seq<Byte>)
    requires |p| >= 4
  {
    || NotTrail(p[3]) || NotTrail(p[2])
    || (if p[0] == 0xF0 then p[1] < 0x90 || p[1] >= 0xC0
        else p[1] < 0x80 || (if p[0] == 0xF4 then p[1] > 0x8F else p[1] >= 0xC0))
  }

  predicate InvalidChar(p: seq<Byte>)
    requires |p| in {2, 3, 4}
  {
    match |p|
    case 2 => Invalid2(p)
    case 3 => Invalid3(p)
    case _ => Invalid4(p)
  }

  /** The six bits that a continuation byte carries. */
  function Six(b: int): int {
    b - 0x80
  }

  /** A lead byte followed by continuation bytes, not longer than need be. */
  predicate Shaped(p: seq<Byte>) {
    && |p| in {2, 3, 4} && ByteType(p[0]) == Lead(|p|)
    && (forall i :: 1 <= i < |p| ==> !NotTrail(p[i]))
    && (|p| == 2 ==> p[0] >= 0xC2) && (p[0] == 0xE0 ==> p[1] >= 0xA0)
    && (p[0] == 0xF0 ==> p[1] >= 0x90) && (p[0] == 0xF4 ==> p[1] <= 0x8F)
  }

  function Lead0(b: int, n: nat): int {
    b - if n == 2 then 0xC0 else if n == 3 then 0xE0 else 0xF0
  }

  /** The character that a byte sequence of the right shape stands for. */
  function Joined(p: seq<Byte>): (c: nat)
    requires Shaped(p)
    ensures c < 0x110000
  {
    var two := Lead0(p[0], |p|) * 0x40 + Six(p[1]);
    if |p| == 2 then two
    else if |p| == 3 then two * 0x40 + Six(p[2])
    else (two * 0x40 + Six(p[2])) * 0x40 + Six(p[3])
  }

  /** Taking the lowest six bits off again and again. */
  lemma Digits(c: nat)
    ensures c / 0x1000 == c / 0x40 / 0x40 && c / 0x40000 == c / 0x1000 / 0x40
    ensures c == c / 0x40 * 0x40 + c % 0x40
    ensures c / 0x40 == c / 0x1000 * 0x40 + c / 0x40 % 0x40
    ensures c / 0x1000 == c / 0x40000 * 0x40 + c / 0x1000 % 0x40
  {
  }

  lemma Joins(x: nat, d: nat)
    requires d < 0x40
    ensures (x * 0x40 + d) / 0x40 == x && (x * 0x40 + d) % 0x40 == d
  {
  }

  lemma {:induction false} JoinedEncodes(p: seq<Byte>)
    requires Shaped(p)
    ensures Encode(Joined(p)) == p
    ensures |p| == 2 ==> 0x80 <= Joined(p) < 0x800
    ensures |p| == 3 ==> 0x800 <= Joined(p) < 0x10000
    ensures |p| == 4 ==> 0x10000 <= Joined(p)
  {
    var lead, d1 := Lead0(p[0], |p|), Six(p[1]);
    var two := lead * 0x40 + d1;
    Joins(lead, d1);
    if |p| > 2 {
      Joins(two, Six(p[2]));
      if |p| > 3 { Joins(two * 0x40 + Six(p[2]), Six(p[3])); }
    }
    Digits(Joined(p));
  }

  lemma {:induction false} EncodedJoins(c: nat)
    requires 0x80 <= c < 0x110000
    ensures Shaped(Encode(c)) && Joined(Encode(c)) == c
  {
    Digits(c);
  }

  /** What the checks let through is the encoding of a character. */
  lemma {:induction false} ValidIsEncoded(p: seq<Byte>)
    requires |p| in {2, 3, 4} && ByteType(p[0]) == Lead(|p|) && !InvalidChar(p)
    ensures Shaped(p)
    ensures var c := Joined(p); 0x80 <= c && Scalar(c) && !Noncharacter(c) && Encode(c) == p
  {
    assert Shaped(p);
    JoinedEncodes(p);
  }

  /** And every character but the two is let through, in the right number of bytes. */
  lemma {:induction false} EncodedIsValid(c: nat)
    requires 0x80 <= c && Scalar(c)
    ensures var p := Encode(c);
            |p| in {2, 3, 4} && ByteType(p[0]) == Lead(|p|) && (InvalidChar(p) <==> Noncharacter(c))
  {
    EncodedJoins(c);
  }

  // ------------------------------------------------------------------ the writer's decoder

  /** The byte at `i`, or the terminating zero. */
  function At(s: seq<Byte>, i: nat): Byte {
    if i < |s| then s[i] else 0
  }

  predicate Cont(b: Byte) {
    0x80 <= b <= 0xBF
  }

  /** genxNextUnicodeChar: the character and the next position; -1 for what is malformed. */
  function NextUnicodeChar(s: seq<Byte>, i: nat): (r: (int, nat))
    ensures r.0 >= 0 ==> i < r.1
  {
    var b0, b1, b2, b3 := At(s, i), At(s, i + 1), At(s, i + 2), At(s, i + 3);
    if b0 == 0 then (-1, i)
    else if b0 < 0x80 then (b0, i + 1)
    else if b0 < 0xC2 then (-1, i + 1)
    else if b0 < 0xE0 then
      if !Cont(b1) then (-1, Past(s, i + 1)) else (Low(Low(0, b0, 0x20), b1, 0x40), i + 2)
    else if b0 < 0xF0 then
      if (b0 == 0xE0 && !(0xA0 <= b1 <= 0xBF)) || (b0 < 0xED && !Cont(b1)) || (b0 == 0xED && !(0x80 <= b1 <= 0x9F))
         || (b0 > 0xED && !Cont(b1)) then (-1, Past(s, i + 1))
      else if !Cont(b2) then (-1, Past(s, i + 2))
      else (Low(Low(Low(0, b0, 0x10), b1, 0x40), b2, 0x40), i + 3)
    else if b0 < 0xF5 then
      if (b0 == 0xF0 && !(0x90 <= b1 <= 0xBF)) || (b0 < 0xF4 && !Cont(b1)) || (b0 >= 0xF4 && !(0x80 <= b1 <= 0x8F))
        then (-1, Past(s, i + 1))
      else if !Cont(b2) then (-1, Past(s, i + 2))
      else if !Cont(b3) then (-1, Past(s, i + 3))
      else (Low(Low(Low(Low(0, b0, 0x08), b1, 0x40), b2, 0x40), b3, 0x40), i + 4)
    else (-1, i + 1)
  }

  /** The bits gathered so far shifted up by six, with the low bits of the next byte. */
  function Low(c: nat, b: Byte, mask: nat): nat
    requires mask > 0
  {
    var bits: int := b;
    c * 0x40 + bits % mask
  }

  /** The error path steps over the offending byte unless it is the terminator. */
  function Past(s: seq<Byte>, i: nat): nat {
    if At(s, i) != 0 then i + 1 else i
  }

  lemma LowBits(b: Byte)
    ensures Cont(b) ==> !NotTrail(b) && b % 0x40 == Six(b)
    ensures 0xC0 <= b < 0xE0 ==> b % 0x20 == Lead0(b, 2)
    ensures 0xE0 <= b < 0xF0 ==> b % 0x10 == Lead0(b, 3)
    ensures 0xF0 <= b < 0xF8 ==> b % 0x08 == Lead0(b, 4)
  {
  }

  /** On bytes of the right shape the decoder puts the same bits together as the parser. */
  lemma {:induction false} DecodesShaped(s: seq<Byte>, i: nat, n: nat)
    requires n in {2, 3, 4} && i + n <= |s| && Shaped(s[i..i + n]) && (s[i] == 0xED ==> s[i + 1] <= 0x9F)
    ensures NextUnicodeChar(s, i) == (Joined(s[i..i + n]), i + n)
  {
    var p := s[i..i + n];
    assert p[0] == s[i] && p[1] == s[i + 1] && (n > 2 ==> p[2] == s[i + 2]) && (n > 3 ==> p[3] == s[i + 3]);
    LowBits(p[0]);
    LowBits(p[1]);
    if n > 2 { LowBits(p[2]); }
    if n > 3 { LowBits(p[3]); }
  }

  /** The decoder reads a scalar value exactly where its encoding stands. */
  lemma {:induction false} DecoderExact(s: seq<Byte>, i: nat)
    ensures var (c, j) := NextUnicodeChar(s, i);
            c >= 0 ==> c > 0 && Scalar(c) && j <= |s| && s[i..j] == Encode(c)
  {
    var (c, j) := NextUnicodeChar(s, i);
    if c >= 0 {
      if At(s, i) < 0x80 {
        assert s[i..j] == [s[i]];
      } else {
        var n := j - i;
        assert n in {2, 3, 4} && j <= |s| && Shaped(s[i..j]) by { ShapeRead(s, i); }
        DecodesShaped(s, i, n);
        JoinedEncodes(s[i..j]);
      }
    }
  }

  lemma {:induction false} ShapeRead(s: seq<Byte>, i: nat)
    requires NextUnicodeChar(s, i).0 >= 0 && At(s, i) >= 0x80
    ensures var j := NextUnicodeChar(s, i).1;
            j - i in {2, 3, 4} && j <= |s| && Shaped(s[i..j]) && (s[i] == 0xED ==> s[i + 1] <= 0x9F)
  {
    var j := NextUnicodeChar(s, i).1;
    assert j <= |s|;
    assert forall k: nat {:trigger s[i..j][k]} :: k < j - i ==> s[i..j][k] == At(s, i + k);
  }

  lemma {:induction false} DecoderComplete(s: seq<Byte>, i: nat, c: nat)
    requires c > 0 && Scalar(c) && i + |Encode(c)| <= |s| && s[i..i + |Encode(c)|] == Encode(c)
    ensures NextUnicodeChar(s, i) == (c, i + |Encode(c)|)
  {
    var n := |Encode(c)|;
    assert s[i] == s[i..i + n][0];
    if c >= 0x80 {
      EncodedJoins(c);
      assert s[i + 1] == s[i..i + n][1];
      DecodesShaped(s, i, n);
    }
  }
}
