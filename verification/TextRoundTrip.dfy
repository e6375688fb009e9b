/** The writer (genx/genx.c) and the parser (expat/) undo each other on text and attribute values. */
module TextRoundTrip {
  import opened Wrappers
  import opened XmlBytes
  import opened ContentScanner
  import opened ScannerChunks
  import opened ContentLoops
  import opened CharacterData
  import opened AttributeValues
  import opened AttributeTheorems
  import opened GenxText

  /** With the full table the writer lets through just the XML characters; with the small one also
      the two noncharacters of the first plane. */
  lemma AcceptedIsXmlChar(c: nat, full: bool)
    requires Scalar(c) && c > 0
    ensures Accepted(c, full) <==> XmlChar(c) || (Noncharacter(c) && !full)
  {
  }

  // ------------------------------------------------------------------ escaped text from the front

  lemma {:induction false} TextFront(c: nat, cs: seq<nat>)
    requires Scalar(c) && Scalars(cs)
    ensures Scalars([c] + cs) && EscapedText([c] + cs) == TextChar(c) + EscapedText(cs)
    ensures EscapedValue([c] + cs) == ValueChar(c) + EscapedValue(cs)
  {
    hide TextChar, ValueChar, EscapedText, EscapedValue, Utf8;
    if cs == [] {
      assert [c] + cs == [] + [c];
      Utf8More([], c);
      NoText();
      assert [] + TextChar(c) == TextChar(c) + [] && [] + ValueChar(c) == ValueChar(c) + [];
    } else {
      var n := |cs| - 1;
      var cs0, d := cs[..n], cs[n];
      TextFront(c, cs0);
      assert [c] + cs == ([c] + cs0) + [d] && cs == cs0 + [d];
      Utf8More([c] + cs0, d);
      Utf8More(cs0, d);
      assert TextChar(c) + (EscapedText(cs0) + TextChar(d)) == TextChar(c) + EscapedText(cs0) + TextChar(d);
      assert ValueChar(c) + (EscapedValue(cs0) + ValueChar(d)) == ValueChar(c) + EscapedValue(cs0) + ValueChar(d);
    }
  }

  /** Text cannot go on at `q`, and what is there does not complete a forbidden "]]>". */
  predicate StopsAt(s: seq<Byte>, q: nat) {
    q < |s| && s[q] != 0x5D && s[q] != 0x3E && DataStep(s, q) == Others
  }

  /** The escaped characters stand at `p`, up to a place where text stops. */
  predicate TextAt(s: seq<Byte>, p: nat, cs: seq<nat>)
    requires Scalars(cs)
  {
    var q := p + |EscapedText(cs)|;
    StopsAt(s, q) && s[p..q] == EscapedText(cs)
  }

  lemma {:induction false} TextAtNext(s: seq<Byte>, p: nat, cs: seq<nat>)
    requires Scalars(cs) && cs != [] && TextAt(s, p, cs)
    ensures var n := |TextChar(cs[0])|;
            && 0 < n && p + n < |s| && s[p..p + n] == TextChar(cs[0]) && TextAt(s, p + n, cs[1..])
            && p + n + |EscapedText(cs[1..])| == p + |EscapedText(cs)|
  {
    hide StopsAt, EscapedText, EscapedValue, TextChar, ValueChar;
    SentSome(cs[0]);
    var n := |TextChar(cs[0])|;
    TextFront(cs[0], cs[1..]);
    assert cs == [cs[0]] + cs[1..];
    StopsInside(s, p + |EscapedText(cs)|);
    var all := s[p..p + |EscapedText(cs)|];
    assert s[p..p + n] == all[..n];
    assert s[p + n..p + |EscapedText(cs)|] == all[n..];
  }

  lemma SentSome(c: nat)
    requires Scalar(c)
    ensures |TextChar(c)| > 0 && |ValueChar(c)| > 0
  {
  }

  lemma StopsInside(s: seq<Byte>, q: nat)
    requires StopsAt(s, q)
    ensures q < |s| && s[q] != 0x5D && s[q] != 0x3E && DataStep(s, q) == Others
  {
  }

  // ------------------------------------------------------------------ references the writer makes

  predicate Letter(b: Byte) {
    0x61 <= b <= 0x7A
  }

  lemma {:induction false} LettersRun(names: Naming, s: seq<Byte>, p: nat, q: nat)
    requires p < q <= |s| && s[q - 1] == 0x3B && forall i :: p <= i < q - 1 ==> Letter(s[i])
    ensures RefRun(names, RefName, s, p) == Token(EntityRef, q)
    decreases q - p
  {
    hide RefRun;
    RefUnroll(names, RefName, s, p);
    if p < q - 1 { LettersRun(names, s, p + 1, q); }
  }

  lemma {:induction false} NamedRef(names: Naming, s: seq<Byte>, p: nat, q: nat)
    requires p + 2 < q <= |s| && s[q - 1] == 0x3B && forall i :: p < i < q - 1 ==> Letter(s[i])
    ensures RefRun(names, RefStart, s, p + 1) == Token(EntityRef, q)
  {
    hide RefRun;
    RefUnroll(names, RefStart, s, p + 1);
    LettersRun(names, s, p + 2, q);
  }

  lemma {:induction false} HexRef(names: Naming, s: seq<Byte>, p: nat)
    requires p + 5 <= |s| && s[p + 1] == 0x23 && s[p + 2] == 0x78 && ByteType(s[p + 3]) in {Digit, Hex} && s[p + 4] == 0x3B
    ensures RefRun(names, RefStart, s, p + 1) == Token(CharRef, p + 5)
  {
    hide RefRun, NameInner, AnyChar, InvalidChar;
    RefUnroll(names, RefStart, s, p + 1);
    RefUnroll(names, CharRefStart, s, p + 2);
    RefUnroll(names, HexStart, s, p + 3);
    RefUnroll(names, Hexadecimal, s, p + 4);
  }

  predicate Escape(ref: seq<Byte>, c: nat) {
    || (ref == CR_REF && c == 0xD) || (ref == LF_REF && c == 0xA) || (ref == TAB_REF && c == 0x9)
    || (ref == LT_REF && c == 0x3C) || (ref == GT_REF && c == 0x3E) || (ref == AMP_REF && c == 0x26)
    || (ref == QUOT_REF && c == 0x22)
  }

  /** Each is scanned as one reference, and stands for its character. */
  lemma {:induction false} EscapeRead(names: Naming, s: seq<Byte>, p: nat, ref: seq<Byte>, c: nat)
    requires Escape(ref, c) && p + |ref| <= |s| && s[p..p + |ref|] == ref
    ensures s[p] == 0x26 && |ref| > 0
    ensures var v := RefRun(names, RefStart, s, p + 1);
            && v.Token? && v.next == p + |ref| && v.tok in {CharRef, EntityRef} && Spoken(v.tok, ref) == Some(Encode(c))
    ensures c < 0x80 && Encode(c) == [c]
  {
    hide RefRun;
    var w := s[p..p + |ref|];
    assert forall i {:trigger w[i]} :: 0 <= i < |ref| ==> s[p + i] == w[i];
    assert forall i :: p < i < p + |ref| - 1 ==> s[i] == w[i - p];
    assert w[0] == ref[0] && w[|ref| - 1] == ref[|ref| - 1];
    if ref == CR_REF || ref == LF_REF || ref == TAB_REF {
      HexRef(names, s, p);
      HexValue(ref);
    } else {
      NamedRef(names, s, p, p + |ref|);
      NamedValue(ref, c);
    }
  }

  lemma NamedValue(ref: seq<Byte>, c: nat)
    requires Escape(ref, c) && ref !in {CR_REF, LF_REF, TAB_REF}
    ensures Spoken(EntityRef, ref) == Some([c])
  {
    var name := ref[1..|ref| - 1];
    if c == 0x3C {
      assert name == [0x6C, 0x74];
    } else if c == 0x3E {
      assert name == [0x67, 0x74];
    } else if c == 0x26 {
      assert name == [0x61, 0x6D, 0x70];
    } else {
      assert name == [0x71, 0x75, 0x6F, 0x74];
    }
  }

  lemma {:induction false} HexValue(ref: seq<Byte>)
    requires ref in {CR_REF, LF_REF, TAB_REF}
    ensures IsCharRef(ref) && NumberOf(ref) == HexDigit(ref[3])
  {
    var ds := DigitsOf(ref);
    assert ds == [ref[3]];
    assert ds[..0] == [];
    assert ValueOf(ds, true) == HexDigit(ref[3]);
  }

  // ------------------------------------------------------------------ text

  predicate PlainText(c: nat) {
    XmlChar(c) && c !in {0xA, 0xD, 0x26, 0x3C, 0x3E}
  }

  /** A character that is sent as it is goes on a run of data. */
  lemma {:induction false} PlainGoesOn(s: seq<Byte>, p: nat, cs: seq<nat>)
    requires XmlChars(cs) && Scalars(cs) && cs != [] && PlainText(cs[0]) && TextAt(s, p, cs)
    ensures p < |s| && DataStep(s, p) == Adv(|Encode(cs[0])|)
  {
    hide EscapedText, InvalidChar;
    var c := cs[0];
    TextAtNext(s, p, cs);
    var n := |Encode(c)|;
    assert s[p] == s[p..p + n][0];
    if c >= 0x80 {
      EncodedIsValid(c);
    } else if c == 0x5D {
      var r := cs[1..];
      NextNot(s, p + 1, r);
      if s[p + 1] == 0x5D {
        assert r != [] by { if r == [] { TextNone(s, p + 1); } }
        TextAtNext(s, p + 1, r);
        BracketAlone(s, p + 1, r);
        NextNot(s, p + 2, r[1..]);
      }
    }
  }

  lemma TextNone(s: seq<Byte>, p: nat)
    requires TextAt(s, p, [])
    ensures StopsAt(s, p)
  {
  }

  /** No greater-than sign stands where text does. */
  lemma {:induction false} NextNot(s: seq<Byte>, p: nat, cs: seq<nat>)
    requires Scalars(cs) && TextAt(s, p, cs)
    ensures p < |s| && s[p] != 0x3E
  {
    hide EscapedText;
    if cs == [] {
      TextNone(s, p);
    } else {
      TextAtNext(s, p, cs);
      FirstByte(cs[0]);
      assert s[p] == s[p..p + |TextChar(cs[0])|][0];
    }
  }

  lemma FirstByte(c: nat)
    requires Scalar(c)
    ensures TextChar(c)[0] != 0x3E && (TextChar(c)[0] == 0x5D ==> c == 0x5D && |TextChar(c)| == 1)
  {
  }

  lemma {:induction false} BracketAlone(s: seq<Byte>, p: nat, cs: seq<nat>)
    requires Scalars(cs) && cs != [] && TextAt(s, p, cs) && p < |s| && s[p] == 0x5D
    ensures |TextChar(cs[0])| == 1
  {
    hide EscapedText;
    TextAtNext(s, p, cs);
    FirstByte(cs[0]);
    assert s[p] == s[p..p + |TextChar(cs[0])|][0];
  }

  /** A run of data never runs into anything forbidden. */
  lemma {:induction false} DataFine(s: seq<Byte>, p: nat, cs: seq<nat>)
    requires XmlChars(cs) && Scalars(cs) && TextAt(s, p, cs)
    ensures p <= |s| && Data(s, p).Token?
    decreases |cs|
  {
    hide EscapedText, Encode;
    if cs == [] {
      TextNone(s, p);
    } else {
      TextAtNext(s, p, cs);
      if PlainText(cs[0]) {
        PlainGoesOn(s, p, cs);
        DataFine(s, p + |TextChar(cs[0])|, cs[1..]);
      } else {
        StartsOther(s, p, cs[0]);
      }
    }
  }

  /** Any other character is a line feed or an escape. */
  lemma {:induction false} StartsOther(s: seq<Byte>, p: nat, c: nat)
    requires XmlChar(c) && !PlainText(c) && p + |TextChar(c)| <= |s| && s[p..p + |TextChar(c)|] == TextChar(c)
    ensures p < |s| && DataStep(s, p) == Others
    ensures if c == 0xA then s[p] == 0xA && TextChar(c) == [0xA] == Encode(c) else s[p] == 0x26 && Escape(TextChar(c), c)
  {
    assert s[p] == s[p..p + |TextChar(c)|][0];
  }

  lemma {:induction false} HearData(names: Naming, s: seq<Byte>, p: nat, n: nat)
    requires p < |s| && DataStep(s, p) == Adv(n) && Data(s, p + n).Token?
    ensures Hear(names, s, p) == Before(s[p..p + n], Hear(names, s, p + n))
  {
    hide Hear, ContentTok, DataStep;
    DataStarts(names, s, p);
    DataGoes(s, p);
    var q := Data(s, p + n).next;
    HearNext(names, s, p, []);
    Alone(Hear(names, s, p));
    assert [] + s[p..q] == s[p..q];
    if p + n < |s| && DataStep(s, p + n).Adv? {
      DataStarts(names, s, p + n);
      HearNext(names, s, p + n, s[p..p + n]);
      assert s[p..p + n] + s[p + n..q] == s[p..q];
    } else {
      DataEnds(s, p + n);
    }
  }

  lemma Alone(h: Heard)
    ensures Before([], h) == h
  {
    assert [] + h.bytes == h.bytes;
  }

  lemma DataEnds(s: seq<Byte>, p: nat)
    requires p <= |s| && (p < |s| ==> !DataStep(s, p).Adv?) && Data(s, p).Token?
    ensures Data(s, p).next == p
  {
  }

  /** From where the escaped text starts, the text itself is heard. */
  lemma {:induction false} HearsText(names: Naming, s: seq<Byte>, p: nat, cs: seq<nat>)
    requires XmlChars(cs) && Scalars(cs) && TextAt(s, p, cs)
    ensures p + |EscapedText(cs)| <= |s|
    ensures Hear(names, s, p) == Before(Utf8(cs), Hear(names, s, p + |EscapedText(cs)|))
    decreases |cs|
  {
    hide Hear, EscapedText, Encode, ContentTok, Spoken, Data, TextAt;
    if cs == [] {
      TextNone(s, p);
      NoText();
      Alone(Hear(names, s, p));
    } else {
      var c, rest := cs[0], cs[1..];
      TextAtNext(s, p, cs);
      assert XmlChar(c);
      var n := |TextChar(c)|;
      HearsText(names, s, p + n, rest);
      HearsOne(names, s, p, cs);
      BeforeTwice(Encode(c), Utf8(rest), Hear(names, s, p + |EscapedText(cs)|));
    }
  }

  lemma NoText()
    ensures EscapedText([]) == [] && EscapedValue([]) == [] && Utf8([]) == []
  {
  }

  lemma {:induction false} HearsOne(names: Naming, s: seq<Byte>, p: nat, cs: seq<nat>)
    requires XmlChars(cs) && Scalars(cs) && cs != [] && TextAt(s, p, cs)
    ensures var n := |TextChar(cs[0])|;
            p + n <= |s| && Hear(names, s, p) == Before(Encode(cs[0]), Hear(names, s, p + n))
  {
    hide Hear, EscapedText, Spoken, TextAt, RefRun, ContentTok, TextChar, DataStep, Data, Escape, Encode;
    var c := cs[0];
    TextAtNext(s, p, cs);
    var n := |TextChar(c)|;
    if PlainText(c) {
      PlainSent(c);
      PlainGoesOn(s, p, cs);
      DataFine(s, p + n, cs[1..]);
      HearData(names, s, p, n);
    } else {
      StartsOther(s, p, c);
      HearNext(names, s, p, []);
      Alone(Hear(names, s, p));
      if c == 0xA {
        HearNewline(names, s, p);
      } else {
        EscapeRead(names, s, p, TextChar(c), c);
        AmpTok(names, s, p);
      }
      assert [] + Encode(c) == Encode(c);
    }
  }

  lemma PlainSent(c: nat)
    requires PlainText(c)
    ensures TextChar(c) == Encode(c)
  {
  }

  lemma AmpTok(names: Naming, s: seq<Byte>, p: nat)
    requires p < |s| && s[p] == 0x26
    ensures ContentTok(names, s, p) == RefRun(names, RefStart, s, p + 1)
  {
  }

  lemma HearNewline(names: Naming, s: seq<Byte>, p: nat)
    requires p < |s| && s[p] == 0xA
    ensures ContentTok(names, s, p) == Token(DataNewline, p + 1) && Spoken(DataNewline, s[p..p + 1]) == Some([0xA])
  {
  }

  /** At markup nothing more is heard. */
  lemma {:induction false} HearMarkup(names: Naming, s: seq<Byte>, q: nat)
    requires q < |s| && s[q] == 0x3C
    ensures Hear(names, s, q).bytes == [] && Hear(names, s, q).next == q
  {
    hide Run, Step, RefRun, RefStep, DataStep, AnyChar, NameStart, NameInner, PredefinedEntity, NumberOf;
    SaneStart();
    RunTokens(names, AfterLt, s, q + 1);
  }

  /** At a noncharacter the document is rejected. */
  lemma {:induction false} HearNoncharacter(names: Naming, s: seq<Byte>, q: nat, c: nat)
    requires Noncharacter(c) && q + 3 <= |s| && s[q..q + 3] == Encode(c)
    ensures StopsAt(s, q) && Hear(names, s, q) == Heard([], q, Invalid)
  {
    EncodedIsValid(c);
    assert s[q] == s[q..q + 3][0];
  }

  // ------------------------------------------------------------------ the theorems

  /** The first noncharacter, or the length. */
  function FirstNonchar(cs: seq<nat>): (k: nat)
    ensures k <= |cs| && (forall i :: 0 <= i < k ==> !Noncharacter(cs[i])) && (k < |cs| ==> Noncharacter(cs[k]))
  {
    if cs == [] then 0
    else var k := FirstNonchar(cs[..|cs| - 1]);
         if k < |cs| - 1 then k else if Noncharacter(cs[|cs| - 1]) then k else |cs|
  }

  lemma {:induction false} TextSplits(cs: seq<nat>, k: nat)
    requires Scalars(cs) && k <= |cs|
    ensures EscapedText(cs) == EscapedText(cs[..k]) + EscapedText(cs[k..])
    ensures |EscapedText(cs[..k])| <= |EscapedText(cs)|
    decreases |cs| - k
  {
    hide TextChar, EscapedText, EscapedValue, ValueChar, Utf8;
    if k == |cs| {
      assert cs[..k] == cs && cs[k..] == [];
      assert EscapedText(cs) + [] == EscapedText(cs);
      NoText();
    } else {
      TextSplits(cs, k + 1);
      assert cs[..k + 1] == cs[..k] + [cs[k]] && cs[k..] == [cs[k]] + cs[k + 1..];
      Utf8More(cs[..k], cs[k]);
      TextFront(cs[k], cs[k + 1..]);
    }
  }

  lemma {:induction false} Utf8Longer(cs: seq<nat>, k: nat)
    requires Scalars(cs) && k < |cs|
    ensures |Utf8(cs[..k])| < |Utf8(cs)|
    decreases k
  {
    if k > 0 {
      Utf8Longer(cs[1..], k - 1);
      assert cs[1..][..k - 1] == cs[..k][1..];
    }
  }

  /** Content comes back exactly when it has neither of the two noncharacters: whatever the writer
      accepts, with markup after it, is heard as it was if and only if it is all XML characters. */
  lemma {:induction false} ContentRoundTrip(names: Naming, before: seq<Byte>, cs: seq<nat>, after: seq<Byte>, full: bool)
    requires Scalars(cs) && AllAccepted(cs, full) && after != [] && after[0] == 0x3C
    requires forall i :: 0 <= i < |cs| ==> cs[i] > 0
    ensures var s := before + EscapedText(cs) + after;
            var h := Hear(names, s, |before|);
            && (XmlChars(cs) <==> h.bytes == Utf8(cs) && h.next == |before| + |EscapedText(cs)|)
            && (full ==> XmlChars(cs))
  {
    hide Hear, Utf8, Encode, DataStep, EscapedText;
    var s := before + EscapedText(cs) + after;
    forall i | 0 <= i < |cs|
      ensures XmlChar(cs[i]) || (Noncharacter(cs[i]) && !full)
    {
      AcceptedIsXmlChar(cs[i], full);
    }
    var k := FirstNonchar(cs);
    var p, q := |before|, |before| + |EscapedText(cs[..k])|;
    TextSplits(cs, k);
    assert forall i :: 0 <= i < k ==> XmlChar(cs[..k][i]);
    assert s[p..p + |EscapedText(cs)|] == EscapedText(cs);
    assert s[p..q] == EscapedText(cs[..k]);
    if k == |cs| {
      assert cs[..k] == cs && s[q] == after[0];
      MarkupStops(s, q);
      HearsText(names, s, p, cs);
      HearMarkup(names, s, q);
      assert Utf8(cs) + [] == Utf8(cs);
    } else {
      assert !XmlChar(cs[k]);
      NoncharSent(before, cs, after, k);
      HearNoncharacter(names, s, q, cs[k]);
      HearsText(names, s, p, cs[..k]);
      assert Utf8(cs[..k]) + [] == Utf8(cs[..k]);
      Utf8Longer(cs, k);
    }
  }

  lemma MarkupStops(s: seq<Byte>, q: nat)
    requires q < |s| && s[q] == 0x3C
    ensures StopsAt(s, q)
  {
  }

  lemma {:induction false} NoncharSent(before: seq<Byte>, cs: seq<nat>, after: seq<Byte>, k: nat)
    requires Scalars(cs) && k < |cs| && Noncharacter(cs[k])
    ensures var s := before + EscapedText(cs) + after;
            var q := |before| + |EscapedText(cs[..k])|;
            q + 3 <= |s| && s[q..q + 3] == Encode(cs[k])
  {
    hide EscapedText;
    TextSplits(cs, k);
    assert cs[k..] == [cs[k]] + cs[k + 1..];
    TextFront(cs[k], cs[k + 1..]);
  }

  // ------------------------------------------------------------------ attribute values

  /** The escaped characters are the rest of the value. */
  predicate ValueAt(v: seq<Byte>, p: nat, cs: seq<nat>)
    requires Scalars(cs)
  {
    p <= |v| && v[p..] == EscapedValue(cs)
  }

  lemma {:induction false} ValueAtNext(v: seq<Byte>, p: nat, cs: seq<nat>)
    requires Scalars(cs) && cs != [] && ValueAt(v, p, cs)
    ensures var n := |ValueChar(cs[0])|;
            0 < n && p + n <= |v| && v[p..p + n] == ValueChar(cs[0]) && ValueAt(v, p + n, cs[1..])
  {
    hide EscapedText, EscapedValue, TextChar, ValueChar;
    SentSome(cs[0]);
    var n := |ValueChar(cs[0])|;
    TextFront(cs[0], cs[1..]);
    assert cs == [cs[0]] + cs[1..];
    assert v[p..p + n] == v[p..][..n];
    assert v[p + n..] == v[p..][n..];
  }

  predicate PlainValue(c: nat) {
    XmlChar(c) && c !in {0x9, 0xA, 0xD, 0x22, 0x26, 0x3C}
  }

  /** What one character is sent as, seen by the value scanner. */
  lemma {:induction false} ValueCharShape(v: seq<Byte>, p: nat, c: nat)
    requires XmlChar(c) && p + |ValueChar(c)| <= |v| && v[p..p + |ValueChar(c)|] == ValueChar(c)
    ensures p < |v|
    ensures PlainValue(c) ==>
      && ValueChar(c) == Encode(c) && Width(v, p) == |Encode(c)| && (Width(v, p) > 1 ==> !InvalidChar(v[p..p + Width(v, p)]))
      && ByteType(v[p]) != Lt && (EndsData(ByteType(v[p])) ==> c == 0x20 && v[p] == 0x20)
      && ByteType(v[p]) !in {Quot, NonXml, Malform, Trail} && (c == 0x20 ==> v[p] == 0x20)
    ensures !PlainValue(c) ==> v[p] == 0x26 && Escape(ValueChar(c), c)
  {
    var n := |ValueChar(c)|;
    assert v[p] == v[p..p + n][0];
    if c >= 0x80 { EncodedIsValid(c); }
  }

  lemma {:induction false} EscapeChecked(v: seq<Byte>, p: nat, n: nat)
    requires p + n <= |v| && Checked(v, p + n) && forall i :: p <= i < p + n ==> v[i] < 0x80
    ensures Checked(v, p)
    decreases n
  {
    if n > 0 { EscapeChecked(v, p + 1, n - 1); }
  }

  /** The writer's value is one the scanner of the tag accepts. */
  lemma {:induction false} ValueChecked(v: seq<Byte>, p: nat, cs: seq<nat>)
    requires XmlChars(cs) && Scalars(cs) && ValueAt(v, p, cs)
    ensures Checked(v, p)
    decreases |cs|
  {
    hide EscapedValue, Encode, ValueChar, ValueAt, Escape;
    if cs == [] {
      NoValue(v, p);
    } else {
      ValueAtNext(v, p, cs);
      var n := |ValueChar(cs[0])|;
      ValueCharShape(v, p, cs[0]);
      ValueChecked(v, p + n, cs[1..]);
      if !PlainValue(cs[0]) {
        EscapeAscii(ValueChar(cs[0]), cs[0]);
        assert forall i :: p <= i < p + n ==> v[i] == v[p..p + n][i - p];
        EscapeChecked(v, p, n);
      }
    }
  }

  lemma EscapeAscii(ref: seq<Byte>, c: nat)
    requires Escape(ref, c)
    ensures forall i :: 0 <= i < |ref| ==> ref[i] < 0x80
  {
  }

  lemma NoValue(v: seq<Byte>, p: nat)
    requires ValueAt(v, p, [])
    ensures p == |v|
  {
    assert |v[p..]| == 0;
  }

  lemma {:induction false} ValueFine(v: seq<Byte>, p: nat, cs: seq<nat>)
    requires XmlChars(cs) && Scalars(cs) && ValueAt(v, p, cs) && Checked(v, p)
    ensures ValueData(v, p).Token?
    decreases |cs|
  {
    hide EscapedValue, Encode, ValueChar, ValueAt, Escape;
    if cs == [] {
      NoValue(v, p);
    } else {
      ValueAtNext(v, p, cs);
      ValueCharShape(v, p, cs[0]);
      if PlainValue(cs[0]) && cs[0] != 0x20 { ValueFine(v, p + |ValueChar(cs[0])|, cs[1..]); }
    }
  }

  /** One character of a run of data at a time. */
  lemma {:induction false} ExpandData(env: Env, open: set<Name>, v: seq<Byte>, p: nat, pool: seq<Byte>)
    requires EnvOk(env) && Checked(v, p) && open <= env.entities.Keys && p < |v|
    requires !EndsData(ByteType(v[p])) && ByteType(v[p]) != Lt && AfterFirst(v, p).Token?
    ensures Checked(v, p + Width(v, p))
    ensures Expand(env, open, true, v, p, pool) == Expand(env, open, true, v, p + Width(v, p), pool + v[p..p + Width(v, p)])
  {
    hide Expand, EnvOk, ByteType, ValueTok, AfterFirst, Checked, Width;
    var n := Width(v, p);
    FirstData(v, p);
    DataTok(env.names, v, p);
    var q := AfterFirst(v, p).next;
    ExpandNext(env, open, true, v, p, pool);
    if p + n < |v| && !EndsData(ByteType(v[p + n])) {
      DataGoesOn(v, p + n);
      DataTok(env.names, v, p + n);
      ExpandNext(env, open, true, v, p + n, pool + v[p..p + n]);
      assert pool + v[p..p + n] + v[p + n..q] == pool + v[p..q];
    } else {
      DataGoesOn(v, p + n);
    }
  }

  lemma DataTok(names: Naming, v: seq<Byte>, p: nat)
    requires Checked(v, p) && p < |v| && !EndsData(ByteType(v[p])) && ByteType(v[p]) != Lt
    ensures ValueTok(names, v, p) == AfterFirst(v, p)
  {
  }

  lemma DataGoesOn(v: seq<Byte>, p: nat)
    requires Checked(v, p) && ValueData(v, p).Token?
    ensures if p < |v| && !EndsData(ByteType(v[p])) then ByteType(v[p]) != Lt && ValueData(v, p) == AfterFirst(v, p)
            else ValueData(v, p).next == p
  {
  }

  lemma {:induction false} ExpandEscaped(env: Env, open: set<Name>, v: seq<Byte>, p: nat, c: nat, pool: seq<Byte>)
    requires EnvOk(env) && Checked(v, p) && open <= env.entities.Keys
    requires XmlChar(c) && !PlainValue(c) && p + |ValueChar(c)| <= |v| && v[p..p + |ValueChar(c)|] == ValueChar(c)
    ensures c < 0x110000 && Checked(v, p + |ValueChar(c)|)
    ensures Expand(env, open, true, v, p, pool) == Expand(env, open, true, v, p + |ValueChar(c)|, pool + Encode(c))
  {
    hide Expand, RefRun, EnvOk, ValueChar, Lookup, Checked, Escape, PredefinedEntity, IsCharRef, NumberOf;
    ValueCharShape(v, p, c);
    EscapeRead(env.names, v, p, ValueChar(c), c);
    ExpandNext(env, open, true, v, p, pool);
    TokensWhole(env.names, v, p);
    NotSpaceEscaped(c);
    AmpValueTok(env.names, v, p);
  }

  lemma NotSpaceEscaped(c: nat)
    requires XmlChar(c) && !PlainValue(c)
    ensures Encode(c) == [c] && c != 0x20
  {
  }

  lemma AmpValueTok(names: Naming, v: seq<Byte>, p: nat)
    requires Checked(v, p) && p < |v| && v[p] == 0x26
    ensures ValueTok(names, v, p) == RefRun(names, RefStart, v, p + 1)
  {
  }

  /** From where the escaped value starts, the value itself is collected. */
  lemma {:induction false} ExpandsToText(env: Env, open: set<Name>, v: seq<Byte>, p: nat, cs: seq<nat>, pool: seq<Byte>)
    requires EnvOk(env) && Checked(v, p) && open <= env.entities.Keys
    requires XmlChars(cs) && Scalars(cs) && ValueAt(v, p, cs)
    ensures Expand(env, open, true, v, p, pool) == Expansion(None, pool + Utf8(cs))
    decreases |cs|
  {
    hide Expand, EscapedValue, Encode, ValueChar, ValueAt, Escape, Checked, EnvOk, ValueTok, ValueData;
    if cs == [] {
      NoValue(v, p);
      EndTok(env.names, v);
      ExpandNext(env, open, true, v, p, pool);
      NoText();
      assert pool + [] == pool;
    } else {
      var c, rest := cs[0], cs[1..];
      assert XmlChar(c);
      ValueAtNext(v, p, cs);
      var n := |ValueChar(c)|;
      ValueChecked(v, p + n, rest);
      ExpandsOne(env, open, v, p, cs, pool);
      ExpandsToText(env, open, v, p + n, rest, pool + Encode(c));
      assert pool + Encode(c) + Utf8(rest) == pool + (Encode(c) + Utf8(rest));
    }
  }

  lemma {:induction false} ExpandsOne(env: Env, open: set<Name>, v: seq<Byte>, p: nat, cs: seq<nat>, pool: seq<Byte>)
    requires EnvOk(env) && Checked(v, p) && open <= env.entities.Keys
    requires XmlChars(cs) && Scalars(cs) && cs != [] && ValueAt(v, p, cs)
    ensures var n := |ValueChar(cs[0])|;
            && p + n <= |v| && Checked(v, p + n)
            && Expand(env, open, true, v, p, pool) == Expand(env, open, true, v, p + n, pool + Encode(cs[0]))
  {
    hide Expand, EscapedValue, ValueChar, ValueAt, Escape, Checked, EnvOk, ValueTok, Encode;
    var c := cs[0];
    ValueAtNext(v, p, cs);
    var n := |ValueChar(c)|;
    ValueChecked(v, p + n, cs[1..]);
    ValueCharShape(v, p, c);
    if !PlainValue(c) {
      ExpandEscaped(env, open, v, p, c, pool);
    } else if EndsData(ByteType(v[p])) {
      ExpandNext(env, open, true, v, p, pool);
      SpaceTok(env.names, v, p);
    } else {
      ValueFine(v, p + n, cs[1..]);
      FirstData(v, p);
      ExpandData(env, open, v, p, pool);
    }
  }

  lemma SpaceTok(names: Naming, v: seq<Byte>, p: nat)
    requires Checked(v, p) && p < |v| && v[p] == 0x20
    ensures ValueTok(names, v, p) == Token(AttributeValueS, p + 1) && Encode(0x20) == [0x20]
  {
  }

  /** A CDATA attribute comes back as the value that was given to the writer, and one of another type
      as the words of it. */
  lemma {:induction false} ValueRoundTrip(env: Env, open: set<Name>, cs: seq<nat>)
    requires EnvOk(env) && open <= env.entities.Keys && XmlChars(cs) && Scalars(cs)
    ensures Checked(EscapedValue(cs), 0)
    ensures Stored(env, open, true, EscapedValue(cs)) == Ok(Utf8(cs))
    ensures Stored(env, open, false, EscapedValue(cs)) == Ok(Sentence(Words(Utf8(cs))))
  {
    hide Expand, EscapedValue, Utf8, Checked, Words, Sentence;
    var v := EscapedValue(cs);
    assert v[0..] == v;
    ValueChecked(v, 0, cs);
    ExpandsToText(env, open, v, 0, cs, []);
    assert [] + Utf8(cs) == Utf8(cs);
    StoredIsWords(env, open, v);
  }

  lemma ValueUnroll(names: Naming, open: Bt, s: seq<Byte>, p: nat)
    requires p < |s|
    ensures Run(names, Value(open), s, p) ==
      match ValueStep(names, open, s, p)
      case Go(st', n) => Run(names, st', s, p + n)
      case Done(tok, n) => Token(tok, p + n)
      case Stop(tok) => Halt(tok)
  {
    hide Run, ValueStep, TagStep, OtherStep;
    Unroll(names, Value(open), s, p);
  }

  lemma {:induction false} ValueStepChar(names: Naming, s: seq<Byte>, p: nat, c: nat)
    requires XmlChar(c) && p + |ValueChar(c)| <= |s| && s[p..p + |ValueChar(c)|] == ValueChar(c)
    ensures p < |s| && ValueStep(names, Quot, s, p) == Go(Value(Quot), |ValueChar(c)|)
  {
    hide ValueChar, Escape, RefRun, InvalidChar, Encode;
    ValueCharShape(s, p, c);
    if !PlainValue(c) { EscapeRead(names, s, p, ValueChar(c), c); }
  }

  lemma ValueStepQuote(names: Naming, s: seq<Byte>, p: nat)
    requires p < |s| && s[p] == 0x22
    ensures ValueStep(names, Quot, s, p) == Go(AfterValue, 1)
  {
  }

  /** In its tag the scanner takes just the value, up to the quote that the writer put after it. */
  lemma {:induction false} ValueScanned(names: Naming, s: seq<Byte>, p: nat, cs: seq<nat>)
    requires XmlChars(cs) && Scalars(cs)
    requires p + |EscapedValue(cs)| < |s| && s[p..p + |EscapedValue(cs)|] == EscapedValue(cs) && s[p + |EscapedValue(cs)|] == 0x22
    ensures Run(names, Value(Quot), s, p) == Run(names, AfterValue, s, p + |EscapedValue(cs)| + 1)
    decreases |cs|
  {
    hide Run, ValueStep, EscapedValue, EscapedText, ValueChar, TextChar;
    ValueUnroll(names, Quot, s, p);
    if cs == [] {
      NoText();
      ValueStepQuote(names, s, p);
    } else {
      var c, rest := cs[0], cs[1..];
      TextFront(c, rest);
      assert cs == [c] + rest && XmlChar(c);
      var n := |ValueChar(c)|;
      var w := s[p..p + |EscapedValue(cs)|];
      assert s[p..p + n] == w[..n];
      assert s[p + n..p + n + |EscapedValue(rest)|] == w[n..];
      ValueStepChar(names, s, p, c);
      ValueScanned(names, s, p + n, rest);
    }
  }
}
