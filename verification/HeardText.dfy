/** What an application hears of character data (section 2.11 of XML 1.0 for line ends), read off the
    bytes, and that doContent (expat/xmlparse.c) hands over just that. */
module HeardText {
  import opened Wrappers
  import opened XmlBytes
  import opened ContentScanner
  import opened CharacterData
  import opened TokenSpans
  import opened CdataValues
  import TokenScanning

  /** A line end at `p`: a carriage return and a line feed are one. */
  function LineEnd(s: seq<Byte>, p: nat, q: nat): (e: nat)
    requires p < q <= |s|
    ensures p < e <= q
  {
    if s[p] == 0xD && p + 1 < q && s[p + 1] == 0xA then p + 2 else p + 1
  }

  /** The text between `p` and `q`. Every line end is a line feed, a reference is the character it is
      for, and every other byte is itself. */
  ghost function TextValue(names: Naming, s: seq<Byte>, p: nat, q: nat): seq<Byte>
    requires p <= q <= |s|
    decreases q - p
  {
    if p == q then []
    else if s[p] == 0xA || s[p] == 0xD then [0xA] + TextValue(names, s, LineEnd(s, p, q), q)
    else if s[p] != 0x26 then [s[p]] + TextValue(names, s, p + 1, q)
    else if m: nat :| CharRefAt(s, p, m) && m <= q then
      (if n: nat :| RefersTo(s, p, m, n) && XmlChar(n) then Encode(n) else []) + TextValue(names, s, m, q)
    else if m: nat :| EntityRefAt(names, s, p, m) && m <= q then
      var name := s[p + 1..m - 1];
      (if Predefined(name).Some? then [Predefined(name).value] else []) + TextValue(names, s, m, q)
    else []
  }

  predicate TextByte(b: Byte) {
    b != 0xA && b != 0xD && b != 0x26
  }

  lemma {:induction false} TextBytes(names: Naming, s: seq<Byte>, p: nat, m: nat, q: nat)
    requires p <= m <= q <= |s| && forall k :: p <= k < m ==> TextByte(s[k])
    ensures TextValue(names, s, p, q) == s[p..m] + TextValue(names, s, m, q)
    decreases m - p
  {
    hide CharRefAt, EntityRefAt;
    if p < m {
      TextBytes(names, s, p + 1, m, q);
      assert s[p..m] == [s[p]] + s[p + 1..m];
    } else {
      assert s[p..m] == [];
    }
  }

  /** The bytes of a run of data. */
  lemma {:induction false} DataBytes(s: seq<Byte>, p: nat, m: nat)
    requires DataRun(s, p, m)
    ensures p <= m <= |s| && forall k :: p <= k < m ==> TextByte(s[k])
    decreases m - p
  {
    hide DataStep, DataRun, InvalidChar;
    TokenScanning.RunInside(s, p, m);
    if p < m {
      TokenScanning.DataFront(s, p, m);
      CharBytes(s, p);
      TokenScanning.RunInside(s, p + DataStep(s, p).n, m);
      DataBytes(s, p + DataStep(s, p).n, m);
    }
  }

  lemma CharBytes(s: seq<Byte>, p: nat)
    requires p < |s| && DataStep(s, p).Adv?
    ensures forall k :: p <= k < p + DataStep(s, p).n ==> TextByte(s[k])
  {
    var n := DataStep(s, p).n;
    if ByteType(s[p]).Lead? {
      ValidIsEncoded(s[p..p + n]);
      forall k | p < k < p + n
        ensures TextByte(s[k])
      {
        assert s[k] == s[p..p + n][k - p];
      }
    }
  }

  // ------------------------------------------------------------------ token by token

  lemma {:induction false} NewlineValue(names: Naming, s: seq<Byte>, p: nat, m: nat, q: nat)
    requires NewlineAt(s, p, m) && m <= q <= |s|
    ensures p < m && TextValue(names, s, p, q) == [0xA] + TextValue(names, s, m, q)
  {
    hide CharRefAt, EntityRefAt;
    if Stands(s, p, [0xD, 0xA]) { assert s[p] == s[p..p + 2][0] && s[p + 1] == s[p..p + 2][1]; } else { assert s[p] == s[p..p + 1][0]; }
  }

  lemma {:induction false} CharRefValue(names: Naming, s: seq<Byte>, p: nat, m: nat, q: nat)
    requires CharRefAt(s, p, m) && m <= q <= |s| && IsCharRef(s[p..m]) && NumberOf(s[p..m]) >= 0
    ensures p < m && TextValue(names, s, p, q) == Encode(NumberOf(s[p..m])) + TextValue(names, s, m, q)
  {
    hide CharRefAt, EntityRefAt, IsCharRef, RefersTo, RefRun, ByteType;
    CharRefInside(s, p, m);
    OneCharRef(names, s, p, m);
    forall n: nat ensures RefersTo(s, p, m, n) && XmlChar(n) <==> n == NumberOf(s[p..m]) { RefersExactly(s, p, m, n); }
  }

  lemma {:induction false} EntityRefValue(names: Naming, s: seq<Byte>, p: nat, m: nat, q: nat)
    requires EntityRefAt(names, s, p, m) && m <= q <= |s| && PredefinedEntity(s[p + 1..m - 1]) != 0
    ensures p < m && TextValue(names, s, p, q) == [PredefinedEntity(s[p + 1..m - 1])] + TextValue(names, s, m, q)
  {
    hide CharRefAt, NameAt, RefRun, ByteType, Predefined, PredefinedEntity;
    OneEntityRef(names, s, p, m);
    PredefinedExactly(s[p + 1..m - 1]);
  }

  /** The text of one token. */
  lemma {:induction false} TokenValue(names: Naming, s: seq<Byte>, p: nat, q: nat)
    requires p <= q <= |s| && ContentTok(names, s, p).Token? && ContentTok(names, s, p).next <= q
    requires var v := ContentTok(names, s, p); Spoken(v.tok, s[p..v.next]).Some?
    ensures var v := ContentTok(names, s, p);
            TextValue(names, s, p, q) == Spoken(v.tok, s[p..v.next]).value + TextValue(names, s, v.next, q)
  {
    hide ContentTok, TextValue, MarkupAt, DataRun, NewlineAt, CharRefAt, EntityRefAt, IsCharRef, PredefinedEntity;
    var v := ContentTok(names, s, p);
    TokenScanning.TokensExactly(names, s, p, v.tok, v.next);
    match v.tok {
      case DataChars =>
        DataBytes(s, p, v.next);
        TextBytes(names, s, p, v.next, q);
      case DataNewline => NewlineValue(names, s, p, v.next, q);
      case CharRef => CharRefValue(names, s, p, v.next, q);
      case EntityRef =>
        EntityInside(names, s, p, v.next);
        SliceOfSlice(s, p, v.next, 1);
        EntityRefValue(names, s, p, v.next, q);
    }
  }

  lemma EntityInside(names: Naming, s: seq<Byte>, p: nat, q: nat)
    requires EntityRefAt(names, s, p, q)
    ensures p + 2 <= q <= |s|
  {
    hide NameAt;
  }

  /** Whatever stops the text: no token, markup, an entity to look up, or a reference to no character. */
  predicate StopsThere(names: Naming, s: seq<Byte>, q: nat, at: Tok)
    requires q <= |s|
  {
    var v := ContentTok(names, s, q);
    if v.Halt? then at == v.tok
    else Spoken(v.tok, s[q..v.next]).None? && at == if v.tok == CharRef then Invalid else v.tok
  }

  /** What is heard from `p` on is the text up to where it stops. */
  lemma {:induction false} HeardIsText(names: Naming, s: seq<Byte>, p: nat)
    requires p <= |s|
    ensures var h := Hear(names, s, p);
            p <= h.next <= |s| && h.bytes == TextValue(names, s, p, h.next) && StopsThere(names, s, h.next, h.at)
    decreases |s| - p
  {
    hide ContentTok, Spoken, Hear, TextValue;
    var v := ContentTok(names, s, p);
    HearNext(names, s, p, []);
    NothingBefore(Hear(names, s, p));
    if v.Token? && Spoken(v.tok, s[p..v.next]).Some? {
      HeardIsText(names, s, v.next);
      TokenValue(names, s, p, Hear(names, s, v.next).next);
      assert [] + Spoken(v.tok, s[p..v.next]).value == Spoken(v.tok, s[p..v.next]).value;
    } else {
      NoText(names, s, p);
    }
  }

  lemma NothingBefore(h: Heard)
    ensures Before([], h) == h
  {
    assert [] + h.bytes == h.bytes;
  }

  lemma NoText(names: Naming, s: seq<Byte>, p: nat)
    requires p <= |s|
    ensures TextValue(names, s, p, p) == []
  {
  }
}
