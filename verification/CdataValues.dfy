/** What the value of an attribute of type CDATA is (section 3.3.3 of XML 1.0), read off the bytes of
    the literal and of the replacement texts, and that appendAttributeValue (expat/xmlparse.c) makes
    just that of it, or the same error. */
module CdataValues {
  import opened Wrappers
  import opened XmlBytes
  import opened ContentScanner
  import opened CharacterData
  import opened AttributeValues
  import opened TokenSpans
  import ContentLoops
  import TokenReading
  import TokenScanning

  // ------------------------------------------------------------------ references

  /** The bytes of a word of ASCII characters. */
  function Ascii(w: string): (bytes: seq<Byte>)
    ensures |bytes| == |w|
  {
    seq(|w|, i requires 0 <= i < |w| => if w[i] as int < 0x80 then w[i] as int else 0)
  }

  const UPPER: seq<Byte> := Ascii("0123456789ABCDEF")
  const LOWER: seq<Byte> := Ascii("0123456789abcdef")

  /** Both ways to write a digit. */
  ghost predicate Denotes(b: Byte, d: nat) {
    d < 16 && (UPPER[d] == b || LOWER[d] == b)
  }

  /** The number `n` is `m` with the digit `d` behind it. */
  ghost predicate Appends(b: Byte, hex: bool, m: nat, d: nat, n: nat) {
    Denotes(b, d) && if hex then n == 16 * m + d else d < 10 && n == 10 * m + d
  }

  /** The digits from `i` to `j` write the number `n` in base sixteen or ten. */
  ghost predicate Writes(v: seq<Byte>, i: nat, j: nat, hex: bool, n: nat)
    requires i <= j <= |v|
    decreases j - i
  {
    if i == j then n == 0
    else
      var k: nat := j - 1;
      exists d: nat, m: nat :: Writes(v, i, k, hex, m) && Appends(v[k], hex, m, d, n)
  }

  /** The digits of a character reference: hexadecimal behind an x, else decimal. */
  ghost predicate RefersTo(v: seq<Byte>, p: nat, q: nat, n: nat)
    requires CharRefAt(v, p, q)
  {
    if v[p + 2] == 0x78 then Writes(v, p + 3, q - 1, true, n) else Writes(v, p + 2, q - 1, false, n)
  }

  /** The five names and what they stand for. */
  function Predefined(name: seq<Byte>): Option<Byte> {
    if name == Ascii("lt") then Some(0x3C)
    else if name == Ascii("gt") then Some(0x3E)
    else if name == Ascii("amp") then Some(0x26)
    else if name == Ascii("quot") then Some(0x22)
    else if name == Ascii("apos") then Some(0x27)
    else None
  }

  lemma HexDigitsRead(d: nat)
    requires d < 16
    ensures HexDigit(UPPER[d]) == d == HexDigit(LOWER[d]) && (d < 10 ==> DecDigit(UPPER[d]) == d && LOWER[d] == UPPER[d])
    ensures AsciiDigit(UPPER[d]) <==> d < 10
    ensures d >= 10 ==> HexLetter(UPPER[d]) && HexLetter(LOWER[d])
  {
    assert d == 0 || d == 1 || d == 2 || d == 3 || d == 4 || d == 5 || d == 6 || d == 7
        || d == 8 || d == 9 || d == 10 || d == 11 || d == 12 || d == 13 || d == 14 || d == 15;
  }

  /** The five names, and no other. */
  lemma PredefinedExactly(name: seq<Byte>)
    ensures PredefinedEntity(name) == if Predefined(name).Some? then Predefined(name).value else 0
  {
    assert Ascii("lt") == [0x6C, 0x74];
    assert Ascii("gt") == [0x67, 0x74];
    assert Ascii("amp") == [0x61, 0x6D, 0x70];
    assert Ascii("quot") == [0x71, 0x75, 0x6F, 0x74];
    assert Ascii("apos") == [0x61, 0x70, 0x6F, 0x73];
  }

  lemma DigitIs(b: Byte, d: nat, hex: bool)
    requires if hex then AsciiDigit(b) || HexLetter(b) else AsciiDigit(b)
    ensures Denotes(b, d) && d < (if hex then 16 else 10) <==> d == if hex then HexDigit(b) else DecDigit(b)
  {
    var e := if hex then HexDigit(b) else DecDigit(b);
    if b < 0x3A {
      assert UPPER[e] == b;
    } else if b < 0x61 {
      assert UPPER[e] == b;
    } else {
      assert LOWER[e] == b;
    }
    if Denotes(b, d) { HexDigitsRead(d); }
  }

  function Front(bytes: seq<Byte>, rest: Result<seq<Byte>, Error>): Result<seq<Byte>, Error> {
    if rest.Err? then rest else Ok(bytes + rest.value)
  }

  function AfterLineEnd(v: seq<Byte>, p: nat): (q: nat)
    requires p < |v|
    ensures p < q <= |v|
  {
    if v[p] == 0xD && p + 1 < |v| && v[p + 1] == 0xA then p + 2 else p + 1
  }

  /** The value of `v` from `p` on. Every blank and every line end is a space, a reference to a character
      or to a predefined entity is that character, a reference to another entity is the value of its
      text, and every other byte is itself. */
  ghost function CdataValue(env: Env, open: set<Name>, v: seq<Byte>, p: nat): Result<seq<Byte>, Error>
    requires p <= |v|
    decreases env.entities.Keys - open, |v| - p
  {
    if p == |v| then Ok([])
    else if v[p] == 0x9 || v[p] == 0xA || v[p] == 0xD || v[p] == 0x20 then
      Front([0x20], CdataValue(env, open, v, AfterLineEnd(v, p)))
    else if v[p] == 0x3C then Err(InvalidToken)
    else if v[p] != 0x26 then Front([v[p]], CdataValue(env, open, v, p + 1))
    else if q: nat :| CharRefAt(v, p, q) then
      if n: nat :| RefersTo(v, p, q, n) && XmlChar(n) then Front(Encode(n), CdataValue(env, open, v, q)) else Err(BadCharRef)
    else if q: nat :| EntityRefAt(env.names, v, p, q) then
      var name := v[p + 1..q - 1];
      if Predefined(name).Some? then Front([Predefined(name).value], CdataValue(env, open, v, q))
      else
        var text := Lookup(env, open, name);
        if text.Err? then Err(text.error)
        else if text.value.None? then CdataValue(env, open, v, q)
        else
          var inner := CdataValue(env, open + {name}, text.value.value, 0);
          if inner.Err? then inner else Front(inner.value, CdataValue(env, open, v, q))
    else Err(InvalidToken)
  }

  // ------------------------------------------------------------------ the references that are there

  lemma {:induction false} WritesExactly(v: seq<Byte>, i: nat, j: nat, hex: bool, n: nat)
    requires i <= j <= |v| && forall k :: i <= k < j ==> AsciiDigit(v[k]) || (hex && HexLetter(v[k]))
    ensures Writes(v, i, j, hex, n) <==> n == ValueOf(v[i..j], hex)
    decreases j - i
  {
    hide HexDigit, DecDigit;
    if i == j {
      assert v[i..j] == [];
    } else {
      assert v[i..j][..j - i - 1] == v[i..j - 1];
      var d := if hex then HexDigit(v[j - 1]) else DecDigit(v[j - 1]);
      DigitIs(v[j - 1], d, hex);
      var m0 := ValueOf(v[i..j - 1], hex);
      WritesExactly(v, i, j - 1, hex, m0);
      if n == ValueOf(v[i..j], hex) { assert Appends(v[j - 1], hex, m0, d, n); }
      if Writes(v, i, j, hex, n) {
        var k: nat := j - 1;
        var e: nat, m: nat :| Writes(v, i, k, hex, m) && Appends(v[k], hex, m, e, n);
        DigitIs(v[j - 1], e, hex);
        WritesExactly(v, i, j - 1, hex, m);
      }
    }
  }

  /** The number a reference is for, and that it has just one. */
  lemma {:induction false} RefersExactly(v: seq<Byte>, p: nat, q: nat, n: nat)
    requires CharRefAt(v, p, q) && IsCharRef(v[p..q])
    ensures RefersTo(v, p, q, n) && XmlChar(n) <==> n == NumberOf(v[p..q])
  {
    hide ValueOf, Writes, ByteType;
    var ref := v[p..q];
    assert ref[2] == v[p + 2];
    Digits(v, p, q);
    if v[p + 2] == 0x78 {
      SliceOfSlice(v, p, q, 3);
      WritesExactly(v, p + 3, q - 1, true, n);
    } else {
      SliceOfSlice(v, p, q, 2);
      WritesExactly(v, p + 2, q - 1, false, n);
    }
  }

  lemma SliceOfSlice(v: seq<Byte>, p: nat, q: nat, n: nat)
    requires p + n < q <= |v|
    ensures |v[p..q]| == q - p
    ensures v[p..q][n..q - p - 1] == v[p + n..q - 1]
  {
    assert forall i: nat {:trigger v[p + n..q - 1][i]} :: i < q - 1 - p - n ==> v[p..q][n..q - p - 1][i] == v[p + n..q - 1][i];
  }

  lemma Digits(v: seq<Byte>, p: nat, q: nat)
    requires CharRefAt(v, p, q)
    ensures if v[p + 2] == 0x78 then p + 4 < q && Digits16(v, p + 3, q - 1) else Digits10(v, p + 2, q - 1)
  {
  }

  lemma {:induction false} IsReference(v: seq<Byte>, p: nat, q: nat)
    requires CharRefAt(v, p, q)
    ensures IsCharRef(v[p..q])
  {
    hide ByteType;
    var ref := v[p..q];
    Digits(v, p, q);
    assert ref[0] == v[p] == v[p..p + 2][0] && ref[1] == v[p + 1] == v[p..p + 2][1] && ref[|ref| - 1] == v[q - 1];
    assert ref[2] == v[p + 2];
    forall k | 2 <= k < |ref| - 1
      ensures ref[k] != 0x3B && (ref[2] != 0x78 ==> 0x30 <= ref[k] <= 0x39) && (ref[2] == 0x78 && k > 2 ==> ByteType(ref[k]) in {Digit, Hex})
    {
      assert ref[k] == v[p + k];
      Numeral(v[p + k]);
    }
  }

  lemma CharRefInside(v: seq<Byte>, p: nat, q: nat)
    requires CharRefAt(v, p, q)
    ensures p + 3 < q <= |v| && v[p] == 0x26
  {
    assert v[p] == v[p..p + 2][0];
  }

  /** References end where the scanner says, so there is only one from `p` on. */
  lemma {:induction false} OneCharRef(names: Naming, v: seq<Byte>, p: nat, q: nat)
    requires CharRefAt(v, p, q)
    ensures p < |v| && RefRun(names, RefStart, v, p + 1) == Token(CharRef, q)
    ensures forall q': nat :: CharRefAt(v, p, q') ==> q' == q
    ensures forall q': nat :: !EntityRefAt(names, v, p, q')
  {
    hide RefRun, CharRefAt, EntityRefAt;
    TokenScanning.CharRefComplete(names, v, p, q);
    CharRefInside(v, p, q);
    forall q': nat | CharRefAt(v, p, q') ensures q' == q { TokenScanning.CharRefComplete(names, v, p, q'); }
    forall q': nat ensures !EntityRefAt(names, v, p, q') {
      if EntityRefAt(names, v, p, q') { TokenScanning.EntityRefComplete(names, v, p, q'); }
    }
  }

  lemma {:induction false} OneEntityRef(names: Naming, v: seq<Byte>, p: nat, q: nat)
    requires EntityRefAt(names, v, p, q)
    ensures p < |v| && RefRun(names, RefStart, v, p + 1) == Token(EntityRef, q)
    ensures forall q': nat :: EntityRefAt(names, v, p, q') ==> q' == q
    ensures forall q': nat :: !CharRefAt(v, p, q')
  {
    hide RefRun, CharRefAt, NameAt;
    TokenScanning.EntityRefComplete(names, v, p, q);
    forall q': nat | EntityRefAt(names, v, p, q') ensures q' == q { TokenScanning.EntityRefComplete(names, v, p, q'); }
    forall q': nat ensures !CharRefAt(v, p, q') {
      if CharRefAt(v, p, q') { TokenScanning.CharRefComplete(names, v, p, q'); }
    }
  }

  /** What the scanner says of a reference that is none: never that input is missing. */
  lemma {:induction false} RefFails(names: Naming, st: RefState, v: seq<Byte>, p: nat)
    requires Checked(v, p) && RefRun(names, st, v, p).Halt?
    ensures RefRun(names, st, v, p).tok in {Invalid, Partial}
    decreases |v| - p
  {
    hide RefRun, RefStep, Width;
    ContentLoops.RefUnroll(names, st, v, p);
    if p < |v| {
      RefWidth(names, st, v, p);
      RefStops(names, st, v, p);
      if RefStep(names, st, v, p).RefGo? {
        RefFails(names, RefStep(names, st, v, p).st, v, p + RefStep(names, st, v, p).n);
      }
    }
  }

  lemma RefStops(names: Naming, st: RefState, v: seq<Byte>, p: nat)
    requires Checked(v, p) && p < |v|
    ensures RefStep(names, st, v, p).RefStop? ==> RefStep(names, st, v, p).tok == Invalid
  {
    hide InvalidChar;
  }

  // ------------------------------------------------------------------ runs of data

  predicate PlainByte(b: Byte) {
    b !in {0x9, 0xA, 0xD, 0x20, 0x26, 0x3C}
  }

  lemma PlainClass(b: Byte)
    ensures PlainByte(b) <==> !EndsData(ByteType(b)) && ByteType(b) != Lt
    ensures ByteType(b) == Amp <==> b == 0x26
    ensures ByteType(b) == Lt <==> b == 0x3C
    ensures ByteType(b) == Lf <==> b == 0xA
    ensures ByteType(b) == Cr <==> b == 0xD
    ensures ByteType(b) == S <==> b == 0x9 || b == 0x20
  {
  }

  lemma FrontFront(x: seq<Byte>, y: seq<Byte>, r: Result<seq<Byte>, Error>)
    ensures Front(x, Front(y, r)) == Front(x + y, r) && Front([], r) == r
  {
    assert r.Ok? ==> x + (y + r.value) == (x + y) + r.value && [] + r.value == r.value;
  }

  lemma {:induction false} PlainBytes(env: Env, open: set<Name>, v: seq<Byte>, p: nat, q: nat)
    requires p <= q <= |v| && forall k :: p <= k < q ==> PlainByte(v[k])
    ensures CdataValue(env, open, v, p) == Front(v[p..q], CdataValue(env, open, v, q))
    decreases q - p
  {
    hide CharRefAt, EntityRefAt;
    if p < q {
      PlainBytes(env, open, v, p + 1, q);
      FrontFront([v[p]], v[p + 1..q], CdataValue(env, open, v, q));
      assert v[p..q] == [v[p]] + v[p + 1..q];
    } else {
      FrontFront([], [], CdataValue(env, open, v, q));
      assert v[p..q] == [];
    }
  }

  /** No byte of a character of several bytes is taken for anything else. */
  lemma {:induction false} CharIsPlain(v: seq<Byte>, p: nat)
    requires Checked(v, p) && p < |v| && PlainByte(v[p])
    ensures p + Width(v, p) <= |v| && forall k :: p <= k < p + Width(v, p) ==> PlainByte(v[k])
  {
    var n := Width(v, p);
    if n > 1 {
      ValidIsEncoded(v[p..p + n]);
      forall k | p < k < p + n
        ensures PlainByte(v[k])
      {
        assert v[k] == v[p..p + n][k - p];
      }
    }
  }

  lemma {:induction false} DataIsPlain(env: Env, open: set<Name>, v: seq<Byte>, p: nat)
    requires Checked(v, p)
    ensures var t := ValueData(v, p);
            CdataValue(env, open, v, p) ==
              if t.Token? && t.next <= |v| then Front(v[p..t.next], CdataValue(env, open, v, t.next)) else Err(InvalidToken)
    ensures ValueData(v, p).Token? ==> ValueData(v, p).next <= |v|
    decreases |v| - p
  {
    hide CharRefAt, EntityRefAt, ByteType, Width;
    if p == |v| {
      PlainBytes(env, open, v, p, p);
    } else {
      PlainClass(v[p]);
      if PlainByte(v[p]) {
        var q := p + Width(v, p);
        CharIsPlain(v, p);
        FirstData(v, p);
        DataIsPlain(env, open, v, q);
        PlainBytes(env, open, v, p, q);
        var t := ValueData(v, p);
        if t.Token? {
          FrontFront(v[p..q], v[q..t.next], CdataValue(env, open, v, t.next));
          assert v[p..t.next] == v[p..q] + v[q..t.next];
        }
      } else if v[p] != 0x3C {
        PlainBytes(env, open, v, p, p);
      }
    }
  }

  // ------------------------------------------------------------------ the expansion is the value

  /** What is appended to `pool` is the value, or the error is the same. */
  predicate Agrees(x: Expansion, pool: seq<Byte>, w: Result<seq<Byte>, Error>) {
    if w.Err? then x.err == Some(w.error) else x == Expansion(None, pool + w.value)
  }

  lemma AgreesFront(x: Expansion, pool: seq<Byte>, bytes: seq<Byte>, w: Result<seq<Byte>, Error>)
    requires Agrees(x, pool + bytes, w)
    ensures Agrees(x, pool, Front(bytes, w))
  {
    assert w.Ok? ==> pool + bytes + w.value == pool + (bytes + w.value);
  }

  lemma {:induction false} BlankAgrees(env: Env, open: set<Name>, v: seq<Byte>, p: nat, pool: seq<Byte>)
    requires EnvOk(env) && Checked(v, p) && open <= env.entities.Keys && p < |v| && v[p] in {0x9, 0xA, 0xD, 0x20}
    ensures Checked(v, AfterLineEnd(v, p))
    ensures Expand(env, open, true, v, p, pool) == Expand(env, open, true, v, AfterLineEnd(v, p), pool + [0x20])
  {
    hide Expand, ByteType, RefRun, ValueData, Checked;
    PlainClass(v[p]);
    if p + 1 < |v| { PlainClass(v[p + 1]); }
    TokensWhole(env.names, v, p);
    ExpandNext(env, open, true, v, p, pool);
  }

  lemma {:induction false} DataAgrees(env: Env, open: set<Name>, v: seq<Byte>, p: nat, pool: seq<Byte>)
    requires EnvOk(env) && Checked(v, p) && open <= env.entities.Keys && p < |v| && PlainByte(v[p])
    ensures var t := AfterFirst(v, p);
            Expand(env, open, true, v, p, pool) ==
              if t.Token? then Expand(env, open, true, v, t.next, pool + v[p..t.next]) else Expansion(Some(InvalidToken), pool)
    ensures var t := AfterFirst(v, p);
            CdataValue(env, open, v, p) == if t.Token? then Front(v[p..t.next], CdataValue(env, open, v, t.next)) else Err(InvalidToken)
  {
    hide Expand, ByteType, RefRun, ValueData, CdataValue, Width;
    PlainClass(v[p]);
    ExpandNext(env, open, true, v, p, pool);
    FirstData(v, p);
    CharIsPlain(v, p);
    var q := p + Width(v, p);
    DataIsPlain(env, open, v, q);
    PlainBytes(env, open, v, p, q);
    var t := AfterFirst(v, p);
    if t.Token? {
      FrontFront(v[p..q], v[q..t.next], CdataValue(env, open, v, t.next));
      assert v[p..t.next] == v[p..q] + v[q..t.next];
    }
  }

  lemma {:induction false} CharRefAgrees(env: Env, open: set<Name>, v: seq<Byte>, p: nat, q: nat, pool: seq<Byte>)
    requires EnvOk(env) && Checked(v, p) && open <= env.entities.Keys && CharRefAt(v, p, q)
    ensures Checked(v, q) && p + 3 < q <= |v| && v[p] == 0x26
    ensures forall n: nat :: RefersTo(v, p, q, n) && XmlChar(n) ==>
              && Expand(env, open, true, v, p, pool) == Expand(env, open, true, v, q, pool + Encode(n))
              && CdataValue(env, open, v, p) == Front(Encode(n), CdataValue(env, open, v, q))
    ensures (forall n: nat :: !(RefersTo(v, p, q, n) && XmlChar(n))) ==>
              && Expand(env, open, true, v, p, pool) == Expansion(Some(BadCharRef), pool)
              && CdataValue(env, open, v, p) == Err(BadCharRef)
  {
    hide Expand, ByteType, RefRun, CharRefAt, EntityRefAt, IsCharRef, RefersTo;
    CharRefInside(v, p, q);
    OneCharRef(env.names, v, p, q);
    PlainClass(v[p]);
    TokensWhole(env.names, v, p);
    ExpandNext(env, open, true, v, p, pool);
    IsReference(v, p, q);
    forall n: nat ensures RefersTo(v, p, q, n) && XmlChar(n) <==> n == NumberOf(v[p..q]) { RefersExactly(v, p, q, n); }
    SpaceEncoded();
  }

  lemma SpaceEncoded()
    ensures Encode(0x20) == [0x20]
  {
  }

  lemma {:induction false} EntityRefAgrees(env: Env, open: set<Name>, v: seq<Byte>, p: nat, q: nat, pool: seq<Byte>)
    requires EnvOk(env) && Checked(v, p) && open <= env.entities.Keys && EntityRefAt(env.names, v, p, q)
    ensures p + 2 <= q <= |v| && Checked(v, q) && v[p] == 0x26
    ensures (var name := v[p + 1..q - 1];
            Expand(env, open, true, v, p, pool) ==
              if Predefined(name).Some? then Expand(env, open, true, v, q, pool + [Predefined(name).value])
              else
                var text := Lookup(env, open, name);
                if text.Err? then Expansion(Some(text.error), pool)
                else if text.value.None? then Expand(env, open, true, v, q, pool)
                else
                  TextWhole(env, name);
                  LookedUp(env, open, name);
                  var inner := Expand(env, open + {name}, true, text.value.value, 0, pool);
                  if inner.err.Some? then inner else Expand(env, open, true, v, q, inner.pool))
    ensures var name := v[p + 1..q - 1];
            CdataValue(env, open, v, p) ==
              if Predefined(name).Some? then Front([Predefined(name).value], CdataValue(env, open, v, q))
              else
                var text := Lookup(env, open, name);
                if text.Err? then Err(text.error)
                else if text.value.None? then CdataValue(env, open, v, q)
                else
                  var inner := CdataValue(env, open + {name}, text.value.value, 0);
                  if inner.Err? then inner else Front(inner.value, CdataValue(env, open, v, q))
  {
    hide Expand, ByteType, RefRun, CharRefAt, NameAt, Predefined, Checked, EnvOk, Lookup;
    OneEntityRef(env.names, v, p, q);
    PlainClass(v[p]);
    TokensWhole(env.names, v, p);
    var name := v[p + 1..q - 1];
    EntityStep(v, p, q, pool);
    PredefinedExactly(name);
    ExpandNext(env, open, true, v, p, pool);
    PredefinedSome(name);
    TextWhole(env, name);
  }

  lemma PredefinedSome(name: seq<Byte>)
    ensures Predefined(name).Some? ==> Predefined(name).value != 0
  {
  }

  lemma EntityStep(v: seq<Byte>, p: nat, q: nat, pool: seq<Byte>)
    requires p + 2 <= q <= |v|
    ensures var name := v[p + 1..q - 1];
            SimpleStep(true, v, p, Token(EntityRef, q), pool) ==
              if PredefinedEntity(name) != 0 then Append(pool + [PredefinedEntity(name)]) else Nested(name)
  {
    hide PredefinedEntity;
    var ref := v[p..q];
    assert |ref| == q - p && ref[1..|ref| - 1] == v[p + 1..q - 1] by { SliceOfSlice(v, p, q, 1); }
  }

  /** An ampersand that starts no reference. */
  lemma {:induction false} NoRefAgrees(env: Env, open: set<Name>, v: seq<Byte>, p: nat, pool: seq<Byte>)
    requires EnvOk(env) && Checked(v, p) && open <= env.entities.Keys && p < |v| && v[p] == 0x26
    requires forall q: nat :: !CharRefAt(v, p, q) && !EntityRefAt(env.names, v, p, q)
    ensures Expand(env, open, true, v, p, pool) == Expansion(Some(InvalidToken), pool)
    ensures CdataValue(env, open, v, p) == Err(InvalidToken)
  {
    hide Expand, ByteType, RefRun, CharRefAt, EntityRefAt;
    PlainClass(v[p]);
    TokenReading.RefHere(env.names, v, p);
    assert Checked(v, p + 1);
    if RefRun(env.names, RefStart, v, p + 1).Halt? { RefFails(env.names, RefStart, v, p + 1); }
    ExpandNext(env, open, true, v, p, pool);
  }

  /** appendAttributeValue appends the value, for every declaration and every text. */
  lemma {:induction false} ValueExactly(env: Env, open: set<Name>, v: seq<Byte>, p: nat, pool: seq<Byte>)
    requires EnvOk(env) && Checked(v, p) && open <= env.entities.Keys
    ensures p <= |v| && Agrees(Expand(env, open, true, v, p, pool), pool, CdataValue(env, open, v, p))
    decreases env.entities.Keys - open, |v| - p
  {
    hide Expand, CdataValue, CharRefAt, EntityRefAt, ByteType, Checked, EnvOk, Lookup, AfterFirst, RefersTo, Predefined;
    CheckedInside(v, p);
    if p == |v| {
      ValueEnds(env, open, v, pool);
    } else if v[p] in {0x9, 0xA, 0xD, 0x20} {
      BlankAgrees(env, open, v, p, pool);
      BlankValue(env, open, v, p);
      ValueExactly(env, open, v, AfterLineEnd(v, p), pool + [0x20]);
      AgreesFront(Expand(env, open, true, v, p, pool), pool, [0x20], CdataValue(env, open, v, AfterLineEnd(v, p)));
    } else if v[p] == 0x3C {
      LessThan(env, open, v, p, pool);
    } else if v[p] != 0x26 {
      DataAgrees(env, open, v, p, pool);
      var t := AfterFirst(v, p);
      if t.Token? {
        ValueExactly(env, open, v, t.next, pool + v[p..t.next]);
        AgreesFront(Expand(env, open, true, v, p, pool), pool, v[p..t.next], CdataValue(env, open, v, t.next));
      }
    } else if q: nat :| CharRefAt(v, p, q) {
      CharRefAgrees(env, open, v, p, q, pool);
      if n: nat :| RefersTo(v, p, q, n) && XmlChar(n) {
        ValueExactly(env, open, v, q, pool + Encode(n));
        AgreesFront(Expand(env, open, true, v, p, pool), pool, Encode(n), CdataValue(env, open, v, q));
      }
    } else if q: nat :| EntityRefAt(env.names, v, p, q) {
      EntityRefAgrees(env, open, v, p, q, pool);
      var name := v[p + 1..q - 1];
      var text := Lookup(env, open, name);
      if Predefined(name).Some? {
        var c := [Predefined(name).value];
        ValueExactly(env, open, v, q, pool + c);
        AgreesFront(Expand(env, open, true, v, p, pool), pool, c, CdataValue(env, open, v, q));
      } else if text.Ok? && text.value.None? {
        ValueExactly(env, open, v, q, pool);
      } else if text.Ok? {
        TextWhole(env, name);
        LookedUp(env, open, name);
        ValueExactly(env, open + {name}, text.value.value, 0, pool);
        var inner := CdataValue(env, open + {name}, text.value.value, 0);
        if inner.Ok? {
          ValueExactly(env, open, v, q, pool + inner.value);
          AgreesFront(Expand(env, open, true, v, p, pool), pool, inner.value, CdataValue(env, open, v, q));
        }
      }
    } else {
      NoRefAgrees(env, open, v, p, pool);
    }
  }

  lemma CheckedInside(v: seq<Byte>, p: nat)
    requires Checked(v, p)
    ensures p <= |v|
  {
  }

  lemma ValueEnds(env: Env, open: set<Name>, v: seq<Byte>, pool: seq<Byte>)
    requires EnvOk(env) && Checked(v, |v|) && open <= env.entities.Keys
    ensures Agrees(Expand(env, open, true, v, |v|, pool), pool, CdataValue(env, open, v, |v|))
  {
    hide Expand;
    ExpandNext(env, open, true, v, |v|, pool);
    assert pool + [] == pool;
  }

  lemma BlankValue(env: Env, open: set<Name>, v: seq<Byte>, p: nat)
    requires p < |v| && v[p] in {0x9, 0xA, 0xD, 0x20}
    ensures CdataValue(env, open, v, p) == Front([0x20], CdataValue(env, open, v, AfterLineEnd(v, p)))
  {
    hide CharRefAt, EntityRefAt;
  }

  lemma LessThan(env: Env, open: set<Name>, v: seq<Byte>, p: nat, pool: seq<Byte>)
    requires EnvOk(env) && Checked(v, p) && open <= env.entities.Keys && p < |v| && v[p] == 0x3C
    ensures Agrees(Expand(env, open, true, v, p, pool), pool, CdataValue(env, open, v, p))
  {
    hide Expand, CharRefAt, EntityRefAt;
    ExpandNext(env, open, true, v, p, pool);
  }

  /** The stored value of an attribute of type CDATA, or the error it is refused with. */
  lemma {:induction false} StoredIsValue(env: Env, open: set<Name>, v: seq<Byte>)
    requires EnvOk(env) && Checked(v, 0) && open <= env.entities.Keys
    ensures Stored(env, open, true, v) == CdataValue(env, open, v, 0)
  {
    hide Expand, CdataValue;
    ValueExactly(env, open, v, 0, []);
    var w := CdataValue(env, open, v, 0);
    assert w.Ok? ==> [] + w.value == w.value;
  }
}
