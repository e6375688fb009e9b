/** The writer's escaping of text and attribute values (genx/genx.c). */
module GenxText {
  import opened Wrappers
  import opened XmlBytes

  datatype Outcome = Success | BadUtf8 | NonXmlCharacter

  /** isXMLChar with the full character table or with the small one, which knows nothing beyond 0xFF
      and lets all of that through. */
  predicate Accepted(c: int, full: bool) {
    if c < 0 then false
    else if c < (if full then 0x10000 else 0x100) then
      c == 0x9 || c == 0xA || c == 0xD || 0x20 <= c <= 0xFF || 0x100 <= c <= 0xD7FF || 0xE000 <= c <= 0xFFFD
    else c <= 0x10FFFF
  }

  predicate AllAccepted(cs: seq<nat>, full: bool) {
    forall i :: 0 <= i < |cs| ==> Accepted(cs[i], full)
  }

  // ------------------------------------------------------------------ what should be sent

  const CR_REF: seq<Byte> := [0x26, 0x23, 0x78, 0x44, 0x3B]
  const LF_REF: seq<Byte> := [0x26, 0x23, 0x78, 0x41, 0x3B]
  const TAB_REF: seq<Byte> := [0x26, 0x23, 0x78, 0x39, 0x3B]
  const LT_REF: seq<Byte> := [0x26, 0x6C, 0x74, 0x3B]
  const GT_REF: seq<Byte> := [0x26, 0x67, 0x74, 0x3B]
  const AMP_REF: seq<Byte> := [0x26, 0x61, 0x6D, 0x70, 0x3B]
  const QUOT_REF: seq<Byte> := [0x26, 0x71, 0x75, 0x6F, 0x74, 0x3B]

  function TextChar(c: nat): seq<Byte>
    requires Scalar(c)
  {
    match c
    case 0xD => CR_REF
    case 0x3C => LT_REF
    case 0x26 => AMP_REF
    case 0x3E => GT_REF
    case _ => Encode(c)
  }

  function ValueChar(c: nat): seq<Byte>
    requires Scalar(c)
  {
    match c
    case 0x9 => TAB_REF
    case 0xA => LF_REF
    case 0xD => CR_REF
    case 0x22 => QUOT_REF
    case 0x3C => LT_REF
    case 0x26 => AMP_REF
    case _ => Encode(c)
  }

  function EscapedText(cs: seq<nat>): seq<Byte>
    requires Scalars(cs)
  {
    if cs == [] then [] else EscapedText(cs[..|cs| - 1]) + TextChar(cs[|cs| - 1])
  }

  function EscapedValue(cs: seq<nat>): seq<Byte>
    requires Scalars(cs)
  {
    if cs == [] then [] else EscapedValue(cs[..|cs| - 1]) + ValueChar(cs[|cs| - 1])
  }

  lemma {:induction false} Utf8More(cs: seq<nat>, c: nat)
    requires Scalars(cs) && Scalar(c)
    ensures Scalars(cs + [c]) && Utf8(cs + [c]) == Utf8(cs) + Encode(c)
    ensures EscapedText(cs + [c]) == EscapedText(cs) + TextChar(c)
    ensures EscapedValue(cs + [c]) == EscapedValue(cs) + ValueChar(c)
  {
    var more := cs + [c];
    assert more[..|cs|] == cs;
    if cs == [] {
      assert more[1..] == [];
    } else {
      assert more[1..] == cs[1..] + [c];
      Utf8More(cs[1..], c);
    }
  }

  // ------------------------------------------------------------------ reading the caller's bytes

  predicate NoZero(s: seq<Byte>) {
    forall i :: 0 <= i < |s| ==> s[i] != 0
  }

  /** The characters of `s` from `i` on, if it is well-formed UTF-8. */
  function Decoded(s: seq<Byte>, i: nat): (r: Option<seq<nat>>)
    requires i <= |s|
    ensures r.Some? ==> Scalars(r.value)
    decreases |s| - i
  {
    if i == |s| then Some([]) else
    DecoderExact(s, i);
    var (c, j) := NextUnicodeChar(s, i);
    if c < 0 then None else
    var rest := Decoded(s, j);
    if rest.None? then None else Some([c] + rest.value)
  }

  lemma {:induction false} DecodedIsUtf8(s: seq<Byte>, i: nat)
    requires i <= |s| && Decoded(s, i).Some?
    ensures Utf8(Decoded(s, i).value) == s[i..]
    decreases |s| - i
  {
    hide NextUnicodeChar;
    if i < |s| {
      DecoderExact(s, i);
      var (c, j) := NextUnicodeChar(s, i);
      DecodedIsUtf8(s, j);
      var cs := Decoded(s, i).value;
      assert cs[1..] == Decoded(s, j).value;
      assert s[i..] == s[i..j] + s[j..];
    }
  }

  lemma {:induction false} Utf8Decodes(s: seq<Byte>, i: nat, cs: seq<nat>)
    requires i <= |s| && Scalars(cs) && s[i..] == Utf8(cs) && forall k :: 0 <= k < |cs| ==> cs[k] != 0
    ensures Decoded(s, i) == Some(cs)
    decreases |cs|
  {
    hide NextUnicodeChar;
    if cs != [] {
      var j := i + |Encode(cs[0])|;
      assert s[i..j] == s[i..][..j - i] == Encode(cs[0]);
      assert s[j..] == s[i..][j - i..] == Utf8(cs[1..]);
      DecoderComplete(s, i, cs[0]);
      Utf8Decodes(s, j, cs[1..]);
      assert cs == [cs[0]] + cs[1..];
    }
  }

  // ------------------------------------------------------------------ the writer's loops

  class Sender {
    /** What has been handed to the output. */
    var sent: seq<Byte>

    constructor ()
      ensures sent == []
    {
      sent := [];
    }

    /** addChar: ordinary text piles up between `breaker` and `lasts` until something is escaped. */
    method AddChar(s: seq<Byte>, c: int, next: nat, lasts: nat, breaker: nat, full: bool)
      returns (st: Outcome, lasts': nat, breaker': nat)
      requires breaker <= lasts <= next <= |s|
      requires c >= 0 ==> c < 0x110000 && Scalar(c) && s[lasts..next] == Encode(c)
      modifies this
      ensures st == if c < 0 then BadUtf8 else if Accepted(c, full) then Success else NonXmlCharacter
      ensures st == Success ==>
        lasts' == next && breaker' <= lasts' && sent + s[breaker'..lasts'] == old(sent) + s[breaker..lasts] + TextChar(c)
    {
      lasts', breaker' := lasts, breaker;
      if c < 0 {
        return BadUtf8, lasts', breaker';
      }
      if !Accepted(c, full) {
        return NonXmlCharacter, lasts', breaker';
      }
      assert s[breaker..next] == s[breaker..lasts] + s[lasts..next];
      match c {
        case 0xD =>
          sent := sent + s[breaker..lasts];
          breaker' := next;
          sent := sent + CR_REF;
        case 0x3C =>
          sent := sent + s[breaker..lasts];
          breaker' := next;
          sent := sent + LT_REF;
        case 0x26 =>
          sent := sent + s[breaker..lasts];
          breaker' := next;
          sent := sent + AMP_REF;
        case 0x3E =>
          sent := sent + s[breaker..lasts];
          breaker' := next;
          sent := sent + GT_REF;
        case _ =>
          assert old(sent) + s[breaker..lasts] + s[lasts..next] == sent + s[breaker..next];
      }
      lasts' := next;
      assert breaker' == next ==> s[breaker'..lasts'] == [];
      return Success, lasts', breaker';
    }

    /** genxAddText in content; `s` is the caller's string without its terminator. */
    method AddText(s: seq<Byte>, full: bool) returns (st: Outcome)
      requires NoZero(s)
      modifies this
      ensures st == Success <==> Decoded(s, 0).Some? && AllAccepted(Decoded(s, 0).value, full)
      ensures st == Success ==> sent == old(sent) + EscapedText(Decoded(s, 0).value)
    {
      hide NextUnicodeChar, TextChar, Accepted, Decoded, Prefixed, Utf8, Encode, AllAccepted, EscapedText, NoZero, Scalars, Scalar;
      var start: nat, lasts: nat, breaker: nat := 0, 0, 0;
      ghost var cs: seq<nat> := [];
      NothingYet(Decoded(s, 0));
      while start < |s|
        invariant breaker <= lasts == start <= |s| && Scalars(cs) && AllAccepted(cs, full)
        invariant Decoded(s, 0) == Prefixed(cs, Decoded(s, start))
        invariant sent + s[breaker..start] == old(sent) + EscapedText(cs)
        decreases |s| - start
      {
        var (c, next) := NextUnicodeChar(s, start);
        DecodedNext(s, start, cs);
        if c >= 0 { Utf8More(cs, c); }
        st, lasts, breaker := AddChar(s, c, if c < 0 then start else next, lasts, breaker, full);
        if st != Success {
          if c >= 0 { Rejected(cs, c, Decoded(s, next), full); } else { NotDecoded(cs); }
          return st;
        }
        start := next;
        Regroup(old(sent), EscapedText(cs), TextChar(c));
        AcceptedMore(cs, c, full);
        cs := cs + [c];
      }
      AllRead(s, cs);
      sent := sent + s[breaker..start];
      return Success;
    }

    /** The pieces of collectAttributeValue. */
    method CollectChar(s: seq<Byte>, c: nat, last: nat, start: nat)
      requires last <= start <= |s| && Scalar(c) && s[last..start] == Encode(c)
      modifies this
      ensures sent == old(sent) + ValueChar(c)
    {
      match c {
        case 0x9 => sent := sent + TAB_REF;
        case 0xA => sent := sent + LF_REF;
        case 0xD => sent := sent + CR_REF;
        case 0x22 => sent := sent + QUOT_REF;
        case 0x3C => sent := sent + LT_REF;
        case 0x26 => sent := sent + AMP_REF;
        case _ => sent := sent + s[last..start];
      }
    }

    /** collectAttributeValue: every character is a piece of its own. */
    method CollectAttributeValue(s: seq<Byte>, full: bool) returns (st: Outcome)
      requires NoZero(s)
      modifies this
      ensures st == Success <==> Decoded(s, 0).Some? && AllAccepted(Decoded(s, 0).value, full)
      ensures st == Success ==> sent == old(sent) + EscapedValue(Decoded(s, 0).value)
    {
      hide NextUnicodeChar, ValueChar, Accepted, Decoded, Prefixed, Utf8, Encode, AllAccepted, EscapedValue, NoZero, Scalars, Scalar;
      var start: nat, last: nat := 0, 0;
      ghost var cs: seq<nat> := [];
      NothingYet(Decoded(s, 0));
      while start < |s|
        invariant last == start <= |s| && Scalars(cs) && AllAccepted(cs, full)
        invariant Decoded(s, 0) == Prefixed(cs, Decoded(s, start))
        invariant sent == old(sent) + EscapedValue(cs)
        decreases |s| - start
      {
        var (c, next) := NextUnicodeChar(s, start);
        DecodedNext(s, start, cs);
        if c < 0 {
          NotDecoded(cs);
          return BadUtf8;
        }
        if !Accepted(c, full) {
          Rejected(cs, c, Decoded(s, next), full);
          return NonXmlCharacter;
        }
        Utf8More(cs, c);
        start := next;
        CollectChar(s, c, last, start);
        Regroup(old(sent), EscapedValue(cs), ValueChar(c));
        last := start;
        AcceptedMore(cs, c, full);
        cs := cs + [c];
      }
      AllRead(s, cs);
      return Success;
    }
  }

  function Prefixed(cs: seq<nat>, r: Option<seq<nat>>): Option<seq<nat>> {
    if r.None? then None else Some(cs + r.value)
  }

  lemma Regroup(x: seq<Byte>, y: seq<Byte>, z: seq<Byte>)
    ensures x + y + z == x + (y + z)
  {
  }

  lemma NothingYet(r: Option<seq<nat>>)
    ensures Prefixed([], r) == r && Scalars([]) && AllAccepted([], true) && AllAccepted([], false) && EscapedText([]) == EscapedValue([]) == []
  {
    if r.Some? { assert [] + r.value == r.value; }
  }

  lemma AllRead(s: seq<Byte>, cs: seq<nat>)
    ensures Prefixed(cs, Decoded(s, |s|)) == Some(cs)
  {
    assert cs + [] == cs;
  }

  lemma NotDecoded(cs: seq<nat>)
    ensures Prefixed(cs, None) == None
  {
  }

  lemma AcceptedMore(cs: seq<nat>, c: nat, full: bool)
    requires AllAccepted(cs, full) && Accepted(c, full)
    ensures AllAccepted(cs + [c], full)
  {
  }

  lemma {:induction false} DecodedNext(s: seq<Byte>, i: nat, cs: seq<nat>)
    requires i < |s|
    ensures var (c, j) := NextUnicodeChar(s, i);
            if c < 0 then Prefixed(cs, Decoded(s, i)) == None
            else Scalar(c) && c < 0x110000 && i < j <= |s| && s[i..j] == Encode(c) && Prefixed(cs, Decoded(s, i)) == Prefixed(cs + [c], Decoded(s, j))
  {
    hide NextUnicodeChar;
    DecoderExact(s, i);
    var (c, j) := NextUnicodeChar(s, i);
    if c >= 0 && Decoded(s, j).Some? {
      assert cs + ([c] + Decoded(s, j).value) == cs + [c] + Decoded(s, j).value;
    }
  }

  lemma {:induction false} Rejected(cs: seq<nat>, c: nat, r: Option<seq<nat>>, full: bool)
    requires !Accepted(c, full)
    ensures Prefixed(cs + [c], r).Some? ==> !AllAccepted(Prefixed(cs + [c], r).value, full)
  {
    if r.Some? { assert (cs + [c] + r.value)[|cs|] == c; }
  }
}
