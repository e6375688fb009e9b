/** The converters between UTF-8 and UTF-16 (expat/xmltok.c), which work through an output buffer that
    may end before the input does. */
module Utf16Converters {
  import opened Wrappers
  import opened XmlBytes

  type Unit = x: int | 0 <= x < 0x10000

  datatype Convert = Completed | InputIncomplete | OutputExhausted

  // ------------------------------------------------------------------ UTF-16

  /** XmlUtf16Encode */
  function Encode16(c: nat): (us: seq<Unit>)
    requires c < 0x110000
    ensures 1 <= |us| <= 2
  {
    if c < 0x10000 then [c] else [(c - 0x10000) / 0x400 + 0xD800, (c - 0x10000) % 0x400 + 0xDC00]
  }

  function Utf16(cs: seq<nat>): seq<Unit>
    requires Scalars(cs)
  {
    if cs == [] then [] else Encode16(cs[0]) + Utf16(cs[1..])
  }

  predicate LeadUnit(u: Unit) {
    0xD800 <= u < 0xDC00
  }

  /** The character of a lead unit and the ten low bits of the unit after it. */
  function Pair(u: Unit, v: Unit): (c: nat)
    requires LeadUnit(u)
    ensures 0x10000 <= c < 0x110000
  {
    0x10000 + (u - 0xD800) * 0x400 + v % 0x400
  }

  /** A lead unit with nothing after it cannot be converted yet. */
  predicate Stuck(us: seq<Unit>) {
    us != [] && LeadUnit(us[0]) && |us| == 1
  }

  function FirstChar(us: seq<Unit>): (c: nat)
    requires us != [] && !Stuck(us)
    ensures c < 0x110000
  {
    if LeadUnit(us[0]) then Pair(us[0], us[1]) else us[0]
  }

  function FirstLength(us: seq<Unit>): (n: nat)
    requires us != [] && !Stuck(us)
    ensures 1 <= n <= |us|
  {
    if LeadUnit(us[0]) then 2 else 1
  }

  /** Everything that can be converted, in UTF-8. */
  function AllUtf8(us: seq<Unit>): seq<Byte>
    decreases |us|
  {
    if us == [] || Stuck(us) then [] else Encode(FirstChar(us)) + AllUtf8(us[FirstLength(us)..])
  }

  // ------------------------------------------------------------------ UTF-16 to UTF-8

  function Hi(u: Unit): Byte { u / 0x100 }

  function Lo(u: Unit): Byte { u % 0x100 }

  /** The units of a byte sequence; an odd byte at the end is no unit. */
  function UnitsOf(input: seq<Byte>, big: bool): (us: seq<Unit>)
    ensures |us| == |input| / 2
  {
    seq(|input| / 2, i requires 0 <= i < |input| / 2 => UnitAt(input, big, i))
  }

  function UnitAt(input: seq<Byte>, big: bool, i: nat): Unit
    requires 2 * i + 1 < |input|
  {
    GetHi(input, big, 2 * i) * 0x100 + GetLo(input, big, 2 * i)
  }

  function GetHi(input: seq<Byte>, big: bool, from: nat): int
    requires from + 1 < |input|
  {
    input[if big then from else from + 1]
  }

  function GetLo(input: seq<Byte>, big: bool, from: nat): int
    requires from + 1 < |input|
  {
    input[if big then from + 1 else from]
  }

  lemma Divided(x: nat, q: nat, r: nat, d: nat)
    requires r < d && x == q * d + r
    ensures x / d == q && x % d == r
  {
    var e := x / d - q;
    assert e * d == x / d * d - q * d == r - x % d;
    Multiple(e, d);
  }

  lemma Multiple(e: int, d: int)
    requires d >= 0
    ensures (e > 0 ==> e * d >= d) && (e < 0 ==> e * d <= -d)
  {
  }

  lemma TwoBytes(u: Unit)
    requires 0x80 <= u < 0x800
    ensures [Lo(u) / 0x40 + Hi(u) * 4 + 0xC0, Lo(u) % 0x40 + 0x80] == Encode(u)
  {
  }

  lemma LowSplit(v: nat)
    requires v < 0x10000
    ensures v / 0x40 == v / 0x100 * 4 + v % 0x100 / 0x40 && v % 0x40 == v % 0x100 % 0x40
  {
    Divided(v, v / 0x100 * 4 + v % 0x100 / 0x40, v % 0x100 % 0x40, 0x40);
  }

  lemma ThreeBytes(u: Unit)
    requires 0x800 <= u
    ensures [Hi(u) / 0x10 + 0xE0, Hi(u) % 0x10 * 4 + Lo(u) / 0x40 + 0x80, Lo(u) % 0x40 + 0x80] == Encode(u)
  {
    LowSplit(u);
    Divided(u / 0x40, Hi(u) / 0x10, Hi(u) % 0x10 * 4 + Lo(u) / 0x40, 0x40);
    Digits(u);
  }

  /** The plane number and the bits below it, taken from the bytes of the two units. */
  lemma FourBytes(u: Unit, v: Unit)
    requires LeadUnit(u)
    ensures var plane := Hi(u) % 4 * 4 + Lo(u) / 0x40 % 4 + 1;
            [plane / 4 + 0xF0, Lo(u) / 4 % 0x10 + plane % 4 * 0x10 + 0x80,
             Lo(u) % 4 * 0x10 + Hi(v) % 4 * 4 + Lo(v) / 0x40 + 0x80, Lo(v) % 0x40 + 0x80] == Encode(Pair(u, v))
  {
    var plane := Hi(u) % 4 * 4 + Lo(u) / 0x40 % 4 + 1;
    var high, low := u - 0xD800, v % 0x400;
    LeadSplit(u);
    LowTen(v);
    PairSplit(high, low);
    Digits(Pair(u, v));
    PlaneSplit(plane, Lo(u) / 4 % 0x10);
  }

  lemma LeadSplit(u: Unit)
    requires LeadUnit(u)
    ensures var plane := Hi(u) % 4 * 4 + Lo(u) / 0x40 % 4 + 1;
            (u - 0xD800) / 4 + 0x10 == plane * 0x10 + Lo(u) / 4 % 0x10 && (u - 0xD800) % 4 == Lo(u) % 4
  {
    Divided(Hi(u), 54, Hi(u) - 0xD8, 4);
    Divided(Lo(u) / 4, Lo(u) / 0x40, Lo(u) / 4 % 0x10, 0x10);
    Divided(u - 0xD800, (Hi(u) - 0xD8) * 0x40 + Lo(u) / 4, Lo(u) % 4, 4);
  }

  lemma LowTen(v: Unit)
    ensures v % 0x400 / 0x40 == Hi(v) % 4 * 4 + Lo(v) / 0x40 && v % 0x400 % 0x40 == Lo(v) % 0x40
  {
    Divided(v, Hi(v) / 4, Hi(v) % 4 * 0x100 + Lo(v), 0x400);
    Divided(v % 0x400, Hi(v) % 4 * 4 + Lo(v) / 0x40, Lo(v) % 0x40, 0x40);
  }

  lemma PairSplit(high: nat, low: nat)
    requires low < 0x400
    ensures var c := 0x10000 + high * 0x400 + low;
            c / 0x1000 == 0x10 + high / 4 && c / 0x40 % 0x40 == high % 4 * 0x10 + low / 0x40 && c % 0x40 == low % 0x40
  {
    var c := 0x10000 + high * 0x400 + low;
    Divided(c, 0x400 + high * 0x10 + low / 0x40, low % 0x40, 0x40);
    Divided(c / 0x40, 0x10 + high / 4, high % 4 * 0x10 + low / 0x40, 0x40);
    Digits(c);
  }

  lemma PlaneSplit(plane: nat, d: nat)
    requires d < 0x10
    ensures (plane * 0x10 + d) / 0x40 == plane / 4 && (plane * 0x10 + d) % 0x40 == plane % 4 * 0x10 + d
  {
    Divided(plane * 0x10 + d, plane / 4, plane % 4 * 0x10 + d, 0x40);
  }

  /** The bytes one after the other at `toP`. */
  method Write(to: array<Byte>, toP: nat, bs: seq<Byte>) returns (toP': nat)
    requires toP + |bs| <= to.Length
    modifies to
    ensures toP' == toP + |bs| && to[toP..toP'] == bs
    ensures to[..toP] == old(to[..toP]) && to[toP'..] == old(to[toP'..])
  {
    toP' := toP;
    for i := 0 to |bs|
      invariant toP' == toP + i && to[toP..toP'] == bs[..i]
      invariant to[..toP] == old(to[..toP]) && to[toP'..] == old(to[toP'..])
    {
      to[toP'] := bs[i];
      toP' := toP' + 1;
    }
  }

  /** What the first character takes in UTF-8; a lead unit always takes four. */
  function Need(us: seq<Unit>): nat
    requires us != []
  {
    if LeadUnit(us[0]) then 4 else |Encode(us[0])|
  }

  /** How far a conversion came: `n` units are done, in the order given; the output is the part of
      the whole that they stand for, and the result says why it stopped. */
  ghost predicate Converted(us: seq<Unit>, n: nat, out: seq<Byte>, room: nat, res: Convert) {
    && n <= |us| && AllUtf8(us) == out + AllUtf8(us[n..])
    && (res.Completed? <==> n == |us|)
    && (res.InputIncomplete? <==> Stuck(us[n..]) && room >= 4)
    && (res.OutputExhausted? <==> n < |us| && Need(us[n..]) > room)
  }

  lemma StepConverts(us: seq<Unit>, n: nat, out: seq<Byte>, bs: seq<Byte>)
    requires n < |us| && !Stuck(us[n..]) && AllUtf8(us) == out + AllUtf8(us[n..]) && bs == Encode(FirstChar(us[n..]))
    ensures var m := n + FirstLength(us[n..]); m <= |us| && AllUtf8(us) == (out + bs) + AllUtf8(us[m..])
  {
    var m := n + FirstLength(us[n..]);
    assert us[n..][FirstLength(us[n..])..] == us[m..];
  }

  /** The switch on the high byte: the bytes of the first character, or the reason to stop. */
  method FirstBytes(input: seq<Byte>, big: bool, from: nat, fromLim: nat, room: nat) returns (bs: seq<Byte>, used: nat, res: Convert)
    requires from < fromLim == |input| / 2 * 2 && from % 2 == 0
    ensures var us := UnitsOf(input, big)[from / 2..];
            && (res.OutputExhausted? <==> Need(us) > room) && (res.InputIncomplete? <==> Stuck(us) && room >= 4)
            && (res.Completed? ==> !Stuck(us) && bs == Encode(FirstChar(us)) && used == 2 * FirstLength(us))
  {
    hide Encode;
    ghost var n := from / 2;
    ghost var u := UnitsOf(input, big)[n];
    var lo, hi := GetLo(input, big, from), GetHi(input, big, from);
    UnitBytes(input, big, n);
    Lengths(u);
    if hi == 0 && lo < 0x80 {
      if room == 0 {
        return [], 0, OutputExhausted;
      }
      return [lo], 2, Completed;
    } else if hi <= 0x7 {
      if room < 2 {
        return [], 0, OutputExhausted;
      }
      TwoBytes(u);
      return [lo / 0x40 + hi * 4 + 0xC0, lo % 0x40 + 0x80], 2, Completed;
    } else if 0xD8 <= hi <= 0xDB {
      if room < 4 {
        return [], 0, OutputExhausted;
      }
      if fromLim - from < 4 {
        return [], 0, InputIncomplete;
      }
      var plane := hi % 4 * 4 + lo / 0x40 % 4 + 1;
      var lo2, hi2 := GetLo(input, big, from + 2), GetHi(input, big, from + 2);
      UnitBytes(input, big, n + 1);
      FourBytes(u, UnitsOf(input, big)[n + 1]);
      bs := [plane / 4 + 0xF0, lo / 4 % 0x10 + plane % 4 * 0x10 + 0x80,
             lo % 4 * 0x10 + hi2 % 4 * 4 + lo2 / 0x40 + 0x80, lo2 % 0x40 + 0x80];
      return bs, 4, Completed;
    } else {
      if room < 3 {
        return [], 0, OutputExhausted;
      }
      ThreeBytes(u);
      return [hi / 0x10 + 0xE0, hi % 0x10 * 4 + lo / 0x40 + 0x80, lo % 0x40 + 0x80], 2, Completed;
    }
  }

  /** little2_toUtf8 and big2_toUtf8: as many characters as there are and as fit. */
  method ToUtf8(input: seq<Byte>, big: bool, to: array<Byte>, toP0: nat, toLim: nat) returns (from: nat, toP: nat, res: Convert)
    requires toP0 <= toLim <= to.Length
    modifies to
    ensures from % 2 == 0 && toP0 <= toP <= toLim && to[..toP0] == old(to[..toP0]) && to[toP..] == old(to[toP..])
    ensures Converted(UnitsOf(input, big), from / 2, to[toP0..toP], toLim - toP, res)
  {
    hide AllUtf8, Encode, Need, FirstChar;
    ghost var us := UnitsOf(input, big);
    ghost var out: seq<Byte> := [];
    assert us[0..] == us;
    from, toP := 0, toP0;
    var fromLim := |input| / 2 * 2;
    while from < fromLim
      invariant from <= fromLim && from % 2 == 0 && toP0 <= toP <= toLim && to[toP0..toP] == out
      invariant to[..toP0] == old(to[..toP0]) && to[toP..] == old(to[toP..])
      invariant AllUtf8(us) == out + AllUtf8(us[from / 2..])
    {
      var bs, used, r := FirstBytes(input, big, from, fromLim, toLim - toP);
      if !r.Completed? {
        return from, toP, r;
      }
      Fits(us[from / 2..]);
      StepConverts(us, from / 2, out, bs);
      ghost var toP1 := toP;
      toP := Write(to, toP, bs);
      assert to[toP0..toP] == to[..toP1][toP0..] + to[toP1..toP];
      out := out + bs;
      from := from + used;
    }
    NothingLeft(us[from / 2..]);
    return from, toP, Completed;
  }

  /** The room asked for is the room taken. */
  lemma Fits(us: seq<Unit>)
    requires us != [] && !Stuck(us)
    ensures |Encode(FirstChar(us))| == Need(us)
  {
  }

  lemma NothingLeft(us: seq<Unit>)
    requires us == []
    ensures AllUtf8(us) == []
  {
  }

  lemma UnitBytes(input: seq<Byte>, big: bool, i: nat)
    requires 2 * i + 1 < |input|
    ensures var u := UnitsOf(input, big)[i]; Hi(u) == GetHi(input, big, 2 * i) && Lo(u) == GetLo(input, big, 2 * i)
  {
    var u := UnitsOf(input, big)[i];
    Divided(u, GetHi(input, big, 2 * i), GetLo(input, big, 2 * i), 0x100);
  }

  lemma Lengths(u: Unit)
    ensures |Encode(u)| == if u < 0x80 then 1 else if u < 0x800 then 2 else 3
    ensures u < 0x80 ==> Encode(u) == [u]
    ensures u < 0x80 <==> Hi(u) == 0 && Lo(u) < 0x80
    ensures u < 0x800 <==> Hi(u) <= 7
    ensures LeadUnit(u) <==> 0xD8 <= Hi(u) <= 0xDB
  {
  }

  lemma UnitsFrom(input: seq<Byte>, big: bool, from: nat)
    requires from % 2 == 0 && from <= |input|
    ensures UnitsOf(input[from..], big) == UnitsOf(input, big)[from / 2..]
  {
    var rest := input[from..];
    forall i: nat | i < |rest| / 2
      ensures UnitAt(rest, big, i) == UnitsOf(input, big)[from / 2..][i]
    {
      assert rest[2 * i] == input[from + 2 * i] && rest[2 * i + 1] == input[from + 2 * i + 1];
      assert 2 * (from / 2 + i) == from + 2 * i;
    }
  }

  lemma NeedsFour(us: seq<Unit>)
    requires us != []
    ensures Need(us) <= 4
  {
  }

  /** Converting piece by piece through a buffer of any size of at least four gives the same bytes as
      converting at once, and nothing is left but an odd byte or a lead unit at the end. */
  method ThroughBuffers(input: seq<Byte>, big: bool, size: nat) returns (out: seq<Byte>, from: nat)
    requires size >= 4
    ensures out == AllUtf8(UnitsOf(input, big)) && from <= |input| && from % 2 == 0
    ensures var rest := UnitsOf(input, big)[from / 2..]; rest == [] || Stuck(rest)
  {
    hide AllUtf8, Need;
    var buf := new Byte[size];
    ghost var us := UnitsOf(input, big);
    assert us[0..] == us;
    out, from := [], 0;
    while true
      invariant from <= |input| && from % 2 == 0 && AllUtf8(us) == out + AllUtf8(us[from / 2..])
      decreases |input| - from
    {
      UnitsFrom(input, big, from);
      var used, toP, res := ToUtf8(input[from..], big, buf, 0, size);
      ghost var rest := us[from / 2..];
      assert rest[used / 2..] == us[(from + used) / 2..];
      assert buf[0..toP] == buf[..toP];
      out := out + buf[..toP];
      if used == 0 && rest != [] { Progress(rest, buf[0..toP], size - toP, size, res); }
      from := from + used;
      if !res.OutputExhausted? {
        Finished(us[from / 2..]);
        return;
      }
    }
  }

  /** A stop for want of room in an empty buffer of that size cannot be. */
  lemma Progress(us: seq<Unit>, out: seq<Byte>, room: nat, size: nat, res: Convert)
    requires us != [] && Converted(us, 0, out, room, res) && room == size - |out| && size >= 4 && |out| <= size
    ensures !res.OutputExhausted?
  {
    assert us[0..] == us;
    assert |AllUtf8(us)| == |out| + |AllUtf8(us)|;
    NeedsFour(us);
  }

  lemma Finished(us: seq<Unit>)
    ensures us == [] || Stuck(us) ==> AllUtf8(us) == []
  {
  }

  // ------------------------------------------------------------------ UTF-8 to UTF-16

  /** One turn of the loop: a character goes out, or there is no room for it, or its last bytes are
      missing; the loop ends when they are missing from a four-byte character, but for a shorter one
      only the switch is left. */
  datatype Turn = Emitted | Full | Partial | Again

  function TurnAt(c: nat, whole: bool, room: nat): Turn {
    if c >= 0x10000 && room < 2 then Full
    else if whole then Emitted
    else if c >= 0x10000 then Partial
    else Again
  }

  /** The loop, which goes on while there are input and room, has ended after so many turns. */
  ghost predicate EndsWithin(cs: seq<nat>, last: Option<nat>, room: nat, turns: nat)
    decreases turns
  {
    (cs == [] && last.None?) || room == 0 ||
    match TurnAt(if cs != [] then cs[0] else last.value, cs != [], room)
    case Emitted => turns > 0 && room >= UnitCount(cs[0]) && EndsWithin(cs[1..], last, room - UnitCount(cs[0]), turns - 1)
    case Again => turns > 0 && EndsWithin(cs, last, room, turns - 1)
    case _ => true
  }

  function UnitCount(c: nat): nat {
    if c < 0x10000 then 1 else 2
  }

  function UnitCounts(cs: seq<nat>): nat {
    if cs == [] then 0 else UnitCount(cs[0]) + UnitCounts(cs[1..])
  }

  /** Room is left when a truncated two- or three-byte character is reached. */
  predicate Stalls(cs: seq<nat>, last: Option<nat>, room: nat) {
    last.Some? && last.value < 0x10000 && room > UnitCounts(cs)
  }

  ghost predicate Ends(cs: seq<nat>, last: Option<nat>, room: nat) {
    exists turns: nat :: EndsWithin(cs, last, room, turns)
  }

  /** The loop ends exactly unless it stalls. */
  lemma {:induction false} EndsExactly(cs: seq<nat>, last: Option<nat>, room: nat)
    ensures Ends(cs, last, room) <==> !Stalls(cs, last, room)
  {
    if Stalls(cs, last, room) {
      forall turns: nat
        ensures !EndsWithin(cs, last, room, turns)
      {
        NeverEnds(cs, last, room, turns);
      }
    } else {
      EndsInTime(cs, last, room);
      assert EndsWithin(cs, last, room, |cs|);
    }
  }

  lemma {:induction false} NeverEnds(cs: seq<nat>, last: Option<nat>, room: nat, turns: nat)
    requires Stalls(cs, last, room)
    ensures !EndsWithin(cs, last, room, turns)
    decreases turns
  {
    if turns > 0 {
      if cs == [] {
        NeverEnds(cs, last, room, turns - 1);
      } else {
        NeverEnds(cs[1..], last, room - UnitCount(cs[0]), turns - 1);
      }
    }
  }

  lemma {:induction false} EndsInTime(cs: seq<nat>, last: Option<nat>, room: nat)
    requires !Stalls(cs, last, room)
    ensures EndsWithin(cs, last, room, |cs|)
    decreases |cs|
  {
    if cs != [] && room >= UnitCount(cs[0]) {
      EndsInTime(cs[1..], last, room - UnitCount(cs[0]));
    }
  }

  /** The bytes that are there of a character whose last ones are missing. */
  predicate Truncated(tail: seq<Byte>, last: Option<nat>) {
    if last.None? then tail == []
    else 0x80 <= last.value && Scalar(last.value) && 0 < |tail| < |Encode(last.value)| && tail == Encode(last.value)[..|tail|]
  }

  /** utf8_toUtf16 on characters of which the last may be truncated: as many as fit. It is not called
      where its loop would not end. */
  method ToUtf16(input: seq<Byte>, ghost cs: seq<nat>, ghost last: Option<nat>, ghost tail: seq<Byte>, to: array<Unit>, toP0: nat, toLim: nat)
    returns (from: nat, toP: nat, res: Convert, ghost k: nat)
    requires Scalars(cs) && Truncated(tail, last) && input == Utf8(cs) + tail && toP0 <= toLim <= to.Length
    requires !Stalls(cs, last, toLim - toP0)
    modifies to
    ensures toP0 <= toP <= toLim && to[..toP0] == old(to[..toP0]) && to[toP..] == old(to[toP..])
    ensures k <= |cs| && from <= |input| && input[..from] == Utf8(cs[..k]) && to[toP0..toP] == Utf16(cs[..k])
    ensures res == if toP == toLim || (k == |cs| && last.None?) then Completed
                   else if toP + 1 == toLim then OutputExhausted else InputIncomplete
    ensures toP + 1 < toLim ==> k == |cs|
    ensures toP + 1 == toLim && k < |cs| ==> cs[k] >= 0x10000
  {
    hide Encode, Utf8, Utf16, Truncated;
    from, toP, k := 0, toP0, 0;
    ghost var out: seq<Unit> := [];
    Unfold8(cs[..k]);
    assert cs[0..] == cs && cs[..|cs|] == cs;
    while from < |input| && toP < toLim
      invariant k <= |cs| && from <= |input| && toP0 <= toP <= toLim && to[toP0..toP] == out == Utf16(cs[..k])
      invariant input[..from] == Utf8(cs[..k]) && input[from..] == Utf8(cs[k..]) + tail
      invariant to[..toP0] == old(to[..toP0]) && to[toP..] == old(to[toP..])
      invariant !Stalls(cs[k..], last, toLim - toP)
      decreases |input| - from
    {
      Unfold8(cs[k..]);
      NextStarts(input, from, cs[k..], last, tail);
      var units, n, turn := TakeTurn(input, from, toLim - toP, if k < |cs| then cs[k] else last.value);
      if turn == Full {
        return from, toP, OutputExhausted, k;
      }
      if turn == Partial {
        return from, toP, InputIncomplete, k;
      }
      assert cs[k..][0] == cs[k] && cs[k..][1..] == cs[k + 1..];
      assert cs[..k + 1] == cs[..k] + [cs[k]];
      ghost var p := Encode(cs[k]);
      ghost var toP1 := toP;
      toP := WriteUnits(to, toP, units);
      assert to[toP0..toP] == to[..toP1][toP0..] + to[toP1..toP];
      out := out + units;
      Utf8More(cs[..k], cs[k]);
      assert input[..from + n] == input[..from] + p;
      assert input[from + n..] == input[from..][n..];
      from := from + n;
      k := k + 1;
    }
    if from == |input| { NoneLeft(cs[k..], last, tail); }
    return from, toP, Completed, k;
  }

  /** The low bits that a mask leaves. */
  function Masked(b: Byte, m: nat): int
    requires m > 0
  {
    var bits: int := b;
    bits % m
  }

  /** The character under way starts at `from`, whole or not. */
  predicate StartsAt(input: seq<Byte>, from: nat, c: nat) {
    && Scalar(c) && from < |input|
    && (|Encode(c)| <= |input| - from ==> input[from..from + |Encode(c)|] == Encode(c))
    && (|Encode(c)| > |input| - from ==> input[from..] == Encode(c)[..|input| - from])
  }

  lemma NextStarts(input: seq<Byte>, from: nat, cs: seq<nat>, last: Option<nat>, tail: seq<Byte>)
    requires from < |input| && Scalars(cs) && Truncated(tail, last) && input[from..] == Utf8(cs) + tail
    ensures cs == [] ==> last.Some? && StartsAt(input, from, last.value) && |Encode(last.value)| > |input| - from
    ensures cs != [] ==> StartsAt(input, from, cs[0]) && |Encode(cs[0])| <= |input| - from
  {
    hide Encode, Utf8;
    Unfold8(cs);
    var rest := input[from..];
    if cs != [] {
      var p := Encode(cs[0]);
      assert rest[..|p|] == p && input[from..from + |p|] == rest[..|p|];
    }
  }

  /** The switch on the class of the first byte. */
  method TakeTurn(input: seq<Byte>, from: nat, room: nat, ghost c: nat) returns (units: seq<Unit>, n: nat, turn: Turn)
    requires StartsAt(input, from, c) && room > 0
    ensures turn == TurnAt(c, |Encode(c)| <= |input| - from, room)
    ensures turn == Emitted ==> units == Encode16(c) && n == |Encode(c)|
  {
    Decodes(c);
    ghost var p := Encode(c);
    assert input[from] == p[0];
    assert |p| <= |input| - from ==> forall i: nat :: i < |p| ==> p[i] == input[from..from + |p|][i] == input[from + i];
    hide Encode;
    var t := ByteType(input[from]);
    if t == Lead(2) {
      if |input| - from < 2 {
        return [], 0, Again;
      }
      return [Masked(input[from], 0x20) * 0x40 + Masked(input[from + 1], 0x40)], 2, Emitted;
    } else if t == Lead(3) {
      if |input| - from < 3 {
        return [], 0, Again;
      }
      return [Masked(input[from], 0x10) * 0x1000 + Masked(input[from + 1], 0x40) * 0x40 + Masked(input[from + 2], 0x40)], 3, Emitted;
    } else if t == Lead(4) {
      if room < 2 {
        return [], 0, Full;
      }
      if |input| - from < 4 {
        return [], 0, Partial;
      }
      var n4 := Masked(input[from], 0x8) * 0x40000 + Masked(input[from + 1], 0x40) * 0x1000
                + Masked(input[from + 2], 0x40) * 0x40 + Masked(input[from + 3], 0x40) - 0x10000;
      return [n4 / 0x400 + 0xD800, n4 % 0x400 + 0xDC00], 4, Emitted;
    } else {
      return [input[from]], 1, Emitted;
    }
  }

  method WriteUnits(to: array<Unit>, toP: nat, us: seq<Unit>) returns (toP': nat)
    requires toP + |us| <= to.Length
    modifies to
    ensures toP' == toP + |us| && to[toP..toP'] == us
    ensures to[..toP] == old(to[..toP]) && to[toP'..] == old(to[toP'..])
  {
    toP' := toP;
    for i := 0 to |us|
      invariant toP' == toP + i && to[toP..toP'] == us[..i]
      invariant to[..toP] == old(to[..toP]) && to[toP'..] == old(to[toP'..])
    {
      to[toP'] := us[i];
      toP' := toP' + 1;
    }
  }

  lemma Unfold8(cs: seq<nat>)
    requires Scalars(cs)
    ensures cs == [] ==> Utf8(cs) == [] && Utf16(cs) == []
    ensures cs != [] ==> Utf8(cs) == Encode(cs[0]) + Utf8(cs[1..]) && Utf16(cs) == Encode16(cs[0]) + Utf16(cs[1..])
  {
  }

  lemma NoneLeft(cs: seq<nat>, last: Option<nat>, tail: seq<Byte>)
    requires Scalars(cs) && Truncated(tail, last) && Utf8(cs) + tail == []
    ensures cs == [] && last.None?
  {
  }

  lemma {:induction false} Utf8More(cs: seq<nat>, c: nat)
    requires Scalars(cs) && Scalar(c)
    ensures Utf8(cs + [c]) == Utf8(cs) + Encode(c) && Utf16(cs + [c]) == Utf16(cs) + Encode16(c)
  {
    hide Encode, Encode16;
    if cs != [] {
      Utf8More(cs[1..], c);
      assert (cs + [c])[1..] == cs[1..] + [c];
    } else {
      assert (cs + [c])[1..] == [];
    }
  }

  /** The bits that the masks leave are those of the character. */
  lemma Decodes(c: nat)
    requires Scalar(c)
    ensures var p := Encode(c);
            && (c < 0x80 ==> p == [c] && !ByteType(p[0]).Lead?)
            && (0x80 <= c ==> ByteType(p[0]) == Lead(|p|))
            && (|p| == 1 <==> c < 0x80) && (|p| == 4 <==> c >= 0x10000)
            && (|p| == 2 ==> Masked(p[0], 0x20) * 0x40 + Masked(p[1], 0x40) == c)
            && (|p| == 3 ==> Masked(p[0], 0x10) * 0x1000 + Masked(p[1], 0x40) * 0x40 + Masked(p[2], 0x40) == c)
            && (|p| == 4 ==>
                Masked(p[0], 0x8) * 0x40000 + Masked(p[1], 0x40) * 0x1000 + Masked(p[2], 0x40) * 0x40 + Masked(p[3], 0x40) == c)
  {
    if c >= 0x80 {
      EncodedIsValid(c);
      EncodedJoins(c);
      var p := Encode(c);
      LowBits(p[0]);
      LowBits(p[1]);
      if |p| > 2 { LowBits(p[2]); }
      if |p| > 3 { LowBits(p[3]); }
    }
  }

  // ------------------------------------------------------------------ the two together

  /** From UTF-16 to UTF-8: section 2 of RFC 2781 and section 3 of RFC 3629 on the same characters. */
  lemma {:induction false} SixteenToEight(cs: seq<nat>)
    requires Scalars(cs)
    ensures AllUtf8(Utf16(cs)) == Utf8(cs)
  {
    if cs != [] {
      var c, us := cs[0], Utf16(cs);
      assert us == Encode16(c) + Utf16(cs[1..]);
      SixteenToEight(cs[1..]);
      if c >= 0x10000 { assert LeadUnit(us[0]) && FirstChar(us) == c by { Pairs(c); } }
      assert us[FirstLength(us)..] == Utf16(cs[1..]);
    }
  }

  lemma Pairs(c: nat)
    requires 0x10000 <= c < 0x110000
    ensures LeadUnit(Encode16(c)[0]) && Pair(Encode16(c)[0], Encode16(c)[1]) == c
  {
    Divided(Encode16(c)[1], 0x37, (c - 0x10000) % 0x400, 0x400);
  }

  predicate TrailUnit(u: Unit) {
    0xDC00 <= u < 0xE000
  }

  /** Every lead unit has its trail unit, and no trail unit stands alone. */
  predicate Paired(us: seq<Unit>)
    decreases |us|
  {
    us == [] ||
    (if LeadUnit(us[0]) then |us| > 1 && TrailUnit(us[1]) && Paired(us[2..]) else !TrailUnit(us[0]) && Paired(us[1..]))
  }

  function Chars(us: seq<Unit>): (cs: seq<nat>)
    requires Paired(us)
    ensures Scalars(cs)
    decreases |us|
  {
    if us == [] then [] else [FirstChar(us)] + Chars(us[FirstLength(us)..])
  }

  /** Well-formed UTF-16 comes back from UTF-8 unchanged: its UTF-8 form is that of its characters,
      and their UTF-16 form is what it was. */
  lemma {:induction false} EightToSixteen(us: seq<Unit>)
    requires Paired(us)
    ensures AllUtf8(us) == Utf8(Chars(us)) && Utf16(Chars(us)) == us
    decreases |us|
  {
    if us != [] {
      var rest := us[FirstLength(us)..];
      EightToSixteen(rest);
      assert us == us[..FirstLength(us)] + rest;
      assert Chars(us)[1..] == Chars(rest);
      if LeadUnit(us[0]) { Unpairs(us[0], us[1]); }
    }
  }

  lemma Unpairs(u: Unit, v: Unit)
    requires LeadUnit(u) && TrailUnit(v)
    ensures Encode16(Pair(u, v)) == [u, v]
  {
    Divided(v, 0x37, v - 0xDC00, 0x400);
    Divided(Pair(u, v) - 0x10000, u - 0xD800, v - 0xDC00, 0x400);
  }
}
