/** The expansion of prefixed attribute names in storeAtts (expat/xmlparse.c) and the version-stamped
    table that finds duplicates among them. */
module NamespaceAttributes {
  import opened Wrappers
  import opened HashProbe

  const INIT_ATTS_VERSION: nat := 0xFFFFFFFF

  /** What a prefix is bound to; the URI ends with the namespace separator. */
  datatype Binding = Binding(uri: string, prefix: string)

  /** An attribute of a start tag, `prefixed` when it is flagged 2; with what its prefix is bound to. */
  datatype Att = Att(name: string, prefixed: bool, binding: Option<Binding>)

  /** A name in the table: URI and local part, and the string that stands in the attribute list. */
  datatype Entry = Entry(key: string, full: string)

  datatype Outcome = Names(names: seq<string>) | UnboundPrefix | DuplicateAttribute | NoMemory

  // ------------------------------------------------------------------ expanded names

  /** What follows the first colon. */
  function LocalPart(name: string): string {
    if name == "" then "" else if name[0] == ':' then name[1..] else LocalPart(name[1..])
  }

  function Key(a: Att): string
    requires a.binding.Some?
  {
    a.binding.value.uri + LocalPart(a.name)
  }

  /** With triplets the separator and the prefix follow. */
  function Full(a: Att, triplets: Option<char>): string
    requires a.binding.Some?
  {
    if triplets.None? then Key(a) else Key(a) + [triplets.value] + a.binding.value.prefix
  }

  /** `h` is the hash of a name in `done` that starts with `key`. */
  predicate Clashes(done: seq<Entry>, hash: string -> nat, key: string) {
    exists d :: 0 <= d < |done| && hash(done[d].key) == hash(key) && key <= done[d].full
  }

  /** One attribute after the other, with nothing but the names already expanded. */
  function ExpandAll(atts: seq<Att>, triplets: Option<char>, hash: string -> nat, done: seq<Entry>): Outcome
    decreases |atts|
  {
    if atts == [] then Names([])
    else if !atts[0].prefixed then Resume([atts[0].name], ExpandAll(atts[1..], triplets, hash, done))
    else if atts[0].binding.None? then UnboundPrefix
    else if Clashes(done, hash, Key(atts[0])) then DuplicateAttribute
    else Resume([Full(atts[0], triplets)],
                ExpandAll(atts[1..], triplets, hash, done + [Entry(Key(atts[0]), Full(atts[0], triplets))]))
  }

  function Resume(names: seq<string>, o: Outcome): Outcome {
    if o.Names? then Names(names + o.names) else o
  }

  function CountPrefixed(atts: seq<Att>): nat {
    if atts == [] then 0 else CountPrefixed(atts[1..]) + if atts[0].prefixed then 1 else 0
  }

  // ------------------------------------------------------------------ hashing

  function Fold(charHash: (nat, char) -> nat, h: nat, s: string): nat
    decreases |s|
  {
    if s == "" then h else Fold(charHash, charHash(h, s[0]), s[1..])
  }

  lemma {:induction false} FoldNext(charHash: (nat, char) -> nat, h: nat, s: string, c: char)
    ensures Fold(charHash, h, s + [c]) == charHash(Fold(charHash, h, s), c)
    decreases |s|
  {
    if s != "" {
      assert (s + [c])[1..] == s[1..] + [c];
      FoldNext(charHash, charHash(h, s[0]), s[1..], c);
    }
  }

  /** The terminator is hashed too. */
  function HashFrom(charHash: (nat, char) -> nat, salt: nat): string -> nat {
    (s: string) => Fold(charHash, salt, s + ['\0'])
  }

  // ------------------------------------------------------------------ the table

  datatype NsAtt = NsAtt(version: nat, hash: nat, uriName: string)

  /** The slots stamped with `version` hold the names expanded so far, each where probing finds it. */
  ghost predicate Mirrors(t: seq<NsAtt>, version: nat, slots: Slots, done: seq<Entry>, hash: string -> nat, power: nat) {
    && |t| == |slots| && Hashed(slots, power, hash) && Used(slots) == |done|
    && (forall i :: 0 <= i < |t| ==> (t[i].version == version <==> slots[i].Some?))
    && (forall i :: 0 <= i < |t| && slots[i].Some? ==>
          t[i].hash == hash(slots[i].value) && Entry(slots[i].value, t[i].uriName) in done)
    && (forall e :: e in done ==> e.key <= e.full && exists i :: Carries(t, slots, i, e))
  }

  predicate Carries(t: seq<NsAtt>, slots: Slots, i: int, e: Entry) {
    0 <= i < |t| == |slots| && slots[i] == Some(e.key) && t[i].uriName == e.full
  }

  /** None of the first `k` probes meets a name that `key` clashes with. */
  predicate Passed(t: seq<NsAtt>, power: nat, h: nat, k: nat, key: string)
    requires power >= 2 && |t| == Pow2(power)
  {
    forall j :: 0 <= j < k ==> !(t[Probe(h, power, j)].hash == h && key <= t[Probe(h, power, j)].uriName)
  }

  /** A slot of the same hash that passes is another name's. */
  lemma OtherName(t: seq<NsAtt>, version: nat, slots: Slots, done: seq<Entry>, hash: string -> nat, power: nat, i: nat, key: string)
    requires Mirrors(t, version, slots, done, hash, power) && i < |t| && slots[i].Some?
    requires !(t[i].hash == hash(key) && key <= t[i].uriName)
    ensures slots[i] != Some(key)
  {
  }

  /** A search that ends at an empty slot has passed every name with the same hash. */
  lemma NothingClashes(t: seq<NsAtt>, version: nat, slots: Slots, done: seq<Entry>, hash: string -> nat, power: nat, k: nat, key: string)
    requires Mirrors(t, version, slots, done, hash, power)
    requires Busy(slots, power, hash(key), k, key) && Passed(t, power, hash(key), k, key)
    requires slots[Probe(hash(key), power, k)].None?
    ensures !Clashes(done, hash, key)
  {
    forall d | 0 <= d < |done| && hash(done[d].key) == hash(key)
      ensures !(key <= done[d].full)
    {
      var e := done[d];
      assert e in done;
      var i :| Carries(t, slots, i, e);
      assert Found(slots, power, hash, i);
      var j: nat :| Probe(hash(e.key), power, j) == i && Busy(slots, power, hash(e.key), j, e.key);
      assert j < k;
    }
  }

  /** The new name in the slot where its search ended. */
  lemma MirrorsNext(t: seq<NsAtt>, version: nat, slots: Slots, done: seq<Entry>, hash: string -> nat, power: nat, k: nat, e: Entry)
    requires Mirrors(t, version, slots, done, hash, power) && e.key <= e.full
    requires Busy(slots, power, hash(e.key), k, e.key) && slots[Probe(hash(e.key), power, k)].None?
    ensures var j := Probe(hash(e.key), power, k);
            Mirrors(t[j := NsAtt(version, hash(e.key), e.full)], version, slots[j := Some(e.key)], done + [e], hash, power)
  {
    var j := Probe(hash(e.key), power, k);
    StoreKeepsHashed(slots, power, hash, k, e.key);
    UsedMore(slots, j, Some(e.key));
    var t' := t[j := NsAtt(version, hash(e.key), e.full)];
    var slots' := slots[j := Some(e.key)];
    forall x | x in done + [e]
      ensures x.key <= x.full && exists i :: Carries(t', slots', i, x)
    {
      if x in done {
        var i :| Carries(t, slots, i, x);
        assert i != j;
        assert Carries(t', slots', i, x);
      } else {
        assert Carries(t', slots', j, x);
      }
    }
    hide Hashed, Used;
    assert forall x :: x in done ==> x in done + [e];
    assert e in done + [e];
  }

  class AttributeTable {
    const salt: nat
    const charHash: (nat, char) -> nat
    var nsAtts: array<NsAtt>
    var nsAttsVersion: nat
    var nsAttsPower: nat

    function Hash(): string -> nat {
      HashFrom(charHash, salt)
    }

    /** No slot is stamped with a version that is still to come. */
    ghost predicate Valid()
      reads this, nsAtts
    {
      nsAttsVersion < INIT_ATTS_VERSION &&
      (nsAttsPower == 0 ||
        (&& MIN_POWER <= nsAttsPower < 32 && nsAtts.Length == Pow2(nsAttsPower)
         && forall i :: 0 <= i < nsAtts.Length ==> nsAtts[i].version >= nsAttsVersion))
    }

    constructor (charHash: (nat, char) -> nat, salt: nat)
      ensures Valid() && fresh(nsAtts) && this.charHash == charHash && this.salt == salt
    {
      this.charHash, this.salt := charHash, salt;
      nsAtts := new NsAtt[0];
      nsAttsVersion, nsAttsPower := 0, 0;
    }

    /** The table's size must be a power of 2, at least 8 and more than twice the prefixed attributes. */
    method GrownPower(nPrefixes: nat) returns (power: nat)
      requires nPrefixes > 0
      ensures MIN_POWER <= power && nsAttsPower < power && Pow2(power) > 2 * nPrefixes
      ensures power == MIN_POWER || power == nsAttsPower + 1 || Pow2(power - 2) <= nPrefixes
    {
      power := nsAttsPower;
      while nPrefixes / Pow2(power) != 0
        invariant power >= nsAttsPower && (power == nsAttsPower || Pow2(power - 1) <= nPrefixes)
        decreases nPrefixes - power
      {
        QuotientZero(nPrefixes, power);
        PowAbove(power);
        power := power + 1;
      }
      QuotientZero(nPrefixes, power);
      power := power + 1;
      if power < MIN_POWER {
        PowOrder(power, MIN_POWER);
        power := MIN_POWER;
      }
    }

    /** All slots stamped with the highest version. */
    method Restamp()
      modifies nsAtts
      ensures forall i :: 0 <= i < nsAtts.Length ==> nsAtts[i].version == INIT_ATTS_VERSION
    {
      var j := nsAtts.Length;
      while j != 0
        invariant 0 <= j <= nsAtts.Length
        invariant forall i :: j <= i < nsAtts.Length ==> nsAtts[i].version == INIT_ATTS_VERSION
      {
        j := j - 1;
        nsAtts[j] := nsAtts[j].(version := INIT_ATTS_VERSION);
      }
    }

    /** Room for twice the prefixed attributes and more, and a version that no slot is stamped with. */
    method Prepare(nPrefixes: nat) returns (ok: bool)
      requires Valid() && nPrefixes > 0
      modifies this`nsAtts, this`nsAttsVersion, this`nsAttsPower, nsAtts
      ensures Valid() && (nsAtts == old(nsAtts) || fresh(nsAtts))
      ensures ok <==> nPrefixes < 0x4000_0000
      ensures ok ==> nsAttsPower > 0 && nsAtts.Length > 2 * nPrefixes
                     && forall i :: 0 <= i < nsAtts.Length ==> nsAtts[i].version > nsAttsVersion
    {
      hide Pow2;
      var version := nsAttsVersion;
      QuotientZero(2 * nPrefixes, nsAttsPower);
      RoomFor(nPrefixes, nsAttsPower);
      if 2 * nPrefixes / Pow2(nsAttsPower) != 0 {
        var power := GrownPower(nPrefixes);
        GrownRoom(nPrefixes, nsAttsPower, power);
        if power >= 32 {
          return false;
        }
        nsAttsPower := power;
        nsAtts := new NsAtt[Pow2(power)];
        version := 0;
      }
      if version == 0 {
        version := INIT_ATTS_VERSION;
        Restamp();
      }
      nsAttsVersion := version - 1;
      return true;
    }

    /** The comparison of the new name, which is terminated, with a stored one. */
    method StartsWith(s1: string, s2: string) returns (b: bool)
      ensures b <==> s2 <= s1
    {
      var i := 0;
      while i < |s2| && i < |s1| && s1[i] == s2[i]
        invariant i <= |s1| && i <= |s2| && s1[..i] == s2[..i]
      {
        i := i + 1;
      }
      b := i == |s2|;
    }

    /** The probing loop: either the name clashes with a stored one, or its slot is empty. */
    method Search(version: nat, uriHash: nat, uriName: string, ghost slots: Slots, ghost done: seq<Entry>)
      returns (j: nat, duplicate: bool, ghost k: nat)
      requires nsAtts.Length == Pow2(nsAttsPower) && uriHash == Hash()(uriName)
      requires Mirrors(nsAtts[..], version, slots, done, Hash(), nsAttsPower) && Used(slots) < |slots|
      ensures duplicate <==> Clashes(done, Hash(), uriName)
      ensures !duplicate ==>
        && Probe(Hash()(uriName), nsAttsPower, k) == j < nsAtts.Length && slots[j].None?
        && Busy(slots, nsAttsPower, Hash()(uriName), k, uriName)
    {
      hide Hashed, Used, Busy, Mirrors, Clashes, Passed, HashFrom;
      ghost var t := nsAtts[..];
      ghost var power := nsAttsPower;
      MirrorsShape(t, version, slots, done, Hash(), power);
      PowAtLeast(power);
      var step := 0;
      var size := nsAtts.Length;
      j := uriHash % size;
      k := 0;
      ghost var e := RoomLeft(slots);
      ghost var last := ProbesReachAll(uriHash, power, e);
      ProbeNext(uriHash, power, 0);
      NotBusy(slots, power, uriHash, uriName);
      NotPassed(t, power, uriHash, uriName);
      while nsAtts[j].version == version
        invariant k <= last && j == Probe(uriHash, power, k) && (step == 0 || step == ProbeStep(uriHash, power))
        invariant Busy(slots, power, uriHash, k, uriName) && Passed(t, power, uriHash, k, uriName)
        decreases last - k
      {
        MirrorsSlot(t, version, slots, done, Hash(), power, j);
        if uriHash == nsAtts[j].hash {
          var same := StartsWith(nsAtts[j].uriName, uriName);
          if same {
            ClashHere(t, version, slots, done, Hash(), power, j, uriName);
            return j, true, k;
          }
        }
        StepOdd(uriHash, power);
        ProbeNext(uriHash, power, k);
        if step == 0 {
          step := ProbeStep(uriHash, nsAttsPower);
        }
        OtherName(t, version, slots, done, Hash(), power, j, uriName);
        BusyMore(slots, power, uriHash, k, uriName);
        PassedMore(t, power, uriHash, k, uriName);
        j := if j < step then j + (size - step) else j - step;
        k := k + 1;
      }
      MirrorsSlot(t, version, slots, done, Hash(), power, j);
      NothingClashes(t, version, slots, done, Hash(), power, k, uriName);
      return j, false, k;
    }

    /** The expanded name and its hash, built one character at a time. */
    method ExpandName(a: Att) returns (uriName: string, uriHash: nat)
      requires a.binding.Some? && ':' in a.name
      ensures uriName == Key(a) && uriHash == Hash()(uriName)
    {
      var uri, name := a.binding.value.uri, a.name;
      uriName, uriHash := "", salt;
      for j := 0 to |uri|
        invariant uriName == uri[..j] && uriHash == Fold(charHash, salt, uriName)
      {
        FoldNext(charHash, salt, uriName, uri[j]);
        uriName := uriName + [uri[j]];
        uriHash := charHash(uriHash, uri[j]);
      }
      var s := 0;
      while name[s] != ':'
        invariant s < |name| && ':' in name[s..] && LocalPart(name[s..]) == LocalPart(name)
        decreases |name| - s
      {
        s := s + 1;
      }
      s := s + 1;
      assert name[s..] == LocalPart(name);
      for p := s to |name|
        invariant uriName == uri + name[s..p] && uriHash == Fold(charHash, salt, uriName)
      {
        FoldNext(charHash, salt, uriName, name[p]);
        uriName := uriName + [name[p]];
        uriHash := charHash(uriHash, name[p]);
      }
      FoldNext(charHash, salt, uriName, '\0');
      uriHash := charHash(uriHash, '\0');
    }

    /** One prefixed attribute: its name expanded and, unless it clashes, put into the table. */
    method ExpandOne(a: Att, triplets: Option<char>, ghost slots: Slots, ghost done: seq<Entry>)
      returns (s: string, duplicate: bool, ghost slots': Slots)
      requires a.binding.Some? && ':' in a.name && Valid() && nsAttsPower > 0
      requires Mirrors(nsAtts[..], nsAttsVersion, slots, done, Hash(), nsAttsPower) && |done| < nsAtts.Length
      modifies nsAtts
      ensures Valid() && (duplicate <==> Clashes(done, Hash(), Key(a))) && s == Full(a, triplets)
      ensures !duplicate ==> Mirrors(nsAtts[..], nsAttsVersion, slots', done + [Entry(Key(a), s)], Hash(), nsAttsPower)
    {
      hide Hashed, Used, Busy, Mirrors, Clashes, HashFrom, Pow2;
      var uriName, uriHash := ExpandName(a);
      MirrorsShape(nsAtts[..], nsAttsVersion, slots, done, Hash(), nsAttsPower);
      s := if triplets.Some? then uriName + [triplets.value] + a.binding.value.prefix else uriName;
      slots' := slots;
      var j;
      ghost var k;
      j, duplicate, k := Search(nsAttsVersion, uriHash, uriName, slots, done);
      if !duplicate {
        MirrorsNext(nsAtts[..], nsAttsVersion, slots, done, Hash(), nsAttsPower, k, Entry(uriName, s));
        ghost var t := nsAtts[..];
        nsAtts[j] := NsAtt(nsAttsVersion, uriHash, s);
        assert nsAtts[..] == t[j := NsAtt(nsAttsVersion, uriHash, s)];
        slots' := slots[j := Some(uriName)];
      }
    }

    /** The loop over the attributes until the last prefixed one, on a table with no current slot. */
    method ExpandPrefixed(atts: seq<Att>, nPrefixes: nat, triplets: Option<char>) returns (out: Outcome)
      requires Valid() && nPrefixes == CountPrefixed(atts) && nsAttsPower > 0 && nsAtts.Length > 2 * nPrefixes
      requires forall i :: 0 <= i < nsAtts.Length ==> nsAtts[i].version > nsAttsVersion
      requires forall i :: 0 <= i < |atts| && atts[i].prefixed ==> ':' in atts[i].name
      modifies nsAtts
      ensures Valid() && out == ExpandAll(atts, triplets, Hash(), [])
    {
      hide Hashed, Used, Busy, Mirrors, Clashes, HashFrom, Pow2, ExpandAll, CountPrefixed, LocalPart, Fold;
      var names: seq<string> := [];
      var i := 0;
      var left := nPrefixes;
      ghost var done: seq<Entry> := [];
      ghost var slots: Slots := seq(nsAtts.Length, _ => None);
      MirrorsNothing(nsAtts[..], nsAttsVersion, Hash(), nsAttsPower);
      assert atts[0..] == atts;
      while i < |atts| && left > 0
        invariant 0 <= i <= |atts| && left == CountPrefixed(atts[i..]) && |done| + left == nPrefixes
        invariant Valid() && Mirrors(nsAtts[..], nsAttsVersion, slots, done, Hash(), nsAttsPower)
        invariant ExpandAll(atts, triplets, Hash(), []) == Resume(names, ExpandAll(atts[i..], triplets, Hash(), done))
      {
        ExpandUnfold(atts[i..], triplets, Hash(), done);
        assert atts[i..][0] == atts[i] && atts[i..][1..] == atts[i + 1..];
        if atts[i].prefixed {
          if atts[i].binding.None? {
            return UnboundPrefix;
          }
          var s, duplicate;
          ghost var slots';
          s, duplicate, slots' := ExpandOne(atts[i], triplets, slots, done);
          if duplicate {
            return DuplicateAttribute;
          }
          slots, done := slots', done + [Entry(Key(atts[i]), s)];
          names := names + [s];
          left := left - 1;
        } else {
          names := names + [atts[i].name];
        }
        i := i + 1;
      }
      NothingLeft(atts[i..]);
      var rest := PlainNames(atts[i..], triplets, done);
      return Names(names + rest);
    }

    /** What storeAtts makes of a start tag's attributes. Whatever the table held before, and whether
        or not it was grown or its version wrapped round, it acts as if it were empty. */
    method ExpandNames(atts: seq<Att>, nPrefixes: nat, triplets: Option<char>) returns (out: Outcome)
      requires Valid() && nPrefixes == CountPrefixed(atts)
      requires forall i :: 0 <= i < |atts| && atts[i].prefixed ==> ':' in atts[i].name
      modifies this, nsAtts
      ensures Valid() && (nsAtts == old(nsAtts) || fresh(nsAtts))
      ensures out == if nPrefixes < 0x4000_0000 then ExpandAll(atts, triplets, Hash(), []) else NoMemory
    {
      hide HashFrom, Pow2, ExpandAll, CountPrefixed;
      if nPrefixes == 0 {
        var names := PlainNames(atts, triplets, []);
        return Names(names);
      }
      var ok := Prepare(nPrefixes);
      if !ok {
        return NoMemory;
      }
      out := ExpandPrefixed(atts, nPrefixes, triplets);
    }

    /** What is left when every prefixed attribute has been expanded. */
    method PlainNames(atts: seq<Att>, ghost triplets: Option<char>, ghost done: seq<Entry>) returns (names: seq<string>)
      requires CountPrefixed(atts) == 0
      ensures ExpandAll(atts, triplets, Hash(), done) == Names(names)
    {
      hide Clashes, HashFrom, ExpandAll, CountPrefixed;
      names := [];
      for i := 0 to |atts|
        invariant CountPrefixed(atts[i..]) == 0
        invariant ExpandAll(atts, triplets, Hash(), done) == Resume(names, ExpandAll(atts[i..], triplets, Hash(), done))
      {
        ExpandUnfold(atts[i..], triplets, Hash(), done);
        assert atts[i..][0] == atts[i] && atts[i..][1..] == atts[i + 1..];
        names := names + [atts[i].name];
      }
      ExpandUnfold(atts[|atts|..], triplets, Hash(), done);
    }
  }

  lemma ExpandUnfold(atts: seq<Att>, triplets: Option<char>, hash: string -> nat, done: seq<Entry>)
    ensures atts == [] ==> ExpandAll(atts, triplets, hash, done) == Names([]) && CountPrefixed(atts) == 0
    ensures atts != [] ==>
      CountPrefixed(atts) == CountPrefixed(atts[1..]) + (if atts[0].prefixed then 1 else 0)
    ensures atts != [] && !atts[0].prefixed ==>
      ExpandAll(atts, triplets, hash, done) == Resume([atts[0].name], ExpandAll(atts[1..], triplets, hash, done))
    ensures atts != [] && atts[0].prefixed && atts[0].binding.None? ==>
      ExpandAll(atts, triplets, hash, done) == UnboundPrefix
    ensures atts != [] && atts[0].prefixed && atts[0].binding.Some? ==>
      ExpandAll(atts, triplets, hash, done) ==
        if Clashes(done, hash, Key(atts[0])) then DuplicateAttribute
        else Resume([Full(atts[0], triplets)],
                    ExpandAll(atts[1..], triplets, hash, done + [Entry(Key(atts[0]), Full(atts[0], triplets))]))
  {
  }

  lemma NothingLeft(atts: seq<Att>)
    ensures atts == [] ==> CountPrefixed(atts) == 0
  {
  }

  /** A version that no slot carries: the table is empty. */
  lemma MirrorsNothing(t: seq<NsAtt>, version: nat, hash: string -> nat, power: nat)
    requires power >= MIN_POWER && |t| == Pow2(power) && forall i :: 0 <= i < |t| ==> t[i].version > version
    ensures Mirrors(t, version, seq(Pow2(power), _ => None), [], hash, power)
  {
    EmptyHashed(power, hash);
  }

  lemma MirrorsShape(t: seq<NsAtt>, version: nat, slots: Slots, done: seq<Entry>, hash: string -> nat, power: nat)
    requires Mirrors(t, version, slots, done, hash, power)
    ensures power >= MIN_POWER && |t| == |slots| == Pow2(power) && Used(slots) == |done| && Hashed(slots, power, hash)
  {
  }

  lemma MirrorsSlot(t: seq<NsAtt>, version: nat, slots: Slots, done: seq<Entry>, hash: string -> nat, power: nat, j: nat)
    requires Mirrors(t, version, slots, done, hash, power) && j < |t|
    ensures |slots| == |t| && (t[j].version == version <==> slots[j].Some?)
  {
  }

  lemma NotPassed(t: seq<NsAtt>, power: nat, h: nat, key: string)
    requires power >= 2 && |t| == Pow2(power)
    ensures Passed(t, power, h, 0, key)
  {
  }

  lemma PassedMore(t: seq<NsAtt>, power: nat, h: nat, k: nat, key: string)
    requires power >= 2 && |t| == Pow2(power) && Passed(t, power, h, k, key)
    requires !(t[Probe(h, power, k)].hash == h && key <= t[Probe(h, power, k)].uriName)
    ensures Passed(t, power, h, k + 1, key)
  {
  }

  lemma ClashHere(t: seq<NsAtt>, version: nat, slots: Slots, done: seq<Entry>, hash: string -> nat, power: nat, j: nat, key: string)
    requires Mirrors(t, version, slots, done, hash, power) && j < |t| && t[j].version == version
    requires t[j].hash == hash(key) && key <= t[j].uriName
    ensures Clashes(done, hash, key)
  {
    var e := Entry(slots[j].value, t[j].uriName);
    assert e in done;
    var d :| 0 <= d < |done| && done[d] == e;
  }

  lemma QuotientZero(n: nat, p: nat)
    ensures n / Pow2(p) == 0 <==> n < Pow2(p)
  {
    QuotientZeroOf(n, Pow2(p));
  }

  lemma QuotientZeroOf(n: nat, m: nat)
    requires m > 0
    ensures n / m == 0 <==> n < m
  {
    assert n == n / m * m + n % m;
    if n / m > 0 { assert n / m * m >= m; }
  }

  /** A power below 32 with room for the attributes bounds them. */
  lemma RoomFor(n: nat, power: nat)
    ensures power < 32 && 2 * n < Pow2(power) ==> n < 0x4000_0000
    ensures 0 < 2 * n < Pow2(power) ==> power > 0
  {
    PowThirty();
    if power < 32 { PowOrder(power, 31); }
  }

  /** Growing fails on 2^30 attributes and more. */
  lemma GrownRoom(n: nat, old_: nat, power: nat)
    requires MIN_POWER <= power && old_ < 32 && 2 * n >= Pow2(old_) && Pow2(power) > 2 * n
    requires power == MIN_POWER || power == old_ + 1 || Pow2(power - 2) <= n
    ensures power >= 32 <==> n >= 0x4000_0000
  {
    PowThirty();
    if power >= 32 {
      if power == old_ + 1 { assert old_ == 31; } else { PowOrder(30, power - 2); }
    } else {
      PowOrder(power, 31);
    }
  }

  lemma PowThirty()
    ensures Pow2(30) == 0x4000_0000 && Pow2(31) == 0x8000_0000
  {
    assert Pow2(10) == 32 * Pow2(5);
    assert Pow2(5) == 32;
    assert Pow2(20) == 32 * Pow2(15) && Pow2(15) == 32 * Pow2(10);
    assert Pow2(30) == 32 * Pow2(25) && Pow2(25) == 32 * Pow2(20);
  }

  lemma {:induction false} PowAbove(p: nat)
    ensures Pow2(p) > p
  {
    if p > 0 { PowAbove(p - 1); }
  }

  lemma {:induction false} PowOrder(p: nat, q: nat)
    requires p <= q
    ensures Pow2(p) <= Pow2(q)
    decreases q
  {
    if p < q { PowOrder(p, q - 1); }
  }

  // ------------------------------------------------------------------ what it means

  /** Attributes `i` and `j` are reported: their hashes agree and the later name starts the
      earlier one's string. */
  predicate ClashAt(atts: seq<Att>, triplets: Option<char>, hash: string -> nat, i: nat, j: nat) {
    && i < j < |atts| && atts[i].prefixed && atts[j].prefixed && atts[i].binding.Some? && atts[j].binding.Some?
    && hash(Key(atts[i])) == hash(Key(atts[j])) && Key(atts[j]) <= Full(atts[i], triplets)
  }

  predicate AllBound(atts: seq<Att>) {
    forall i :: 0 <= i < |atts| && atts[i].prefixed ==> atts[i].binding.Some?
  }

  ghost predicate NoneClash(atts: seq<Att>, triplets: Option<char>, hash: string -> nat) {
    forall i: nat, j: nat :: !ClashAt(atts, triplets, hash, i, j)
  }

  /** No prefixed attribute clashes with a name that is already in the table. */
  ghost predicate FreeOf(atts: seq<Att>, hash: string -> nat, done: seq<Entry>) {
    forall i :: 0 <= i < |atts| && atts[i].prefixed && atts[i].binding.Some? ==> !Clashes(done, hash, Key(atts[i]))
  }

  function NameOf(a: Att, triplets: Option<char>): string {
    if a.prefixed && a.binding.Some? then Full(a, triplets) else a.name
  }

  /** The names are handed out exactly when every prefix is bound and no two attributes clash. */
  lemma NamesExactly(atts: seq<Att>, triplets: Option<char>, hash: string -> nat)
    ensures ExpandAll(atts, triplets, hash, []).Names? <==> AllBound(atts) && NoneClash(atts, triplets, hash)
  {
    ExpandsExactly(atts, triplets, hash, []);
  }

  lemma {:induction false} ExpandsExactly(atts: seq<Att>, triplets: Option<char>, hash: string -> nat, done: seq<Entry>)
    ensures ExpandAll(atts, triplets, hash, done).Names? <==>
            AllBound(atts) && NoneClash(atts, triplets, hash) && FreeOf(atts, hash, done)
    decreases |atts|
  {
    if atts != [] {
      ExpandUnfold(atts, triplets, hash, done);
      ExpandsExactly(atts[1..], triplets, hash, With(done, atts[0], triplets));
      FirstAttribute(atts, triplets, hash, done);
      assert AllBound(atts) <==> AllBound(atts[1..]) && (atts[0].prefixed ==> atts[0].binding.Some?);
    }
  }

  function With(done: seq<Entry>, a: Att, triplets: Option<char>): seq<Entry> {
    if a.prefixed && a.binding.Some? then done + [Entry(Key(a), Full(a, triplets))] else done
  }

  /** Clashes after the first attribute are clashes with it and those without it. */
  lemma FirstAttribute(atts: seq<Att>, triplets: Option<char>, hash: string -> nat, done: seq<Entry>)
    requires atts != []
    ensures var a, rest := atts[0], atts[1..];
            NoneClash(atts, triplets, hash) && FreeOf(atts, hash, done) <==>
            && NoneClash(rest, triplets, hash) && FreeOf(rest, hash, With(done, a, triplets))
            && (a.prefixed && a.binding.Some? ==> !Clashes(done, hash, Key(a)))
  {
    hide Clashes;
    var a, rest := atts[0], atts[1..];
    var more := With(done, a, triplets);
    forall j: nat | j < |rest| && rest[j].prefixed && rest[j].binding.Some?
      ensures Clashes(more, hash, Key(rest[j])) <==>
              Clashes(done, hash, Key(rest[j])) || ClashAt(atts, triplets, hash, 0, j + 1)
    {
      if more != done { ClashesMore(done, Entry(Key(a), Full(a, triplets)), hash, Key(rest[j])); }
    }
    ClashesShift(atts, triplets, hash);
    FreeOfFirst(atts, triplets, hash, done, more);
  }

  lemma ClashesMore(done: seq<Entry>, e: Entry, hash: string -> nat, key: string)
    ensures Clashes(done + [e], hash, key) <==> Clashes(done, hash, key) || (hash(e.key) == hash(key) && key <= e.full)
  {
    var more := done + [e];
    assert more[|done|] == e;
    if Clashes(done, hash, key) {
      var d :| 0 <= d < |done| && hash(done[d].key) == hash(key) && key <= done[d].full;
      assert more[d] == done[d];
    }
  }

  ghost predicate FirstClashes(atts: seq<Att>, triplets: Option<char>, hash: string -> nat) {
    exists j: nat :: ClashAt(atts, triplets, hash, 0, j)
  }

  lemma ClashesShift(atts: seq<Att>, triplets: Option<char>, hash: string -> nat)
    requires atts != []
    ensures NoneClash(atts, triplets, hash) <==> NoneClash(atts[1..], triplets, hash) && !FirstClashes(atts, triplets, hash)
  {
    var rest := atts[1..];
    forall i: nat, j: nat
      ensures ClashAt(rest, triplets, hash, i, j) ==> ClashAt(atts, triplets, hash, i + 1, j + 1)
      ensures i > 0 && ClashAt(atts, triplets, hash, i, j) ==> ClashAt(rest, triplets, hash, i - 1, j - 1)
    {}
    if NoneClash(rest, triplets, hash) && !FirstClashes(atts, triplets, hash) {
      forall i: nat, j: nat
        ensures !ClashAt(atts, triplets, hash, i, j)
      {
        var i', j' := if i > 0 then i - 1 else 0, if j > 0 then j - 1 else 0;
        assert !ClashAt(rest, triplets, hash, i', j');
      }
    }
    if NoneClash(atts, triplets, hash) {
      forall i: nat, j: nat
        ensures !ClashAt(rest, triplets, hash, i, j)
      {
        var i', j' := i + 1, j + 1;
        assert !ClashAt(atts, triplets, hash, i', j');
      }
    }
  }

  lemma FreeOfFirst(atts: seq<Att>, triplets: Option<char>, hash: string -> nat, done: seq<Entry>, more: seq<Entry>)
    requires atts != []
    requires forall j: nat :: j < |atts[1..]| && atts[1..][j].prefixed && atts[1..][j].binding.Some? ==>
      (Clashes(more, hash, Key(atts[1..][j])) <==>
       Clashes(done, hash, Key(atts[1..][j])) || ClashAt(atts, triplets, hash, 0, j + 1))
    ensures FreeOf(atts[1..], hash, more) <==> FreeOf(atts[1..], hash, done) && !FirstClashes(atts, triplets, hash)
    ensures FreeOf(atts, hash, done) <==>
            && FreeOf(atts[1..], hash, done)
            && (atts[0].prefixed && atts[0].binding.Some? ==> !Clashes(done, hash, Key(atts[0])))
  {
    var rest := atts[1..];
    if j: nat :| ClashAt(atts, triplets, hash, 0, j) {
      assert rest[j - 1] == atts[j];
      assert ClashAt(atts, triplets, hash, 0, (j - 1) + 1);
    }
    forall i | 0 <= i < |atts|
      ensures i > 0 ==> atts[i] == rest[i - 1]
    {}
    forall j: nat | j < |rest|
      ensures rest[j] == atts[j + 1]
    {}
  }

  /** Two attributes of one expanded name are always reported (section 6.3 of Namespaces in XML
      1.0); and without colliding hashes nothing else is. */
  lemma UniqueExactly(atts: seq<Att>, triplets: Option<char>, hash: string -> nat)
    requires AllBound(atts)
    ensures ExpandAll(atts, triplets, hash, []).Names? ==> DistinctKeys(atts)
    ensures NoCollision(atts, hash) ==> (ExpandAll(atts, triplets, hash, []).Names? <==> DistinctKeys(atts))
  {
    NamesExactly(atts, triplets, hash);
    if i: nat, j: nat :| SameKey(atts, i, j) {
      assert ClashAt(atts, triplets, hash, i, j);
    }
    if NoCollision(atts, hash) && DistinctKeys(atts) {
      forall i: nat, j: nat
        ensures !ClashAt(atts, triplets, hash, i, j)
      {
        assert !SameKey(atts, i, j);
      }
    }
  }

  predicate SameKey(atts: seq<Att>, i: nat, j: nat) {
    && i < j < |atts| && atts[i].prefixed && atts[j].prefixed && atts[i].binding.Some? && atts[j].binding.Some?
    && Key(atts[i]) == Key(atts[j])
  }

  ghost predicate DistinctKeys(atts: seq<Att>) {
    forall i: nat, j: nat :: !SameKey(atts, i, j)
  }

  ghost predicate NoCollision(atts: seq<Att>, hash: string -> nat) {
    forall i: nat, j: nat :: i < j < |atts| && atts[i].binding.Some? && atts[j].binding.Some? ==>
      hash(Key(atts[i])) == hash(Key(atts[j])) ==> Key(atts[i]) == Key(atts[j])
  }

  /** The names handed out are the expanded ones, in order. */
  lemma {:induction false} NamesInOrder(atts: seq<Att>, triplets: Option<char>, hash: string -> nat, done: seq<Entry>)
    ensures var o := ExpandAll(atts, triplets, hash, done);
            !o.NoMemory? && (o.Names? ==> o.names == seq(|atts|, i requires 0 <= i < |atts| => NameOf(atts[i], triplets)))
    decreases |atts|
  {
    hide Clashes;
    if atts != [] {
      ExpandUnfold(atts, triplets, hash, done);
      NamesInOrder(atts[1..], triplets, hash, With(done, atts[0], triplets));
    }
  }

  /** Each error has its cause. */
  lemma {:induction false} ErrorsHaveCauses(atts: seq<Att>, triplets: Option<char>, hash: string -> nat, done: seq<Entry>)
    ensures var o := ExpandAll(atts, triplets, hash, done);
            && (o.UnboundPrefix? ==> !AllBound(atts))
            && (o.DuplicateAttribute? ==> !(NoneClash(atts, triplets, hash) && FreeOf(atts, hash, done)))
    decreases |atts|
  {
    hide Clashes, NoneClash, FreeOf;
    if atts != [] {
      ExpandUnfold(atts, triplets, hash, done);
      ErrorsHaveCauses(atts[1..], triplets, hash, With(done, atts[0], triplets));
      FirstAttribute(atts, triplets, hash, done);
      assert AllBound(atts) ==> AllBound(atts[1..]);
    }
  }
}
