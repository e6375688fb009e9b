/** The parser's hash table (expat/xmlparse.c): open addressing with double hashing, grown when half
    full, for any hash function. */
module HashTable {
  import opened Wrappers
  import opened HashProbe

  /** A table entry; what follows the name is the caller's. */
  class Named {
    const name: string

    constructor (name: string)
      ensures this.name == name
    {
      this.name := name;
    }
  }

  const INIT_POWER: nat := 6

  /** A table of 2^61 pointers would not fit into the address space of 2^64 bytes. */
  const MAX_POWER: nat := 60

  function KeyOf(e: Named?): Option<string> {
    if e == null then None else Some(e.name)
  }

  /** The keys in an array of entries. */
  function KeysOf(v: seq<Named?>): (s: Slots)
    ensures |s| == |v|
  {
    seq(|v|, i requires 0 <= i < |v| => KeyOf(v[i]))
  }

  /** Entries and the map they make up; no entry is stored twice. */
  ghost predicate Stores(v: seq<Named?>, contents: map<string, Named>) {
    && (forall i :: 0 <= i < |v| && v[i] != null ==> v[i].name in contents && contents[v[i].name] == v[i])
    && (forall n :: n in contents ==> contents[n].name == n && contents[n] in v)
    && (forall i, j :: 0 <= i < j < |v| && v[i] != null ==> v[i] != v[j])
  }

  class Table {
    const hash: string -> nat
    /** Does the allocator grant request number `k`? */
    const grants: nat -> bool
    var asked: nat
    var v: array<Named?>
    var power: nat
    var size: nat
    var used: nat
    ghost var contents: map<string, Named>

    ghost predicate Valid()
      reads this, v
    {
      if size == 0 then contents == map[] && used == 0
      else
        && INIT_POWER <= power <= MAX_POWER && size == v.Length && Hashed(KeysOf(v[..]), power, hash)
        && used == Used(KeysOf(v[..])) && 2 * used <= size
        && Stores(v[..], contents)
    }

    /** hashTableInit */
    constructor (hash: string -> nat, grants: nat -> bool)
      ensures Valid() && contents == map[] && this.hash == hash && this.grants == grants && asked == 0 && fresh(v)
    {
      this.hash, this.grants, asked := hash, grants, 0;
      v := new Named?[0];
      power, size, used := 0, 0, 0;
      contents := map[];
    }

    /** The probing loop of lookup. Some slot is empty and the probes reach all slots, so it ends. */
    method Search(name: string) returns (i: nat, found: bool)
      requires size == v.Length && Hashed(KeysOf(v[..]), power, hash) && Used(KeysOf(v[..])) < size
      ensures i < v.Length && (found <==> v[i] != null) && (found ==> v[i].name == name)
      ensures !found ==> !Holds(KeysOf(v[..]), name) && Stops(KeysOf(v[..]), power, hash, i, name)
    {
      hide Hashed, Used, Busy, Stops;
      HashedPower(KeysOf(v[..]), power, hash);
      var h := hash(name);
      ghost var slots := KeysOf(v[..]);
      var step := 0;
      i := h % size;
      ghost var k: nat := 0;
      ghost var e := RoomLeft(slots);
      ghost var last := ProbesReachAll(h, power, e);
      ProbeNext(h, power, 0);
      NotBusy(slots, power, h, name);
      while v[i] != null
        invariant k <= last && i == Probe(h, power, k) && (step == 0 || step == ProbeStep(h, power))
        invariant Busy(slots, power, h, k, name)
        decreases last - k
      {
        if v[i].name == name {
          return i, true;
        }
        StepOdd(h, power);
        ProbeNext(h, power, k);
        if step == 0 {
          step := ProbeStep(h, power);
        }
        assert slots[i] == Some(v[i].name);
        BusyMore(slots, power, h, k, name);
        i := if i < step then i + (size - step) else i - step;
        k := k + 1;
      }
      SearchIsRight(slots, power, hash, k, name);
      StopsHere(slots, power, hash, k, name);
      return i, false;
    }

    /** The probing loop for a key that is put into the larger array and is not there yet. */
    method EmptySlot(newV: array<Named?>, newPower: nat, name: string, ghost stored: map<string, Named>) returns (j: nat)
      requires newV.Length == Pow2(newPower) && Hashed(KeysOf(newV[..]), newPower, hash)
      requires Used(KeysOf(newV[..])) < newV.Length && Stores(newV[..], stored) && name !in stored
      ensures Stops(KeysOf(newV[..]), newPower, hash, j, name)
    {
      hide Hashed, Used, Busy, Stops, Stores, KeysOf;
      HashedPower(KeysOf(newV[..]), newPower, hash);
      var newHash := hash(name);
      ghost var slots := KeysOf(newV[..]);
      var step := 0;
      j := newHash % newV.Length;
      ghost var k: nat := 0;
      ghost var room := RoomLeft(slots);
      ghost var last := ProbesReachAll(newHash, newPower, room);
      ProbeNext(newHash, newPower, 0);
      NotBusy(slots, newPower, newHash, name);
      KeyAt(newV[..]);
      while newV[j] != null
        invariant k <= last && j == Probe(newHash, newPower, k) && (step == 0 || step == ProbeStep(newHash, newPower))
        invariant Busy(slots, newPower, newHash, k, name)
        decreases last - k
      {
        OtherKey(newV[..], stored, j, name);
        StepOdd(newHash, newPower);
        ProbeNext(newHash, newPower, k);
        if step == 0 {
          step := ProbeStep(newHash, newPower);
        }
        BusyMore(slots, newPower, newHash, k, name);
        j := if j < step then j + (newV.Length - step) else j - step;
        k := k + 1;
      }
      StopsHere(slots, newPower, hash, k, name);
    }

    method Place(newV: array<Named?>, newPower: nat, e: Named, ghost stored: map<string, Named>)
      requires newV.Length == Pow2(newPower) && Hashed(KeysOf(newV[..]), newPower, hash)
      requires Used(KeysOf(newV[..])) < newV.Length && Stores(newV[..], stored) && e.name !in stored
      modifies newV
      ensures Hashed(KeysOf(newV[..]), newPower, hash) && Used(KeysOf(newV[..])) == old(Used(KeysOf(newV[..]))) + 1
      ensures Stores(newV[..], stored[e.name := e])
    {
      hide Hashed, Used, Stops, Stores, KeysOf;
      HashedPower(KeysOf(newV[..]), newPower, hash);
      var j := EmptySlot(newV, newPower, e.name, stored);
      EntryStored(newV[..], newPower, hash, j, e, stored);
      ghost var was := newV[..];
      newV[j] := e;
      assert newV[..] == was[j := e];
    }

    /** One request to the allocator. */
    method Ask() returns (granted: bool)
      modifies this`asked
      ensures granted == grants(old(asked)) && asked == old(asked) + 1
    {
      granted := grants(asked);
      asked := asked + 1;
    }

    /** malloc for a table. */
    method Allocate(n: nat) returns (a: array?<Named?>)
      modifies this`asked
      ensures asked == old(asked) + 1 && (a != null <==> grants(old(asked)))
      ensures a != null ==> fresh(a) && a.Length == n && forall i :: 0 <= i < n ==> a[i] == null
    {
      var granted := Ask();
      if !granted {
        return null;
      }
      a := new Named?[n](_ => null);
    }

    /** The table doubled and every entry rehashed; refused when it would be too large, or when there is
        no memory for it. */
    method Grow() returns (ok: bool)
      requires Valid() && size > 0
      modifies this`v, this`power, this`size, this`asked
      ensures Valid() && size > 0 && (ok <==> old(power) < MAX_POWER && grants(old(asked)))
      ensures asked == old(asked) + (if old(power) < MAX_POWER then 1 else 0)
      ensures if ok then fresh(v) && power == old(power) + 1 && size == 2 * old(size) else v == old(v)
    {
      hide Hashed, Used, Stores, KeysOf;
      var newPower := power + 1;
      if newPower > MAX_POWER {
        return false;
      }
      HashedPower(KeysOf(v[..]), power, hash);
      var newSize := 2 * size;
      var newV := Allocate(newSize);
      if newV == null {
        return false;
      }
      ghost var stored: map<string, Named> := map[];
      NothingStored(newV[..], newPower, hash);
      NonePart(v[..], contents);
      for i := 0 to size
        invariant fresh(newV) && newV.Length == newSize == Pow2(newPower) && v == old(v) && v[..] == old(v[..])
        invariant size == old(size) && power == old(power) && asked == old(asked) + 1
        invariant Hashed(KeysOf(newV[..]), newPower, hash) && Stores(newV[..], stored)
        invariant Used(KeysOf(newV[..])) == Used(KeysOf(v[..i]))
        invariant Part(v[..], i, contents, stored)
      {
        PartNext(v[..], i, contents, stored);
        if v[i] != null {
          Place(newV, newPower, v[i], stored);
          stored := stored[v[i].name := v[i]];
        }
      }
      assert v[..size] == v[..];
      PartAll(v[..], contents, stored);
      v := newV;
      power := newPower;
      size := newSize;
      return true;
    }

    /** The first lookup that may create an entry makes the table. */
    method Make() returns (ok: bool)
      requires Valid() && size == 0
      modifies this`v, this`power, this`size, this`asked
      ensures Valid() && asked == old(asked) + 1 && (ok <==> grants(old(asked)))
      ensures if ok then size > 0 && fresh(v) && power == INIT_POWER else size == 0 && v == old(v)
    {
      hide Hashed, Used, Stores, KeysOf;
      power := INIT_POWER;
      PowAtLeast(INIT_POWER);
      var a := Allocate(64);
      if a == null {
        return false;
      }
      size, v := 64, a;
      NothingStored(v[..], power, hash);
      return true;
    }

    /** Will the memory for a new entry be granted: for the entry itself, and before that for the first
        table or for one of twice the size, if the table is not there or half full? */
    predicate CanAdd()
      reads this
    {
      if size == 0 then grants(asked) && grants(asked + 1)
      else if 2 * used >= size then power < MAX_POWER && grants(asked) && grants(asked + 1)
      else grants(asked)
    }

    /** lookup: the entry of this name, which is made if `create` says so, exactly when the memory for
        it is granted and the table is not too large to be doubled. */
    method Lookup(name: string, create: bool) returns (r: Named?)
      requires Valid()
      modifies this, v
      ensures Valid() && (old(v) == v || fresh(v))
      ensures name in old(contents) ==> r == old(contents)[name] && contents == old(contents)
      ensures name !in old(contents) && !create ==> r == null && contents == old(contents)
      ensures name !in old(contents) && create ==>
        && (r != null <==> old(CanAdd()))
        && if r != null then fresh(r) && r.name == name && contents == old(contents)[name := r] else contents == old(contents)
    {
      hide Hashed, Used, Stores, KeysOf, Stops;
      if size == 0 {
        if !create {
          return null;
        }
        var ok := Make();
        if !ok {
          return null;
        }
        r := Insert(name);
        return r;
      }
      HashedPower(KeysOf(v[..]), power, hash);
      var i, found := Search(name);
      Present(v[..], contents, name);
      if found {
        EntryKnown(v[..], contents, i);
        return v[i];
      }
      if !create {
        return null;
      }
      // The table is half full when its upper half of counts is reached.
      if 2 * used >= size {
        var ok := Grow();
        if !ok {
          return null;
        }
      }
      r := Insert(name);
    }

    /** The end of lookup: the new entry, if there is memory for it, goes into the slot where the search
        for it ended. */
    method Insert(name: string) returns (r: Named?)
      requires Valid() && size > 0 && name !in contents && 2 * used < size
      modifies this`used, this`contents, this`asked, v
      ensures Valid() && (r != null <==> grants(old(asked)))
      ensures if r == null then contents == old(contents) && used == old(used)
              else fresh(r) && r.name == name && contents == old(contents)[name := r] && used == old(used) + 1
    {
      hide Hashed, Used, Stores, KeysOf, Stops, Holds, Pow2;
      HashedPower(KeysOf(v[..]), power, hash);
      var i, found := Search(name);
      Present(v[..], contents, name);
      if found { EntryKnown(v[..], contents, i); }
      var granted := Ask();
      if !granted {
        return null;
      }
      r := new Named(name);
      EntryStored(v[..], power, hash, i, r, contents);
      ghost var was := v[..];
      v[i] := r;
      assert v[..] == was[i := r];
      used := used + 1;
      contents := contents[name := r];
    }

    /** hashTableClear */
    method Clear()
      requires Valid()
      modifies this`used, this`contents, v
      ensures Valid() && contents == map[]
    {
      hide Hashed, Used, Stores, KeysOf;
      if size > 0 { HashedPower(KeysOf(v[..]), power, hash); }
      for i := 0 to size
        invariant size > 0 ==> size == v.Length == Pow2(power) && INIT_POWER <= power <= MAX_POWER
        invariant forall j :: 0 <= j < i ==> v[j] == null
      {
        v[i] := null;
      }
      used := 0;
      contents := map[];
      if size > 0 { NothingStored(v[..], power, hash); }
    }
  }

  // ------------------------------------------------------------------ small facts

  lemma HashedPower(slots: Slots, power: nat, hash: string -> nat)
    requires Hashed(slots, power, hash)
    ensures power >= MIN_POWER && |slots| == Pow2(power) && Pow2(power) >= 8 && Pow2(power + 1) == 2 * Pow2(power)
    ensures Pow2(power) == 2 * Pow2(power - 1)
  {
    hide Found;
    PowAtLeast(power);
  }

  lemma KeyAt(v: seq<Named?>)
    ensures forall i :: 0 <= i < |v| ==> KeysOf(v)[i] == KeyOf(v[i])
  {
  }

  lemma OtherKey(v: seq<Named?>, stored: map<string, Named>, i: nat, name: string)
    requires Stores(v, stored) && name !in stored && i < |v| && v[i] != null
    ensures v[i].name != name
  {
  }

  lemma EntryKnown(v: seq<Named?>, contents: map<string, Named>, i: nat)
    requires Stores(v, contents) && i < |v| && v[i] != null
    ensures v[i].name in contents && contents[v[i].name] == v[i]
  {
  }

  /** The keys in the slots are the keys of the map. */
  lemma Present(v: seq<Named?>, contents: map<string, Named>, name: string)
    requires Stores(v, contents)
    ensures Holds(KeysOf(v), name) <==> name in contents
  {
    if name in contents {
      var i :| 0 <= i < |v| && v[i] == contents[name];
      assert KeysOf(v)[i] == Some(name);
    }
  }

  lemma {:induction false} EntryStored(v: seq<Named?>, power: nat, hash: string -> nat, i: nat, e: Named, contents: map<string, Named>)
    requires Hashed(KeysOf(v), power, hash) && Stops(KeysOf(v), power, hash, i, e.name)
    requires Stores(v, contents) && e.name !in contents
    ensures i < |v| && Hashed(KeysOf(v[i := e]), power, hash) && Used(KeysOf(v[i := e])) == Used(KeysOf(v)) + 1
    ensures Stores(v[i := e], contents[e.name := e])
  {
    hide Hashed, Used, Busy;
    var slots := KeysOf(v);
    HashedPower(slots, power, hash);
    var k: nat :| Probe(hash(e.name), power, k) == i && Busy(slots, power, hash(e.name), k, e.name);
    StoreKeepsHashed(slots, power, hash, k, e.name);
    UsedMore(slots, i, Some(e.name));
    assert KeysOf(v[i := e]) == slots[i := Some(e.name)];
    EntryAdded(v, i, e, contents);
  }

  lemma {:induction false} EntryAdded(v: seq<Named?>, i: nat, e: Named, contents: map<string, Named>)
    requires Stores(v, contents) && e.name !in contents && i < |v| && v[i] == null
    ensures Stores(v[i := e], contents[e.name := e])
  {
    var w, more := v[i := e], contents[e.name := e];
    forall n | n in more
      ensures more[n].name == n && more[n] in w
    {
      if n == e.name {
        assert w[i] == e;
      } else {
        var j :| 0 <= j < |v| && v[j] == contents[n];
        assert w[j] == contents[n];
      }
    }
  }

  lemma NothingStored(v: seq<Named?>, power: nat, hash: string -> nat)
    requires power >= INIT_POWER && |v| == Pow2(power) && forall i :: 0 <= i < |v| ==> v[i] == null
    ensures Hashed(KeysOf(v), power, hash) && Used(KeysOf(v)) == 0 && Used([]) == 0 && Stores(v, map[])
  {
    EmptyHashed(power, hash);
    var none: Slots := seq(Pow2(power), _ => None);
    assert KeysOf(v) == none;
  }

  // ------------------------------------------------------------------ growing

  /** The entries of the first `n` slots have been moved. */
  ghost predicate Part(v: seq<Named?>, n: nat, contents: map<string, Named>, stored: map<string, Named>) {
    && n <= |v| && Stores(v, contents)
    && (forall i :: 0 <= i < n && v[i] != null ==> v[i].name in stored)
    && (forall m :: m in stored ==> m in contents && stored[m] == contents[m] && exists i :: 0 <= i < n && v[i] == stored[m])
  }

  lemma NonePart(v: seq<Named?>, contents: map<string, Named>)
    requires Stores(v, contents)
    ensures Part(v, 0, contents, map[]) && Used(KeysOf(v[..0])) == 0
  {
  }

  lemma {:induction false} PartNext(v: seq<Named?>, i: nat, contents: map<string, Named>, stored: map<string, Named>)
    requires i < |v| && Part(v, i, contents, stored)
    ensures v[i] == null ==> Part(v, i + 1, contents, stored)
    ensures v[i] != null ==> v[i].name !in stored && Part(v, i + 1, contents, stored[v[i].name := v[i]])
    ensures Used(KeysOf(v[..i + 1])) == Used(KeysOf(v[..i])) + (if v[i] != null then 1 else 0) <= Used(KeysOf(v))
  {
    assert KeysOf(v[..i + 1])[..i] == KeysOf(v[..i]);
    UsedPrefix(v, i + 1);
    if v[i] != null {
      forall m | m in stored
        ensures m != v[i].name
      {
        var j :| 0 <= j < i && v[j] == stored[m];
        assert v[j] != v[i];
      }
      var more := stored[v[i].name := v[i]];
      forall m | m in more
        ensures m in contents && more[m] == contents[m] && exists j :: 0 <= j < i + 1 && v[j] == more[m]
      {
        if m == v[i].name {
          assert v[i] == more[m];
        } else {
          var j :| 0 <= j < i && v[j] == stored[m];
          assert v[j] == more[m];
        }
      }
    }
  }

  lemma {:induction false} UsedPrefix(v: seq<Named?>, n: nat)
    requires n <= |v|
    ensures Used(KeysOf(v[..n])) <= Used(KeysOf(v))
    decreases |v|
  {
    if n < |v| {
      var m := |v| - 1;
      assert KeysOf(v)[..m] == KeysOf(v[..m]);
      assert v[..m][..n] == v[..n];
      UsedPrefix(v[..m], n);
    } else {
      assert v[..n] == v;
    }
  }

  lemma {:induction false} PartAll(v: seq<Named?>, contents: map<string, Named>, stored: map<string, Named>)
    requires Part(v, |v|, contents, stored)
    ensures stored == contents
  {
    forall m | m in contents
      ensures m in stored
    {
      var i :| 0 <= i < |v| && v[i] == contents[m];
    }
  }
}
