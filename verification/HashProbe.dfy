/** Double hashing (expat/xmlparse.c): where the probes for a hash value go in a table of 2^power slots. */
module HashProbe {
  import opened Wrappers

  /** A quarter of the table must leave room for an odd step. */
  const MIN_POWER: nat := 3

  function Pow2(p: nat): (n: nat)
    ensures n > 0
  {
    if p == 0 then 1 else 2 * Pow2(p - 1)
  }

  /** SECOND_HASH: the bits that the mask took off, moved down to just above the lowest and cut to a
      quarter of the table. */
  function SecondHash(h: nat, power: nat): nat
    requires power >= 2
  {
    (h / Pow2(power)) * 2 % Pow2(power - 2)
  }

  /** PROBE_STEP: made odd, and cut to a byte. */
  function ProbeStep(h: nat, power: nat): nat
    requires power >= 2
  {
    (SecondHash(h, power) / 2 * 2 + 1) % 0x100
  }

  /** The slot of probe number `k`. */
  function Probe(h: nat, power: nat, k: nat): (i: nat)
    requires power >= 2
    ensures i < Pow2(power)
  {
    Mod(h - k * ProbeStep(h, power), Pow2(power))
  }

  function Mod(a: int, n: nat): (r: nat)
    requires n > 0
    ensures r < n
  {
    a % n
  }

  // ------------------------------------------------------------------ arithmetic

  lemma {:induction false} PowAtLeast(power: nat)
    requires power >= MIN_POWER
    ensures Pow2(power) >= 8 && Pow2(power) == 4 * Pow2(power - 2)
    decreases power
  {
    if power > MIN_POWER {
      PowAtLeast(power - 1);
    } else {
      assert Pow2(3) == 2 * Pow2(2) == 4 * Pow2(1) == 8 * Pow2(0);
    }
  }

  /** The step is odd and no longer than a quarter of the table. */
  lemma {:induction false} StepOdd(h: nat, power: nat)
    requires power >= MIN_POWER
    ensures var s := ProbeStep(h, power); s % 2 == 1 && s <= Pow2(power) / 4 && s < 0x100
  {
    PowAtLeast(power);
    var second := SecondHash(h, power);
    assert Pow2(power - 2) == 2 * Pow2(power - 3);
    OddBelow(second, Pow2(power - 3));
  }

  lemma OddBelow(x: nat, half: nat)
    requires x < 2 * half
    ensures (x / 2 * 2 + 1) % 0x100 % 2 == 1 && (x / 2 * 2 + 1) % 0x100 <= 2 * half
  {
  }

  lemma ModUnique(a: int, q: int, r: int, n: nat)
    requires n > 0 && a == q * n + r && 0 <= r < n
    ensures Mod(a, n) == r
  {
    var d := a / n - q;
    assert a == a / n * n + a % n;
    assert d * n == (a / n) * n - q * n;
    assert d * n == r - a % n;
    MulBound(d, n);
  }

  lemma MulBound(d: int, n: int)
    requires n > 0
    ensures (d > 0 ==> d * n >= n) && (d < 0 ==> d * n <= -n)
  {
  }

  /** An odd number has an inverse among the residues of a power of two. */
  lemma {:induction false} OddInverse(step: nat, p: nat) returns (u: nat, m: int)
    requires step % 2 == 1
    ensures u * step == 1 + m * Pow2(p)
  {
    if p == 0 {
      u, m := 1, step - 1;
    } else {
      u, m := OddInverse(step, p - 1);
      var w := Pow2(p - 1);
      if m % 2 == 1 {
        u, m := Shifted(step, u, m, w);
      }
      Halves(m, w);
      m := m / 2;
    }
  }

  lemma Shifted(step: nat, u: nat, m: int, w: nat) returns (u': nat, m': int)
    requires step % 2 == 1 && m % 2 == 1 && u * step == 1 + m * w
    ensures m' % 2 == 0 && u' * step == 1 + m' * w
  {
    u', m' := u + w, m + step;
    assert (u + w) * step == u * step + w * step;
    assert (m + step) * w == m * w + step * w;
  }

  lemma Halves(x: int, w: int)
    requires x % 2 == 0
    ensures x * w == x / 2 * (2 * w)
  {
    assert x == 2 * (x / 2);
  }

  /** So the probes reach every slot. */
  lemma {:induction false} ProbesReachAll(h: nat, power: nat, slot: nat) returns (k: nat)
    requires power >= MIN_POWER && slot < Pow2(power)
    ensures Probe(h, power, k) == slot
  {
    var n, step := Pow2(power), ProbeStep(h, power);
    StepOdd(h, power);
    var u, m := OddInverse(step, power);
    var d := h - slot;
    // k is congruent to d * u, so that k * step is congruent to d.
    k := Mod(d * u, n);
    var q := d * u / n;
    assert d * u == q * n + k;
    Regroup(d, u, step, m, n, q, k);
    ModUnique(slot + (q * step - d * m) * n, q * step - d * m, slot, n);
  }

  lemma Regroup(d: int, u: int, step: int, m: int, n: int, q: int, k: int)
    requires u * step == 1 + m * n && d * u == q * n + k
    ensures k * step == d - (q * step - d * m) * n
  {
    calc {
      k * step;
      (d * u - q * n) * step;
      d * u * step - q * n * step;
      { assert d * u * step == d * (u * step); assert d * (1 + m * n) == d + d * m * n; }
      d + d * m * n - q * n * step;
      { assert q * n * step == q * step * n; assert (q * step - d * m) * n == q * step * n - d * m * n; }
      d - (q * step - d * m) * n;
    }
  }

  /** One probe leads to the next by going `step` slots down, round the end. */
  lemma {:induction false} ProbeNext(h: nat, power: nat, k: nat)
    requires power >= MIN_POWER
    ensures var i, n, step := Probe(h, power, k), Pow2(power), ProbeStep(h, power);
            Probe(h, power, k + 1) == if i < step then i + (n - step) else i - step
    ensures Probe(h, power, 0) == Mod(h, Pow2(power))
  {
    var n, step := Pow2(power), ProbeStep(h, power);
    StepOdd(h, power);
    var a := h - k * step;
    assert h - (k + 1) * step == a - step;
    assert a == a / n * n + a % n;
    var i := a % n;
    if i < step {
      assert (a / n - 1) * n == a / n * n - n;
      ModUnique(a - step, a / n - 1, i + (n - step), n);
    } else {
      ModUnique(a - step, a / n, i - step, n);
    }
    assert 0 * step == 0;
  }

  // ------------------------------------------------------------------ slots

  type Slots = seq<Option<string>>

  /** The keys stored. */
  predicate Holds(slots: Slots, name: string) {
    exists i :: 0 <= i < |slots| && slots[i] == Some(name)
  }

  /** The first `k` probes for `h` meet stored keys other than `name`. */
  predicate Busy(slots: Slots, power: nat, h: nat, k: nat, name: string)
    requires power >= 2 && |slots| == Pow2(power)
  {
    forall j :: 0 <= j < k ==> slots[Probe(h, power, j)].Some? && slots[Probe(h, power, j)] != Some(name)
  }

  /** Probing for `name` finds it at `slot`. */
  ghost predicate Found(slots: Slots, power: nat, hash: string -> nat, slot: nat)
    requires power >= 2 && |slots| == Pow2(power) && slot < |slots| && slots[slot].Some?
  {
    var name := slots[slot].value;
    exists k: nat :: Probe(hash(name), power, k) == slot && Busy(slots, power, hash(name), k, name)
  }

  ghost predicate Hashed(slots: Slots, power: nat, hash: string -> nat) {
    && power >= MIN_POWER && |slots| == Pow2(power)
    && forall i :: 0 <= i < |slots| && slots[i].Some? ==> Found(slots, power, hash, i)
  }

  /** Where a search for a key that is not there comes to its end. */
  ghost predicate Stops(slots: Slots, power: nat, hash: string -> nat, i: nat, name: string)
    requires power >= 2 && |slots| == Pow2(power)
  {
    i < |slots| && slots[i].None? && exists k: nat :: Probe(hash(name), power, k) == i && Busy(slots, power, hash(name), k, name)
  }

  lemma NotBusy(slots: Slots, power: nat, h: nat, name: string)
    requires power >= 2 && |slots| == Pow2(power)
    ensures Busy(slots, power, h, 0, name)
  {
  }

  lemma BusyMore(slots: Slots, power: nat, h: nat, k: nat, name: string)
    requires power >= 2 && |slots| == Pow2(power) && Busy(slots, power, h, k, name)
    requires slots[Probe(h, power, k)].Some? && slots[Probe(h, power, k)] != Some(name)
    ensures Busy(slots, power, h, k + 1, name)
  {
  }

  lemma StopsHere(slots: Slots, power: nat, hash: string -> nat, k: nat, name: string)
    requires power >= 2 && |slots| == Pow2(power) && Busy(slots, power, hash(name), k, name)
    requires slots[Probe(hash(name), power, k)].None?
    ensures Stops(slots, power, hash, Probe(hash(name), power, k), name)
  {
  }

  function Used(slots: Slots): nat {
    if slots == [] then 0 else Used(slots[..|slots| - 1]) + if slots[|slots| - 1].Some? then 1 else 0
  }

  lemma {:induction false} RoomLeft(slots: Slots) returns (e: nat)
    requires Used(slots) < |slots|
    ensures e < |slots| && slots[e].None?
  {
    var n := |slots| - 1;
    if slots[n].None? {
      e := n;
    } else {
      e := RoomLeft(slots[..n]);
    }
  }

  lemma {:induction false} UsedMore(slots: Slots, i: nat, x: Option<string>)
    requires i < |slots| && slots[i].None? && x.Some?
    ensures Used(slots[i := x]) == Used(slots) + 1
  {
    var n := |slots| - 1;
    if i < n {
      UsedMore(slots[..n], i, x);
      assert slots[i := x][..n] == slots[..n][i := x];
    } else {
      assert slots[i := x][..n] == slots[..n];
    }
  }

  /** An unsuccessful search ends at an empty slot, and the key is nowhere. */
  lemma {:induction false} SearchIsRight(slots: Slots, power: nat, hash: string -> nat, k: nat, name: string)
    requires Hashed(slots, power, hash) && Busy(slots, power, hash(name), k, name)
    requires slots[Probe(hash(name), power, k)].None?
    ensures !Holds(slots, name)
  {
    forall i | 0 <= i < |slots| && slots[i].Some?
      ensures slots[i] != Some(name)
    {
      assert Found(slots, power, hash, i);
      var other := slots[i].value;
      var j: nat :| Probe(hash(other), power, j) == i && Busy(slots, power, hash(other), j, other);
      assert other == name ==> j == k;
    }
  }

  /** Storing a new key where its search ended leaves every key to be found. */
  lemma {:induction false} StoreKeepsHashed(slots: Slots, power: nat, hash: string -> nat, k: nat, name: string)
    requires Hashed(slots, power, hash) && Busy(slots, power, hash(name), k, name)
    requires slots[Probe(hash(name), power, k)].None?
    ensures Hashed(slots[Probe(hash(name), power, k) := Some(name)], power, hash)
  {
    var e := Probe(hash(name), power, k);
    var more := slots[e := Some(name)];
    SearchIsRight(slots, power, hash, k, name);
    forall i | 0 <= i < |more| && more[i].Some?
      ensures Found(more, power, hash, i)
    {
      if i == e {
        assert Busy(more, power, hash(name), k, name) by { StillBusy(slots, power, hash(name), k, name, e, name); }
      } else {
        var other := slots[i].value;
        assert Found(slots, power, hash, i) && Holds(slots, other);
        var j: nat :| Probe(hash(other), power, j) == i && Busy(slots, power, hash(other), j, other);
        StillBusy(slots, power, hash(other), j, other, e, name);
        assert Probe(hash(other), power, j) == i && Busy(more, power, hash(other), j, other);
      }
    }
  }

  lemma {:induction false} StillBusy(slots: Slots, power: nat, h: nat, k: nat, name: string, e: nat, new_: string)
    requires power >= 2 && |slots| == Pow2(power) && e < |slots| && slots[e].None? && Busy(slots, power, h, k, name)
    ensures Busy(slots[e := Some(new_)], power, h, k, name)
  {
    hide Probe;
  }

  lemma {:induction false} EmptyHashed(power: nat, hash: string -> nat)
    requires power >= MIN_POWER
    ensures var none: Slots := seq(Pow2(power), _ => None); Hashed(none, power, hash) && Used(none) == 0
  {
    NoneUsed(Pow2(power));
  }

  lemma {:induction false} NoneUsed(n: nat)
    ensures Used(seq(n, _ => None)) == 0
  {
    if n > 0 {
      var none: Slots := seq(n, _ => None);
      assert none[..n - 1] == seq(n - 1, _ => None);
      NoneUsed(n - 1);
    }
  }
}
