/** How often the matcher of regexp/xmlregexp.c can have to save its place, read off the automaton that
    was built and the string: a bound on the search below which every string is decided. */
module RegexpEffort {
  import opened Wrappers
  import opened RegexpLanguage
  import opened RegexpAutomaton
  import opened RegexpSources
  import opened RegexpDeterminism
  import opened RegexpExec

  /** The transitions from `q` that match `c`. */
  ghost function Ahead(es: set<Edge>, check: Check, q: nat, c: CodePoint): set<Edge> {
    set e | e in es && e.0 == q && e.1.Some? && check(e.1.value, c) == 1
  }

  predicate Compared(compare: (Atom, Atom) -> bool, e: Edge, f: Edge) {
    e.1.Some? && f.1.Some? && (compare(e.1.value, f.1.value) || compare(f.1.value, e.1.value))
  }

  /** Another transition of the same state is said to overlap. */
  ghost predicate Clashes(es: set<Edge>, compare: (Atom, Atom) -> bool, e: Edge) {
    exists f :: f in es && f != e && f.0 == e.0 && Compared(compare, e, f)
  }

  /** The clashing transitions that can be taken in the tree of all runs over the rest of the string. */
  ghost function Forks(es: set<Edge>, check: Check, compare: (Atom, Atom) -> bool, q: nat, s: seq<CodePoint>): nat
    decreases |s|, 1, 0
  {
    if s == [] then 0 else ForksOf(es, check, compare, Ahead(es, check, q, s[0]), s)
  }

  ghost function ForksOf(es: set<Edge>, check: Check, compare: (Atom, Atom) -> bool, some: set<Edge>, s: seq<CodePoint>): nat
    requires s != []
    decreases |s|, 0, |some|
  {
    if some == {} then 0 else
    var e :| e in some;
    Cost(es, check, compare, e, s) + ForksOf(es, check, compare, some - {e}, s)
  }

  ghost function Cost(es: set<Edge>, check: Check, compare: (Atom, Atom) -> bool, e: Edge, s: seq<CodePoint>): nat
    requires s != []
    decreases |s|, 0, 0
  {
    (if Clashes(es, compare, e) then 1 else 0) + Forks(es, check, compare, e.2, s[1..])
  }

  /** The order of the transitions does not matter. */
  lemma {:induction false} ForksAny(es: set<Edge>, check: Check, compare: (Atom, Atom) -> bool, some: set<Edge>, e: Edge, s: seq<CodePoint>)
    requires s != [] && e in some
    ensures ForksOf(es, check, compare, some, s) == Cost(es, check, compare, e, s) + ForksOf(es, check, compare, some - {e}, s)
    decreases |some|
  {
    var f :| f in some && ForksOf(es, check, compare, some, s) == Cost(es, check, compare, f, s) + ForksOf(es, check, compare, some - {f}, s);
    if f != e {
      ForksAny(es, check, compare, some - {f}, e, s);
      assert some - {f} - {e} == some - {e} - {f};
      ForksAny(es, check, compare, some - {e}, f, s);
    }
  }

  lemma {:induction false} ForksMore(es: set<Edge>, check: Check, compare: (Atom, Atom) -> bool, some: set<Edge>, more: set<Edge>, s: seq<CodePoint>)
    requires s != [] && some <= more
    ensures ForksOf(es, check, compare, some, s) <= ForksOf(es, check, compare, more, s)
    decreases |more|
  {
    if e :| e in more && e !in some {
      ForksAny(es, check, compare, more, e, s);
      ForksMore(es, check, compare, some, more - {e}, s);
    } else {
      assert some == more;
    }
  }

  // ------------------------------------------------------------------ the bound on the saves

  /** All transitions are among `es`, no state has one twice, and only clashing ones are marked 1. */
  ghost predicate Lean(g: Slots, es: set<Edge>, compare: (Atom, Atom) -> bool) {
    && Edges(g) <= es
    && (forall q: nat, i: nat, k: nat :: i < k && LiveTrans(g, q, i) && LiveTrans(g, q, k) ==> EdgeAt(g, q, i) != EdgeAt(g, q, k))
    && (forall q: nat, k: nat :: LiveTrans(g, q, k) && g[q].value.trans[k].nd == 1 ==> Clashes(es, compare, EdgeAt(g, q, k)))
  }

  /** The transitions from number `k` on that can be taken. */
  ghost function Later(s: Subject, q: nat, i: nat, k: nat): set<Edge>
    requires Present(s.comp, q)
  {
    set m: nat | k <= m < |s.comp[q].value.trans| && CanTake(s, q, i, m) :: EdgeAt(s.comp, q, m)
  }

  lemma LaterStep(s: Subject, q: nat, i: nat, k: nat)
    requires Present(s.comp, q) && k < |s.comp[q].value.trans|
    requires forall m: nat, n: nat :: m < n && LiveTrans(s.comp, q, m) && LiveTrans(s.comp, q, n) ==> EdgeAt(s.comp, q, m) != EdgeAt(s.comp, q, n)
    ensures if CanTake(s, q, i, k) then
              Later(s, q, i, k) == Later(s, q, i, k + 1) + {EdgeAt(s.comp, q, k)} && EdgeAt(s.comp, q, k) !in Later(s, q, i, k + 1)
            else Later(s, q, i, k) == Later(s, q, i, k + 1)
  {
    if CanTake(s, q, i, k) {
      forall e | e in Later(s, q, i, k)
        ensures e in Later(s, q, i, k + 1) || e == EdgeAt(s.comp, q, k)
      {
        var m: nat :| k <= m < |s.comp[q].value.trans| && CanTake(s, q, i, m) && EdgeAt(s.comp, q, m) == e;
        if m > k { assert e in Later(s, q, i, k + 1); }
      }
    } else {
      forall e | e in Later(s, q, i, k)
        ensures e in Later(s, q, i, k + 1)
      {
        var m: nat :| k <= m < |s.comp[q].value.trans| && CanTake(s, q, i, m) && EdgeAt(s.comp, q, m) == e;
        assert m != k;
      }
    }
  }

  lemma LaterAhead(s: Subject, es: set<Edge>, q: nat, i: nat)
    requires NoEpsilon(s.comp) && Present(s.comp, q) && i < |s.input| && Edges(s.comp) <= es
    ensures Later(s, q, i, 0) <= Ahead(es, s.check, q, s.input[i])
  {
    forall e | e in Later(s, q, i, 0)
      ensures e in Ahead(es, s.check, q, s.input[i])
    {
      var m: nat :| m < |s.comp[q].value.trans| && CanTake(s, q, i, m) && EdgeAt(s.comp, q, m) == e;
      assert e in Edges(s.comp);
    }
  }

  /** The saves of a search are no more than the clashes on its way. */
  lemma {:induction false} SavesWithin(s: Subject, es: set<Edge>, compare: (Atom, Atom) -> bool, q: nat, i: nat, k: nat)
    requires Runnable(s) && Lean(s.comp, es, compare) && Present(s.comp, q) && i < |s.input|
    ensures Saves(s, q, i, k) <= ForksOf(es, s.check, compare, Later(s, q, i, k), s.input[i..])
    decreases |s.input| - i, 0, |s.comp[q].value.trans| - k
  {
    hide Lean, Later, ForksOf, Forks;
    if k < |s.comp[q].value.trans| {
      LeanState(s.comp, es, compare, q);
      LaterStep(s, q, i, k);
      SavesWithin(s, es, compare, q, i, k + 1);
      if CanTake(s, q, i, k) {
        var e := EdgeAt(s.comp, q, k);
        var later := Later(s, q, i, k);
        ForksAny(es, s.check, compare, later, e, s.input[i..]);
        assert later - {e} == Later(s, q, i, k + 1);
        assert s.input[i..][1..] == s.input[i + 1..];
        SavesBounded(s, es, compare, s.comp[q].value.trans[k].to, i + 1);
      }
    }
  }

  lemma LeanState(g: Slots, es: set<Edge>, compare: (Atom, Atom) -> bool, q: nat)
    requires Lean(g, es, compare)
    ensures forall i: nat, k: nat :: i < k && LiveTrans(g, q, i) && LiveTrans(g, q, k) ==> EdgeAt(g, q, i) != EdgeAt(g, q, k)
    ensures forall k: nat :: LiveTrans(g, q, k) && g[q].value.trans[k].nd == 1 ==> Clashes(es, compare, EdgeAt(g, q, k))
    ensures Edges(g) <= es
  {
  }

  lemma {:induction false} SavesBounded(s: Subject, es: set<Edge>, compare: (Atom, Atom) -> bool, q: nat, i: nat)
    requires Runnable(s) && Lean(s.comp, es, compare) && Present(s.comp, q) && i <= |s.input|
    ensures Saves(s, q, i, 0) <= Forks(es, s.check, compare, q, s.input[i..])
    decreases |s.input| - i, 1, 0
  {
    hide Lean, Later, ForksOf;
    if i < |s.input| {
      LeanState(s.comp, es, compare, q);
      LaterAhead(s, es, q, i);
      SavesWithin(s, es, compare, q, i, 0);
      ForksMore(es, s.check, compare, Later(s, q, i, 0), Ahead(es, s.check, q, s.input[i]), s.input[i..]);
    }
  }

  // ------------------------------------------------------------------ what the compiler hands over

  /** The automaton the matcher gets: what was built without its epsilons, duplicates cancelled and
      overlaps marked. */
  ghost predicate Compiled(g: Slots, equal: (Atom, Atom) -> bool, compare: (Atom, Atom) -> bool, check: Check, comp: Slots) {
    exists reduced: Slots, thin: Slots :: ReducedFrom(g, reduced) && ThinnedFrom(equal, check, reduced, thin) && MarkedAll(compare, thin, comp)
  }

  ghost predicate ReducedFrom(g: Slots, reduced: Slots) {
    && |reduced| == |g| && WellFormed(reduced) && NoEpsilon(reduced) && Present(reduced, 0)
    && SameLanguage(Abs(g), Abs(reduced), 0) && Derived(Edges(g), Edges(reduced)) && (Fresh(g) ==> Fresh(reduced))
  }

  ghost predicate ThinnedFrom(equal: (Atom, Atom) -> bool, check: Check, reduced: Slots, thin: Slots) {
    ThinnedAll(check, reduced, thin) && NoTwins(equal, thin)
  }

  ghost predicate Reflexive(equal: (Atom, Atom) -> bool) {
    forall a :: equal(a, a)
  }

  lemma ReducedSources(g: Slots, reduced: Slots)
    requires |reduced| == |g| && WellFormed(reduced) && NoEpsilon(reduced) && Derived(Edges(g), Edges(reduced))
    ensures Edges(reduced) <= Sources(Edges(g), |g|)
  {
    hide Stems, Sources;
    forall e | e in Edges(reduced)
      ensures e in Sources(Edges(g), |g|)
    {
      var k: nat :| LiveTrans(reduced, e.0, k) && EdgeAt(reduced, e.0, k) == e;
      StemsInSources(Edges(g), |g|, e);
    }
  }

  lemma NoTwinsDiffer(equal: (Atom, Atom) -> bool, thin: Slots, q: nat, i: nat, k: nat)
    requires NoTwins(equal, thin) && NoEpsilon(thin) && Reflexive(equal) && i < k && LiveTrans(thin, q, i) && LiveTrans(thin, q, k)
    ensures EdgeAt(thin, q, i) != EdgeAt(thin, q, k)
  {
    assert !Twins(equal, thin[q].value.trans, i, k);
  }

  /** A mark 1 is a clash. */
  lemma MarkedClashes(equal: (Atom, Atom) -> bool, compare: (Atom, Atom) -> bool, es: set<Edge>, thin: Slots, comp: Slots, q: nat, k: nat)
    requires MarkedAll(compare, thin, comp) && NoTwins(equal, thin) && NoEpsilon(thin) && Reflexive(equal) && Fresh(thin)
    requires WellFormed(thin) && Edges(thin) <= es && LiveTrans(comp, q, k) && comp[q].value.trans[k].nd == 1
    ensures Clashes(es, compare, EdgeAt(comp, q, k))
  {
    hide NoTwins, NoEpsilon, WellFormed;
    assert MarkedSlot(compare, thin[q], comp[q]);
    var ts := thin[q].value.trans;
    assert LiveTrans(thin, q, k) && EdgeAt(thin, q, k) == EdgeAt(comp, q, k);
    assert FreshTrans(ts[k]);
    var x: nat :| Conflict(compare, ts, x, k) || Conflict(compare, ts, k, x);
    ConflictLive(thin, compare, q, x, k);
    if x < k { NoTwinsDiffer(equal, thin, q, x, k); } else { NoTwinsDiffer(equal, thin, q, k, x); }
    var f := EdgeAt(thin, q, x);
    assert f in es && f != EdgeAt(comp, q, k);
  }

  lemma ConflictLive(thin: Slots, compare: (Atom, Atom) -> bool, q: nat, x: nat, k: nat)
    requires NoEpsilon(thin) && Fresh(thin) && Present(thin, q)
    requires Conflict(compare, thin[q].value.trans, x, k) || Conflict(compare, thin[q].value.trans, k, x)
    ensures x != k && x < |thin[q].value.trans|
    ensures LiveTrans(thin, q, x)
  {
    assert FreshTrans(thin[q].value.trans[x]);
  }

  lemma ThinnedFresh(check: Check, reduced: Slots, thin: Slots)
    requires ThinnedAll(check, reduced, thin) && Fresh(reduced)
    ensures Fresh(thin)
  {
    forall q: nat, k: nat | Present(thin, q) && k < |thin[q].value.trans|
      ensures FreshTrans(thin[q].value.trans[k])
    {
      assert Thinned(check, reduced[q].value.trans, thin[q].value.trans);
      assert FreshTrans(reduced[q].value.trans[k]);
    }
  }

  lemma {:induction false} CompiledLean(g: Slots, equal: (Atom, Atom) -> bool, compare: (Atom, Atom) -> bool, check: Check, comp: Slots)
    requires Compiled(g, equal, compare, check, comp) && Fresh(g) && Reflexive(equal)
    ensures Lean(comp, Sources(Edges(g), |g|), compare)
  {
    hide ThinnedAll, Derived, Sources, SameLanguage, Fresh, NoTwins, Clashes, Edges, MarkedAll;
    var es := Sources(Edges(g), |g|);
    var reduced: Slots, thin: Slots :| ReducedFrom(g, reduced) && ThinnedFrom(equal, check, reduced, thin) && MarkedAll(compare, thin, comp);
    ReducedSources(g, reduced);
    ThinnedEdges(check, reduced, thin);
    ThinnedFresh(check, reduced, thin);
    MarkedEdges(compare, thin, comp);
    forall q: nat, k: nat | LiveTrans(comp, q, k) && comp[q].value.trans[k].nd == 1
      ensures Clashes(es, compare, EdgeAt(comp, q, k))
    {
      MarkedClashes(equal, compare, es, thin, comp, q, k);
    }
    forall q: nat, i: nat, k: nat | i < k && LiveTrans(comp, q, i) && LiveTrans(comp, q, k)
      ensures EdgeAt(comp, q, i) != EdgeAt(comp, q, k)
    {
      SameLive(compare, thin, comp, q, i);
      SameLive(compare, thin, comp, q, k);
      NoTwinsDiffer(equal, thin, q, i, k);
    }
  }

  lemma SameLive(compare: (Atom, Atom) -> bool, thin: Slots, comp: Slots, q: nat, k: nat)
    requires MarkedAll(compare, thin, comp) && LiveTrans(comp, q, k)
    ensures LiveTrans(thin, q, k) && EdgeAt(thin, q, k) == EdgeAt(comp, q, k)
  {
    assert MarkedSlot(compare, thin[q], comp[q]);
  }

  /** The bound for the compiled automaton, in terms of the one that was built. */
  lemma CompiledBound(g: Slots, equal: (Atom, Atom) -> bool, compare: (Atom, Atom) -> bool, check: Check, comp: Slots, input: seq<CodePoint>)
    requires Compiled(g, equal, compare, check, comp) && Fresh(g) && Reflexive(equal) && Runnable(Subject(comp, input, check))
    ensures Saves(Subject(comp, input, check), 0, 0, 0) <= Forks(Sources(Edges(g), |g|), check, compare, 0, input)
  {
    hide Lean, Forks, Sources, Saves, Compiled;
    CompiledLean(g, equal, compare, check, comp);
    SavesBounded(Subject(comp, input, check), Sources(Edges(g), |g|), compare, 0, 0);
    assert input[0..] == input;
  }

  // ------------------------------------------------------------------ when the bound is small

  /** Where no two transitions of one state are said to overlap there is nothing to save. */
  lemma {:induction false} NoClashNoForks(es: set<Edge>, check: Check, compare: (Atom, Atom) -> bool, q: nat, s: seq<CodePoint>)
    requires forall e :: e in es ==> !Clashes(es, compare, e)
    ensures Forks(es, check, compare, q, s) == 0
    decreases |s|, 1, 0
  {
    if s != [] { NoClashNone(es, check, compare, Ahead(es, check, q, s[0]), s); }
  }

  lemma {:induction false} NoClashNone(es: set<Edge>, check: Check, compare: (Atom, Atom) -> bool, some: set<Edge>, s: seq<CodePoint>)
    requires s != [] && some <= es && forall e :: e in es ==> !Clashes(es, compare, e)
    ensures ForksOf(es, check, compare, some, s) == 0
    decreases |s|, 0, |some|
  {
    if e :| e in some {
      ForksAny(es, check, compare, some, e, s);
      NoClashNoForks(es, check, compare, e.2, s[1..]);
      NoClashNone(es, check, compare, some - {e}, s);
    }
  }

  /** Where one transition at most matches, the saves are no more than the characters. */
  lemma {:induction false} OneWayForks(es: set<Edge>, check: Check, compare: (Atom, Atom) -> bool, q: nat, s: seq<CodePoint>)
    requires forall p: nat, c: CodePoint :: |Ahead(es, check, p, c)| <= 1
    ensures Forks(es, check, compare, q, s) <= |s|
    decreases |s|
  {
    if s != [] {
      var some := Ahead(es, check, q, s[0]);
      if e :| e in some {
        ForksAny(es, check, compare, some, e, s);
        assert |some - {e}| == 0;
        OneWayForks(es, check, compare, e.2, s[1..]);
      }
    }
  }
}
