/** The meaning of an XML Schema regular-expression automaton (regexp/xmlregexp.c), as an
    abstract NFA: which words of atoms each state accepts, and why the three rewrites that
    remove epsilon transitions do not change it. */
module RegexpLanguage {
  import opened Wrappers

  /** `atom->no`: atoms are shared by pointer, so identity is all the rewrites look at. */
  type Atom = nat

  type Label = Option<Atom>

  type Edge = (nat, Label, nat)

  datatype Nfa = Nfa(edges: set<Edge>, finals: set<nat>)

  /** State `q` accepts the atom word `w` in at most `k` transitions. */
  ghost predicate AcceptsWithin(n: Nfa, k: nat, q: nat, w: seq<Atom>) {
    || (w == [] && q in n.finals)
    || (k > 0 && (exists r :: (q, None, r) in n.edges && AcceptsWithin(n, k - 1, r, w)))
    || (k > 0 && w != [] && exists r :: (q, Some(w[0]), r) in n.edges && AcceptsWithin(n, k - 1, r, w[1..]))
  }

  ghost predicate Accepts(n: Nfa, q: nat, w: seq<Atom>) {
    exists k: nat :: AcceptsWithin(n, k, q, w)
  }

  ghost predicate SameLanguage(m: Nfa, n: Nfa, q: nat) {
    forall w: seq<Atom> :: Accepts(m, q, w) <==> Accepts(n, q, w)
  }

  lemma AcceptsEpsilon(n: Nfa, q: nat, r: nat, w: seq<Atom>)
    requires (q, None, r) in n.edges && Accepts(n, r, w)
    ensures Accepts(n, q, w)
  {
    var k: nat :| AcceptsWithin(n, k, r, w);
    assert AcceptsWithin(n, k + 1, q, w);
  }

  lemma AcceptsAtom(n: Nfa, q: nat, r: nat, w: seq<Atom>)
    requires w != [] && (q, Some(w[0]), r) in n.edges && Accepts(n, r, w[1..])
    ensures Accepts(n, q, w)
  {
    var k: nat :| AcceptsWithin(n, k, r, w[1..]);
    assert AcceptsWithin(n, k + 1, q, w);
  }

  lemma AcceptsFinal(n: Nfa, q: nat)
    requires q in n.finals
    ensures Accepts(n, q, [])
  {
    assert AcceptsWithin(n, 0, q, []);
  }

  /** More transitions and more final states accept more words. */
  lemma {:induction false} MoreEdgesMoreWords(m: Nfa, n: Nfa, k: nat, q: nat, w: seq<Atom>)
    requires m.edges <= n.edges && m.finals <= n.finals
    requires AcceptsWithin(m, k, q, w)
    ensures AcceptsWithin(n, k, q, w)
    decreases k
  {
    if w == [] && q in m.finals {
    } else if r :| (q, None, r) in m.edges && AcceptsWithin(m, k - 1, r, w) {
      MoreEdgesMoreWords(m, n, k - 1, r, w);
    } else {
      var r :| (q, Some(w[0]), r) in m.edges && AcceptsWithin(m, k - 1, r, w[1..]);
      MoreEdgesMoreWords(m, n, k - 1, r, w[1..]);
    }
  }

  // ---------------------------------------------------------------- state elimination

  /** `x` goes away: every transition into it is turned to `y`, and `y` inherits finality. */
  ghost predicate Eliminates(m: Nfa, n: Nfa, x: nat, y: nat) {
    EliminatesEdges(m.edges, n.edges, x, y)
    && n.finals == m.finals - {x} + (if x in m.finals then {y} else {})
  }

  ghost predicate EliminatesEdges(es: set<Edge>, fs: set<Edge>, x: nat, y: nat) {
    && x != y
    && (forall e :: e in es && e.0 == x ==> e == (x, None, y))
    && (x, None, y) in es
    && (forall e :: e in fs ==> e.0 != x && e.2 != x)
    && (forall p, l, r :: (p, l, r) in es && p != x && r != x ==> (p, l, r) in fs)
    && (forall p, l :: (p, l, x) in es && p != x ==> (p, l, y) in fs)
    && (forall p, l, r :: (p, l, r) in fs ==> (p, l, r) in es || (r == y && (p, l, x) in es))
  }

  /** Nothing is lost: `y` stands in for `x`, every other state keeps its words. */
  lemma {:induction false} EliminationKeeps(m: Nfa, n: Nfa, x: nat, y: nat, k: nat, q: nat, w: seq<Atom>)
    requires Eliminates(m, n, x, y)
    requires AcceptsWithin(m, k, q, w)
    ensures Accepts(n, if q == x then y else q, w)
    decreases k
  {
    var q' := if q == x then y else q;
    if w == [] && q in m.finals {
      AcceptsFinal(n, q');
    } else if r :| (q, None, r) in m.edges && AcceptsWithin(m, k - 1, r, w) {
      EliminationKeeps(m, n, x, y, k - 1, r, w);
      if q != x {
        AcceptsEpsilon(n, q, if r == x then y else r, w);
      }
    } else {
      var r :| (q, Some(w[0]), r) in m.edges && AcceptsWithin(m, k - 1, r, w[1..]);
      EliminationKeeps(m, n, x, y, k - 1, r, w[1..]);
      AcceptsAtom(n, q, if r == x then y else r, w);
    }
  }

  /** Nothing is gained, unless a final `x` made a non-accepting `y` final. */
  lemma {:induction false} EliminationAddsNothing(m: Nfa, n: Nfa, x: nat, y: nat, k: nat, q: nat, w: seq<Atom>)
    requires Eliminates(m, n, x, y)
    requires x in m.finals ==> Accepts(m, y, [])
    requires q != x && AcceptsWithin(n, k, q, w)
    ensures Accepts(m, q, w)
    decreases k
  {
    if w == [] && q in n.finals {
      if q in m.finals { AcceptsFinal(m, q); }
    } else if r :| (q, None, r) in n.edges && AcceptsWithin(n, k - 1, r, w) {
      EliminationAddsNothing(m, n, x, y, k - 1, r, w);
      if (q, None, r) in m.edges {
        AcceptsEpsilon(m, q, r, w);
      } else {
        AcceptsEpsilon(m, x, y, w);
        AcceptsEpsilon(m, q, x, w);
      }
    } else {
      var r :| (q, Some(w[0]), r) in n.edges && AcceptsWithin(n, k - 1, r, w[1..]);
      EliminationAddsNothing(m, n, x, y, k - 1, r, w[1..]);
      if (q, Some(w[0]), r) in m.edges {
        AcceptsAtom(m, q, r, w);
      } else {
        AcceptsEpsilon(m, x, y, w[1..]);
        AcceptsAtom(m, q, x, w);
      }
    }
  }

  lemma EliminationSameLanguage(m: Nfa, n: Nfa, x: nat, y: nat, q: nat)
    requires Eliminates(m, n, x, y)
    requires x in m.finals ==> Accepts(m, y, [])
    requires q != x
    ensures SameLanguage(m, n, q)
  {
    forall w: seq<Atom>
      ensures Accepts(m, q, w) <==> Accepts(n, q, w)
    {
      if k: nat :| AcceptsWithin(m, k, q, w) { EliminationKeeps(m, n, x, y, k, q, w); }
      if k: nat :| AcceptsWithin(n, k, q, w) { EliminationAddsNothing(m, n, x, y, k, q, w); }
    }
  }

  // ---------------------------------------------------------------- epsilon closure

  /** `u` is reached from `t` by at most `k` epsilon transitions, through no state of `avoid`. */
  ghost predicate EpsilonReach(es: set<Edge>, k: nat, t: nat, u: nat, avoid: set<nat>) {
    t !in avoid &&
    (t == u || (k > 0 && exists v :: (t, None, v) in es && EpsilonReach(es, k - 1, v, u, avoid)))
  }

  ghost predicate InClosure(es: set<Edge>, t: nat, u: nat, avoid: set<nat>) {
    exists k: nat :: EpsilonReach(es, k, t, u, avoid)
  }

  lemma {:induction false} ReachMonotone(es: set<Edge>, k: nat, j: nat, t: nat, u: nat, avoid: set<nat>)
    requires EpsilonReach(es, k, t, u, avoid) && k <= j
    ensures EpsilonReach(es, j, t, u, avoid)
    decreases k
  {
    if t != u {
      var v :| (t, None, v) in es && EpsilonReach(es, k - 1, v, u, avoid);
      ReachMonotone(es, k - 1, j - 1, v, u, avoid);
    }
  }

  lemma {:induction false} ReachEnds(es: set<Edge>, k: nat, t: nat, u: nat, avoid: set<nat>)
    requires EpsilonReach(es, k, t, u, avoid)
    ensures u !in avoid && t !in avoid
    decreases k
  {
    if t != u {
      var v :| (t, None, v) in es && EpsilonReach(es, k - 1, v, u, avoid);
      ReachEnds(es, k - 1, v, u, avoid);
    }
  }

  lemma {:induction false} ReachExtend(es: set<Edge>, k: nat, t: nat, u: nat, v: nat, avoid: set<nat>)
    requires EpsilonReach(es, k, t, u, avoid) && (u, None, v) in es && v !in avoid
    ensures EpsilonReach(es, k + 1, t, v, avoid)
    decreases k
  {
    if t == u {
      assert EpsilonReach(es, k, v, v, avoid);
    } else {
      var x :| (t, None, x) in es && EpsilonReach(es, k - 1, x, u, avoid);
      ReachExtend(es, k - 1, x, u, v, avoid);
    }
  }

  /** Avoiding fewer states reaches more. */
  lemma {:induction false} ReachAvoidLess(es: set<Edge>, k: nat, t: nat, u: nat, less: set<nat>, more: set<nat>)
    requires EpsilonReach(es, k, t, u, more) && less <= more
    ensures EpsilonReach(es, k, t, u, less)
    decreases k
  {
    if t != u {
      var v :| (t, None, v) in es && EpsilonReach(es, k - 1, v, u, more);
      ReachAvoidLess(es, k - 1, v, u, less, more);
    }
  }

  /** A walk either misses `t`, or it can be cut to what follows its last visit of `t`. */
  lemma {:induction false} CutAtLastVisit(es: set<Edge>, k: nat, x: nat, u: nat, t: nat, avoid: set<nat>)
    requires EpsilonReach(es, k, x, u, avoid)
    ensures
      || EpsilonReach(es, k, x, u, avoid + {t})
      || u == t
      || exists v :: (t, None, v) in es && EpsilonReach(es, k, v, u, avoid + {t})
    decreases k
  {
    if x != u {
      var v :| (x, None, v) in es && EpsilonReach(es, k - 1, v, u, avoid);
      CutAtLastVisit(es, k - 1, v, u, t, avoid);
      if EpsilonReach(es, k - 1, v, u, avoid + {t}) {
        if x == t { ReachMonotone(es, k - 1, k, v, u, avoid + {t}); }
      } else if u != t {
        var v' :| (t, None, v') in es && EpsilonReach(es, k - 1, v', u, avoid + {t});
        ReachMonotone(es, k - 1, k, v', u, avoid + {t});
      }
    }
  }

  /** The equation a depth-first search with path marks computes. */
  lemma ClosureUnfold(es: set<Edge>, t: nat, u: nat, avoid: set<nat>)
    requires t !in avoid
    ensures InClosure(es, t, u, avoid) <==>
            (t == u || exists v :: (t, None, v) in es && InClosure(es, v, u, avoid + {t}))
  {
    if t == u {
      assert EpsilonReach(es, 0, t, u, avoid);
    } else {
      if k: nat :| EpsilonReach(es, k, t, u, avoid) {
        CutAtLastVisit(es, k, t, u, t, avoid);
        if v :| (t, None, v) in es && EpsilonReach(es, k, v, u, avoid + {t}) {
          assert InClosure(es, v, u, avoid + {t});
        }
      }
      if v :| (t, None, v) in es && InClosure(es, v, u, avoid + {t}) {
        var k: nat :| EpsilonReach(es, k, v, u, avoid + {t});
        ReachAvoidLess(es, k, v, u, avoid, avoid + {t});
        assert EpsilonReach(es, k + 1, t, u, avoid);
      }
    }
  }

  lemma {:induction false} AcceptsThroughClosure(n: Nfa, k: nat, t: nat, u: nat, avoid: set<nat>, w: seq<Atom>)
    requires EpsilonReach(n.edges, k, t, u, avoid) && Accepts(n, u, w)
    ensures Accepts(n, t, w)
    decreases k
  {
    if t != u {
      var v :| (t, None, v) in n.edges && EpsilonReach(n.edges, k - 1, v, u, avoid);
      AcceptsThroughClosure(n, k - 1, v, u, avoid, w);
      AcceptsEpsilon(n, t, v, w);
    }
  }

  // ---------------------------------------------------------------- bypassing one epsilon

  /** `n` is `m` after the atom transitions of t's closure were copied to `s`, with `s` final
      when that closure holds a final state, and the epsilon transition s -> t was given up. */
  ghost predicate Bypasses(m: Nfa, n: Nfa, s: nat, t: nat) {
    && s != t
    && (s, None, t) in m.edges
    && (forall e :: e in m.edges && e != (s, None, t) ==> e in n.edges)
    && (forall u: nat, a, v :: InClosure(m.edges, t, u, {s}) && (u, Some(a), v) in m.edges ==> (s, Some(a), v) in n.edges)
    && (forall e :: e in n.edges && e !in m.edges ==>
          e.0 == s && e.1.Some? && exists u: nat :: InClosure(m.edges, t, u, {s}) && (u, e.1, e.2) in m.edges)
    && (forall f :: f in m.finals ==> f in n.finals)
    && (forall f :: f in n.finals && f !in m.finals ==> f == s)
    && (s in n.finals <==> s in m.finals || exists u: nat :: InClosure(m.edges, t, u, {s}) && u in m.finals)
  }

  lemma {:induction false} BypassKeeps(m: Nfa, n: Nfa, s: nat, t: nat, k: nat, q: nat, w: seq<Atom>)
    requires Bypasses(m, n, s, t)
    requires AcceptsWithin(m, k, q, w)
    ensures Accepts(n, q, w)
    decreases k, 1
  {
    if w == [] && q in m.finals {
      AcceptsFinal(n, q);
    } else if r :| (q, None, r) in m.edges && AcceptsWithin(m, k - 1, r, w) {
      if q == s && r == t {
        assert EpsilonReach(m.edges, 0, t, t, {s});
        BypassFromClosure(m, n, s, t, t, k - 1, w);
      } else {
        BypassKeeps(m, n, s, t, k - 1, r, w);
        AcceptsEpsilon(n, q, r, w);
      }
    } else {
      var r :| (q, Some(w[0]), r) in m.edges && AcceptsWithin(m, k - 1, r, w[1..]);
      BypassKeeps(m, n, s, t, k - 1, r, w[1..]);
      AcceptsAtom(n, q, r, w);
    }
  }

  lemma {:induction false} BypassFromClosure(m: Nfa, n: Nfa, s: nat, t: nat, u: nat, k: nat, w: seq<Atom>)
    requires Bypasses(m, n, s, t)
    requires InClosure(m.edges, t, u, {s})
    requires AcceptsWithin(m, k, u, w)
    ensures Accepts(n, s, w)
    decreases k, 0
  {
    if w == [] && u in m.finals {
      AcceptsFinal(n, s);
    } else if r :| (u, None, r) in m.edges && AcceptsWithin(m, k - 1, r, w) {
      if r == s {
        BypassKeeps(m, n, s, t, k - 1, s, w);
      } else {
        var j: nat :| EpsilonReach(m.edges, j, t, u, {s});
        ReachExtend(m.edges, j, t, u, r, {s});
        BypassFromClosure(m, n, s, t, r, k - 1, w);
      }
    } else {
      var r :| (u, Some(w[0]), r) in m.edges && AcceptsWithin(m, k - 1, r, w[1..]);
      BypassKeeps(m, n, s, t, k - 1, r, w[1..]);
      AcceptsAtom(n, s, r, w);
    }
  }

  lemma {:induction false} BypassAddsNothing(m: Nfa, n: Nfa, s: nat, t: nat, k: nat, q: nat, w: seq<Atom>)
    requires Bypasses(m, n, s, t)
    requires AcceptsWithin(n, k, q, w)
    ensures Accepts(m, q, w)
    decreases k
  {
    if w == [] && q in n.finals {
      if q in m.finals {
        AcceptsFinal(m, q);
      } else {
        var u: nat :| InClosure(m.edges, t, u, {s}) && u in m.finals;
        AcceptsFinal(m, u);
        FromClosure(m, s, t, u, []);
      }
    } else if r :| (q, None, r) in n.edges && AcceptsWithin(n, k - 1, r, w) {
      BypassAddsNothing(m, n, s, t, k - 1, r, w);
      AcceptsEpsilon(m, q, r, w);
    } else {
      var r :| (q, Some(w[0]), r) in n.edges && AcceptsWithin(n, k - 1, r, w[1..]);
      BypassAddsNothing(m, n, s, t, k - 1, r, w[1..]);
      var e: Edge := (q, Some(w[0]), r);
      if e in m.edges {
        AcceptsAtom(m, q, r, w);
      } else {
        var u: nat :| InClosure(m.edges, t, u, {s}) && (u, e.1, e.2) in m.edges;
        AcceptsAtom(m, u, r, w);
        FromClosure(m, s, t, u, w);
      }
    }
  }

  lemma FromClosure(m: Nfa, s: nat, t: nat, u: nat, w: seq<Atom>)
    requires (s, None, t) in m.edges && InClosure(m.edges, t, u, {s}) && Accepts(m, u, w)
    ensures Accepts(m, s, w)
  {
    var j: nat :| EpsilonReach(m.edges, j, t, u, {s});
    AcceptsThroughClosure(m, j, t, u, {s}, w);
    AcceptsEpsilon(m, s, t, w);
  }

  lemma BypassSameLanguage(m: Nfa, n: Nfa, s: nat, t: nat, q: nat)
    requires Bypasses(m, n, s, t)
    ensures SameLanguage(m, n, q)
  {
    forall w: seq<Atom>
      ensures Accepts(m, q, w) <==> Accepts(n, q, w)
    {
      if k: nat :| AcceptsWithin(m, k, q, w) { BypassKeeps(m, n, s, t, k, q, w); }
      if k: nat :| AcceptsWithin(n, k, q, w) { BypassAddsNothing(m, n, s, t, k, q, w); }
    }
  }

  // ---------------------------------------------------------------- epsilon loops

  /** Dropping an epsilon transition from a state to itself. */
  lemma {:induction false} LoopKeeps(m: Nfa, n: Nfa, s: nat, k: nat, q: nat, w: seq<Atom>)
    requires m.edges - {(s, None, s)} <= n.edges && n.finals == m.finals
    requires AcceptsWithin(m, k, q, w)
    ensures Accepts(n, q, w)
    decreases k
  {
    if w == [] && q in m.finals {
      AcceptsFinal(n, q);
    } else if r :| (q, None, r) in m.edges && AcceptsWithin(m, k - 1, r, w) {
      LoopKeeps(m, n, s, k - 1, r, w);
      if q != s || r != s { AcceptsEpsilon(n, q, r, w); }
    } else {
      var r :| (q, Some(w[0]), r) in m.edges && AcceptsWithin(m, k - 1, r, w[1..]);
      LoopKeeps(m, n, s, k - 1, r, w[1..]);
      AcceptsAtom(n, q, r, w);
    }
  }

  lemma LoopSameLanguage(m: Nfa, n: Nfa, s: nat, q: nat)
    requires m.edges - {(s, None, s)} <= n.edges <= m.edges && n.finals == m.finals
    ensures SameLanguage(m, n, q)
  {
    forall w: seq<Atom>
      ensures Accepts(m, q, w) <==> Accepts(n, q, w)
    {
      if k: nat :| AcceptsWithin(m, k, q, w) { LoopKeeps(m, n, s, k, q, w); }
      if k: nat :| AcceptsWithin(n, k, q, w) { MoreEdgesMoreWords(n, m, k, q, w); }
    }
  }

  // ---------------------------------------------------------------- restriction

  /** `keep` is closed under the transitions, and outside it nothing else survives. */
  lemma {:induction false} RestrictionKeeps(m: Nfa, n: Nfa, keep: set<nat>, k: nat, q: nat, w: seq<Atom>)
    requires forall e :: e in m.edges && e.0 in keep ==> e.2 in keep && e in n.edges
    requires forall f :: f in m.finals && f in keep ==> f in n.finals
    requires q in keep && AcceptsWithin(m, k, q, w)
    ensures AcceptsWithin(n, k, q, w)
    decreases k
  {
    if w == [] && q in m.finals {
    } else if r :| (q, None, r) in m.edges && AcceptsWithin(m, k - 1, r, w) {
      var e: Edge := (q, None, r);
      assert e in n.edges;
      RestrictionKeeps(m, n, keep, k - 1, r, w);
    } else {
      var r :| (q, Some(w[0]), r) in m.edges && AcceptsWithin(m, k - 1, r, w[1..]);
      var e: Edge := (q, Some(w[0]), r);
      assert e in n.edges;
      RestrictionKeeps(m, n, keep, k - 1, r, w[1..]);
    }
  }

  lemma RestrictionSameLanguage(m: Nfa, n: Nfa, keep: set<nat>, q: nat)
    requires n.edges <= m.edges && n.finals <= m.finals
    requires forall e :: e in m.edges && e.0 in keep ==> e.2 in keep && e in n.edges
    requires forall f :: f in m.finals && f in keep ==> f in n.finals
    requires q in keep
    ensures SameLanguage(m, n, q)
  {
    forall w: seq<Atom>
      ensures Accepts(m, q, w) <==> Accepts(n, q, w)
    {
      if k: nat :| AcceptsWithin(m, k, q, w) { RestrictionKeeps(m, n, keep, k, q, w); }
      if k: nat :| AcceptsWithin(n, k, q, w) { MoreEdgesMoreWords(n, m, k, q, w); }
    }
  }

  lemma SameLanguageTransitive(a: Nfa, b: Nfa, c: Nfa, q: nat)
    requires SameLanguage(a, b, q) && SameLanguage(b, c, q)
    ensures SameLanguage(a, c, q)
  {
  }
}
