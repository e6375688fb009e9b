/** Where the transitions of the reduced automaton come from (regexp/xmlregexp.c): each one is a
    transition of the automaton that was built, with epsilons before it and behind it. */
module RegexpSources {
  import opened Wrappers
  import opened RegexpLanguage

  /** Epsilon transitions lead from `q` to `r`. */
  ghost predicate Walk(es: set<Edge>, q: nat, r: nat) {
    InClosure(es, q, r, {})
  }

  /** The transition from `p` to `r` extends to one from `q` to `t`. */
  ghost predicate Extends(es: set<Edge>, q: nat, p: nat, r: nat, t: nat) {
    Walk(es, q, p) && Walk(es, r, t)
  }

  ghost predicate Stems(es0: set<Edge>, e: Edge) {
    if e.1.None? then Walk(es0, e.0, e.2)
    else exists p: nat, r: nat :: Extends(es0, e.0, p, r, e.2) && (p, e.1, r) in es0
  }

  ghost predicate Derived(es0: set<Edge>, es: set<Edge>) {
    forall e :: e in es ==> Stems(es0, e)
  }

  lemma WalkNone(es: set<Edge>, q: nat)
    ensures Walk(es, q, q)
  {
    assert EpsilonReach(es, 0, q, q, {});
  }

  lemma WalkOne(es: set<Edge>, q: nat, r: nat)
    requires (q, None, r) in es
    ensures Walk(es, q, r)
  {
    assert EpsilonReach(es, 0, r, r, {});
    assert EpsilonReach(es, 1, q, r, {});
  }

  lemma {:induction false} WalkWithin(es: set<Edge>, k: nat, q: nat, r: nat, t: nat)
    requires EpsilonReach(es, k, q, r, {}) && Walk(es, r, t)
    ensures Walk(es, q, t)
    decreases k
  {
    if q != r {
      var v: nat :| (q, None, v) in es && EpsilonReach(es, k - 1, v, r, {});
      WalkWithin(es, k - 1, v, r, t);
      var j: nat :| EpsilonReach(es, j, v, t, {});
      assert EpsilonReach(es, j + 1, q, t, {});
    }
  }

  lemma WalkOn(es: set<Edge>, q: nat, r: nat, t: nat)
    requires Walk(es, q, r) && Walk(es, r, t)
    ensures Walk(es, q, t)
  {
    var k: nat :| EpsilonReach(es, k, q, r, {});
    WalkWithin(es, k, q, r, t);
  }

  lemma StemsItself(es: set<Edge>, e: Edge)
    requires e in es
    ensures Stems(es, e)
  {
    if e.1.None? {
      WalkOne(es, e.0, e.2);
    } else {
      WalkNone(es, e.0);
      WalkNone(es, e.2);
      assert Extends(es, e.0, e.0, e.2, e.2) && (e.0, e.1, e.2) in es;
    }
  }

  lemma FewerDerived(es0: set<Edge>, es: set<Edge>)
    requires es <= es0
    ensures Derived(es0, es)
  {
    forall e | e in es
      ensures Stems(es0, e)
    {
      StemsItself(es0, e);
    }
  }

  /** A walk over derived transitions is one over those they stem from. */
  lemma {:induction false} WalkStems(es0: set<Edge>, es: set<Edge>, k: nat, q: nat, r: nat, avoid: set<nat>)
    requires Derived(es0, es) && EpsilonReach(es, k, q, r, avoid)
    ensures Walk(es0, q, r)
    decreases k
  {
    if q == r {
      WalkNone(es0, q);
    } else {
      var v: nat :| (q, None, v) in es && EpsilonReach(es, k - 1, v, r, avoid);
      WalkStems(es0, es, k - 1, v, r, avoid);
      var e: Edge := (q, None, v);
      assert Stems(es0, e);
      WalkOn(es0, q, v, r);
    }
  }

  lemma {:induction false} StemsThrough(es0: set<Edge>, es1: set<Edge>, e: Edge)
    requires Derived(es0, es1) && Stems(es1, e)
    ensures Stems(es0, e)
  {
    if e.1.None? {
      var k: nat :| EpsilonReach(es1, k, e.0, e.2, {});
      WalkStems(es0, es1, k, e.0, e.2, {});
    } else {
      var p: nat, r: nat :| Extends(es1, e.0, p, r, e.2) && (p, e.1, r) in es1;
      var j: nat :| EpsilonReach(es1, j, e.0, p, {});
      var k: nat :| EpsilonReach(es1, k, r, e.2, {});
      WalkStems(es0, es1, j, e.0, p, {});
      WalkStems(es0, es1, k, r, e.2, {});
      var f: Edge := (p, e.1, r);
      assert Stems(es0, f);
      var p': nat, r': nat :| Extends(es0, p, p', r', r) && (p', e.1, r') in es0;
      WalkOn(es0, e.0, p, p');
      WalkOn(es0, r', r, e.2);
      assert Extends(es0, e.0, p', r', e.2) && (p', e.1, r') in es0;
    }
  }

  lemma DerivedThrough(es0: set<Edge>, es1: set<Edge>, es2: set<Edge>)
    requires Derived(es0, es1) && Derived(es1, es2)
    ensures Derived(es0, es2)
  {
    hide Stems;
    forall e | e in es2
      ensures Stems(es0, e)
    {
      StemsThrough(es0, es1, e);
    }
  }

  /** Turning the transitions into `x` to `y` follows the epsilon between them. */
  lemma {:induction false} EliminationDerived(es: set<Edge>, fs: set<Edge>, x: nat, y: nat)
    requires EliminatesEdges(es, fs, x, y)
    ensures Derived(es, fs)
  {
    WalkOne(es, x, y);
    forall e | e in fs
      ensures Stems(es, e)
    {
      if e in es {
        StemsItself(es, e);
      } else {
        assert (e.0, e.1, e.2) in fs;
        assert e.2 == y && (e.0, e.1, x) in es;
        WalkNone(es, e.0);
        if e.1.None? {
          WalkOne(es, e.0, x);
          WalkOn(es, e.0, x, y);
        } else {
          assert Extends(es, e.0, e.0, x, e.2) && (e.0, e.1, x) in es;
        }
      }
    }
  }

  /** The transitions copied to `s` stand behind its epsilon. */
  lemma {:induction false} BypassDerived(m: Nfa, n: Nfa, s: nat, t: nat)
    requires Bypasses(m, n, s, t)
    ensures Derived(m.edges, n.edges)
  {
    forall e | e in n.edges
      ensures Stems(m.edges, e)
    {
      if e in m.edges {
        StemsItself(m.edges, e);
      } else {
        var u: nat :| InClosure(m.edges, t, u, {s}) && (u, e.1, e.2) in m.edges;
        var k: nat :| EpsilonReach(m.edges, k, t, u, {s});
        ReachAvoidLess(m.edges, k, t, u, {}, {s});
        WalkOne(m.edges, s, t);
        WalkOn(m.edges, s, t, u);
        WalkNone(m.edges, e.2);
        assert Extends(m.edges, e.0, u, e.2, e.2) && (u, e.1, e.2) in m.edges;
      }
    }
  }

  // ------------------------------------------------------------------ all transitions there can be

  /** Among `n` states, the transitions that stem from `es`, epsilons left out. */
  ghost function Sources(es: set<Edge>, n: nat): set<Edge> {
    set q: nat, e, r: nat | q < n && e in es && e.1.Some? && r < n && Extends(es, q, e.0, e.2, r) :: (q, e.1, r)
  }

  lemma {:induction false} StemsInSources(es: set<Edge>, n: nat, e: Edge)
    requires Stems(es, e) && e.1.Some? && e.0 < n && e.2 < n
    ensures e in Sources(es, n)
  {
    var p: nat, r: nat :| Extends(es, e.0, p, r, e.2) && (p, e.1, r) in es;
    var f: Edge := (p, e.1, r);
    assert f in es && Extends(es, e.0, f.0, f.2, e.2);
  }
}
