/** The passes that free states: those the simple pass removed, then those no longer reached. */
module RegexpReach {
  import opened Wrappers
  import opened RegexpLanguage
  import opened RegexpAutomaton
  import opened RegexpSimplePass
  import opened RegexpBypass

  ghost predicate ReachesWithin(es: set<Edge>, k: nat, q: nat, r: nat) {
    q == r || (k > 0 && exists p: nat, l :: (p, l, r) in es && ReachesWithin(es, k - 1, q, p))
  }

  ghost predicate Reaches(es: set<Edge>, q: nat, r: nat) {
    exists k: nat :: ReachesWithin(es, k, q, r)
  }

  lemma ReachesSelf(es: set<Edge>, q: nat)
    ensures Reaches(es, q, q)
  {
    assert ReachesWithin(es, 0, q, q);
  }

  lemma ReachesStep(es: set<Edge>, q: nat, p: nat, l: Label, r: nat)
    requires Reaches(es, q, p) && (p, l, r) in es
    ensures Reaches(es, q, r)
  {
    var k: nat :| ReachesWithin(es, k, q, p);
    assert ReachesWithin(es, k + 1, q, r);
  }

  lemma {:induction false} ReachesClosed(es: set<Edge>, keep: set<nat>, k: nat, q: nat, r: nat)
    requires q in keep && (forall e :: e in es && e.0 in keep ==> e.2 in keep)
    requires ReachesWithin(es, k, q, r)
    ensures r in keep
    decreases k
  {
    if q != r {
      var p: nat, l :| (p, l, r) in es && ReachesWithin(es, k - 1, q, p);
      ReachesClosed(es, keep, k - 1, q, p);
      var e: Edge := (p, l, r);
      assert e in es;
    }
  }

  // ------------------------------------------------------------------ marking

  ghost predicate OnlyReached(g: Slots, h: Slots) {
    |h| == |g| && forall i :: 0 <= i < |g| ==>
      h[i].Some? == g[i].Some? && (g[i].Some? ==> h[i].value == g[i].value.(reached := h[i].value.reached))
  }

  lemma OnlyReachedAbs(g: Slots, h: Slots)
    requires OnlyReached(g, h)
    ensures Abs(h) == Abs(g)
    ensures WellFormed(g) ==> WellFormed(h)
    ensures NoEpsilon(g) ==> NoEpsilon(h)
  {
    SameTransEdges(g, h);
    assert forall i: nat :: i in Finals(h) <==> i in Finals(g);
  }

  function WithReached(g: Slots, i: nat, m: Mark): Slots
    requires Present(g, i)
  {
    g[i := Some(g[i].value.(reached := m))]
  }

  predicate Seen(g: Slots, i: nat) {
    Present(g, i) && g[i].value.reached != MarkNormal
  }

  ghost function SeenSet(g: Slots): set<nat> {
    set i: nat | i < |g| && Seen(g, i)
  }

  ghost function Unvisited(g: Slots): set<nat> {
    set i: nat | i < |g| && g[i].Some? && g[i].value.reached != MarkVisited
  }

  predicate SuccessorsSeen(g: Slots, i: nat, j: nat)
    requires Present(g, i)
  {
    forall k :: 0 <= k < j && k < |g[i].value.trans| && g[i].value.trans[k].to >= 0 ==> Seen(g, g[i].value.trans[k].to)
  }

  /** Everything seen is reached from state 0; visited states have only seen successors. */
  ghost predicate Exploring(g: Slots, h: Slots) {
    && OnlyReached(g, h)
    && (forall i: nat :: Seen(h, i) ==> Reaches(Edges(g), 0, i))
  }

  lemma SeeOne(g: Slots, h: Slots, i: nat, j: nat)
    requires WellFormed(g) && Exploring(g, h) && Seen(h, i) && j < |h[i].value.trans| && h[i].value.trans[j].to >= 0
    ensures var to: nat := h[i].value.trans[j].to;
            Present(h, to) && Reaches(Edges(g), 0, to)
  {
    assert LiveTrans(g, i, j) && EdgeAt(g, i, j) in Edges(g);
    ReachesStep(Edges(g), 0, i, g[i].value.trans[j].atom, g[i].value.trans[j].to);
  }

  /** States already seen are untouched; the others seen since are marked start. */
  ghost predicate Marking(h: Slots, s: Slots) {
    && OnlyReached(h, s)
    && (forall j: nat :: Seen(h, j) ==> s[j] == h[j])
    && (forall j: nat :: Seen(s, j) && !Seen(h, j) ==> s[j].value.reached == MarkStart)
  }

  ghost predicate FreshMark(h: Slots, s: Slots, target: Option<nat>) {
    target.Some? ==> Present(s, target.value) && s[target.value].value.reached == MarkStart && !Seen(h, target.value)
  }

  lemma MarkStep(g: Slots, h: Slots, s: Slots, i: nat, j: nat)
    requires WellFormed(g) && Exploring(g, s) && Marking(h, s) && Seen(h, i) && SuccessorsSeen(s, i, j)
    requires j < |s[i].value.trans| && s[i].value.trans[j].to >= 0
    ensures var to: nat := s[i].value.trans[j].to;
            && Present(s, to)
            && (s[to].value.reached != MarkNormal ==> SuccessorsSeen(s, i, j + 1))
            && (s[to].value.reached == MarkNormal ==>
                  var s' := WithReached(s, to, MarkStart);
                  Exploring(g, s') && Marking(h, s') && SuccessorsSeen(s', i, j + 1) && s'[i].value == s[i].value
                  && FreshMark(h, s', Some(to)))
  {
    hide WellFormed, Reaches;
    var to: nat := s[i].value.trans[j].to;
    SeeOne(g, s, i, j);
    if s[to].value.reached == MarkNormal {
      var s' := WithReached(s, to, MarkStart);
      assert !Seen(s, to) && to != i;
      SeenMore(s, s', i, j);
    }
  }

  lemma SeenMore(s: Slots, s': Slots, i: nat, j: nat)
    requires OnlyReached(s, s') && Present(s, i) && SuccessorsSeen(s, i, j)
    requires forall k: nat :: Seen(s, k) ==> Seen(s', k)
    requires j < |s[i].value.trans| && s[i].value.trans[j].to >= 0 && Seen(s', s[i].value.trans[j].to)
    ensures SuccessorsSeen(s', i, j + 1)
  {
  }

  lemma SuccessorsSame(s: Slots, h: Slots, j: nat)
    requires OnlyReached(s, h) && (forall i: nat :: Seen(s, i) ==> Seen(h, i))
    requires Present(s, j) && SuccessorsSeen(s, j, |s[j].value.trans|)
    ensures SuccessorsSeen(h, j, |h[j].value.trans|)
  {
  }

  /** Visited states, `but` aside, have only seen successors. */
  ghost predicate AllVisitedSeen(s: Slots, but: nat) {
    forall j: nat :: Present(s, j) && j != but && s[j].value.reached == MarkVisited ==>
      SuccessorsSeen(s, j, |s[j].value.trans|)
  }

  lemma NoneVisited(s: Slots)
    requires forall j: nat :: Present(s, j) ==> s[j].value.reached != MarkVisited
    ensures AllVisitedSeen(s, |s|)
  {
  }

  lemma VisitedStarts(g: Slots, s: Slots, i: nat)
    requires Exploring(g, s) && Seen(s, i) && AllVisitedSeen(s, |s|)
    ensures Exploring(g, WithReached(s, i, MarkVisited)) && AllVisitedSeen(WithReached(s, i, MarkVisited), i)
  {
    hide WellFormed, Reaches;
    var h := WithReached(s, i, MarkVisited);
    forall j: nat | Present(h, j) && j != i && h[j].value.reached == MarkVisited
      ensures SuccessorsSeen(h, j, |h[j].value.trans|)
    {
      SuccessorsSame(s, h, j);
    }
  }

  /** After a turn of the exploring loop the invariants hold again, with one state more visited. */
  lemma VisitedKept(s: Slots, h: Slots, t: Slots, i: nat)
    requires Present(s, i) && s[i].value.reached == MarkStart && h == WithReached(s, i, MarkVisited)
    requires Marking(h, t) && SuccessorsSeen(t, i, |t[i].value.trans|) && AllVisitedSeen(h, i)
    ensures AllVisitedSeen(t, |t|)
    ensures Unvisited(t) < Unvisited(s)
  {
    forall j: nat | Present(t, j) && t[j].value.reached == MarkVisited && j != i
      ensures SuccessorsSeen(t, j, |t[j].value.trans|)
    {
      assert Seen(t, j) && Seen(h, j) && t[j] == h[j];
      SuccessorsSame(h, t, j);
    }
    assert i in Unvisited(s) && i !in Unvisited(t);
    forall j: nat | j in Unvisited(t)
      ensures j in Unvisited(s)
    {
      assert Seen(h, j) ==> t[j] == h[j];
    }
  }

  lemma EverythingVisited(s: Slots)
    requires AllVisitedSeen(s, |s|)
    requires forall i: nat :: Present(s, i) ==> s[i].value.reached != MarkStart
    ensures forall i: nat :: Seen(s, i) ==> SuccessorsSeen(s, i, |s[i].value.trans|)
  {
  }

  // ------------------------------------------------------------------ freeing

  /** The slots kept are those of `keep`, unchanged. */
  ghost predicate Freed(g: Slots, h: Slots, keep: set<nat>) {
    |h| == |g| && forall i: nat :: i < |g| ==> h[i] == if i in keep then g[i] else None
  }

  lemma FreedAbs(g: Slots, h: Slots, keep: set<nat>)
    requires Freed(g, h, keep)
    ensures forall e :: e in Edges(h) <==> e in Edges(g) && e.0 in keep
    ensures forall i :: i in Finals(h) <==> i in Finals(g) && i in keep
    ensures NoEpsilon(g) ==> NoEpsilon(h)
    ensures WellFormed(g) && (forall e :: e in Edges(g) && e.0 in keep ==> e.2 in keep) ==> WellFormed(h)
  {
    forall i: nat, k: nat | LiveTrans(h, i, k)
      ensures LiveTrans(g, i, k) && i in keep && EdgeAt(h, i, k) == EdgeAt(g, i, k)
    {}
    forall e | e in Edges(h)
      ensures e in Edges(g) && e.0 in keep
    {
      var k: nat :| LiveTrans(h, e.0, k) && EdgeAt(h, e.0, k) == e;
      assert LiveTrans(g, e.0, k) && EdgeAt(g, e.0, k) == e;
    }
    forall e | e in Edges(g) && e.0 in keep
      ensures e in Edges(h)
    {
      var k: nat :| LiveTrans(g, e.0, k) && EdgeAt(g, e.0, k) == e;
      assert LiveTrans(h, e.0, k) && EdgeAt(h, e.0, k) == e;
    }
    if WellFormed(g) && forall e :: e in Edges(g) && e.0 in keep ==> e.2 in keep {
      forall i: nat, k: nat | LiveTrans(h, i, k)
        ensures Present(h, h[i].value.trans[k].to)
      {
        assert EdgeAt(g, i, k) in Edges(g);
      }
    }
  }

  /** Freeing what the simple pass emptied changes nothing. */
  lemma FreedRemoved(g0: Slots, g: Slots, h: Slots)
    requires PassShape(g0, g, |g|)
    requires Freed(g, h, set i: nat | i < |g| && g[i].value.kind != UnreachState)
    ensures Abs(h) == Abs(g) && WellFormed(h) && Marked(h) == {}
    ensures forall i: nat :: i < |h| ==> (h[i].Some? <==> !Removed(g0, i))
  {
    var keep := set i: nat | i < |g| && g[i].value.kind != UnreachState;
    assert forall i: nat :: i < |g| ==> (i in keep <==> !Gone(g0, |g|, i));
    forall e | e in Edges(g)
      ensures e.0 in keep && e.2 in keep
    {
      var k: nat :| LiveTrans(g, e.0, k) && EdgeAt(g, e.0, k) == e;
    }
    FreedAbs(g, h, keep);
    assert Edges(h) == Edges(g);
    assert Finals(h) == Finals(g);
    assert forall i: nat :: i !in Marked(h);
  }

  lemma FreedUnreached(g: Slots, m: Slots, h: Slots)
    requires WellFormed(g) && NoEpsilon(g) && Exploring(g, m)
    requires forall i: nat :: Seen(m, i) ==> SuccessorsSeen(m, i, |m[i].value.trans|)
    requires Present(g, 0) ==> Seen(m, 0)
    requires Freed(m, h, SeenSet(m))
    ensures WellFormed(h) && NoEpsilon(h)
    ensures forall i: nat :: Present(h, i) ==> SameLanguage(Abs(g), Abs(h), i) && Present(g, i)
    ensures Present(g, 0) ==> forall i: nat :: Present(h, i) ==> Reaches(Edges(h), 0, i)
    ensures Present(h, 0) <==> Present(g, 0)
  {
    var keep := SeenSet(m);
    OnlyReachedAbs(g, m);
    forall e | e in Edges(m) && e.0 in keep
      ensures e.2 in keep
    {
      var k: nat :| LiveTrans(m, e.0, k) && EdgeAt(m, e.0, k) == e;
      assert SuccessorsSeen(m, e.0, |m[e.0].value.trans|);
    }
    FreedAbs(m, h, keep);
    forall i: nat
      ensures Present(h, i) <==> i in keep
      ensures Present(h, i) ==> SameLanguage(Abs(g), Abs(h), i)
      ensures Present(g, 0) && Reaches(Edges(g), 0, i) ==> i in keep
    {
      if i in keep { RestrictionSameLanguage(Abs(m), Abs(h), keep, i); }
      if Present(g, 0) && Reaches(Edges(g), 0, i) {
        var k: nat :| ReachesWithin(Edges(g), k, 0, i);
        ReachesClosed(Edges(g), keep, k, 0, i);
      }
    }
    if Present(g, 0) {
      forall i: nat | Present(h, i)
        ensures Reaches(Edges(h), 0, i)
      {
        var k: nat :| ReachesWithin(Edges(g), k, 0, i);
        ReachesRestricted(Edges(g), Edges(h), keep, k, 0, i);
      }
    }
  }

  /** The states left are the ones the automaton left still reaches. */
  lemma {:induction false} ReachesRestricted(es: set<Edge>, rs: set<Edge>, keep: set<nat>, k: nat, q: nat, r: nat)
    requires forall e :: e in rs <==> e in es && e.0 in keep
    requires forall i: nat :: Reaches(es, q, i) ==> i in keep
    requires ReachesWithin(es, k, q, r)
    ensures ReachesWithin(rs, k, q, r)
    decreases k
  {
    if q != r {
      var p: nat, l :| (p, l, r) in es && ReachesWithin(es, k - 1, q, p);
      ReachesRestricted(es, rs, keep, k - 1, q, p);
      var e: Edge := (p, l, r);
      assert Reaches(es, q, p) && e in rs;
    }
  }
}
