/** xmlFAEliminateSimpleEpsilonTransitions on values: which states the pass removes, what one
    removal does to the automaton, and exactly when the pass keeps every state's language. */
module RegexpSimplePass {
  import opened Wrappers
  import opened RegexpLanguage
  import opened RegexpAutomaton
  import opened RegexpSources

  /** What the parser hands over: built by xmlRegStateAddTrans, nothing freed, only the first
      state typed as start. */
  ghost predicate Built(g: Slots) {
    && |g| > 0
    && AllPresent(g) && WellFormed(g) && Recorded(g)
    && (forall i :: 0 <= i < |g| ==> g[i].value.kind != UnreachState && g[i].value.mark == MarkNormal)
    && (forall i :: 0 < i < |g| ==> g[i].value.kind != StartState)
  }

  ghost predicate AllPresent(g: Slots) {
    forall i :: 0 <= i < |g| ==> g[i].Some? && forall p :: p in g[i].value.transTo ==> p < |g|
  }

  /** The state's only transition is a live epsilon to another state, and it may be removed. */
  predicate LoneEpsilon(g: Slots, x: nat) {
    && Present(g, x) && |g[x].value.trans| == 1
    && g[x].value.kind != UnreachState && g[x].value.kind != StartState
    && g[x].value.trans[0].atom == None && g[x].value.trans[0].to >= 0 && g[x].value.trans[0].to != x
  }

  function Target(g: Slots, x: nat): nat
    requires LoneEpsilon(g, x)
  {
    g[x].value.trans[0].to
  }

  /** The pass removes `x` unless it removed x's target earlier: turning x's transition then
      leaves the cancelled one behind, and `x` no longer has exactly one. */
  predicate Removed(g: Slots, x: nat) {
    LoneEpsilon(g, x) && !(Target(g, x) < x && Removed(g, Target(g, x)))
  }

  /** A final state is removed although its target does not accept the empty word. */
  ghost predicate Leaks(g: Slots, x: nat) {
    Removed(g, x) && g[x].value.kind == FinalState && !Accepts(Abs(g), Target(g, x), [])
  }

  // -------------------------------------------------------------- removing one state

  predicate Enters(ts: seq<Trans>, x: nat) {
    exists k :: 0 <= k < |ts| && ts[k].to == x
  }

  /** A state with a transition into `x` keeps it, or has more than one entry from then on. */
  predicate Grown(before: seq<Trans>, after: seq<Trans>, x: nat) {
    after == before || (Enters(before, x) && |after| >= 2)
  }

  /** Between `g0` and `g` some transitions into `x` have been turned to `y`. */
  ghost predicate Redirecting(g0: Slots, g: Slots, x: nat, y: nat) {
    && RedirectShape(g0, g, x, y)
    && WellFormed(g) && Recorded(g)
    && RedirectEdges(Edges(g0), Edges(g), x, y)
    && Finals(g) == Finals(g0)
  }

  ghost predicate RedirectShape(g0: Slots, g: Slots, x: nat, y: nat) {
    && |g| == |g0| && AllPresent(g0) && AllPresent(g)
    && x < |g| && y < |g| && x != y
    && (forall i :: 0 <= i < |g| ==> g[i].value.kind == g0[i].value.kind && g[i].value.mark == g0[i].value.mark)
    && g[x].value == g0[x].value
    && (forall i :: 0 <= i < |g| ==> Grown(g0[i].value.trans, g[i].value.trans, x))
  }

  ghost predicate RedirectEdges(es0: set<Edge>, es: set<Edge>, x: nat, y: nat) {
    && (forall e :: e in es ==> e in es0 || (e.2 == y && (e.0, e.1, x) in es0))
    && (forall e :: e in es0 && e.2 != x ==> e in es)
    && (forall e :: e in es0 && e.2 == x ==> e in es || (e.0, e.1, y) in es)
  }

  /** One turn of the inner loop: transition `k` of `p` is cancelled and added again towards `y`. */
  function Turned(g: Slots, p: nat, k: nat, y: nat): Slots
    requires Present(g, p) && Present(g, y) && k < |g[p].value.trans|
  {
    WithTrans(Retarget(g, p, k, -1), p, g[p].value.trans[k].atom, y)
  }

  lemma TurnShape(g: Slots, p: nat, k: nat, y: nat)
    requires Present(g, p) && Present(g, y) && k < |g[p].value.trans|
    ensures var h := Turned(g, p, k, y);
            && |h| == |g|
            && (forall i :: 0 <= i < |g| ==> h[i].Some? == g[i].Some?)
            && (forall i :: 0 <= i < |g| && g[i].Some? ==>
                  h[i].value.kind == g[i].value.kind && h[i].value.mark == g[i].value.mark
                  && (i != y ==> h[i].value.transTo == g[i].value.transTo)
                  && (i != p ==> h[i].value.trans == g[i].value.trans))
            && (h[y].value.transTo == g[y].value.transTo || h[y].value.transTo == g[y].value.transTo + [p])
            && |h[p].value.trans| >= 2 && |h[p].value.trans| >= |g[p].value.trans|
            && (forall j :: 0 <= j < |h[p].value.trans| ==>
                  if j == k then h[p].value.trans[j].to == -1
                  else if j < |g[p].value.trans| then h[p].value.trans[j] == g[p].value.trans[j]
                  else h[p].value.trans[j].to == y)
  {
    var c := Retarget(g, p, k, -1);
    WithTransShape(c, p, g[p].value.trans[k].atom, y);
    assert c[p].value.trans[k].to == -1;
    if |g[p].value.trans| == 1 {
      assert !HasTrans(c[p].value, g[p].value.trans[k].atom, y);
    }
  }

  lemma TurnEdges(es0: set<Edge>, es: set<Edge>, es': set<Edge>, x: nat, y: nat, p: nat, a: Label)
    requires x != y && RedirectEdges(es0, es, x, y) && (p, a, x) in es
    requires es - {(p, a, x)} + {(p, a, y)} <= es' <= es + {(p, a, y)}
    ensures RedirectEdges(es0, es', x, y)
  {
    forall e | e in es0
      ensures e.2 != x ==> e in es'
      ensures e.2 == x ==> e in es' || (e.0, e.1, y) in es'
    {
      if e.2 == x && e !in es { assert (e.0, e.1, y) in es'; }
    }
  }

  lemma TurnOneShape(g0: Slots, g: Slots, x: nat, y: nat, p: nat, k: nat)
    requires RedirectShape(g0, g, x, y)
    requires LiveTrans(g, p, k) && p != x && Enters(g0[p].value.trans, x)
    ensures RedirectShape(g0, Turned(g, p, k, y), x, y)
  {
    TurnShape(g, p, k, y);
    var h := Turned(g, p, k, y);
    forall i | 0 <= i < |g|
      ensures Grown(g0[i].value.trans, h[i].value.trans, x)
    {
      assert Grown(g0[i].value.trans, g[i].value.trans, x);
    }
  }

  lemma TurnOneEdges(g: Slots, y: nat, p: nat, k: nat)
    requires LiveTrans(g, p, k) && Present(g, y)
    ensures var e := EdgeAt(g, p, k); var h := Turned(g, p, k, y);
            Edges(g) - {e} + {(p, e.1, y)} <= Edges(h) <= Edges(g) + {(p, e.1, y)}
    ensures Finals(Turned(g, p, k, y)) == Finals(g)
    ensures WellFormed(g) ==> WellFormed(Turned(g, p, k, y))
    ensures Recorded(g) ==> Recorded(Turned(g, p, k, y))
  {
    var a := g[p].value.trans[k].atom;
    var c := Retarget(g, p, k, -1);
    CancelEdges(g, p, k, -1);
    WithTransEdges(c, p, a, y);
    WithTransKeeps(c, p, a, y);
  }

  lemma TurnOne(g0: Slots, g: Slots, x: nat, y: nat, p: nat, k: nat)
    requires Redirecting(g0, g, x, y)
    requires LiveTrans(g, p, k) && g[p].value.trans[k].to == x
    requires !Enters(g0[x].value.trans, x)
    ensures Redirecting(g0, Turned(g, p, k, y), x, y)
  {
    var e := EdgeAt(g, p, k);
    TurnedFrom(g0, g, x, y, e);
    TurnOneShape(g0, g, x, y, p, k);
    TurnOneEdges(g, y, p, k);
    TurnEdges(Edges(g0), Edges(g), Edges(Turned(g, p, k, y)), x, y, p, e.1);
  }

  lemma TurnedFrom(g0: Slots, g: Slots, x: nat, y: nat, e: Edge)
    requires Redirecting(g0, g, x, y) && e in Edges(g) && e.2 == x
    ensures Present(g0, e.0) && Enters(g0[e.0].value.trans, x)
  {
    assert e in Edges(g0);
    var j: nat :| LiveTrans(g0, e.0, j) && EdgeAt(g0, e.0, j) == e;
    assert g0[e.0].value.trans[j].to == x;
  }

  ghost predicate OthersKept(g: Slots, h: Slots, p: nat) {
    |h| == |g| && forall i :: 0 <= i < |g| && i != p && g[i].Some? && h[i].Some? ==> h[i].value.trans == g[i].value.trans
  }

  /** Positions below `j`, and those added beyond `limit`, do not enter `x`. */
  ghost predicate Scanned(ts: seq<Trans>, x: nat, j: nat, limit: nat) {
    limit <= |ts| && forall k :: 0 <= k < |ts| && (k < j || k >= limit) ==> ts[k].to != x
  }

  lemma RedirectStarts(g: Slots, x: nat, y: nat)
    requires AllPresent(g) && WellFormed(g) && Recorded(g) && LoneEpsilon(g, x) && Target(g, x) == y
    ensures Redirecting(g, g, x, y) && !Enters(g[x].value.trans, x)
    ensures forall m :: 0 <= m < |g[x].value.transTo| ==> g[x].value.transTo[m] < |g|
  {
    assert LiveTrans(g, x, 0);
    forall m | 0 <= m < |g[x].value.transTo|
      ensures g[x].value.transTo[m] < |g|
    {
      assert g[x].value.transTo[m] in g[x].value.transTo;
    }
  }

  lemma RedirectEnds(g: Slots, x: nat)
    requires AllPresent(g) && Recorded(g) && x < |g|
    requires forall m :: 0 <= m < |g[x].value.transTo| ==> g[x].value.transTo[m] < |g| && !Enters(g[g[x].value.transTo[m]].value.trans, x)
    ensures forall i :: 0 <= i < |g| ==> !Enters(g[i].value.trans, x)
  {
    forall i | 0 <= i < |g|
      ensures !Enters(g[i].value.trans, x)
    {
      if k :| 0 <= k < |g[i].value.trans| && g[i].value.trans[k].to == x {
        assert LiveTrans(g, i, k);
        assert i in g[x].value.transTo;
      }
    }
  }

  lemma TurnStep(g0: Slots, g: Slots, x: nat, y: nat, p: nat, k: nat, limit: nat)
    requires Redirecting(g0, g, x, y)
    requires p < |g| && k < |g[p].value.trans| && g[p].value.trans[k].to == x
    requires !Enters(g0[x].value.trans, x)
    requires Scanned(g[p].value.trans, x, k, limit)
    ensures var h := Turned(g, p, k, y);
            Redirecting(g0, h, x, y) && OthersKept(g, h, p) && k < |h[p].value.trans|
            && Scanned(h[p].value.trans, x, k + 1, limit)
  {
    TurnShape(g, p, k, y);
    TurnOne(g0, g, x, y, p, k);
  }

  /** The whole removal: every transition into `x` turned, finality handed on, `x` emptied. */
  function Emptied(g: Slots, x: nat, y: nat): Slots
    requires Present(g, x) && Present(g, y)
  {
    var h := if g[x].value.kind == FinalState then g[y := Some(g[y].value.(kind := FinalState))] else g;
    h[x := Some(h[x].value.(trans := [], kind := UnreachState))]
  }

  lemma EmptiedShape(g: Slots, x: nat, y: nat)
    requires Present(g, x) && Present(g, y) && x != y && AllPresent(g)
    ensures var h := Emptied(g, x, y);
            && AllPresent(h) && |h| == |g|
            && h[x].value.trans == [] && h[x].value.kind == UnreachState
            && (forall i :: 0 <= i < |g| ==> h[i].value.transTo == g[i].value.transTo && h[i].value.mark == g[i].value.mark)
            && (forall i :: 0 <= i < |g| && i != x ==>
                  h[i].value.trans == g[i].value.trans && (h[i].value.kind == g[i].value.kind || h[i].value.kind == FinalState))
            && Finals(h) == Finals(g) - {x} + (if x in Finals(g) then {y} else {})
  {
  }

  lemma EmptiedEdges(g: Slots, x: nat, y: nat)
    requires Present(g, x) && Present(g, y) && x != y && AllPresent(g)
    requires forall i: nat, k: nat :: LiveTrans(g, i, k) ==> g[i].value.trans[k].to != x
    ensures forall e :: e in Edges(Emptied(g, x, y)) <==> e in Edges(g) && e.0 != x
    ensures forall e :: e in Edges(g) ==> e.2 != x
    ensures WellFormed(g) ==> WellFormed(Emptied(g, x, y))
    ensures Recorded(g) ==> Recorded(Emptied(g, x, y))
  {
    var h := Emptied(g, x, y);
    EmptiedShape(g, x, y);
    forall i: nat, k: nat | LiveTrans(h, i, k)
      ensures i != x && LiveTrans(g, i, k) && h[i].value.trans[k] == g[i].value.trans[k]
    {}
    forall e | e in Edges(h)
      ensures e in Edges(g) && e.0 != x
    {
      var k: nat :| LiveTrans(h, e.0, k) && EdgeAt(h, e.0, k) == e;
      assert LiveTrans(g, e.0, k) && EdgeAt(g, e.0, k) == e;
    }
    forall e | e in Edges(g)
      ensures e.2 != x && (e.0 != x ==> e in Edges(h))
    {
      var k: nat :| LiveTrans(g, e.0, k) && EdgeAt(g, e.0, k) == e;
      if e.0 != x { assert LiveTrans(h, e.0, k) && EdgeAt(h, e.0, k) == e; }
    }
  }

  lemma LoneEdge(g: Slots, x: nat)
    requires LoneEpsilon(g, x)
    ensures forall e :: e in Edges(g) && e.0 == x <==> e == (x, None, Target(g, x))
  {
    assert LiveTrans(g, x, 0) && EdgeAt(g, x, 0) == (x, None, Target(g, x));
    forall e | e in Edges(g) && e.0 == x
      ensures e == (x, None, Target(g, x))
    {
      var k: nat :| LiveTrans(g, e.0, k) && EdgeAt(g, e.0, k) == e;
    }
  }

  lemma RedirectedEliminates(es0: set<Edge>, es: set<Edge>, fs: set<Edge>, x: nat, y: nat)
    requires x != y && RedirectEdges(es0, es, x, y)
    requires forall e :: e in es ==> e.2 != x
    requires forall e :: e in fs <==> e in es && e.0 != x
    requires forall e :: e in es0 && e.0 == x <==> e == (x, None, y)
    ensures EliminatesEdges(es0, fs, x, y)
  {
    forall p, l | (p, l, x) in es0 && p != x
      ensures (p, l, y) in fs
    {
      var e: Edge := (p, l, x);
      assert e in es0 && e.2 == x;
    }
    forall p, l, r | (p, l, r) in es0 && p != x && r != x
      ensures (p, l, r) in fs
    {
      var e: Edge := (p, l, r);
      assert e in es0;
    }
    forall p, l, r | (p, l, r) in fs && (p, l, r) !in es0
      ensures r == y && (p, l, x) in es0
    {
      var e: Edge := (p, l, r);
      assert e in es;
    }
  }

  lemma EmptiedAbs(g0: Slots, g: Slots, x: nat, y: nat)
    requires Redirecting(g0, g, x, y)
    requires LoneEpsilon(g0, x) && Target(g0, x) == y
    requires forall i: nat, k: nat :: LiveTrans(g, i, k) ==> g[i].value.trans[k].to != x
    ensures Eliminates(Abs(g0), Abs(Emptied(g, x, y)), x, y)
    ensures WellFormed(Emptied(g, x, y)) && Recorded(Emptied(g, x, y)) && AllPresent(Emptied(g, x, y))
  {
    hide RedirectEdges, EliminatesEdges, Grown, Edges, WellFormed, Recorded;
    EmptiedShape(g, x, y);
    EmptiedEdges(g, x, y);
    LoneEdge(g0, x);
    RedirectedEliminates(Edges(g0), Edges(g), Edges(Emptied(g, x, y)), x, y);
  }

  // -------------------------------------------------------------- the pass so far

  predicate Gone(g0: Slots, n: nat, i: nat) {
    i < n && Removed(g0, i)
  }

  ghost predicate PassShape(g0: Slots, g: Slots, n: nat) {
    && Built(g0) && |g| == |g0| && n <= |g|
    && AllPresent(g) && WellFormed(g) && Recorded(g)
    && (n == 0 ==> g == g0)
    && PassKinds(g0, g, n)
    && PassTrans(g0, g, n)
    && PassTargets(g0, g, n)
  }

  ghost predicate PassKinds(g0: Slots, g: Slots, n: nat)
    requires |g| == |g0| && AllPresent(g0) && AllPresent(g)
  {
    && (forall i: nat :: i < |g| ==> g[i].value.mark == MarkNormal)
    && (forall i: nat :: i < |g| && Gone(g0, n, i) ==> g[i].value.kind == UnreachState && g[i].value.trans == [])
    && (forall i: nat :: i < |g| && !Gone(g0, n, i) ==>
          g[i].value.kind == g0[i].value.kind || g[i].value.kind == FinalState)
  }

  /** A transition list is as built, or has at least two entries; a lone epsilon's is as built
      until its target is removed. */
  ghost predicate PassTrans(g0: Slots, g: Slots, n: nat)
    requires |g| == |g0| && AllPresent(g0) && AllPresent(g)
  {
    forall i: nat :: i < |g| && !Gone(g0, n, i) ==> PassTransOf(g0, n, i, g[i].value.trans)
  }

  predicate PassTransOf(g0: Slots, n: nat, i: nat, ts: seq<Trans>)
    requires Present(g0, i)
  {
    && (ts == g0[i].value.trans || (|ts| >= 2 && |g0[i].value.trans| >= 1))
    && (LoneEpsilon(g0, i) ==> (ts == g0[i].value.trans <==> !Gone(g0, n, Target(g0, i))))
  }

  ghost predicate PassTargets(g0: Slots, g: Slots, n: nat) {
    forall i: nat, k: nat :: LiveTrans(g, i, k) ==> !Gone(g0, n, g[i].value.trans[k].to)
  }

  /** The pass's own test agrees with `Removed`. */
  lemma PassDecides(g0: Slots, g: Slots, n: nat)
    requires PassShape(g0, g, n) && n < |g|
    ensures LoneEpsilon(g, n) <==> Removed(g0, n)
    ensures LoneEpsilon(g, n) ==> g[n].value.trans == g0[n].value.trans && Target(g, n) == Target(g0, n)
                                  && !Gone(g0, n, Target(g0, n)) && Target(g, n) < |g0|
    ensures n in Finals(g0) ==> n in Finals(g)
  {
    assert LoneEpsilon(g, n) ==> LiveTrans(g, n, 0);
    assert !Gone(g0, n, n) && PassTransOf(g0, n, n, g[n].value.trans);
  }

  lemma PassSkips(g0: Slots, g: Slots, n: nat)
    requires PassShape(g0, g, n) && n < |g| && !LoneEpsilon(g, n)
    ensures PassShape(g0, g, n + 1)
    ensures forall i: nat :: Gone(g0, n + 1, i) <==> Gone(g0, n, i)
  {
    PassDecides(g0, g, n);
    assert forall i: nat :: Gone(g0, n + 1, i) <==> Gone(g0, n, i);
    forall i: nat | i < |g| && !Gone(g0, n + 1, i)
      ensures PassTransOf(g0, n + 1, i, g[i].value.trans)
    {
      assert PassTransOf(g0, n, i, g[i].value.trans);
    }
  }

  lemma StillLone(g0: Slots, n: nat, i: nat, before: seq<Trans>, after: seq<Trans>)
    requires Present(g0, i) && Removed(g0, n) && i != n
    requires PassTransOf(g0, n, i, before) && Grown(before, after, n) && !Enters(after, n)
    ensures PassTransOf(g0, n + 1, i, after)
  {
    if LoneEpsilon(g0, i) && Target(g0, i) == n {
      assert Gone(g0, n + 1, n);
      assert g0[i].value.trans[0].to == n;
      assert Enters(g0[i].value.trans, n);
    }
  }

  lemma RemovesAbs(g: Slots, r: Slots, n: nat)
    requires LoneEpsilon(g, n) && Redirecting(g, r, n, Target(g, n))
    requires forall i :: 0 <= i < |r| ==> !Enters(r[i].value.trans, n)
    ensures var h := Emptied(r, n, Target(g, n));
            Eliminates(Abs(g), Abs(h), n, Target(g, n)) && WellFormed(h) && Recorded(h) && AllPresent(h)
  {
    forall i: nat, k: nat | LiveTrans(r, i, k)
      ensures r[i].value.trans[k].to != n
    {
      assert !Enters(r[i].value.trans, n);
    }
    EmptiedAbs(g, r, n, Target(g, n));
  }

  lemma RemovesTrans(g0: Slots, g: Slots, r: Slots, n: nat, i: nat)
    requires Built(g0) && |g| == |g0| && AllPresent(g) && PassTrans(g0, g, n)
    requires Removed(g0, n) && RedirectShape(g, r, n, Target(g0, n))
    requires i < |g| && !Enters(r[i].value.trans, n) && !Gone(g0, n + 1, i)
    ensures PassTransOf(g0, n + 1, i, Emptied(r, n, Target(g0, n))[i].value.trans)
  {
    assert i != n && !Gone(g0, n, i);
    EmptiedShape(r, n, Target(g0, n));
    StillLone(g0, n, i, g[i].value.trans, r[i].value.trans);
  }

  lemma RemovesKinds(g0: Slots, g: Slots, r: Slots, n: nat)
    requires Built(g0) && |g| == |g0| && AllPresent(g) && PassKinds(g0, g, n)
    requires Removed(g0, n) && RedirectShape(g, r, n, Target(g0, n)) && !Gone(g0, n, Target(g0, n))
    ensures PassKinds(g0, Emptied(r, n, Target(g0, n)), n + 1)
  {
    EmptiedShape(r, n, Target(g0, n));
    forall i: nat | Gone(g0, n, i) && i < |g|
      ensures r[i].value.trans == []
    {
      assert Grown(g[i].value.trans, r[i].value.trans, n);
    }
  }

  lemma PassRemoves(g0: Slots, g: Slots, r: Slots, n: nat)
    requires PassShape(g0, g, n) && n < |g| && LoneEpsilon(g, n)
    requires Redirecting(g, r, n, Target(g, n))
    requires forall i :: 0 <= i < |r| ==> !Enters(r[i].value.trans, n)
    ensures PassShape(g0, Emptied(r, n, Target(g, n)), n + 1)
    ensures Eliminates(Abs(g), Abs(Emptied(r, n, Target(g, n))), n, Target(g, n))
  {
    hide WellFormed, Recorded, RedirectEdges, EliminatesEdges, Finals;
    var h := Emptied(r, n, Target(g, n));
    PassDecides(g0, g, n);
    RemovesAbs(g, r, n);
    assert PassKinds(g0, h, n + 1) by { RemovesKinds(g0, g, r, n); }
    assert PassTrans(g0, h, n + 1) by {
      forall i: nat | i < |h| && !Gone(g0, n + 1, i)
        ensures PassTransOf(g0, n + 1, i, h[i].value.trans)
      {
        RemovesTrans(g0, g, r, n, i);
      }
    }
    assert PassTargets(g0, h, n + 1) by {
      forall i: nat, k: nat | LiveTrans(h, i, k)
        ensures !Gone(g0, n + 1, h[i].value.trans[k].to)
      {
        TurnedTarget(g0, g, r, n, i, k);
      }
    }
  }

  lemma TurnedTarget(g0: Slots, g: Slots, r: Slots, n: nat, i: nat, k: nat)
    requires PassShape(g0, g, n) && n < |g| && LoneEpsilon(g, n)
    requires Redirecting(g, r, n, Target(g, n))
    requires forall i :: 0 <= i < |r| ==> !Enters(r[i].value.trans, n)
    requires LiveTrans(Emptied(r, n, Target(g, n)), i, k)
    ensures !Gone(g0, n + 1, Emptied(r, n, Target(g, n))[i].value.trans[k].to)
  {
    PassDecides(g0, g, n);
    EmptiedShape(r, n, Target(g, n));
    assert LiveTrans(r, i, k) && !Enters(r[i].value.trans, n);
    var e := EdgeAt(r, i, k);
    assert e in Edges(r);
    if e in Edges(g) {
      var j: nat :| LiveTrans(g, e.0, j) && EdgeAt(g, e.0, j) == e;
    }
  }

  // -------------------------------------------------------------- what the pass means

  ghost predicate NoLeak(g0: Slots, n: nat) {
    forall x: nat :: x < n ==> !Leaks(g0, x)
  }

  ghost predicate Survives(g0: Slots, n: nat, q: nat) {
    q < |g0| && !Gone(g0, n, q)
  }

  ghost predicate PassMeaning(g0: Slots, g: Slots, n: nat) {
    && (forall q: nat, w: seq<Atom> :: Survives(g0, n, q) && Accepts(Abs(g0), q, w) ==> Accepts(Abs(g), q, w))
    && (NoLeak(g0, n) ==> forall q: nat :: Survives(g0, n, q) ==> SameLanguage(Abs(g0), Abs(g), q))
    && (!NoLeak(g0, n) ==>
          exists q: nat :: Survives(g0, n, q) && Accepts(Abs(g), q, []) && !Accepts(Abs(g0), q, []))
  }

  lemma PassStarts(g: Slots)
    requires Built(g)
    ensures PassShape(g, g, 0) && PassMeaning(g, g, 0)
  {
  }

  lemma MeaningSkips(g0: Slots, g: Slots, n: nat)
    requires PassShape(g0, g, n) && n < |g| && !LoneEpsilon(g, n)
    requires PassMeaning(g0, g, n)
    ensures PassMeaning(g0, g, n + 1)
  {
    hide PassKinds, PassTrans, PassTargets, AcceptsWithin, Accepts, WellFormed, Recorded, AllPresent, Built, SameLanguage;
    PassDecides(g0, g, n);
    assert NoLeak(g0, n + 1) <==> NoLeak(g0, n);
    assert forall q: nat :: Survives(g0, n + 1, q) <==> Survives(g0, n, q);
  }

  lemma MeaningRemoves(g0: Slots, g: Slots, h: Slots, n: nat)
    requires PassShape(g0, g, n) && n < |g| && LoneEpsilon(g, n)
    requires Eliminates(Abs(g), Abs(h), n, Target(g, n))
    requires PassMeaning(g0, g, n)
    ensures PassMeaning(g0, h, n + 1)
  {
    hide PassKinds, PassTrans, PassTargets, AcceptsWithin, WellFormed, Recorded, AllPresent, Built, RedirectEdges, EliminatesEdges;
    var y := Target(g, n);
    PassDecides(g0, g, n);
    assert Survives(g0, n, y) && Survives(g0, n, n);
    assert forall q: nat :: Survives(g0, n + 1, q) <==> Survives(g0, n, q) && q != n;
    forall q: nat, w: seq<Atom> | Survives(g0, n + 1, q) && Accepts(Abs(g0), q, w)
      ensures Accepts(Abs(h), q, w)
    {
      StandIn(g, h, n, q, w);
    }
    LoneAccepts(g0, n);
    if NoLeak(g0, n + 1) {
      assert NoLeak(g0, n) && !Leaks(g0, n);
      if n in Finals(g) {
        AcceptsFinal(Abs(g), n);
        assert Accepts(Abs(g0), n, []);
        assert Accepts(Abs(g0), y, []);
      }
      forall q: nat | Survives(g0, n + 1, q)
        ensures SameLanguage(Abs(g0), Abs(h), q)
      {
        EliminationSameLanguage(Abs(g), Abs(h), n, y, q);
        SameLanguageTransitive(Abs(g0), Abs(g), Abs(h), q);
      }
    } else if NoLeak(g0, n) {
      assert Leaks(g0, n) && n in Finals(g0) && y in Abs(h).finals;
      AcceptsFinal(Abs(h), y);
    } else {
      var q: nat :| Survives(g0, n, q) && Accepts(Abs(g), q, []) && !Accepts(Abs(g0), q, []);
      StandIn(g, h, n, q, []);
      var z := if q == n then y else q;
      assert Survives(g0, n + 1, z) && Accepts(Abs(h), z, []) && !Accepts(Abs(g0), z, []);
    }
  }

  lemma StandIn(g: Slots, h: Slots, n: nat, q: nat, w: seq<Atom>)
    requires LoneEpsilon(g, n) && Eliminates(Abs(g), Abs(h), n, Target(g, n))
    requires Accepts(Abs(g), q, w)
    ensures Accepts(Abs(h), if q == n then Target(g, n) else q, w)
  {
    var k: nat :| AcceptsWithin(Abs(g), k, q, w);
    EliminationKeeps(Abs(g), Abs(h), n, Target(g, n), k, q, w);
  }

  /** A lone epsilon passes acceptance both ways, finality of the state itself aside. */
  lemma LoneAccepts(g: Slots, x: nat)
    requires LoneEpsilon(g, x)
    ensures Accepts(Abs(g), Target(g, x), []) ==> Accepts(Abs(g), x, [])
    ensures Accepts(Abs(g), x, []) ==> g[x].value.kind == FinalState || Accepts(Abs(g), Target(g, x), [])
  {
    var y := Target(g, x);
    assert LiveTrans(g, x, 0) && EdgeAt(g, x, 0) == (x, None, y);
    if Accepts(Abs(g), y, []) { AcceptsEpsilon(Abs(g), x, y, []); }
    if k: nat :| AcceptsWithin(Abs(g), k, x, []) {
      if x !in Finals(g) {
        var r :| (x, None, r) in Edges(g) && AcceptsWithin(Abs(g), k - 1, r, []);
        var e: Edge := (x, None, r);
        var j: nat :| LiveTrans(g, e.0, j) && EdgeAt(g, e.0, j) == e;
      }
    }
  }

  /** Every surviving state keeps its language if and only if no removed final state hands its
      finality to a state that did not accept the empty word. */
  lemma PassExact(g0: Slots, g: Slots)
    requires PassMeaning(g0, g, |g0|)
    ensures NoLeak(g0, |g0|) <==>
            forall q: nat :: Survives(g0, |g0|, q) ==> SameLanguage(Abs(g0), Abs(g), q)
  {
  }

  /** The pass makes its eliminations in order, of just the states it removes. */
  ghost predicate Eliminated(g0: Slots, n: nat, m: Nfa)
    decreases n
  {
    if n == 0 then m == Abs(g0)
    else
      var x: nat := n - 1;
      if Removed(g0, x) then exists m0 :: Eliminated(g0, x, m0) && Eliminates(m0, m, x, Target(g0, x))
      else Eliminated(g0, x, m)
  }

  lemma NothingEliminated(g: Slots)
    ensures Eliminated(g, 0, Abs(g))
  {
  }

  lemma EliminatedNext(g0: Slots, n: nat, m0: Nfa, m: Nfa)
    requires Eliminated(g0, n, m0)
    requires if Removed(g0, n) then Eliminates(m0, m, n, Target(g0, n)) else m == m0
    ensures Eliminated(g0, n + 1, m)
  {
  }

  /** What is left after the pass stems from what was built. */
  lemma {:induction false} EliminatedDerived(g0: Slots, n: nat, m: Nfa)
    requires Eliminated(g0, n, m)
    ensures Derived(Edges(g0), m.edges)
    decreases n
  {
    hide Derived, EliminatesEdges, Edges;
    if n == 0 {
      FewerDerived(Edges(g0), m.edges);
    } else if Removed(g0, n - 1) {
      var x: nat := n - 1;
      var m0 :| Eliminated(g0, x, m0) && Eliminates(m0, m, x, Target(g0, x));
      EliminatedDerived(g0, x, m0);
      EliminationDerived(m0.edges, m.edges, x, Target(g0, x));
      DerivedThrough(Edges(g0), m0.edges, m.edges);
    } else {
      EliminatedDerived(g0, n - 1, m);
    }
  }

  lemma EmptiedFresh(g: Slots, x: nat, y: nat)
    requires Present(g, x) && Present(g, y) && Fresh(g)
    ensures Fresh(Emptied(g, x, y))
  {
    var h := Emptied(g, x, y);
    forall i: nat, k: nat | Present(h, i) && k < |h[i].value.trans|
      ensures FreshTrans(h[i].value.trans[k])
    {
      assert i != x && h[i].value.trans == g[i].value.trans;
    }
  }

  lemma TurnedFresh(g: Slots, p: nat, k: nat, y: nat)
    requires Present(g, p) && Present(g, y) && k < |g[p].value.trans| && Fresh(g)
    ensures Fresh(Turned(g, p, k, y))
  {
    RetargetFresh(g, p, k, -1);
    WithTransFresh(Retarget(g, p, k, -1), p, g[p].value.trans[k].atom, y);
  }

  /** 0 -a-> 1, 0 -b-> 2, an epsilon 1 -> 2, and 2 -c-> 3, with 1 and 3 final. */
  function Leaky(a: Atom, b: Atom, c: Atom): Slots {
    [ Some(State(StartState, MarkNormal, MarkNormal, [Trans(Some(a), 1, 0), Trans(Some(b), 2, 0)], [])),
      Some(State(FinalState, MarkNormal, MarkNormal, [Trans(None, 2, 0)], [0])),
      Some(State(TransState, MarkNormal, MarkNormal, [Trans(Some(c), 3, 0)], [0, 1])),
      Some(State(FinalState, MarkNormal, MarkNormal, [], [2])) ]
  }

  lemma LeakySize(a: Atom, b: Atom, c: Atom)
    ensures |Leaky(a, b, c)| == 4
  {
  }

  lemma LeakyBuilt(a: Atom, b: Atom, c: Atom)
    ensures var g := Leaky(a, b, c);
            && Built(g) && (forall x: nat :: Removed(g, x) <==> x == 1) && Target(g, 1) == 2
            && (0, Some(b), 2) in Edges(g) && Finals(g) == {1, 3}
  {
    var g := Leaky(a, b, c);
    assert LiveTrans(g, 0, 1) && EdgeAt(g, 0, 1) == (0, Some(b), 2);
    assert !LoneEpsilon(g, 0) && LoneEpsilon(g, 1) && !LoneEpsilon(g, 2) && !LoneEpsilon(g, 3);
  }

  /** A leak shows in the start state: on this automaton the pass makes `b` accepted. */
  lemma {:induction false} LeakExample(a: Atom, b: Atom, c: Atom, m: Nfa)
    requires a != b && Eliminated(Leaky(a, b, c), 4, m)
    ensures Built(Leaky(a, b, c)) && !Accepts(Abs(Leaky(a, b, c)), 0, [b]) && Accepts(m, 0, [b])
  {
    hide Built, Edges, Finals, Leaky, Removed, AcceptsWithin, EliminatesEdges;
    var g := Leaky(a, b, c);
    LeakyBuilt(a, b, c);
    LeakyRefuses(a, b, c);
    assert Eliminated(g, 3, m) && Eliminated(g, 2, m);
    var m0 :| Eliminated(g, 1, m0) && Eliminates(m0, m, 1, 2);
    assert Eliminated(g, 0, m0);
    EliminationEdge(m0, m, 1, 2, 0, b);
    AcceptsFinal(m, 2);
    assert [b][1..] == [];
    AcceptsAtom(m, 0, 2, [b]);
  }

  lemma EliminationEdge(m: Nfa, n: Nfa, x: nat, y: nat, p: nat, l: Atom)
    requires Eliminates(m, n, x, y) && (p, Some(l), y) in m.edges && p != x
    ensures (p, Some(l), y) in n.edges
  {
  }

  lemma LeakyRefuses(a: Atom, b: Atom, c: Atom)
    requires a != b
    ensures !Accepts(Abs(Leaky(a, b, c)), 0, [b])
  {
    var g := Leaky(a, b, c);
    forall e | e in Edges(g)
      ensures (e.0 == 0 ==> e == (0, Some(a), 1) || e == (0, Some(b), 2)) && (e.0 == 2 ==> e == (2, Some(c), 3))
    {
      var k: nat :| LiveTrans(g, e.0, k) && EdgeAt(g, e.0, k) == e;
    }
    assert [b][1..] == [];
    forall k: nat
      ensures !AcceptsWithin(Abs(g), k, 2, []) && !AcceptsWithin(Abs(g), k, 0, [b])
    {
      RefusesWithin(Abs(g), k, a, b, c);
    }
  }

  lemma {:induction false} RefusesWithin(m: Nfa, k: nat, a: Atom, b: Atom, c: Atom)
    requires a != b && 2 !in m.finals
    requires forall e :: e in m.edges ==> (e.0 == 0 ==> e == (0, Some(a), 1) || e == (0, Some(b), 2)) && (e.0 == 2 ==> e == (2, Some(c), 3))
    ensures !AcceptsWithin(m, k, 2, []) && !AcceptsWithin(m, k, 0, [b])
  {
    forall r: nat
      ensures (2, None, r) !in m.edges && (0, None, r) !in m.edges && ((0, Some(b), r) in m.edges ==> r == 2)
    {
      var e, f, h: Edge := (2, None, r), (0, None, r), (0, Some(b), r);
      assert (e in m.edges ==> e == (2, Some(c), 3)) && (f in m.edges ==> f.1.Some?);
    }
    assert [b][1..] == [];
    if k > 0 { RefusesWithin(m, k - 1, a, b, c); }
  }
}
