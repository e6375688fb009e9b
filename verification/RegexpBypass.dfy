/** xmlFAReduceEpsilonTransitions on values: what one call adds to the state it works for. */
module RegexpBypass {
  import opened Wrappers
  import opened RegexpLanguage
  import opened RegexpAutomaton
  import opened RegexpSources

  function WithMark(g: Slots, i: nat, m: Mark): Slots
    requires Present(g, i)
  {
    g[i := Some(g[i].value.(mark := m))]
  }

  function WithKind(g: Slots, i: nat, k: StateType): Slots
    requires Present(g, i)
  {
    g[i := Some(g[i].value.(kind := k))]
  }

  ghost predicate SameTrans(g: Slots, h: Slots) {
    |h| == |g| && forall i :: 0 <= i < |g| ==>
      h[i].Some? == g[i].Some? && (g[i].Some? ==> h[i].value.trans == g[i].value.trans)
  }

  lemma SameTransEdges(g: Slots, h: Slots)
    requires SameTrans(g, h)
    ensures Edges(h) == Edges(g)
    ensures WellFormed(g) ==> WellFormed(h)
    ensures NoEpsilon(g) ==> NoEpsilon(h)
  {
    assert forall i: nat, k: nat :: LiveTrans(h, i, k) <==> LiveTrans(g, i, k);
    forall e | e in Edges(g)
      ensures e in Edges(h)
    {
      var k: nat :| LiveTrans(g, e.0, k) && EdgeAt(g, e.0, k) == e;
      assert LiveTrans(h, e.0, k) && EdgeAt(h, e.0, k) == e;
    }
    forall e | e in Edges(h)
      ensures e in Edges(g)
    {
      var k: nat :| LiveTrans(h, e.0, k) && EdgeAt(h, e.0, k) == e;
      assert LiveTrans(g, e.0, k) && EdgeAt(g, e.0, k) == e;
    }
  }

  ghost function Marked(g: Slots): set<nat> {
    set i: nat | i < |g| && g[i].Some? && g[i].value.mark != MarkNormal
  }

  ghost function Unmarked(g: Slots): set<nat> {
    set i: nat | i < |g| && g[i].Some? && g[i].value.mark == MarkNormal
  }

  /** All but the transitions and the type of `from`, and the `transTo` records, is kept. */
  ghost predicate OnlyFrom(g: Slots, h: Slots, from: nat) {
    && |h| == |g|
    && (forall i :: 0 <= i < |g| ==> h[i].Some? == g[i].Some?)
    && (forall i :: 0 <= i < |g| && g[i].Some? ==> h[i].value.mark == g[i].value.mark)
    && (forall i :: 0 <= i < |g| && g[i].Some? && i != from ==>
          h[i].value.kind == g[i].value.kind && h[i].value.trans == g[i].value.trans)
  }

  /** The old transitions, then live atom transitions. */
  ghost predicate Appended(before: seq<Trans>, after: seq<Trans>) {
    before <= after && forall k :: |before| <= k < |after| ==> after[k].atom.Some? && after[k].to >= 0 && after[k].nd == 0
  }

  /** `es` and `fs` are the transitions and final states, those of `from` aside. */
  ghost predicate Snapshot(g: Slots, from: nat, es: set<Edge>, fs: set<nat>) {
    && (forall e :: e in Edges(g) && e.0 != from ==> e in es)
    && (forall e :: e in es && e.0 != from ==> e in Edges(g))
    && (forall i :: i in Finals(g) && i != from ==> i in fs)
    && (forall i :: i in fs && i != from ==> i in Finals(g))
  }

  /** An atom transition of `from` copied from the closure of `to`. */
  ghost predicate Copied(es: set<Edge>, from: nat, to: nat, avoid: set<nat>, e: Edge) {
    e.0 == from && e.1.Some? && exists u: nat :: InClosure(es, to, u, avoid) && (u, e.1, e.2) in es
  }

  ghost predicate FinalInClosure(es: set<Edge>, fs: set<nat>, to: nat, avoid: set<nat>) {
    exists u: nat :: InClosure(es, to, u, avoid) && u in fs
  }

  ghost predicate Reducible(g: Slots, from: nat, to: nat, es: set<Edge>, fs: set<nat>) {
    WellFormed(g) && Present(g, from) && Present(g, to) && from in Marked(g) && Snapshot(g, from, es, fs)
  }

  /** The contract of one call: exactly the closure of `to` outside the marks is copied. */
  ghost predicate Reduced(g: Slots, h: Slots, from: nat, to: nat, es: set<Edge>, fs: set<nat>) {
    && Present(g, from)
    && OnlyFrom(g, h, from) && Appended(g[from].value.trans, h[from].value.trans) && WellFormed(h)
    && (forall e :: e in Edges(h) ==> e in Edges(g) || Copied(es, from, to, Marked(g), e))
    && (forall e :: e in Edges(g) || Copied(es, from, to, Marked(g), e) ==> e in Edges(h))
    && h[from].value.kind ==
       if FinalInClosure(es, fs, to, Marked(g)) then FinalState else g[from].value.kind
  }

  lemma ReducedAtMark(g: Slots, from: nat, to: nat, es: set<Edge>, fs: set<nat>)
    requires Reducible(g, from, to, es, fs) && to in Marked(g)
    ensures Reduced(g, g, from, to, es, fs)
  {
    forall u: nat
      ensures !InClosure(es, to, u, Marked(g))
    {}
  }

  lemma SnapshotKept(g: Slots, h: Slots, from: nat, es: set<Edge>, fs: set<nat>)
    requires Snapshot(g, from, es, fs) && |h| == |g|
    requires forall i :: 0 <= i < |g| ==> h[i].Some? == g[i].Some?
    requires forall i :: 0 <= i < |g| && g[i].Some? && i != from ==>
      h[i].value.kind == g[i].value.kind && h[i].value.trans == g[i].value.trans
    ensures Snapshot(h, from, es, fs)
  {
    forall e | e in Edges(h) && e.0 != from
      ensures e in Edges(g)
    {
      var k: nat :| LiveTrans(h, e.0, k) && EdgeAt(h, e.0, k) == e;
      assert LiveTrans(g, e.0, k) && EdgeAt(g, e.0, k) == e;
    }
    forall e | e in Edges(g) && e.0 != from
      ensures e in Edges(h)
    {
      var k: nat :| LiveTrans(g, e.0, k) && EdgeAt(g, e.0, k) == e;
      assert LiveTrans(h, e.0, k) && EdgeAt(h, e.0, k) == e;
    }
  }

  /** What the loop over the transitions of `to` has established below position `j`. */
  ghost predicate Scanning(g: Slots, h: Slots, from: nat, to: nat, es: set<Edge>, fs: set<nat>, j: nat)
    requires Present(g, to) && Present(g, from)
  {
    && j <= |g[to].value.trans| && ScanShape(g, h, from, to)
    && ScanEdges(Edges(g), Edges(h), from, to, es, Marked(g), g[to].value.trans[..j])
    && ScanKind(g[from].value.kind, h[from].value.kind, to, es, fs, Marked(g), g[to].value.trans[..j])
  }

  ghost predicate ScanShape(g: Slots, h: Slots, from: nat, to: nat)
    requires Present(g, to) && Present(g, from)
  {
    OnlyFrom(WithMark(g, to, MarkVisited), h, from) && Appended(g[from].value.trans, h[from].value.trans)
    && WellFormed(h)
  }

  ghost predicate ScanEdges(had: set<Edge>, have: set<Edge>, from: nat, to: nat, es: set<Edge>, avoid: set<nat>, ts: seq<Trans>) {
    && (forall e :: e in have ==> e in had || Copied(es, from, to, avoid, e))
    && had <= have
    && (forall i :: 0 <= i < |ts| ==> Covered(ts[i], have, from, es, avoid + {to}))
  }

  ghost predicate ScanKind(had: StateType, have: StateType, to: nat, es: set<Edge>, fs: set<nat>, avoid: set<nat>, ts: seq<Trans>) {
    && (have == had || (have == FinalState && FinalInClosure(es, fs, to, avoid)))
    && (to in fs ==> have == FinalState)
    && (forall i :: 0 <= i < |ts| ==> KindCovered(ts[i], have, es, fs, avoid + {to}))
  }

  ghost predicate KindCovered(t: Trans, have: StateType, es: set<Edge>, fs: set<nat>, inner: set<nat>) {
    t.to >= 0 && t.atom == None && FinalInClosure(es, fs, t.to, inner) ==> have == FinalState
  }

  ghost predicate Covered(t: Trans, have: set<Edge>, from: nat, es: set<Edge>, inner: set<nat>) {
    t.to >= 0 ==>
      && (t.atom.Some? ==> (from, t.atom, t.to) in have)
      && (t.atom.None? ==> forall e :: Copied(es, from, t.to, inner, e) ==> e in have)
  }

  lemma MarkedTo(g: Slots, to: nat)
    requires Present(g, to) && to !in Marked(g)
    ensures Marked(WithMark(g, to, MarkVisited)) == Marked(g) + {to}
    ensures Unmarked(WithMark(g, to, MarkVisited)) < Unmarked(g)
  {
    assert to in Unmarked(g) && to !in Unmarked(WithMark(g, to, MarkVisited));
  }

  lemma ScanStarts(g: Slots, from: nat, to: nat, es: set<Edge>, fs: set<nat>)
    requires Reducible(g, from, to, es, fs) && to !in Marked(g)
    ensures var g1 := WithMark(g, to, MarkVisited);
            Scanning(g, if g[to].value.kind == FinalState then WithKind(g1, from, FinalState) else g1, from, to, es, fs, 0)
  {
    hide InClosure, WellFormed;
    var g1 := WithMark(g, to, MarkVisited);
    var h := if g[to].value.kind == FinalState then WithKind(g1, from, FinalState) else g1;
    SameTransEdges(g, h);
    assert to in fs <==> to in Finals(g);
    if to in fs {
      ClosureUnfold(es, to, to, Marked(g));
      assert FinalInClosure(es, fs, to, Marked(g));
    }
  }

  lemma EdgesOf(g: Slots, from: nat, to: nat, es: set<Edge>, fs: set<nat>, i: nat)
    requires Reducible(g, from, to, es, fs) && to != from
    requires i < |g[to].value.trans| && g[to].value.trans[i].to >= 0
    ensures (to, g[to].value.trans[i].atom, g[to].value.trans[i].to) in es
    ensures Present(g, g[to].value.trans[i].to)
  {
    assert LiveTrans(g, to, i) && EdgeAt(g, to, i) in Edges(g);
  }

  /** One closure step inward stays in the closure. */
  lemma InnerIsOuter(es: set<Edge>, fs: set<nat>, from: nat, to: nat, v: nat, avoid: set<nat>)
    requires to !in avoid && (to, None, v) in es
    ensures forall e :: Copied(es, from, v, avoid + {to}, e) ==> Copied(es, from, to, avoid, e)
    ensures FinalInClosure(es, fs, v, avoid + {to}) ==> FinalInClosure(es, fs, to, avoid)
  {
    forall u: nat | InClosure(es, v, u, avoid + {to})
      ensures InClosure(es, to, u, avoid)
    {
      ClosureUnfold(es, to, u, avoid);
    }
  }

  lemma EdgesCoverAtom(had: set<Edge>, have: set<Edge>, from: nat, to: nat, es: set<Edge>, avoid: set<nat>, ts: seq<Trans>, t: Trans)
    requires ScanEdges(had, have, from, to, es, avoid, ts)
    requires t.to >= 0 && t.atom.Some? && (to, t.atom, t.to) in es && to !in avoid
    ensures ScanEdges(had, have + {(from, t.atom, t.to)}, from, to, es, avoid, ts + [t])
  {
    var e: Edge := (from, t.atom, t.to);
    ClosureUnfold(es, to, to, avoid);
    assert Copied(es, from, to, avoid, e);
    forall i | 0 <= i < |ts + [t]|
      ensures Covered((ts + [t])[i], have + {e}, from, es, avoid + {to})
    {
      if i < |ts| { assert Covered(ts[i], have, from, es, avoid + {to}); }
    }
  }

  lemma EdgesCoverMore(had: set<Edge>, have: set<Edge>, have': set<Edge>, from: nat, to: nat, es: set<Edge>, avoid: set<nat>,
                       ts: seq<Trans>, t: Trans)
    requires ScanEdges(had, have, from, to, es, avoid, ts)
    requires have <= have' && Covered(t, have', from, es, avoid + {to})
    requires forall e :: e in have' ==> e in have || Copied(es, from, to, avoid, e)
    ensures ScanEdges(had, have', from, to, es, avoid, ts + [t])
  {
    forall i | 0 <= i < |ts + [t]|
      ensures Covered((ts + [t])[i], have', from, es, avoid + {to})
    {
      if i < |ts| { assert Covered(ts[i], have, from, es, avoid + {to}); }
    }
  }

  lemma KindCoverMore(had: StateType, have: StateType, have': StateType, to: nat, es: set<Edge>, fs: set<nat>, avoid: set<nat>,
                      ts: seq<Trans>, t: Trans)
    requires ScanKind(had, have, to, es, fs, avoid, ts)
    requires have' == have || (have' == FinalState && FinalInClosure(es, fs, to, avoid))
    requires KindCovered(t, have', es, fs, avoid + {to})
    ensures ScanKind(had, have', to, es, fs, avoid, ts + [t])
  {
    forall i | 0 <= i < |ts + [t]|
      ensures KindCovered((ts + [t])[i], have', es, fs, avoid + {to})
    {
      if i < |ts| { assert KindCovered(ts[i], have, es, fs, avoid + {to}); }
    }
  }

  lemma ScanAtom(g: Slots, h: Slots, from: nat, to: nat, es: set<Edge>, fs: set<nat>, j: nat)
    requires Reducible(g, from, to, es, fs) && to !in Marked(g)
    requires Scanning(g, h, from, to, es, fs, j) && j < |g[to].value.trans|
    requires g[to].value.trans[j].to >= 0 && g[to].value.trans[j].atom.Some?
    ensures var t := g[to].value.trans[j];
            Present(h, t.to) && Scanning(g, WithTrans(h, from, t.atom, t.to), from, to, es, fs, j + 1)
  {
    hide InClosure, Snapshot;
    var ts, t := g[to].value.trans, g[to].value.trans[j];
    var h' := WithTrans(h, from, t.atom, t.to);
    EdgesOf(g, from, to, es, fs, j);
    assert ts[..j + 1] == ts[..j] + [t];
    assert ScanShape(g, h', from, to) by {
      WithTransShape(h, from, t.atom, t.to);
      WithTransKeeps(h, from, t.atom, t.to);
    }
    WithTransEdges(h, from, t.atom, t.to);
    EdgesCoverAtom(Edges(g), Edges(h), from, to, es, Marked(g), ts[..j], t);
    assert h'[from].value.kind == h[from].value.kind by { WithTransShape(h, from, t.atom, t.to); }
    KindCoverMore(g[from].value.kind, h[from].value.kind, h[from].value.kind, to, es, fs, Marked(g), ts[..j], t);
  }

  lemma ScanMarks(g: Slots, h: Slots, from: nat, to: nat)
    requires Present(g, from) && Present(g, to) && to !in Marked(g) && ScanShape(g, h, from, to)
    ensures Marked(h) == Marked(g) + {to}
    ensures Unmarked(h) < Unmarked(g)
  {
    MarkedTo(g, to);
    var g1 := WithMark(g, to, MarkVisited);
    assert forall i: nat :: i in Marked(h) <==> i in Marked(g1);
    assert forall i: nat :: i in Unmarked(h) <==> i in Unmarked(g1);
  }

  lemma ScanReducible(g: Slots, h: Slots, from: nat, to: nat, es: set<Edge>, fs: set<nat>, j: nat)
    requires Reducible(g, from, to, es, fs) && to !in Marked(g)
    requires Scanning(g, h, from, to, es, fs, j) && j < |g[to].value.trans| && g[to].value.trans[j].to >= 0
    ensures Reducible(h, from, g[to].value.trans[j].to, es, fs)
  {
    SnapshotKept(g, h, from, es, fs);
    ScanMarks(g, h, from, to);
    EdgesOf(g, from, to, es, fs, j);
  }

  lemma ScanEpsilon(g: Slots, h: Slots, h': Slots, from: nat, to: nat, es: set<Edge>, fs: set<nat>, j: nat)
    requires Reducible(g, from, to, es, fs) && to !in Marked(g)
    requires Scanning(g, h, from, to, es, fs, j) && j < |g[to].value.trans|
    requires g[to].value.trans[j].to >= 0 && g[to].value.trans[j].atom.None?
    requires Reduced(h, h', from, g[to].value.trans[j].to, es, fs)
    ensures Scanning(g, h', from, to, es, fs, j + 1)
  {
    var ts, t := g[to].value.trans, g[to].value.trans[j];
    EdgesOf(g, from, to, es, fs, j);
    assert ts[..j + 1] == ts[..j] + [t];
    ScanMarks(g, h, from, to);
    assert ScanShape(g, h', from, to);
    InnerIsOuter(es, fs, from, to, t.to, Marked(g));
    EdgesCoverMore(Edges(g), Edges(h), Edges(h'), from, to, es, Marked(g), ts[..j], t);
    KindCoverMore(g[from].value.kind, h[from].value.kind, h'[from].value.kind, to, es, fs, Marked(g), ts[..j], t);
  }

  /** A skipped transition: cancelled, or an epsilon back to `from`, which is marked. */
  lemma ScanSkip(g: Slots, h: Slots, from: nat, to: nat, es: set<Edge>, fs: set<nat>, j: nat)
    requires Reducible(g, from, to, es, fs) && to !in Marked(g)
    requires Scanning(g, h, from, to, es, fs, j) && j < |g[to].value.trans|
    requires g[to].value.trans[j].to < 0 || (g[to].value.trans[j].atom.None? && g[to].value.trans[j].to == from)
    ensures Scanning(g, h, from, to, es, fs, j + 1)
  {
    var ts, t := g[to].value.trans, g[to].value.trans[j];
    assert ts[..j + 1] == ts[..j] + [t];
    assert forall u: nat :: !InClosure(es, from, u, Marked(g) + {to});
    EdgesCoverMore(Edges(g), Edges(h), Edges(h), from, to, es, Marked(g), ts[..j], t);
    KindCoverMore(g[from].value.kind, h[from].value.kind, h[from].value.kind, to, es, fs, Marked(g), ts[..j], t);
  }

  lemma ScanEnds(g: Slots, h: Slots, from: nat, to: nat, es: set<Edge>, fs: set<nat>)
    requires Reducible(g, from, to, es, fs) && to !in Marked(g)
    requires Scanning(g, h, from, to, es, fs, |g[to].value.trans|)
    ensures Reduced(g, WithMark(h, to, MarkNormal), from, to, es, fs)
  {
    hide InClosure, Appended, WellFormed, Covered, KindCovered;
    var h' := WithMark(h, to, MarkNormal);
    var ts := g[to].value.trans;
    assert ts[..|ts|] == ts;
    SameTransEdges(h, h');
    forall e | Copied(es, from, to, Marked(g), e)
      ensures e in Edges(h)
    {
      var u: nat :| InClosure(es, to, u, Marked(g)) && (u, e.1, e.2) in es;
      CopiedIsCovered(g, Edges(h), from, to, es, fs, u, e);
    }
    if FinalInClosure(es, fs, to, Marked(g)) {
      var u: nat :| InClosure(es, to, u, Marked(g)) && u in fs;
      FinalIsCovered(g, h[from].value.kind, from, to, es, fs, u);
    }
    assert h'[from].value.kind == h[from].value.kind;
    assert OnlyFrom(g, h', from);
  }

  lemma TransOf(g: Slots, from: nat, to: nat, es: set<Edge>, fs: set<nat>, l: Label, v: nat) returns (i: nat)
    requires Reducible(g, from, to, es, fs) && to != from && (to, l, v) in es
    ensures i < |g[to].value.trans| && g[to].value.trans[i].to == v && g[to].value.trans[i].atom == l
  {
    var e: Edge := (to, l, v);
    assert e in Edges(g);
    i :| LiveTrans(g, e.0, i) && EdgeAt(g, e.0, i) == e;
  }

  lemma CopiedIsCovered(g: Slots, have: set<Edge>, from: nat, to: nat, es: set<Edge>, fs: set<nat>, u: nat, e: Edge)
    requires Reducible(g, from, to, es, fs) && to !in Marked(g)
    requires ScanEdges(Edges(g), have, from, to, es, Marked(g), g[to].value.trans)
    requires InClosure(es, to, u, Marked(g)) && (u, e.1, e.2) in es && e.0 == from && e.1.Some?
    ensures e in have
  {
    ClosureUnfold(es, to, u, Marked(g));
    if u == to {
      var i := TransOf(g, from, to, es, fs, e.1, e.2);
      assert Covered(g[to].value.trans[i], have, from, es, Marked(g) + {to});
    } else {
      var v :| (to, None, v) in es && InClosure(es, v, u, Marked(g) + {to});
      var i := TransOf(g, from, to, es, fs, None, v);
      assert Covered(g[to].value.trans[i], have, from, es, Marked(g) + {to});
      assert Copied(es, from, v, Marked(g) + {to}, e);
    }
  }

  lemma FinalIsCovered(g: Slots, have: StateType, from: nat, to: nat, es: set<Edge>, fs: set<nat>, u: nat)
    requires Reducible(g, from, to, es, fs) && to !in Marked(g)
    requires ScanKind(g[from].value.kind, have, to, es, fs, Marked(g), g[to].value.trans)
    requires InClosure(es, to, u, Marked(g)) && u in fs
    ensures have == FinalState
  {
    ClosureUnfold(es, to, u, Marked(g));
    if u != to {
      var v :| (to, None, v) in es && InClosure(es, v, u, Marked(g) + {to});
      var i := TransOf(g, from, to, es, fs, None, v);
      assert FinalInClosure(es, fs, v, Marked(g) + {to});
      assert KindCovered(g[to].value.trans[i], have, es, fs, Marked(g) + {to});
    }
  }

  // ------------------------------------------------------------ the pass over all states

  /** The state of affairs when xmlFAReduceEpsilonTransitions is called for epsilon `k` of `s`. */
  function Started(g: Slots, s: nat, k: nat): Slots
    requires Present(g, s) && k < |g[s].value.trans|
  {
    WithMark(Retarget(g, s, k, -2), s, MarkStart)
  }

  lemma StartedKeeps(g: Slots, s: nat, k: nat)
    requires WellFormed(g) && Marked(g) == {} && LiveTrans(g, s, k)
    ensures Edges(g) - {EdgeAt(g, s, k)} <= Edges(Started(g, s, k)) <= Edges(g)
    ensures Finals(Started(g, s, k)) == Finals(g)
    ensures WellFormed(Started(g, s, k))
    ensures Marked(Started(g, s, k)) == {s}
  {
    hide NoEpsilon;
    var c := Retarget(g, s, k, -2);
    CancelEdges(g, s, k, -2);
    SameTransEdges(c, Started(g, s, k));
    StartMark(g, s, k);
    assert forall i: nat :: i in Finals(Started(g, s, k)) <==> i in Finals(c);
  }

  /** Removing epsilon `k` of state `s`: cancelled with -2, its target's closure copied to `s`. */
  lemma BypassOne(g: Slots, h: Slots, s: nat, k: nat)
    requires WellFormed(g) && Marked(g) == {} && LiveTrans(g, s, k)
    requires g[s].value.trans[k].atom == None && g[s].value.trans[k].to != s
    requires Reduced(Started(g, s, k), h, s, g[s].value.trans[k].to, Edges(g), Finals(g))
    ensures Bypasses(Abs(g), Nfa(Edges(h), Finals(h)), s, g[s].value.trans[k].to)
  {
    var t: nat := g[s].value.trans[k].to;
    var g1 := Started(g, s, k);
    StartedKeeps(g, s, k);
    assert EdgeAt(g, s, k) == (s, None, t);
    assert forall f :: f in Finals(h) && f != s <==> f in Finals(g1) && f != s;
    assert s in Finals(h) <==> s in Finals(g) || FinalInClosure(Edges(g), Finals(g), t, {s});
    forall u: nat, a, v | InClosure(Edges(g), t, u, {s}) && (u, Some(a), v) in Edges(g)
      ensures (s, Some(a), v) in Edges(h)
    {
      var e: Edge := (s, Some(a), v);
      assert (u, e.1, e.2) in Edges(g);
      assert Copied(Edges(g), s, t, {s}, e);
    }
  }

  lemma StartMark(g: Slots, s: nat, k: nat)
    requires Marked(g) == {} && Present(g, s) && k < |g[s].value.trans|
    ensures Marked(WithMark(Retarget(g, s, k, -2), s, MarkStart)) == {s}
  {
    var g1 := WithMark(Retarget(g, s, k, -2), s, MarkStart);
    forall i: nat | i in Marked(g1)
      ensures i == s
    {
      assert i == s || i in Marked(g);
    }
  }

  lemma BypassReducible(g: Slots, s: nat, k: nat)
    requires WellFormed(g) && Marked(g) == {} && LiveTrans(g, s, k)
    ensures Reducible(Started(g, s, k), s, g[s].value.trans[k].to, Edges(g), Finals(g))
  {
    StartedKeeps(g, s, k);
    assert EdgeAt(g, s, k).0 == s;
  }

  /** Every state keeps its language; states from `n` on have no live epsilon left. */
  ghost predicate Bypassing(g0: Slots, g: Slots, n: int) {
    && |g| == |g0| && (forall i :: 0 <= i < |g| ==> g[i].Some? == g0[i].Some?)
    && WellFormed(g) && Marked(g) == {}
    && (forall i: nat, k: nat :: i >= n && LiveTrans(g, i, k) ==> g[i].value.trans[k].atom.Some?)
    && (forall q: nat :: SameLanguage(Abs(g0), Abs(g), q))
    && Derived(Edges(g0), Edges(g)) && (Fresh(g0) ==> Fresh(g))
  }

  /** The transitions of one state below `j`, and those added beyond `limit`, are no epsilons. */
  ghost predicate Swept(ts: seq<Trans>, j: nat, limit: nat) {
    limit <= |ts| && forall k :: 0 <= k < |ts| && (k < j || k >= limit) && ts[k].to >= 0 ==> ts[k].atom.Some?
  }

  lemma SweepLoop(g0: Slots, g: Slots, s: nat, k: nat, limit: nat)
    requires Bypassing(g0, g, s + 1) && LiveTrans(g, s, k)
    requires g[s].value.trans[k].atom == None && g[s].value.trans[k].to == s
    requires Swept(g[s].value.trans, k, limit)
    ensures Bypassing(g0, Retarget(g, s, k, -1), s + 1)
    ensures Swept(Retarget(g, s, k, -1)[s].value.trans, k + 1, limit)
  {
    var h := Retarget(g, s, k, -1);
    CancelEdges(g, s, k, -1);
    assert Marked(h) == Marked(g) by { assert forall i: nat :: i in Marked(h) <==> i in Marked(g); }
    forall q: nat
      ensures SameLanguage(Abs(g0), Abs(h), q)
    {
      LoopSameLanguage(Abs(g), Abs(h), s, q);
      SameLanguageTransitive(Abs(g0), Abs(g), Abs(h), q);
    }
    forall i: nat, j: nat | i >= s + 1 && LiveTrans(h, i, j)
      ensures h[i].value.trans[j].atom.Some?
    {
      assert LiveTrans(g, i, j);
    }
  }

  lemma ReducedShape(g: Slots, h: Slots, from: nat, to: nat, es: set<Edge>, fs: set<nat>)
    requires Reduced(g, h, from, to, es, fs)
    ensures Present(g, from) && OnlyFrom(g, h, from) && Appended(g[from].value.trans, h[from].value.trans) && WellFormed(h)
  {
  }

  lemma StartedShape(g: Slots, s: nat, k: nat)
    requires Present(g, s) && k < |g[s].value.trans|
    ensures var g1 := Started(g, s, k);
            && |g1| == |g| && (forall i :: 0 <= i < |g| ==> g1[i].Some? == g[i].Some?)
            && (forall i :: 0 <= i < |g| && i != s ==> g1[i] == g[i])
            && g1[s].value.trans == g[s].value.trans[k := g[s].value.trans[k].(to := -2)]
  {
  }

  /** The transitions copied stem from what is there, and carry no mark. */
  lemma SweepDerived(g0: Slots, g: Slots, h: Slots, s: nat, k: nat)
    requires Bypassing(g0, g, s + 1) && LiveTrans(g, s, k)
    requires g[s].value.trans[k].atom == None && g[s].value.trans[k].to != s
    requires Reduced(Started(g, s, k), h, s, g[s].value.trans[k].to, Edges(g), Finals(g))
    ensures Derived(Edges(g0), Edges(h))
    ensures Fresh(g0) ==> Fresh(WithMark(h, s, MarkNormal))
  {
    hide SameLanguage, Derived;
    BypassOne(g, h, s, k);
    BypassDerived(Abs(g), Nfa(Edges(h), Finals(h)), s, g[s].value.trans[k].to);
    DerivedThrough(Edges(g0), Edges(g), Edges(h));
    StartedShape(g, s, k);
    var g1 := Started(g, s, k);
    if Fresh(g0) {
      ReducedShape(g1, h, s, g[s].value.trans[k].to, Edges(g), Finals(g));
      forall i: nat, j: nat | Present(h, i) && j < |h[i].value.trans|
        ensures FreshTrans(h[i].value.trans[j])
      {
        assert Present(g, i);
        if j < |g[i].value.trans| { assert FreshTrans(g[i].value.trans[j]); }
        if i == s && j < |g[s].value.trans| { assert h[s].value.trans[j] == g1[s].value.trans[j]; }
      }
    }
  }

  lemma SweepBypass(g0: Slots, g: Slots, h: Slots, s: nat, k: nat, limit: nat)
    requires Bypassing(g0, g, s + 1) && LiveTrans(g, s, k)
    requires g[s].value.trans[k].atom == None && g[s].value.trans[k].to != s
    requires Swept(g[s].value.trans, k, limit)
    requires Reduced(Started(g, s, k), h, s, g[s].value.trans[k].to, Edges(g), Finals(g))
    ensures Bypassing(g0, WithMark(h, s, MarkNormal), s + 1)
    ensures Swept(h[s].value.trans, k + 1, limit) && |h[s].value.trans| > k
  {
    hide Derived, Fresh, Reduced, Edges, Finals, Started, NoEpsilon, Stems;
    ReducedShape(Started(g, s, k), h, s, g[s].value.trans[k].to, Edges(g), Finals(g));
    StartedShape(g, s, k);
    var h' := WithMark(h, s, MarkNormal);
    UnmarkedAgain(g, h, s, k);
    SweepDerived(g0, g, h, s, k);
    forall q: nat
      ensures SameLanguage(Abs(g0), Abs(h'), q)
    {
      BypassOne(g, h, s, k);
      BypassSameLanguage(Abs(g), Abs(h'), s, g[s].value.trans[k].to, q);
      SameLanguageTransitive(Abs(g0), Abs(g), Abs(h'), q);
    }
    forall i: nat, j: nat | i >= s + 1 && LiveTrans(h', i, j)
      ensures h'[i].value.trans[j].atom.Some?
    {
      assert LiveTrans(g, i, j);
    }
    SweptAppended(g[s].value.trans, Started(g, s, k)[s].value.trans, h[s].value.trans, k, limit);
  }

  lemma SweptAppended(ts: seq<Trans>, cs: seq<Trans>, us: seq<Trans>, k: nat, limit: nat)
    requires Swept(ts, k, limit) && k < |ts| && cs == ts[k := ts[k].(to := -2)] && Appended(cs, us)
    ensures Swept(us, k + 1, limit) && |us| > k
  {
    forall j | 0 <= j < |us| && (j < k + 1 || j >= limit) && us[j].to >= 0
      ensures us[j].atom.Some?
    {
      if j < |cs| { assert us[j] == cs[j]; }
    }
  }

  lemma UnmarkedAgain(g: Slots, h: Slots, s: nat, k: nat)
    requires Marked(g) == {} && Present(g, s) && k < |g[s].value.trans|
    requires OnlyFrom(Started(g, s, k), h, s) && WellFormed(h)
    ensures var h' := WithMark(h, s, MarkNormal);
            Marked(h') == {} && Edges(h') == Edges(h) && Finals(h') == Finals(h) && WellFormed(h')
  {
    var h' := WithMark(h, s, MarkNormal);
    SameTransEdges(h, h');
    forall i: nat
      ensures i !in Marked(h')
    {
      assert i in Marked(h') ==> i in Marked(g);
    }
    assert forall i: nat :: i in Finals(h') <==> i in Finals(h);
  }

  /** Changing the type of a state that is not final to another such type. */
  lemma SinkKeeps(g0: Slots, g: Slots, s: nat, n: int)
    requires Bypassing(g0, g, n) && Present(g, s) && g[s].value.kind != FinalState
    ensures Bypassing(g0, WithKind(g, s, SinkState), n)
  {
    var h := WithKind(g, s, SinkState);
    SameTransEdges(g, h);
    assert Finals(h) == Finals(g) by { assert forall i: nat :: i in Finals(h) <==> i in Finals(g); }
    assert Marked(h) == Marked(g) by { assert forall i: nat :: i in Marked(h) <==> i in Marked(g); }
    assert Abs(h) == Abs(g);
    forall i: nat, j: nat | i >= n && LiveTrans(h, i, j)
      ensures h[i].value.trans[j].atom.Some?
    {
      assert LiveTrans(g, i, j);
    }
  }

  lemma StateDone(g0: Slots, g: Slots, s: nat, limit: nat)
    requires Bypassing(g0, g, s + 1)
    requires Present(g, s) ==> Swept(g[s].value.trans, |g[s].value.trans|, limit)
    ensures Bypassing(g0, g, s)
  {
  }
}
