/** The parser context of regexp/xmlregexp.c and its in-place passes over the automaton. */
module RegexpCompiler {
  import opened Wrappers
  import opened RegexpLanguage
  import opened RegexpAutomaton
  import opened RegexpSimplePass
  import opened RegexpBypass
  import opened RegexpReach
  import opened RegexpDeterminism
  import opened RegexpSources

  class ParserCtxt {
    var states: Slots
    var determinist: int

    constructor (g: Slots)
      ensures states == g && determinist == -1
    {
      states := g;
      determinist := -1;
    }

    /** xmlRegStateAddTrans: a duplicate request is ignored. */
    method StateAddTrans(from: nat, atom: Label, target: nat)
      requires Present(states, from) && Present(states, target)
      modifies this
      ensures states == WithTrans(old(states), from, atom, target)
    {
      var nrtrans := |states[from].value.trans| - 1;
      while nrtrans >= 0
        invariant -1 <= nrtrans < |states[from].value.trans|
        invariant states == old(states)
        invariant forall k :: nrtrans < k < |states[from].value.trans| ==>
          !(states[from].value.trans[k].atom == atom && states[from].value.trans[k].to == target)
      {
        var trans := states[from].value.trans[nrtrans];
        if trans.atom == atom && trans.to == target {
          return;
        }
        nrtrans := nrtrans - 1;
      }
      var s := states[from].value;
      states := states[from := Some(s.(trans := s.trans + [Trans(atom, target, 0)]))];
      var t := states[target].value;
      states := states[target := Some(t.(transTo := t.transTo + [from]))];
    }

    /** Removes every state whose only transition is an epsilon. The start state survives and
        every surviving state keeps its language exactly when no removed state leaks. */
    method EliminateSimpleEpsilonTransitions()
      requires Built(states)
      modifies this
      ensures PassShape(old(states), states, |states|)
      ensures PassMeaning(old(states), states, |states|)
      ensures Eliminated(old(states), |states|, Abs(states))
      ensures old(Fresh(states)) ==> Fresh(states)
    {
      hide PassKinds, PassTrans, PassTargets, PassMeaning, WellFormed, Recorded, RedirectEdges, Finals, Built, Eliminated, Fresh;
      ghost var g0 := states;
      NothingEliminated(g0);
      PassStarts(g0);
      var statenr := 0;
      while statenr < |states|
        invariant |states| == |g0| && statenr <= |states|
        invariant PassShape(g0, states, statenr) && (Fresh(g0) ==> Fresh(states))
        invariant PassMeaning(g0, states, statenr) && Eliminated(g0, statenr, Abs(states))
      {
        var state := states[statenr].value;
        ghost var g := states;
        if |state.trans| == 1 && state.kind != UnreachState
           && state.trans[0].atom == None && state.trans[0].to >= 0 && state.trans[0].to != statenr
           && state.kind != StartState {
          RemoveState(statenr, g0);
        } else {
          PassSkips(g0, g, statenr);
          MeaningSkips(g0, g, statenr);
          PassDecides(g0, g, statenr);
          EliminatedNext(g0, statenr, Abs(g), Abs(g));
        }
        statenr := statenr + 1;
      }
    }

    /** One state is removed: its transition is followed by all that enter it, and its finality is
        handed on. */
    method RemoveState(statenr: nat, ghost g0: Slots)
      requires PassShape(g0, states, statenr) && PassMeaning(g0, states, statenr) && Eliminated(g0, statenr, Abs(states))
      requires statenr < |states| && LoneEpsilon(states, statenr) && (Fresh(g0) ==> Fresh(states))
      modifies this
      ensures |states| == |g0| && PassShape(g0, states, statenr + 1) && PassMeaning(g0, states, statenr + 1)
      ensures Eliminated(g0, statenr + 1, Abs(states)) && (Fresh(g0) ==> Fresh(states))
    {
      hide PassKinds, PassTrans, PassTargets, PassMeaning, WellFormed, Recorded, RedirectEdges, Finals, Built, Eliminated, Fresh;
      ghost var g := states;
      var kind := states[statenr].value.kind;
      var newto := states[statenr].value.trans[0].to;
      RedirectAll(statenr, newto);
      PassRemoves(g0, g, states, statenr);
      if Fresh(states) { EmptiedFresh(states, statenr, newto); }
      MeaningRemoves(g0, g, Emptied(states, statenr, newto), statenr);
      PassDecides(g0, g, statenr);
      EliminatedNext(g0, statenr, Abs(g), Abs(Emptied(states, statenr, newto)));
      if kind == FinalState {
        states := states[newto := Some(states[newto].value.(kind := FinalState))];
      }
      states := states[statenr := Some(states[statenr].value.(trans := [], kind := UnreachState))];
    }

    /** The two inner loops: every transition into `x`, found through its `transTo`, is turned
        to `y`. */
    method RedirectAll(x: nat, y: nat)
      requires AllPresent(states) && WellFormed(states) && Recorded(states)
      requires LoneEpsilon(states, x) && Target(states, x) == y
      modifies this
      ensures Redirecting(old(states), states, x, y)
      ensures old(Fresh(states)) ==> Fresh(states)
      ensures forall i :: 0 <= i < |states| ==> !Enters(states[i].value.trans, x)
    {
      hide RedirectEdges, Grown, Finals, WellFormed, Recorded, Enters, Fresh;
      ghost var g0 := states;
      var transTo := states[x].value.transTo;
      RedirectStarts(g0, x, y);
      var i := 0;
      while i < |transTo|
        invariant i <= |transTo|
        invariant Redirecting(g0, states, x, y) && (Fresh(g0) ==> Fresh(states))
        invariant forall m :: 0 <= m < |transTo| ==> transTo[m] < |states|
        invariant forall m :: 0 <= m < i ==> !Enters(states[transTo[m]].value.trans, x)
      {
        RedirectTransOf(transTo[i], x, y, g0);
        i := i + 1;
      }
      RedirectEnds(states, x);
    }

    method RedirectTransOf(tmp: nat, x: nat, y: nat, ghost g0: Slots)
      requires Redirecting(g0, states, x, y) && tmp < |states|
      requires !Enters(g0[x].value.trans, x)
      modifies this
      ensures Redirecting(g0, states, x, y)
      ensures !Enters(states[tmp].value.trans, x)
      ensures OthersKept(old(states), states, tmp)
      ensures old(Fresh(states)) ==> Fresh(states)
    {
      hide RedirectEdges, Recorded, WellFormed, Finals, Grown, Fresh;
      ghost var limit := |states[tmp].value.trans|;
      var j := 0;
      while j < |states[tmp].value.trans|
        invariant Redirecting(g0, states, x, y) && OthersKept(old(states), states, tmp)
        invariant old(Fresh(states)) ==> Fresh(states)
        invariant j <= |states[tmp].value.trans| && Scanned(states[tmp].value.trans, x, j, limit)
        decreases if j < limit then limit - j else 0, |states[tmp].value.trans| - j
      {
        if states[tmp].value.trans[j].to == x {
          TurnStep(g0, states, x, y, tmp, j, limit);
          if Fresh(states) { TurnedFresh(states, tmp, j, y); }
          var atom := states[tmp].value.trans[j].atom;
          states := Retarget(states, tmp, j, -1);
          StateAddTrans(tmp, atom, y);
        }
        j := j + 1;
      }
    }

    /** Copies to `from` every atom transition of the states reached from `to` by epsilon
        transitions outside the marks, and makes `from` final when one of those is final. The
        recursion marks its path and unmarks it again. */
    method ReduceEpsilonTransitions(from: nat, to: nat, ghost es: set<Edge>, ghost fs: set<nat>)
      requires Reducible(states, from, to, es, fs)
      modifies this
      ensures Reduced(old(states), states, from, to, es, fs)
      decreases Unmarked(states)
    {
      hide ScanEdges, ScanKind, Snapshot, Appended, WellFormed, Finals;
      ghost var g := states;
      if states[to].value.mark == MarkStart || states[to].value.mark == MarkVisited {
        ReducedAtMark(g, from, to, es, fs);
        return;
      }
      ScanStarts(g, from, to, es, fs);
      states := WithMark(states, to, MarkVisited);
      if states[to].value.kind == FinalState {
        states := WithKind(states, from, FinalState);
      }
      var transnr := 0;
      while transnr < |states[to].value.trans|
        invariant Scanning(g, states, from, to, es, fs, transnr) && states[to].value.trans == g[to].value.trans
        decreases |states[to].value.trans| - transnr
      {
        var trans := states[to].value.trans[transnr];
        if trans.to < 0 {
          ScanSkip(g, states, from, to, es, fs, transnr);
        } else if trans.atom == None {
          if trans.to != from {
            ghost var h := states;
            EdgesOf(g, from, to, es, fs, transnr);
            ScanMarks(g, h, from, to);
            ScanReducible(g, h, from, to, es, fs, transnr);
            ReduceEpsilonTransitions(from, trans.to, es, fs);
            ScanEpsilon(g, h, states, from, to, es, fs, transnr);
          } else {
            ScanSkip(g, states, from, to, es, fs, transnr);
          }
        } else {
          ScanAtom(g, states, from, to, es, fs, transnr);
          StateAddTrans(from, trans.atom, trans.to);
        }
        transnr := transnr + 1;
      }
      ScanEnds(g, states, from, to, es, fs);
      states := WithMark(states, to, MarkNormal);
    }

    /** The completed transitions bypassing the epsilons, from the last state back to the first. */
    method BypassEpsilonTransitions()
      requires WellFormed(states) && Marked(states) == {}
      modifies this
      ensures Bypassing(old(states), states, 0)
    {
      ghost var g0 := states;
      FewerDerived(Edges(g0), Edges(g0));
      var statenr := |states| - 1;
      while statenr >= 0
        invariant -1 <= statenr < |states|
        invariant Bypassing(g0, states, statenr + 1)
      {
        if states[statenr].Some? {
          BypassState(statenr, g0);
        } else {
          StateDone(g0, states, statenr, 0);
        }
        statenr := statenr - 1;
      }
    }

    method BypassState(statenr: nat, ghost g0: Slots)
      requires Present(states, statenr) && Bypassing(g0, states, statenr + 1)
      modifies this
      ensures Bypassing(g0, states, statenr)
    {
      if |states[statenr].value.trans| == 0 && states[statenr].value.kind != FinalState {
        SinkKeeps(g0, states, statenr, statenr + 1);
        states := WithKind(states, statenr, SinkState);
      }
      ghost var limit := |states[statenr].value.trans|;
      var transnr := 0;
      while transnr < |states[statenr].value.trans|
        invariant Bypassing(g0, states, statenr + 1) && Present(states, statenr)
        invariant transnr <= |states[statenr].value.trans| && Swept(states[statenr].value.trans, transnr, limit)
        decreases if transnr < limit then limit - transnr else 0, |states[statenr].value.trans| - transnr
      {
        var trans := states[statenr].value.trans[transnr];
        if trans.atom == None && trans.to >= 0 {
          ghost var g := states;
          if trans.to == statenr {
            SweepLoop(g0, g, statenr, transnr, limit);
            states := Retarget(states, statenr, transnr, -1);
          } else {
            var newto := trans.to;
            BypassReducible(g, statenr, transnr);
            states := Retarget(states, statenr, transnr, -2);
            states := WithMark(states, statenr, MarkStart);
            ReduceEpsilonTransitions(statenr, newto, Edges(g), Finals(g));
            SweepBypass(g0, g, states, statenr, transnr, limit);
            states := WithMark(states, statenr, MarkNormal);
          }
        }
        transnr := transnr + 1;
      }
      StateDone(g0, states, statenr, limit);
    }

    /** Frees the slots typed unreachable by the simple pass. */
    method FreeRemovedStates()
      requires forall i :: 0 <= i < |states| ==> states[i].Some?
      modifies this
      ensures Freed(old(states), states, set i: nat | i < |old(states)| && old(states)[i].value.kind != UnreachState)
    {
      ghost var g := states;
      var statenr := 0;
      while statenr < |states|
        invariant statenr <= |states| && |states| == |g|
        invariant forall i :: 0 <= i < statenr ==> states[i] == if g[i].value.kind != UnreachState then g[i] else None
        invariant forall i :: statenr <= i < |g| ==> states[i] == g[i]
      {
        if states[statenr].value.kind == UnreachState {
          states := states[statenr := None];
        }
        statenr := statenr + 1;
      }
    }

    method ClearReached()
      modifies this
      ensures OnlyReached(old(states), states)
      ensures forall i :: 0 <= i < |states| && states[i].Some? ==> states[i].value.reached == MarkNormal
    {
      ghost var g := states;
      var statenr := 0;
      while statenr < |states|
        invariant statenr <= |states| && OnlyReached(g, states)
        invariant forall i :: 0 <= i < statenr && states[i].Some? ==> states[i].value.reached == MarkNormal
      {
        if states[statenr].Some? {
          states := WithReached(states, statenr, MarkNormal);
        }
        statenr := statenr + 1;
      }
    }

    /** Marks what state 0 still reaches. */
    method MarkReached()
      requires |states| > 0 && WellFormed(states) && NoEpsilon(states)
      modifies this
      ensures Exploring(old(states), states)
      ensures forall i: nat :: Seen(states, i) ==> SuccessorsSeen(states, i, |states[i].value.trans|)
      ensures Present(states, 0) ==> Seen(states, 0)
    {
      hide WellFormed, NoEpsilon, Reaches, ReachesWithin, SuccessorsSeen, AllVisitedSeen, Unvisited;
      ghost var g := states;
      ClearReached();
      var state: Option<nat> := None;
      if states[0].Some? {
        states := WithReached(states, 0, MarkStart);
        state := Some(0);
        ReachesSelf(Edges(g), 0);
      }
      NoneVisited(states);
      while state.Some?
        invariant Exploring(g, states)
        invariant state.Some? ==> Present(states, state.value) && states[state.value].value.reached == MarkStart
        invariant Present(states, 0) && state != Some(0) ==> states[0].value.reached == MarkVisited
        invariant AllVisitedSeen(states, |states|)
        invariant state.None? ==> forall i: nat :: Present(states, i) && i > 0 ==> states[i].value.reached != MarkStart
        decreases Unvisited(states)
      {
        ghost var s := states;
        states := WithReached(states, state.value, MarkVisited);
        VisitedStarts(g, s, state.value);
        ghost var h := states;
        var target := MarkSuccessors(state.value, g);
        VisitedKept(s, h, states, state.value);
        if target.None? {
          target := NextMarked();
        }
        state := target;
      }
      EverythingVisited(states);
    }

    /** Marks the successors of one state; the last one newly marked is next in turn. */
    method MarkSuccessors(i: nat, ghost g: Slots) returns (target: Option<nat>)
      requires WellFormed(g) && NoEpsilon(g) && Exploring(g, states)
      requires Present(states, i) && states[i].value.reached == MarkVisited
      modifies this
      ensures Exploring(g, states) && SuccessorsSeen(states, i, |states[i].value.trans|)
      ensures Marking(old(states), states)
      ensures FreshMark(old(states), states, target)
    {
      ghost var h := states;
      target := None;
      var transnr := 0;
      while transnr < |states[i].value.trans|
        invariant Exploring(g, states) && Seen(states, i) && transnr <= |states[i].value.trans|
        invariant Marking(h, states) && FreshMark(h, states, target)
        invariant SuccessorsSeen(states, i, transnr)
        decreases |states[i].value.trans| - transnr
      {
        var trans := states[i].value.trans[transnr];
        assert trans.to >= 0 ==> LiveTrans(g, i, transnr);
        if trans.to >= 0 && trans.atom.Some? {
          MarkStep(g, h, states, i, transnr);
          if states[trans.to].value.reached == MarkNormal {
            states := WithReached(states, trans.to, MarkStart);
            target := Some(trans.to);
          }
        }
        transnr := transnr + 1;
      }
    }

    method NextMarked() returns (target: Option<nat>)
      ensures target.Some? ==> Present(states, target.value) && target.value > 0 && states[target.value].value.reached == MarkStart
      ensures target.None? ==> forall i: nat :: Present(states, i) && i > 0 ==> states[i].value.reached != MarkStart
    {
      var statenr := 1;
      while statenr < |states|
        invariant forall i: nat :: Present(states, i) && 0 < i < statenr ==> states[i].value.reached != MarkStart
      {
        if states[statenr].Some? && states[statenr].value.reached == MarkStart {
          return Some(statenr);
        }
        statenr := statenr + 1;
      }
      return None;
    }

    method FreeUnreachedStates()
      modifies this
      ensures Freed(old(states), states, SeenSet(old(states)))
    {
      ghost var g := states;
      var statenr := 0;
      while statenr < |states|
        invariant statenr <= |states| && |states| == |g|
        invariant forall i: nat :: i < statenr ==> states[i] == if Seen(g, i) then g[i] else None
        invariant forall i :: statenr <= i < |g| ==> states[i] == g[i]
      {
        if states[statenr].Some? && states[statenr].value.reached == MarkNormal {
          states := states[statenr := None];
        }
        statenr := statenr + 1;
      }
    }

    /** xmlFAEliminateEpsilonTransitions. Its last sweep over the epsilons has nothing to do when
        no transition is counted: none is left alive. */
    method EliminateEpsilonTransitions()
      requires Built(states)
      modifies this
      ensures WellFormed(states) && NoEpsilon(states) && |states| == |old(states)|
      ensures Present(states, 0) <==> !Removed(old(states), 0)
      ensures Present(states, 0) ==> forall q: nat :: Present(states, q) ==> Reaches(Edges(states), 0, q)
      ensures NoLeak(old(states), |old(states)|) ==>
        forall q: nat :: Present(states, q) ==> SameLanguage(Abs(old(states)), Abs(states), q)
      ensures Derived(Edges(old(states)), Edges(states)) && (old(Fresh(states)) ==> Fresh(states))
    {
      hide Derived, Fresh, Eliminated, PassKinds, PassTrans, PassTargets, Seen, SuccessorsSeen, Edges, Finals, Marked, Recorded, Reaches;
      ghost var g0 := states;
      EliminateSimpleEpsilonTransitions();
      ghost var g1 := states;
      FreeRemovedStates();
      ghost var g2 := states;
      FreedRemoved(g0, g1, g2);
      BypassEpsilonTransitions();
      ghost var g3 := states;
      assert NoEpsilon(g3);
      MarkReached();
      ghost var g4 := states;
      FreeUnreachedStates();
      FreedUnreached(g3, g4, states);
      WholeDerived(g0, g1, g2, g3, g4, states);
      if NoLeak(g0, |g0|) {
        forall q: nat | Present(states, q)
          ensures SameLanguage(Abs(g0), Abs(states), q)
        {
          assert Survives(g0, |g0|, q);
          SameLanguageTransitive(Abs(g0), Abs(g2), Abs(g3), q);
          SameLanguageTransitive(Abs(g0), Abs(g3), Abs(states), q);
        }
      }
    }

    /** xmlFAComputesDeterminism, for an automaton without live epsilons. */
    method ComputesDeterminism(equal: (Atom, Atom) -> bool, compare: (Atom, Atom) -> bool, ghost check: Check) returns (ret: int)
      requires WellFormed(states) && NoEpsilon(states) && EqualsSoundly(equal, check)
      modifies this
      ensures old(determinist) != -1 ==> ret == old(determinist) && states == old(states)
      ensures old(determinist) == -1 ==>
        exists g: Slots :: ThinnedAll(check, old(states), g) && NoTwins(equal, g) && MarkedAll(compare, g, states)
                    && (ret == 0 ==> ConflictBelow(compare, g, |g|))
                    && (NoneBypassed(g) ==> (ret == 0 <==> ConflictBelow(compare, g, |g|)))
    {
      if determinist != -1 {
        return determinist;
      }
      ghost var g0 := states;
      CancelDuplicates(equal, check);
      ghost var g := states;
      ThinnedEdges(check, g0, g);
      ret := MarkConflicts(compare);
      determinist := ret;
    }

    method CancelDuplicates(equal: (Atom, Atom) -> bool, ghost check: Check)
      requires EqualsSoundly(equal, check)
      modifies this`states
      ensures ThinnedAll(check, old(states), states) && NoTwins(equal, states)
    {
      hide Thinned, NoTwinsBelow;
      ghost var g := states;
      var statenr := 0;
      forall i | 0 <= i < |g| && g[i].Some?
        ensures Thinned(check, g[i].value.trans, g[i].value.trans)
      {
        ThinnedSame(check, g[i].value.trans);
      }
      while statenr < |states|
        invariant statenr <= |states| && ThinnedAll(check, g, states)
        invariant forall q: nat :: q < statenr && Present(states, q) ==> NoTwinsBelow(equal, states[q].value.trans, |states[q].value.trans|)
      {
        if states[statenr].Some? && |states[statenr].value.trans| >= 2 {
          var ts := CancelDuplicatesOf(states[statenr].value.trans, equal, check, g[statenr].value.trans);
          states := states[statenr := Some(states[statenr].value.(trans := ts))];
        }
        if states[statenr].Some? && |states[statenr].value.trans| < 2 {
          FewWithoutTwins(equal, states[statenr].value.trans, |states[statenr].value.trans|);
        }
        statenr := statenr + 1;
      }
    }

    /** The verdict is 0 only for a conflict; it can come out 1 in spite of one, because the
        question asked for an epsilon cancelled with -2 overwrites it. */
    method MarkConflicts(compare: (Atom, Atom) -> bool) returns (ret: int)
      modifies this`states
      ensures MarkedAll(compare, old(states), states)
      ensures ret == 0 || ret == 1
      ensures ret == 0 ==> ConflictBelow(compare, old(states), |old(states)|)
      ensures NoneBypassed(old(states)) ==> (ret == 0 <==> ConflictBelow(compare, old(states), |old(states)|))
    {
      hide FullyMarked, HasConflict, BypassedTrans;
      ghost var g := states;
      ret := 1;
      var statenr := 0;
      while statenr < |states|
        invariant statenr <= |states| && |states| == |g|
        invariant forall i :: statenr <= i < |g| ==> states[i] == g[i]
        invariant forall i :: 0 <= i < statenr ==> MarkedSlot(compare, g[i], states[i])
        invariant ret == 0 || ret == 1
        invariant ret == 0 ==> ConflictBelow(compare, g, statenr)
        invariant NoneBypassed(g) ==> (ret == 0 <==> ConflictBelow(compare, g, statenr))
      {
        ConflictNext(compare, g, statenr);
        if states[statenr].Some? && |states[statenr].value.trans| >= 2 {
          var ts, r := MarkConflictsOf(states[statenr].value.trans, compare, ret);
          states := states[statenr := Some(states[statenr].value.(trans := ts))];
          ret := r;
        } else if states[statenr].Some? {
          FewTransitions(compare, states[statenr].value.trans);
        }
        statenr := statenr + 1;
      }
    }
  }

  /** Through all the steps, what is left stems from what was built, and nothing has been marked. */
  lemma WholeDerived(g0: Slots, g1: Slots, g2: Slots, g3: Slots, g4: Slots, h: Slots)
    requires Eliminated(g0, |g0|, Abs(g1)) && Edges(g2) == Edges(g1) && (Fresh(g0) ==> Fresh(g1))
    requires |g1| == |g0| && |g2| == |g1| && (forall i: nat :: i < |g1| && g2[i].Some? ==> g2[i] == g1[i])
    requires Bypassing(g2, g3, 0) && Exploring(g3, g4) && Freed(g4, h, SeenSet(g4))
    ensures Derived(Edges(g0), Edges(h)) && (Fresh(g0) ==> Fresh(h))
  {
    hide Derived, Eliminated, Edges, SameLanguage, Marked;
    EliminatedDerived(g0, |g0|, Abs(g1));
    DerivedThrough(Edges(g0), Edges(g1), Edges(g3));
    OnlyReachedAbs(g3, g4);
    FreedAbs(g4, h, SeenSet(g4));
    FewerDerived(Edges(g3), Edges(h));
    DerivedThrough(Edges(g0), Edges(g3), Edges(h));
  }

  /** The pass on an automaton of four states, after which the start accepts a word it did not. */
  method LeakRun(a: Atom, b: Atom, c: Atom) returns (ctxt: ParserCtxt)
    requires a != b
    ensures Built(Leaky(a, b, c)) && !Accepts(Abs(Leaky(a, b, c)), 0, [b]) && Accepts(Abs(ctxt.states), 0, [b])
  {
    hide Built, Leaky, PassKinds, PassTrans, PassTargets, PassMeaning, Eliminated, WellFormed, Recorded;
    LeakyBuilt(a, b, c);
    ctxt := new ParserCtxt(Leaky(a, b, c));
    ctxt.EliminateSimpleEpsilonTransitions();
    LeakySize(a, b, c);
    LeakExample(a, b, c, Abs(ctxt.states));
  }

  /** One state's transitions: of two equal ones to the same state the earlier is cancelled. */
  method CancelDuplicatesOf(trans: seq<Trans>, equal: (Atom, Atom) -> bool, ghost check: Check, ghost before: seq<Trans>)
    returns (ts: seq<Trans>)
    requires EqualsSoundly(equal, check) && Thinned(check, before, trans)
    ensures Thinned(check, before, ts) && NoTwinsBelow(equal, ts, |ts|)
  {
    hide Thinned, NoTwinsBelow, SameMatch;
    ts := trans;
    var transnr := 0;
    FewWithoutTwins(equal, ts, 0);
    while transnr < |ts|
      invariant transnr <= |ts| == |trans| && Thinned(check, before, ts) && NoTwinsBelow(equal, ts, transnr)
    {
      if ts[transnr].atom.Some? && ts[transnr].to != -1 {
        var i := 0;
        while i < transnr
          invariant i <= transnr < |ts| == |trans| && Thinned(check, before, ts) && LiveAtom(ts, transnr)
          invariant NoTwinsBelow(equal, ts, transnr) && forall j: nat :: j < i ==> !Twins(equal, ts, j, transnr)
        {
          if ts[i].to != -1 && ts[i].atom.Some? && ts[transnr].to == ts[i].to
             && equal(ts[transnr].atom.value, ts[i].atom.value) {
            assert SameMatch(check, ts[transnr].atom.value, ts[i].atom.value);
            Mirrored(check, ts[transnr].atom.value, ts[i].atom.value);
            ThinMore(check, before, ts, i, transnr);
            ghost var was := ts;
            ts := ts[i := ts[i].(to := -1)];
            StillNoTwins(equal, was, ts, i, transnr);
          }
          assert !Twins(equal, ts, i, transnr);
          i := i + 1;
        }
      }
      RowWithoutTwins(equal, ts, transnr);
      transnr := transnr + 1;
    }
  }

  /** One state's transitions compared in pairs; both members of an overlap are marked 1, then
      the last that met an earlier one is marked 2. */
  method MarkConflictsOf(trans: seq<Trans>, compare: (Atom, Atom) -> bool, verdict: int) returns (ts: seq<Trans>, ret: int)
    ensures FullyMarked(compare, trans, ts)
    ensures ret == 0 || ret == 1 || ret == verdict
    ensures ret == 0 ==> verdict == 0 || HasConflict(compare, trans)
    ensures !BypassedTrans(trans) ==>
      (ret == 0 <==> verdict == 0 || HasConflict(compare, trans))
  {
    var last: Option<nat>;
    ts, last, ret := MarkRows(trans, compare, verdict);
    MarksEnd(compare, trans, ts, last);
    if last.Some? {
      ts := ts[last.value := ts[last.value].(nd := 2)];
    }
  }

  method MarkRows(trans: seq<Trans>, compare: (Atom, Atom) -> bool, verdict: int)
    returns (ts: seq<Trans>, last: Option<nat>, ret: int)
    ensures |ts| == |trans| && MarkedUpTo(compare, trans, ts, 0, |trans|) && LastMet(compare, trans, last, 0, |trans|)
    ensures Verdict(compare, trans, verdict, last, ret)
  {
    hide MeetsEarlier, MeetsLater, Met, LastMet;
    ts, last, ret := trans, None, verdict;
    MarksStart(compare, trans);
    for transnr := 0 to |trans|
      invariant |ts| == |trans|
      invariant MarkedUpTo(compare, trans, ts, 0, transnr) && LastMet(compare, trans, last, 0, transnr)
      invariant Verdict(compare, trans, verdict, last, ret)
    {
      assert ts[transnr] == trans[transnr].(nd := ts[transnr].nd);
      if ts[transnr].atom.Some? && ts[transnr].to != -1 {
        ts, last, ret := MarkRow(trans, ts, compare, verdict, last, ret, transnr);
      } else {
        SkipRow(compare, trans, ts, last, transnr);
      }
      MarksNextRow(compare, trans, ts, last, transnr);
    }
  }

  /** The inner loop: transition `transnr` against every earlier one. */
  method MarkRow(ghost trans: seq<Trans>, ts0: seq<Trans>, compare: (Atom, Atom) -> bool, ghost verdict: int,
                 last0: Option<nat>, ret0: int, transnr: nat)
    returns (ts: seq<Trans>, last: Option<nat>, ret: int)
    requires transnr < |ts0| == |trans| && LiveAtom(trans, transnr)
    requires MarkedUpTo(compare, trans, ts0, 0, transnr) && LastMet(compare, trans, last0, 0, transnr)
    requires Verdict(compare, trans, verdict, last0, ret0)
    ensures MarkedUpTo(compare, trans, ts, transnr, transnr) && LastMet(compare, trans, last, transnr, transnr)
    ensures Verdict(compare, trans, verdict, last, ret)
  {
    hide MeetsEarlier, MeetsLater, Met, LastMet;
    ts, last, ret := ts0, last0, ret0;
    var i := 0;
    while i < transnr
      invariant i <= transnr < |ts| == |trans|
      invariant MarkedUpTo(compare, trans, ts, i, transnr) && LastMet(compare, trans, last, i, transnr)
      invariant Verdict(compare, trans, verdict, last, ret)
    {
      assert ts[i] == trans[i].(nd := ts[i].nd) && ts[transnr] == trans[transnr].(nd := ts[transnr].nd);
      if ts[i].to != -1 && ts[i].atom.Some? && compare(ts[transnr].atom.value, ts[i].atom.value) {
        assert Conflict(compare, trans, i, transnr) && HasConflict(compare, trans);
        MarksBoth(compare, trans, ts, last, i, transnr);
        ret := 0;
        ts := ts[transnr := ts[transnr].(nd := 1)];
        ts := ts[i := ts[i].(nd := 1)];
        last := Some(transnr);
      } else {
        if ts[i].to != -1 && ts[i].atom.None? {
          // xmlFARecurseDeterminism, asked about the target -2, meets no transition there
          assert BypassedTrans(trans);
          ret := 1;
        }
        MarksSkip(compare, trans, ts, last, i, transnr);
      }
      i := i + 1;
    }
  }

  ghost predicate Verdict(compare: (Atom, Atom) -> bool, trans: seq<Trans>, verdict: int, last: Option<nat>, ret: int) {
    && (ret == 0 || ret == 1 || ret == verdict)
    && (ret == 0 ==> verdict == 0 || HasConflict(compare, trans))
    && (!BypassedTrans(trans) ==> (ret == 0 <==> verdict == 0 || last.Some?))
  }
}
