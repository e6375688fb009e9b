/** The parser's automaton (regexp/xmlregexp.c): an array of states whose transitions, types
    and marks are overwritten in place while the epsilon transitions are removed. Counters are
    not part of this model, so `counter` and `count` are -1 throughout. */
module RegexpAutomaton {
  import opened Wrappers
  import opened RegexpLanguage

  datatype StateType = StartState | FinalState | TransState | SinkState | UnreachState

  datatype Mark = MarkNormal | MarkStart | MarkVisited

  /** A negative `to` is a cancelled transition; no atom is an epsilon transition. */
  datatype Trans = Trans(atom: Label, to: int, nd: nat)

  datatype State = State(kind: StateType, mark: Mark, reached: Mark, trans: seq<Trans>, transTo: seq<nat>)

  /** `ctxt->states`: a freed state leaves a null slot. */
  type Slots = seq<Option<State>>

  predicate Present(g: Slots, i: int) {
    0 <= i < |g| && g[i].Some?
  }

  predicate LiveTrans(g: Slots, i: nat, k: nat) {
    Present(g, i) && k < |g[i].value.trans| && g[i].value.trans[k].to >= 0
  }

  ghost predicate WellFormed(g: Slots) {
    forall i: nat, k: nat :: LiveTrans(g, i, k) ==> Present(g, g[i].value.trans[k].to)
  }

  ghost function EdgeAt(g: Slots, i: nat, k: nat): Edge
    requires LiveTrans(g, i, k)
  {
    (i, g[i].value.trans[k].atom, g[i].value.trans[k].to)
  }

  ghost function TransAt(g: Slots): set<(nat, nat)> {
    set i: nat, k: nat | i < |g| && g[i].Some? && k < |g[i].value.trans| && g[i].value.trans[k].to >= 0 :: (i, k)
  }

  ghost function Edges(g: Slots): (es: set<Edge>)
    ensures forall i: nat, k: nat :: LiveTrans(g, i, k) ==> EdgeAt(g, i, k) in es
    ensures forall e :: e in es ==> exists k: nat :: LiveTrans(g, e.0, k) && EdgeAt(g, e.0, k) == e
  {
    var ps := TransAt(g);
    assert forall p :: p in ps ==> LiveTrans(g, p.0, p.1);
    assert forall i: nat, k: nat :: LiveTrans(g, i, k) ==> (i, k) in ps;
    set p | p in ps :: EdgeAt(g, p.0, p.1)
  }

  ghost function Finals(g: Slots): set<nat> {
    set i: nat | i < |g| && g[i].Some? && g[i].value.kind == FinalState
  }

  ghost function Abs(g: Slots): Nfa {
    Nfa(Edges(g), Finals(g))
  }

  ghost predicate NoEpsilon(g: Slots) {
    forall i: nat, k: nat :: LiveTrans(g, i, k) ==> g[i].value.trans[k].atom.Some?
  }

  /** Every live transition is on record in the `transTo` of the state it enters. */
  ghost predicate Recorded(g: Slots) {
    forall i: nat, k: nat :: LiveTrans(g, i, k) && Present(g, g[i].value.trans[k].to) ==>
      i in g[g[i].value.trans[k].to].value.transTo
  }

  /** No transition has been marked yet, and only epsilons are cancelled with -2. */
  ghost predicate Fresh(g: Slots) {
    forall i: nat, k: nat :: Present(g, i) && k < |g[i].value.trans| ==> FreshTrans(g[i].value.trans[k])
  }

  predicate FreshTrans(t: Trans) {
    t.nd == 0 && (t.atom.Some? ==> t.to >= -1)
  }

  // ------------------------------------------------------------------ single updates

  predicate HasTrans(s: State, atom: Label, to: nat) {
    exists k :: 0 <= k < |s.trans| && s.trans[k].atom == atom && s.trans[k].to == to
  }

  /** xmlRegStateAddTrans: a transition already there is not added twice. */
  function WithTrans(g: Slots, from: nat, atom: Label, target: nat): Slots
    requires Present(g, from) && Present(g, target)
  {
    if HasTrans(g[from].value, atom, target) then g else
    var s := g[from].value;
    var h := g[from := Some(s.(trans := s.trans + [Trans(atom, target, 0)]))];
    var t := h[target].value;
    h[target := Some(t.(transTo := t.transTo + [from]))]
  }

  /** Nothing but the transitions of `from` and some `transTo` records differ. */
  ghost predicate OnlyTransOf(g: Slots, h: Slots, from: nat) {
    && |h| == |g|
    && (forall i :: 0 <= i < |g| ==> h[i].Some? == g[i].Some?)
    && (forall i :: 0 <= i < |g| && g[i].Some? ==>
          && h[i].value.kind == g[i].value.kind && h[i].value.mark == g[i].value.mark
          && h[i].value.reached == g[i].value.reached
          && (i != from ==> h[i].value.trans == g[i].value.trans))
  }

  lemma WithTransShape(g: Slots, from: nat, atom: Label, target: nat)
    requires Present(g, from) && Present(g, target)
    ensures var h := WithTrans(g, from, atom, target);
            && OnlyTransOf(g, h, from)
            && (h[from].value.trans == g[from].value.trans
                || h[from].value.trans == g[from].value.trans + [Trans(atom, target, 0)])
            && HasTrans(h[from].value, atom, target)
            && (forall i :: 0 <= i < |g| && i != target && g[i].Some? ==> h[i].value.transTo == g[i].value.transTo)
            && (forall i, x :: 0 <= i < |g| && g[i].Some? && x in g[i].value.transTo ==> x in h[i].value.transTo)
  {
    var h := WithTrans(g, from, atom, target);
    if !HasTrans(g[from].value, atom, target) {
      var n := |g[from].value.trans|;
      assert h[from].value.trans[n] == Trans(atom, target, 0);
    }
  }

  lemma WithTransEdges(g: Slots, from: nat, atom: Label, target: nat)
    requires Present(g, from) && Present(g, target)
    ensures Edges(WithTrans(g, from, atom, target)) == Edges(g) + {(from, atom, target)}
    ensures Finals(WithTrans(g, from, atom, target)) == Finals(g)
  {
    var h := WithTrans(g, from, atom, target);
    WithTransShape(g, from, atom, target);
    forall e | e in Edges(h)
      ensures e in Edges(g) + {(from, atom, target)}
    {
      var k: nat :| LiveTrans(h, e.0, k) && EdgeAt(h, e.0, k) == e;
      if k < |g[e.0].value.trans| {
        assert LiveTrans(g, e.0, k) && EdgeAt(g, e.0, k) == e;
      }
    }
    forall e | e in Edges(g)
      ensures e in Edges(h)
    {
      var k: nat :| LiveTrans(g, e.0, k) && EdgeAt(g, e.0, k) == e;
      assert LiveTrans(h, e.0, k) && EdgeAt(h, e.0, k) == e;
    }
    var k: nat :| k < |h[from].value.trans| && h[from].value.trans[k].atom == atom && h[from].value.trans[k].to == target;
    assert LiveTrans(h, from, k) && EdgeAt(h, from, k) == (from, atom, target);
  }

  lemma WithTransKeeps(g: Slots, from: nat, atom: Label, target: nat)
    requires Present(g, from) && Present(g, target)
    ensures WellFormed(g) ==> WellFormed(WithTrans(g, from, atom, target))
    ensures Recorded(g) ==> Recorded(WithTrans(g, from, atom, target))
  {
    var h := WithTrans(g, from, atom, target);
    WithTransShape(g, from, atom, target);
    forall i: nat, k: nat | LiveTrans(h, i, k)
      ensures WellFormed(g) ==> Present(h, h[i].value.trans[k].to)
      ensures Recorded(g) && Present(h, h[i].value.trans[k].to) ==> i in h[h[i].value.trans[k].to].value.transTo
    {
      if k < |g[i].value.trans| {
        assert LiveTrans(g, i, k) && g[i].value.trans[k] == h[i].value.trans[k];
      } else {
        assert i == from && h[i].value.trans[k] == Trans(atom, target, 0);
        assert from in h[target].value.transTo;
      }
    }
  }

  /** Turning transition `k` of state `i` to `to`. */
  function Retarget(g: Slots, i: nat, k: nat, to: int): Slots
    requires Present(g, i) && k < |g[i].value.trans|
  {
    var s := g[i].value;
    g[i := Some(s.(trans := s.trans[k := s.trans[k].(to := to)]))]
  }

  lemma CancelEdges(g: Slots, i: nat, k: nat, to: int)
    requires LiveTrans(g, i, k) && to < 0
    ensures Edges(g) - {EdgeAt(g, i, k)} <= Edges(Retarget(g, i, k, to)) <= Edges(g)
    ensures Finals(Retarget(g, i, k, to)) == Finals(g)
    ensures WellFormed(g) ==> WellFormed(Retarget(g, i, k, to))
    ensures Recorded(g) ==> Recorded(Retarget(g, i, k, to))
  {
    var h := Retarget(g, i, k, to);
    forall e | e in Edges(h)
      ensures e in Edges(g)
    {
      var j: nat :| LiveTrans(h, e.0, j) && EdgeAt(h, e.0, j) == e;
      assert LiveTrans(g, e.0, j) && EdgeAt(g, e.0, j) == e;
    }
    forall e | e in Edges(g) && e != EdgeAt(g, i, k)
      ensures e in Edges(h)
    {
      var j: nat :| LiveTrans(g, e.0, j) && EdgeAt(g, e.0, j) == e;
      assert LiveTrans(h, e.0, j) && EdgeAt(h, e.0, j) == e;
    }
    forall x: nat, j: nat | LiveTrans(h, x, j)
      ensures LiveTrans(g, x, j) && h[x].value.trans[j] == g[x].value.trans[j]
    {}
  }

  lemma RetargetFresh(g: Slots, i: nat, k: nat, to: int)
    requires Present(g, i) && k < |g[i].value.trans| && Fresh(g) && (to == -1 || g[i].value.trans[k].atom.None?)
    ensures Fresh(Retarget(g, i, k, to))
  {
  }

  lemma WithTransFresh(g: Slots, from: nat, atom: Label, target: nat)
    requires Present(g, from) && Present(g, target) && Fresh(g)
    ensures Fresh(WithTrans(g, from, atom, target))
  {
    WithTransShape(g, from, atom, target);
    var h := WithTrans(g, from, atom, target);
    forall i: nat, k: nat | Present(h, i) && k < |h[i].value.trans|
      ensures FreshTrans(h[i].value.trans[k])
    {
      assert Present(g, i);
      if i != from || k < |g[i].value.trans| { assert h[i].value.trans[k] == g[i].value.trans[k]; }
    }
  }
}
