/** xmlFAComputesDeterminism on values: duplicate transitions are cancelled, and every
    transition that overlaps a later one is marked so that the matcher saves a way back. */
module RegexpDeterminism {
  import opened Wrappers
  import opened RegexpLanguage
  import opened RegexpAutomaton

  type CodePoint = nat

  /** xmlRegCheckCharacter: 1 for a match, 0 for none, negative when it cannot tell. */
  type Check = (Atom, CodePoint) -> int

  ghost predicate AcceptsChars(n: Nfa, check: Check, q: nat, s: seq<CodePoint>)
    decreases |s|
  {
    if s == [] then q in n.finals else
    exists a, r: nat :: (q, Some(a), r) in n.edges && check(a, s[0]) == 1 && AcceptsChars(n, check, r, s[1..])
  }

  ghost predicate Spells(check: Check, w: seq<Atom>, s: seq<CodePoint>) {
    |w| == |s| && forall i :: 0 <= i < |w| ==> check(w[i], s[i]) == 1
  }

  /** The string is spelled by an atom word that `q` accepts. */
  ghost predicate InLanguage(n: Nfa, check: Check, q: nat, s: seq<CodePoint>) {
    exists w :: Spells(check, w, s) && Accepts(n, q, w)
  }

  /** Without epsilons, acceptance can be read off one character at a time. */
  lemma {:induction false} CharsAreWords(n: Nfa, check: Check, q: nat, s: seq<CodePoint>)
    requires forall e :: e in n.edges ==> e.1.Some?
    ensures AcceptsChars(n, check, q, s) <==> InLanguage(n, check, q, s)
    decreases |s|
  {
    if s == [] {
      if q in n.finals {
        AcceptsFinal(n, q);
        assert Spells(check, [], s);
      }
      if w :| Spells(check, w, s) && Accepts(n, q, w) {
        NoEpsilonStep(n, q, w);
      }
    } else {
      if a, r: nat :| (q, Some(a), r) in n.edges && check(a, s[0]) == 1 && AcceptsChars(n, check, r, s[1..]) {
        CharsAreWords(n, check, r, s[1..]);
        var w :| Spells(check, w, s[1..]) && Accepts(n, r, w);
        assert ([a] + w)[1..] == w;
        AcceptsAtom(n, q, r, [a] + w);
        assert Spells(check, [a] + w, s);
      }
      if w :| Spells(check, w, s) && Accepts(n, q, w) {
        NoEpsilonStep(n, q, w);
        var r: nat :| (q, Some(w[0]), r) in n.edges && Accepts(n, r, w[1..]);
        assert Spells(check, w[1..], s[1..]);
        CharsAreWords(n, check, r, s[1..]);
      }
    }
  }

  lemma NoEpsilonStep(n: Nfa, q: nat, w: seq<Atom>)
    requires (forall e :: e in n.edges ==> e.1.Some?) && Accepts(n, q, w)
    ensures if w == [] then q in n.finals else exists r: nat :: (q, Some(w[0]), r) in n.edges && Accepts(n, r, w[1..])
  {
    var k: nat :| AcceptsWithin(n, k, q, w);
    forall r: nat
      ensures (q, None, r) !in n.edges
    {
      var e: Edge := (q, None, r);
      assert e in n.edges ==> e.1.Some?;
    }
    if w != [] {
      var r :| (q, Some(w[0]), r) in n.edges && AcceptsWithin(n, k - 1, r, w[1..]);
      assert Accepts(n, r, w[1..]);
    }
  }

  lemma SameLanguageSameStrings(m: Nfa, n: Nfa, check: Check, q: nat, s: seq<CodePoint>)
    requires SameLanguage(m, n, q)
    ensures InLanguage(m, check, q, s) <==> InLanguage(n, check, q, s)
  {
  }

  // ------------------------------------------------------------- duplicate transitions

  ghost predicate SameMatch(check: Check, a: Atom, b: Atom) {
    forall c: CodePoint :: check(a, c) == check(b, c)
  }

  /** xmlFAEqualAtoms never equates atoms that match differently. */
  ghost predicate EqualsSoundly(equal: (Atom, Atom) -> bool, check: Check) {
    forall a, b :: equal(a, b) ==> SameMatch(check, a, b)
  }

  predicate LiveAtom(ts: seq<Trans>, k: nat) {
    k < |ts| && ts[k].atom.Some? && ts[k].to != -1
  }

  /** Some transitions were cancelled, each with an equivalent one left. */
  ghost predicate Thinned(check: Check, before: seq<Trans>, after: seq<Trans>) {
    && |after| == |before|
    && (forall k :: 0 <= k < |before| ==> after[k] == before[k] || (LiveAtom(before, k) && after[k] == before[k].(to := -1)))
    && (forall k: nat :: LiveAtom(before, k) ==> exists j: nat :: Replaces(check, before[k], after, j))
  }

  ghost predicate Replaces(check: Check, t: Trans, after: seq<Trans>, j: nat) {
    t.atom.Some? && LiveAtom(after, j) && after[j].to == t.to && SameMatch(check, t.atom.value, after[j].atom.value)
  }

  lemma Mirrored(check: Check, a: Atom, b: Atom)
    requires SameMatch(check, a, b)
    ensures SameMatch(check, b, a)
  {
  }

  lemma ThinnedSame(check: Check, ts: seq<Trans>)
    ensures Thinned(check, ts, ts)
  {
    forall k: nat | LiveAtom(ts, k)
      ensures exists j: nat :: Replaces(check, ts[k], ts, j)
    {
      assert Replaces(check, ts[k], ts, k);
    }
  }

  lemma ThinMore(check: Check, before: seq<Trans>, ts: seq<Trans>, i: nat, j: nat)
    requires Thinned(check, before, ts) && i < j && LiveAtom(ts, i) && LiveAtom(ts, j) && ts[i].to == ts[j].to
    requires SameMatch(check, ts[i].atom.value, ts[j].atom.value)
    ensures Thinned(check, before, ts[i := ts[i].(to := -1)])
  {
    var after := ts[i := ts[i].(to := -1)];
    forall k: nat | LiveAtom(before, k)
      ensures exists m: nat :: Replaces(check, before[k], after, m)
    {
      var m: nat :| Replaces(check, before[k], ts, m);
      if m == i {
        assert Replaces(check, before[k], after, j);
      } else {
        assert Replaces(check, before[k], after, m);
      }
    }
  }

  /** Two live transitions to one state, on atoms found equal. */
  predicate Twins(equal: (Atom, Atom) -> bool, ts: seq<Trans>, i: nat, k: nat) {
    i < k < |ts| && LiveAtom(ts, i) && LiveAtom(ts, k) && ts[i].to == ts[k].to && equal(ts[k].atom.value, ts[i].atom.value)
  }

  ghost predicate NoTwinsBelow(equal: (Atom, Atom) -> bool, ts: seq<Trans>, n: nat) {
    forall i: nat, k: nat :: k < n ==> !Twins(equal, ts, i, k)
  }

  ghost predicate NoTwins(equal: (Atom, Atom) -> bool, g: Slots) {
    forall q: nat :: Present(g, q) ==> NoTwinsBelow(equal, g[q].value.trans, |g[q].value.trans|)
  }

  lemma RowWithoutTwins(equal: (Atom, Atom) -> bool, ts: seq<Trans>, n: nat)
    requires NoTwinsBelow(equal, ts, n) && forall j: nat :: j < n ==> !Twins(equal, ts, j, n)
    ensures NoTwinsBelow(equal, ts, n + 1)
  {
  }

  lemma FewWithoutTwins(equal: (Atom, Atom) -> bool, ts: seq<Trans>, n: nat)
    requires n == 0 || |ts| < 2
    ensures NoTwinsBelow(equal, ts, n)
  {
  }

  /** Cancelling one more makes no twins. */
  lemma StillNoTwins(equal: (Atom, Atom) -> bool, ts: seq<Trans>, ts': seq<Trans>, j: nat, n: nat)
    requires j < |ts| && ts' == ts[j := ts[j].(to := -1)]
    ensures NoTwinsBelow(equal, ts, n) ==> NoTwinsBelow(equal, ts', n)
    ensures forall i: nat, k: nat :: Twins(equal, ts', i, k) ==> Twins(equal, ts, i, k)
  {
    assert forall i: nat, k: nat :: Twins(equal, ts', i, k) ==> Twins(equal, ts, i, k);
  }

  ghost predicate ThinnedAll(check: Check, g: Slots, h: Slots) {
    |h| == |g| && forall i :: 0 <= i < |g| ==>
      h[i].Some? == g[i].Some? && (g[i].Some? ==>
        Thinned(check, g[i].value.trans, h[i].value.trans) && h[i].value == g[i].value.(trans := h[i].value.trans))
  }

  lemma Replacement(check: Check, before: seq<Trans>, after: seq<Trans>, k: nat) returns (j: nat)
    requires Thinned(check, before, after) && LiveAtom(before, k)
    ensures Replaces(check, before[k], after, j)
  {
    j :| Replaces(check, before[k], after, j);
  }

  lemma ThinnedEdges(check: Check, g: Slots, h: Slots)
    requires ThinnedAll(check, g, h) && NoEpsilon(g)
    ensures Edges(h) <= Edges(g) && Finals(h) == Finals(g) && NoEpsilon(h)
    ensures WellFormed(g) ==> WellFormed(h)
    ensures forall e :: e in Edges(g) ==> e.1.Some? && HasLike(check, Edges(h), e)
  {
    hide SameMatch;
    forall i: nat, k: nat | LiveTrans(h, i, k)
      ensures LiveTrans(g, i, k) && EdgeAt(g, i, k) == EdgeAt(h, i, k)
    {}
    assert forall i: nat :: i in Finals(h) <==> i in Finals(g);
    forall e | e in Edges(h)
      ensures e in Edges(g)
    {
      var k: nat :| LiveTrans(h, e.0, k) && EdgeAt(h, e.0, k) == e;
      assert LiveTrans(g, e.0, k);
    }
    forall e | e in Edges(g)
      ensures e.1.Some? && HasLike(check, Edges(h), e)
    {
      var k: nat :| LiveTrans(g, e.0, k) && EdgeAt(g, e.0, k) == e;
      var ts := g[e.0].value.trans;
      assert LiveAtom(ts, k);
      var j := Replacement(check, ts, h[e.0].value.trans, k);
      assert LiveTrans(h, e.0, j) && EdgeAt(h, e.0, j) in Edges(h);
      assert (e.0, Some(h[e.0].value.trans[j].atom.value), e.2) == EdgeAt(h, e.0, j);
    }
  }

  ghost predicate HasLike(check: Check, es: set<Edge>, e: Edge)
    requires e.1.Some?
  {
    exists a :: (e.0, Some(a), e.2) in es && SameMatch(check, e.1.value, a)
  }

  lemma {:induction false} LikeAccepts(check: Check, m: Nfa, n: Nfa, q: nat, s: seq<CodePoint>)
    requires m.finals <= n.finals
    requires forall e :: e in m.edges ==> e.1.Some? && HasLike(check, n.edges, e)
    requires AcceptsChars(m, check, q, s)
    ensures AcceptsChars(n, check, q, s)
    decreases |s|
  {
    if s != [] {
      var a, r: nat :| (q, Some(a), r) in m.edges && check(a, s[0]) == 1 && AcceptsChars(m, check, r, s[1..]);
      var e: Edge := (q, Some(a), r);
      assert HasLike(check, n.edges, e);
      var b :| (e.0, Some(b), e.2) in n.edges && SameMatch(check, e.1.value, b);
      LikeAccepts(check, m, n, r, s[1..]);
    }
  }

  lemma ThinnedAccepts(check: Check, m: Nfa, n: Nfa, q: nat, s: seq<CodePoint>)
    requires n.edges <= m.edges && n.finals == m.finals
    requires forall e :: e in m.edges ==> e.1.Some? && HasLike(check, n.edges, e)
    ensures AcceptsChars(m, check, q, s) <==> AcceptsChars(n, check, q, s)
  {
    if AcceptsChars(m, check, q, s) { LikeAccepts(check, m, n, q, s); }
    if AcceptsChars(n, check, q, s) {
      forall e | e in n.edges
        ensures e.1.Some? && HasLike(check, m.edges, e)
      {
        assert (e.0, Some(e.1.value), e.2) == e;
      }
      LikeAccepts(check, n, m, q, s);
    }
  }

  // ------------------------------------------------------------- non-determinism marks

  /** Transitions `i` < `k` of a state are taken to overlap. */
  predicate Conflict(compare: (Atom, Atom) -> bool, ts: seq<Trans>, i: nat, k: nat) {
    i < k < |ts| && LiveAtom(ts, i) && LiveAtom(ts, k) && compare(ts[k].atom.value, ts[i].atom.value)
  }

  predicate Before(i: nat, k: nat, i': nat, k': nat) {
    k < k' || (k == k' && i < i')
  }

  /** A conflicting pair visited before (i, k) in the order of the two loops. */
  ghost predicate Met(compare: (Atom, Atom) -> bool, ts: seq<Trans>, x: nat, y: nat, i: nat, k: nat) {
    Conflict(compare, ts, x, y) && Before(x, y, i, k)
  }

  ghost predicate MeetsEarlier(compare: (Atom, Atom) -> bool, ts: seq<Trans>, y: nat, i: nat, k: nat) {
    exists x: nat :: Met(compare, ts, x, y, i, k)
  }

  ghost predicate MeetsLater(compare: (Atom, Atom) -> bool, ts: seq<Trans>, x: nat, i: nat, k: nat) {
    exists y: nat :: Met(compare, ts, x, y, i, k)
  }

  /** The marks when the loops stand at (i, k): 1 on both members of each conflict met. */
  ghost predicate MarkedUpTo(compare: (Atom, Atom) -> bool, ts0: seq<Trans>, ts: seq<Trans>, i: nat, k: nat) {
    |ts| == |ts0| && forall m: nat :: m < |ts| ==>
      ts[m] == if MeetsEarlier(compare, ts0, m, i, k) || MeetsLater(compare, ts0, m, i, k) then ts0[m].(nd := 1) else ts0[m]
  }

  /** The last transition so far with an earlier conflict. */
  ghost predicate LastMet(compare: (Atom, Atom) -> bool, ts0: seq<Trans>, last: Option<nat>, i: nat, k: nat) {
    match last
    case None => forall y: nat :: !MeetsEarlier(compare, ts0, y, i, k)
    case Some(l) => MeetsEarlier(compare, ts0, l, i, k) && l <= k && forall y: nat :: MeetsEarlier(compare, ts0, y, i, k) ==> y <= l
  }

  lemma MarksStart(compare: (Atom, Atom) -> bool, ts0: seq<Trans>)
    ensures MarkedUpTo(compare, ts0, ts0, 0, 0) && LastMet(compare, ts0, None, 0, 0)
  {
  }

  lemma MarksNextRow(compare: (Atom, Atom) -> bool, ts0: seq<Trans>, ts: seq<Trans>, last: Option<nat>, k: nat)
    requires MarkedUpTo(compare, ts0, ts, k, k) && LastMet(compare, ts0, last, k, k)
    ensures MarkedUpTo(compare, ts0, ts, 0, k + 1) && LastMet(compare, ts0, last, 0, k + 1)
  {
    hide MeetsEarlier, MeetsLater, Met;
    RowMet(compare, ts0, k);
    SameMet(compare, ts0, k, k, 0, k + 1);
  }

  lemma RowMet(compare: (Atom, Atom) -> bool, ts: seq<Trans>, k: nat)
    ensures forall x: nat, y: nat :: Met(compare, ts, x, y, k, k) <==> Met(compare, ts, x, y, 0, k + 1)
  {
  }

  lemma SameMet(compare: (Atom, Atom) -> bool, ts: seq<Trans>, i: nat, k: nat, i': nat, k': nat)
    requires forall x: nat, y: nat :: Met(compare, ts, x, y, i, k) <==> Met(compare, ts, x, y, i', k')
    ensures forall m: nat :: MeetsEarlier(compare, ts, m, i, k) <==> MeetsEarlier(compare, ts, m, i', k')
    ensures forall m: nat :: MeetsLater(compare, ts, m, i, k) <==> MeetsLater(compare, ts, m, i', k')
  {
    forall m: nat
      ensures MeetsEarlier(compare, ts, m, i, k) <==> MeetsEarlier(compare, ts, m, i', k')
      ensures MeetsLater(compare, ts, m, i, k) <==> MeetsLater(compare, ts, m, i', k')
    {
      if x: nat :| Met(compare, ts, x, m, i, k) { assert Met(compare, ts, x, m, i', k'); }
      if x: nat :| Met(compare, ts, x, m, i', k') { assert Met(compare, ts, x, m, i, k); }
      if y: nat :| Met(compare, ts, m, y, i, k) { assert Met(compare, ts, m, y, i', k'); }
      if y: nat :| Met(compare, ts, m, y, i', k') { assert Met(compare, ts, m, y, i, k); }
    }
  }

  lemma MarksSkip(compare: (Atom, Atom) -> bool, ts0: seq<Trans>, ts: seq<Trans>, last: Option<nat>, i: nat, k: nat)
    requires MarkedUpTo(compare, ts0, ts, i, k) && LastMet(compare, ts0, last, i, k)
    requires !Conflict(compare, ts0, i, k)
    ensures MarkedUpTo(compare, ts0, ts, i + 1, k) && LastMet(compare, ts0, last, i + 1, k)
  {
    SameMet(compare, ts0, i, k, i + 1, k);
  }

  /** A row whose transition is cancelled, or has no atom, meets nothing. */
  lemma SkipRow(compare: (Atom, Atom) -> bool, ts0: seq<Trans>, ts: seq<Trans>, last: Option<nat>, k: nat)
    requires MarkedUpTo(compare, ts0, ts, 0, k) && LastMet(compare, ts0, last, 0, k)
    requires !LiveAtom(ts0, k)
    ensures MarkedUpTo(compare, ts0, ts, k, k) && LastMet(compare, ts0, last, k, k)
  {
    SameMet(compare, ts0, 0, k, k, k);
  }

  lemma MetNext(compare: (Atom, Atom) -> bool, ts0: seq<Trans>, i: nat, k: nat, m: nat)
    requires Conflict(compare, ts0, i, k)
    ensures MeetsEarlier(compare, ts0, m, i + 1, k) <==> MeetsEarlier(compare, ts0, m, i, k) || m == k
    ensures MeetsLater(compare, ts0, m, i + 1, k) <==> MeetsLater(compare, ts0, m, i, k) || m == i
  {
    hide Conflict;
    var i' := i + 1;
    assert Met(compare, ts0, i, k, i', k);
    if x: nat :| Met(compare, ts0, x, m, i, k) { assert Met(compare, ts0, x, m, i', k); }
    if x: nat :| Met(compare, ts0, x, m, i', k) { assert m == k || Met(compare, ts0, x, m, i, k); }
    if y: nat :| Met(compare, ts0, m, y, i, k) { assert Met(compare, ts0, m, y, i', k); }
    if y: nat :| Met(compare, ts0, m, y, i', k) { assert m == i || Met(compare, ts0, m, y, i, k); }
  }

  lemma MarksBoth(compare: (Atom, Atom) -> bool, ts0: seq<Trans>, ts: seq<Trans>, last: Option<nat>, i: nat, k: nat)
    requires MarkedUpTo(compare, ts0, ts, i, k) && LastMet(compare, ts0, last, i, k)
    requires Conflict(compare, ts0, i, k)
    ensures MarkedUpTo(compare, ts0, ts[k := ts[k].(nd := 1)][i := ts[i].(nd := 1)], i + 1, k)
    ensures LastMet(compare, ts0, Some(k), i + 1, k)
  {
    assert i < k < |ts0|;
    hide MeetsEarlier, MeetsLater, Conflict;
    forall m: nat
      ensures MeetsEarlier(compare, ts0, m, i + 1, k) <==> MeetsEarlier(compare, ts0, m, i, k) || m == k
      ensures MeetsLater(compare, ts0, m, i + 1, k) <==> MeetsLater(compare, ts0, m, i, k) || m == i
    {
      MetNext(compare, ts0, i, k, m);
    }
  }

  /** The marks a state ends with: 2 on the last transition with an earlier conflict, 1 on every
      other member of a conflict. */
  ghost predicate FullyMarked(compare: (Atom, Atom) -> bool, ts0: seq<Trans>, ts: seq<Trans>) {
    |ts| == |ts0| && forall m: nat :: m < |ts| ==> ts[m] == ts0[m].(nd := MarkOf(compare, ts0, m))
  }

  ghost predicate IsLast(compare: (Atom, Atom) -> bool, ts: seq<Trans>, m: nat) {
    && (exists x: nat :: Conflict(compare, ts, x, m))
    && (forall x: nat, y: nat :: Conflict(compare, ts, x, y) ==> y <= m)
  }

  ghost function MarkOf(compare: (Atom, Atom) -> bool, ts: seq<Trans>, m: nat): nat
    requires m < |ts|
  {
    if IsLast(compare, ts, m) then 2
    else if exists x: nat :: Conflict(compare, ts, x, m) || Conflict(compare, ts, m, x) then 1
    else ts[m].nd
  }

  lemma AllMet(compare: (Atom, Atom) -> bool, ts: seq<Trans>, m: nat)
    ensures MeetsEarlier(compare, ts, m, 0, |ts|) <==> exists x: nat :: Conflict(compare, ts, x, m)
    ensures MeetsLater(compare, ts, m, 0, |ts|) <==> exists x: nat :: Conflict(compare, ts, m, x)
  {
    if x: nat :| Conflict(compare, ts, x, m) { assert Met(compare, ts, x, m, 0, |ts|); }
    if x: nat :| Conflict(compare, ts, m, x) { assert Met(compare, ts, m, x, 0, |ts|); }
    if x: nat :| Met(compare, ts, x, m, 0, |ts|) { assert Conflict(compare, ts, x, m); }
    if x: nat :| Met(compare, ts, m, x, 0, |ts|) { assert Conflict(compare, ts, m, x); }
  }

  lemma LastIsLast(compare: (Atom, Atom) -> bool, ts0: seq<Trans>, last: Option<nat>, m: nat)
    requires LastMet(compare, ts0, last, 0, |ts0|)
    ensures IsLast(compare, ts0, m) <==> last == Some(m)
  {
    AllMet(compare, ts0, m);
    if last.Some? { AllMet(compare, ts0, last.value); }
    forall x: nat, y: nat | Conflict(compare, ts0, x, y)
      ensures last.Some? && y <= last.value
    {
      AllMet(compare, ts0, y);
    }
  }

  lemma MarksEnd(compare: (Atom, Atom) -> bool, ts0: seq<Trans>, ts: seq<Trans>, last: Option<nat>)
    requires MarkedUpTo(compare, ts0, ts, 0, |ts0|) && LastMet(compare, ts0, last, 0, |ts0|)
    ensures last.Some? ==> last.value < |ts0|
    ensures FullyMarked(compare, ts0, if last.Some? then ts[last.value := ts[last.value].(nd := 2)] else ts)
    ensures last.Some? <==> HasConflict(compare, ts0)
  {
    if last.Some? {
      AllMet(compare, ts0, last.value);
      var x: nat :| Conflict(compare, ts0, x, last.value);
    } else if x: nat, y: nat :| Conflict(compare, ts0, x, y) {
      AllMet(compare, ts0, y);
      assert false;
    }
    var ts' := if last.Some? then ts[last.value := ts[last.value].(nd := 2)] else ts;
    forall m: nat | m < |ts'|
      ensures ts'[m] == ts0[m].(nd := MarkOf(compare, ts0, m))
    {
      LastIsLast(compare, ts0, last, m);
      AllMet(compare, ts0, m);
      assert (exists x: nat :: Conflict(compare, ts0, x, m) || Conflict(compare, ts0, m, x))
        <==> MeetsEarlier(compare, ts0, m, 0, |ts0|) || MeetsLater(compare, ts0, m, 0, |ts0|);
    }
  }

  /** What the matcher relies on: the earlier member of a conflict carries mark 1. */
  lemma EarlierIsMarkedOne(compare: (Atom, Atom) -> bool, ts0: seq<Trans>, i: nat, k: nat)
    requires Conflict(compare, ts0, i, k)
    ensures MarkOf(compare, ts0, i) == 1
  {
    assert !IsLast(compare, ts0, i);
  }

  // ------------------------------------------------------------- the whole automaton

  /** Every state's live transitions carry the marks `MarkOf` gives them. */
  ghost predicate MarkedAll(compare: (Atom, Atom) -> bool, g: Slots, h: Slots) {
    |h| == |g| && forall i :: 0 <= i < |g| ==> MarkedSlot(compare, g[i], h[i])
  }

  lemma MarkedEdges(compare: (Atom, Atom) -> bool, g: Slots, h: Slots)
    requires MarkedAll(compare, g, h)
    ensures Edges(h) == Edges(g) && Finals(h) == Finals(g)
    ensures NoEpsilon(g) ==> NoEpsilon(h)
    ensures WellFormed(g) ==> WellFormed(h)
  {
    forall i: nat, k: nat
      ensures LiveTrans(h, i, k) <==> LiveTrans(g, i, k)
      ensures LiveTrans(h, i, k) ==> EdgeAt(h, i, k) == EdgeAt(g, i, k)
    {}
    forall e | e in Edges(h)
      ensures e in Edges(g)
    {
      var k: nat :| LiveTrans(h, e.0, k) && EdgeAt(h, e.0, k) == e;
      assert LiveTrans(g, e.0, k);
    }
    forall e | e in Edges(g)
      ensures e in Edges(h)
    {
      var k: nat :| LiveTrans(g, e.0, k) && EdgeAt(g, e.0, k) == e;
      assert LiveTrans(h, e.0, k);
    }
    assert forall i: nat :: i in Finals(h) <==> i in Finals(g);
  }

  /** Overlapping transitions of one state: the earlier carries mark 1. */
  ghost predicate OverlapsMarked(check: Check, g: Slots) {
    forall q: nat, i: nat, k: nat, c: CodePoint ::
      LiveTrans(g, q, i) && LiveTrans(g, q, k) && i < k && Matches(check, g, q, i, c) && Matches(check, g, q, k, c) ==>
        g[q].value.trans[i].nd == 1
  }

  predicate Matches(check: Check, g: Slots, q: nat, k: nat, c: CodePoint)
    requires LiveTrans(g, q, k)
  {
    g[q].value.trans[k].atom.Some? && check(g[q].value.trans[k].atom.value, c) == 1
  }

  /** xmlFACompareAtoms answers yes whenever two atoms match a common character. */
  ghost predicate ComparesSoundly(compare: (Atom, Atom) -> bool, check: Check) {
    forall a, b, c: CodePoint :: check(a, c) == 1 && check(b, c) == 1 ==> compare(a, b)
  }

  lemma MarkedOverlaps(compare: (Atom, Atom) -> bool, check: Check, g: Slots, h: Slots)
    requires MarkedAll(compare, g, h) && ComparesSoundly(compare, check)
    ensures OverlapsMarked(check, h)
  {
    forall q: nat, i: nat, k: nat, c: CodePoint |
      LiveTrans(h, q, i) && LiveTrans(h, q, k) && i < k && Matches(check, h, q, i, c) && Matches(check, h, q, k, c)
      ensures h[q].value.trans[i].nd == 1
    {
      assert Conflict(compare, g[q].value.trans, i, k);
      EarlierIsMarkedOne(compare, g[q].value.trans, i, k);
    }
  }

  ghost predicate HasConflict(compare: (Atom, Atom) -> bool, ts: seq<Trans>) {
    exists i: nat, k: nat :: Conflict(compare, ts, i, k)
  }

  ghost predicate ConflictBelow(compare: (Atom, Atom) -> bool, g: Slots, n: nat) {
    exists q: nat :: q < n && Present(g, q) && HasConflict(compare, g[q].value.trans)
  }

  lemma ConflictNext(compare: (Atom, Atom) -> bool, g: Slots, n: nat)
    ensures ConflictBelow(compare, g, n + 1) <==>
            ConflictBelow(compare, g, n) || (Present(g, n) && HasConflict(compare, g[n].value.trans))
  {
    if ConflictBelow(compare, g, n) {
      var q: nat :| q < n && Present(g, q) && HasConflict(compare, g[q].value.trans);
      assert q < n + 1;
    }
  }

  /** An epsilon that was cancelled with -2, as opposed to -1. */
  predicate BypassedTrans(ts: seq<Trans>) {
    exists k :: 0 <= k < |ts| && ts[k].atom.None? && ts[k].to != -1
  }

  ghost predicate NoneBypassed(g: Slots) {
    forall i :: 0 <= i < |g| && g[i].Some? ==> !BypassedTrans(g[i].value.trans)
  }

  /** Fewer than two transitions cannot conflict. */
  lemma FewTransitions(compare: (Atom, Atom) -> bool, ts: seq<Trans>)
    requires |ts| < 2
    ensures FullyMarked(compare, ts, ts)
    ensures !HasConflict(compare, ts)
  {
  }

  ghost predicate MarkedSlot(compare: (Atom, Atom) -> bool, s: Option<State>, t: Option<State>) {
    t.Some? == s.Some? && (s.Some? ==>
      FullyMarked(compare, s.value.trans, t.value.trans) && t.value == s.value.(trans := t.value.trans))
  }
}
