/** The backtracking matcher xmlFARegExec (regexp/xmlregexp.c) on a counter-free automaton
    without epsilons. The content is its sequence of code points. */
module RegexpExec {
  import opened Wrappers
  import opened RegexpLanguage
  import opened RegexpAutomaton
  import opened RegexpDeterminism

  const MAX_PUSH: nat := 10000000

  datatype Rollback = Rollback(state: nat, index: nat, nextbranch: nat)

  /** What a run of the matcher works on. */
  datatype Subject = Subject(comp: Slots, input: seq<CodePoint>, check: Check)

  ghost predicate Runnable(s: Subject) {
    WellFormed(s.comp) && NoEpsilon(s.comp) && Present(s.comp, 0)
  }

  /** A code point no atom can judge is one that no atom matches. */
  ghost predicate JudgedAlike(s: Subject) {
    forall a, b, c: CodePoint :: s.check(a, c) < 0 ==> s.check(b, c) < 0
  }

  ghost predicate Accepted(s: Subject, q: nat, i: nat) {
    i <= |s.input| && AcceptsChars(Abs(s.comp), s.check, q, s.input[i..])
  }

  /** Transition `k` of `q` can be taken at `i` and what follows is accepted. */
  ghost predicate AcceptedBy(s: Subject, q: nat, i: nat, k: nat) {
    && LiveTrans(s.comp, q, k) && i < |s.input| && Matches(s.check, s.comp, q, k, s.input[i])
    && Accepted(s, s.comp[q].value.trans[k].to, i + 1)
  }

  /** Acceptance is still open from here: trying transitions `from` onwards. */
  ghost predicate AcceptedFrom(s: Subject, q: nat, i: nat, from: nat) {
    if i == |s.input| then q in Finals(s.comp) else exists k: nat :: k >= from && AcceptedBy(s, q, i, k)
  }

  lemma AcceptedUnfold(s: Subject, q: nat, i: nat)
    requires NoEpsilon(s.comp) && i <= |s.input| && Present(s.comp, q)
    ensures Accepted(s, q, i) <==> AcceptedFrom(s, q, i, 0)
  {
    if i < |s.input| {
      assert s.input[i..][1..] == s.input[i + 1..];
      if a, r: nat :| (q, Some(a), r) in Edges(s.comp) && s.check(a, s.input[i]) == 1
                      && AcceptsChars(Abs(s.comp), s.check, r, s.input[i + 1..]) {
        var e: Edge := (q, Some(a), r);
        var k: nat :| LiveTrans(s.comp, e.0, k) && EdgeAt(s.comp, e.0, k) == e;
        assert AcceptedBy(s, q, i, k);
      }
      if k: nat :| AcceptedBy(s, q, i, k) {
        var t := s.comp[q].value.trans[k];
        assert EdgeAt(s.comp, q, k) == (q, Some(t.atom.value), t.to);
        assert (q, Some(t.atom.value), t.to as nat) in Edges(s.comp);
        assert AcceptsChars(Abs(s.comp), s.check, t.to, s.input[i..][1..]);
      }
    }
  }

  predicate CanTake(s: Subject, q: nat, i: nat, k: nat) {
    LiveTrans(s.comp, q, k) && i < |s.input| && Matches(s.check, s.comp, q, k, s.input[i])
  }

  /** The search from transition `k` of `q` on: the first transition that matches is taken, and
      only a marked one leaves a way back to those after it. */
  ghost predicate Found(s: Subject, q: nat, i: nat, k: nat)
    requires WellFormed(s.comp) && Present(s.comp, q)
    decreases |s.input| - i, |s.comp[q].value.trans| - k
  {
    if i >= |s.input| then q in Finals(s.comp)
    else if k >= |s.comp[q].value.trans| then false
    else if CanTake(s, q, i, k) then
      var t := s.comp[q].value.trans[k];
      Found(s, t.to, i + 1, 0) || (t.nd == 1 && Found(s, q, i, k + 1))
    else Found(s, q, i, k + 1)
  }

  /** What the search finds is an accepting run. */
  lemma {:induction false} FoundIsAccepted(s: Subject, q: nat, i: nat, k: nat)
    requires Runnable(s) && Present(s.comp, q) && i <= |s.input| && Found(s, q, i, k)
    ensures AcceptedFrom(s, q, i, k)
    decreases |s.input| - i, |s.comp[q].value.trans| - k
  {
    if i < |s.input| {
      if CanTake(s, q, i, k) && Found(s, s.comp[q].value.trans[k].to, i + 1, 0) {
        FoundIsAccepted(s, s.comp[q].value.trans[k].to, i + 1, 0);
        AcceptedUnfold(s, s.comp[q].value.trans[k].to, i + 1);
        assert AcceptedBy(s, q, i, k);
      } else {
        FoundIsAccepted(s, q, i, k + 1);
        var m: nat :| m >= k + 1 && AcceptedBy(s, q, i, m);
        assert m >= k;
      }
    }
  }

  /** Where overlaps are marked the search misses no accepting run. */
  lemma {:induction false} MarkedFindsAll(s: Subject, q: nat, i: nat, k: nat)
    requires Runnable(s) && Present(s.comp, q) && i <= |s.input|
    requires OverlapsMarked(s.check, s.comp) && AcceptedFrom(s, q, i, k)
    ensures Found(s, q, i, k)
    decreases |s.input| - i, |s.comp[q].value.trans| - k
  {
    hide Accepted, Edges, Finals;
    if i < |s.input| {
      var m: nat :| m >= k && AcceptedBy(s, q, i, m);
      if m == k {
        AcceptedUnfold(s, s.comp[q].value.trans[k].to, i + 1);
        MarkedFindsAll(s, s.comp[q].value.trans[k].to, i + 1, 0);
      } else {
        assert m >= k + 1;
        MarkedFindsAll(s, q, i, k + 1);
      }
    }
  }

  /** The search decides acceptance wherever overlaps are marked. */
  lemma FoundExactly(s: Subject)
    requires Runnable(s)
    ensures Found(s, 0, 0, 0) ==> WholeAccepted(s)
    ensures OverlapsMarked(s.check, s.comp) ==> (Found(s, 0, 0, 0) <==> WholeAccepted(s))
  {
    AcceptedUnfold(s, 0, 0);
    if Found(s, 0, 0, 0) { FoundIsAccepted(s, 0, 0, 0); }
    if WholeAccepted(s) && OverlapsMarked(s.check, s.comp) { MarkedFindsAll(s, 0, 0, 0); }
  }

  /** Steps the search can still make from a configuration: its whole tree. */
  ghost function Work(s: Subject, q: nat, i: nat, k: nat): nat
    requires WellFormed(s.comp) && Present(s.comp, q)
    decreases |s.input| - i, |s.comp[q].value.trans| - k
  {
    if i >= |s.input| || k >= |s.comp[q].value.trans| then 1
    else
      1 + Work(s, q, i, k + 1)
      + (if LiveTrans(s.comp, q, k) then Work(s, s.comp[q].value.trans[k].to, i + 1, 0) else 0)
  }

  lemma WorkSkips(s: Subject, q: nat, i: nat, k: nat, m: nat)
    requires WellFormed(s.comp) && Present(s.comp, q) && k <= m
    ensures Work(s, q, i, m) <= Work(s, q, i, k)
    decreases m - k
  {
    if k < m { WorkSkips(s, q, i, k + 1, m); }
  }

  /** `exec`: the current state, input index and transition, the saved ones, and the saves made. */
  datatype Config = Config(state: nat, index: nat, transno: nat, rollbacks: seq<Rollback>, nbPush: nat)

  ghost predicate Valid(s: Subject, c: Config) {
    && Runnable(s)
    && Present(s.comp, c.state) && c.index <= |s.input|
    && (c.index == |s.input| ==> c.transno == 0)
    && GoodRollbacks(s, c.rollbacks)
  }

  ghost predicate GoodRollbacks(s: Subject, rs: seq<Rollback>) {
    forall j :: 0 <= j < |rs| ==> Present(s.comp, rs[j].state) && rs[j].index < |s.input|
  }

  ghost function WorkOf(s: Subject, rs: seq<Rollback>): nat
    requires WellFormed(s.comp) && GoodRollbacks(s, rs)
  {
    if rs == [] then 0 else
    var r := rs[|rs| - 1];
    Work(s, r.state, r.index, r.nextbranch) + WorkOf(s, rs[..|rs| - 1])
  }

  ghost function Total(s: Subject, c: Config): nat
    requires Valid(s, c)
  {
    Work(s, c.state, c.index, c.transno) + WorkOf(s, c.rollbacks)
  }

  ghost predicate OpenRollback(s: Subject, rs: seq<Rollback>)
    requires WellFormed(s.comp) && GoodRollbacks(s, rs)
  {
    rs != [] &&
    (var r := rs[|rs| - 1];
     Found(s, r.state, r.index, r.nextbranch) || OpenRollback(s, rs[..|rs| - 1]))
  }

  /** The search succeeds from here or from a saved place. */
  ghost predicate Open(s: Subject, c: Config)
    requires Valid(s, c)
  {
    Found(s, c.state, c.index, c.transno) || OpenRollback(s, c.rollbacks)
  }

  ghost predicate WholeAccepted(s: Subject) {
    Accepted(s, 0, 0)
  }

  /** The search is open exactly while it was at the start, unless a save was refused. */
  ghost predicate Deciding(s: Subject, c: Config)
    requires Valid(s, c)
  {
    && (Open(s, c) ==> Found(s, 0, 0, 0))
    && (Found(s, 0, 0, 0) && c.nbPush <= MAX_PUSH ==> Open(s, c))
  }

  function Popped(c: Config): Config
    requires c.rollbacks != []
  {
    var r := c.rollbacks[|c.rollbacks| - 1];
    Config(r.state, r.index, r.nextbranch, c.rollbacks[..|c.rollbacks| - 1], c.nbPush)
  }

  lemma PopDecides(s: Subject, c: Config)
    requires Valid(s, c) && Deciding(s, c) && !Found(s, c.state, c.index, c.transno)
    requires c.rollbacks != []
    ensures Valid(s, Popped(c)) && Deciding(s, Popped(c)) && Total(s, Popped(c)) < Total(s, c)
  {
    var r := c.rollbacks[|c.rollbacks| - 1];
    assert Present(s.comp, r.state) && r.index < |s.input|;
    assert Open(s, Popped(c)) <==> Open(s, c);
    WorkPositive(s, c.state, c.index, c.transno);
  }

  lemma WorkPositive(s: Subject, q: nat, i: nat, k: nat)
    requires WellFormed(s.comp) && Present(s.comp, q)
    ensures Work(s, q, i, k) >= 1
  {
  }

  /** None of the transitions from..k-1 can be taken. */
  ghost predicate Passed(s: Subject, c: Config, k: nat) {
    forall m: nat :: c.transno <= m < k ==> !CanTake(s, c.state, c.index, m)
  }

  /** Passing over what cannot be taken loses nothing. */
  lemma {:induction false} PassedFinds(s: Subject, c: Config, k: nat)
    requires Valid(s, c) && Passed(s, c, k) && k >= c.transno && c.index < |s.input|
    ensures Found(s, c.state, c.index, c.transno) <==> Found(s, c.state, c.index, k)
    decreases k - c.transno
  {
    if c.transno < k {
      PassedFinds(s, c.(transno := c.transno + 1), k);
      assert !CanTake(s, c.state, c.index, c.transno);
      if k > |s.comp[c.state].value.trans| { assert !Found(s, c.state, c.index, k); }
    }
  }

  /** All transitions were passed: nothing is found from here. */
  lemma DeadEnd(s: Subject, c: Config, k: nat)
    requires Valid(s, c) && Passed(s, c, k) && k >= c.transno && k >= |s.comp[c.state].value.trans|
    requires c.index == |s.input| ==> c.state !in Finals(s.comp)
    ensures !Found(s, c.state, c.index, c.transno)
  {
    if c.index < |s.input| { PassedFinds(s, c, k); }
  }

  /** The configuration after transition `k`, with a way back when `k` is marked. */
  function Taken(s: Subject, c: Config, k: nat): Config
    requires LiveTrans(s.comp, c.state, k)
  {
    var t := s.comp[c.state].value.trans[k];
    var save := t.nd == 1 && c.nbPush <= MAX_PUSH;
    Config(t.to, c.index + 1, 0,
           if save then c.rollbacks + [Rollback(c.state, c.index, k + 1)] else c.rollbacks,
           if save then c.nbPush + 1 else c.nbPush)
  }

  lemma TakeValid(s: Subject, c: Config, k: nat)
    requires Valid(s, c) && CanTake(s, c.state, c.index, k) && k >= c.transno
    ensures Valid(s, Taken(s, c, k))
    ensures Total(s, Taken(s, c, k)) < Total(s, c)
  {
    var c' := Taken(s, c, k);
    if c'.rollbacks != c.rollbacks {
      assert c'.rollbacks[..|c'.rollbacks| - 1] == c.rollbacks;
    }
    WorkSkips(s, c.state, c.index, c.transno, k);
  }

  lemma TakeDecides(s: Subject, c: Config, k: nat)
    requires Valid(s, c) && Passed(s, c, k) && k >= c.transno && CanTake(s, c.state, c.index, k)
    requires Deciding(s, c)
    ensures Valid(s, Taken(s, c, k)) && Deciding(s, Taken(s, c, k))
    ensures Total(s, Taken(s, c, k)) < Total(s, c)
  {
    var c' := Taken(s, c, k);
    TakeValid(s, c, k);
    PassedFinds(s, c, k);
    if c'.rollbacks != c.rollbacks {
      assert c'.rollbacks[..|c'.rollbacks| - 1] == c.rollbacks;
      assert OpenRollback(s, c'.rollbacks) <==> Found(s, c.state, c.index, k + 1) || OpenRollback(s, c.rollbacks);
    }
  }

  // ------------------------------------------------------------------ how many saves a run can make

  /** The marked transitions that can be taken in the search from transition `k` of `q` on: as many
      places can be saved. */
  ghost function Saves(s: Subject, q: nat, i: nat, k: nat): nat
    requires WellFormed(s.comp) && Present(s.comp, q)
    decreases |s.input| - i, |s.comp[q].value.trans| - k
  {
    if i >= |s.input| || k >= |s.comp[q].value.trans| then 0
    else if CanTake(s, q, i, k) then
      var t := s.comp[q].value.trans[k];
      Saves(s, t.to, i + 1, 0) + if t.nd == 1 then 1 + Saves(s, q, i, k + 1) else 0
    else Saves(s, q, i, k + 1)
  }

  ghost function SavesOf(s: Subject, rs: seq<Rollback>): nat
    requires WellFormed(s.comp) && GoodRollbacks(s, rs)
  {
    if rs == [] then 0 else
    var r := rs[|rs| - 1];
    Saves(s, r.state, r.index, r.nextbranch) + SavesOf(s, rs[..|rs| - 1])
  }

  /** The saves made and those that may still be made. */
  ghost function Effort(s: Subject, c: Config): nat
    requires Valid(s, c)
  {
    c.nbPush + Saves(s, c.state, c.index, c.transno) + SavesOf(s, c.rollbacks)
  }

  lemma {:induction false} PassedSaves(s: Subject, c: Config, k: nat)
    requires Valid(s, c) && Passed(s, c, k) && k >= c.transno && c.index < |s.input|
    ensures Saves(s, c.state, c.index, c.transno) == Saves(s, c.state, c.index, k)
    decreases k - c.transno
  {
    if c.transno < k {
      PassedSaves(s, c.(transno := c.transno + 1), k);
      assert !CanTake(s, c.state, c.index, c.transno);
    }
  }

  lemma TakeEffort(s: Subject, c: Config, k: nat)
    requires Valid(s, c) && Passed(s, c, k) && k >= c.transno && CanTake(s, c.state, c.index, k)
    ensures Valid(s, Taken(s, c, k)) && Effort(s, Taken(s, c, k)) <= Effort(s, c)
  {
    hide Work, WorkOf;
    var c' := Taken(s, c, k);
    TakeValid(s, c, k);
    PassedSaves(s, c, k);
    if c'.rollbacks != c.rollbacks {
      assert c'.rollbacks[..|c'.rollbacks| - 1] == c.rollbacks;
    }
  }

  lemma PopEffort(s: Subject, c: Config)
    requires Valid(s, c) && c.rollbacks != []
    ensures Valid(s, Popped(c)) && Effort(s, Popped(c)) <= Effort(s, c)
  {
    PopValid(s, c);
  }

  // ------------------------------------------------------------------ where a run ends

  /** A run matches, or it fails with nothing saved, or it stops at a transition whose atom cannot judge
      the code point; the saves made so far go with it. */
  datatype End = Matched | Failed(nbPush: nat) | Stopped(transno: nat, saved: bool, nbPush: nat)

  /** The transition can be taken, or its atom cannot judge. */
  predicate Decisive(s: Subject, q: nat, i: nat, m: nat) {
    && LiveTrans(s.comp, q, m) && i < |s.input| && s.comp[q].value.trans[m].atom.Some?
    && (s.check(s.comp[q].value.trans[m].atom.value, s.input[i]) == 1 || s.check(s.comp[q].value.trans[m].atom.value, s.input[i]) < 0)
  }

  /** The first decisive transition from `k` on, or a number beyond the last. */
  ghost function FirstDecisive(s: Subject, q: nat, i: nat, k: nat): (m: nat)
    requires Present(s.comp, q)
    ensures m >= k && (m < |s.comp[q].value.trans| ==> Decisive(s, q, i, m))
    ensures forall j: nat :: k <= j < m ==> !Decisive(s, q, i, j)
    decreases |s.comp[q].value.trans| - k
  {
    if k >= |s.comp[q].value.trans| || Decisive(s, q, i, k) then k else FirstDecisive(s, q, i, k + 1)
  }

  /** The end of the run from a configuration. */
  ghost function EndOf(s: Subject, c: Config): End
    requires Valid(s, c)
    decreases Total(s, c), 1
  {
    if c.index == |s.input| then
      if c.state in Finals(s.comp) then Matched else EndBack(s, c)
    else
      var m := FirstDecisive(s, c.state, c.index, c.transno);
      if m >= |s.comp[c.state].value.trans| then EndBack(s, c)
      else if CanTake(s, c.state, c.index, m) then
        TakeValid(s, c, m);
        EndOf(s, Taken(s, c, m))
      else Stopped(m, c.rollbacks != [], c.nbPush)
  }

  /** After a dead end: from the newest saved place. */
  ghost function EndBack(s: Subject, c: Config): End
    requires Valid(s, c)
    decreases Total(s, c), 0
  {
    if c.rollbacks == [] then Failed(c.nbPush)
    else
      PopValid(s, c);
      EndOf(s, Popped(c))
  }

  lemma PopValid(s: Subject, c: Config)
    requires Valid(s, c) && c.rollbacks != []
    ensures Valid(s, Popped(c)) && Total(s, Popped(c)) < Total(s, c)
  {
    var r := c.rollbacks[|c.rollbacks| - 1];
    assert Present(s.comp, r.state) && r.index < |s.input|;
    WorkPositive(s, c.state, c.index, c.transno);
  }

  /** What xmlFARegExec makes of the end of its run: a stop is reported as such, but not when it is met
      behind a state's first transition and nothing has been saved. */
  function VerdictOf(e: End): int {
    match e
    case Matched => 1
    case Failed(nbPush) => if nbPush > MAX_PUSH then -1 else 0
    case Stopped(transno, saved, nbPush) =>
      if transno == 0 || saved then -4 else if nbPush > MAX_PUSH then -1 else 0
  }

  lemma EndsBack(s: Subject, c: Config)
    requires Valid(s, c)
    ensures if c.rollbacks == [] then EndBack(s, c) == Failed(c.nbPush)
            else Valid(s, Popped(c)) && EndBack(s, c) == EndOf(s, Popped(c))
  {
    if c.rollbacks != [] { PopValid(s, c); }
  }

  lemma EndAtEnd(s: Subject, c: Config)
    requires Valid(s, c) && c.index == |s.input| && c.state !in Finals(s.comp)
    ensures EndOf(s, c) == EndBack(s, c)
  {
  }

  lemma EndMatched(s: Subject, c: Config)
    requires Valid(s, c) && c.index == |s.input| && c.state in Finals(s.comp)
    ensures EndOf(s, c) == Matched
  {
  }

  /** At a dead end the run goes back; at a decisive transition it goes on or stops. */
  lemma EndAtDead(s: Subject, c: Config, k: nat)
    requires Valid(s, c) && k >= c.transno && k >= |s.comp[c.state].value.trans|
    requires forall j: nat :: c.transno <= j < k ==> !Decisive(s, c.state, c.index, j)
    requires c.index == |s.input| ==> c.state !in Finals(s.comp)
    ensures EndOf(s, c) == EndBack(s, c)
  {
  }

  lemma EndAtDecisive(s: Subject, c: Config, k: nat)
    requires Valid(s, c) && k >= c.transno && Decisive(s, c.state, c.index, k)
    requires forall j: nat :: c.transno <= j < k ==> !Decisive(s, c.state, c.index, j)
    ensures if CanTake(s, c.state, c.index, k) then Valid(s, Taken(s, c, k)) && EndOf(s, c) == EndOf(s, Taken(s, c, k))
            else EndOf(s, c) == Stopped(k, c.rollbacks != [], c.nbPush)
  {
    if CanTake(s, c.state, c.index, k) { TakeValid(s, c, k); }
    assert FirstDecisive(s, c.state, c.index, c.transno) == k;
  }

  /** No character of an accepted string is beyond judgement. */
  lemma {:induction false} AcceptedIsJudged(s: Subject, q: nat, i: nat, j: nat)
    requires JudgedAlike(s) && Accepted(s, q, i) && i <= j < |s.input|
    ensures forall a :: s.check(a, s.input[j]) >= 0
    decreases j - i
  {
    assert s.input[i..][0] == s.input[i] && s.input[i..][1..] == s.input[i + 1..];
    var rest := s.input[i..];
    assert rest != [] && AcceptsChars(Abs(s.comp), s.check, q, rest);
    var a, r: nat :| (q, Some(a), r) in Abs(s.comp).edges && s.check(a, rest[0]) == 1
                     && AcceptsChars(Abs(s.comp), s.check, r, rest[1..]);
    if i < j { AcceptedIsJudged(s, r, i + 1, j); }
  }

  class ExecCtxt {
    const s: Subject
    var status: int
    var state: nat
    var index: nat
    var transno: nat
    var rollbacks: seq<Rollback>
    var nbPush: nat

    ghost function Now(): Config
      reads this
    {
      Config(state, index, transno, rollbacks, nbPush)
    }

    constructor (subject: Subject)
      requires Runnable(subject)
      ensures s == subject && status == 0 && Now() == Config(0, 0, 0, [], 0)
      ensures Valid(s, Now()) && Deciding(s, Now())
    {
      s := subject;
      status, state, index, transno, rollbacks, nbPush := 0, 0, 0, 0, [], 0;
    }

    /** xmlFARegExecSave: refused once more than MAX_PUSH saves were made. */
    method Save()
      modifies this`rollbacks, this`nbPush
      ensures if old(nbPush) > MAX_PUSH
        then rollbacks == old(rollbacks) && nbPush == old(nbPush)
        else rollbacks == old(rollbacks) + [Rollback(state, index, transno + 1)] && nbPush == old(nbPush) + 1
    {
      if nbPush > MAX_PUSH {
        return;
      }
      nbPush := nbPush + 1;
      rollbacks := rollbacks + [Rollback(state, index, transno + 1)];
    }

    /** xmlFARegExecRollBack */
    method RollBack()
      modifies this
      ensures old(rollbacks) == [] ==> status == -1 && Now() == old(Now())
      ensures old(rollbacks) != [] ==> status == old(status) && Now() == Popped(old(Now()))
    {
      if |rollbacks| == 0 {
        status := -1;
        return;
      }
      var r := rollbacks[|rollbacks| - 1];
      rollbacks := rollbacks[..|rollbacks| - 1];
      state := r.state;
      index := r.index;
      transno := r.nextbranch;
    }

    /** Entering the target of the current transition; a marked one is saved first. */
    method Enter(to: nat, nd: nat)
      requires LiveTrans(s.comp, state, transno)
      requires s.comp[state].value.trans[transno].to == to && s.comp[state].value.trans[transno].nd == nd
      modifies this
      ensures Now() == Taken(s, old(Now()), old(transno)) && status == old(status)
    {
      if nd == 1 {
        Save();
      }
      state := to;
      transno := 0;
      index := index + 1;
    }

    /** The loop over the transitions of the current state: takes the first that matches. */
    method TryTransitions() returns (progress: bool)
      requires Valid(s, Now()) && Deciding(s, Now()) && status == 0
      requires index == |s.input| ==> state !in Finals(s.comp)
      modifies this
      ensures progress ==> status == 0 && Valid(s, Now()) && Deciding(s, Now()) && Total(s, Now()) < old(Total(s, Now()))
      ensures !progress ==> Now() == old(Now()).(transno := transno) && transno >= old(transno)
      ensures !progress ==> status == 0 || status == -4
      ensures !progress && status == 0 ==>
        transno >= |s.comp[state].value.trans| && !Found(s, state, index, old(transno))
      ensures !progress && status == -4 ==> transno < |s.comp[state].value.trans|
      ensures !progress && status == -4 ==> index < |s.input| && exists a :: s.check(a, s.input[index]) < 0
      ensures progress ==> EndOf(s, Now()) == old(EndOf(s, Now())) && Effort(s, Now()) <= old(Effort(s, Now()))
      ensures !progress && status == 0 ==> old(EndOf(s, Now())) == old(EndBack(s, Now()))
      ensures !progress && status == -4 ==> old(EndOf(s, Now())) == Stopped(transno, rollbacks != [], nbPush)
    {
      hide Deciding, Effort, GoodRollbacks, Work, WorkOf, Total, Found, WellFormed, EndOf, EndBack;
      ghost var c := Now();
      while transno < |s.comp[state].value.trans|
        invariant Now() == c.(transno := transno) && transno >= c.transno && status == 0
        invariant Passed(s, c, transno)
        invariant forall j: nat :: c.transno <= j < transno ==> !Decisive(s, c.state, c.index, j)
        decreases |s.comp[state].value.trans| - transno
      {
        var trans := s.comp[state].value.trans[transno];
        if trans.to >= 0 {
          assert LiveTrans(s.comp, state, transno);
          var ret := 0;
          if index < |s.input| {
            ret := s.check(trans.atom.value, s.input[index]);
          }
          if ret == 1 {
            TakeDecides(s, c, transno);
            TakeEffort(s, c, transno);
            EndAtDecisive(s, c, transno);
            Enter(trans.to, trans.nd);
            return true;
          } else if ret < 0 {
            EndAtDecisive(s, c, transno);
            status := -4;
            return false;
          }
        }
        transno := transno + 1;
      }
      DeadEnd(s, c, transno);
      EndAtDead(s, c, transno);
      return false;
    }

    /** One turn of the main loop. */
    method Turn()
      requires Valid(s, Now()) && Deciding(s, Now()) && status == 0
      requires index == |s.input| ==> state !in Finals(s.comp)
      modifies this
      ensures status == 0 ==> Valid(s, Now()) && Deciding(s, Now()) && Total(s, Now()) < old(Total(s, Now()))
      ensures status == 0 || status == -1 || status == -4
      ensures status == -1 ==> Exhausted(s, nbPush)
      ensures status == -4 ==> Unjudged(s)
      ensures status == 0 ==> EndOf(s, Now()) == old(EndOf(s, Now())) && Effort(s, Now()) <= old(Effort(s, Now()))
      ensures nbPush <= old(Effort(s, Now()))
      ensures status == -1 ==> VerdictOf(old(EndOf(s, Now()))) == if nbPush > MAX_PUSH then -1 else 0
      ensures status == -4 ==> VerdictOf(old(EndOf(s, Now()))) == -4
    {
      hide EndOf, EndBack, FirstDecisive, Saves, SavesOf;
      ghost var c := Now();
      EndsBack(s, c);
      if c.rollbacks != [] { PopEffort(s, c); }
      if index == |s.input| && (transno >= |s.comp[state].value.trans| || s.comp[state].value.trans[transno].to >= 0) {
        if c.rollbacks != [] { PopDecides(s, c); }
        EndAtEnd(s, c);
        RollBack();
        return;
      }
      var progress := TryTransitions();
      if !progress {
        if status == 0 {
          assert Now() == c.(transno := transno) && !Found(s, c.state, c.index, c.transno);
          assert Open(s, c) <==> OpenRollback(s, c.rollbacks);
          if c.rollbacks != [] { PopDecides(s, c); }
        }
        if transno != 0 || |s.comp[state].value.trans| == 0 {
          RollBack();
        }
      }
    }

    /** xmlFARegExec: 1 for a match, 0 for none, -1 when the saves ran out, -4 for a code point
        that is no XML character. */
    method Run() returns (ret: int)
      requires Valid(s, Now()) && Deciding(s, Now()) && status == 0
      modifies this
      ensures ret == 1 || ret == 0 || ret == -1 || ret == -4
      ensures ret == 1 ==> Found(s, 0, 0, 0)
      ensures ret == 0 ==> !Found(s, 0, 0, 0) || Unjudged(s)
      ensures ret == -1 ==> nbPush > MAX_PUSH && old(Effort(s, Now())) > MAX_PUSH
      ensures ret == -4 ==> Unjudged(s)
      ensures ret == VerdictOf(old(EndOf(s, Now())))
    {
      hide EndOf, EndBack, FirstDecisive, Saves, SavesOf;
      ghost var e, most := EndOf(s, Now()), Effort(s, Now());
      while status == 0 && (index < |s.input| || s.comp[state].value.kind != FinalState)
        invariant status == 0 ==> Valid(s, Now()) && Deciding(s, Now())
        invariant status == 0 || status == -1 || status == -4
        invariant status == -1 ==> Exhausted(s, nbPush)
        invariant status == -4 ==> Unjudged(s)
        invariant status == 0 ==> EndOf(s, Now()) == e && Effort(s, Now()) <= most
        invariant nbPush <= most
        invariant status == -1 ==> VerdictOf(e) == if nbPush > MAX_PUSH then -1 else 0
        invariant status == -4 ==> VerdictOf(e) == -4
        decreases status == 0, if status == 0 then Total(s, Now()) else 0
      {
        Turn();
      }
      if status == 0 {
        EndMatched(s, Now());
        return 1;
      }
      if status == -1 {
        if nbPush > MAX_PUSH {
          return -1;
        }
        return 0;
      }
      return status;
    }
  }

  /** With this many saves, the search has failed or met a code point no atom judges. */
  ghost predicate Exhausted(s: Subject, nbPush: nat)
    requires Runnable(s)
  {
    nbPush <= MAX_PUSH ==> !Found(s, 0, 0, 0) || Unjudged(s)
  }

  ghost predicate Unjudged(s: Subject) {
    exists a, j :: 0 <= j < |s.input| && s.check(a, s.input[j]) < 0
  }

  lemma UnjudgedRefutes(s: Subject)
    requires Unjudged(s)
    ensures JudgedAlike(s) ==> !WholeAccepted(s)
  {
    var a, j :| 0 <= j < |s.input| && s.check(a, s.input[j]) < 0;
    if JudgedAlike(s) && WholeAccepted(s) {
      AcceptedIsJudged(s, 0, 0, j);
    }
  }

  /** Two states and the transitions between them. */
  function Pair(trans: seq<Trans>): Slots {
    [Some(State(StartState, MarkNormal, MarkNormal, trans, [])), Some(State(FinalState, MarkNormal, MarkNormal, [], [0]))]
  }

  /** The same code point, which the atom cannot judge, is reported when it meets a state's first
      transition and passes for a mismatch behind a cancelled one. */
  lemma UnjudgedExample(a: Atom, check: Check, c: CodePoint)
    requires check(a, c) < 0
    ensures var start := Config(0, 0, 0, [], 0);
            var plain, behind := Subject(Pair([Trans(Some(a), 1, 0)]), [c], check), Subject(Pair([Trans(None, -2, 0), Trans(Some(a), 1, 0)]), [c], check);
            && Valid(plain, start) && VerdictOf(EndOf(plain, start)) == -4
            && Valid(behind, start) && VerdictOf(EndOf(behind, start)) == 0
  {
    var start := Config(0, 0, 0, [], 0);
    var plain, behind := Subject(Pair([Trans(Some(a), 1, 0)]), [c], check), Subject(Pair([Trans(None, -2, 0), Trans(Some(a), 1, 0)]), [c], check);
    assert Decisive(plain, 0, 0, 0);
    EndAtDecisive(plain, start, 0);
    assert Decisive(behind, 0, 0, 1) && !Decisive(behind, 0, 0, 0);
    EndAtDecisive(behind, start, 1);
  }

  /** So 0 is the answer to a stop exactly behind a first transition with nothing saved. */
  lemma SilentExactly(s: Subject, c: Config)
    requires Valid(s, c) && EndOf(s, c).Stopped? && EndOf(s, c).nbPush <= MAX_PUSH
    ensures VerdictOf(EndOf(s, c)) == 0 <==> EndOf(s, c).transno > 0 && !EndOf(s, c).saved
    ensures VerdictOf(EndOf(s, c)) == -4 <==> EndOf(s, c).transno == 0 || EndOf(s, c).saved
  {
  }
}
