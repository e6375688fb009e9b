/** From the parser's automaton to a verdict: xmlRegexpCompile after parsing, then xmlRegexpExec. */
module RegexpPipeline {
  import opened Wrappers
  import opened RegexpLanguage
  import opened RegexpAutomaton
  import opened RegexpSimplePass
  import opened RegexpDeterminism
  import opened RegexpCompiler
  import opened RegexpExec
  import opened RegexpAtoms
  import opened RegexpSources
  import opened RegexpEffort

  /** The passes of xmlRegexpCompile. */
  method Compile(g: Slots, equal: (Atom, Atom) -> bool, compare: (Atom, Atom) -> bool, ghost check: Check) returns (comp: Slots)
    requires Built(g) && NoLeak(g, |g|) && !Removed(g, 0) && EqualsSoundly(equal, check)
    ensures Compiled(g, equal, compare, check, comp) && WellFormed(comp) && NoEpsilon(comp) && Present(comp, 0)
  {
    hide NoTwins, Fresh, Derived, SameLanguage, ThinnedAll, Built, NoLeak;
    var ctxt := new ParserCtxt(g);
    ctxt.EliminateEpsilonTransitions();
    var reduced := ctxt.states;
    var am := new ParserCtxt(reduced);
    var determinist := am.ComputesDeterminism(equal, compare, check);
    comp := am.states;
    ghost var thin: Slots :| ThinnedAll(check, reduced, thin) && NoTwins(equal, thin) && MarkedAll(compare, thin, comp);
    assert ReducedFrom(g, reduced) && ThinnedFrom(equal, check, reduced, thin);
    ThinnedEdges(check, reduced, thin);
    ThinnedPresent(check, reduced, thin);
    MarkedEdges(compare, thin, comp);
    assert MarkedSlot(compare, thin[0], comp[0]);
  }

  lemma ThinnedPresent(check: Check, reduced: Slots, thin: Slots)
    requires ThinnedAll(check, reduced, thin) && Present(reduced, 0)
    ensures Present(thin, 0)
  {
  }

  /** The search on the compiled automaton decides the language of the one that was built. */
  lemma CompiledDecides(g: Slots, equal: (Atom, Atom) -> bool, compare: (Atom, Atom) -> bool, check: Check, comp: Slots, input: seq<CodePoint>)
    requires Compiled(g, equal, compare, check, comp) && ComparesSoundly(compare, check)
    requires Runnable(Subject(comp, input, check))
    ensures Found(Subject(comp, input, check), 0, 0, 0) <==> InLanguage(Abs(g), check, 0, input)
    ensures Unjudged(Subject(comp, input, check)) && JudgedAlike(Subject(comp, input, check)) ==> !InLanguage(Abs(g), check, 0, input)
  {
    hide NoTwins, Fresh, Derived, SameLanguage, ThinnedAll, Found, MarkedAll, Unjudged, JudgedAlike, OverlapsMarked, AcceptsChars, ComparesSoundly, Edges, Finals;
    var reduced: Slots, thin: Slots :| ReducedFrom(g, reduced) && ThinnedFrom(equal, check, reduced, thin) && MarkedAll(compare, thin, comp);
    ThinnedEdges(check, reduced, thin);
    MarkedEdges(compare, thin, comp);
    MarkedOverlaps(compare, check, thin, comp);
    var s := Subject(comp, input, check);
    FoundExactly(s);
    if Unjudged(s) { UnjudgedRefutes(s); }
    SameStrings(g, reduced, thin, check, input);
    assert input[0..] == input;
  }

  /** The passes and the matcher together decide the language of the automaton that was built:
      a match is always in it, and a refusal is final unless the saves ran out (-1) or some code
      point is no XML character (-4). The saves run out only if more places are met on the search
      where another transition is said to overlap, in the automaton the matcher works on as well as
      among the transitions that stem from those built. `equal` and `compare` are xmlFAEqualAtoms
      and xmlFACompareAtoms. */
  method Match(g: Slots, equal: (Atom, Atom) -> bool, compare: (Atom, Atom) -> bool, check: Check, input: seq<CodePoint>)
    returns (ret: int, ghost comp: Slots)
    requires Built(g) && NoLeak(g, |g|) && !Removed(g, 0)
    requires EqualsSoundly(equal, check) && ComparesSoundly(compare, check)
    ensures ret == 1 || ret == 0 || ret == -1 || ret == -4
    ensures ret == 1 ==> InLanguage(Abs(g), check, 0, input)
    ensures (ret == 0 || ret == -4) && JudgedAlike(Subject(g, input, check)) ==> !InLanguage(Abs(g), check, 0, input)
    ensures ret == -4 ==> exists a, j :: 0 <= j < |input| && check(a, input[j]) < 0
    ensures Compiled(g, equal, compare, check, comp) && Runnable(Subject(comp, input, check))
    ensures ret == VerdictOf(EndOf(Subject(comp, input, check), Config(0, 0, 0, [], 0)))
    ensures ret == -1 ==> Saves(Subject(comp, input, check), 0, 0, 0) > MAX_PUSH
    ensures ret == -1 && Fresh(g) && Reflexive(equal) ==> Forks(Sources(Edges(g), |g|), check, compare, 0, input) > MAX_PUSH
  {
    hide Saves, EndOf, EndBack, Forks, Sources, Compiled, Found, Fresh, Built, NoLeak, InLanguage;
    var made := Compile(g, equal, compare, check);
    comp := made;
    CompiledDecides(g, equal, compare, check, comp, input);
    var exec := new ExecCtxt(Subject(made, input, check));
    ret := exec.Run();
    if Fresh(g) && Reflexive(equal) { CompiledBound(g, equal, compare, check, comp, input); }
  }

  /** The same with the atoms spelled out: where the comparison misjudges no pair of atoms that
      share a character, the verdict is right for every string of XML characters. */
  method MatchAtoms(g: Slots, u: Tables, info: Atom -> Info, input: seq<CodePoint>) returns (ret: int)
    requires Built(g) && NoLeak(g, |g|) && !Removed(g, 0)
    requires NoneMisjudged(u, info)
    ensures ret == 1 ==> InLanguage(Abs(g), Judging(u, info), 0, input)
    ensures ret == 0 || ret == -4 ==> !InLanguage(Abs(g), Judging(u, info), 0, input)
    ensures ret == 1 || ret == 0 || ret == -1 || (ret == -4 && exists j :: 0 <= j < |input| && !u.isChar(input[j]))
    ensures Fresh(g) && Forks(Sources(Edges(g), |g|), Judging(u, info), Comparison(u, info), 0, input) <= MAX_PUSH ==>
      (ret == 1 <==> InLanguage(Abs(g), Judging(u, info), 0, input))
  {
    hide Saves, EndOf, EndBack, Forks, Sources, Compiled, Fresh, Built, NoLeak, InLanguage, NoneMisjudged;
    EqualAtomsMatchAlike(u, info);
    ComparesExactly(u, info);
    ghost var comp;
    ret, comp := Match(g, Equality(info), Comparison(u, info), Judging(u, info), input);
    JudgesAlike(g, u, info, input);
    if ret == -4 {
      ghost var a, j :| 0 <= j < |input| && Judging(u, info)(a, input[j]) < 0;
      assert Judge(u, info(a), input[j]) < 0;
    }
  }

  lemma JudgesAlike(g: Slots, u: Tables, info: Atom -> Info, input: seq<CodePoint>)
    ensures JudgedAlike(Subject(g, input, Judging(u, info)))
  {
    forall a, b, c: CodePoint | Judging(u, info)(a, c) < 0
      ensures Judging(u, info)(b, c) < 0
    {
      assert Judging(u, info)(a, c) == Judge(u, info(a), c) && Judging(u, info)(b, c) == Judge(u, info(b), c);
      assert !u.isChar(c);
    }
  }

  /** Two transitions leave the start: the first leads nowhere, the second accepts. */
  function Fork(a: Atom, b: Atom): Slots {
    [ Some(State(StartState, MarkNormal, MarkNormal, [Trans(Some(a), 1, 0), Trans(Some(b), 2, 0)], [])),
      Some(State(TransState, MarkNormal, MarkNormal, [], [0])),
      Some(State(FinalState, MarkNormal, MarkNormal, [], [0])) ]
  }

  /** The marked fork, whatever its marks are. */
  lemma ForkShape(compare: (Atom, Atom) -> bool, a: Atom, b: Atom, h: Slots)
    requires MarkedAll(compare, Fork(a, b), h)
    ensures WellFormed(h) && NoEpsilon(h) && |h| == 3 && Finals(h) == {2} && (0, Some(b), 2) in Edges(h)
    ensures h[0].Some? && h[1].Some? && h[2].Some? && |h[0].value.trans| == 2
    ensures h[0].value.trans[0] == Trans(Some(a), 1, if compare(b, a) then 1 else 0)
    ensures exists nd: nat :: h[0].value.trans[1] == Trans(Some(b), 2, nd)
    ensures h[1].value.trans == []
  {
    var g := Fork(a, b);
    assert LiveTrans(g, 0, 1) && EdgeAt(g, 0, 1) == (0, Some(b), 2);
    assert NoEpsilon(g) && WellFormed(g);
    MarkedEdges(compare, g, h);
    assert MarkedSlot(compare, g[0], h[0]) && MarkedSlot(compare, g[1], h[1]) && MarkedSlot(compare, g[2], h[2]);
    var ts := g[0].value.trans;
    if compare(b, a) {
      assert Conflict(compare, ts, 0, 1);
      EarlierIsMarkedOne(compare, ts, 0, 1);
    } else {
      assert forall x: nat, y: nat :: !Conflict(compare, ts, x, y);
    }
  }

  /** A missed overlap is a missed match: of two atoms that match `c` the matcher finds the second
      one's way exactly when the comparison said that they intersect. */
  lemma ForkFoundExactly(compare: (Atom, Atom) -> bool, check: Check, a: Atom, b: Atom, c: CodePoint, h: Slots)
    requires check(a, c) == 1 && check(b, c) == 1 && MarkedAll(compare, Fork(a, b), h)
    ensures var s := Subject(h, [c], check);
            Runnable(s) && WholeAccepted(s) && (Found(s, 0, 0, 0) <==> compare(b, a))
  {
    var s := Subject(h, [c], check);
    ForkShape(compare, a, b, h);
    assert [c][1..] == [];
    assert s.input[0..] == [c];
    assert AcceptsChars(Abs(h), check, 2, []);
    assert Found(s, 2, 1, 0) && !Found(s, 1, 1, 0);
    assert CanTake(s, 0, 0, 0) && CanTake(s, 0, 0, 1);
    assert Found(s, 0, 0, 1);
  }

  /** So the fork's match is lost exactly on a misjudged pair. */
  lemma ForkLostExactly(u: Tables, info: Atom -> Info, a: Atom, b: Atom, c: CodePoint, h: Slots)
    requires Share(u, info(a), info(b), c)
    requires MarkedAll(Comparison(u, info), Fork(a, b), h)
    ensures var s := Subject(h, [c], Judging(u, info));
            Runnable(s) && WholeAccepted(s) && (!Found(s, 0, 0, 0) <==> MisjudgedPair(u, info, b, a))
  {
    assert Judging(u, info)(a, c) == 1 && Judging(u, info)(b, c) == 1;
    ForkFoundExactly(Comparison(u, info), Judging(u, info), a, b, c, h);
    MissedPair(u, info, b, a, c);
  }

  lemma SameStrings(g: Slots, reduced: Slots, thin: Slots, check: Check, input: seq<CodePoint>)
    requires SameLanguage(Abs(g), Abs(reduced), 0) && NoEpsilon(reduced) && ThinnedAll(check, reduced, thin)
    ensures AcceptsChars(Abs(thin), check, 0, input) <==> InLanguage(Abs(g), check, 0, input)
  {
    forall e | e in Edges(reduced)
      ensures e.1.Some?
    {
      var k: nat :| LiveTrans(reduced, e.0, k) && EdgeAt(reduced, e.0, k) == e;
    }
    SameLanguageSameStrings(Abs(g), Abs(reduced), check, 0, input);
    CharsAreWords(Abs(reduced), check, 0, input);
    ThinnedEdges(check, reduced, thin);
    ThinnedAccepts(check, Abs(reduced), Abs(thin), 0, input);
  }
}
