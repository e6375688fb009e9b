# Verification model of the XSD/e C runtime

XSD/e carries three engines written in C: the regular expression engine for XML Schema
patterns (`regexp/xmlregexp.c`), the Expat parser (`expat/*.c`) and the genx writer
(`genx/genx.c`). Each works on records, arrays and linked cells that it overwrites in place, and
each has a simple meaning that its code never states. This project models the code in Dafny,
in the form that the code has, and proves that it has that meaning.

`dafny verify dfyconfig.toml` checks the whole project. Functions and lemmas state what things mean;
classes and methods follow the C functions, loop by loop, and are proved against those functions.

## Regular expressions

`RegexpLanguage` says what an automaton accepts and when a rewrite keeps it, `RegexpSources` where the
transitions left by the rewrites come from. `RegexpAutomaton`,
`RegexpSimplePass`, `RegexpBypass` and `RegexpReach` describe the rewrites on values,
`RegexpCompiler` is the code that makes them in place, `RegexpDeterminism` says which transitions end
up marked, `RegexpExec` is the backtracking matcher, `RegexpEffort` bounds the places it saves,
`RegexpAtoms` is the matching and comparison of atoms, and `RegexpPipeline` puts all of it together: from the automaton that was built to the verdict
on a string.

* The removal of epsilon transitions keeps all languages, with one exception that is made exact:
  the simple pass copies finality forward (lines 1728-1729), which is right if and only if no removed
  final state hands on to a state that does not accept the empty word (`PassExact`). `LeakRun` is the
  pass on an automaton of four states where the start state then accepts a word too many.
* The matcher computes one search for any marks at all (`ExecCtxt.Run`): it keeps a way back only where a
  transition carries mark 1. That search decides the language where overlapping transitions are marked
  (`FoundExactly`).
* The answer -1 means that more than `MAX_PUSH` places were saved. It is given only where the search can
  take that many transitions beside which another is said to overlap (`Match`); an automaton in which no
  two are, or in which one at most matches and the string is shorter than that, is always decided
  (`NoClashNoForks`, `OneWayForks`).
* Whether they are marked depends on `xmlFACompareAtoms`, and there the code goes wrong: it inverts its
  answer for atoms that differ in `neg` after `xmlRegCheckCharacter` has already allowed for it (lines
  2387-2389), it lists classes as disjoint that are not, such as `\d` and `\w` (lines 2149-2166;
  `ListedApartExactly` has all of them), and it
  compares two complements such as `[^a]` and `[^b]` like `[a]` and `[b]`. `MissedExactly` and
  `ComparesExactly` say which atoms are affected, and `ForkLostExactly` that each of them loses a match.
* When a code point that is no XML character is met behind the first transition of a state and no place
  has been saved, the error status is replaced by the one for "no match" (lines 3255-3271), so 0 is
  answered instead of -4: see `SilentExactly` and, for an input, `UnjudgedExample`.

## Writer

`GenxStack` parses the flat stack of pointers into frames, `GenxInvariants` states how that stack,
`declaration`, `declCount` and `baroque` hang together, `NamespaceReader` is an independent reader of tags with the
scoping rules of section 6 of Namespaces in XML 1.0, `GenxTags` and `GenxGrowth` relate the two,
`GenxDeclaring` says what a declaration does to the table and which tags are refused for it, and
`GenxWriter` is the writer. Its successful calls keep two invariants over every run.

* `Nested`, whatever prefixes the caller asks for: what was sent nests under one root, every end tag
  repeating the prefix and name of its start tag, exactly as long as no end tag has gone astray. An end
  tag does so if and only if, before the call, its element is in the pre-wired xml namespace, this has
  no declaration left on the stack, and it was left with another prefix than its own (lines 2005-2032).
* `Good`, as long as the caller gives no explicit prefix with a declaration on a tag: the reader finds
  every element, attribute and text under exactly the names they were declared with, as long as no tag
  has been spoiled, and fails from then on. A tag is spoiled if and only if, before the call that sends
  it, one of its attributes is in a namespace that is declared nowhere, or that is declared as the
  default and is not `baroque`, which is all that writeAttribute looks at (line 1364).

`EndDocument` draws the conclusion for a whole document. `GenxRuns` has a run of successful calls for
each of the two failures.

## Scanner, characters and attributes

`XmlBytes` has the UTF-8 checks, encoder and decoder, `Utf16Converters` the converters.
`ContentScanner` describes contentTok as an automaton, `ContentLoops` are the scanning loops,
`ScannerChunks` proves that cutting the input into buffers does not matter. `TokenSpans` says which bytes
make up a token of each kind, without the automaton, and `TokenReading` and `TokenScanning` prove that
the automaton finds just these (`TokensExactly`). `CharacterData`,
`AttributeValues`, `AttributeTheorems` and `EntityRecursion` cover what is heard of text and attribute
values; `CdataValues` and `HeardText` say what a value and a text are, byte by byte, and that this is
what is stored and heard. `GenxText` is the writer's escaping and `TextRoundTrip` proves that the parser undoes it.

* With the small character table (`GENX_CHAR_TABLE_SIZE` 0x100) the writer accepts U+FFFE and U+FFFF,
  which the scanner rejects. `ContentRoundTrip` gives the exact condition.
* utf8_toUtf16 returns "completed" with input left over when its buffer is full, unless a four-byte
  character meets a single unit of room; `ToUtf16` states this. On a truncated two- or three-byte
  character its loop takes turns in which nothing moves (lines 380-396): it ends if and only if no room
  is left when such a character is reached (`EndsExactly`).

## Content models and tables

`ContentModel` is the machine of element0 to element7 on trees, `ContentScaffold` the handlers and the
scaffold they build, `ContentBuild` the traversal that lays the result out in one array. `HashProbe` and
`HashTable` are the hash table, for any hash function; which requests for memory are granted is a
parameter of it and of the string pool. `NamespaceBindings` has the binding cells,
`NamespaceAttributes` the version-stamped table of expanded attribute names, `NamespaceContext` the
context string for external entities, `StringPool` the pool.

* The documentation of `XML_Content` (`expat.h`, lines 130-134) calls `children` an array of the
  children. `ChildrenAreAnArray` proves that this is so if and only if every child but the last has no
  children, and `ChildrenExample` shows a model for which it is not. The model follows the code.

## Model

| member | source | states |
|---|---|---|
| RegexpLanguage.EliminationSameLanguage | libxsde/xsde/c/regexp/xmlregexp.c:1682-1739 | replacing a state by the target of its lone epsilon keeps the language of every other state, if an accepting state hands on to one that accepts the empty word |
| RegexpLanguage.BypassSameLanguage | libxsde/xsde/c/regexp/xmlregexp.c:1593-1664 | cancelling an epsilon and copying what its target reaches by epsilons keeps the language of every state |
| RegexpLanguage.LoopSameLanguage | libxsde/xsde/c/regexp/xmlregexp.c:1790-1791 | dropping an epsilon from a state to itself changes no language |
| RegexpLanguage.RestrictionSameLanguage | libxsde/xsde/c/regexp/xmlregexp.c:1840-1893 | freeing states that are not reached changes no language of those kept |
| RegexpLanguage.ClosureUnfold | libxsde/xsde/c/regexp/xmlregexp.c:1593-1664 | the closure avoiding the marked states satisfies the equation by which the marking recursion computes it |
| RegexpAutomaton.WithTransEdges | libxsde/xsde/c/regexp/xmlregexp.c:1193-1269 | adding a transition adds exactly that edge and no final state; asking twice adds it once |
| RegexpAutomaton.WithTransKeeps | libxsde/xsde/c/regexp/xmlregexp.c:1193-1269 | every live transition stays on record in the `transTo` of the state it enters |
| RegexpSimplePass.PassDecides | libxsde/xsde/c/regexp/xmlregexp.c:1686-1699 | the test that the pass makes when it comes to a state agrees with the order-aware definition of what it removes |
| RegexpSimplePass.RedirectedEliminates | libxsde/xsde/c/regexp/xmlregexp.c:1712-1733 | turning every transition found through `transTo` and emptying the state is one elimination step |
| RegexpSimplePass.PassExact | libxsde/xsde/c/regexp/xmlregexp.c:1682-1739 | every surviving state keeps its language if and only if no removed final state hands its finality to a state that does not accept the empty word |
| RegexpSimplePass.LeakExample | libxsde/xsde/c/regexp/xmlregexp.c:1728-1729 | the same as built by the parser: whatever the eliminations of the pass make of this automaton, its start accepts a word it did not |
| RegexpBypass.BypassOne | libxsde/xsde/c/regexp/xmlregexp.c:1796-1808 | one epsilon of a state, handled as the sweep handles it, is a bypass of the whole automaton |
| RegexpBypass.SweepBypass | libxsde/xsde/c/regexp/xmlregexp.c:1787-1816 | the sweep over a growing list of transitions keeps the meaning and leaves no live epsilon behind it |
| RegexpBypass.CopiedIsCovered | libxsde/xsde/c/regexp/xmlregexp.c:1618-1660 | every atom transition of the closure outside the marks has been copied when the scan of a state ends |
| RegexpReach.FreedRemoved | libxsde/xsde/c/regexp/xmlregexp.c:1758-1767 | freeing the states typed unreachable by the simple pass changes nothing, and frees exactly the removed ones |
| RegexpReach.EverythingVisited | libxsde/xsde/c/regexp/xmlregexp.c:1848-1883 | when no state is left to visit, all successors of seen states are seen |
| RegexpReach.ReachesRestricted | libxsde/xsde/c/regexp/xmlregexp.c:1884-1893 | what the start state reached is still reached among the states kept |
| RegexpSources.EliminationDerived | libxsde/xsde/c/regexp/xmlregexp.c:1704-1727 | the transitions left by one removal stem from those before it: each is one of them with epsilons before it and behind it |
| RegexpSources.BypassDerived | libxsde/xsde/c/regexp/xmlregexp.c:1593-1664 | so do those left when an epsilon is cancelled and its closure copied |
| RegexpSources.StemsThrough | libxsde/xsde/c/regexp/xmlregexp.c:1746-1895 | stemming from what stems from the built automaton is stemming from it |
| RegexpCompiler.ParserCtxt.StateAddTrans | libxsde/xsde/c/regexp/xmlregexp.c:1193-1269 | the automaton is the old one with the transition and its record added, or the old one when it was there |
| RegexpCompiler.ParserCtxt.EliminateSimpleEpsilonTransitions | libxsde/xsde/c/regexp/xmlregexp.c:1682-1739 | exactly the states with a lone epsilon whose target was not removed before them are removed, one elimination each, and each survivor means what the exact condition says |
| RegexpCompiler.ParserCtxt.RemoveState | libxsde/xsde/c/regexp/xmlregexp.c:1704-1733 | removing one state is one elimination, and everything the pass has established holds for one state more |
| RegexpCompiler.LeakRun | libxsde/xsde/c/regexp/xmlregexp.c:1728-1729 | the pass itself, on that automaton, ends with the start accepting a word it did not |
| RegexpCompiler.ParserCtxt.RedirectAll | libxsde/xsde/c/regexp/xmlregexp.c:1712-1727 | all transitions into the removed state, and no others, are turned to its target |
| RegexpCompiler.ParserCtxt.ReduceEpsilonTransitions | libxsde/xsde/c/regexp/xmlregexp.c:1593-1664 | the recursion ends because unmarked states grow fewer, unmarks its path, and adds to `from` just the closure of `to` outside the marks |
| RegexpCompiler.ParserCtxt.BypassEpsilonTransitions | libxsde/xsde/c/regexp/xmlregexp.c:1779-1817 | all languages are kept and no live epsilon is left |
| RegexpCompiler.ParserCtxt.BypassState | libxsde/xsde/c/regexp/xmlregexp.c:1783-1816 | the sweep of one state, which is done once no epsilon of it is live |
| RegexpCompiler.ParserCtxt.FreeRemovedStates | libxsde/xsde/c/regexp/xmlregexp.c:1758-1767 | exactly the slots typed unreachable become null |
| RegexpCompiler.ParserCtxt.MarkReached | libxsde/xsde/c/regexp/xmlregexp.c:1840-1883 | the marked states contain the start and are closed under live transitions |
| RegexpCompiler.ParserCtxt.FreeUnreachedStates | libxsde/xsde/c/regexp/xmlregexp.c:1884-1893 | exactly the unmarked states are freed |
| RegexpCompiler.ParserCtxt.EliminateEpsilonTransitions | libxsde/xsde/c/regexp/xmlregexp.c:1746-1895 | no epsilon is live afterwards, every state left is reached from the start and, where nothing leaks, has the language it had; the start survives exactly unless it is a final state with a lone epsilon; every transition left stems from those built, and none is marked |
| RegexpCompiler.ParserCtxt.ComputesDeterminism | libxsde/xsde/c/regexp/xmlregexp.c:2460-2599 | duplicates cancelled with an equivalent left, until no two are, both members of each conflict marked, verdict 0 only for a conflict and, without cancelled epsilons, for every one |
| RegexpCompiler.ParserCtxt.CancelDuplicates | libxsde/xsde/c/regexp/xmlregexp.c:2481-2517 | a transition is cancelled only when one that matches the same characters leads to the same state, and no two on atoms found equal are left |
| RegexpCompiler.ParserCtxt.MarkConflicts | libxsde/xsde/c/regexp/xmlregexp.c:2523-2598 | exactly the members of conflicts are marked; the verdict can come out 1 in spite of one when an epsilon was cancelled with -2 |
| RegexpCompiler.MarkConflictsOf | libxsde/xsde/c/regexp/xmlregexp.c:2529-2589 | within a state the last transition with an earlier conflict gets mark 2 and every other member of a conflict mark 1 |
| RegexpDeterminism.EarlierIsMarkedOne | libxsde/xsde/c/regexp/xmlregexp.c:2550-2556 | the earlier of two conflicting transitions always ends with mark 1, which is what the matcher saves on |
| RegexpDeterminism.MarkedOverlaps | libxsde/xsde/c/regexp/xmlregexp.c:2460-2599 | if the comparison finds every overlap, then of two transitions that match one character the earlier carries mark 1 |
| RegexpDeterminism.ThinnedAccepts | libxsde/xsde/c/regexp/xmlregexp.c:2481-2517 | cancelling duplicates changes no string that is accepted |
| RegexpDeterminism.CharsAreWords | libxsde/xsde/c/regexp/xmlregexp.c:3002-3296 | without epsilons a string is in the language exactly when it can be accepted one character at a time |
| RegexpExec.FoundExactly | libxsde/xsde/c/regexp/xmlregexp.c:3002-3296 | what the search finds is accepted, and where overlaps are marked everything accepted is found |
| RegexpExec.FoundIsAccepted | libxsde/xsde/c/regexp/xmlregexp.c:3002-3296 | a success of the search is an accepting run |
| RegexpExec.MarkedFindsAll | libxsde/xsde/c/regexp/xmlregexp.c:3202-3215 | saving only on mark 1 misses no accepting run where overlaps are marked |
| RegexpExec.TakeDecides | libxsde/xsde/c/regexp/xmlregexp.c:3202-3254 | taking a transition leaves the search as open as it was, unless a save was refused, and shrinks the work left |
| RegexpExec.PopDecides | libxsde/xsde/c/regexp/xmlregexp.c:2965-2993 | so does going back to the newest saved place after a dead end |
| RegexpExec.TakeEffort | libxsde/xsde/c/regexp/xmlregexp.c:3202-3254 | the saves made and those that may still be made, counted as the marked transitions that can be taken in the search from here and from the saved places, grow no more when a transition is taken |
| RegexpExec.PopEffort | libxsde/xsde/c/regexp/xmlregexp.c:2965-2993 | nor when the search goes back |
| RegexpExec.UnjudgedExample | libxsde/xsde/c/regexp/xmlregexp.c:3255-3271 | two automata with one live transition: the same code point gives -4 on the one and 0 on the other, where a cancelled transition stands before it |
| RegexpExec.SilentExactly | libxsde/xsde/c/regexp/xmlregexp.c:3255-3271 | with saves left, 0 is the answer to such a code point exactly behind a first transition with nothing saved |
| RegexpExec.ExecCtxt.Save | libxsde/xsde/c/regexp/xmlregexp.c:2904-2962 | the place behind the current transition is saved, or nothing happens once more than MAX_PUSH saves were made |
| RegexpExec.ExecCtxt.RollBack | libxsde/xsde/c/regexp/xmlregexp.c:2965-2993 | the newest saved place is restored, or the status is -1 when there is none |
| RegexpExec.ExecCtxt.TryTransitions | libxsde/xsde/c/regexp/xmlregexp.c:3062-3259 | the first live transition that matches is taken; if there is none nothing can be found from here |
| RegexpExec.ExecCtxt.Turn | libxsde/xsde/c/regexp/xmlregexp.c:3024-3274 | one turn keeps the decision open or gives the right verdict |
| RegexpExec.ExecCtxt.Run | libxsde/xsde/c/regexp/xmlregexp.c:3002-3296 | it ends, and the verdict is that of the run: 1 for a match, 0 or -1 for a failure by the number of saves, and for a code point that no atom judges -4, unless it is met behind a state's first transition with nothing saved; -1 is answered only if the search from the start has more than MAX_PUSH marked transitions to take |
| RegexpAtoms.CheckCharacter | libxsde/xsde/c/regexp/xmlregexp.c:2778-2878 | a class expression matches what some member or complement admits and no complement or exclusion keeps out |
| RegexpAtoms.ScanRange | libxsde/xsde/c/regexp/xmlregexp.c:1931-1955 | the loop over the code points answers as the comparison is specified, complement or not |
| RegexpAtoms.CompareLists | libxsde/xsde/c/regexp/xmlregexp.c:2361-2381 | the double loop finds a pair of ranges that compare, if there is one |
| RegexpAtoms.EqualAtomsMatchAlike | libxsde/xsde/c/regexp/xmlregexp.c:2273-2304 | atoms found equal match the same characters, so the hypothesis on duplicates always holds |
| RegexpAtoms.MembersCompare | libxsde/xsde/c/regexp/xmlregexp.c:1898-2058 | two members that cover a common code point are never said to be apart, given that general categories are a partition |
| RegexpAtoms.ApartExactly | libxsde/xsde/c/regexp/xmlregexp.c:1898-2058 | the answer on two ranges in terms of what they cover: a complement against a member turns it round, and two complements count as two members |
| RegexpAtoms.MissedExactly | libxsde/xsde/c/regexp/xmlregexp.c:2318-2394 | on two atoms that share a character the comparison answers no exactly in the branches named: class types listed as apart, atoms that differ in `neg`, and class expressions whose ranges are all apart |
| RegexpAtoms.MembersNotApart | libxsde/xsde/c/regexp/xmlregexp.c:2361-2394 | without complements only a difference in `neg` misjudges class expressions that share a character |
| RegexpAtoms.ListsMissedExactly | libxsde/xsde/c/regexp/xmlregexp.c:2361-2381 | for lists of character ranges, complements among them: an overlap is missed if and only if every complement meets every member of the other list, no two of one kind meet, and some character is in both |
| RegexpAtoms.ComparesExactly | libxsde/xsde/c/regexp/xmlregexp.c:2318-2394 | the comparison finds every overlap if and only if no such branch meets a shared character |
| RegexpAtoms.ComplementsMissed | libxsde/xsde/c/regexp/xmlregexp.c:1924-1930 | `[^x]` and `[^y]` share every third character and are said to be apart |
| RegexpAtoms.ComplementMissedExactly | libxsde/xsde/c/regexp/xmlregexp.c:2054-2057 | `[^s]` against an interval: an overlap is missed if and only if the intervals meet and a character is left outside |
| RegexpAtoms.DigitsMissed | libxsde/xsde/c/regexp/xmlregexp.c:2149-2166 | `\d` and `\w` share every digit and are said to be apart |
| RegexpAtoms.ListedApartExactly | libxsde/xsde/c/regexp/xmlregexp.c:2071-2259 | two types listed as apart share a character exactly if it is a name character in a category, a digit or a mark or symbol as a word character, a word character that is no digit, or in both a category and a block |
| RegexpAtoms.LowLineMissed | libxsde/xsde/c/regexp/xmlregexp.c:2099-2116 | so the low line, which starts names and is punctuation, is missed |
| RegexpAtoms.EscapesAreClasses | libxsde/xsde/c/regexp/xmlregexp.c:2608-2668 | on ASCII the escapes for white space, name starts and name characters are the classes that the scanner of the parser goes by |
| RegexpAtoms.OppositesSplit | libxsde/xsde/c/regexp/xmlregexp.c:2608-2668 | of a type and its opposite exactly one covers a character |
| RegexpEffort.SavesWithin | libxsde/xsde/c/regexp/xmlregexp.c:2904-2962 | the saves of a search are no more than the clashes it can meet: transitions it can take beside which another one of the same state is said to overlap |
| RegexpEffort.MarkedClashes | libxsde/xsde/c/regexp/xmlregexp.c:2529-2589 | a transition with mark 1 has such another one beside it |
| RegexpEffort.CompiledBound | libxsde/xsde/c/regexp/xmlregexp.c:3202-3215 | the saves on the compiled automaton are bounded by the clashes among the transitions that stem from the built one |
| RegexpEffort.NoClashNoForks | libxsde/xsde/c/regexp/xmlregexp.c:3202-3215 | where no two transitions of a state are said to overlap nothing is ever saved |
| RegexpEffort.OneWayForks | libxsde/xsde/c/regexp/xmlregexp.c:3202-3215 | where at most one transition matches, the saves are no more than the characters |
| RegexpPipeline.Compile | libxsde/xsde/c/regexp/xmlregexp.c:4189-4229 | the automaton handed to the matcher comes from the built one by the passes: same language, no epsilons, transitions that stem from it, duplicates cancelled, overlaps marked |
| RegexpPipeline.CompiledDecides | libxsde/xsde/c/regexp/xmlregexp.c:3002-3296 | the search on it succeeds exactly on the language of the built automaton |
| RegexpPipeline.Match | libxsde/xsde/c/regexp/xmlregexp.c:4189-4242 | from the built automaton to the verdict: 1 and 0 decide its language, given sound comparisons and the condition of the simple pass; -1 is answered only if the search has more than MAX_PUSH marked transitions to take, and only if more clashes than that are met among the transitions that stem from the built automaton |
| RegexpPipeline.MatchAtoms | libxsde/xsde/c/regexp/xmlregexp.c:4189-4242 | the same with the atoms spelled out, complements included: the hypotheses on comparison are replaced by the exact condition on the atoms, and below the bound on clashes the answer is 1 exactly for the strings in the language |
| RegexpPipeline.ForkFoundExactly | libxsde/xsde/c/regexp/xmlregexp.c:3202-3215 | on two branches that start with a shared character, the second is found exactly when the comparison said they intersect |
| RegexpPipeline.ForkLostExactly | libxsde/xsde/c/regexp/xmlregexp.c:2318-2394 | so a match is lost exactly on a misjudged pair of atoms |
| GenxStack.FlattenInjective | libxsde/xsde/c/genx/genx.c:1563-1569 | the flat stack of pointers parses into frames in one way only |
| GenxStack.EitherIsBoth | libxsde/xsde/c/genx/genx.c:1634-1664 | when the innermost entry with this namespace or this declaration has both, it is innermost for both |
| GenxStack.CountIsHas | libxsde/xsde/c/genx/genx.c:1620-1624 | a declaration count of zero means there is no entry, and the other way round |
| GenxInvariants.PushOk | libxsde/xsde/c/genx/genx.c:1692-1699 | declaring keeps counts, innermost declarations and the one-entry rule of namespaces that are not baroque |
| GenxInvariants.UnsetOk | libxsde/xsde/c/genx/genx.c:1505-1528 | so does undeclaring the default |
| GenxInvariants.PopOk | libxsde/xsde/c/genx/genx.c:1993-2033 | so does taking an entry off and handing the namespace back to its next declaration outwards |
| GenxInvariants.TagScope | libxsde/xsde/c/genx/genx.c:1432-1472 | reading the declarations written on a tag in the outer scope gives the scope of all stack entries |
| GenxInvariants.InnermostResolves | libxsde/xsde/c/genx/genx.c:1587-1700 | an innermost declaration resolves to its namespace, the default included |
| GenxInvariants.ByOwner | libxsde/xsde/c/genx/genx.c:1587-1700 | where every prefix has one owner, a declaration with a prefix is never shadowed by another namespace |
| GenxTags.StartTagRead | libxsde/xsde/c/genx/genx.c:1392-1476 | after a start tag the reader has opened the element and its attributes under the names they were declared with, or it fails if some attribute is not usable |
| GenxTags.EndTagRead | libxsde/xsde/c/genx/genx.c:1919-2046 | the end tag is read as the end of the element that was started |
| GenxTags.StartTagNests | libxsde/xsde/c/genx/genx.c:1392-1476 | start tags open what end tags close, one root for all, whatever the prefixes |
| GenxTags.UsableExactly | libxsde/xsde/c/genx/genx.c:1360-1381 | of the attributes that pass the check of writeAttribute exactly those are unusable whose namespace is declared nowhere, or as the default without being baroque |
| GenxTags.PushSpoils | libxsde/xsde/c/genx/genx.c:1392-1406 | declaring the element's namespace at the last moment decides nothing anew about the attributes that pass |
| GenxTags.StalePrefix | libxsde/xsde/c/genx/genx.c:1993-2033 | the prefix of a namespace that is no longer declared is not in scope |
| GenxTags.EndTagNests | libxsde/xsde/c/genx/genx.c:1919-2046 | an end tag repeats prefix and name of the start tag it closes |
| GenxTags.AttributesResolve | libxsde/xsde/c/genx/genx.c:1771-1805 | the attributes on the chain resolve to the namespaces they were declared in if and only if each of these is declared with a prefix; otherwise they do not resolve at all |
| GenxRuns.StatesOfDefault | libxsde/xsde/c/genx/genx.c:1096-1098 | redeclaring a namespace as the default, using it on an element and ending that leaves it declared as the default and no longer baroque |
| GenxRuns.DefaultRun | libxsde/xsde/c/genx/genx.c:1360-1381 | an attribute in that namespace passes the check and is sent with a colon and no prefix, so that reading fails |
| GenxRuns.StatesOfStray | libxsde/xsde/c/genx/genx.c:2007-2032 | a second prefix for the pre-wired namespace stays behind when its last declaration is taken off |
| GenxRuns.StrayRun | libxsde/xsde/c/genx/genx.c:1972-1979 | so an element opened before ends under another prefix than it started with |
| GenxDeclaring.DeclaredInPlace | libxsde/xsde/c/genx/genx.c:1616-1700 | without an error the namespace has this very declaration as its innermost, and a new one is on the chain |
| GenxDeclaring.RefusedExactly | libxsde/xsde/c/genx/genx.c:1360-1364 | a tag is refused exactly if some attribute is in a namespace that is declared as the default and is baroque, read off the table before the tag: the element's own namespace counts as declared by its default, and the namespace of a default to be undeclared as baroque |
| GenxDeclaring.PlainNeverRefused | libxsde/xsde/c/genx/genx.c:1360-1364 | attributes in no namespace are never refused |
| GenxWriter.Writer.constructor | libxsde/xsde/c/genx/genx.c:592-665 | a new writer has just the pre-wired xml namespace and an empty stack |
| GenxWriter.Writer.StorePrefix | libxsde/xsde/c/genx/genx.c:389-447 | a prefix is given away once, and only if it is short enough |
| GenxWriter.Writer.DeclareNamespace | libxsde/xsde/c/genx/genx.c:1001-1106 | the namespace with this name and, if asked for, this default; it succeeds exactly if the name is not empty and the default is the one it has, or none is asked of a known one, or the prefix is short enough and nobody has it; nesting and resolving are kept whatever is declared again |
| GenxWriter.Writer.Redefault | libxsde/xsde/c/genx/genx.c:1096-1098 | a known namespace with a new default becomes baroque and stays well-formed |
| GenxWriter.Writer.ChoosePrefix | libxsde/xsde/c/genx/genx.c:1041-1049 | a prefix made up where none is given is none of those made up before |
| GenxWriter.Writer.DeclareElement | libxsde/xsde/c/genx/genx.c:1125-1165 | one element per namespace and name, with the name asked for |
| GenxWriter.Writer.DeclareAttribute | libxsde/xsde/c/genx/genx.c:1202-1298 | one attribute per namespace and name; refused in a namespace whose default is the empty prefix |
| GenxWriter.Writer.StartDoc | libxsde/xsde/c/genx/genx.c:1324-1342 | allowed exactly where no document is under way, which then is empty |
| GenxWriter.Writer.PrepareTag | libxsde/xsde/c/genx/genx.c:1398-1406 | the element's namespace is in force, or the default undeclared for one without, and the table is the one that follows from that |
| GenxWriter.Writer.WriteStartTag | libxsde/xsde/c/genx/genx.c:1392-1476 | refused exactly if some attribute on the chain is in a namespace that, once the element's own is declared or the default undeclared, is baroque and declared as the default; else what was asked for is sent, and read back as that exactly unless the tag was spoiling before the call |
| GenxWriter.Writer.FinishTag | libxsde/xsde/c/genx/genx.c:1555-1560 | the tag under way, if there is one, is sent, and refused exactly under that condition |
| GenxWriter.Writer.Declare | libxsde/xsde/c/genx/genx.c:1616-1700 | what it answers, and what it makes of the table, the stack and the chain, follow from the state before |
| GenxWriter.Writer.WriteAttributes | libxsde/xsde/c/genx/genx.c:1455-1472 | the chain is sent in order with the prefixes in force |
| GenxWriter.Writer.UnsetInternal | libxsde/xsde/c/genx/genx.c:1483-1529 | xmlns="" is written exactly where a default is in force, whose namespace becomes baroque; afterwards none is in force |
| GenxWriter.Writer.UnsetDefaultNamespace | libxsde/xsde/c/genx/genx.c:1534-1542 | only in a start tag, whose meaning does not change; afterwards no default is in force |
| GenxWriter.Writer.StartElement | libxsde/xsde/c/genx/genx.c:1544-1582 | sequence rules; the pending tag is sent, or refused exactly if it cannot be, a frame is pushed, and the new tag means this element without attributes |
| GenxWriter.Writer.AddNamespaceInternal | libxsde/xsde/c/genx/genx.c:1587-1700 | invariants hold; on success the namespace has the prefix asked for, or its default, as its innermost declaration, and the outcome is exactly the one that follows from the state before; with the default prefix the namespace can be used afterwards unless the default cannot be declared here |
| GenxWriter.Writer.ScanEither | libxsde/xsde/c/genx/genx.c:1634-1664 | the scan from the top finds the innermost entry of this namespace or declaration |
| GenxWriter.Writer.InEffect | libxsde/xsde/c/genx/genx.c:1616-1664 | the shortcut through the namespace's fields agrees with the stack |
| GenxWriter.Writer.PushDeclaration | libxsde/xsde/c/genx/genx.c:1666-1700 | the pair goes on the stack and the declaration on the tag; all invariants are kept |
| GenxWriter.Writer.AddNamespace | libxsde/xsde/c/genx/genx.c:1705-1712 | sequence rules; on success the prefix asked for is the namespace's innermost declaration; without an explicit prefix everything keeps resolving |
| GenxWriter.Writer.AddDeclaration | libxsde/xsde/c/genx/genx.c:1771-1805 | a declaration on the tag replaces the value of one with the same prefix |
| GenxWriter.Writer.AddAttribute | libxsde/xsde/c/genx/genx.c:1771-1822 | refused as a duplicate exactly when it is on the tag; else the tag means one attribute more, whose namespace has been declared by its default |
| GenxWriter.Writer.StartAttribute | libxsde/xsde/c/genx/genx.c:1824-1838 | sequence rules; the value starts empty |
| GenxWriter.Writer.EndAttribute | libxsde/xsde/c/genx/genx.c:1856-1887 | refused as a duplicate exactly when it is on the tag; else the tag means one attribute more, with the value collected |
| GenxWriter.Writer.AddText | libxsde/xsde/c/genx/genx.c:2100-2131 | in an attribute its value grows; elsewhere the pending tag is sent, or refused exactly if it cannot be, and the text is heard after it |
| GenxWriter.Writer.SendEndTag | libxsde/xsde/c/genx/genx.c:1941-1980 | the end tag repeats its start tag, and is read as its end, exactly unless the element is in the pre-wired namespace, that has no declaration left on the stack and another prefix than its own |
| GenxWriter.Writer.TopElement | libxsde/xsde/c/genx/genx.c:1954-1958 | the innermost open element is found below the pairs of the stack |
| GenxWriter.Writer.ScanNs | libxsde/xsde/c/genx/genx.c:2007-2028 | the declaration a namespace goes back to is its innermost one below the top |
| GenxWriter.Writer.PopDeclarations | libxsde/xsde/c/genx/genx.c:1993-2033 | the frame's entries are gone and every namespace is back at its next declaration outwards |
| GenxWriter.Writer.EndElement | libxsde/xsde/c/genx/genx.c:1919-2046 | the element ends, as an empty tag, refused exactly if that cannot be sent, or with the prefix of its start tag, and the frames are one fewer |
| GenxWriter.Writer.EndDocument | libxsde/xsde/c/genx/genx.c:2273-2286 | allowed exactly after the root has ended; then what was sent reads as one element with everything that was asked for if no tag was spoiled, and fails to read if one was; likewise for nesting and stray end tags |
| XmlBytes.ValidIsEncoded | libxsde/xsde/c/expat/xmltok.c:81-112 | what the UTF-8 checks let through is the encoding of a scalar value other than U+FFFE and U+FFFF |
| XmlBytes.EncodedIsValid | libxsde/xsde/c/expat/xmltok.c:1275-1307 | and the encoding of every other scalar value is let through |
| XmlBytes.JoinedEncodes | libxsde/xsde/c/expat/xmltok.c:1275-1307 | encoding is undone by joining the bits, both ways |
| XmlBytes.NextUnicodeChar | libxsde/xsde/c/genx/genx.c:457-545 | the writer's decoder moves forward whenever it returns a character |
| XmlBytes.DecoderExact | libxsde/xsde/c/genx/genx.c:457-545 | it returns a character only where the encoding of that scalar value stands |
| XmlBytes.DecoderComplete | libxsde/xsde/c/genx/genx.c:457-545 | and does so wherever one stands |
| Utf16Converters.FirstBytes | libxsde/xsde/c/expat/xmltok.c:602-662 | the bytes put together from the halves of the units are the UTF-8 form of the character, for all planes; stops are for want of room or of a second unit |
| Utf16Converters.ToUtf8 | libxsde/xsde/c/expat/xmltok.c:602-662 | the output is the part of the whole that the consumed units stand for, and the result says why it stopped |
| Utf16Converters.ThroughBuffers | libxsde/xsde/c/expat/xmlparse.c:2642-2657 | converting through a buffer of any size of at least four gives the same bytes as converting at once |
| Utf16Converters.ToUtf16 | libxsde/xsde/c/expat/xmltok.c:371-426 | characters come out as their UTF-16 form, as many as fit; a full buffer is reported as exhausted only before a four-byte character with one unit of room, and a truncated four-byte character as incomplete |
| Utf16Converters.TakeTurn | libxsde/xsde/c/expat/xmltok.c:379-420 | one turn of the loop: a character, no room, or bytes missing; on a truncated two- or three-byte character nothing moves |
| Utf16Converters.EndsExactly | libxsde/xsde/c/expat/xmltok.c:378-424 | the loop ends if and only if no room is left when such a character is reached |
| Utf16Converters.SixteenToEight | libxsde/xsde/c/expat/xmltok.c:1312-1327 | the UTF-8 conversion of the UTF-16 form of any scalar values is their UTF-8 form |
| Utf16Converters.EightToSixteen | libxsde/xsde/c/expat/xmltok.c:371-426 | well-formed UTF-16 comes back unchanged from its UTF-8 form |
| ContentScanner.Run | libxsde/xsde/c/expat/xmltok_impl.c:387-785 | one automaton for references, tags, comments and the rest; every verdict lies within the input |
| ContentScanner.ContentTok | libxsde/xsde/c/expat/xmltok_impl.c:791-885 | verdicts are sane: a token is not empty and ends inside the input |
| ContentLoops.ScanHexCharRef | libxsde/xsde/c/expat/xmltok_impl.c:438-466 | the loop gives the automaton's verdict |
| ContentLoops.ScanCharRef | libxsde/xsde/c/expat/xmltok_impl.c:470-498 | the loop gives the automaton's verdict |
| ContentLoops.ScanRef | libxsde/xsde/c/expat/xmltok_impl.c:502-528 | the loop gives the automaton's verdict |
| ContentLoops.ScanEndTag | libxsde/xsde/c/expat/xmltok_impl.c:389-434 | the loop gives the automaton's verdict |
| ContentLoops.ScanComment | libxsde/xsde/c/expat/xmltok_impl.c:93-126 | the loop gives the automaton's verdict, a double hyphen being an error unless the comment ends |
| ContentLoops.ScanPiTarget | libxsde/xsde/c/expat/xmltok_impl.c:178-222 | a target that is `xml` in any case is refused |
| ContentLoops.ScanPi | libxsde/xsde/c/expat/xmltok_impl.c:226-285 | the loop gives the automaton's verdict |
| ContentLoops.ScanCdataSection | libxsde/xsde/c/expat/xmltok_impl.c:288-308 | the loop gives the automaton's verdict |
| ContentLoops.ScanAtts | libxsde/xsde/c/expat/xmltok_impl.c:532-687 | the loops over attributes, their values and the references in them give the automaton's verdict |
| ContentLoops.ScanLt | libxsde/xsde/c/expat/xmltok_impl.c:691-788 | the dispatch after a less-than sign gives the automaton's verdict |
| ContentLoops.ScanContent | libxsde/xsde/c/expat/xmltok_impl.c:791-885 | contentTok gives the specified token |
| ContentLoops.DrainBuffer | libxsde/xsde/c/expat/xmlparse.c:2260-2312 | the loop over a buffer finds the specified tokens and keeps the specified tail |
| ScannerChunks.ContentStable | libxsde/xsde/c/expat/xmltok_impl.c:791-885 | INVALID and every positive verdict stay as they are when input is appended, save that a run of data may grow |
| ScannerChunks.CutAnywhere | libxsde/xsde/c/expat/xmlparse.c:2260-2312 | cutting the input anywhere and keeping the unconsumed tail gives the same tokens after merging neighbouring data |
| ScannerChunks.ChunksDoNotMatter | libxsde/xsde/c/expat/xmlparse.c:2260-2312 | and so does any sequence of buffers |
| TokenReading.RunSound | libxsde/xsde/c/expat/xmltok_impl.c:691-788 | whatever is taken for markup, the bytes of it are there |
| TokenReading.RefSound | libxsde/xsde/c/expat/xmltok_impl.c:438-528 | and so for references |
| TokenScanning.TokensExactly | libxsde/xsde/c/expat/xmltok_impl.c:791-885 | a token of any kind is found from one place to another exactly if its bytes stand between them: a comment, instruction, CDATA opening, start or end tag with its names, blanks and quoted values, reference, line end or run of data, each described by what it consists of |
| TokenScanning.RunComplete | libxsde/xsde/c/expat/xmltok_impl.c:691-788 | wherever the bytes of a piece of markup stand, the automaton gets through to their end |
| TokenScanning.DataExactly | libxsde/xsde/c/expat/xmltok_impl.c:791-885 | a run of data is valid characters without markup, references, line ends and `]]`, up to where none can follow |
| CharacterData.CheckIsChar | libxsde/xsde/c/expat/xmltok.c:1256-1270 | a reference is to a character exactly if its number is one of the Char production |
| CharacterData.CharRefNumber | libxsde/xsde/c/expat/xmltok_impl.c:1534-1578 | the loops, which give up early, compute the number of the reference or the refusal |
| CharacterData.PredefinedEntity | libxsde/xsde/c/expat/xmltok_impl.c:1581-1634 | zero, or one of the five ASCII characters; which, see CdataValues.PredefinedExactly |
| CharacterData.ReadText | libxsde/xsde/c/expat/xmlparse.c:2555-2577 | the text cases of the content loop hear what is specified |
| AttributeValues.ScanValueTok | libxsde/xsde/c/expat/xmltok_impl.c:1213-1268 | the loop finds the specified token of an attribute value |
| AttributeValues.AttributeParser.AppendAttributeValue | libxsde/xsde/c/expat/xmlparse.c:5256-5403 | it ends because each nested call has one more entity open; it restores every open flag and computes the specified expansion or error |
| AttributeValues.AttributeParser.StoreAttributeValue | libxsde/xsde/c/expat/xmlparse.c:5240-5253 | the expansion without a space at its end, or the error |
| CdataValues.StoredIsValue | libxsde/xsde/c/expat/xmlparse.c:5240-5403 | the stored value of a CDATA attribute, or the error, is that of section 3.3.3 of XML 1.0 read off the bytes: each blank and line end a space, references their characters, entities the values of their texts, everything else itself |
| CdataValues.ValueExactly | libxsde/xsde/c/expat/xmlparse.c:5256-5403 | the same for any text, wherever it is expanded and whatever is in the pool |
| CdataValues.RefersExactly | libxsde/xsde/c/expat/xmltok_impl.c:1534-1578 | the number of a character reference is the one its digits write, in base sixteen or ten |
| CdataValues.HexDigitsRead | libxsde/xsde/c/expat/xmltok_impl.c:1541-1566 | the value of every digit, in either case |
| CdataValues.PredefinedExactly | libxsde/xsde/c/expat/xmltok_impl.c:1581-1634 | just lt, gt, amp, quot and apos are predefined, each for its character |
| AttributeTheorems.OnePass | libxsde/xsde/c/expat/xmlparse.c:5256-5403 | normalising in one pass is expanding as for CDATA and then collapsing spaces, and both fail alike |
| AttributeTheorems.CollapseIsSentence | libxsde/xsde/c/expat/xmlparse.c:5240-5403 | collapsing leaves the words with one space between each two, and perhaps one at the end |
| AttributeTheorems.StoredIsWords | libxsde/xsde/c/expat/xmlparse.c:5240-5403 | the value of an attribute that is not CDATA is the words of its CDATA value (section 3.3.3 of XML 1.0) |
| AttributeTheorems.NormalizedFlag | libxsde/xsde/c/expat/xmltok_impl.c:1469-1520 | the flag is set exactly for values of plain characters and single inner spaces |
| AttributeTheorems.FastPathRefines | libxsde/xsde/c/expat/xmlparse.c:2826-2857 | where the flag is set, copying the raw value equals normalising it, for every type |
| HeardText.HeardIsText | libxsde/xsde/c/expat/xmlparse.c:2555-2577 | what is heard is the text up to where it stops, read off the bytes: every line end a line feed, references their characters, everything else itself |
| EntityRecursion.SuccessIsSound | libxsde/xsde/c/expat/xmlparse.c:5367-5391 | a value that could be expanded has no chain of references that comes back or leads to an open entity |
| EntityRecursion.BlameIsJust | libxsde/xsde/c/expat/xmlparse.c:5367-5371 | the recursion error is given only when there is such a chain, which the lemma produces |
| GenxText.Sender.AddChar | libxsde/xsde/c/genx/genx.c:2058-2098 | a character is sent escaped where it must be, and ordinary text is held back in one piece |
| GenxText.Sender.AddText | libxsde/xsde/c/genx/genx.c:2100-2131 | it succeeds exactly on well-formed UTF-8 of accepted characters, and then sends their escaped form |
| GenxText.Sender.CollectAttributeValue | libxsde/xsde/c/genx/genx.c:1718-1769 | the same for a value between quotes |
| GenxText.DecodedIsUtf8 | libxsde/xsde/c/genx/genx.c:457-545 | a string that decodes is the UTF-8 form of its characters |
| TextRoundTrip.AcceptedIsXmlChar | libxsde/xsde/c/genx/genx.c:547-555 | the full character table accepts the Char production; the small one also U+FFFE and U+FFFF |
| TextRoundTrip.ContentRoundTrip | libxsde/xsde/c/genx/genx.c:2058-2131 | written text, with markup after it, is heard by the parser as it was if and only if it is all of the Char production; with the full table it always is |
| TextRoundTrip.EscapeRead | libxsde/xsde/c/expat/xmltok_impl.c:502-528 | each escape is one reference and stands for its character |
| TextRoundTrip.ValueScanned | libxsde/xsde/c/expat/xmltok_impl.c:600-640 | the parser takes just the written value, up to the quote after it |
| TextRoundTrip.ValueRoundTrip | libxsde/xsde/c/genx/genx.c:1718-1769 | a CDATA value comes back as it was, and one of another type as its words |
| ContentModel.StepPrints | libxsde/xsde/c/expat/xmlrole.c:1101-1330 | each accepted token is the next one of the printed model |
| ContentModel.AcceptsExactlyPrintings | libxsde/xsde/c/expat/xmlrole.c:1101-1330 | a declaration is accepted as a model if and only if it is the printing of that model with blanks anywhere (sections 3.2.1 and 3.2.2 of XML 1.0) |
| ContentModel.BlanksDoNotMatter | libxsde/xsde/c/expat/xmlrole.c:1101-1422 | blanks change nothing, after the end of the model either |
| ContentModel.PrintInjective | libxsde/xsde/c/expat/xmlrole.c:1101-1330 | a model is written in one way only |
| ContentModel.ReadsModel | libxsde/xsde/c/expat/xmlrole.c:1101-1330 | the printing of any model is accepted as it |
| ContentScaffold.ElementDecl.constructor | libxsde/xsde/c/expat/xmlparse.c:4861-4872 | a declaration starts with no group and an empty scaffold |
| ContentScaffold.ElementDecl.HandleToken | libxsde/xsde/c/expat/xmlrole.c:1101-1330 | handler, level and role of every handler on every token; the level never underflows |
| ContentScaffold.ElementDecl.NextScaffoldPart | libxsde/xsde/c/expat/xmlparse.c:6643-6711 | the new cell is linked as the last child of the innermost group |
| ContentScaffold.ElementDecl.GrowGroups | libxsde/xsde/c/expat/xmlparse.c:4710-4745 | connector and index arrays grow together and keep their contents |
| ContentScaffold.ElementDecl.OpenGroup | libxsde/xsde/c/expat/xmlparse.c:4709-4756 | one more group is open, and the scaffold is laid out for it |
| ContentScaffold.ElementDecl.Sequence | libxsde/xsde/c/expat/xmlparse.c:4757-4763 | a comma is refused exactly in a group with bars |
| ContentScaffold.ElementDecl.Choose | libxsde/xsde/c/expat/xmlparse.c:4764-4778 | a bar is refused exactly in a group with commas; the first makes the group a choice |
| ContentScaffold.ElementDecl.Pcdata | libxsde/xsde/c/expat/xmlparse.c:4895-4902 | the group becomes a mixed one |
| ContentScaffold.ElementDecl.Element | libxsde/xsde/c/expat/xmlparse.c:4904-4945 | a name is one more item of the innermost group |
| ContentScaffold.ElementDecl.CloseGroup | libxsde/xsde/c/expat/xmlparse.c:4947-4976 | the group becomes an item of the one around it, or the model is complete |
| ContentScaffold.ElementDecl.Next | libxsde/xsde/c/expat/xmlparse.c:4709-4976 | a token is accepted if and only if the machine on trees accepts it, and the scaffold stays the layout of the tree |
| ContentBuild.BuildModel | libxsde/xsde/c/expat/xmlparse.c:6715-6824 | the result is the scaffold cell by cell and the strings just fill their area; the stack kept in the unwritten part of the array never meets the written part |
| ContentBuild.WriteNode | libxsde/xsde/c/expat/xmlparse.c:6787-6822 | one step writes the node on top of the stack at `dest` and leaves what was written alone |
| ContentBuild.PushChildren | libxsde/xsde/c/expat/xmlparse.c:6813-6820 | the children are on the stack, the first on top |
| ContentBuild.CopyName | libxsde/xsde/c/expat/xmlparse.c:6795-6803 | a name and its terminator |
| ContentBuild.ForestRoom | libxsde/xsde/c/expat/xmlparse.c:6769-6776 | the pending trees need exactly the cells that are left |
| ContentBuild.FlatIsPreorder | libxsde/xsde/c/expat/xmlparse.c:6787-6822 | the result lists the tree in pre-order |
| ContentBuild.NamesLength | libxsde/xsde/c/expat/xmlparse.c:4933-4941 | the string area is just long enough |
| ContentBuild.ChildrenAreAnArray | libxsde/xsde/c/expat/expat.h:130-134 | the cells from `children` on are the children, one each, if and only if all but the last have none of their own |
| ContentBuild.ChildrenExample | libxsde/xsde/c/expat/expat.h:130-134 | a model for which the documented reading of `children` is wrong |
| ContentBuild.ReadDeclaration | libxsde/xsde/c/expat/xmlparse.c:4709-4976 | there is a scaffold exactly when the tokens write a model, and then it is the layout of that model |
| HashProbe.StepOdd | libxsde/xsde/c/expat/xmlparse.c:122-134 | the probing step is odd, a byte, and at most a quarter of the table |
| HashProbe.ProbesReachAll | libxsde/xsde/c/expat/xmlparse.c:122-134 | the probes for any hash value visit every slot |
| HashProbe.ProbeNext | libxsde/xsde/c/expat/xmlparse.c:6346-6348 | going down by the step, round the end, is going from one probe to the next |
| HashProbe.SearchIsRight | libxsde/xsde/c/expat/xmlparse.c:6343-6351 | a search that ends at an empty slot proves the key is nowhere |
| HashProbe.StoreKeepsHashed | libxsde/xsde/c/expat/xmlparse.c:6400-6406 | a key stored where its search ended leaves every key to be found |
| HashTable.Table.constructor | libxsde/xsde/c/expat/xmlparse.c:6430-6437 | an empty table, with an allocator that grants some requests and not others |
| HashTable.Table.Search | libxsde/xsde/c/expat/xmlparse.c:6339-6349 | the probing ends, at the entry of this name or at an empty slot where it belongs |
| HashTable.Table.Place | libxsde/xsde/c/expat/xmlparse.c:6376-6386 | an entry is put into the new array where probing finds it |
| HashTable.Table.Grow | libxsde/xsde/c/expat/xmlparse.c:6353-6390 | twice the slots and all entries; refused exactly when the size would overflow or the request for memory is not granted |
| HashTable.Table.Make | libxsde/xsde/c/expat/xmlparse.c:6321-6337 | the first table, exactly when the request for it is granted |
| HashTable.Table.Lookup | libxsde/xsde/c/expat/xmlparse.c:6319-6407 | the table is a finite map: a known name gives its entry and changes nothing, an unknown one is reported missing or, if it is to be created, added exactly when every request for memory that this takes is granted; a refusal leaves the map as it was |
| HashTable.Table.Insert | libxsde/xsde/c/expat/xmlparse.c:6391-6406 | one more entry and no other change, exactly when the request for it is granted |
| HashTable.Table.Clear | libxsde/xsde/c/expat/xmlparse.c:6410-6418 | an empty map |
| NamespaceBindings.RefusesExactly | libxsde/xsde/c/expat/xmlparse.c:3268-3360 | a binding is refused exactly when it breaks a reservation of section 3 of Namespaces in XML 1.0 or has the separator in its name |
| NamespaceBindings.CheckBinding | libxsde/xsde/c/expat/xmlparse.c:3268-3360 | the character-wise checks give that answer |
| NamespaceBindings.CompareUri | libxsde/xsde/c/expat/xmlparse.c:3302-3345 | the loop decides equality with both reserved names |
| NamespaceBindings.Parser.NewPrefix | libxsde/xsde/c/expat/xmlparse.c:5750-5758 | one more prefix, bound to nothing; all other bindings are kept |
| NamespaceBindings.Parser.OpenTag | libxsde/xsde/c/expat/xmlparse.c:2409-2462 | a tag with no declarations yet |
| NamespaceBindings.Parser.TakeCell | libxsde/xsde/c/expat/xmlparse.c:3362-3412 | a cell that is in no list |
| NamespaceBindings.Parser.AddBinding | libxsde/xsde/c/expat/xmlparse.c:3269-3433 | refused as specified with nothing changed, or one more declaration on the innermost tag |
| NamespaceBindings.Parser.Attach | libxsde/xsde/c/expat/xmlparse.c:3413-3426 | the cell heads its tag's list and its prefix's chain |
| NamespaceBindings.Parser.UnwindOne | libxsde/xsde/c/expat/xmlparse.c:2542-2550 | the newest declaration is undone and its cell is free |
| NamespaceBindings.Parser.CloseTag | libxsde/xsde/c/expat/xmlparse.c:2542-2550 | every prefix is bound as before the tag, and no cell is lost or in two lists |
| NamespaceBindings.Parser.Resolve | libxsde/xsde/c/expat/xmlparse.c:3079-3093 | a prefix stands for its innermost declaration among the open elements, none after xmlns="" |
| NamespaceAttributes.AttributeTable.GrownPower | libxsde/xsde/c/expat/xmlparse.c:2932-2947 | the size is a power of two above twice the prefixed attributes |
| NamespaceAttributes.AttributeTable.Restamp | libxsde/xsde/c/expat/xmlparse.c:2968-2972 | all slots carry the highest version |
| NamespaceAttributes.AttributeTable.Prepare | libxsde/xsde/c/expat/xmlparse.c:2921-2973 | afterwards no slot carries the current version and there is room; refused exactly for 2^30 attributes and more |
| NamespaceAttributes.AttributeTable.ExpandName | libxsde/xsde/c/expat/xmlparse.c:3004-3018 | URI and local part, with the hash of the two |
| NamespaceAttributes.AttributeTable.Search | libxsde/xsde/c/expat/xmlparse.c:3020-3040 | a name is reported exactly if a stored one has its hash and starts with it |
| NamespaceAttributes.AttributeTable.ExpandOne | libxsde/xsde/c/expat/xmlparse.c:3000-3059 | a name without a clash is in the table afterwards |
| NamespaceAttributes.AttributeTable.ExpandNames | libxsde/xsde/c/expat/xmlparse.c:2918-3072 | the outcome depends on the attributes alone: the table acts as if empty on every start tag |
| NamespaceAttributes.NamesExactly | libxsde/xsde/c/expat/xmlparse.c:2976-3069 | names are handed out if and only if every prefix is bound and no two attributes clash |
| NamespaceAttributes.UniqueExactly | libxsde/xsde/c/expat/xmlparse.c:3020-3040 | two attributes with one expanded name are always reported (section 6.3 of Namespaces in XML 1.0), and without colliding hashes nothing else is |
| NamespaceAttributes.NamesInOrder | libxsde/xsde/c/expat/xmlparse.c:3042-3054 | the names handed out are the expanded ones in order, with separator and prefix when triplets are wanted |
| NamespaceAttributes.ErrorsHaveCauses | libxsde/xsde/c/expat/xmlparse.c:3000-3034 | an unbound prefix or a clash is there whenever it is reported |
| StringPool.Pool.constructor | libxsde/xsde/c/expat/xmlparse.c:6458-6466 | an empty pool |
| StringPool.Pool.Grow | libxsde/xsde/c/expat/xmlparse.c:6571-6641 | the string in progress keeps its characters and gets room; every finished string stays where it lies and as it was; it succeeds exactly if a free block is large enough or the room can be doubled and the request is granted |
| StringPool.Pool.GrowFromFree | libxsde/xsde/c/expat/xmlparse.c:6584-6596 | a larger free block becomes the first, and the lists stay apart |
| StringPool.Pool.GrowInPlace | libxsde/xsde/c/expat/xmlparse.c:6598-6615 | only a block with no finished string in it is reallocated |
| StringPool.Pool.GrowNew | libxsde/xsde/c/expat/xmlparse.c:6616-6639 | a new block, at least twice as large; a size that wraps round is one no allocator has |
| StringPool.Pool.AppendChar | libxsde/xsde/c/expat/xmlparse.c:463-466 | one character more if there is room or it can be had, else nothing changed |
| StringPool.Pool.Finish | libxsde/xsde/c/expat/xmlparse.c:462-462 | the string is kept from now on, and a new one starts |
| StringPool.Pool.Discard | libxsde/xsde/c/expat/xmlparse.c:461-461 | no string is in progress; the finished ones are the same |
| StringPool.Pool.Chop | libxsde/xsde/c/expat/xmlparse.c:459-459 | one character less |
| StringPool.Pool.Clear | libxsde/xsde/c/expat/xmlparse.c:6469-6486 | all blocks are free, none is lost |
| StringPool.Pool.CopyString | libxsde/xsde/c/expat/xmlparse.c:6522-6531 | one finished string more, with its terminator; the earlier ones are the same; it fails only if a request was refused or the room would be no size, and never while there is room |
| StringPool.Pool.AppendString | libxsde/xsde/c/expat/xmlparse.c:6548-6556 | the string in progress is longer by just these characters; it fails only for such a reason |
| StringPool.Pool.Append | libxsde/xsde/c/expat/xmlparse.c:6506-6519 | all bytes arrive, however often the conversion stops and the pool grows; it fails only for such a reason |
| StringPool.Pool.Convert | libxsde/xsde/c/expat/xmltok.c:342-368 | the bytes copied are a prefix, and all of them exactly when it says so |
| NamespaceContext.GetContext | libxsde/xsde/c/expat/xmlparse.c:5832-5898 | the items of the default, the bound prefixes and the open entities in table order, with separators between |
| NamespaceContext.EntityParser.SetContext | libxsde/xsde/c/expat/xmlparse.c:5901-5959 | one scan reads the items one by one and fails exactly where a binding is refused |
| NamespaceContext.SplitJoin | libxsde/xsde/c/expat/xmlparse.c:5832-5959 | splitting undoes joining |
| NamespaceContext.BoundIsTable | libxsde/xsde/c/expat/xmlparse.c:5854-5880 | the bindings written are those of the table and no others |
| NamespaceContext.ContextRoundTrip | libxsde/xsde/c/expat/xmlparse.c:5832-5959 | reading the context string gives exactly the bindings and open entities it was made from, in any table order |

## Left out

Of the regular expressions:

- Counters and `{n,m}` ranges, string atoms and the compact table: `counter` and `count` are -1 throughout.
- Parsing the expression: the project starts from the automaton that was built, with the properties that xmlRegStateAddTrans gives it.
- RegexpPipeline.Match: requires that the start state is not a final state with a lone epsilon, since the simple pass would free it, that no removed state leaks, and that the comparisons are sound; MatchAtoms replaces the last by a condition on the atoms. The bound on clashes is for transitions that carry no mark yet, as xmlRegStateAddTrans makes them.
- RegexpAtoms.CheckCharacter: the character tables of chvalid.c and xmlunicode.h are parameters; where it matters, that general categories are a partition is a hypothesis.

Of the writer:

- Canonical attribute order and pretty printing; comments, processing instructions, the XML declaration and the doctype; genxReset.
- GenxWriter.Writer.AddNamespace: with an explicit prefix it is not proved that what is sent resolves, since such a prefix can shadow another namespace; nesting and what is declared are.
- GenxWriter.Writer.DeclareNamespace: a failed call may leave a namespace without a declaration behind, and no later state is described; that section 3 of Namespaces in XML 1.0 forbids a second prefix for the xml namespace is not checked by the reader.
- GenxWriter.Writer.DeclareAttribute: names that start with xmlns are excepted; the checks that declared names are NCNames of well-formed UTF-8 are not part of this model.
- GenxWriter.Writer.WriteStartTag: errors of the output and of memory; the state after a failed call is not described; a namespace that was never declared has a null declaration, which the code follows and the model writes as a name without a prefix.
- GenxWriter.Writer.AddText: the writer sends tokens, and text as one of them; how text becomes bytes is in GenxText.

Of the parser:

- The 16-bit and single-byte scanners; the prolog tokens and states other than those of element declarations; positions; suspending and resuming; the contents of CDATA sections; external entities; unknown encodings.
- TokenScanning.TokensExactly: says which tokens are found; of the verdicts without a token only that INVALID stays when input is appended, see ScannerChunks.ContentStable.
- ContentLoops.ScanContent: name characters beyond ASCII are a parameter, in place of nametab.h.
- CharacterData.ReadText: references to entities that are not predefined end it, like markup.
- ContentScaffold.ElementDecl.Next: parameter entity references inside a declaration, and memory failures.
- ContentScaffold.ElementDecl.OpenGroup: the quantifier of an open group is not initialised by the code, and is set when the group closes; the model starts it as "once".
- NamespaceBindings.Parser.AddBinding: the buffer of the URI and its spare room; memory failures; the call of the declaration handler.
- NamespaceAttributes.AttributeTable.ExpandNames: the flags in front of the attribute names, and memory failures, after which the power and the array of the code no longer agree.
- StringPool.Pool.GrowNew: the doubling of an `int` from 2^30 on is undefined in C; the model lets it wrap round.
- StringPool.Pool.Finish: an empty string is not kept, since a later growth may move the place where it lies.
- StringPool.Pool.Append: only for the conversion from UTF-8 to UTF-8; poolCopyStringN is like poolCopyString.
- Utf16Converters.ToUtf16: bytes that are no characters; it asks that its loop ends, see EndsExactly.
- NamespaceContext.ContextRoundTrip: asks that names have no equals sign, and neither names nor URIs a form feed, which no name or character data of a well-formed document has.
- NamespaceContext.EntityParser.SetContext: bindings are a map here; the cells behind it are in NamespaceBindings.
