/** The tags the writer sends and what a namespace-aware reader makes of them. */
module GenxTags {
  import opened Wrappers
  import opened GenxStack
  import opened NamespaceReader
  import opened GenxInvariants

  /** The prefix an element's tags carry: the innermost declaration of its namespace. */
  function NameOn(elements: seq<Element>, fs: seq<Frame>): QName
    requires fs != [] && Top(fs).element < |elements|
  {
    var e := elements[Top(fs).element];
    QName(if e.ns.None? then "" else
          var d := LastOfNs(AllEntries(fs), e.ns.value);
          if d.Some? then d.value else "xml",
          e.name)
  }

  function ExpandedOf(names: seq<string>, ns: Option<nat>, local: string): Expanded {
    Expanded(if ns.Some? && ns.value < |names| then names[ns.value] else "", local)
  }

  ghost predicate InTable(elements: seq<Element>, fs: seq<Frame>) {
    forall f :: f in fs ==> f.element < |elements|
  }

  lemma TopInTable(elements: seq<Element>, fs: seq<Frame>)
    requires InTable(elements, fs) && fs != []
    ensures Top(fs).element < |elements|
  {
    assert Top(fs) in fs;
  }

  /** The open elements as a reader should see them. */
  function WrittenOpen(names: seq<string>, elements: seq<Element>, fs: seq<Frame>): seq<OpenElement>
    requires InTable(elements, fs)
  {
    if fs == [] then [] else
    assert Top(fs) in fs;
    var e := elements[Top(fs).element];
    WrittenOpen(names, elements, fs[..|fs| - 1])
    + [OpenElement(NameOn(elements, fs), ExpandedOf(names, e.ns, e.name), ScopeAt(names, AllEntries(fs)))]
  }

  function AttNameOf(nss: seq<Namespace>, a: Attribute): AttName {
    if a.ns.None? then Plain(a.name)
    else if a.ns.value < |nss| && nss[a.ns.value].declaration.Some? && nss[a.ns.value].declaration.value != ""
      then Prefixed(nss[a.ns.value].declaration.value, a.name)
    else Garbled(a.name)
  }

  /** The attributes on the chain as written: prefix from the namespace's current declaration. */
  function AttsOf(nss: seq<Namespace>, attributes: seq<Attribute>, pending: seq<Pending>): seq<(AttName, string)> {
    if pending == [] then [] else
    var rest := AttsOf(nss, attributes, pending[..|pending| - 1]);
    match pending[|pending| - 1]
    case UserAtt(a) => if a < |attributes| then rest + [(AttNameOf(nss, attributes[a]), attributes[a].value)] else rest
    case DeclAtt(_) => rest
  }

  /** The attributes on the chain as declared. */
  function MeantAtts(names: seq<string>, attributes: seq<Attribute>, pending: seq<Pending>): seq<(Expanded, string)> {
    if pending == [] then [] else
    var rest := MeantAtts(names, attributes, pending[..|pending| - 1]);
    match pending[|pending| - 1]
    case UserAtt(a) =>
      if a < |attributes| then rest + [(ExpandedOf(names, attributes[a].ns, attributes[a].name), attributes[a].value)] else rest
    case DeclAtt(_) => rest
  }

  /** The namespace of the element being written is usable: in force, or the pre-wired one. */
  ghost predicate InForce(nss: seq<Namespace>, es: seq<Entry>, n: nat) {
    n < |nss| && (Innermost(es, n) || (n == 0 && CountNs(es, 0) == 0 && nss[0].declaration == Some("xml")))
  }

  ghost predicate DefaultClear(es: seq<Entry>) {
    LastOfDecl(es, "").None? || LastOfDecl(es, "").value.ns.None?
  }

  /** An element's tag name resolves to the namespace it was declared in. */
  lemma {:induction false} ElementResolves(nss: seq<Namespace>, elements: seq<Element>, owner: map<Prefix, nat>, fs: seq<Frame>)
    requires Resolving(nss, elements, owner, fs) && fs != [] && Top(fs).element < |elements|
    requires var e := elements[Top(fs).element];
             if e.ns.Some? then InForce(nss, AllEntries(fs), e.ns.value) else DefaultClear(AllEntries(fs))
    ensures var e := elements[Top(fs).element];
            ResolveElement(ScopeAt(Names(nss), AllEntries(fs)), NameOn(elements, fs)) == Some(ExpandedOf(Names(nss), e.ns, e.name))
  {
    hide FrameOk, Unshadowed;
    var e := elements[Top(fs).element];
    var es := AllEntries(fs);
    if e.ns.None? {
      ScopeLookup(Names(nss), es, "");
    } else if Innermost(es, e.ns.value) {
      InnermostResolves(nss, es, e.ns.value);
    } else {
      CountIsHas(es, 0);
      PrefixResolves(nss, owner, es, 0);
    }
  }

  /** The prefix written is the current declaration. */
  lemma {:induction false} DeclarationIsName(nss: seq<Namespace>, es: seq<Entry>, n: nat)
    requires StackOk(nss, es) && n < |nss| && Sendable(nss, es, n)
    ensures nss[n].declaration == if LastOfNs(es, n).Some? then LastOfNs(es, n) else Some("xml")
  {
    assert NsOk(nss[n], n, es);
    CountIsHas(es, n);
  }

  /** The attribute's namespace is declared and the declaration has a prefix. */
  ghost predicate AttUsable(nss: seq<Namespace>, a: Attribute, es: seq<Entry>) {
    a.ns.Some? ==> a.ns.value < |nss| && Sendable(nss, es, a.ns.value) && nss[a.ns.value].declaration != Some("")
  }

  ghost predicate AttsUsable(nss: seq<Namespace>, attributes: seq<Attribute>, es: seq<Entry>, pending: seq<Pending>) {
    forall i :: 0 <= i < |pending| && pending[i].UserAtt? ==>
      pending[i].a < |attributes| && AttUsable(nss, attributes[pending[i].a], es)
  }

  /** The chain's attributes, and the namespaces they are in, are in the tables. */
  ghost predicate ChainKnown(nss: seq<Namespace>, attributes: seq<Attribute>, pending: seq<Pending>) {
    forall i :: 0 <= i < |pending| && pending[i].UserAtt? ==>
      pending[i].a < |attributes| && (attributes[pending[i].a].ns.Some? ==> attributes[pending[i].a].ns.value < |nss|)
  }

  /** The attributes on the chain resolve to the namespaces they were declared in if all are usable,
      and if one is not then they do not resolve at all. */
  lemma {:induction false} AttributesResolve(nss: seq<Namespace>, attributes: seq<Attribute>, owner: map<Prefix, nat>,
                                             es: seq<Entry>, pending: seq<Pending>)
    requires StackOk(nss, es) && Owned(nss, owner, es) && NamesOk(Names(nss))
    requires ChainKnown(nss, attributes, pending)
    ensures ResolveAttributes(ScopeAt(Names(nss), es), AttsOf(nss, attributes, pending)) ==
            if AttsUsable(nss, attributes, es, pending) then Some(MeantAtts(Names(nss), attributes, pending)) else None
  {
    hide NsOk, StackOk, ScopeAt, Owned, NamesOk, AttUsable, Names, AttNameOf, ExpandedOf, ResolveAttribute;
    if pending != [] {
      var k := |pending| - 1;
      AttributesResolve(nss, attributes, owner, es, pending[..k]);
      UsableNext(nss, attributes, es, pending);
      match pending[k]
      case DeclAtt(_) =>
      case UserAtt(a) =>
        AttributeResolves(nss, attributes[a], owner, es);
        var atts := AttsOf(nss, attributes, pending);
        assert atts[..|atts| - 1] == AttsOf(nss, attributes, pending[..k]);
    }
  }

  lemma UsableNext(nss: seq<Namespace>, attributes: seq<Attribute>, es: seq<Entry>, pending: seq<Pending>)
    requires pending != [] && ChainKnown(nss, attributes, pending)
    ensures var k := |pending| - 1;
            AttsUsable(nss, attributes, es, pending) <==>
            && AttsUsable(nss, attributes, es, pending[..k])
            && (pending[k].UserAtt? ==> AttUsable(nss, attributes[pending[k].a], es))
  {
    hide AttUsable;
  }

  lemma {:induction false} AttributeResolves(nss: seq<Namespace>, a: Attribute, owner: map<Prefix, nat>, es: seq<Entry>)
    requires StackOk(nss, es) && Owned(nss, owner, es) && NamesOk(Names(nss))
    requires a.ns.Some? ==> a.ns.value < |nss|
    ensures ResolveAttribute(ScopeAt(Names(nss), es), AttNameOf(nss, a)) ==
            if AttUsable(nss, a, es) then Some(ExpandedOf(Names(nss), a.ns, a.name)) else None
  {
    if a.ns.Some? {
      var n := a.ns.value;
      if Sendable(nss, es, n) {
        DeclarationIsName(nss, es, n);
        if nss[n].declaration != Some("") { PrefixResolves(nss, owner, es, n); }
      } else if nss[n].declaration.Some? && nss[n].declaration.value != "" {
        StalePrefix(nss, owner, es, n);
      }
    }
  }

  /** The prefix of a namespace that is no longer declared is not in scope: nobody else has it. */
  lemma {:induction false} StalePrefix(nss: seq<Namespace>, owner: map<Prefix, nat>, es: seq<Entry>, n: nat)
    requires Owned(nss, owner, es) && n < |nss| && !Sendable(nss, es, n)
    requires nss[n].declaration.Some? && nss[n].declaration.value != ""
    ensures nss[n].declaration.value !in ScopeAt(Names(nss), es)
  {
    var p := nss[n].declaration.value;
    ScopeLookup(Names(nss), es, p);
    LastOfDeclIn(es, p);
    CountIsHas(es, n);
    forall e | e in es
      ensures e.decl != p
    {
      var k :| 0 <= k < |es| && es[k] == e;
      assert es[k].ns != Some(n);
    }
  }

  // ------------------------------------------------------------------ reading what was sent

  ghost predicate Reads(out: seq<Token>, names: seq<string>, elements: seq<Element>, fs: seq<Frame>, rootSeen: bool, said: seq<Event>) {
    InTable(elements, fs) && Read(out) == Reading(WrittenOpen(names, elements, fs), rootSeen, said)
  }

  lemma {:induction false} WrittenScope(names: seq<string>, elements: seq<Element>, fs: seq<Frame>)
    requires InTable(elements, fs)
    ensures ScopeOf(WrittenOpen(names, elements, fs)) == ScopeAt(names, AllEntries(fs))
  {
  }

  /** Sending a start tag: the reader opens the element with the scope of all entries. */
  lemma {:induction false} StartTagRead(out: seq<Token>, nss: seq<Namespace>, elements: seq<Element>, attributes: seq<Attribute>,
                     owner: map<Prefix, nat>, fs: seq<Frame>, pending: seq<Pending>, values: map<Prefix, string>,
                     empty: bool, said: seq<Event>)
    requires fs != [] && Resolving(nss, elements, owner, fs) && InTable(elements, fs)
    requires Reads(out, Names(nss), elements, fs[..|fs| - 1], |fs| > 1, said)
    requires PendingOk(Names(nss), Top(fs).entries, pending, values)
    requires Top(fs).element < |elements| &&
             var e := elements[Top(fs).element];
             if e.ns.Some? then InForce(nss, AllEntries(fs), e.ns.value) else DefaultClear(AllEntries(fs))
    requires ChainKnown(nss, attributes, pending)
    ensures var e := elements[Top(fs).element];
            var x := ExpandedOf(Names(nss), e.ns, e.name);
            var start := StartEvent(x, MeantAtts(Names(nss), attributes, pending));
            var out' := out + [OpenTag(NameOn(elements, fs), DeclsOf(pending, values), AttsOf(nss, attributes, pending), empty)];
            if !AttsUsable(nss, attributes, AllEntries(fs), pending) then Read(out').Failed?
            else if empty then Reads(out', Names(nss), elements, fs[..|fs| - 1], true, said + [start, EndEvent(x)])
            else Reads(out', Names(nss), elements, fs, true, said + [start])
  {
    hide FrameOk, Unshadowed, NsOk, InForce, DefaultClear, PendingOk, AttsUsable;
    var names, outer, own := Names(nss), AllEntries(fs[..|fs| - 1]), Top(fs).entries;
    var es := AllEntries(fs);
    assert es == outer + own;
    ReadNext(out, OpenTag(NameOn(elements, fs), DeclsOf(pending, values), AttsOf(nss, attributes, pending), empty));
    WrittenScope(names, elements, fs[..|fs| - 1]);
    OwnEntries(nss, owner, outer, own);
    TagScope(names, outer, own, pending, values);
    ElementResolves(nss, elements, owner, fs);
    AttributesResolve(nss, attributes, owner, es, pending);
  }

  lemma {:induction false} OwnEntries(nss: seq<Namespace>, owner: map<Prefix, nat>, outer: seq<Entry>, own: seq<Entry>)
    requires StackOk(nss, outer + own) && Owned(nss, owner, outer + own)
    ensures forall e :: e in own ==> (e.ns.Some? ==> e.ns.value < |Names(nss)|) && (e.ns.None? ==> e.decl == "")
  {
    forall e | e in own
      ensures e in outer + own
    {}
  }

  /** Sending an end tag for the innermost element. */
  lemma {:induction false} EndTagRead(out: seq<Token>, names: seq<string>, elements: seq<Element>, fs: seq<Frame>, said: seq<Event>)
    requires fs != [] && Reads(out, names, elements, fs, true, said)
    ensures Top(fs).element < |elements| &&
            var e := elements[Top(fs).element];
            Reads(out + [CloseTag(NameOn(elements, fs))], names, elements, fs[..|fs| - 1], true,
                  said + [EndEvent(ExpandedOf(names, e.ns, e.name))])
  {
    hide ScopeAt, AllEntries, NameOn;
    assert Top(fs) in fs;
    ReadNext(out, CloseTag(NameOn(elements, fs)));
    var open := WrittenOpen(names, elements, fs);
    assert open[..|open| - 1] == WrittenOpen(names, elements, fs[..|fs| - 1]);
  }

  lemma {:induction false} TextRead(out: seq<Token>, names: seq<string>, elements: seq<Element>, fs: seq<Frame>, said: seq<Event>, text: string)
    requires fs != [] && Reads(out, names, elements, fs, true, said)
    ensures Reads(out + [Characters(text)], names, elements, fs, true, said + [TextEvent(text)])
  {
    ReadNext(out, Characters(text));
  }

  // ------------------------------------------------------------------ nesting of the tags

  /** The namespace of an open element stays declared on it or further out. */
  ghost predicate TopCovered(elements: seq<Element>, fs: seq<Frame>) {
    && fs != [] && Top(fs).element < |elements|
    && var ns := elements[Top(fs).element].ns;
       (ns.Some? && ns.value > 0 ==> CountNs(AllEntries(fs), ns.value) > 0)
  }

  ghost predicate Covered(elements: seq<Element>, fs: seq<Frame>) {
    fs != [] ==> TopCovered(elements, fs) && Covered(elements, fs[..|fs| - 1])
  }

  function TagNames(elements: seq<Element>, fs: seq<Frame>): seq<QName>
    requires InTable(elements, fs)
  {
    if fs == [] then [] else
    assert Top(fs) in fs;
    TagNames(elements, fs[..|fs| - 1]) + [NameOn(elements, fs)]
  }

  /** The tags sent leave open just the elements of these frames. */
  ghost predicate Nests(out: seq<Token>, elements: seq<Element>, fs: seq<Frame>, rootSeen: bool) {
    && InTable(elements, fs) && Covered(elements, fs)
    && Tags(out) == Nesting(TagNames(elements, fs), rootSeen)
  }

  lemma {:induction false} StartTagNests(out: seq<Token>, elements: seq<Element>, fs: seq<Frame>, t: Token)
    requires fs != [] && InTable(elements, fs) && TopCovered(elements, fs)
    requires Nests(out, elements, fs[..|fs| - 1], |fs| > 1)
    requires t.OpenTag? && t.name == NameOn(elements, fs)
    ensures Nests(out + [t], elements, if t.empty then fs[..|fs| - 1] else fs, true)
  {
    hide AllEntries, NameOn;
    TagsNext(out, t);
  }

  lemma {:induction false} EndTagNests(out: seq<Token>, elements: seq<Element>, fs: seq<Frame>)
    requires fs != [] && Nests(out, elements, fs, true)
    ensures Nests(out + [CloseTag(NameOn(elements, fs))], elements, fs[..|fs| - 1], true)
  {
    hide AllEntries, NameOn;
    assert Top(fs) in fs;
    TagsNext(out, CloseTag(NameOn(elements, fs)));
    var open := TagNames(elements, fs);
    assert open[..|open| - 1] == TagNames(elements, fs[..|fs| - 1]);
  }

  lemma {:induction false} TextNests(out: seq<Token>, elements: seq<Element>, fs: seq<Frame>, text: string)
    requires fs != [] && Nests(out, elements, fs, true)
    ensures Nests(out + [Characters(text)], elements, fs, true)
  {
    TagsNext(out, Characters(text));
  }

  lemma {:induction false} NestsKept(elements: seq<Element>, elements': seq<Element>, fs: seq<Frame>)
    requires elements <= elements' && InTable(elements, fs) && Covered(elements, fs)
    ensures InTable(elements', fs) && Covered(elements', fs) && TagNames(elements', fs) == TagNames(elements, fs)
  {
    if fs != [] {
      assert Top(fs) in fs;
      NestsKept(elements, elements', fs[..|fs| - 1]);
    }
  }

  // ------------------------------------------------------------------ pushing a declaration

  ghost predicate DefaultsKept(nss: seq<Namespace>, nss': seq<Namespace>) {
    |nss'| == |nss| && forall n :: 0 <= n < |nss| ==> nss'[n].defaultDecl == nss[n].defaultDecl
  }

  lemma {:induction false} PushedKeeps(nss: seq<Namespace>, n: nat, d: Prefix)
    requires n < |nss|
    ensures DefaultsKept(nss, Pushed(nss, n, d)) && Names(Pushed(nss, n, d)) == Names(nss)
    ensures |Names(nss)| == |nss| && UriOf(Names(nss), Entry(Some(n), d)) == nss[n].name == Pushed(nss, n, d)[n].name
    ensures |Pushed(nss, n, d)| == |nss|
  {
    NamesKept(nss, n, Pushed(nss, n, d)[n]);
  }

  /** The caller's own attributes on the chain, in order. */
  function UsersOf(pending: seq<Pending>): seq<Pending> {
    if pending == [] then [] else
    var rest := UsersOf(pending[..|pending| - 1]);
    if pending[|pending| - 1].UserAtt? then rest + [pending[|pending| - 1]] else rest
  }

  ghost predicate UsersKept(pending: seq<Pending>, pending': seq<Pending>) {
    && (forall a :: UserAtt(a) in pending' <==> UserAtt(a) in pending)
    && UsersOf(pending') == UsersOf(pending)
  }

  lemma {:induction false} ChainedKeeps(pending: seq<Pending>, p: Prefix)
    ensures UsersKept(pending, Chained(pending, DeclAtt(p)))
  {
    if DeclAtt(p) !in pending {
      var more := Chained(pending, DeclAtt(p));
      assert more[..|more| - 1] == pending;
    }
  }

  lemma {:induction false} MeantByUsers(names: seq<string>, attributes: seq<Attribute>, pending: seq<Pending>)
    ensures MeantAtts(names, attributes, pending) == MeantAtts(names, attributes, UsersOf(pending))
  {
    if pending != [] {
      var us := UsersOf(pending);
      MeantByUsers(names, attributes, pending[..|pending| - 1]);
      if pending[|pending| - 1].UserAtt? {
        assert us[..|us| - 1] == UsersOf(pending[..|pending| - 1]);
      }
    }
  }

  ghost predicate MoreCounted(es: seq<Entry>, more: seq<Entry>) {
    forall n: nat :: CountNs(more, n) >= CountNs(es, n)
  }

  lemma {:induction false} PushKeeps(elements: seq<Element>, fs: seq<Frame>, e: Entry)
    requires fs != [] && InTable(elements, fs)
    ensures var gs := WithEntry(fs, e);
            && InTable(elements, gs) && |gs| == |fs| && gs[..|gs| - 1] == fs[..|fs| - 1]
            && Top(gs) == Top(fs).(entries := Top(fs).entries + [e])
            && MoreCounted(AllEntries(fs), AllEntries(gs))
  {
    var gs := WithEntry(fs, e);
    forall f | f in gs
      ensures f.element < |elements|
    {
      assert f in fs || f == Top(gs);
      assert Top(fs) in fs;
    }
    FlatPush(fs, e);
    forall n: nat
      ensures CountNs(AllEntries(gs), n) >= CountNs(AllEntries(fs), n)
    {
      CountPush(AllEntries(fs), e, n);
    }
  }

  /** The default declaration of a namespace that was not declared anew: it is usable. */
  lemma {:induction false} AlreadyInForce(nss: seq<Namespace>, elements: seq<Element>, owner: map<Prefix, nat>, fs: seq<Frame>, n: nat)
    requires Resolving(nss, elements, owner, fs) && n < |nss|
    requires !nss[n].baroque && nss[n].declCount > 0
    ensures InForce(nss, AllEntries(fs), n)
  {
    assert NsOk(nss[n], n, AllEntries(fs));
  }

  /** So is one declared on this very tag. */
  lemma {:induction false} DeclaredHere(nss: seq<Namespace>, elements: seq<Element>, owner: map<Prefix, nat>, fs: seq<Frame>, n: nat)
    requires Resolving(nss, elements, owner, fs) && fs != [] && n < |nss| && HasNs(Top(fs).entries, n)
    ensures InForce(nss, AllEntries(fs), n)
  {
    var outer, own := AllEntries(fs[..|fs| - 1]), Top(fs).entries;
    assert Top(fs) in fs && FrameOk(Top(fs), elements);
    forall e | e in own
      ensures e in AllEntries(fs)
    {}
    OwnInnermost(owner, outer, own, n);
  }

  /** writeAttribute refuses an attribute of a baroque namespace that has become the default. */
  predicate Writable(nss: seq<Namespace>, attributes: seq<Attribute>, x: Pending) {
    x.UserAtt? && x.a < |attributes| && attributes[x.a].ns.Some? && attributes[x.a].ns.value < |nss| ==>
      !(nss[attributes[x.a].ns.value].baroque && nss[attributes[x.a].ns.value].declaration == Some(""))
  }

  /** The attribute cannot be written: its namespace is declared nowhere, or has been declared as the
      default without being baroque, which writeAttribute does not notice. */
  predicate Spoiling(nss: seq<Namespace>, n: nat) {
    n < |nss| &&
    if nss[n].declCount == (if n == 0 then 1 else 0) then !(n == 0 && nss[n].declaration == Some("xml"))
    else !nss[n].baroque && nss[n].declaration == Some("")
  }

  predicate SpoilingAtt(nss: seq<Namespace>, attributes: seq<Attribute>, x: Pending) {
    x.UserAtt? && x.a < |attributes| && attributes[x.a].ns.Some? && Spoiling(nss, attributes[x.a].ns.value)
  }

  predicate Spoils(nss: seq<Namespace>, attributes: seq<Attribute>, pending: seq<Pending>) {
    exists i :: 0 <= i < |pending| && SpoilingAtt(nss, attributes, pending[i])
  }

  /** Of the attributes that writeAttribute lets through just the spoiling ones are unusable. */
  lemma {:induction false} UsableExactly(nss: seq<Namespace>, attributes: seq<Attribute>, es: seq<Entry>, pending: seq<Pending>)
    requires StackOk(nss, es) && ChainKnown(nss, attributes, pending)
    requires forall i :: 0 <= i < |pending| ==> Writable(nss, attributes, pending[i])
    ensures AttsUsable(nss, attributes, es, pending) <==> !Spoils(nss, attributes, pending)
  {
    forall i | 0 <= i < |pending| && pending[i].UserAtt?
      ensures AttUsable(nss, attributes[pending[i].a], es) <==> !SpoilingAtt(nss, attributes, pending[i])
    {
      assert Writable(nss, attributes, pending[i]);
      if attributes[pending[i].a].ns.Some? {
        var n := attributes[pending[i].a].ns.value;
        assert NsOk(nss[n], n, es);
      }
    }
  }

  /** Which attributes are on the chain, in any order. */
  lemma SpoilsByUsers(nss: seq<Namespace>, attributes: seq<Attribute>, pending: seq<Pending>)
    ensures Spoils(nss, attributes, pending) <==> exists a: nat :: UserAtt(a) in pending && SpoilingAtt(nss, attributes, UserAtt(a))
  {
    if i :| 0 <= i < |pending| && SpoilingAtt(nss, attributes, pending[i]) {
      assert pending[i] == UserAtt(pending[i].a) && pending[i] in pending;
    }
    if a: nat :| UserAtt(a) in pending && SpoilingAtt(nss, attributes, UserAtt(a)) {
      var i :| 0 <= i < |pending| && pending[i] == UserAtt(a);
    }
  }

  /** Declaring the element's namespace, when the tag is written, decides nothing anew about attributes
      that are let through. */
  lemma {:induction false} PushSpoils(nss: seq<Namespace>, attributes: seq<Attribute>, es: seq<Entry>, pending: seq<Pending>, pending': seq<Pending>,
                                      n: nat, d: Prefix)
    requires StackOk(nss, es) && AttsDeclared(nss, attributes, es, pending) && n < |nss| && (nss[n].baroque || nss[n].declCount == 0)
    requires UsersKept(pending, pending')
    requires forall i :: 0 <= i < |pending'| ==> Writable(Pushed(nss, n, d), attributes, pending'[i])
    ensures Spoils(Pushed(nss, n, d), attributes, pending') <==> Spoils(nss, attributes, pending)
  {
    var nss' := Pushed(nss, n, d);
    SpoilsByUsers(nss, attributes, pending);
    SpoilsByUsers(nss', attributes, pending');
    forall a: nat | UserAtt(a) in pending
      ensures SpoilingAtt(nss', attributes, UserAtt(a)) <==> SpoilingAtt(nss, attributes, UserAtt(a))
    {
      var i :| 0 <= i < |pending'| && pending'[i] == UserAtt(a);
      assert Writable(nss', attributes, pending'[i]);
      assert NsOk(nss[n], n, es);
    }
  }

  /** Nor does making a namespace baroque. */
  lemma {:induction false} BaroqueSpoils(nss: seq<Namespace>, attributes: seq<Attribute>, pending: seq<Pending>, pending': seq<Pending>, n: nat)
    requires n < |nss| && UsersKept(pending, pending')
    requires forall i :: 0 <= i < |pending'| ==> Writable(MadeBaroque(nss, n), attributes, pending'[i])
    ensures Spoils(MadeBaroque(nss, n), attributes, pending') <==> Spoils(nss, attributes, pending)
  {
    var nss' := MadeBaroque(nss, n);
    SpoilsByUsers(nss, attributes, pending);
    SpoilsByUsers(nss', attributes, pending');
    forall a: nat | UserAtt(a) in pending
      ensures SpoilingAtt(nss', attributes, UserAtt(a)) <==> SpoilingAtt(nss, attributes, UserAtt(a))
    {
      var i :| 0 <= i < |pending'| && pending'[i] == UserAtt(a);
      assert Writable(nss', attributes, pending'[i]);
    }
  }

  lemma {:induction false} MeantKept(names: seq<string>, attributes: seq<Attribute>, pending: seq<Pending>, pending': seq<Pending>)
    requires UsersKept(pending, pending')
    ensures MeantAtts(names, attributes, pending') == MeantAtts(names, attributes, pending)
  {
    MeantByUsers(names, attributes, pending);
    MeantByUsers(names, attributes, pending');
  }

  /** Declaring more keeps the attributes' namespaces declared. */
  lemma {:induction false} DeclaredStill(attributes: seq<Attribute>, nss: seq<Namespace>, nss': seq<Namespace>, es: seq<Entry>, more: seq<Entry>,
                                         pending: seq<Pending>, pending': seq<Pending>)
    requires AttsDeclared(nss, attributes, es, pending) && MoreCounted(es, more) && UsersKept(pending, pending')
    requires |nss'| > 0 && |nss| > 0 && (CountNs(more, 0) > 0 || nss'[0].declaration == nss[0].declaration)
    ensures AttsDeclared(nss', attributes, more, pending')
  {
  }

  /** The prefix sent on an element's tags is the innermost declaration of its namespace. */
  lemma {:induction false} PrefixSent(nss: seq<Namespace>, elements: seq<Element>, fs: seq<Frame>)
    requires fs != [] && StackOk(nss, AllEntries(fs)) && Namespaced(Top(fs), elements)
    requires elements[Top(fs).element].ns.value < |nss| && Sendable(nss, AllEntries(fs), elements[Top(fs).element].ns.value)
    ensures nss[elements[Top(fs).element].ns.value].declaration == Some(NameOn(elements, fs).prefix)
  {
    DeclarationIsName(nss, AllEntries(fs), elements[Top(fs).element].ns.value);
  }

  lemma HasSendable(nss: seq<Namespace>, es: seq<Entry>, n: nat)
    requires HasNs(es, n)
    ensures Sendable(nss, es, n)
  {
    CountIsHas(es, n);
  }

  lemma CheapSendable(nss: seq<Namespace>, es: seq<Entry>, n: nat)
    requires StackOk(nss, es) && n < |nss| && !nss[n].baroque && nss[n].declCount > 0
    ensures Sendable(nss, es, n)
  {
    assert NsOk(nss[n], n, es);
  }

  lemma PushSendable(nss: seq<Namespace>, es: seq<Entry>, n: nat, d: Prefix)
    requires n < |nss|
    ensures Sendable(Pushed(nss, n, d), es + [Entry(Some(n), d)], n)
    ensures CountNs(es + [Entry(Some(n), d)], 0) > 0 || Pushed(nss, n, d)[0].declaration == nss[0].declaration
  {
    CountPush(es, Entry(Some(n), d), n);
  }

  /** The prefix of the end tag, for an open element whose start tag has been sent. */
  lemma EndPrefix(nss: seq<Namespace>, elements: seq<Element>, fs: seq<Frame>)
    requires fs != [] && StackOk(nss, AllEntries(fs)) && TopCovered(elements, fs) && Namespaced(Top(fs), elements)
    requires elements[Top(fs).element].ns.value < |nss|
    ensures var n := elements[Top(fs).element].ns.value;
            if n == 0 && nss[0].declCount == 1 && nss[0].declaration != Some("xml") then NameOn(elements, fs).prefix == "xml"
            else Sendable(nss, AllEntries(fs), n)
  {
    assert NsOk(nss[0], 0, AllEntries(fs));
    CountIsHas(AllEntries(fs), 0);
  }

  lemma SameSpoils(nss: seq<Namespace>, attributes: seq<Attribute>, pending: seq<Pending>, pending': seq<Pending>)
    requires UsersKept(pending, pending')
    ensures Spoils(nss, attributes, pending') <==> Spoils(nss, attributes, pending)
  {
    SpoilsByUsers(nss, attributes, pending);
    SpoilsByUsers(nss, attributes, pending');
  }

  /** After nothing, or an unsetting, is found for the default it is clear. */
  lemma {:induction false} UnsetClears(fs: seq<Frame>)
    requires fs != []
    ensures DefaultClear(AllEntries(WithEntry(fs, Entry(None, ""))))
  {
    FlatPush(fs, Entry(None, ""));
    DeclPush(AllEntries(fs), Entry(None, ""), "");
  }

  /** On an element in no namespace the default declared by another element is an outer one. */
  lemma {:induction false} OuterDefault(elements: seq<Element>, fs: seq<Frame>, n: nat)
    requires fs != [] && FrameOk(Top(fs), elements) && !Namespaced(Top(fs), elements)
    requires LastOfDecl(AllEntries(fs), "") == Some(Entry(Some(n), ""))
    ensures LastOfDecl(Top(fs).entries, "").None?
  {
    LastOfDeclConcat(AllEntries(fs[..|fs| - 1]), Top(fs).entries, "");
    LastOfDeclIn(Top(fs).entries, "");
  }

  /** The owner of the default in force. */
  lemma {:induction false} DefaultOwner(nss: seq<Namespace>, es: seq<Entry>)
    requires StackOk(nss, es) && LastOfDecl(es, "").Some? && LastOfDecl(es, "").value.ns.Some?
    ensures LastOfDecl(es, "").value.ns.value < |nss| && LastOfDecl(es, "").value.decl == ""
  {
    LastOfDeclIn(es, "");
  }

  // ------------------------------------------------------------------ growing tables

  /** Later declarations do not disturb what has been written. */
  lemma {:induction false} WrittenKept(names: seq<string>, names': seq<string>, elements: seq<Element>, elements': seq<Element>, fs: seq<Frame>)
    requires names <= names' && elements <= elements' && InTable(elements, fs)
    requires forall e :: e in AllEntries(fs) && e.ns.Some? ==> e.ns.value < |names|
    requires forall i :: 0 <= i < |elements| && elements[i].ns.Some? ==> elements[i].ns.value < |names|
    ensures InTable(elements', fs) && WrittenOpen(names', elements', fs) == WrittenOpen(names, elements, fs)
  {
    if fs != [] {
      assert Top(fs) in fs;
      var rest := fs[..|fs| - 1];
      forall e | e in AllEntries(rest)
        ensures e in AllEntries(fs)
      {}
      WrittenKept(names, names', elements, elements', rest);
      ScopeKept(names, names', AllEntries(fs));
    }
  }

  lemma {:induction false} ScopeKept(names: seq<string>, names': seq<string>, es: seq<Entry>)
    requires names <= names' && forall e :: e in es && e.ns.Some? ==> e.ns.value < |names|
    ensures ScopeAt(names', es) == ScopeAt(names, es)
  {
    if es != [] {
      assert es[|es| - 1] in es;
      ScopeKept(names, names', es[..|es| - 1]);
    }
  }
}
