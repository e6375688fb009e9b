/** What the writer's declarations, which may come at any time, leave as it was. */
module GenxGrowth {
  import opened Wrappers
  import opened GenxStack
  import opened NamespaceReader
  import opened GenxInvariants
  import opened GenxTags

  lemma {:induction false} NoneBeyond(es: seq<Entry>, n: nat)
    requires forall e :: e in es && e.ns.Some? ==> e.ns.value < n
    ensures CountNs(es, n) == 0
  {
    CountIsHas(es, n);
  }

  lemma {:induction false} GrowOk(nss: seq<Namespace>, es: seq<Entry>, r: Namespace)
    requires StackOk(nss, es) && r.declCount == 0 && !r.baroque && r.defaultDecl.Some?
    ensures StackOk(nss + [r], es)
  {
    NoneBeyond(es, |nss|);
    forall m: nat | m < |nss| + 1
      ensures NsOk((nss + [r])[m], m, es)
    {
      if m < |nss| { assert NsOk(nss[m], m, es); }
    }
  }

  function Redefaulted(nss: seq<Namespace>, n: nat, d: Prefix): seq<Namespace>
    requires n < |nss|
  {
    nss[n := nss[n].(defaultDecl := Some(d), baroque := true)]
  }

  lemma {:induction false} RedefaultOk(nss: seq<Namespace>, es: seq<Entry>, n: nat, d: Prefix)
    requires StackOk(nss, es) && n < |nss|
    ensures StackOk(Redefaulted(nss, n, d), es) && Names(Redefaulted(nss, n, d)) == Names(nss)
  {
    forall m: nat | m < |nss|
      ensures NsOk(Redefaulted(nss, n, d)[m], m, es)
    {
      assert NsOk(nss[m], m, es);
    }
  }

  lemma {:induction false} NamesGrow(nss: seq<Namespace>, r: Namespace)
    ensures Names(nss + [r]) == Names(nss) + [r.name] && Names(nss) <= Names(nss + [r])
  {
  }

  lemma {:induction false} GrowResolving(nss: seq<Namespace>, elements: seq<Element>, owner: map<Prefix, nat>, fs: seq<Frame>, r: Namespace, d: Prefix)
    requires Resolving(nss, elements, owner, fs) && d !in owner
    requires r.declCount == 0 && !r.baroque && r.declaration.None? && r.defaultDecl == Some(d) && r.name != ""
    ensures Resolving(nss + [r], elements, owner[d := |nss|], fs)
  {
    hide NsOk, FrameOk, Innermost;
    GrowOk(nss, AllEntries(fs), r);
    NamesGrow(nss, r);
    NoneBeyond(AllEntries(fs), |nss|);
  }

  lemma {:induction false} RedefaultResolving(nss: seq<Namespace>, elements: seq<Element>, owner: map<Prefix, nat>, fs: seq<Frame>, n: nat, d: Prefix)
    requires Resolving(nss, elements, owner, fs) && d !in owner && n < |nss|
    ensures Resolving(Redefaulted(nss, n, d), elements, owner[d := n], fs)
  {
    hide NsOk, FrameOk, Innermost;
    RedefaultOk(nss, AllEntries(fs), n, d);
  }

  lemma {:induction false} ElementsGrow(nss: seq<Namespace>, elements: seq<Element>, owner: map<Prefix, nat>, fs: seq<Frame>, e: Element)
    requires Resolving(nss, elements, owner, fs)
    ensures Resolving(nss, elements + [e], owner, fs)
  {
    hide StackOk, Owned, Unshadowed, NamesOk, AllEntries;
    forall f | f in fs
      ensures FrameOk(f, elements + [e])
    {
      assert FrameOk(f, elements);
    }
  }

  lemma {:induction false} PendingKept(names: seq<string>, names': seq<string>, own: seq<Entry>, pending: seq<Pending>, values: map<Prefix, string>)
    requires PendingOk(names, own, pending, values) && names <= names'
    requires forall e :: e in own && e.ns.Some? ==> e.ns.value < |names|
    ensures PendingOk(names', own, pending, values)
  {
    forall p | LastOfDecl(own, p).Some?
      ensures p in values && values[p] == UriOf(names', LastOfDecl(own, p).value)
    {
      LastOfDeclIn(own, p);
    }
  }

  lemma {:induction false} ReadsKept(out: seq<Token>, names: seq<string>, names': seq<string>, elements: seq<Element>, elements': seq<Element>,
                                     fs: seq<Frame>, rootSeen: bool, said: seq<Event>)
    requires Reads(out, names, elements, fs, rootSeen, said) && names <= names' && elements <= elements'
    requires forall e :: e in AllEntries(fs) && e.ns.Some? ==> e.ns.value < |names|
    requires forall i :: 0 <= i < |elements| && elements[i].ns.Some? ==> elements[i].ns.value < |names|
    ensures Reads(out, names', elements', fs, rootSeen, said)
  {
    WrittenKept(names, names', elements, elements', fs);
  }

  lemma {:induction false} OuterEntries(fs: seq<Frame>, bound: nat)
    requires fs != [] && forall e :: e in AllEntries(fs) && e.ns.Some? ==> e.ns.value < bound
    ensures forall e :: e in AllEntries(fs[..|fs| - 1]) && e.ns.Some? ==> e.ns.value < bound
    ensures forall e :: e in Top(fs).entries && e.ns.Some? ==> e.ns.value < bound
  {
    forall e | e in AllEntries(fs[..|fs| - 1])
      ensures e in AllEntries(fs)
    {}
    forall e | e in Top(fs).entries
      ensures e in AllEntries(fs)
    {}
  }

  lemma {:induction false} FreshFrame(names: seq<string>, elements: seq<Element>, fs: seq<Frame>, e: nat, values: map<Prefix, string>)
    requires InTable(elements, fs) && e < |elements|
    ensures var gs := fs + [Frame(e, [])];
            && InTable(elements, gs) && gs != [] && gs[..|gs| - 1] == fs && Top(gs) == Frame(e, [])
            && PendingOk(names, [], [], values)
            && AllEntries(gs) == AllEntries(fs) && Flatten(gs) == Flatten(fs) + [ElementPtr(e)] + [Null]
  {
    FlatOpen(fs, e);
  }

  // ------------------------------------------------------------------ taking declarations off

  lemma StackSome(nss: seq<Namespace>, es: seq<Entry>)
    requires StackOk(nss, es)
    ensures |nss| > 0
  {
  }

  /** Ending the innermost element, one declaration at a time. */
  lemma {:induction false} PopStep(nss: seq<Namespace>, fs: seq<Frame>)
    requires fs != [] && Top(fs).entries != [] && StackOk(nss, AllEntries(fs))
    ensures var e := Top(fs).entries[|Top(fs).entries| - 1];
            var rest := AllEntries(WithoutEntry(fs));
            && (e.ns.Some? ==> e.ns.value < |nss| && nss[e.ns.value].declCount > 0)
            && var nss' := if e.ns.Some? then Popped(nss, rest, e.ns.value) else nss;
               && StackOk(nss', rest) && Names(nss') == Names(nss) && DefaultsKept(nss, nss')
    ensures WithoutEntry(fs) != [] && WithoutEntry(fs)[..|fs| - 1] == fs[..|fs| - 1] && |WithoutEntry(fs)| == |fs|
  {
    hide NsOk, StackOk, AllEntries, LastOfNs, CountNs;
    PopEntry(fs);
    assert |nss| > 0 by { StackSome(nss, AllEntries(fs)); }
    PopOk(nss, AllEntries(WithoutEntry(fs)), Top(fs).entries[|Top(fs).entries| - 1]);
  }

  lemma {:induction false} CloseOk(nss: seq<Namespace>, fs: seq<Frame>)
    requires fs != [] && Top(fs).entries == [] && StackOk(nss, AllEntries(fs))
    ensures StackOk(nss, AllEntries(fs[..|fs| - 1]))
  {
    PopFrame(fs);
  }

  // ------------------------------------------------------------------ attributes

  lemma SelfKept(fs: seq<Frame>, pending: seq<Pending>, nss: seq<Namespace>)
    ensures UsersKept(pending, pending) && MoreCounted(AllEntries(fs), AllEntries(fs)) && DefaultsKept(nss, nss)
  {
  }

  lemma OuterInTable(elements: seq<Element>, fs: seq<Frame>)
    requires fs != [] && InTable(elements, fs)
    ensures InTable(elements, fs[..|fs| - 1])
  {
  }

  lemma FlattenNone(fs: seq<Frame>)
    ensures Flatten(fs) == [] <==> fs == []
  {
    if fs != [] { FlatTop(fs); }
  }

  /** Attributes on the chain are in the table. */
  ghost predicate ChainInTable(attributes: seq<Attribute>, pending: seq<Pending>) {
    forall a: nat :: UserAtt(a) in pending ==> a < |attributes|
  }

  lemma {:induction false} EntriesBound(nss: seq<Namespace>, fs: seq<Frame>)
    requires StackOk(nss, AllEntries(fs))
    ensures forall e :: e in AllEntries(fs) && e.ns.Some? ==> e.ns.value < |nss|
  {
  }

  lemma HasDefault(nss: seq<Namespace>, es: seq<Entry>, n: nat)
    requires StackOk(nss, es) && n < |nss|
    ensures nss[n].defaultDecl.Some?
  {
    assert NsOk(nss[n], n, es);
  }

  /** A namespace in force is declared, so an attribute in it may join the chain. */
  lemma {:induction false} AttDeclared(attributes: seq<Attribute>, nss: seq<Namespace>, es: seq<Entry>, pending: seq<Pending>, a: nat)
    requires AttsDeclared(nss, attributes, es, pending) && a < |attributes|
    requires attributes[a].ns.Some? ==> InForce(nss, es, attributes[a].ns.value)
    ensures AttsDeclared(nss, attributes, es, pending + [UserAtt(a)])
  {
    if attributes[a].ns.Some? { CountIsHas(es, attributes[a].ns.value); }
  }

  lemma {:induction false} MeantMore(names: seq<string>, attributes: seq<Attribute>, pending: seq<Pending>, a: nat)
    requires a < |attributes|
    ensures MeantAtts(names, attributes, pending + [UserAtt(a)])
         == MeantAtts(names, attributes, pending) + [(ExpandedOf(names, attributes[a].ns, attributes[a].name), attributes[a].value)]
  {
    var more := pending + [UserAtt(a)];
    assert more[..|more| - 1] == pending;
  }

  /** The value of an attribute that is not on the chain does not matter yet. */
  lemma {:induction false} ValueOffChain(names: seq<string>, attributes: seq<Attribute>, pending: seq<Pending>, a: nat, value: string)
    requires a < |attributes| && UserAtt(a) !in pending
    ensures MeantAtts(names, attributes[a := attributes[a].(value := value)], pending) == MeantAtts(names, attributes, pending)
  {
    if pending != [] {
      ValueOffChain(names, attributes, pending[..|pending| - 1], a, value);
    }
  }

  lemma {:induction false} MeantAppended(names: seq<string>, attributes: seq<Attribute>, x: Attribute, pending: seq<Pending>)
    requires ChainInTable(attributes, pending)
    ensures MeantAtts(names, attributes + [x], pending) == MeantAtts(names, attributes, pending)
  {
    hide ExpandedOf;
    if pending != [] {
      var n := |pending| - 1;
      MeantAppended(names, attributes, x, pending[..n]);
      assert pending[n] in pending;
    }
  }

  lemma DeclaredAppended(nss: seq<Namespace>, attributes: seq<Attribute>, x: Attribute, es: seq<Entry>, pending: seq<Pending>)
    ensures AttsDeclared(nss, attributes, es, pending) ==> AttsDeclared(nss, attributes + [x], es, pending)
  {
    hide Sendable;
  }
}
