/** What holds between the writer's namespaces and its stack (genx/genx.c) after every call, and
    what holds besides as long as prefixes are left to their defaults. */
module GenxInvariants {
  import opened Wrappers
  import opened GenxStack
  import opened NamespaceReader

  /** `declaration` is the one in force, `defaultDecl` the one that stands for no explicit prefix. */
  datatype Namespace = Namespace(name: string, declCount: nat, baroque: bool,
                                 declaration: Option<Prefix>, defaultDecl: Option<Prefix>)

  datatype Element = Element(ns: Option<nat>, name: string)

  datatype Attribute = Attribute(ns: Option<nat>, name: string, value: string)

  /** An attribute on the chain of the tag being written. */
  datatype Pending = DeclAtt(p: Prefix) | UserAtt(a: nat)

  // ------------------------------------------------------------------ the stack and the counts

  /** The pre-wired xml namespace, number 0, counts one declaration that is not on the stack. */
  ghost predicate NsOk(r: Namespace, n: nat, es: seq<Entry>) {
    && r.defaultDecl.Some?
    && r.declCount == CountNs(es, n) + (if n == 0 then 1 else 0)
    && (CountNs(es, n) > 0 ==> r.declaration == LastOfNs(es, n))
    && (!r.baroque ==> CountNs(es, n) <= if n == 0 then 0 else 1)
    && (!r.baroque && CountNs(es, n) > 0 ==> r.declaration == r.defaultDecl)
    && (!r.baroque && n == 0 ==> r.declaration == r.defaultDecl == Some("xml"))
  }

  ghost predicate StackOk(nss: seq<Namespace>, es: seq<Entry>) {
    && |nss| > 0
    && (forall e :: e in es && e.ns.Some? ==> e.ns.value < |nss|)
    && (forall e :: e in es && e.ns.None? ==> e.decl == "")
    && (forall n: nat :: n < |nss| ==> NsOk(nss[n], n, es))
  }

  function Pushed(nss: seq<Namespace>, n: nat, d: Prefix): seq<Namespace>
    requires n < |nss|
  {
    nss[n := nss[n].(declaration := Some(d), declCount := nss[n].declCount + 1)]
  }

  function MadeBaroque(nss: seq<Namespace>, n: nat): seq<Namespace>
    requires n < |nss|
  {
    nss[n := nss[n].(baroque := true)]
  }

  lemma {:induction false} BaroqueOk(nss: seq<Namespace>, es: seq<Entry>, n: nat)
    requires StackOk(nss, es) && n < |nss|
    ensures StackOk(MadeBaroque(nss, n), es)
  {
    forall m: nat | m < |nss|
      ensures NsOk(MadeBaroque(nss, n)[m], m, es)
    {
      assert NsOk(nss[m], m, es);
    }
  }

  lemma {:induction false} InMore(es: seq<Entry>, e: Entry)
    ensures forall x :: x in es + [e] <==> x in es || x == e
  {
  }

  /** Declaring: allowed for a baroque namespace, or one not yet declared with its default. */
  lemma {:induction false} PushOk(nss: seq<Namespace>, es: seq<Entry>, n: nat, d: Prefix)
    requires StackOk(nss, es) && n < |nss|
    requires nss[n].baroque || (nss[n].declCount == 0 && nss[n].defaultDecl == Some(d))
    ensures StackOk(Pushed(nss, n, d), es + [Entry(Some(n), d)])
  {
    var e := Entry(Some(n), d);
    var nss' := Pushed(nss, n, d);
    forall m: nat | m < |nss'|
      ensures NsOk(nss'[m], m, es + [e])
    {
      assert NsOk(nss[m], m, es);
      CountPush(es, e, m);
    }
    InMore(es, e);
  }

  lemma {:induction false} UnsetOk(nss: seq<Namespace>, es: seq<Entry>)
    requires StackOk(nss, es)
    ensures StackOk(nss, es + [Entry(None, "")])
  {
    forall m: nat | m < |nss|
      ensures NsOk(nss[m], m, es + [Entry(None, "")])
    {
      assert NsOk(nss[m], m, es);
      CountPush(es, Entry(None, ""), m);
    }
    InMore(es, Entry(None, ""));
  }

  /** What genxEndElement does for a declaration it pops; `es` is what remains. */
  function Popped(nss: seq<Namespace>, es: seq<Entry>, n: nat): seq<Namespace>
    requires n < |nss| && nss[n].declCount > 0
  {
    var r := nss[n];
    var d := if r.baroque && LastOfNs(es, n).Some? then LastOfNs(es, n) else r.declaration;
    nss[n := r.(declaration := d, declCount := r.declCount - 1, baroque := r.baroque && r.declCount != 1)]
  }

  lemma {:induction false} PopOk(nss: seq<Namespace>, es: seq<Entry>, e: Entry)
    requires StackOk(nss, es + [e])
    ensures e.ns.Some? ==> e.ns.value < |nss| && nss[e.ns.value].declCount > 0
    ensures StackOk(if e.ns.Some? then Popped(nss, es, e.ns.value) else nss, es)
  {
    InMore(es, e);
    if e.ns.Some? {
      assert e in es + [e];
      assert NsOk(nss[e.ns.value], e.ns.value, es + [e]);
      CountPush(es, e, e.ns.value);
    }
    var nss' := if e.ns.Some? then Popped(nss, es, e.ns.value) else nss;
    forall m: nat | m < |nss'|
      ensures NsOk(nss'[m], m, es)
    {
      assert NsOk(nss[m], m, es + [e]);
      CountPush(es, e, m);
      CountIsHas(es, m);
    }
  }

  lemma {:induction false} HasInTop(fs: seq<Frame>, n: nat)
    requires fs != [] && HasNs(Top(fs).entries, n)
    ensures HasNs(AllEntries(fs), n)
  {
    var k :| 0 <= k < |Top(fs).entries| && Top(fs).entries[k].ns == Some(n);
    assert AllEntries(fs)[|AllEntries(fs[..|fs| - 1])| + k] == Top(fs).entries[k];
  }

  // ------------------------------------------------------------------ names in force

  function Names(nss: seq<Namespace>): seq<string> {
    seq(|nss|, i requires 0 <= i < |nss| => nss[i].name)
  }

  lemma {:induction false} NamesKept(nss: seq<Namespace>, n: nat, r: Namespace)
    requires n < |nss| && r.name == nss[n].name
    ensures Names(nss[n := r]) == Names(nss) && |Names(nss)| == |nss| && Names(nss)[n] == r.name
  {
  }

  function UriOf(names: seq<string>, e: Entry): string {
    if e.ns.Some? && e.ns.value < |names| then names[e.ns.value] else ""
  }

  /** The scope the entries stand for. */
  function ScopeAt(names: seq<string>, es: seq<Entry>): Scope {
    if es == [] then BASE else
    ScopeAt(names, es[..|es| - 1])[es[|es| - 1].decl := UriOf(names, es[|es| - 1])]
  }

  lemma {:induction false} ScopeLookup(names: seq<string>, es: seq<Entry>, p: Prefix)
    ensures p in ScopeAt(names, es) <==> p == "xml" || LastOfDecl(es, p).Some?
    ensures LastOfDecl(es, p).Some? ==> ScopeAt(names, es)[p] == UriOf(names, LastOfDecl(es, p).value)
    ensures LastOfDecl(es, p).None? && p == "xml" ==> ScopeAt(names, es)[p] == XML_NAMESPACE
  {
    if es != [] { ScopeLookup(names, es[..|es| - 1], p); }
  }

  lemma {:induction false} LastOfDeclConcat(es: seq<Entry>, fs: seq<Entry>, p: Prefix)
    ensures LastOfDecl(es + fs, p) == if LastOfDecl(fs, p).Some? then LastOfDecl(fs, p) else LastOfDecl(es, p)
  {
    if fs == [] {
      assert es + fs == es;
    } else {
      var n := |fs| - 1;
      assert (es + fs)[..|es + fs| - 1] == es + fs[..n];
      LastOfDeclConcat(es, fs[..n], p);
    }
  }

  /** Prefixes are never shared between namespaces, and only the default can be unset. */
  ghost predicate Owned(nss: seq<Namespace>, owner: map<Prefix, nat>, es: seq<Entry>) {
    && (forall n: nat :: n < |nss| && nss[n].defaultDecl.Some? ==>
          nss[n].defaultDecl.value in owner && owner[nss[n].defaultDecl.value] == n)
    && (forall n: nat :: n < |nss| && nss[n].declaration.Some? ==>
          nss[n].declaration.value in owner && owner[nss[n].declaration.value] == n)
    && (forall e :: e in es && e.ns.Some? ==> e.decl in owner && owner[e.decl] == e.ns.value)
    && (forall e :: e in es && e.ns.None? ==> e.decl == "")
    && "xml" in owner && owner["xml"] == 0
  }

  /** A namespace that is not baroque has its declaration in force. */
  ghost predicate Unshadowed(nss: seq<Namespace>, es: seq<Entry>) {
    forall n: nat :: n < |nss| && !nss[n].baroque && CountNs(es, n) > 0 ==> Innermost(es, n)
  }

  /** The innermost declaration of `n` is also the innermost one of its prefix. */
  ghost predicate Innermost(es: seq<Entry>, n: nat) {
    LastOfNs(es, n).Some? && LastOfDecl(es, LastOfNs(es, n).value) == Some(Entry(Some(n), LastOfNs(es, n).value))
  }

  ghost predicate NamesOk(names: seq<string>) {
    && |names| > 0 && names[0] == XML_NAMESPACE
    && (forall i :: 0 <= i < |names| ==> names[i] != "")
  }

  /** One element's own declarations: a default is not undone on the tag that made it, and an
      element in no namespace has none. */
  ghost predicate FrameOk(f: Frame, elements: seq<Element>) {
    && f.element < |elements|
    && NoUndoneDefault(f.entries)
    && (elements[f.element].ns.None? ==> forall e :: e in f.entries && e.decl == "" ==> e.ns.None?)
  }

  predicate Namespaced(f: Frame, elements: seq<Element>) {
    f.element < |elements| && elements[f.element].ns.Some?
  }

  ghost predicate Resolving(nss: seq<Namespace>, elements: seq<Element>, owner: map<Prefix, nat>, fs: seq<Frame>) {
    var es := AllEntries(fs);
    && StackOk(nss, es) && Owned(nss, owner, es) && Unshadowed(nss, es) && NamesOk(Names(nss))
    && (forall f :: f in fs ==> FrameOk(f, elements))
  }

  /** The namespace is declared on an open element, or it is the pre-wired one with its own prefix. */
  ghost predicate Sendable(nss: seq<Namespace>, es: seq<Entry>, n: nat) {
    CountNs(es, n) > 0 || (n == 0 && |nss| > 0 && nss[0].declaration == Some("xml"))
  }

  /** Such a namespace resolves through its declaration, if that has a prefix. */
  lemma {:induction false} PrefixResolves(nss: seq<Namespace>, owner: map<Prefix, nat>, es: seq<Entry>, n: nat)
    requires StackOk(nss, es) && Owned(nss, owner, es) && NamesOk(Names(nss))
    requires n < |nss| && Sendable(nss, es, n)
    requires nss[n].declaration.Some? && nss[n].declaration.value != ""
    ensures var d := nss[n].declaration.value;
            d in ScopeAt(Names(nss), es) && ScopeAt(Names(nss), es)[d] == nss[n].name
  {
    var d := nss[n].declaration.value;
    assert NsOk(nss[n], n, es);
    ScopeLookup(Names(nss), es, d);
    LastOfDeclIn(es, d);
    if CountNs(es, n) > 0 { LastOfNsIn(es, n); }
  }

  /** An innermost declaration resolves, the default one included. */
  lemma {:induction false} InnermostResolves(nss: seq<Namespace>, es: seq<Entry>, n: nat)
    requires n < |nss| && Innermost(es, n)
    ensures var d := LastOfNs(es, n).value;
            d in ScopeAt(Names(nss), es) && ScopeAt(Names(nss), es)[d] == nss[n].name
  {
    ScopeLookup(Names(nss), es, LastOfNs(es, n).value);
  }

  // ------------------------------------------------------------------ keeping it up

  lemma {:induction false} FrameAdds(fs: seq<Frame>, e: Entry, elements: seq<Element>)
    requires fs != [] && forall f :: f in fs ==> FrameOk(f, elements)
    requires e.ns.None? ==> forall x :: x in Top(fs).entries && x.decl == "" ==> x.ns.None?
    requires e.ns.Some? && e.decl == "" ==> Namespaced(Top(fs), elements)
    ensures forall f :: f in WithEntry(fs, e) ==> FrameOk(f, elements)
  {
    var f, g := Top(fs), Top(WithEntry(fs, e));
    assert FrameOk(f, elements);
    InMore(f.entries, e);
    assert FrameOk(g, elements) by {
      forall i, j | 0 <= i < j < |g.entries|
        ensures !(g.entries[i].ns.Some? && g.entries[i].decl == "" && g.entries[j].ns.None?)
      {
        if j == |f.entries| { assert f.entries[i] in f.entries; }
      }
    }
    forall x | x in WithEntry(fs, e)
      ensures FrameOk(x, elements)
    {
      assert x in fs || x == g;
    }
  }

  lemma {:induction false} BaroqueResolving(nss: seq<Namespace>, elements: seq<Element>, owner: map<Prefix, nat>, fs: seq<Frame>, n: nat)
    requires Resolving(nss, elements, owner, fs) && n < |nss|
    ensures Resolving(MadeBaroque(nss, n), elements, owner, fs)
  {
    BaroqueOk(nss, AllEntries(fs), n);
    assert Names(MadeBaroque(nss, n)) == Names(nss);
  }

  lemma {:induction false} PushResolving(nss: seq<Namespace>, elements: seq<Element>, owner: map<Prefix, nat>, fs: seq<Frame>, n: nat, d: Prefix)
    requires Resolving(nss, elements, owner, fs) && fs != [] && n < |nss|
    requires nss[n].defaultDecl == Some(d) && (nss[n].baroque || nss[n].declCount == 0)
    requires d == "" ==> Namespaced(Top(fs), elements)
    ensures Resolving(Pushed(nss, n, d), elements, owner, WithEntry(fs, Entry(Some(n), d)))
    ensures Innermost(AllEntries(WithEntry(fs, Entry(Some(n), d))), n)
  {
    hide NsOk, FrameOk, Owned, Unshadowed, Innermost;
    var es, e := AllEntries(fs), Entry(Some(n), d);
    FlatPush(fs, e);
    PushOk(nss, es, n, d);
    FrameAdds(fs, e, elements);
    assert Names(Pushed(nss, n, d)) == Names(nss);
    PushUnshadowed(nss, owner, es, n, d);
    PushOwned(nss, owner, es, n, d);
  }

  lemma {:induction false} PushOwned(nss: seq<Namespace>, owner: map<Prefix, nat>, es: seq<Entry>, n: nat, d: Prefix)
    requires Owned(nss, owner, es) && n < |nss| && nss[n].defaultDecl == Some(d)
    ensures Owned(Pushed(nss, n, d), owner, es + [Entry(Some(n), d)])
  {
    InMore(es, Entry(Some(n), d));
  }

  lemma {:induction false} PushUnshadowed(nss: seq<Namespace>, owner: map<Prefix, nat>, es: seq<Entry>, n: nat, d: Prefix)
    requires Owned(nss, owner, es) && Unshadowed(nss, es) && n < |nss| && nss[n].defaultDecl == Some(d)
    ensures Unshadowed(Pushed(nss, n, d), es + [Entry(Some(n), d)])
    ensures Innermost(es + [Entry(Some(n), d)], n)
  {
    var nss', e := Pushed(nss, n, d), Entry(Some(n), d);
    CountPush(es, e, n);
    DeclPush(es, e, d);
    forall m: nat | m < |nss'| && !nss'[m].baroque && CountNs(es + [e], m) > 0
      ensures Innermost(es + [e], m)
    {
      CountPush(es, e, m);
      if m != n {
        LastOfNsIn(es, m);
        DeclPush(es, e, LastOfNs(es, m).value);
      }
    }
  }

  lemma {:induction false} UnsetResolving(nss: seq<Namespace>, elements: seq<Element>, owner: map<Prefix, nat>, fs: seq<Frame>, n: nat)
    requires Resolving(nss, elements, owner, fs) && fs != []
    requires LastOfDecl(AllEntries(fs), "") == Some(Entry(Some(n), "")) && n < |nss| && nss[n].baroque
    requires LastOfDecl(Top(fs).entries, "").None?
    ensures Resolving(nss, elements, owner, WithEntry(fs, Entry(None, "")))
  {
    var es, e := AllEntries(fs), Entry(None, "");
    LastOfDeclIn(Top(fs).entries, "");
    FlatPush(fs, e);
    UnsetOk(nss, es);
    FrameAdds(fs, e, elements);
    InMore(es, e);
    forall m: nat | m < |nss| && !nss[m].baroque && CountNs(es + [e], m) > 0
      ensures Innermost(es + [e], m)
    {
      CountPush(es, e, m);
      DeclPush(es, e, LastOfNs(es, m).value);
      assert Innermost(es, m);
    }
  }

  lemma {:induction false} PopUnshadowed(nss: seq<Namespace>, es: seq<Entry>, e: Entry)
    requires StackOk(nss, es + [e]) && Unshadowed(nss, es + [e])
    requires e.ns.Some? ==> e.ns.value < |nss| && nss[e.ns.value].declCount > 0
    requires StackOk(if e.ns.Some? then Popped(nss, es, e.ns.value) else nss, es)
    ensures Unshadowed(if e.ns.Some? then Popped(nss, es, e.ns.value) else nss, es)
  {
    var nss' := if e.ns.Some? then Popped(nss, es, e.ns.value) else nss;
    forall m: nat | m < |nss'| && !nss'[m].baroque && CountNs(es, m) > 0
      ensures Innermost(es, m)
    {
      assert NsOk(nss'[m], m, es) && NsOk(nss[m], m, es + [e]);
      CountPush(es, e, m);
      CountIsHas(es, m);
      assert !nss[m].baroque && Innermost(es + [e], m);
      DeclPush(es, e, LastOfNs(es + [e], m).value);
    }
  }

  lemma {:induction false} PopFrames(fs: seq<Frame>, elements: seq<Element>)
    requires fs != [] && Top(fs).entries != [] && forall f :: f in fs ==> FrameOk(f, elements)
    ensures forall f :: f in WithoutEntry(fs) ==> FrameOk(f, elements)
  {
    var gs := WithoutEntry(fs);
    assert FrameOk(Top(fs), elements) && Top(gs).entries <= Top(fs).entries;
    forall x | x in Top(gs).entries
      ensures x in Top(fs).entries
    {}
    assert FrameOk(Top(gs), elements);
    forall f | f in gs
      ensures FrameOk(f, elements)
    {
      assert f in fs || f == Top(gs);
    }
  }

  lemma {:induction false} PopOwned(nss: seq<Namespace>, owner: map<Prefix, nat>, es: seq<Entry>, e: Entry)
    requires Owned(nss, owner, es + [e])
    requires e.ns.Some? ==> e.ns.value < |nss| && nss[e.ns.value].declCount > 0
    ensures Owned(if e.ns.Some? then Popped(nss, es, e.ns.value) else nss, owner, es)
  {
    InMore(es, e);
    if e.ns.Some? && LastOfNs(es, e.ns.value).Some? { LastOfNsIn(es, e.ns.value); }
  }

  lemma {:induction false} PopResolving(nss: seq<Namespace>, elements: seq<Element>, owner: map<Prefix, nat>, fs: seq<Frame>)
    requires Resolving(nss, elements, owner, fs) && fs != [] && Top(fs).entries != []
    ensures var e := Top(fs).entries[|Top(fs).entries| - 1];
            var rest := AllEntries(WithoutEntry(fs));
            && (e.ns.Some? ==> e.ns.value < |nss| && nss[e.ns.value].declCount > 0)
            && Resolving(if e.ns.Some? then Popped(nss, rest, e.ns.value) else nss, elements, owner, WithoutEntry(fs))
  {
    hide NsOk, FrameOk, Unshadowed, LastOfNs, Owned;
    var e := Top(fs).entries[|Top(fs).entries| - 1];
    var es := AllEntries(WithoutEntry(fs));
    PopEntry(fs);
    PopOk(nss, es, e);
    PopUnshadowed(nss, es, e);
    PopOwned(nss, owner, es, e);
    PopFrames(fs, elements);
    var nss' := if e.ns.Some? then Popped(nss, es, e.ns.value) else nss;
    assert Names(nss') == Names(nss);
  }

  lemma {:induction false} OpenResolving(nss: seq<Namespace>, elements: seq<Element>, owner: map<Prefix, nat>, fs: seq<Frame>, element: nat)
    requires Resolving(nss, elements, owner, fs) && element < |elements|
    ensures Resolving(nss, elements, owner, fs + [Frame(element, [])])
  {
    FlatOpen(fs, element);
  }

  lemma {:induction false} CloseResolving(nss: seq<Namespace>, elements: seq<Element>, owner: map<Prefix, nat>, fs: seq<Frame>)
    requires Resolving(nss, elements, owner, fs) && fs != [] && Top(fs).entries == []
    ensures Resolving(nss, elements, owner, fs[..|fs| - 1])
  {
    PopFrame(fs);
  }

  // ------------------------------------------------------------------ the tag being written

  /** The xmlns attributes on the chain, with their values, are the element's own declarations. */
  ghost predicate PendingOk(names: seq<string>, own: seq<Entry>, pending: seq<Pending>, values: map<Prefix, string>) {
    && (forall p :: DeclAtt(p) in pending <==> LastOfDecl(own, p).Some?)
    && (forall p :: LastOfDecl(own, p).Some? ==> p in values && values[p] == UriOf(names, LastOfDecl(own, p).value))
    && (forall i, j :: 0 <= i < j < |pending| ==> pending[i] != pending[j])
  }

  /** addAttribute for an xmlns attribute: its value is replaced even when it is on the chain. */
  function Chained(pending: seq<Pending>, x: Pending): seq<Pending> {
    if x in pending then pending else pending + [x]
  }

  lemma {:induction false} PendingDeclares(names: seq<string>, own: seq<Entry>, pending: seq<Pending>, values: map<Prefix, string>, e: Entry)
    requires PendingOk(names, own, pending, values)
    ensures PendingOk(names, own + [e], Chained(pending, DeclAtt(e.decl)), values[e.decl := UriOf(names, e)])
  {
    hide LastOfDecl;
    forall p
      ensures LastOfDecl(own + [e], p) == if e.decl == p then Some(e) else LastOfDecl(own, p)
    {
      DeclPush(own, e, p);
    }
  }

  lemma {:induction false} PendingUser(names: seq<string>, own: seq<Entry>, pending: seq<Pending>, values: map<Prefix, string>, a: nat)
    requires PendingOk(names, own, pending, values) && UserAtt(a) !in pending
    ensures PendingOk(names, own, pending + [UserAtt(a)], values)
  {
  }

  /** Attributes in a namespace have that namespace declared. */
  ghost predicate AttsDeclared(nss: seq<Namespace>, attributes: seq<Attribute>, es: seq<Entry>, pending: seq<Pending>) {
    forall a: nat :: UserAtt(a) in pending ==>
      a < |attributes| && (attributes[a].ns.Some? ==> Sendable(nss, es, attributes[a].ns.value))
  }

  function DeclsOf(pending: seq<Pending>, values: map<Prefix, string>): seq<(string, string)> {
    if pending == [] then [] else
    var rest := DeclsOf(pending[..|pending| - 1], values);
    match pending[|pending| - 1]
    case DeclAtt(p) => rest + [(p, if p in values then values[p] else "")]
    case UserAtt(_) => rest
  }

  lemma {:induction false} DeclsOfMembers(pending: seq<Pending>, values: map<Prefix, string>)
    ensures forall p, v :: (p, v) in DeclsOf(pending, values) <==> DeclAtt(p) in pending && v == if p in values then values[p] else ""
  {
    if pending != [] {
      var n := |pending| - 1;
      DeclsOfMembers(pending[..n], values);
      assert pending == pending[..n] + [pending[n]];
    }
  }

  lemma {:induction false} DeclsOfDistinct(pending: seq<Pending>, values: map<Prefix, string>)
    requires forall i, j :: 0 <= i < j < |pending| ==> pending[i] != pending[j]
    ensures DistinctPrefixes(DeclsOf(pending, values))
  {
    if pending != [] {
      var n := |pending| - 1;
      DeclsOfDistinct(pending[..n], values);
      DeclsOfMembers(pending[..n], values);
      var rest := DeclsOf(pending[..n], values);
      forall i | 0 <= i < |rest|
        ensures DeclAtt(rest[i].0) != pending[n]
      {
        assert (rest[i].0, rest[i].1) in rest;
        assert DeclAtt(rest[i].0) in pending[..n];
        var j :| 0 <= j < n && pending[..n][j] == DeclAtt(rest[i].0);
        assert pending[j] != pending[n];
      }
      if pending[n].DeclAtt? {
        DistinctMore(rest, (pending[n].p, if pending[n].p in values then values[pending[n].p] else ""));
      }
    }
  }

  lemma {:induction false} DistinctMore(ds: seq<(string, string)>, d: (string, string))
    requires DistinctPrefixes(ds) && forall i :: 0 <= i < |ds| ==> ds[i].0 != d.0
    ensures DistinctPrefixes(ds + [d])
  {
  }

  /** Reading the tag's declarations in the outer scope gives the scope of all entries. */
  lemma {:induction false} TagScope(names: seq<string>, outer: seq<Entry>, own: seq<Entry>, pending: seq<Pending>, values: map<Prefix, string>)
    requires PendingOk(names, own, pending, values) && NamesOk(names)
    requires forall e :: e in own ==> (e.ns.Some? ==> e.ns.value < |names|) && (e.ns.None? ==> e.decl == "")
    ensures ProperDecls(DeclsOf(pending, values))
    ensures Bind(ScopeAt(names, outer), DeclsOf(pending, values)) == ScopeAt(names, outer + own)
  {
    var ds := DeclsOf(pending, values);
    DeclsOfDistinct(pending, values);
    DeclsOfMembers(pending, values);
    forall i | 0 <= i < |ds| && ds[i].0 != ""
      ensures ds[i].1 != ""
    {
      assert (ds[i].0, ds[i].1) in ds;
      LastOfDeclIn(own, ds[i].0);
    }
    forall p
      ensures p in Bind(ScopeAt(names, outer), ds) <==> p in ScopeAt(names, outer + own)
      ensures p in ScopeAt(names, outer + own) ==> Bind(ScopeAt(names, outer), ds)[p] == ScopeAt(names, outer + own)[p]
    {
      TagScopeAt(names, outer, own, pending, values, p);
    }
  }

  lemma {:induction false} TagScopeAt(names: seq<string>, outer: seq<Entry>, own: seq<Entry>, pending: seq<Pending>, values: map<Prefix, string>, p: Prefix)
    requires PendingOk(names, own, pending, values) && ProperDecls(DeclsOf(pending, values))
    ensures var ds := DeclsOf(pending, values);
            && (p in Bind(ScopeAt(names, outer), ds) <==> p in ScopeAt(names, outer + own))
            && (p in ScopeAt(names, outer + own) ==> Bind(ScopeAt(names, outer), ds)[p] == ScopeAt(names, outer + own)[p])
  {
    var ds := DeclsOf(pending, values);
    BindAt(ScopeAt(names, outer), ds, p);
    DeclsOfMembers(pending, values);
    LastOfDeclConcat(outer, own, p);
    ScopeLookup(names, outer, p);
    ScopeLookup(names, outer + own, p);
    if LastOfDecl(own, p).Some? {
      assert DeclAtt(p) in pending && (p, values[p]) in ds;
      var i :| 0 <= i < |ds| && ds[i] == (p, values[p]);
    } else {
      forall i | 0 <= i < |ds|
        ensures ds[i].0 != p
      {
        assert (ds[i].0, ds[i].1) in ds;
      }
    }
  }

  // ------------------------------------------------------------------ what is in force already

  /** A declaration with a prefix is never shadowed. */
  lemma {:induction false} ByOwner(nss: seq<Namespace>, owner: map<Prefix, nat>, es: seq<Entry>, n: nat)
    requires Owned(nss, owner, es) && LastOfNs(es, n).Some? && LastOfNs(es, n).value != ""
    ensures Innermost(es, n)
  {
    LastOfNsIn(es, n);
    LastOfDeclIn(es, LastOfNs(es, n).value);
  }

  predicate NoUndoneDefault(own: seq<Entry>) {
    forall i, j :: 0 <= i < j < |own| ==> !(own[i].ns.Some? && own[i].decl == "" && own[j].ns.None?)
  }

  /** Neither is one made on the tag being written. */
  lemma {:induction false} OwnInnermost(owner: map<Prefix, nat>, outer: seq<Entry>, own: seq<Entry>, n: nat)
    requires HasNs(own, n) && NoUndoneDefault(own)
    requires forall e :: e in own && e.ns.Some? ==> e.decl in owner && owner[e.decl] == e.ns.value
    requires forall e :: e in own && e.ns.None? ==> e.decl == ""
    ensures Innermost(outer + own, n)
    ensures LastOfNs(outer + own, n).Some? && Entry(Some(n), LastOfNs(outer + own, n).value) in own
    decreases |own|
  {
    var k := |own| - 1;
    var e := own[k];
    assert (outer + own)[..|outer + own| - 1] == outer + own[..k];
    assert e in own;
    if e.ns != Some(n) {
      var i :| 0 <= i < |own| && own[i].ns == Some(n);
      assert own[..k][i].ns == Some(n);
      OwnInnermost(owner, outer, own[..k], n);
      var d := LastOfNs(outer + own[..k], n).value;
      var j :| 0 <= j < k && own[..k][j] == Entry(Some(n), d);
      assert own[j] == Entry(Some(n), d) && own[j] in own;
    }
  }
}
