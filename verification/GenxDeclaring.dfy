/** What declaring a namespace on the tag under way, or undeclaring the default, makes of the writer's
    table and stack (addNamespace and unsetDefaultNamespace in genx/genx.c), and which attributes can
    no longer be written after that. */
module GenxDeclaring {
  import opened Wrappers
  import opened GenxStack
  import opened GenxInvariants
  import opened GenxTags

  /** A declaration other than the default one makes the namespace baroque. */
  function Prepared(nss: seq<Namespace>, n: nat, d: Prefix): seq<Namespace>
    requires n < |nss|
  {
    if nss[n].defaultDecl == Some(d) then nss else MadeBaroque(nss, n)
  }

  /** Nothing needs doing: the namespace has its one declaration, or the pair is the innermost entry
      that has either of the two. */
  predicate Standing(nss: seq<Namespace>, es: seq<Entry>, n: nat, d: Prefix)
    requires n < |nss|
  {
    if nss[n].baroque then LastOfEither(es, n, d) == Some(Entry(Some(n), d)) else nss[n].declCount > 0
  }

  /** The declaration is made on the innermost element. */
  predicate Pushes(nss: seq<Namespace>, elements: seq<Element>, fs: seq<Frame>, n: nat, d: Prefix)
    requires n < |nss|
  {
    && fs != [] && !Standing(Prepared(nss, n, d), AllEntries(fs), n, d) && !HasNs(Top(fs).entries, n)
    && (d == "" ==> Namespaced(Top(fs), elements))
  }

  function DeclaredTable(nss: seq<Namespace>, elements: seq<Element>, fs: seq<Frame>, n: nat, d: Prefix): (r: seq<Namespace>)
    requires n < |nss|
    ensures |r| == |nss|
  {
    if Pushes(nss, elements, fs, n, d) then Pushed(Prepared(nss, n, d), n, d) else Prepared(nss, n, d)
  }

  function DeclaredFrames(nss: seq<Namespace>, elements: seq<Element>, fs: seq<Frame>, n: nat, d: Prefix): seq<Frame>
    requires n < |nss|
  {
    if Pushes(nss, elements, fs, n, d) then WithEntry(fs, Entry(Some(n), d)) else fs
  }

  function DeclaredChain(nss: seq<Namespace>, elements: seq<Element>, fs: seq<Frame>, n: nat, d: Prefix, pending: seq<Pending>): seq<Pending>
    requires n < |nss|
  {
    if Pushes(nss, elements, fs, n, d) then Chained(pending, DeclAtt(d)) else pending
  }

  /** The namespace whose declaration as the default is in force. */
  function DefaultNs(es: seq<Entry>): Option<nat> {
    if LastOfDecl(es, "").Some? then LastOfDecl(es, "").value.ns else None
  }

  /** Undeclaring the default makes its namespace baroque. */
  function UndeclaredTable(nss: seq<Namespace>, es: seq<Entry>): seq<Namespace> {
    match DefaultNs(es)
    case Some(m) => if m < |nss| then MadeBaroque(nss, m) else nss
    case None => nss
  }

  function UndeclaredFrames(fs: seq<Frame>): seq<Frame> {
    if fs != [] && DefaultNs(AllEntries(fs)).Some? then WithEntry(fs, Entry(None, "")) else fs
  }

  function UndeclaredChain(fs: seq<Frame>, pending: seq<Pending>): seq<Pending> {
    if fs != [] && DefaultNs(AllEntries(fs)).Some? then Chained(pending, DeclAtt("")) else pending
  }

  // ------------------------------------------------------------------ what a declaration comes to

  /** The namespace has this very declaration as its innermost; the pre-wired one has its own without
      an entry. */
  predicate InPlace(es: seq<Entry>, n: nat, d: Prefix) {
    LastOfNs(es, n) == Some(d) || (n == 0 && d == "xml" && CountNs(es, 0) == 0)
  }

  /** Without an error the pair is in place, and a new one is on the chain. */
  lemma {:induction false} DeclaredInPlace(nss: seq<Namespace>, elements: seq<Element>, fs: seq<Frame>, n: nat, d: Prefix, pending: seq<Pending>)
    requires StackOk(nss, AllEntries(fs)) && n < |nss|
    requires Standing(Prepared(nss, n, d), AllEntries(fs), n, d) || Pushes(nss, elements, fs, n, d)
    ensures InPlace(AllEntries(DeclaredFrames(nss, elements, fs, n, d)), n, d)
    ensures Pushes(nss, elements, fs, n, d) ==> DeclAtt(d) in DeclaredChain(nss, elements, fs, n, d, pending)
  {
    assert NsOk(nss[n], n, AllEntries(fs));
    if Pushes(nss, elements, fs, n, d) {
      FlatPush(fs, Entry(Some(n), d));
      CountPush(AllEntries(fs), Entry(Some(n), d), n);
    } else if Prepared(nss, n, d)[n].baroque {
      EitherIsBoth(AllEntries(fs), n, d);
    }
  }

  // ------------------------------------------------------------------ which attributes are refused

  /** The table that a start tag is written with: the element's own namespace has been declared by its
      default, or, for an element in none, the default has been undeclared. */
  function TableFor(nss: seq<Namespace>, elements: seq<Element>, fs: seq<Frame>, ns: Option<nat>): seq<Namespace> {
    match ns
    case Some(n) =>
      if n < |nss| && nss[n].defaultDecl.Some? then DeclaredTable(nss, elements, fs, n, nss[n].defaultDecl.value) else nss
    case None => UndeclaredTable(nss, AllEntries(fs))
  }

  /** Some attribute on the chain is in a baroque namespace declared as the default. */
  predicate Refuses(nss: seq<Namespace>, attributes: seq<Attribute>, pending: seq<Pending>) {
    exists i :: 0 <= i < |pending| && !Writable(nss, attributes, pending[i])
  }

  lemma {:induction false} SameRefused(nss: seq<Namespace>, attributes: seq<Attribute>, pending: seq<Pending>, pending': seq<Pending>)
    requires UsersKept(pending, pending')
    ensures Refuses(nss, attributes, pending) <==> Refuses(nss, attributes, pending')
  {
    hide UsersOf;
    if i :| 0 <= i < |pending| && !Writable(nss, attributes, pending[i]) {
      assert pending[i] in pending;
      assert UserAtt(pending[i].a) in pending';
      var j :| 0 <= j < |pending'| && pending'[j] == UserAtt(pending[i].a);
      assert !Writable(nss, attributes, pending'[j]);
    }
    if i :| 0 <= i < |pending'| && !Writable(nss, attributes, pending'[i]) {
      assert pending'[i] in pending';
      assert UserAtt(pending'[i].a) in pending;
      var j :| 0 <= j < |pending| && pending[j] == UserAtt(pending'[i].a);
      assert !Writable(nss, attributes, pending[j]);
    }
  }

  /** Attributes in no namespace are always written. */
  lemma {:induction false} PlainNeverRefused(nss: seq<Namespace>, attributes: seq<Attribute>, pending: seq<Pending>)
    requires forall a: nat :: UserAtt(a) in pending ==> a < |attributes| && attributes[a].ns.None?
    ensures !Refuses(nss, attributes, pending)
  {
    forall i | 0 <= i < |pending| && pending[i].UserAtt?
      ensures Writable(nss, attributes, pending[i])
    {
      assert pending[i] in pending;
      assert UserAtt(pending[i].a) in pending;
    }
  }

  /** An attribute's namespace is baroque with the default as its declaration, before the tag is begun
      and as far as the tag itself does not change that. */
  predicate Stuck(nss: seq<Namespace>, elements: seq<Element>, fs: seq<Frame>, ns: Option<nat>, m: nat) {
    m < |nss| &&
    if ns == Some(m) && nss[m].defaultDecl.Some? && Pushes(nss, elements, fs, m, nss[m].defaultDecl.value)
    then nss[m].baroque && nss[m].defaultDecl == Some("")
    else nss[m].declaration == Some("") && (nss[m].baroque || (ns.None? && DefaultNs(AllEntries(fs)) == Some(m)))
  }

  /** The refusal read off the table as it is before the tag: the element's own namespace counts as
      declared by its default, and the owner of a default to be undeclared as baroque. */
  lemma {:induction false} RefusedExactly(nss: seq<Namespace>, elements: seq<Element>, attributes: seq<Attribute>, fs: seq<Frame>, ns: Option<nat>,
                                          pending: seq<Pending>)
    ensures Refuses(TableFor(nss, elements, fs, ns), attributes, pending) <==>
            exists a: nat :: UserAtt(a) in pending && a < |attributes| && attributes[a].ns.Some?
              && Stuck(nss, elements, fs, ns, attributes[a].ns.value)
  {
    hide AllEntries, LastOfDecl, Pushes;
    var t := TableFor(nss, elements, fs, ns);
    assert |t| == |nss|;
    forall m: nat | m < |nss|
      ensures Stuck(nss, elements, fs, ns, m) <==> t[m].baroque && t[m].declaration == Some("")
    {}
    if i :| 0 <= i < |pending| && !Writable(t, attributes, pending[i]) {
      assert pending[i] in pending;
      assert UserAtt(pending[i].a) in pending;
    }
    if a: nat :| UserAtt(a) in pending && a < |attributes| && attributes[a].ns.Some? && Stuck(nss, elements, fs, ns, attributes[a].ns.value) {
      var i :| 0 <= i < |pending| && pending[i] == UserAtt(a);
      assert !Writable(t, attributes, pending[i]);
    }
  }
}
