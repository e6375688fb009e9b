/** The writer's one flat pointer stack (genx/genx.c): per open element a pointer to it, a null,
    then a (namespace, declaration) pair for each declaration made on it. */
module GenxStack {
  import opened Wrappers

  /** The prefix an xmlns attribute declares; the empty one stands for `xmlnsEquals`. */
  type Prefix = string

  datatype Ptr = Null | ElementPtr(e: nat) | NsPtr(ns: nat) | DeclPtr(p: Prefix)

  /** A declaration in force; no namespace means that the default was unset. */
  datatype Entry = Entry(ns: Option<nat>, decl: Prefix)

  datatype Frame = Frame(element: nat, entries: seq<Entry>)

  function NsOf(e: Entry): Ptr {
    if e.ns.None? then Null else NsPtr(e.ns.value)
  }

  function FlatEntries(es: seq<Entry>): seq<Ptr> {
    if es == [] then [] else
    var e := es[|es| - 1];
    FlatEntries(es[..|es| - 1]) + [NsOf(e), DeclPtr(e.decl)]
  }

  function FlatFrame(f: Frame): seq<Ptr> {
    [ElementPtr(f.element), Null] + FlatEntries(f.entries)
  }

  function Flatten(fs: seq<Frame>): seq<Ptr> {
    if fs == [] then [] else Flatten(fs[..|fs| - 1]) + FlatFrame(fs[|fs| - 1])
  }

  /** All declarations in force, the innermost last. */
  function AllEntries(fs: seq<Frame>): seq<Entry> {
    if fs == [] then [] else AllEntries(fs[..|fs| - 1]) + fs[|fs| - 1].entries
  }

  function Top(fs: seq<Frame>): Frame
    requires fs != []
  {
    fs[|fs| - 1]
  }

  /** The frames without the innermost declaration of the top frame. */
  function WithoutEntry(fs: seq<Frame>): seq<Frame>
    requires fs != [] && Top(fs).entries != []
  {
    var f := Top(fs);
    fs[..|fs| - 1] + [f.(entries := f.entries[..|f.entries| - 1])]
  }

  function WithEntry(fs: seq<Frame>, e: Entry): seq<Frame>
    requires fs != []
  {
    var f := Top(fs);
    fs[..|fs| - 1] + [f.(entries := f.entries + [e])]
  }

  lemma FlatEntriesLength(es: seq<Entry>)
    ensures |FlatEntries(es)| == 2 * |es|
  {
  }

  /** What the topmost slots of the flat stack are. */
  lemma {:induction false} FlatTop(fs: seq<Frame>)
    requires fs != []
    ensures var st := Flatten(fs);
            var f := Top(fs);
            |st| >= 2 &&
            if f.entries == [] then
              st[|st| - 1] == Null && st[|st| - 2] == ElementPtr(f.element)
              && st[..|st| - 2] == Flatten(fs[..|fs| - 1])
            else
              var e := f.entries[|f.entries| - 1];
              |st| >= 4 && st[|st| - 1] == DeclPtr(e.decl) && st[|st| - 2] == NsOf(e)
              && st[..|st| - 2] == Flatten(WithoutEntry(fs))
  {
    var st := Flatten(fs);
    var f := Top(fs);
    FlatEntriesLength(f.entries);
    if f.entries != [] {
      var g := WithoutEntry(fs);
      assert g[..|g| - 1] == fs[..|fs| - 1];
    }
  }

  lemma {:induction false} FlatPush(fs: seq<Frame>, e: Entry)
    requires fs != []
    ensures Flatten(WithEntry(fs, e)) == Flatten(fs) + [NsOf(e), DeclPtr(e.decl)]
    ensures AllEntries(WithEntry(fs, e)) == AllEntries(fs) + [e]
  {
    var g := WithEntry(fs, e);
    assert g[..|g| - 1] == fs[..|fs| - 1];
    assert Top(g).entries[..|Top(g).entries| - 1] == Top(fs).entries;
  }

  lemma {:induction false} FlatOpen(fs: seq<Frame>, element: nat)
    ensures Flatten(fs + [Frame(element, [])]) == Flatten(fs) + [ElementPtr(element), Null]
    ensures AllEntries(fs + [Frame(element, [])]) == AllEntries(fs)
  {
    var g := fs + [Frame(element, [])];
    assert g[..|g| - 1] == fs;
  }

  lemma {:induction false} Rebuilt(fs: seq<Frame>)
    requires fs != [] && Top(fs).entries != []
    ensures fs == WithEntry(WithoutEntry(fs), Top(fs).entries[|Top(fs).entries| - 1])
  {
    var f := Top(fs);
    assert f.entries == f.entries[..|f.entries| - 1] + [f.entries[|f.entries| - 1]];
    assert fs == fs[..|fs| - 1] + [f];
  }

  lemma {:induction false} PopEntry(fs: seq<Frame>)
    requires fs != [] && Top(fs).entries != []
    ensures AllEntries(fs) == AllEntries(WithoutEntry(fs)) + [Top(fs).entries[|Top(fs).entries| - 1]]
  {
    Rebuilt(fs);
    FlatPush(WithoutEntry(fs), Top(fs).entries[|Top(fs).entries| - 1]);
  }

  lemma {:induction false} PopFrame(fs: seq<Frame>)
    requires fs != [] && Top(fs).entries == []
    ensures AllEntries(fs) == AllEntries(fs[..|fs| - 1])
  {
  }

  /** Is there a pair at `i`, or the null above an element? */
  lemma {:induction false} TopAt(stack: seq<Ptr>, i: int, fs: seq<Frame>)
    requires -1 <= i < |stack| && stack[..i + 1] == Flatten(fs)
    ensures i > 0 <==> fs != []
    ensures fs != [] ==> i >= 1 && (stack[i] == Null <==> Top(fs).entries == [])
    ensures fs != [] && Top(fs).entries == [] ==>
      stack[..i - 1] == Flatten(fs[..|fs| - 1]) && AllEntries(fs) == AllEntries(fs[..|fs| - 1])
      && stack[i - 1] == ElementPtr(Top(fs).element)
  {
    if fs != [] {
      FlatTop(fs);
      assert stack[i] == Flatten(fs)[i] && stack[i - 1] == Flatten(fs)[i - 1];
      assert stack[..i - 1] == stack[..i + 1][..i - 1];
      if Top(fs).entries == [] { PopFrame(fs); }
    }
  }

  /** The flat stack parses in one way only. */
  lemma {:induction false} FlattenInjective(fs: seq<Frame>, gs: seq<Frame>)
    requires Flatten(fs) == Flatten(gs)
    ensures fs == gs
    decreases |Flatten(fs)|
  {
    hide AllEntries;
    if fs == [] {
      if gs != [] { FlatTop(gs); }
    } else if gs == [] {
      FlatTop(fs);
    } else {
      FlatTop(fs);
      FlatTop(gs);
      if Top(fs).entries == [] {
        FlattenInjective(fs[..|fs| - 1], gs[..|gs| - 1]);
        assert Top(gs).entries == [];
        assert fs == fs[..|fs| - 1] + [Top(fs)] && gs == gs[..|gs| - 1] + [Top(gs)];
      } else {
        var d, e := Top(fs).entries[|Top(fs).entries| - 1], Top(gs).entries[|Top(gs).entries| - 1];
        assert d == e;
        FlattenInjective(WithoutEntry(fs), WithoutEntry(gs));
        Rebuilt(fs);
        Rebuilt(gs);
      }
    }
  }

  // ---------------------------------------------------------- questions about the entries

  function CountNs(es: seq<Entry>, ns: nat): nat {
    if es == [] then 0 else
    CountNs(es[..|es| - 1], ns) + (if es[|es| - 1].ns == Some(ns) then 1 else 0)
  }

  /** The innermost declaration of a namespace. */
  function LastOfNs(es: seq<Entry>, ns: nat): Option<Prefix> {
    if es == [] then None
    else if es[|es| - 1].ns == Some(ns) then Some(es[|es| - 1].decl)
    else LastOfNs(es[..|es| - 1], ns)
  }

  /** The innermost declaration of a prefix. */
  function LastOfDecl(es: seq<Entry>, p: Prefix): Option<Entry> {
    if es == [] then None
    else if es[|es| - 1].decl == p then Some(es[|es| - 1])
    else LastOfDecl(es[..|es| - 1], p)
  }

  /** The innermost entry of this namespace or of this prefix. */
  function LastOfEither(es: seq<Entry>, ns: nat, p: Prefix): Option<Entry> {
    if es == [] then None
    else if es[|es| - 1].ns == Some(ns) || es[|es| - 1].decl == p then Some(es[|es| - 1])
    else LastOfEither(es[..|es| - 1], ns, p)
  }

  predicate HasNs(es: seq<Entry>, ns: nat) {
    exists k :: 0 <= k < |es| && es[k].ns == Some(ns)
  }

  lemma {:induction false} CountPush(es: seq<Entry>, e: Entry, ns: nat)
    ensures CountNs(es + [e], ns) == CountNs(es, ns) + (if e.ns == Some(ns) then 1 else 0)
    ensures LastOfNs(es + [e], ns) == if e.ns == Some(ns) then Some(e.decl) else LastOfNs(es, ns)
  {
    assert (es + [e])[..|es|] == es;
  }

  lemma {:induction false} DeclPush(es: seq<Entry>, e: Entry, p: Prefix)
    ensures LastOfDecl(es + [e], p) == if e.decl == p then Some(e) else LastOfDecl(es, p)
  {
    assert (es + [e])[..|es|] == es;
  }

  lemma {:induction false} CountIsHas(es: seq<Entry>, ns: nat)
    ensures CountNs(es, ns) > 0 <==> HasNs(es, ns)
    ensures LastOfNs(es, ns).Some? <==> HasNs(es, ns)
  {
    if es != [] {
      var n := |es| - 1;
      CountIsHas(es[..n], ns);
      if k :| 0 <= k < |es| && es[k].ns == Some(ns) {
        if k < n { assert es[..n][k].ns == Some(ns); }
      }
      if HasNs(es[..n], ns) {
        var k :| 0 <= k < n && es[..n][k].ns == Some(ns);
        assert es[k].ns == Some(ns);
      }
      if es[n].ns == Some(ns) { assert HasNs(es, ns); }
    }
  }

  lemma {:induction false} LastOfNsIn(es: seq<Entry>, ns: nat)
    requires LastOfNs(es, ns).Some?
    ensures Entry(Some(ns), LastOfNs(es, ns).value) in es
  {
    var n := |es| - 1;
    if es[n].ns == Some(ns) {
      assert es[n] == Entry(Some(ns), es[n].decl);
    } else {
      LastOfNsIn(es[..n], ns);
    }
  }

  lemma {:induction false} LastOfDeclIn(es: seq<Entry>, p: Prefix)
    ensures LastOfDecl(es, p).Some? ==> LastOfDecl(es, p).value in es && LastOfDecl(es, p).value.decl == p
    ensures LastOfDecl(es, p).None? ==> forall e :: e in es ==> e.decl != p
  {
    if es != [] {
      LastOfDeclIn(es[..|es| - 1], p);
      assert es == es[..|es| - 1] + [es[|es| - 1]];
    }
  }

  /** When the innermost entry of either kind is this very pair, it is innermost of both. */
  lemma {:induction false} EitherIsBoth(es: seq<Entry>, ns: nat, p: Prefix)
    requires LastOfEither(es, ns, p) == Some(Entry(Some(ns), p))
    ensures LastOfNs(es, ns) == Some(p) && LastOfDecl(es, p) == Some(Entry(Some(ns), p))
  {
    var n := |es| - 1;
    if !(es[n].ns == Some(ns) || es[n].decl == p) {
      EitherIsBoth(es[..n], ns, p);
    }
  }

  lemma {:induction false} EitherNone(es: seq<Entry>, ns: nat, p: Prefix)
    requires LastOfEither(es, ns, p) == None
    ensures LastOfNs(es, ns) == None && LastOfDecl(es, p) == None
  {
    if es != [] { EitherNone(es[..|es| - 1], ns, p); }
  }
}
