/** A namespace-aware reader after section 6 of Namespaces in XML 1.0, written without regard to
    how the writer works: the reference its output is measured by. */
module NamespaceReader {
  import opened Wrappers

  const XML_NAMESPACE := "http://www.w3.org/XML/1998/namespace"

  datatype QName = QName(prefix: string, local: string)

  /** An attribute name as written. `Garbled` has a colon but no prefix one could name. */
  datatype AttName = Plain(local: string) | Prefixed(prefix: string, local: string) | Garbled(local: string)

  datatype Token =
    | OpenTag(name: QName, decls: seq<(string, string)>, atts: seq<(AttName, string)>, empty: bool)
    | CloseTag(name: QName)
    | Characters(text: string)

  /** The empty name stands for no namespace. */
  datatype Expanded = Expanded(uri: string, local: string)

  datatype Event =
    | StartEvent(name: Expanded, atts: seq<(Expanded, string)>)
    | EndEvent(name: Expanded)
    | TextEvent(text: string)

  /** Prefixes in force; the empty prefix is the default namespace. */
  type Scope = map<string, string>

  datatype OpenElement = OpenElement(name: QName, expanded: Expanded, scope: Scope)

  datatype Reading = Failed | Reading(open: seq<OpenElement>, rootSeen: bool, events: seq<Event>)

  const BASE: Scope := map["xml" := XML_NAMESPACE]

  function Bind(scope: Scope, decls: seq<(string, string)>): Scope {
    if decls == [] then scope else
    Bind(scope, decls[..|decls| - 1])[decls[|decls| - 1].0 := decls[|decls| - 1].1]
  }

  predicate DistinctPrefixes(decls: seq<(string, string)>) {
    forall i, j :: 0 <= i < j < |decls| ==> decls[i].0 != decls[j].0
  }

  /** No prefix is declared twice on one tag, and only the default can be undeclared. */
  predicate ProperDecls(decls: seq<(string, string)>) {
    && DistinctPrefixes(decls)
    && (forall i :: 0 <= i < |decls| && decls[i].0 != "" ==> decls[i].1 != "")
  }

  function ResolveElement(scope: Scope, q: QName): Option<Expanded> {
    if q.prefix == "" then Some(Expanded(if "" in scope then scope[""] else "", q.local))
    else if q.prefix in scope then Some(Expanded(scope[q.prefix], q.local))
    else None
  }

  /** The default namespace does not apply to attributes. */
  function ResolveAttribute(scope: Scope, a: AttName): Option<Expanded> {
    match a
    case Plain(local) => Some(Expanded("", local))
    case Prefixed(p, local) => if p != "" && p in scope then Some(Expanded(scope[p], local)) else None
    case Garbled(_) => None
  }

  function ResolveAttributes(scope: Scope, atts: seq<(AttName, string)>): Option<seq<(Expanded, string)>> {
    if atts == [] then Some([]) else
    match (ResolveAttributes(scope, atts[..|atts| - 1]), ResolveAttribute(scope, atts[|atts| - 1].0))
    case (Some(rest), Some(x)) => Some(rest + [(x, atts[|atts| - 1].1)])
    case _ => None
  }

  function ScopeOf(open: seq<OpenElement>): Scope {
    if open == [] then BASE else open[|open| - 1].scope
  }

  function Step(r: Reading, t: Token): Reading {
    if r.Failed? then Failed else
    match t
    case OpenTag(q, decls, atts, empty) =>
      var scope := Bind(ScopeOf(r.open), decls);
      (match (ResolveElement(scope, q), ResolveAttributes(scope, atts))
       case (Some(x), Some(xs)) =>
         if !ProperDecls(decls) || (r.open == [] && r.rootSeen) then Failed
         else if empty then Reading(r.open, true, r.events + [StartEvent(x, xs), EndEvent(x)])
         else Reading(r.open + [OpenElement(q, x, scope)], true, r.events + [StartEvent(x, xs)])
       case _ => Failed)
    case CloseTag(q) =>
      if r.open != [] && r.open[|r.open| - 1].name == q then
        Reading(r.open[..|r.open| - 1], true, r.events + [EndEvent(r.open[|r.open| - 1].expanded)])
      else Failed
    case Characters(s) =>
      if r.open != [] then Reading(r.open, true, r.events + [TextEvent(s)]) else Failed
  }

  function Read(ts: seq<Token>): Reading {
    if ts == [] then Reading([], false, []) else Step(Read(ts[..|ts| - 1]), ts[|ts| - 1])
  }

  lemma {:induction false} ReadNext(ts: seq<Token>, t: Token)
    ensures Read(ts + [t]) == Step(Read(ts), t)
  {
    assert (ts + [t])[..|ts|] == ts;
  }

  /** A plainer reader, to which namespaces mean nothing: tags nest under one root. */
  datatype Nesting = Broken | Nesting(open: seq<QName>, rootSeen: bool)

  function TagStep(n: Nesting, t: Token): Nesting {
    if n.Broken? then Broken else
    match t
    case OpenTag(q, _, _, empty) =>
      if n.open == [] && n.rootSeen then Broken
      else Nesting(if empty then n.open else n.open + [q], true)
    case CloseTag(q) =>
      if n.open != [] && n.open[|n.open| - 1] == q then Nesting(n.open[..|n.open| - 1], true) else Broken
    case Characters(_) => if n.open != [] then n else Broken
  }

  function Tags(ts: seq<Token>): Nesting {
    if ts == [] then Nesting([], false) else TagStep(Tags(ts[..|ts| - 1]), ts[|ts| - 1])
  }

  lemma {:induction false} TagsNext(ts: seq<Token>, t: Token)
    ensures Tags(ts + [t]) == TagStep(Tags(ts), t)
  {
    assert (ts + [t])[..|ts|] == ts;
  }

  lemma {:induction false} BindAt(scope: Scope, decls: seq<(string, string)>, p: string)
    requires ProperDecls(decls)
    ensures p in Bind(scope, decls) <==> p in scope || exists i :: 0 <= i < |decls| && decls[i].0 == p
    ensures forall i :: 0 <= i < |decls| && decls[i].0 == p ==> Bind(scope, decls)[p] == decls[i].1
    ensures (forall i :: 0 <= i < |decls| ==> decls[i].0 != p) && p in scope ==> Bind(scope, decls)[p] == scope[p]
  {
    if decls != [] {
      var n := |decls| - 1;
      BindAt(scope, decls[..n], p);
      forall i | 0 <= i < |decls| && decls[i].0 == p
        ensures Bind(scope, decls)[p] == decls[i].1
      {
        if i < n { assert decls[..n][i] == decls[i]; }
      }
      if i :| 0 <= i < n && decls[..n][i].0 == p { assert decls[i].0 == p; }
      if i :| 0 <= i < |decls| && decls[i].0 == p {
        if i < n { assert decls[..n][i].0 == p; }
      }
    }
  }
}
