/** Namespace bindings (expat/xmlparse.c): cells linked into one list for each open tag and one chain
    for each prefix, taken from and given back to a free list. */
module NamespaceBindings {
  import opened Wrappers

  const NUL: char := '\0'
  const XML_NAMESPACE := "http://www.w3.org/XML/1998/namespace"
  const XMLNS_NAMESPACE := "http://www.w3.org/2000/xmlns/"

  datatype NsError = UndeclaringPrefix | ReservedPrefixXmlns | ReservedPrefixXml | ReservedNamespaceUri | Syntax

  // ------------------------------------------------------------------ what may be bound

  /** is_rfc3986_uri_char */
  predicate UriChar(c: char) {
    'A' <= c <= 'Z' || 'a' <= c <= 'z' || '0' <= c <= '9' || c in "%-._~:/?#[]@!$&'()*+,;="
  }

  predicate NoNul(s: string) {
    forall i :: 0 <= i < |s| ==> s[i] != NUL
  }

  /** A character of a terminated string. */
  function CharAt(s: string, i: nat): char {
    if i < |s| then s[i] else NUL
  }

  /** A separator between name parts must not occur in a name, unless names may have it anyway. */
  predicate Ambiguous(uri: string, separator: char) {
    exists i :: 0 <= i < |uri| && uri[i] == separator && !UriChar(uri[i])
  }

  /** The reservations of section 3 of Namespaces in XML 1.0; no prefix stands for the default. */
  predicate Allowed(name: Option<string>, uri: string) {
    && name != Some("xmlns") && uri != XMLNS_NAMESPACE
    && (name == Some("xml") <==> uri == XML_NAMESPACE)
    && (uri == "" ==> name.None?)
  }

  function Refusal(name: Option<string>, uri: string, separator: char): Option<NsError> {
    if uri == "" && name.Some? then Some(UndeclaringPrefix)
    else if name == Some("xmlns") then Some(ReservedPrefixXmlns)
    else if Ambiguous(uri, separator) then Some(Syntax)
    else if name == Some("xml") && uri != XML_NAMESPACE then Some(ReservedPrefixXml)
    else if name != Some("xml") && uri == XML_NAMESPACE then Some(ReservedNamespaceUri)
    else if uri == XMLNS_NAMESPACE then Some(ReservedNamespaceUri)
    else None
  }

  lemma RefusesExactly(name: Option<string>, uri: string, separator: char)
    ensures Refusal(name, uri, separator).None? <==> Allowed(name, uri) && !Ambiguous(uri, separator)
  {
    assert XML_NAMESPACE != XMLNS_NAMESPACE by { assert |XML_NAMESPACE| != |XMLNS_NAMESPACE|; }
  }

  /** The checks at the start of addBinding, which compare the name with both reserved ones as they go
      along it. */
  method CheckBinding(name: Option<string>, uri: string, separator: char) returns (err: Option<NsError>)
    requires NoNul(uri) && (name.Some? ==> NoNul(name.value))
    ensures err == Refusal(name, uri, separator)
  {
    hide UriChar, Ambiguous;
    if uri == "" && name.Some? {
      return Some(UndeclaringPrefix);
    }
    assert |XML_NAMESPACE| != |XMLNS_NAMESPACE|;
    var mustBeXML := false;
    if name.Some? {
      var n := name.value;
      XmlNames(n);
      if CharAt(n, 0) == 'x' && CharAt(n, 1) == 'm' && CharAt(n, 2) == 'l' {
        if CharAt(n, 3) == 'n' && CharAt(n, 4) == 's' && CharAt(n, 5) == NUL {
          return Some(ReservedPrefixXmlns);
        }
        if CharAt(n, 3) == NUL {
          mustBeXML := true;
        }
      }
    }
    var isXML, isXMLNS, bad := CompareUri(uri, mustBeXML, separator, XML_NAMESPACE, XMLNS_NAMESPACE);
    if bad {
      return Some(Syntax);
    }
    if mustBeXML != isXML {
      return Some(if mustBeXML then ReservedPrefixXml else ReservedNamespaceUri);
    }
    if isXMLNS {
      return Some(ReservedNamespaceUri);
    }
    return None;
  }

  /** The loop: does the name equal the two reserved ones, and has it the separator in it? The second
      comparison is not made when the first one must succeed, and then only the length counts. */
  method CompareUri(uri: string, mustBeXML: bool, separator: char, xmlNamespace: string, xmlnsNamespace: string)
    returns (isXML: bool, isXMLNS: bool, bad: bool)
    requires NoNul(uri)
    ensures bad <==> Ambiguous(uri, separator)
    ensures !bad ==> (isXML <==> uri == xmlNamespace)
    ensures !bad ==> (isXMLNS <==> if mustBeXML then |uri| == |xmlnsNamespace| else uri == xmlnsNamespace)
  {
    hide UriChar, Follows, NoNul;
    isXML, isXMLNS := true, true;
    FollowsNone(uri, xmlNamespace);
    FollowsNone(uri, xmlnsNamespace);
    for len := 0 to |uri|
      invariant isXML <==> Follows(uri, len, xmlNamespace)
      invariant isXMLNS <==> mustBeXML || Follows(uri, len, xmlnsNamespace)
      invariant forall i :: 0 <= i < len ==> !(uri[i] == separator && !UriChar(uri[i]))
    {
      FollowsMore(uri, len, xmlNamespace);
      FollowsMore(uri, len, xmlnsNamespace);
      if isXML && (len > |xmlNamespace| || uri[len] != CharAt(xmlNamespace, len)) {
        isXML := false;
      }
      if !mustBeXML && isXMLNS && (len > |xmlnsNamespace| || uri[len] != CharAt(xmlnsNamespace, len)) {
        isXMLNS := false;
      }
      if uri[len] == separator && !UriChar(uri[len]) {
        return isXML, isXMLNS, true;
      }
    }
    FollowsAll(uri, xmlNamespace);
    FollowsAll(uri, xmlnsNamespace);
    isXML := isXML && |uri| == |xmlNamespace|;
    isXMLNS := isXMLNS && |uri| == |xmlnsNamespace|;
    bad := false;
  }

  lemma FollowsNone(uri: string, other: string)
    ensures Follows(uri, 0, other)
  {
  }

  lemma XmlNames(n: string)
    requires NoNul(n)
    ensures n == "xml" <==> CharAt(n, 0) == 'x' && CharAt(n, 1) == 'm' && CharAt(n, 2) == 'l' && CharAt(n, 3) == NUL
    ensures n == "xmlns" <==>
      && CharAt(n, 0) == 'x' && CharAt(n, 1) == 'm' && CharAt(n, 2) == 'l' && CharAt(n, 3) == 'n'
      && CharAt(n, 4) == 's' && CharAt(n, 5) == NUL
  {
  }

  /** The first `len` characters are those of the other name. */
  predicate Follows(uri: string, len: nat, other: string)
    requires len <= |uri|
  {
    len <= |other| && uri[..len] == other[..len]
  }

  lemma FollowsMore(uri: string, len: nat, other: string)
    requires len < |uri| && NoNul(uri)
    ensures Follows(uri, len + 1, other) <==> Follows(uri, len, other) && !(len > |other| || uri[len] != CharAt(other, len))
  {
    if len < |other| {
      assert uri[..len + 1] == uri[..len] + [uri[len]];
      assert other[..len + 1] == other[..len] + [other[len]];
    }
  }

  lemma FollowsAll(uri: string, other: string)
    ensures Follows(uri, |uri|, other) && |uri| == |other| <==> uri == other
  {
    assert uri[..|uri|] == uri && other[..|other|] == other;
  }

  // ------------------------------------------------------------------ the cells

  class Prefix {
    /** None for the default prefix. */
    const name: Option<string>
    var binding: Binding?

    constructor (name: Option<string>)
      ensures this.name == name && binding == null
    {
      this.name := name;
      binding := null;
    }
  }

  class Binding {
    var prefix: Prefix
    var nextTagBinding: Binding?
    var prevPrefixBinding: Binding?
    var uri: string

    constructor (prefix: Prefix)
      ensures this.prefix == prefix
    {
      this.prefix := prefix;
      nextTagBinding, prevPrefixBinding, uri := null, null, "";
    }
  }

  /** A declaration in force: its cell, its prefix and the namespace name as declared. */
  datatype Decl = Decl(cell: Binding, prefix: Prefix, uri: string)

  /** An undeclared default leaves no binding. */
  function ValueOf(d: Decl): Binding? {
    if d.uri == "" && d.prefix.name.None? then null else d.cell
  }

  /** The innermost declaration of a prefix, section 6.1 of Namespaces in XML 1.0. */
  function Current(decls: seq<Decl>, p: Prefix): Binding? {
    if decls == [] then null
    else
      var d := decls[|decls| - 1];
      if d.prefix == p then ValueOf(d) else Current(decls[..|decls| - 1], p)
  }

  lemma CurrentMore(decls: seq<Decl>, d: Decl, p: Prefix)
    ensures Current(decls + [d], p) == if d.prefix == p then ValueOf(d) else Current(decls, p)
  {
    assert (decls + [d])[..|decls|] == decls;
  }

  /** The declarations of the tags: tag `t` made those from `marks[t]` up to the next mark. */
  predicate Marked(marks: seq<nat>, n: nat) {
    && (forall t :: 0 <= t < |marks| ==> marks[t] <= n)
    && (forall s, t :: 0 <= s < t < |marks| ==> marks[s] <= marks[t])
    && (n > 0 ==> marks != [] && marks[0] == 0)
  }

  function EndOf(marks: seq<nat>, t: nat, n: nat): nat
    requires t < |marks|
  {
    if t + 1 < |marks| then marks[t + 1] else n
  }

  // ------------------------------------------------------------------ the lists

  function CellsOf(decls: seq<Decl>): set<Binding> {
    set d | d in decls :: d.cell
  }

  /** No cell is in two places, and only the default prefix has no name. */
  predicate Owned(decls: seq<Decl>, used: set<Binding>, free: seq<Binding>, prefixes: set<Prefix>, defaultPrefix: Prefix) {
    && used == CellsOf(decls)
    && (forall k :: 0 <= k < |decls| ==> decls[k].prefix in prefixes)
    && (forall j, k :: 0 <= j < k < |decls| ==> decls[j].cell != decls[k].cell)
    && (forall i, j :: 0 <= i < j < |free| ==> free[i] != free[j])
    && used !! (set c | c in free)
    && defaultPrefix in prefixes && (forall p :: p in prefixes ==> (p.name.None? <==> p == defaultPrefix))
  }

  /** Each tag's list starts at the newest of its declarations. */
  predicate Heads(tagBindings: seq<Binding?>, marks: seq<nat>, decls: seq<Decl>) {
    && |marks| == |tagBindings| && Marked(marks, |decls|)
    && forall t :: 0 <= t < |marks| ==> tagBindings[t] == HeadOf(marks, t, decls)
  }

  function HeadOf(marks: seq<nat>, t: nat, decls: seq<Decl>): Binding?
    requires t < |marks| && Marked(marks, |decls|)
  {
    var e := EndOf(marks, t, |decls|);
    if marks[t] < e then decls[e - 1].cell else null
  }

  /** A cell leads to the one before it on the same tag, and remembers what its prefix was bound to. */
  ghost predicate CellOk(decls: seq<Decl>, marks: seq<nat>, separator: char, k: nat)
    requires k < |decls|
    reads decls[k].cell
  {
    var d := decls[k];
    && d.cell.prefix == d.prefix && d.cell.uri == d.uri + Suffix(separator)
    && d.cell.nextTagBinding == (if k == 0 || k in marks then null else decls[k - 1].cell)
    && d.cell.prevPrefixBinding == Current(decls[..k], d.prefix)
  }

  function Suffix(separator: char): string {
    if separator == NUL then [] else [separator]
  }

  ghost predicate Linked(decls: seq<Decl>, marks: seq<nat>, separator: char, used: set<Binding>)
    reads used
  {
    forall k :: 0 <= k < |decls| ==> decls[k].cell in used && CellOk(decls, marks, separator, k)
  }

  ghost predicate FreeList(head: Binding?, free: seq<Binding>)
    reads free
  {
    if free == [] then head == null else head == free[0] && FreeList(free[0].nextTagBinding, free[1..])
  }

  ghost predicate Bound(prefixes: set<Prefix>, decls: seq<Decl>)
    reads prefixes
  {
    forall p :: p in prefixes ==> p.binding == Current(decls, p)
  }

  lemma NewestCell(tagBindings: seq<Binding?>, marks: seq<nat>, decls: seq<Decl>)
    requires Heads(tagBindings, marks, decls) && marks != []
    ensures var b := tagBindings[|marks| - 1];
            if marks[|marks| - 1] < |decls| then b == decls[|decls| - 1].cell else b == null
    ensures marks[|marks| - 1] <= |decls|
  {
  }

  lemma HeadsMore(tagBindings: seq<Binding?>, marks: seq<nat>, decls: seq<Decl>, d: Decl)
    requires Heads(tagBindings, marks, decls) && marks != []
    ensures Heads(tagBindings[|marks| - 1 := d.cell], marks, decls + [d])
  {
    var n := |marks| - 1;
    forall t | 0 <= t < |marks|
      ensures tagBindings[n := d.cell][t] == HeadOf(marks, t, decls + [d])
    {
      if t < n { assert EndOf(marks, t, |decls|) == marks[t + 1]; }
    }
  }

  /** Without its newest declaration the innermost tag's list starts at the one before. */
  lemma HeadsLess(tagBindings: seq<Binding?>, marks: seq<nat>, decls: seq<Decl>)
    requires Heads(tagBindings, marks, decls) && marks != [] && marks[|marks| - 1] < |decls|
    ensures var m := |decls| - 1;
            Heads(tagBindings[|marks| - 1 := if m == 0 || m in marks then null else decls[m - 1].cell], marks, decls[..m])
  {
    var n, m := |marks| - 1, |decls| - 1;
    LastMark(marks, m);
    var next := if m == 0 || m in marks then null else decls[m - 1].cell;
    forall t | 0 <= t < |marks|
      ensures tagBindings[n := next][t] == HeadOf(marks, t, decls[..m])
    {
      if t < n { assert EndOf(marks, t, |decls|) == marks[t + 1]; }
    }
  }

  lemma LinkedMore(decls: seq<Decl>, marks: seq<nat>, separator: char, used: set<Binding>, d: Decl)
    requires Linked(decls, marks, separator, used) && CellOk(decls + [d], marks, separator, |decls|)
    ensures Linked(decls + [d], marks, separator, used + {d.cell})
  {
    hide Current, CellOk;
    var more := decls + [d];
    forall k | 0 <= k < |more|
      ensures more[k].cell in used + {d.cell} && CellOk(more, marks, separator, k)
    {
      if k < |decls| { SamePlace(decls, more, marks, separator, k); }
    }
  }

  lemma SamePlace(decls: seq<Decl>, more: seq<Decl>, marks: seq<nat>, separator: char, k: nat)
    requires k < |decls| && k < |more| && decls[..k] == more[..k] && decls[k] == more[k]
    ensures CellOk(decls, marks, separator, k) <==> CellOk(more, marks, separator, k)
  {
    hide Current;
    assert k > 0 ==> decls[k - 1] == decls[..k][k - 1] == more[..k][k - 1] == more[k - 1];
  }

  lemma LinkedLess(decls: seq<Decl>, marks: seq<nat>, separator: char, used: set<Binding>)
    requires Linked(decls, marks, separator, used) && decls != [] && used == CellsOf(decls)
    ensures Linked(decls[..|decls| - 1], marks, separator, CellsOf(decls[..|decls| - 1])) && CellOk(decls, marks, separator, |decls| - 1)
  {
    hide Current, CellOk;
    var less := decls[..|decls| - 1];
    forall k | 0 <= k < |less|
      ensures less[k].cell in CellsOf(less) && CellOk(less, marks, separator, k)
    {
      assert less[k] in less && less[..k] == decls[..k];
      SamePlace(decls, less, marks, separator, k);
    }
  }

  /** A tag opened or closed where no declaration has been made changes no cell's place. */
  lemma LinkedMarks(decls: seq<Decl>, marks: seq<nat>, separator: char, used: set<Binding>, n: nat)
    requires n >= |decls|
    ensures Linked(decls, marks, separator, used) <==> Linked(decls, marks + [n], separator, used)
  {
    hide Current;
    forall k: nat | k < |decls|
      ensures CellOk(decls, marks, separator, k) <==> CellOk(decls, marks + [n], separator, k)
    {
      assert k in marks + [n] <==> k in marks;
    }
  }

  lemma OwnedMore(decls: seq<Decl>, used: set<Binding>, free: seq<Binding>, prefixes: set<Prefix>, defaultPrefix: Prefix, d: Decl)
    requires Owned(decls, used, free, prefixes, defaultPrefix) && d.cell !in used && d.cell !in free && d.prefix in prefixes
    ensures Owned(decls + [d], used + {d.cell}, free, prefixes, defaultPrefix)
  {
    forall k | 0 <= k < |decls|
      ensures decls[k].cell in used
    {
      assert decls[k] in decls;
    }
    assert CellsOf(decls + [d]) == used + {d.cell};
  }

  lemma OwnedMoved(decls: seq<Decl>, used: set<Binding>, free: seq<Binding>, prefixes: set<Prefix>, defaultPrefix: Prefix)
    requires Owned(decls, used, free, prefixes, defaultPrefix) && decls != []
    ensures var n, b := |decls| - 1, decls[|decls| - 1].cell;
            && Owned(decls[..n], used - {b}, [b] + free, prefixes, defaultPrefix)
            && CellsOf(decls[..n]) == used - {b} && b !in free && b in used
  {
    var n := |decls| - 1;
    var b := decls[n].cell;
    assert decls[n] in decls && decls == decls[..n] + [decls[n]];
    assert b in used && b !in free;
    assert (set c | c in [b] + free) == {b} + (set c | c in free);
    forall d | d in decls[..n]
      ensures d.cell != b && d in decls
    {
      var k :| 0 <= k < n && decls[..n][k] == d;
      assert decls[k] == d;
    }
    assert CellsOf(decls[..n]) == used - {b};
  }

  lemma OwnedTaken(decls: seq<Decl>, used: set<Binding>, free: seq<Binding>, prefixes: set<Prefix>, defaultPrefix: Prefix)
    requires Owned(decls, used, free, prefixes, defaultPrefix) && free != []
    ensures Owned(decls, used, free[1..], prefixes, defaultPrefix) && free[0] !in used && free[0] !in free[1..]
  {
    assert free == [free[0]] + free[1..];
  }

  class Parser {
    const defaultPrefix: Prefix
    /** NUL for none. */
    const namespaceSeparator: char
    var freeBindingList: Binding?
    /** The bindings of each open tag, the innermost last. */
    var tagBindings: seq<Binding?>

    ghost var decls: seq<Decl>
    ghost var marks: seq<nat>
    ghost var used: set<Binding>
    ghost var free: seq<Binding>
    ghost var prefixes: set<Prefix>

    /** The cells there are: those of the declarations in force and those on the free list. */
    ghost function Cells(): set<Binding>
      reads this
    {
      used + (set c | c in free)
    }

    ghost predicate Valid()
      reads this, Cells(), prefixes
    {
      && Owned(decls, used, free, prefixes, defaultPrefix) && Heads(tagBindings, marks, decls)
      && Linked(decls, marks, namespaceSeparator, used) && FreeList(freeBindingList, free) && Bound(prefixes, decls)
    }

    constructor (separator: char)
      ensures Valid() && decls == [] && marks == [] && namespaceSeparator == separator
      ensures fresh(defaultPrefix) && prefixes == {defaultPrefix} && Cells() == {}
    {
      var p := new Prefix(None);
      defaultPrefix, namespaceSeparator := p, separator;
      freeBindingList, tagBindings := null, [];
      decls, marks, used, free, prefixes := [], [], {}, [], {p};
    }

    /** A prefix met for the first time. */
    method NewPrefix(name: string) returns (p: Prefix)
      requires Valid()
      modifies this`prefixes
      ensures Valid() && fresh(p) && p.name == Some(name) && prefixes == old(prefixes) + {p}
    {
      hide Linked, FreeList, Heads, Current;
      p := new Prefix(Some(name));
      Unbound(decls, p);
      prefixes := prefixes + {p};
    }

    /** A start tag opens a list of its own; so does an empty element, whose list is local. */
    method OpenTag()
      requires Valid()
      modifies this`tagBindings, this`marks
      ensures Valid() && decls == old(decls) && marks == old(marks) + [|decls|]
    {
      hide Linked, FreeList, Owned, Bound, Heads;
      LinkedMarks(decls, marks, namespaceSeparator, used, |decls|);
      HeadsOpened(tagBindings, marks, decls);
      tagBindings := tagBindings + [null];
      marks := marks + [|decls|];
    }

    /** A cell from the free list, or a new one. */
    method TakeCell(prefix: Prefix) returns (b: Binding)
      requires Valid()
      modifies this`freeBindingList, this`free
      ensures Valid() && b !in Cells() && (fresh(b) || b in old(Cells()))
      ensures Cells() + {b} == old(Cells()) + {b}
    {
      hide Linked, Owned, Bound, Heads;
      if freeBindingList != null {
        OwnedTaken(decls, used, free, prefixes, defaultPrefix);
        b := freeBindingList;
        freeBindingList := b.nextTagBinding;
        assert free == [b] + free[1..];
        free := free[1..];
      } else {
        b := new Binding(prefix);
      }
    }

    /** addBinding on the innermost tag. */
    method AddBinding(prefix: Prefix, uri: string) returns (err: Option<NsError>)
      requires Valid() && marks != [] && prefix in prefixes && NoNul(uri) && (prefix.name.Some? ==> NoNul(prefix.name.value))
      modifies this`freeBindingList, this`free, this`used, this`tagBindings, this`decls, Cells(), prefix
      ensures Valid() && old(Cells()) <= Cells() && fresh(Cells() - old(Cells()))
      ensures err == Refusal(prefix.name, uri, namespaceSeparator)
      ensures err.Some? ==> decls == old(decls)
      ensures err.None? ==>
        && |decls| == |old(decls)| + 1 && decls[..|old(decls)|] == old(decls)
        && decls[|old(decls)|].prefix == prefix && decls[|old(decls)|].uri == uri
    {
      hide Linked, Owned, Heads, Refusal, FreeList, Bound, Current;
      err := CheckBinding(prefix.name, uri, namespaceSeparator);
      if err.Some? {
        return err;
      }
      var b := TakeCell(prefix);
      Attach(b, prefix, uri);
    }

    /** The rest of addBinding: the cell becomes the newest declaration. */
    method Attach(b: Binding, prefix: Prefix, uri: string)
      requires Valid() && marks != [] && prefix in prefixes && b !in Cells()
      modifies this`used, this`tagBindings, this`decls, b, prefix
      ensures Valid() && Cells() == old(Cells()) + {b} && decls == old(decls) + [Decl(b, prefix, uri)]
    {
      hide Linked, Owned, Heads, FreeList, Bound, Current, CellsOf;
      ghost var d := Decl(b, prefix, uri);
      OwnedMore(decls, used, free, prefixes, defaultPrefix, d);
      HeadsMarked(tagBindings, marks, decls);
      HeadsMore(tagBindings, marks, decls, d);
      NewestCell(tagBindings, marks, decls);
      LastMark(marks, |decls|);
      DefaultOnly(decls, used, free, prefixes, defaultPrefix, prefix);
      Bind(b, prefix, uri);
      var top := |tagBindings| - 1;
      b.nextTagBinding := tagBindings[top];
      tagBindings := tagBindings[top := b];
      assert Linked(decls, marks, namespaceSeparator, used);
      assert (decls + [d])[..|decls|] == decls;
      assert CellOk(decls + [d], marks, namespaceSeparator, |decls|);
      LinkedMore(decls, marks, namespaceSeparator, used, d);
      decls := decls + [d];
      used := used + {b};
      assert FreeList(freeBindingList, free);
      assert Bound(prefixes, decls);
      assert Heads(tagBindings, marks, decls);
      assert Owned(decls, used, free, prefixes, defaultPrefix);
    }

    /** The fields of the cell, and the prefix bound to it. */
    method Bind(b: Binding, prefix: Prefix, uri: string)
      requires prefix in prefixes && (prefix == defaultPrefix <==> prefix.name.None?) && Bound(prefixes, decls)
      modifies b, prefix
      ensures b.uri == uri + Suffix(namespaceSeparator) && b.prefix == prefix && b.prevPrefixBinding == Current(decls, prefix)
      ensures Bound(prefixes, decls + [Decl(b, prefix, uri)])
    {
      hide Current;
      b.uri := uri + Suffix(namespaceSeparator);
      b.prefix := prefix;
      b.prevPrefixBinding := prefix.binding;
      if uri == "" && prefix == defaultPrefix {
        prefix.binding := null;
      } else {
        prefix.binding := b;
      }
      forall p | p in prefixes
        ensures p.binding == Current(decls + [Decl(b, prefix, uri)], p)
      {
        CurrentMore(decls, Decl(b, prefix, uri), p);
      }
    }

    /** One turn of the loop that ends a scope: the newest cell goes to the free list and its prefix
        gets back what it was bound to. */
    method UnwindOne()
      requires Valid() && marks != [] && |tagBindings| > 0 && tagBindings[|tagBindings| - 1] != null
      modifies this`freeBindingList, this`free, this`used, this`tagBindings, this`decls, Cells(), prefixes
      ensures Valid() && Cells() == old(Cells())
      ensures |old(decls)| > 0 && decls == old(decls)[..|old(decls)| - 1] && |decls| >= marks[|marks| - 1]
    {
      hide Owned, Heads, Linked, FreeList, Bound, CellsOf, Current, CellOk, Valid;
      var top := |tagBindings| - 1;
      var b := tagBindings[top];
      ghost var rest, newest := Newest(b);
      tagBindings := tagBindings[top := b.nextTagBinding];
      Restore(b, rest, newest);
      FreeMore(freeBindingList, b, free);
      free := [b] + free;
      freeBindingList := b;
      decls := rest;
      used := used - {b};
      assert (set c | c in free) == {b} + (set c | c in old(free));
      AllParts();
    }

    lemma AllParts()
      requires Owned(decls, used, free, prefixes, defaultPrefix) && Heads(tagBindings, marks, decls)
      requires Linked(decls, marks, namespaceSeparator, used) && FreeList(freeBindingList, free) && Bound(prefixes, decls)
      ensures Valid()
    {
      hide Owned, Heads, Linked, FreeList, Bound;
    }

    /** What is known of the newest declaration and of those before it. */
    lemma Newest(b: Binding) returns (rest: seq<Decl>, newest: Decl)
      requires Valid() && marks != [] && |tagBindings| > 0 && tagBindings[|tagBindings| - 1] == b
      ensures |tagBindings| == |marks| && decls == rest + [newest] && newest.cell == b && |rest| >= marks[|marks| - 1]
      ensures Owned(rest, used - {b}, [b] + free, prefixes, defaultPrefix) && b in used && b !in free
      ensures Heads(tagBindings[|tagBindings| - 1 := b.nextTagBinding], marks, rest)
      ensures Linked(rest, marks, namespaceSeparator, used - {b}) && FreeList(freeBindingList, free) && Bound(prefixes, decls)
      ensures b.prefix == newest.prefix && b.prefix in prefixes && b.prevPrefixBinding == Current(rest, b.prefix)
    {
      hide Owned, Heads, Linked, FreeList, Bound, CellsOf, Current, CellOk;
      HeadsMarked(tagBindings, marks, decls);
      NewestCell(tagBindings, marks, decls);
      OwnedMoved(decls, used, free, prefixes, defaultPrefix);
      UsedCells(decls, used, free, prefixes, defaultPrefix);
      HeadsLess(tagBindings, marks, decls);
      LinkedLess(decls, marks, namespaceSeparator, used);
      CellLinks(decls, marks, namespaceSeparator);
      PrefixKnown(decls, used, free, prefixes, defaultPrefix, |decls| - 1);
      rest, newest := decls[..|decls| - 1], decls[|decls| - 1];
    }

    method Restore(b: Binding, ghost rest: seq<Decl>, ghost newest: Decl)
      requires newest.cell == b && b.prefix == newest.prefix && newest.prefix in prefixes
      requires Bound(prefixes, rest + [newest]) && b.prevPrefixBinding == Current(rest, newest.prefix)
      modifies b`nextTagBinding, b.prefix`binding
      ensures Bound(prefixes, rest) && b.nextTagBinding == freeBindingList
    {
      hide Current;
      b.nextTagBinding := freeBindingList;
      b.prefix.binding := b.prevPrefixBinding;
      forall p | p in prefixes
        ensures p.binding == Current(rest, p)
      {
        CurrentMore(rest, newest, p);
      }
    }

    /** The end of an element: its declarations are gone and every prefix is bound as before. */
    method CloseTag()
      requires Valid() && marks != []
      modifies this, Cells(), prefixes
      ensures Valid() && marks == old(marks)[..|old(marks)| - 1] && prefixes == old(prefixes)
      ensures Cells() == old(Cells()) && old(marks)[|old(marks)| - 1] <= |old(decls)|
      ensures decls == old(decls)[..old(marks)[|old(marks)| - 1]]
    {
      hide Owned, Linked, FreeList, Bound, Heads;
      HeadsMarked(tagBindings, marks, decls);
      NewestCell(tagBindings, marks, decls);
      ghost var top := |marks| - 1;
      assert decls[..|decls|] == decls;
      while tagBindings[|tagBindings| - 1] != null
        invariant Valid() && marks == old(marks) && prefixes == old(prefixes) && Cells() == old(Cells())
        invariant |tagBindings| == |marks| && marks[top] <= |decls| <= |old(decls)| && decls == old(decls)[..|decls|]
        decreases |decls|
      {
        UnwindOne();
        HeadsMarked(tagBindings, marks, decls);
      }
      NewestCell(tagBindings, marks, decls);
      HeadsClosed(tagBindings, marks, decls);
      LinkedMarks(decls, marks[..top], namespaceSeparator, used, |decls|);
      assert marks == marks[..top] + [marks[top]];
      tagBindings := tagBindings[..|tagBindings| - 1];
      marks := marks[..top];
    }

    /** The namespace name a prefix stands for; the separator kept behind it is not part of it. */
    method Resolve(prefix: Prefix) returns (uri: Option<string>)
      requires Valid() && prefix in prefixes
      ensures uri == InScope(decls, prefix)
    {
      hide Owned, Heads, FreeList, Current, InScope;
      var b := prefix.binding;
      CurrentIs(decls, prefix);
      if b == null {
        return None;
      }
      ghost var k :| 0 <= k < |decls| && decls[k].cell == b && InScope(decls, prefix) == Some(decls[k].uri);
      assert CellOk(decls, marks, namespaceSeparator, k);
      var len := |b.uri| - (if namespaceSeparator == NUL then 0 else 1);
      assert b.uri[..len] == decls[k].uri;
      return Some(b.uri[..len]);
    }
  }

  lemma HeadsMarked(tagBindings: seq<Binding?>, marks: seq<nat>, decls: seq<Decl>)
    requires Heads(tagBindings, marks, decls)
    ensures Marked(marks, |decls|) && |tagBindings| == |marks|
  {
  }

  lemma HeadsOpened(tagBindings: seq<Binding?>, marks: seq<nat>, decls: seq<Decl>)
    requires Heads(tagBindings, marks, decls)
    ensures Heads(tagBindings + [null], marks + [|decls|], decls)
  {
    var more := marks + [|decls|];
    forall t | 0 <= t < |more|
      ensures (tagBindings + [null])[t] == HeadOf(more, t, decls)
    {
      if t < |marks| { assert EndOf(more, t, |decls|) == EndOf(marks, t, |decls|); }
    }
  }

  lemma HeadsClosed(tagBindings: seq<Binding?>, marks: seq<nat>, decls: seq<Decl>)
    requires Heads(tagBindings, marks, decls) && marks != [] && marks[|marks| - 1] == |decls|
    ensures |decls| > 0 ==> |marks| > 1
    ensures Heads(tagBindings[..|marks| - 1], marks[..|marks| - 1], decls)
  {
    var n := |marks| - 1;
    forall t | 0 <= t < n
      ensures tagBindings[t] == HeadOf(marks[..n], t, decls)
    {
      assert EndOf(marks, t, |decls|) == EndOf(marks[..n], t, |decls|);
    }
  }

  lemma DefaultOnly(decls: seq<Decl>, used: set<Binding>, free: seq<Binding>, prefixes: set<Prefix>, defaultPrefix: Prefix, p: Prefix)
    requires Owned(decls, used, free, prefixes, defaultPrefix) && p in prefixes
    ensures p == defaultPrefix <==> p.name.None?
  {
  }

  lemma CellLinks(decls: seq<Decl>, marks: seq<nat>, separator: char)
    requires decls != [] && CellOk(decls, marks, separator, |decls| - 1)
    ensures var n, d := |decls| - 1, decls[|decls| - 1];
            && d.cell.prefix == d.prefix && d.cell.prevPrefixBinding == Current(decls[..n], d.prefix)
            && d.cell.nextTagBinding == (if n == 0 || n in marks then null else decls[n - 1].cell)
  {
  }

  lemma UsedCells(decls: seq<Decl>, used: set<Binding>, free: seq<Binding>, prefixes: set<Prefix>, defaultPrefix: Prefix)
    requires Owned(decls, used, free, prefixes, defaultPrefix)
    ensures used == CellsOf(decls)
  {
  }

  lemma PrefixKnown(decls: seq<Decl>, used: set<Binding>, free: seq<Binding>, prefixes: set<Prefix>, defaultPrefix: Prefix, k: nat)
    requires Owned(decls, used, free, prefixes, defaultPrefix) && k < |decls|
    ensures decls[k].prefix in prefixes
  {
  }

  lemma FreeMore(head: Binding?, b: Binding, free: seq<Binding>)
    requires FreeList(head, free) && b.nextTagBinding == head
    ensures FreeList(b, [b] + free)
  {
    assert ([b] + free)[1..] == free;
  }

  /** The innermost declaration of the prefix among the open elements; xmlns="" leaves none. */
  function InScope(decls: seq<Decl>, p: Prefix): Option<string> {
    if decls == [] then None
    else
      var d := decls[|decls| - 1];
      if d.prefix != p then InScope(decls[..|decls| - 1], p)
      else if d.uri == "" && p.name.None? then None
      else Some(d.uri)
  }

  lemma {:induction false} CurrentIs(decls: seq<Decl>, p: Prefix)
    ensures Current(decls, p) == null <==> InScope(decls, p).None?
    ensures Current(decls, p) != null ==>
      exists k :: 0 <= k < |decls| && decls[k].cell == Current(decls, p) && InScope(decls, p) == Some(decls[k].uri)
  {
    if decls != [] && decls[|decls| - 1].prefix != p {
      CurrentIs(decls[..|decls| - 1], p);
    }
  }

  lemma {:induction false} Unbound(decls: seq<Decl>, p: Prefix)
    requires forall k :: 0 <= k < |decls| ==> decls[k].prefix != p
    ensures Current(decls, p) == null
  {
    if decls != [] { Unbound(decls[..|decls| - 1], p); }
  }

  /** The innermost tag's list starts where any list starts at all. */
  lemma LastMark(marks: seq<nat>, n: nat)
    requires Marked(marks, n) && marks != []
    ensures n in marks || n == 0 <==> marks[|marks| - 1] == n
  {
  }
}
