/** The context string by which the parser of an external entity inherits namespace bindings and open
    entities (expat/xmlparse.c, getContext and setContext). */
module NamespaceContext {
  import opened Wrappers
  import opened NamespaceBindings

  /** CONTEXT_SEP, a form feed. */
  const SEP: char := '\U{C}'

  /** A prefix of the table and the URI of its binding, kept with the separator behind it. */
  datatype PrefixEntry = PrefixEntry(name: string, uri: Option<string>)

  datatype EntityEntry = EntityEntry(name: string, open: bool)

  /** Bindings by prefix, none for the default, and the names of the open entities. */
  datatype Scope = Scope(bindings: map<Option<string>, string>, open: set<string>)

  // ------------------------------------------------------------------ writing

  /** The URI without the separator kept behind it. */
  function Bare(uri: string, separator: char): string {
    if separator == NUL || uri == "" then uri else uri[..|uri| - 1]
  }

  function DefaultItems(uri: Option<string>, separator: char): seq<string> {
    if uri.None? then [] else ["=" + Bare(uri.value, separator)]
  }

  function PrefixItems(table: seq<Option<PrefixEntry>>, separator: char): seq<string> {
    if table == [] then []
    else
      var e, rest := table[|table| - 1], PrefixItems(table[..|table| - 1], separator);
      if e.None? || e.value.uri.None? then rest
      else rest + [e.value.name + "=" + Bare(e.value.uri.value, separator)]
  }

  function EntityItems(table: seq<Option<EntityEntry>>): seq<string> {
    if table == [] then []
    else
      var e, rest := table[|table| - 1], EntityItems(table[..|table| - 1]);
      if e.None? || !e.value.open then rest else rest + [e.value.name]
  }

  function Items(default_: Option<string>, prefixes: seq<Option<PrefixEntry>>, entities: seq<Option<EntityEntry>>, separator: char): seq<string> {
    DefaultItems(default_, separator) + PrefixItems(prefixes, separator) + EntityItems(entities)
  }

  function Join(items: seq<string>): string {
    if items == [] then "" else if |items| == 1 then items[0]
    else Join(items[..|items| - 1]) + [SEP] + items[|items| - 1]
  }

  /** getContext: the two tables are gone through slot by slot. */
  method GetContext(default_: Option<string>, prefixes: seq<Option<PrefixEntry>>, entities: seq<Option<EntityEntry>>, separator: char)
    returns (context: string)
    ensures context == Join(Items(default_, prefixes, entities, separator))
  {
    context := "";
    var needSep := false;
    ghost var items := DefaultItems(default_, separator);
    if default_.Some? {
      context := context + "=" + Bare(default_.value, separator);
      needSep := true;
    }
    ghost var before_ := items;
    for i := 0 to |prefixes|
      invariant items == before_ + PrefixItems(prefixes[..i], separator)
      invariant context == Join(items) && (needSep <==> items != [])
    {
      assert prefixes[..i + 1][..i] == prefixes[..i];
      if prefixes[i].Some? && prefixes[i].value.uri.Some? {
        if needSep { context := context + [SEP]; }
        context := context + prefixes[i].value.name + "=" + Bare(prefixes[i].value.uri.value, separator);
        var item := prefixes[i].value.name + "=" + Bare(prefixes[i].value.uri.value, separator);
        JoinMore(items, item);
        items := items + [item];
        needSep := true;
      }
    }
    assert prefixes[..|prefixes|] == prefixes;
    before_ := items;
    for i := 0 to |entities|
      invariant items == before_ + EntityItems(entities[..i])
      invariant context == Join(items) && (needSep <==> items != [])
    {
      assert entities[..i + 1][..i] == entities[..i];
      if entities[i].Some? && entities[i].value.open {
        if needSep { context := context + [SEP]; }
        context := context + entities[i].value.name;
        JoinMore(items, entities[i].value.name);
        items := items + [entities[i].value.name];
        needSep := true;
      }
    }
    assert entities[..|entities|] == entities;
  }

  lemma JoinMore(items: seq<string>, item: string)
    ensures Join(items + [item]) == if items == [] then item else Join(items) + [SEP] + item
  {
    assert (items + [item])[..|items|] == items;
  }

  // ------------------------------------------------------------------ reading

  /** Up to the first occurrence of `c`, or everything. */
  function Until(s: string, c: char): (n: nat)
    ensures n <= |s| && c !in s[..n] && (n < |s| ==> s[n] == c)
  {
    if s == "" || s[0] == c then 0
    else
      var n := Until(s[1..], c);
      assert s[..n + 1] == [s[0]] + s[1..][..n];
      n + 1
  }

  lemma UntilIs(s: string, c: char, n: nat)
    requires n <= |s| && c !in s[..n] && (n < |s| ==> s[n] == c)
    ensures Until(s, c) == n
  {
    var m := Until(s, c);
    assert forall k :: 0 <= k < n ==> s[k] == s[..n][k];
    assert forall k :: 0 <= k < m ==> s[k] == s[..m][k];
  }

  function Split(context: string): seq<string>
    decreases |context|
  {
    if context == "" then []
    else
      var n := Until(context, SEP);
      [context[..n]] + if n < |context| then Split(context[n + 1..]) else []
  }

  /** addBinding on the bindings alone: see what InScope becomes with one more declaration. */
  function Bind(st: Scope, name: Option<string>, uri: string, separator: char): Option<Scope> {
    if Refusal(name, uri, separator).Some? then None
    else if uri == "" && name.None? then Some(st.(bindings := st.bindings - {None}))
    else Some(st.(bindings := st.bindings[name := uri]))
  }

  function Read(st: Scope, item: string, known: set<string>, separator: char): Option<Scope> {
    var e := Until(item, '=');
    if e == |item| then Some(if item in known then st.(open := st.open + {item}) else st)
    else Bind(st, if e == 0 then None else Some(item[..e]), item[e + 1..], separator)
  }

  function ReadAll(st: Scope, items: seq<string>, known: set<string>, separator: char): Option<Scope>
    decreases |items|
  {
    if items == [] then Some(st)
    else
      var next := Read(st, items[0], known, separator);
      if next.None? then None else ReadAll(next.value, items[1..], known, separator)
  }

  class EntityParser {
    const separator: char
    /** The names in the table of general entities. */
    const known: set<string>
    var scope: Scope

    constructor (separator: char, known: set<string>)
      ensures this.separator == separator && this.known == known && scope == Scope(map[], {})
    {
      this.separator, this.known := separator, known;
      scope := Scope(map[], {});
    }

    /** setContext: one scan over the string, with the characters since the last item in the pool. */
    method SetContext(context: string) returns (ok: bool)
      requires NoNul(context)
      modifies this`scope
      ensures ok <==> ReadAll(old(scope), Split(context), known, separator).Some?
      ensures ok ==> Some(scope) == ReadAll(old(scope), Split(context), known, separator)
    {
      hide Bind, Read, ReadAll, Split, Until;
      var pool := "";
      var from, s := 0, 0;
      assert context[0..] == context;
      while from < |context|
        invariant from <= s <= |context| && pool == context[from..s]
        invariant SEP !in pool && '=' !in pool
        invariant ReadAll(old(scope), Split(context), known, separator) == ReadAll(scope, Split(context[from..]), known, separator)
        decreases |context| - from, |context| - s
      {
        var c := CharAt(context, s);
        if c == SEP || c == NUL {
          EntityItem(context, from, s, scope, known, separator);
          if pool in known {
            scope := scope.(open := scope.open + {pool});
          }
          if c != NUL {
            s := s + 1;
          }
          from, pool := s, "";
        } else if c == '=' {
          var name := if pool == "" then None else Some(pool);
          var to := s + 1;
          while to < |context| && context[to] != SEP
            invariant s < to <= |context| && SEP !in context[s + 1..to]
          {
            assert context[s + 1..to + 1] == context[s + 1..to] + [context[to]];
            to := to + 1;
          }
          BindingItem(context, from, s, to, scope, known, separator);
          var next := Bind(scope, name, context[s + 1..to], separator);
          if next.None? {
            return false;
          }
          scope := next.value;
          if to < |context| {
            to := to + 1;
          }
          from, s, pool := to, to, "";
        } else {
          pool := pool + [c];
          s := s + 1;
        }
      }
      NothingRead(context[from..], scope, known, separator);
      return true;
    }
  }

  function After(context: string, at: nat): nat {
    if at < |context| then at + 1 else at
  }

  lemma NothingRead(context: string, st: Scope, known: set<string>, separator: char)
    requires context == ""
    ensures ReadAll(st, Split(context), known, separator) == Some(st)
  {
  }

  lemma FirstItem(context: string, from: nat, to: nat, st: Scope, known: set<string>, separator: char)
    requires from <= to <= |context| && from < |context| && SEP !in context[from..to] && (to < |context| ==> context[to] == SEP)
    ensures ReadAll(st, Split(context[from..]), known, separator) ==
            var next := Read(st, context[from..to], known, separator);
            if next.None? then None else ReadAll(next.value, Split(context[After(context, to)..]), known, separator)
  {
    hide Read;
    var rest := context[from..];
    assert rest[..to - from] == context[from..to];
    UntilIs(rest, SEP, to - from);
    if to < |context| {
      assert rest[to - from + 1..] == context[to + 1..];
    } else {
      assert context[After(context, to)..] == "";
    }
  }

  /** An item without an equals sign. */
  lemma EntityItem(context: string, from: nat, s: nat, st: Scope, known: set<string>, separator: char)
    requires from <= s <= |context| && from < |context| && (s < |context| ==> context[s] == SEP)
    requires SEP !in context[from..s] && '=' !in context[from..s]
    ensures var item := context[from..s];
            ReadAll(st, Split(context[from..]), known, separator) ==
            ReadAll(if item in known then st.(open := st.open + {item}) else st, Split(context[After(context, s)..]), known, separator)
  {
    hide ReadAll, Split;
    FirstItem(context, from, s, st, known, separator);
    UntilIs(context[from..s], '=', s - from);
  }

  /** An item with its first equals sign at `s`. */
  lemma BindingItem(context: string, from: nat, s: nat, to: nat, st: Scope, known: set<string>, separator: char)
    requires from <= s < to <= |context| && context[s] == '=' && SEP !in context[from..s] && '=' !in context[from..s]
    requires SEP !in context[s + 1..to] && (to < |context| ==> context[to] == SEP)
    ensures var next := Bind(st, if from == s then None else Some(context[from..s]), context[s + 1..to], separator);
            ReadAll(st, Split(context[from..]), known, separator) ==
            if next.None? then None else ReadAll(next.value, Split(context[After(context, to)..]), known, separator)
  {
    hide ReadAll, Split, Bind;
    var item := context[from..to];
    assert item == context[from..s] + ['='] + context[s + 1..to];
    FirstItem(context, from, to, st, known, separator);
    assert item[..s - from] == context[from..s] && item[s - from + 1..] == context[s + 1..to];
    UntilIs(item, '=', s - from);
  }

  // ------------------------------------------------------------------ the round trip

  /** What names and URIs are made of: no item is taken apart in the wrong place. */
  predicate Plain(s: string) {
    s != "" && SEP !in s && '=' !in s
  }

  /** A binding that addBinding has made. */
  predicate Bindable(name: Option<string>, uri: string, separator: char) {
    SEP !in uri && uri != "" && Refusal(name, uri, separator).None?
  }

  predicate GoodPrefix(e: Option<PrefixEntry>, separator: char) {
    e.Some? && e.value.uri.Some? ==> Plain(e.value.name) && Bindable(Some(e.value.name), Bare(e.value.uri.value, separator), separator)
  }

  predicate GoodEntity(e: Option<EntityEntry>, known: set<string>) {
    e.Some? && e.value.open ==> Plain(e.value.name) && e.value.name in known
  }

  /** The bindings of a table, each name in one slot. */
  function Bound(table: seq<Option<PrefixEntry>>, separator: char): map<Option<string>, string> {
    if table == [] then map[]
    else
      var e, rest := table[|table| - 1], Bound(table[..|table| - 1], separator);
      if e.None? || e.value.uri.None? then rest
      else rest[Some(e.value.name) := Bare(e.value.uri.value, separator)]
  }

  function Open(table: seq<Option<EntityEntry>>): set<string> {
    set e | e in table && e.Some? && e.value.open :: e.value.name
  }

  function DefaultBound(uri: Option<string>, separator: char): map<Option<string>, string> {
    if uri.None? then map[] else map[None := Bare(uri.value, separator)]
  }

  lemma {:induction false} SplitJoin(items: seq<string>)
    requires forall i :: 0 <= i < |items| ==> SEP !in items[i]
    requires items != [] ==> items[|items| - 1] != ""
    ensures Split(Join(items)) == items
  {
    if |items| > 0 {
      JoinHead(items);
      var context := Join(items);
      assert context[..|items[0]|] == items[0] && items == [items[0]] + items[1..];
      UntilIs(context, SEP, |items[0]|);
      if |items| > 1 {
        SplitJoin(items[1..]);
        assert items[1..][|items| - 2] == items[|items| - 1];
        JoinHead(items[1..]);
        assert context[|items[0]| + 1..] == Join(items[1..]);
      }
    }
  }

  lemma {:induction false} JoinHead(items: seq<string>)
    requires items != []
    ensures Join(items) == if |items| == 1 then items[0] else items[0] + [SEP] + Join(items[1..])
    ensures items[|items| - 1] != "" ==> Join(items) != ""
  {
    if |items| > 2 {
      var n := |items| - 1;
      JoinHead(items[..n]);
      assert items[..n][1..] == items[1..][..n - 1];
    }
  }

  lemma {:induction false} ReadMore(st: Scope, items: seq<string>, more: seq<string>, known: set<string>, separator: char)
    ensures ReadAll(st, items + more, known, separator) ==
            var mid := ReadAll(st, items, known, separator);
            if mid.None? then None else ReadAll(mid.value, more, known, separator)
    decreases |items|
  {
    if items == [] {
      assert items + more == more;
    } else {
      var next := Read(st, items[0], known, separator);
      assert (items + more)[1..] == items[1..] + more;
      if next.Some? { ReadMore(next.value, items[1..], more, known, separator); }
    }
  }

  lemma ReadNone(st: Scope, known: set<string>, separator: char)
    ensures ReadAll(st, [], known, separator) == Some(st)
  {
  }

  /** Reading the items of a table's prefixes adds its bindings. */
  lemma {:induction false} PrefixesRead(st: Scope, table: seq<Option<PrefixEntry>>, known: set<string>, separator: char)
    requires forall i :: 0 <= i < |table| ==> GoodPrefix(table[i], separator)
    ensures ReadAll(st, PrefixItems(table, separator), known, separator) ==
            Some(st.(bindings := st.bindings + Bound(table, separator)))
    decreases |table|
  {
    hide ReadAll, Bindable, Plain, Bare;
    if table == [] {
      ReadNone(st, known, separator);
      assert st.bindings + map[] == st.bindings;
    } else {
      var n := |table| - 1;
      PrefixesRead(st, table[..n], known, separator);
      assert GoodPrefix(table[n], separator);
      if table[n].Some? && table[n].value.uri.Some? {
        var name, uri := table[n].value.name, Bare(table[n].value.uri.value, separator);
        var mid := st.(bindings := st.bindings + Bound(table[..n], separator));
        NotEmpty(name);
        BindingRead(mid, name, uri, known, separator);
        ReadMore(st, PrefixItems(table[..n], separator), [name + "=" + uri], known, separator);
        assert st.bindings + Bound(table, separator) == mid.bindings[Some(name) := uri];
      }
    }
  }

  lemma NotEmpty(name: string)
    requires Plain(name)
    ensures name != ""
  {
  }

  lemma BindingRead(st: Scope, name: string, uri: string, known: set<string>, separator: char)
    requires name == "" || Plain(name)
    requires Bindable(if name == "" then None else Some(name), uri, separator)
    ensures ReadAll(st, [name + "=" + uri], known, separator) ==
            Some(st.(bindings := st.bindings[if name == "" then None else Some(name) := uri]))
  {
    hide Refusal;
    var item := name + "=" + uri;
    assert item[..|name|] == name && item[|name| + 1..] == uri;
    UntilIs(item, '=', |name|);
  }

  lemma {:induction false} EntitiesRead(st: Scope, table: seq<Option<EntityEntry>>, known: set<string>, separator: char)
    requires forall i :: 0 <= i < |table| ==> GoodEntity(table[i], known)
    ensures ReadAll(st, EntityItems(table), known, separator) == Some(st.(open := st.open + Open(table)))
    decreases |table|
  {
    if table != [] {
      var n := |table| - 1;
      EntitiesRead(st, table[..n], known, separator);
      assert table == table[..n] + [table[n]];
      if table[n].Some? && table[n].value.open {
        var name := table[n].value.name;
        ReadMore(st, EntityItems(table[..n]), [name], known, separator);
        OpenMore(table[..n], table[n]);
        assert st.open + Open(table) == st.open + Open(table[..n]) + {name};
        EntityRead(st.(open := st.open + Open(table[..n])), name, known, separator);
      } else {
        OpenMore(table[..n], table[n]);
        assert st.open + Open(table) == st.open + Open(table[..n]);
      }
    } else {
      assert st.open + Open(table) == st.open;
    }
  }

  lemma EntityRead(st: Scope, name: string, known: set<string>, separator: char)
    requires Plain(name) && name in known
    ensures ReadAll(st, [name], known, separator) == Some(st.(open := st.open + {name}))
  {
    UntilIs(name, '=', |name|);
    assert [name][1..] == [];
  }

  lemma OpenMore(table: seq<Option<EntityEntry>>, e: Option<EntityEntry>)
    ensures Open(table + [e]) == Open(table) + if e.Some? && e.value.open then {e.value.name} else {}
  {
    assert forall x :: x in table + [e] <==> x in table || x == e;
  }

  /** A parser that reads the context of another has exactly its bindings and its open entities,
      whatever the order of the tables. */
  lemma ContextRoundTrip(default_: Option<string>, prefixes: seq<Option<PrefixEntry>>, entities: seq<Option<EntityEntry>>,
                         known: set<string>, separator: char)
    requires default_.Some? ==> Bindable(None, Bare(default_.value, separator), separator)
    requires forall i :: 0 <= i < |prefixes| ==> GoodPrefix(prefixes[i], separator)
    requires forall i :: 0 <= i < |entities| ==> GoodEntity(entities[i], known)
    ensures ReadAll(Scope(map[], {}), Split(Join(Items(default_, prefixes, entities, separator))), known, separator)
         == Some(Scope(DefaultBound(default_, separator) + Bound(prefixes, separator), Open(entities)))
  {
    hide ReadAll, Split, Join, Bindable, Bare, GoodPrefix, GoodEntity, PrefixItems, EntityItems, Bound, Open;
    var items := Items(default_, prefixes, entities, separator);
    ItemsSplit(default_, prefixes, entities, known, separator);
    SplitJoin(items);
    var start := Scope(map[], {});
    var st := start.(bindings := DefaultBound(default_, separator));
    DefaultRead(default_, known, separator);
    ReadMore(start, DefaultItems(default_, separator), PrefixItems(prefixes, separator) + EntityItems(entities), known, separator);
    assert items == DefaultItems(default_, separator) + (PrefixItems(prefixes, separator) + EntityItems(entities));
    ReadMore(st, PrefixItems(prefixes, separator), EntityItems(entities), known, separator);
    PrefixesRead(st, prefixes, known, separator);
    EntitiesRead(st.(bindings := st.bindings + Bound(prefixes, separator)), entities, known, separator);
    assert {} + Open(entities) == Open(entities);
  }

  lemma DefaultRead(default_: Option<string>, known: set<string>, separator: char)
    requires default_.Some? ==> Bindable(None, Bare(default_.value, separator), separator)
    ensures ReadAll(Scope(map[], {}), DefaultItems(default_, separator), known, separator) ==
            Some(Scope(DefaultBound(default_, separator), {}))
  {
    hide Bindable, Bare;
    if default_.Some? {
      var uri := Bare(default_.value, separator);
      assert "" + "=" + uri == "=" + uri;
      BindingRead(Scope(map[], {}), "", uri, known, separator);
      assert map[][None := uri] == DefaultBound(default_, separator);
    }
  }

  lemma ItemsSplit(default_: Option<string>, prefixes: seq<Option<PrefixEntry>>, entities: seq<Option<EntityEntry>>,
                   known: set<string>, separator: char)
    requires default_.Some? ==> Bindable(None, Bare(default_.value, separator), separator)
    requires forall i :: 0 <= i < |prefixes| ==> GoodPrefix(prefixes[i], separator)
    requires forall i :: 0 <= i < |entities| ==> GoodEntity(entities[i], known)
    ensures forall x :: x in Items(default_, prefixes, entities, separator) ==> x != "" && SEP !in x
  {
    hide Refusal;
    PrefixItemsSplit(prefixes, separator);
    EntityItemsSplit(entities, known);
  }

  lemma {:induction false} PrefixItemsSplit(table: seq<Option<PrefixEntry>>, separator: char)
    requires forall i :: 0 <= i < |table| ==> GoodPrefix(table[i], separator)
    ensures forall x :: x in PrefixItems(table, separator) ==> x != "" && SEP !in x
  {
    if table != [] { PrefixItemsSplit(table[..|table| - 1], separator); }
  }

  lemma {:induction false} EntityItemsSplit(table: seq<Option<EntityEntry>>, known: set<string>)
    requires forall i :: 0 <= i < |table| ==> GoodEntity(table[i], known)
    ensures forall x :: x in EntityItems(table) ==> x != "" && SEP !in x
  {
    if table != [] { EntityItemsSplit(table[..|table| - 1], known); }
  }

  /** The bindings are those of the table: what a slot says is bound, and nothing else is. */
  lemma {:induction false} BoundIsTable(table: seq<Option<PrefixEntry>>, separator: char, name: Option<string>)
    requires forall i, j :: 0 <= i < j < |table| && table[i].Some? && table[j].Some? ==> table[i].value.name != table[j].value.name
    ensures name in Bound(table, separator) <==> exists i :: 0 <= i < |table| && BindsAt(table, i, name)
    ensures forall i :: 0 <= i < |table| && BindsAt(table, i, name) ==>
      name in Bound(table, separator) && Bound(table, separator)[name] == Bare(table[i].value.uri.value, separator)
  {
    if table != [] {
      var n := |table| - 1;
      BoundIsTable(table[..n], separator, name);
      forall i | 0 <= i < n
        ensures BindsAt(table, i, name) <==> BindsAt(table[..n], i, name)
        ensures BindsAt(table[..n], i, name) ==> name in Bound(table, separator)
      {}
      if i :| 0 <= i < n && BindsAt(table[..n], i, name) {
        assert BindsAt(table, i, name);
      }
      assert name in Bound(table, separator) <==> name in Bound(table[..n], separator) || BindsAt(table, n, name);
    }
  }

  predicate BindsAt(table: seq<Option<PrefixEntry>>, i: int, name: Option<string>)
    requires 0 <= i < |table|
  {
    table[i].Some? && table[i].value.uri.Some? && name == Some(table[i].value.name)
  }
}
