/** build_model (expat/xmlparse.c): the scaffold copied into an array of content cells by a pre-order
    traversal whose stack lies in the still unused end of that same array. */
module ContentBuild {
  import opened Wrappers
  import opened ContentModel
  import opened ContentScaffold

  /** XML_Content; a name is an offset into the string area, children an index into the cells. */
  datatype Content = Content(ctype: CType, quant: Quant, name: Option<nat>, numchildren: nat, children: Option<nat>)

  const NUL: char := '\0'

  predicate NoNul(s: string) {
    forall i :: 0 <= i < |s| ==> s[i] != NUL
  }

  predicate PlainNames(cells: seq<Cell>) {
    forall i :: 0 <= i < |cells| ==> NoNul(cells[i].name)
  }

  // ------------------------------------------------------------------ subtrees of the scaffold

  /** The tree stands at `b`, whatever its next sibling is. */
  predicate TreeAt(cells: seq<Cell>, t: Tree, b: nat) {
    b + Size(t) <= |cells| && cells[b..b + Size(t)] == Flat(t, b, cells[b].nextsib)
  }

  /** These trees stand one right after another from `b` to the end. */
  predicate ForestAt(cells: seq<Cell>, ts: seq<Tree>, b: nat)
    decreases ts
  {
    if ts == [] then b == |cells| else TreeAt(cells, ts[0], b) && ForestAt(cells, ts[1..], b + Size(ts[0]))
  }

  /** Where they start. */
  function Starts(ts: seq<Tree>, b: nat): seq<nat> {
    if ts == [] then [] else [b] + Starts(ts[1..], b + Size(ts[0]))
  }

  lemma {:induction false} StartsMore(ts: seq<Tree>, us: seq<Tree>, b: nat)
    ensures Starts(ts + us, b) == Starts(ts, b) + Starts(us, b + Sizes(ts))
    decreases |us|
  {
    if us == [] {
      assert ts + us == ts;
    } else {
      var u := us[0];
      assert ts + us == (ts + [u]) + us[1..];
      StartsMore(ts + [u], us[1..], b);
      StartsOne(ts, u, b);
      assert (ts + [u])[..|ts|] == ts;
      assert Starts(ts, b) + [b + Sizes(ts)] + Starts(us[1..], b + Sizes(ts) + Size(u))
          == Starts(ts, b) + ([b + Sizes(ts)] + Starts(us[1..], b + Sizes(ts) + Size(u)));
    }
  }

  lemma {:induction false} StartsOne(ts: seq<Tree>, u: Tree, b: nat)
    ensures Starts(ts + [u], b) == Starts(ts, b) + [b + Sizes(ts)]
  {
    if ts == [] {
      assert [] + [u] == [u];
    } else {
      assert (ts + [u])[1..] == ts[1..] + [u];
      StartsOne(ts[1..], u, b + Size(ts[0]));
      SizesFront(ts);
    }
  }

  lemma {:induction false} SizesFront(ts: seq<Tree>)
    requires ts != []
    ensures Sizes(ts) == Size(ts[0]) + Sizes(ts[1..])
  {
    if |ts| > 1 {
      assert ts[..|ts| - 1][1..] == ts[1..][..|ts| - 2];
      SizesFront(ts[..|ts| - 1]);
    }
  }

  lemma {:induction false} StartsLength(ts: seq<Tree>, b: nat)
    ensures |Starts(ts, b)| == |ts|
  {
    if ts != [] { StartsLength(ts[1..], b + Size(ts[0])); }
  }

  /** The cell at the start of a tree links to the start of the next one. */
  predicate SiblingAt(cells: seq<Cell>, starts: seq<nat>, k: nat)
    requires k < |starts|
  {
    k + 1 < |starts| ==> starts[k] < |cells| && cells[starts[k]].nextsib == starts[k + 1]
  }

  predicate Chained(cells: seq<Cell>, starts: seq<nat>) {
    forall k :: 0 <= k < |starts| ==> SiblingAt(cells, starts, k)
  }

  /** The children of a group stand where its cell says, linked one to the next. */
  lemma {:induction false} ChildrenAt(cells: seq<Cell>, items: seq<Tree>, base: nat, sib: nat, rest: seq<Tree>)
    requires base + Sizes(items) <= |cells| && cells[base..base + Sizes(items)] == FlatItems(items, base, sib)
    requires ForestAt(cells, rest, base + Sizes(items))
    ensures ForestAt(cells, items + rest, base)
    ensures |Starts(items, base)| == |items| && Chained(cells, Starts(items, base))
    decreases |items|
  {
    hide FlatItems, Flat, Sizes, Starts, TreeAt, Chained;
    if items == [] {
      assert items + rest == rest;
      NoItems(cells, base);
    } else {
      var n := |items| - 1;
      var b, t := LastStart(items, base), items[n];
      LastAt(cells, items, base, sib);
      assert ([t] + rest)[1..] == rest;
      assert ForestAt(cells, [t] + rest, b);
      ChildrenAt(cells, items[..n], base, b, [t] + rest);
      assert items + rest == items[..n] + ([t] + rest);
      StartsOne(items[..n], t, base);
      assert items == items[..n] + [t];
      if n > 0 { LastLinked(cells, items[..n], base, b); }
      ChainMore(cells, Starts(items[..n], base), b);
    }
  }

  lemma NoItems(cells: seq<Cell>, base: nat)
    ensures Sizes([]) == 0 && Starts([], base) == [] && Chained(cells, [])
  {
  }

  lemma ChainMore(cells: seq<Cell>, starts: seq<nat>, b: nat)
    requires Chained(cells, starts)
    requires starts != [] ==> starts[|starts| - 1] < |cells| && cells[starts[|starts| - 1]].nextsib == b
    ensures Chained(cells, starts + [b])
  {
    forall k | 0 <= k < |starts| + 1
      ensures SiblingAt(cells, starts + [b], k)
    {
      if k < |starts| { assert SiblingAt(cells, starts, k); }
    }
  }

  lemma RootSibling(t: Tree, b: nat, sib: nat)
    ensures RootCell(t, b, sib).nextsib == sib
  {
  }

  /** The last of the items and those before it. */
  lemma {:induction false} LastAt(cells: seq<Cell>, items: seq<Tree>, base: nat, sib: nat)
    requires items != [] && base + Sizes(items) <= |cells| && cells[base..base + Sizes(items)] == FlatItems(items, base, sib)
    ensures var n := |items| - 1;
            var b, t := LastStart(items, base), items[n];
            && b == base + Sizes(items[..n]) && b + Size(t) == base + Sizes(items)
            && cells[base..b] == FlatItems(items[..n], base, b) && TreeAt(cells, t, b) && cells[b].nextsib == sib
  {
    hide Flat, FlatItems;
    var n := |items| - 1;
    var b, t := LastStart(items, base), items[n];
    FlatItemsSize(items[..n], base, b);
    FlatSize(t, b, sib);
    RootSibling(t, b, sib);
    ItemsLast(items, base, sib);
    TwoParts(cells, base, FlatItems(items[..n], base, b), Flat(t, b, sib));
    assert cells[b] == cells[b..b + Size(t)][0];
  }

  lemma ItemsLast(items: seq<Tree>, base: nat, sib: nat)
    requires items != []
    ensures var b := LastStart(items, base);
            FlatItems(items, base, sib) == FlatItems(items[..|items| - 1], base, b) + Flat(items[|items| - 1], b, sib)
  {
  }

  lemma TwoParts(cells: seq<Cell>, base: nat, x: seq<Cell>, y: seq<Cell>)
    requires base + |x| + |y| <= |cells| && cells[base..base + |x| + |y|] == x + y
    ensures cells[base..base + |x|] == x && cells[base + |x|..base + |x| + |y|] == y
  {
    var all := cells[base..base + |x| + |y|];
    assert cells[base..base + |x|] == all[..|x|];
    assert cells[base + |x|..base + |x| + |y|] == all[|x|..];
  }

  lemma {:induction false} LastLinked(cells: seq<Cell>, items: seq<Tree>, base: nat, sib: nat)
    requires base + Sizes(items) <= |cells| && cells[base..base + Sizes(items)] == FlatItems(items, base, sib) && items != []
    ensures |Starts(items, base)| == |items| && Starts(items, base)[|items| - 1] < |cells|
    ensures cells[Starts(items, base)[|items| - 1]].nextsib == sib
  {
    hide FlatItems, Flat, Starts;
    var n := |items| - 1;
    var t := items[n];
    StartsOne(items[..n], t, base);
    assert items == items[..n] + [t];
    StartsLength(items[..n], base);
    LastAt(cells, items, base, sib);
  }

  /** Taking the first tree of a forest apart: its root is here and its children come next. */
  lemma {:induction false} ForestStep(cells: seq<Cell>, ts: seq<Tree>, b: nat)
    requires ts != [] && ForestAt(cells, ts, b)
    ensures b < |cells| && var t := ts[0];
            && cells[b].ctype == (if t.Leaf? then CName else TypeOf(t.kind))
            && (t.Leaf? ==> ForestAt(cells, ts[1..], b + 1))
            && (t.Node? ==>
                  && cells[b].childcnt == |t.items| && (t.items != [] ==> cells[b].firstchild == b + 1)
                  && ForestAt(cells, t.items + ts[1..], b + 1)
                  && |Starts(t.items, b + 1)| == |t.items| && Chained(cells, Starts(t.items, b + 1)))
  {
    var t := ts[0];
    FlatSize(t, b, cells[b].nextsib);
    var all := cells[b..b + Size(t)];
    assert cells[b] == all[0];
    if t.Node? {
      assert cells[b + 1..b + Size(t)] == all[1..];
      assert all[1..] == FlatItems(t.items, b + 1, 0);
      ChildrenAt(cells, t.items, b + 1, 0, ts[1..]);
      StartsLength(t.items, b + 1);
    }
  }

  // ------------------------------------------------------------------ the result

  function Names(cells: seq<Cell>): string {
    if cells == [] then "" else
    var c := cells[|cells| - 1];
    Names(cells[..|cells| - 1]) + if c.ctype == CName then c.name + [NUL] else ""
  }

  /** Cell `k` of the result is scaffold cell `k`. */
  function Converted(cells: seq<Cell>, k: nat): Content
    requires k < |cells|
  {
    var c := cells[k];
    if c.ctype == CName then Content(CName, c.quant, Some(|Names(cells[..k])|), 0, None)
    else Content(c.ctype, c.quant, None, c.childcnt, Some(k + 1))
  }

  // ------------------------------------------------------------------ the traversal

  /** The stack in the array: from `top` on the cells' counts are the indices of pending subtrees. */
  predicate Stacked(ret: seq<Content>, top: nat, pending: seq<nat>) {
    && top + |pending| == |ret|
    && forall i :: 0 <= i < |pending| ==> ret[top + i].numchildren == pending[i]
  }

  /** build_model. At step `dest` the trees still to be written are those from scaffold cell `dest` on,
      so as many cells are left as they have nodes, and the stack is no longer than that. */
  method BuildModel(scaffold: seq<Cell>, contentStringLen: nat, ghost t: Tree) returns (ret: array<Content>, str: string)
    requires scaffold == Flat(t, 0, 0) && PlainNames(scaffold) && contentStringLen == StringsLength(t)
    ensures fresh(ret) && ret.Length == |scaffold| && |str| == contentStringLen && str == Names(scaffold)
    ensures forall k :: 0 <= k < |scaffold| ==> ret[k] == Converted(scaffold, k)
  {
    hide ForestAt, Flat, Names, Starts, TreeAt, PlainNames, Size, Sizes, Stacked, Converted, StringsLength;
    FlatSize(t, 0, 0);
    RootForest(scaffold, t);
    NoNames(scaffold);
    NamesLength(t, 0, 0);
    var stackTop: nat;
    ret, stackTop := NewCells(|scaffold|);
    str := "";
    ghost var forest := [t];
    for dest := 0 to |scaffold|
      invariant ret.Length == |scaffold| && stackTop <= |scaffold|
      invariant ForestAt(scaffold, forest, dest) && Stacked(ret[..], stackTop, Starts(forest, dest))
      invariant str == Names(scaffold[..dest])
      invariant forall k :: 0 <= k < dest ==> ret[..][k] == Converted(scaffold, k)
    {
      ghost var was := ret[..];
      stackTop, str, forest := WriteNode(ret, scaffold, dest, stackTop, str, forest);
      forall k | 0 <= k <= dest
        ensures ret[..][k] == Converted(scaffold, k)
      {
        if k < dest { assert ret[..dest][k] == was[..dest][k]; }
      }
    }
    assert scaffold[..|scaffold|] == scaffold;
    assert forall k :: 0 <= k < |scaffold| ==> ret[k] == ret[..][k];
  }

  /** The array with the root's index pushed at its end. */
  method NewCells(n: nat) returns (ret: array<Content>, stackTop: nat)
    requires n > 0
    ensures fresh(ret) && ret.Length == n && stackTop == n - 1 && Stacked(ret[..], stackTop, [0])
  {
    ret := new Content[n](_ => Content(CSeq, One, None, 0, None));
    stackTop := n - 1;
    ret[stackTop] := ret[stackTop].(numchildren := 0);
  }

  /** One step: the node on top of the stack is written at `dest`. */
  method WriteNode(ret: array<Content>, scaffold: seq<Cell>, dest: nat, stackTop: nat, str: string, ghost forest: seq<Tree>)
    returns (top: nat, more: string, ghost pending: seq<Tree>)
    requires ret.Length == |scaffold| && dest < ret.Length && stackTop <= ret.Length && PlainNames(scaffold)
    requires ForestAt(scaffold, forest, dest) && Stacked(ret[..], stackTop, Starts(forest, dest))
    requires str == Names(scaffold[..dest])
    modifies ret
    ensures top <= ret.Length && ForestAt(scaffold, pending, dest + 1) && Stacked(ret[..], top, Starts(pending, dest + 1))
    ensures more == Names(scaffold[..dest + 1])
    ensures ret[..dest] == old(ret[..dest]) && ret[dest] == Converted(scaffold, dest)
  {
    hide ForestAt, Flat, Names, Starts, TreeAt, PlainNames, Size, Sizes, Chained;
    StepFacts(scaffold, forest, dest);
    NamesNext(scaffold, dest);
    ghost var first, later := forest[0], forest[1..];
    ghost var below := Starts(later, dest + Size(first));
    assert ret[..][stackTop + 0].numchildren == Starts(forest, dest)[0];
    PopStack(ret[..], stackTop, dest, below);
    var srcNode := ret[stackTop].numchildren;
    var c := scaffold[srcNode];
    if c.ctype == CName {
      ret[dest] := Content(CName, c.quant, Some(|str|), 0, None);
      PlainName(scaffold, srcNode);
      more := CopyName(str, c.name);
      top, pending := stackTop + 1, later;
    } else {
      top := WriteGroup(ret, scaffold, dest, stackTop + 1, first, later);
      more, pending := str, first.items + later;
    }
  }

  lemma PopStack(ret: seq<Content>, top: nat, head: nat, below: seq<nat>)
    requires Stacked(ret, top, [head] + below)
    ensures Stacked(ret, top + 1, below)
  {
    forall i | 0 <= i < |below|
      ensures ret[top + 1 + i].numchildren == below[i]
    {
      assert ret[top + (i + 1)].numchildren == ([head] + below)[i + 1];
    }
  }

  /** What is known of the trees still to be written. */
  lemma {:induction false} StepFacts(cells: seq<Cell>, ts: seq<Tree>, b: nat)
    requires ForestAt(cells, ts, b) && b < |cells|
    ensures ts != []
    ensures var first, later := ts[0], ts[1..];
            && Starts(ts, b) == [b] + Starts(later, b + Size(first))
            && |Starts(later, b + Size(first))| == |later| && b + 1 + |later| <= |cells|
            && cells[b].ctype == (if first.Leaf? then CName else TypeOf(first.kind))
            && (first.Leaf? ==> Size(first) == 1 && ForestAt(cells, later, b + 1))
            && (first.Node? ==>
                  && cells[b].childcnt == |first.items| && (first.items != [] ==> cells[b].firstchild == b + 1)
                  && ForestAt(cells, first.items + later, b + 1) && b + 1 + |first.items| + |later| <= |cells|
                  && Starts(first.items + later, b + 1) == Starts(first.items, b + 1) + Starts(later, b + Size(first))
                  && |Starts(first.items, b + 1)| == |first.items| && Chained(cells, Starts(first.items, b + 1)))
  {
    hide ForestAt, Flat, Starts, TreeAt;
    NotEmpty(cells, ts, b);
    var first, later := ts[0], ts[1..];
    StartsHead(ts, b);
    StartsLength(later, b + Size(first));
    ForestRoom(cells, ts, b);
    ForestStep(cells, ts, b);
    if first.Node? {
      StartsMore(first.items, later, b + 1);
      ForestRoom(cells, first.items + later, b + 1);
    }
  }

  /** A group: its children go on the stack. */
  method WriteGroup(ret: array<Content>, scaffold: seq<Cell>, dest: nat, stackTop: nat, ghost first: Tree, ghost later: seq<Tree>)
    returns (top: nat)
    requires ret.Length == |scaffold| && dest < stackTop <= ret.Length && first.Node?
    requires scaffold[dest].childcnt == |first.items| && (first.items != [] ==> scaffold[dest].firstchild == dest + 1)
    requires dest + 1 + |first.items| + |later| <= |scaffold|
    requires |Starts(first.items, dest + 1)| == |first.items| && Chained(scaffold, Starts(first.items, dest + 1))
    requires |Starts(later, dest + Size(first))| == |later|
    requires Stacked(ret[..], stackTop, Starts(later, dest + Size(first)))
    requires Starts(first.items + later, dest + 1) == Starts(first.items, dest + 1) + Starts(later, dest + Size(first))
    modifies ret
    ensures Stacked(ret[..], top, Starts(first.items + later, dest + 1)) && dest < top
    ensures ret[..dest] == old(ret[..dest])
    ensures ret[dest] == Content(scaffold[dest].ctype, scaffold[dest].quant, None, scaffold[dest].childcnt, Some(dest + 1))
  {
    hide Starts, Chained;
    var c := scaffold[dest];
    ghost var below := Starts(later, dest + Size(first));
    ret[dest] := Content(c.ctype, c.quant, None, c.childcnt, Some(dest + 1));
    assert Stacked(ret[..], stackTop, below);
    top := stackTop - c.childcnt;
    PushChildren(ret, scaffold, top, dest, first.items, below);
    assert ret[..top][..dest] == ret[..dest];
  }

  /** The inner loop: the children's indices go on the stack, the first child on top. */
  method PushChildren(ret: array<Content>, scaffold: seq<Cell>, top: nat, dest: nat, ghost items: seq<Tree>, ghost below: seq<nat>)
    requires ret.Length == |scaffold| && dest < top && top + |items| + |below| == ret.Length
    requires scaffold[dest].childcnt == |items| && (items != [] ==> scaffold[dest].firstchild == dest + 1)
    requires |Starts(items, dest + 1)| == |items| && Chained(scaffold, Starts(items, dest + 1))
    requires Stacked(ret[..], top + |items|, below)
    modifies ret
    ensures Stacked(ret[..], top, Starts(items, dest + 1) + below)
    ensures ret[..top] == old(ret[..top])
  {
    var i := 0;
    var cn := scaffold[dest].firstchild;
    ghost var starts := Starts(items, dest + 1);
    if items != [] { StartsHead(items, dest + 1); }
    while i < scaffold[dest].childcnt
      invariant 0 <= i <= |items| && (i < |items| ==> cn == starts[i])
      invariant forall k :: 0 <= k < i ==> ret[top + k].numchildren == starts[k]
      invariant ret[..top] == old(ret[..top]) && ret[top + |items|..] == old(ret[top + |items|..])
    {
      ret[top + i] := ret[top + i].(numchildren := cn);
      assert SiblingAt(scaffold, starts, i);
      i := i + 1;
      if i < scaffold[dest].childcnt {
        cn := scaffold[cn].nextsib;
      }
    }
    forall k | 0 <= k < |starts + below|
      ensures ret[..][top + k].numchildren == (starts + below)[k]
    {
      if k >= |items| { assert ret[top + |items|..][k - |items|] == old(ret[..])[top + k]; }
    }
  }

  /** The copying loop, which stops after the terminator. */
  method CopyName(str: string, name: string) returns (r: string)
    requires NoNul(name)
    ensures r == str + name + [NUL]
  {
    r := str;
    var src := name + [NUL];
    var i := 0;
    while true
      invariant 0 <= i <= |name| && r == str + name[..i]
      decreases |name| - i
    {
      r := r + [src[i]];
      if src[i] == NUL {
        assert name[..i] == name;
        return r;
      }
      assert name[..i + 1] == name[..i] + [name[i]];
      assert str + name[..i] + [name[i]] == str + (name[..i] + [name[i]]);
      i := i + 1;
    }
  }

  lemma RootForest(cells: seq<Cell>, t: Tree)
    requires cells == Flat(t, 0, 0)
    ensures ForestAt(cells, [t], 0) && Starts([t], 0) == [0]
  {
    FlatSize(t, 0, 0);
    RootSibling(t, 0, 0);
    assert cells[0..Size(t)] == cells && [t][1..] == [];
  }

  lemma NoNames(cells: seq<Cell>)
    ensures Names(cells[..0]) == ""
  {
  }

  lemma NotEmpty(cells: seq<Cell>, ts: seq<Tree>, b: nat)
    requires ForestAt(cells, ts, b) && b < |cells|
    ensures ts != []
  {
  }

  lemma StartsHead(ts: seq<Tree>, b: nat)
    requires ts != []
    ensures Starts(ts, b) == [b] + Starts(ts[1..], b + Size(ts[0]))
  {
  }

  /** The pending trees have all the cells that are left. */
  lemma {:induction false} ForestRoom(cells: seq<Cell>, ts: seq<Tree>, b: nat)
    requires ForestAt(cells, ts, b)
    ensures b + |ts| <= b + Sizes(ts) == |cells|
    decreases ts
  {
    hide TreeAt;
    if ts != [] {
      ForestRoom(cells, ts[1..], b + Size(ts[0]));
      SizesFront(ts);
    }
  }

  lemma NamesNext(cells: seq<Cell>, k: nat)
    requires k < |cells|
    ensures Names(cells[..k + 1]) == Names(cells[..k]) + if cells[k].ctype == CName then cells[k].name + [NUL] else ""
  {
    assert cells[..k + 1][..k] == cells[..k];
  }

  lemma PlainName(cells: seq<Cell>, k: nat)
    requires PlainNames(cells) && k < |cells|
    ensures NoNul(cells[k].name)
  {
  }

  lemma {:induction false} NamesConcat(xs: seq<Cell>, ys: seq<Cell>)
    ensures Names(xs + ys) == Names(xs) + Names(ys)
  {
    if ys == [] {
      assert xs + ys == xs;
    } else {
      var n := |ys| - 1;
      assert (xs + ys)[..|xs + ys| - 1] == xs + ys[..n];
      NamesConcat(xs, ys[..n]);
    }
  }

  /** The string area is just long enough. */
  lemma {:induction false} NamesLength(t: Tree, b: nat, sib: nat)
    ensures |Names(Flat(t, b, sib))| == StringsLength(t)
    decreases t, 0
  {
    var root := [RootCell(t, b, sib)];
    assert root[..0] == [];
    match t
    case Leaf(_, _) =>
    case Node(_, items, _) =>
      NamesConcat(root, FlatItems(items, b + 1, 0));
      ItemsNamesLength(items, b + 1, 0);
  }

  lemma {:induction false} ItemsNamesLength(items: seq<Tree>, b: nat, sib: nat)
    ensures |Names(FlatItems(items, b, sib))| == ItemsLength(items)
    decreases items, 1
  {
    if items != [] {
      var n := |items| - 1;
      var l := LastStart(items, b);
      NamesConcat(FlatItems(items[..n], b, l), Flat(items[n], l, sib));
      ItemsNamesLength(items[..n], b, l);
      NamesLength(items[n], l, sib);
    }
  }

  // ------------------------------------------------------------------ pre-order

  datatype Visit = Visit(ctype: CType, quant: Quant, name: string, numchildren: nat)

  /** A tree in pre-order. */
  function Preorder(t: Tree): seq<Visit>
    decreases t, 0
  {
    match t
    case Leaf(n, q) => [Visit(CName, q, n, 0)]
    case Node(k, items, q) => [Visit(TypeOf(k), q, "", |items|)] + PreorderAll(items)
  }

  function PreorderAll(items: seq<Tree>): seq<Visit>
    decreases items, 1
  {
    if items == [] then [] else PreorderAll(items[..|items| - 1]) + Preorder(items[|items| - 1])
  }

  function VisitOf(c: Cell): Visit {
    Visit(c.ctype, c.quant, c.name, c.childcnt)
  }

  function Visits(cells: seq<Cell>): seq<Visit> {
    seq(|cells|, i requires 0 <= i < |cells| => VisitOf(cells[i]))
  }

  /** The scaffold, and with it the result, lists the tree in pre-order. */
  lemma {:induction false} FlatIsPreorder(t: Tree, b: nat, sib: nat)
    ensures Visits(Flat(t, b, sib)) == Preorder(t)
    decreases t, 0
  {
    match t
    case Leaf(_, _) =>
    case Node(_, items, _) =>
      ItemsPreorder(items, b + 1, 0);
      assert Visits([RootCell(t, b, sib)] + FlatItems(items, b + 1, 0)) == [VisitOf(RootCell(t, b, sib))] + Visits(FlatItems(items, b + 1, 0));
  }

  lemma {:induction false} ItemsPreorder(items: seq<Tree>, b: nat, sib: nat)
    ensures Visits(FlatItems(items, b, sib)) == PreorderAll(items)
    decreases items, 1
  {
    if items != [] {
      var n := |items| - 1;
      var l := LastStart(items, b);
      ItemsPreorder(items[..n], b, l);
      FlatIsPreorder(items[n], l, sib);
      assert Visits(FlatItems(items[..n], b, l) + Flat(items[n], l, sib)) == Visits(FlatItems(items[..n], b, l)) + Visits(Flat(items[n], l, sib));
    }
  }

  // ------------------------------------------------------------------ the documented children array

  /** expat.h promises that a group's `children` are an array of its children. The cells from there on
      are just the children, one each, if and only if all but the last have none of their own. */
  lemma {:induction false} ChildrenAreAnArray(items: seq<Tree>, b: nat)
    ensures |Starts(items, b + 1)| == |items|
    ensures IsRow(Starts(items, b + 1), b + 1) <==> OnlyLastGrows(items)
  {
    hide Starts, Size, Sizes;
    StartsAt(items, b + 1);
    var starts := Starts(items, b + 1);
    if OnlyLastGrows(items) {
      forall i | 0 <= i < |items|
        ensures starts[i] == b + 1 + i
      {
        OnesSum(items, i);
      }
    }
    if IsRow(starts, b + 1) {
      forall i | 0 <= i < |items| - 1
        ensures Size(items[i]) == 1
      {
        var j := i + 1;
        assert starts[j] == b + 1 + j && starts[i] == b + 1 + i;
        SizesNext(items, i);
      }
    }
  }

  predicate IsRow(starts: seq<nat>, b: nat) {
    forall i :: 0 <= i < |starts| ==> starts[i] == b + i
  }

  /** Only the last item may have more than its own cell. */
  predicate OnlyLastGrows(items: seq<Tree>) {
    forall i :: 0 <= i < |items| - 1 ==> Size(items[i]) == 1
  }

  lemma SizesNext(items: seq<Tree>, i: nat)
    requires i < |items|
    ensures Sizes(items[..i + 1]) == Sizes(items[..i]) + Size(items[i]) && Sizes([]) == 0
  {
    assert items[..i + 1][..i] == items[..i];
  }

  lemma {:induction false} StartsAt(items: seq<Tree>, b: nat)
    ensures |Starts(items, b)| == |items|
    ensures forall i :: 0 <= i < |items| ==> Starts(items, b)[i] == b + Sizes(items[..i])
    decreases |items|
  {
    StartsLength(items, b);
    if items != [] {
      StartsAt(items[1..], b + Size(items[0]));
      forall i | 0 <= i < |items|
        ensures Starts(items, b)[i] == b + Sizes(items[..i])
      {
        if i > 0 {
          SizesFront(items[..i]);
          assert items[..i][1..] == items[1..][..i - 1];
        }
      }
    }
  }

  lemma {:induction false} OnesSum(items: seq<Tree>, n: nat)
    requires n < |items| && OnlyLastGrows(items)
    ensures Sizes(items[..n]) == n
  {
    hide Size, Sizes;
    if n > 0 {
      OnesSum(items, n - 1);
      SizesNext(items, n - 1);
    } else {
      SizesNext(items, 0);
      assert items[..0] == [];
    }
  }

  /** A group whose first child is a group with a member: the second cell of the supposed array is
      that member and not the second child. */
  lemma ChildrenExample()
    ensures var t := Node(Seq, [Node(Seq, [Leaf("a", One)], One), Leaf("b", One)], One);
            && Model(t) && |Flat(t, 0, 0)| > 2 && Visits(Flat(t, 0, 0))[2] == Visit(CName, One, "a", 0)
            && |Starts(t.items, 1)| == 2 && Starts(t.items, 1)[1] == 3
  {
    var inner := Node(Seq, [Leaf("a", One)], One);
    var t := Node(Seq, [inner, Leaf("b", One)], One);
    FlatIsPreorder(t, 0, 0);
    assert [Leaf("a", One)][..0] == [] && t.items[..1] == [inner] && [inner][..0] == [];
    assert PreorderAll([Leaf("a", One)]) == [Visit(CName, One, "a", 0)];
    assert Preorder(inner) == [Visit(CSeq, One, "", 1), Visit(CName, One, "a", 0)];
    assert PreorderAll([inner]) == Preorder(inner);
    assert Size(inner) == 2;
    StartsHead(t.items, 1);
    assert t.items[1..] == [Leaf("b", One)];
    StartsHead([Leaf("b", One)], 3);
    assert Particle(inner) && Particle(t);
  }

  // ------------------------------------------------------------------ the whole declaration

  /** The declaration's tokens after the element's name write this model, with blanks anywhere. */
  ghost predicate Writes(ts: seq<Token>, t: Tree) {
    Model(t) && NoBlanks(ts) == Print(t)
  }

  /** Reading a declaration: there is a scaffold exactly when the tokens write a model, and then it is
      the layout of that model. */
  method ReadDeclaration(ts: seq<Token>) returns (ok: bool, cells: seq<Cell>)
    ensures ok <==> exists t :: Writes(ts, t)
    ensures forall t :: Writes(ts, t) ==> cells == Flat(t, 0, 0)
  {
    hide Advance, Flat, Writes, Print, Model;
    var decl := new ElementDecl(INIT_GROUP_SIZE);
    cells := [];
    forall t
      ensures Writes(ts, t) <==> Read(ts) == Some(Done(t))
    {
      ReadsAs(ts, t);
    }
    for i := 0 to |ts|
      invariant fresh(decl) && decl.Valid() && Read(ts[..i]) == Some(decl.state)
    {
      assert ts[..i + 1][..i] == ts[..i];
      ok := decl.Next(ts[i]);
      if !ok {
        assert Read(ts[..i + 1]).None?;
        StaysRefused(ts, i + 1);
        return false, [];
      }
    }
    assert ts[..|ts|] == ts;
    ok := decl.handler == DeclClose && decl.scaffold != [];
    DeclEnds(decl);
    if ok {
      cells := decl.scaffold;
      assert Writes(ts, decl.state.model);
    }
  }

  lemma ReadsAs(ts: seq<Token>, t: Tree)
    ensures Writes(ts, t) <==> Read(ts) == Some(Done(t))
  {
    AcceptsExactlyPrintings(ts, t);
  }

  lemma {:induction false} StaysRefused(ts: seq<Token>, n: nat)
    requires n <= |ts| && Read(ts[..n]).None?
    ensures Read(ts).None?
    decreases |ts|
  {
    hide Advance;
    if n < |ts| {
      var m := |ts| - 1;
      assert ts[..m][..n] == ts[..n];
      StaysRefused(ts[..m], n);
    } else {
      assert ts[..n] == ts;
    }
  }

  lemma DeclEnds(decl: ElementDecl)
    requires decl.Valid()
    ensures decl.handler == DeclClose && decl.scaffold != [] <==> decl.state.Done?
    ensures decl.state.Done? ==> decl.scaffold == Flat(decl.state.model, 0, 0)
  {
    if decl.state.Done? { FlatSize(decl.state.model, 0, 0); }
  }
}
