/** The scaffold of a content model (expat/xmlparse.c): one array of cells linked by indices, filled
    while the declaration is read, and the two machines that fill it. */
module ContentScaffold {
  import opened Wrappers
  import opened ContentModel

  datatype CType = CMixed | CName | CChoice | CSeq

  /** CONTENT_SCAFFOLD; index zero is the root and, elsewhere, none. */
  datatype Cell = Cell(ctype: CType, quant: Quant, name: string, firstchild: nat, lastchild: nat, childcnt: nat, nextsib: nat)

  function TypeOf(k: Kind): CType {
    match k
    case Mixed => CMixed
    case Choice => CChoice
    case Seq => CSeq
  }

  // ------------------------------------------------------------------ the layout of a tree

  function Size(t: Tree): (n: nat)
    ensures n > 0
  {
    match t
    case Leaf(_, _) => 1
    case Node(_, items, _) => 1 + Sizes(items)
  }

  function Sizes(items: seq<Tree>): nat {
    if items == [] then 0 else Sizes(items[..|items| - 1]) + Size(items[|items| - 1])
  }

  /** Where the last of these items starts. */
  function LastStart(items: seq<Tree>, base: nat): nat
    requires items != []
  {
    base + Sizes(items[..|items| - 1])
  }

  function RootCell(t: Tree, base: nat, sib: nat): Cell {
    match t
    case Leaf(n, q) => Cell(CName, q, n, 0, 0, 0, sib)
    case Node(k, items, q) =>
      if items == [] then Cell(TypeOf(k), q, "", 0, 0, 0, sib)
      else Cell(TypeOf(k), q, "", base + 1, LastStart(items, base + 1), |items|, sib)
  }

  /** The cells of a tree whose root is at `base` and has the next sibling `sib`: the root, then the
      children's trees one after another. */
  function Flat(t: Tree, base: nat, sib: nat): seq<Cell>
    decreases t, 0
  {
    match t
    case Leaf(_, _) => [RootCell(t, base, sib)]
    case Node(_, items, _) => [RootCell(t, base, sib)] + FlatItems(items, base + 1, 0)
  }

  function FlatItems(items: seq<Tree>, base: nat, sib: nat): seq<Cell>
    decreases items, 1
  {
    if items == [] then [] else
    var b := LastStart(items, base);
    FlatItems(items[..|items| - 1], base, b) + Flat(items[|items| - 1], b, sib)
  }

  lemma {:induction false} FlatSize(t: Tree, base: nat, sib: nat)
    ensures |Flat(t, base, sib)| == Size(t) && Flat(t, base, sib)[0] == RootCell(t, base, sib)
    decreases t, 0
  {
    if t.Node? { FlatItemsSize(t.items, base + 1, 0); }
  }

  lemma {:induction false} FlatItemsSize(items: seq<Tree>, base: nat, sib: nat)
    ensures |FlatItems(items, base, sib)| == Sizes(items)
    decreases items, 1
  {
    if items != [] {
      FlatItemsSize(items[..|items| - 1], base, LastStart(items, base));
      FlatSize(items[|items| - 1], LastStart(items, base), sib);
    }
  }

  /** An open group that has another open one as its last child. */
  function HangCells(g: Tree, b: nat): seq<Cell>
    requires g.Node?
  {
    var next := b + 1 + Sizes(g.items);
    [Cell(TypeOf(g.kind), g.quant, "", b + 1, next, |g.items| + 1, 0)] + FlatItems(g.items, b + 1, next)
  }

  predicate Nodes(open: seq<Tree>) {
    forall i :: 0 <= i < |open| ==> open[i].Node?
  }

  /** Open groups each of which has the next as its last child, the innermost having one to come. */
  function Hanging(open: seq<Tree>): seq<Cell>
    requires Nodes(open)
  {
    if open == [] then [] else
    var outer := Hanging(open[..|open| - 1]);
    outer + HangCells(open[|open| - 1], |outer|)
  }

  /** The scaffold while these groups are open. */
  function FlatOpen(open: seq<Tree>): seq<Cell>
    requires Groups(open)
  {
    var outer := Hanging(open[..|open| - 1]);
    outer + Flat(open[|open| - 1], |outer|, 0)
  }

  /** The cell of the group at depth `j`. */
  function IndexOf(open: seq<Tree>, j: nat): nat
    requires Nodes(open) && j <= |open|
  {
    |Hanging(open[..j])|
  }

  lemma {:induction false} HangSize(g: Tree, b: nat)
    requires g.Node?
    ensures |HangCells(g, b)| == 1 + Sizes(g.items)
  {
    FlatItemsSize(g.items, b + 1, b + 1 + Sizes(g.items));
  }

  /** Appending a child links it behind the last one and counts it. */
  function Linked(cells: seq<Cell>, parent: nat, next: nat): seq<Cell>
    requires parent < |cells| && cells[parent].lastchild < |cells|
  {
    var p := cells[parent];
    var cs := if p.lastchild != 0 then cells[p.lastchild := cells[p.lastchild].(nextsib := next)] else cells;
    cs[parent := cs[parent].(firstchild := if p.childcnt == 0 then next else p.firstchild, lastchild := next, childcnt := p.childcnt + 1)]
  }

  lemma {:induction false} LastSibling(items: seq<Tree>, base: nat, sib: nat)
    requires items != []
    ensures var cs, l := FlatItems(items, base, 0), Sizes(items[..|items| - 1]);
            l < |cs| && FlatItems(items, base, sib) == cs[l := cs[l].(nextsib := sib)]
  {
    hide Flat;
    var n := |items| - 1;
    var b := LastStart(items, base);
    FlatItemsSize(items[..n], base, b);
    FlatSize(items[n], b, 0);
    FlatSize(items[n], b, sib);
    OnlyRoot(items[n], b, sib);
  }

  lemma OnlyRoot(t: Tree, b: nat, sib: nat)
    ensures |Flat(t, b, 0)| > 0
    ensures Flat(t, b, sib) == Flat(t, b, 0)[0 := Flat(t, b, 0)[0].(nextsib := sib)]
  {
  }

  /** Linking a child to the innermost group makes it hang. */
  lemma {:induction false} LinkHangs(outer: seq<Cell>, g: Tree)
    requires g.Node?
    ensures var b := |outer|;
            var cells := outer + Flat(g, b, 0);
            && b < |cells| && cells[b].lastchild < |cells|
            && Linked(cells, b, |cells|) == outer + HangCells(g, b)
  {
    hide FlatItems, Sizes;
    var b := |outer|;
    var cells := outer + Flat(g, b, 0);
    FlatItemsSize(g.items, b + 1, 0);
    FlatItemsSize(g.items, b + 1, |cells|);
    assert cells[b] == RootCell(g, b, 0);
    if g.items == [] {
      EmptyItems(b + 1);
    } else {
      LastSibling(g.items, b + 1, |cells|);
      var l := Sizes(g.items[..|g.items| - 1]);
      assert cells[b].lastchild == b + 1 + l;
      assert cells[b + 1 + l] == FlatItems(g.items, b + 1, 0)[l];
    }
  }

  lemma EmptyItems(base: nat)
    ensures Sizes([]) == 0 && forall sib: nat :: FlatItems([], base, sib) == []
  {
  }

  /** A child that is complete makes the group whole again. */
  lemma {:induction false} ChildComplete(outer: seq<Cell>, g: Tree, t: Tree)
    requires g.Node?
    ensures var b := |outer|;
            outer + HangCells(g, b) + Flat(t, b + |HangCells(g, b)|, 0) == outer + Flat(AddTo(g, t), b, 0)
  {
    hide Flat, Sizes;
    var b := |outer|;
    var more := g.items + [t];
    assert more[..|more| - 1] == g.items;
    HangSize(g, b);
    NodeFlat(AddTo(g, t), b);
    var next := b + 1 + Sizes(g.items);
    assert FlatItems(more, b + 1, 0) == FlatItems(g.items, b + 1, next) + Flat(t, next, 0);
  }

  lemma NodeFlat(g: Tree, b: nat)
    requires g.Node?
    ensures Flat(g, b, 0) == [RootCell(g, b, 0)] + FlatItems(g.items, b + 1, 0)
  {
  }

  // ------------------------------------------------------------------ strings

  /** The names of a model with their terminators. */
  function StringsLength(t: Tree): nat {
    match t
    case Leaf(n, _) => |n| + 1
    case Node(_, items, _) => ItemsLength(items)
  }

  function ItemsLength(items: seq<Tree>): nat {
    if items == [] then 0 else ItemsLength(items[..|items| - 1]) + StringsLength(items[|items| - 1])
  }

  function OpenLength(open: seq<Tree>): nat {
    if open == [] then 0 else OpenLength(open[..|open| - 1]) + StringsLength(open[|open| - 1])
  }

  lemma {:induction false} LengthAdded(g: Tree, t: Tree)
    requires g.Node?
    ensures StringsLength(AddTo(g, t)) == StringsLength(g) + StringsLength(t)
  {
    assert AddTo(g, t).items[..|g.items|] == g.items;
  }

  // ------------------------------------------------------------------ what the actions do to the layout

  function WithTop(open: seq<Tree>, g: Tree): seq<Tree>
    requires open != []
  {
    open[|open| - 1 := g]
  }

  lemma NoneHanging()
    ensures Hanging([]) == []
  {
  }

  lemma {:induction false} HangingMore(open: seq<Tree>, g: Tree)
    requires Nodes(open) && g.Node?
    ensures Hanging(open + [g]) == Hanging(open) + HangCells(g, |Hanging(open)|)
  {
    assert (open + [g])[..|open|] == open;
  }

  /** The cell of the innermost group. */
  lemma {:induction false} TopCell(open: seq<Tree>)
    requires Groups(open)
    ensures var i := IndexOf(open, |open| - 1);
            i < |FlatOpen(open)| && FlatOpen(open)[i] == RootCell(open[|open| - 1], i, 0)
  {
    hide Flat, Hanging;
    FlatSize(open[|open| - 1], IndexOf(open, |open| - 1), 0);
  }

  /** A child linked to the innermost group. */
  lemma {:induction false} TopLinks(open: seq<Tree>)
    requires Groups(open)
    ensures var i, cells := IndexOf(open, |open| - 1), FlatOpen(open);
            i < |cells| && cells[i].lastchild < |cells| && Linked(cells, i, |cells|) == Hanging(open)
  {
    hide Flat, HangCells, Linked, Hanging;
    var n := |open| - 1;
    LinkHangs(Hanging(open[..n]), open[n]);
    HangingMore(open[..n], open[n]);
    assert open[..n] + [open[n]] == open;
  }

  lemma {:induction false} OpenedGroup(open: seq<Tree>)
    requires Nodes(open)
    ensures Groups(open + [NEW_GROUP])
    ensures FlatOpen(open + [NEW_GROUP]) == Hanging(open) + [Cell(CSeq, One, "", 0, 0, 0, 0)]
    ensures OpenLength(open + [NEW_GROUP]) == OpenLength(open)
    ensures IndexOf(open + [NEW_GROUP], |open|) == |Hanging(open)|
  {
    hide Hanging;
    assert (open + [NEW_GROUP])[..|open|] == open;
    EmptyItems(|Hanging(open)| + 1);
    NodeFlat(NEW_GROUP, |Hanging(open)|);
  }

  lemma {:induction false} OpenPlaces(open: seq<Tree>)
    requires Nodes(open)
    ensures Nodes(open + [NEW_GROUP])
    ensures forall j :: 0 <= j < |open| ==> IndexOf(open + [NEW_GROUP], j) == IndexOf(open, j) && (open + [NEW_GROUP])[j] == open[j]
  {
    hide Hanging;
    forall j | 0 <= j < |open|
      ensures IndexOf(open + [NEW_GROUP], j) == IndexOf(open, j)
    {
      assert (open + [NEW_GROUP])[..j] == open[..j];
    }
  }

  /** A change to the innermost group that leaves its items alone changes its one cell. */
  lemma {:induction false} Retyped(open: seq<Tree>, g: Tree)
    requires Groups(open) && g.Node? && g.items == open[|open| - 1].items
    ensures Groups(WithTop(open, g)) && OpenLength(WithTop(open, g)) == OpenLength(open)
    ensures var i := IndexOf(open, |open| - 1);
            i < |FlatOpen(open)| && FlatOpen(WithTop(open, g)) == FlatOpen(open)[i := RootCell(g, i, 0)]
  {
    hide Flat, Hanging;
    var n := |open| - 1;
    assert WithTop(open, g)[..n] == open[..n];
    NodeFlat(g, |Hanging(open[..n])|);
    NodeFlat(open[n], |Hanging(open[..n])|);
  }

  lemma LeafCell(t: Tree, b: nat)
    requires t.Leaf?
    ensures Flat(t, b, 0) == [Cell(CName, t.quant, t.name, 0, 0, 0, 0)] && StringsLength(t) == |t.name| + 1
  {
  }

  lemma NotMixed(a: State)
    requires StateOk(a) && Sound(a)
    ensures a.Have? ==> a.open[|a.open| - 1].kind != Mixed
  {
  }

  lemma SameTop(open: seq<Tree>, k: Kind)
    requires Groups(open) && open[|open| - 1].kind == k
    ensures WithTop(open, open[|open| - 1].(kind := k)) == open
  {
  }

  lemma {:induction false} SamePlaces(open: seq<Tree>, more: seq<Tree>)
    requires Nodes(open) && Nodes(more) && |open| == |more| > 0 && open[..|open| - 1] == more[..|open| - 1]
    ensures forall j :: 0 <= j < |open| ==> IndexOf(more, j) == IndexOf(open, j)
  {
    forall j | 0 <= j < |open|
      ensures IndexOf(more, j) == IndexOf(open, j)
    {
      assert more[..j] == more[..|open| - 1][..j] == open[..|open| - 1][..j] == open[..j];
    }
  }

  /** The innermost group with one more item that is complete. */
  lemma {:induction false} ItemCells(open: seq<Tree>, t: Tree)
    requires Groups(open)
    ensures Groups(WithItem(open, t))
    ensures FlatOpen(WithItem(open, t)) == Hanging(open) + Flat(t, |Hanging(open)|, 0)
    ensures OpenLength(WithItem(open, t)) == OpenLength(open) + StringsLength(t)
  {
    hide Flat, Hanging, HangCells;
    var n := |open| - 1;
    var outer := Hanging(open[..n]);
    assert WithItem(open, t)[..n] == open[..n];
    HangingMore(open[..n], open[n]);
    assert open[..n] + [open[n]] == open;
    ChildComplete(outer, open[n], t);
    LengthAdded(open[n], t);
  }

  lemma {:induction false} ItemPlaces(open: seq<Tree>, t: Tree, connectors: seq<Connector>)
    requires Groups(open) && |open| < |connectors|
    ensures Nodes(WithItem(open, t)) && |WithItem(open, t)| == |open|
    ensures forall j :: 0 <= j < |open| ==> IndexOf(WithItem(open, t), j) == IndexOf(open, j)
    ensures Connected(connectors, open, false) ==> Connected(connectors, WithItem(open, t), true)
  {
    hide Hanging;
    SamePlaces(open, WithItem(open, t));
  }

  /** Closing the innermost group. */
  lemma {:induction false} ClosedShape(open: seq<Tree>, t: Tree)
    requires Groups(open) && t.Node? && t.items == open[|open| - 1].items
    ensures if |open| == 1 then FlatOpen(WithTop(open, t)) == Flat(t, 0, 0) && OpenLength(open) == StringsLength(t)
            else
              var rest := open[..|open| - 1];
              && Groups(rest) && Groups(WithItem(rest, t))
              && FlatOpen(WithTop(open, t)) == FlatOpen(WithItem(rest, t)) && OpenLength(open) == OpenLength(WithItem(rest, t))
  {
    hide Flat, Hanging;
    var n := |open| - 1;
    assert WithTop(open, t)[..n] == open[..n];
    if n == 0 {
      NoneHanging();
      assert [] + Flat(t, 0, 0) == Flat(t, 0, 0);
    } else {
      ItemCells(open[..n], t);
    }
  }

  // ------------------------------------------------------------------ the two machines

  datatype Handler = Element1 | Element2 | Element3 | Element4 | Element5 | Element6 | Element7 | DeclClose

  datatype Role =
    | ElementNone | GroupOpen | GroupSequence | GroupChoice | GroupClose(quant: Quant)
    | ContentPcdata | ContentElement(quant: Quant) | ContentEmpty | ContentAny | RoleError

  datatype Connector = NoConnector | CommaConnector | PipeConnector

  const INIT_GROUP_SIZE: nat := 32

  /** The groups open in a state. */
  function OpenIn(a: State): seq<Tree> {
    match a
    case Opened => [NEW_GROUP]
    case Need(open) => open
    case Have(open) => open
    case MixedStart => [Node(Mixed, [], One)]
    case MixedNeed(names) => [Node(Mixed, names, One)]
    case MixedHave(names) => [Node(Mixed, names, One)]
    case _ => []
  }

  /** Some group is open. */
  predicate Live(a: State) {
    !a.AtStart? && !a.Done? && !a.Keyword?
  }

  function HandlerOf(a: State): Handler {
    match a
    case AtStart => Element1
    case Opened => Element2
    case MixedStart => Element3
    case MixedNeed(_) => Element4
    case MixedHave(_) => Element5
    case Need(_) => Element6
    case Have(_) => Element7
    case Done(_) => DeclClose
    case Keyword(_) => DeclClose
  }

  /** What the connector of a group says when it waits for an item, or has just had one. */
  function ConnectorOf(g: Tree, had: bool): Connector
    requires g.Node?
  {
    if g.kind == Choice then PipeConnector
    else if g.kind == Seq && |g.items| > (if had then 1 else 0) then CommaConnector
    else NoConnector
  }

  /** The connectors of the open groups; the innermost may have just had an item. */
  predicate Connected(connectors: seq<Connector>, open: seq<Tree>, had: bool)
    requires Nodes(open) && (open == [] || |open| < |connectors|)
  {
    forall j :: 0 <= j < |open| ==> connectors[j + 1] == ConnectorOf(open[j], had && j == |open| - 1)
  }

  class ElementDecl {
    var handler: Handler
    /** m_prologState.level */
    var level: nat
    var groupConnector: seq<Connector>
    var scaffold: seq<Cell>
    var scaffLevel: nat
    var scaffIndex: seq<nat>
    var contentStringLen: nat
    var inEldecl: bool

    ghost var state: State

    ghost predicate Valid()
      reads this
    {
      && StateOk(state) && Sound(state) && Nodes(OpenIn(state)) && handler == HandlerOf(state)
      && (state.AtStart? ==> Shape([], false))
      && (state.Done? ==> Finished(state.model))
      && (state.Keyword? ==> scaffold == [] && !inEldecl)
      && (Live(state) ==> Shape(OpenIn(state), state.Have?) && level == |OpenIn(state)| > 0)
    }

    /** The scaffold and the stacks beside it while these groups are open. */
    ghost predicate Shape(open: seq<Tree>, had: bool)
      reads this`groupConnector, this`scaffold, this`scaffLevel, this`scaffIndex, this`contentStringLen, this`inEldecl
    {
      && Nodes(open) && inEldecl && scaffLevel == |open| && contentStringLen == OpenLength(open)
      && (if open == [] then scaffold == [] else scaffold == FlatOpen(open) && |open| < |groupConnector|)
      && (|scaffIndex| == |groupConnector| || (scaffIndex == [] && open == []))
      && (forall j :: 0 <= j < |open| ==> scaffIndex[j] == IndexOf(open, j))
      && Connected(groupConnector, open, had)
    }

    ghost predicate Finished(t: Tree)
      reads this`scaffold, this`scaffLevel, this`contentStringLen, this`inEldecl
    {
      scaffold == Flat(t, 0, 0) && contentStringLen == StringsLength(t) && scaffLevel == 0 && !inEldecl
    }

    /** An element declaration after its name. */
    constructor (size: nat)
      ensures Valid() && state == AtStart
    {
      handler, level, scaffold, scaffLevel, contentStringLen, inEldecl := Element1, 0, [], 0, 0, true;
      groupConnector, scaffIndex := seq(size, _ => NoConnector), [];
      state := AtStart;
    }

    // ---------------------------------------------------------------- xmlrole.c

    /** The handlers element1 to element7: the next handler, the level and the role of the token. */
    method HandleToken(tok: Token) returns (role: Role)
      requires handler == Element7 ==> level > 0
      modifies this`handler, this`level
      ensures (handler, level, role) == Handled(old(handler), old(level), tok)
    {
      match handler {
        case Element1 =>
          match tok {
            case Blank => return ElementNone;
            case NameTok(name, q) =>
              if q == One && name == "EMPTY" {
                handler := DeclClose;
                return ContentEmpty;
              }
              if q == One && name == "ANY" {
                handler := DeclClose;
                return ContentAny;
              }
              return RoleError;
            case OpenParen =>
              handler := Element2;
              level := 1;
              return GroupOpen;
            case _ => return RoleError;
          }
        case Element2 =>
          match tok {
            case Blank => return ElementNone;
            case PoundName(name) =>
              if name == "PCDATA" {
                handler := Element3;
                return ContentPcdata;
              }
              return RoleError;
            case OpenParen =>
              level := 2;
              handler := Element6;
              return GroupOpen;
            case NameTok(_, q) =>
              handler := Element7;
              return ContentElement(q);
            case _ => return RoleError;
          }
        case Element3 =>
          match tok {
            case Blank => return ElementNone;
            case CloseParen(q) =>
              if q == One || q == Rep {
                handler := DeclClose;
                return GroupClose(q);
              }
              return RoleError;
            case Or =>
              handler := Element4;
              return ElementNone;
            case _ => return RoleError;
          }
        case Element4 =>
          match tok {
            case Blank => return ElementNone;
            case NameTok(_, q) =>
              if q == One {
                handler := Element5;
                return ContentElement(One);
              }
              return RoleError;
            case _ => return RoleError;
          }
        case Element5 =>
          match tok {
            case Blank => return ElementNone;
            case CloseParen(q) =>
              if q == Rep {
                handler := DeclClose;
                return GroupClose(Rep);
              }
              return RoleError;
            case Or =>
              handler := Element4;
              return ElementNone;
            case _ => return RoleError;
          }
        case Element6 =>
          match tok {
            case Blank => return ElementNone;
            case OpenParen =>
              level := level + 1;
              return GroupOpen;
            case NameTok(_, q) =>
              handler := Element7;
              return ContentElement(q);
            case _ => return RoleError;
          }
        case Element7 =>
          match tok {
            case Blank => return ElementNone;
            case CloseParen(q) =>
              level := level - 1;
              if level == 0 {
                handler := DeclClose;
              }
              return GroupClose(q);
            case Comma =>
              handler := Element6;
              return GroupSequence;
            case Or =>
              handler := Element6;
              return GroupChoice;
            case _ => return RoleError;
          }
        case DeclClose =>
          match tok {
            case Blank => return ElementNone;
            case _ => return RoleError;
          }
      }
    }

    // ---------------------------------------------------------------- xmlparse.c

    /** nextScaffoldPart */
    method NextScaffoldPart() returns (next: nat)
      requires scaffLevel > 0 ==>
        && scaffLevel <= |scaffIndex| && scaffIndex[scaffLevel - 1] < |scaffold|
        && scaffold[scaffIndex[scaffLevel - 1]].lastchild < |scaffold|
      modifies this`scaffold, this`scaffIndex
      ensures next == |old(scaffold)|
      ensures scaffIndex == if old(scaffIndex) == [] then seq(|groupConnector|, _ => 0) else old(scaffIndex)
      ensures |scaffold| == next + 1 && scaffold[next] == Cell(CSeq, One, "", 0, 0, 0, 0)
      ensures scaffold[..next] == if scaffLevel == 0 then old(scaffold) else Linked(old(scaffold), old(scaffIndex)[scaffLevel - 1], next)
    {
      next := |scaffold|;
      if scaffLevel > 0 {
        var parent := scaffIndex[scaffLevel - 1];
        var p := scaffold[parent];
        if p.lastchild != 0 {
          scaffold := scaffold[p.lastchild := scaffold[p.lastchild].(nextsib := next)];
        }
        if p.childcnt == 0 {
          scaffold := scaffold[parent := scaffold[parent].(firstchild := next)];
        }
        scaffold := scaffold[parent := scaffold[parent].(lastchild := next)];
        scaffold := scaffold[parent := scaffold[parent].(childcnt := p.childcnt + 1)];
      }
      if scaffIndex == [] {
        scaffIndex := seq(|groupConnector|, _ => 0);
      }
      // Type, quantifier and name of the new cell are set by the caller, the quantifier of a group
      // when it is closed.
      scaffold := scaffold + [Cell(CSeq, One, "", 0, 0, 0, 0)];
    }

    /** XML_ROLE_GROUP_OPEN */
    method OpenGroup(ghost open: seq<Tree>)
      requires Shape(open, false) && level == |open| + 1
      modifies this`groupConnector, this`scaffIndex, this`scaffold, this`scaffLevel
      ensures Shape(open + [NEW_GROUP], false)
    {
      hide FlatOpen, Hanging, OpenLength, IndexOf, Linked;
      GrowGroups(open);
      if open != [] { TopLinks(open); } else { NoneHanging(); }
      groupConnector := groupConnector[level := NoConnector];
      var myindex := NextScaffoldPart();
      scaffIndex := scaffIndex[scaffLevel := myindex];
      scaffLevel := scaffLevel + 1;
      scaffold := scaffold[myindex := scaffold[myindex].(ctype := CSeq)];
      OpenedGroup(open);
      assert scaffold == Hanging(open) + [Cell(CSeq, One, "", 0, 0, 0, 0)];
      OpenPlaces(open);
    }

    /** m_groupConnector and scaffIndex are doubled together, or made when there are none. */
    method GrowGroups(ghost open: seq<Tree>)
      requires Shape(open, false) && level == |open| + 1
      modifies this`groupConnector, this`scaffIndex
      ensures Shape(open, false) && level < |groupConnector|
    {
      hide FlatOpen, Hanging, OpenLength;
      if level >= |groupConnector| {
        if |groupConnector| > 0 {
          var groupSize := |groupConnector|;
          groupConnector := groupConnector + seq(groupSize, _ => NoConnector);
          if scaffIndex != [] {
            scaffIndex := scaffIndex + seq(groupSize, _ => 0);
          }
        } else {
          groupConnector := seq(INIT_GROUP_SIZE, _ => NoConnector);
        }
      }
    }

    /** XML_ROLE_GROUP_SEQUENCE */
    method Sequence(ghost open: seq<Tree>) returns (ok: bool)
      requires Shape(open, true) && open != [] && level == |open|
      requires open[|open| - 1].kind != Mixed && open[|open| - 1].items != []
      modifies this`groupConnector
      ensures ok <==> open[|open| - 1].kind != Choice
      ensures ok ==> Shape(open, false)
    {
      hide FlatOpen, Hanging, OpenLength;
      if groupConnector[level] == PipeConnector {
        return false;
      }
      groupConnector := groupConnector[level := CommaConnector];
      return true;
    }

    /** XML_ROLE_GROUP_CHOICE */
    method Choose(ghost open: seq<Tree>) returns (ok: bool)
      requires Shape(open, true) && open != [] && level == |open|
      requires open[|open| - 1].kind != Mixed && open[|open| - 1].items != []
      modifies this`groupConnector, this`scaffold
      ensures ok <==> !(open[|open| - 1].kind == Seq && |open[|open| - 1].items| > 1)
      ensures ok ==> Shape(WithTop(open, open[|open| - 1].(kind := Choice)), false)
    {
      hide FlatOpen, Hanging, OpenLength, Flat;
      if groupConnector[level] == CommaConnector {
        return false;
      }
      ghost var n := |open| - 1;
      ghost var g := open[n];
      TopCell(open);
      Retyped(open, g.(kind := Choice));
      var top := scaffIndex[scaffLevel - 1];
      if groupConnector[level] == NoConnector && scaffold[top].ctype != CMixed {
        scaffold := scaffold[top := scaffold[top].(ctype := CChoice)];
      } else {
        SameTop(open, Choice);
      }
      groupConnector := groupConnector[level := PipeConnector];
      SamePlaces(open, WithTop(open, g.(kind := Choice)));
      return true;
    }

    /** XML_ROLE_CONTENT_PCDATA */
    method Pcdata()
      requires Shape([NEW_GROUP], false)
      modifies this`scaffold
      ensures Shape([Node(Mixed, [], One)], false)
    {
      hide FlatOpen, Hanging, OpenLength, Flat;
      TopCell([NEW_GROUP]);
      Retyped([NEW_GROUP], Node(Mixed, [], One));
      var top := scaffIndex[scaffLevel - 1];
      scaffold := scaffold[top := scaffold[top].(ctype := CMixed)];
      assert WithTop([NEW_GROUP], Node(Mixed, [], One)) == [Node(Mixed, [], One)];
      SamePlaces([NEW_GROUP], [Node(Mixed, [], One)]);
    }

    /** The roles of a name in a model. */
    method Element(name: string, quant: Quant, ghost open: seq<Tree>)
      requires Shape(open, false) && open != []
      modifies this`scaffIndex, this`scaffold, this`contentStringLen
      ensures Shape(WithItem(open, Leaf(name, quant)), true)
    {
      hide FlatOpen, Hanging, OpenLength, Flat;
      ghost var leaf := Leaf(name, quant);
      TopLinks(open);
      var myindex := NextScaffoldPart();
      scaffold := scaffold[myindex := scaffold[myindex].(ctype := CName)];
      scaffold := scaffold[myindex := scaffold[myindex].(quant := quant)];
      scaffold := scaffold[myindex := scaffold[myindex].(name := name)];
      contentStringLen := contentStringLen + (|name| + 1);
      assert scaffold == Hanging(open) + [Cell(CName, quant, name, 0, 0, 0, 0)];
      ItemCells(open, leaf);
      LeafCell(leaf, myindex);
      ItemPlaces(open, leaf, groupConnector);
    }

    /** The roles of a closing parenthesis. */
    method CloseGroup(quant: Quant, ghost open: seq<Tree>, ghost a: State)
      requires StateOk(a) && open == OpenIn(a) && Groups(open) && (a.MixedStart? || a.MixedHave? || a.Have?)
      requires Shape(open, a.Have?)
      modifies this`scaffold, this`scaffLevel, this`inEldecl
      ensures if |open| == 1 then Finished(Closed(open[0], quant))
              else Shape(WithItem(open[..|open| - 1], Closed(open[|open| - 1], quant)), true)
    {
      hide FlatOpen, Hanging, OpenLength, Flat;
      if !a.Have? { MixedSame(open); }
      ghost var n := |open| - 1;
      ghost var t := Closed(open[n], quant);
      TopCell(open);
      Retyped(open, t);
      scaffLevel := scaffLevel - 1;
      var top := scaffIndex[scaffLevel];
      scaffold := scaffold[top := scaffold[top].(quant := quant)];
      assert scaffold == FlatOpen(WithTop(open, t));
      ClosedShape(open, t);
      if scaffLevel == 0 {
        inEldecl := false;
      } else {
        ItemPlaces(open[..n], t, groupConnector);
        assert forall j :: 0 <= j < n ==> open[..n][..j] == open[..j];
      }
    }

    /** In a mixed model the connector is never set. */
    lemma MixedSame(open: seq<Tree>)
      requires |open| == 1 && open[0].Node? && open[0].kind == Mixed
      ensures Shape(open, true) <==> Shape(open, false)
    {
      hide FlatOpen, OpenLength, IndexOf;
    }

    /** One token of the declaration: it is accepted if and only if the machine on trees accepts it. */
    method Next(tok: Token) returns (ok: bool)
      requires Valid()
      modifies this
      ensures ok <==> Advance(old(state), tok).Some?
      ensures ok ==> Valid() && state == Advance(old(state), tok).value
    {
      hide Shape, Finished, Sound, WithItem, WithTop, Closed, Advance, Handled, HandlerOf, OpenIn, StateOk, Leads;
      ghost var a := state;
      RoleMeans(a, tok, level);
      StepSound(a, tok);
      var role := HandleToken(tok);
      ok := Act(tok, role, a);
      if ok { state := Advance(a, tok).value; }
    }

    /** The switch of doProlog on the role. */
    method Act(tok: Token, role: Role, ghost a: State) returns (ok: bool)
      requires StateOk(a) && Nodes(OpenIn(a)) && Leads(a, tok, role, level)
      requires Live(a) && (role.GroupSequence? || role.GroupChoice?) ==> level == |OpenIn(a)|
      requires a.AtStart? ==> Shape([], false)
      requires a.Done? ==> Finished(a.model)
      requires a.Keyword? ==> scaffold == [] && !inEldecl
      requires Live(a) ==> Shape(OpenIn(a), a.Have?)
      requires a.Opened? ==> OpenIn(a) == [NEW_GROUP]
      modifies this`groupConnector, this`scaffold, this`scaffLevel, this`scaffIndex, this`contentStringLen, this`inEldecl
      ensures ok <==> Advance(a, tok).Some?
      ensures ok ==> var b := Advance(a, tok).value;
                     && (b.AtStart? ==> Shape([], false)) && (b.Done? ==> Finished(b.model))
                     && (b.Keyword? ==> scaffold == [] && !inEldecl) && (Live(b) ==> Shape(OpenIn(b), b.Have?))
    {
      hide Shape, Finished, WithItem, WithTop, Closed, Advance, OpenIn, StateOk;
      OpenInKnown(a);
      ghost var open := OpenIn(a);
      ok := true;
      match role {
        case RoleError => return false;
        case ElementNone =>
        case GroupOpen => OpenGroup(open);
        case GroupSequence => ok := Sequence(open);
        case GroupChoice => ok := Choose(open);
        case ContentPcdata => Pcdata();
        case ContentElement(q) => ElementNamed(tok.name, q, a);
        case GroupClose(q) => CloseGroup(q, open, a);
        case ContentEmpty => EndEldecl();
        case ContentAny => EndEldecl();
      }
    }

    lemma OpenInKnown(a: State)
      ensures OpenIn(MixedStart) == [Node(Mixed, [], One)] && OpenIn(AtStart) == []
      ensures forall open :: OpenIn(Need(open)) == open && OpenIn(Have(open)) == open
    {
    }

    /** XML_ROLE_CONTENT_EMPTY and XML_ROLE_CONTENT_ANY */
    method EndEldecl()
      requires Shape([], false)
      modifies this`inEldecl
      ensures scaffold == [] && !inEldecl
    {
      inEldecl := false;
    }

    method ElementNamed(name: string, quant: Quant, ghost a: State)
      requires a.Opened? || a.Need? || a.MixedNeed?
      requires StateOk(a) && Nodes(OpenIn(a)) && Shape(OpenIn(a), false)
      modifies this`scaffIndex, this`scaffold, this`contentStringLen
      ensures Groups(OpenIn(a)) && Shape(WithItem(OpenIn(a), Leaf(name, quant)), !a.MixedNeed?)
    {
      hide Shape;
      Element(name, quant, OpenIn(a));
      if a.MixedNeed? { MixedSame(WithItem(OpenIn(a), Leaf(name, quant))); }
    }
  }

  lemma StepSound(a: State, tok: Token)
    requires StateOk(a) && Sound(a)
    ensures Advance(a, tok).Some? ==>
      Sound(Advance(a, tok).value) && StateOk(Advance(a, tok).value) && Nodes(OpenIn(Advance(a, tok).value))
  {
    hide Advance, Sound;
    if Advance(a, tok).Some? {
      if tok == Blank { BlankStays(a); } else { StepPrints(a, tok); }
    }
  }

  /** What the role of a token says about the state it leads to. */
  ghost predicate Leads(a: State, tok: Token, role: Role, level: nat)
    requires StateOk(a) && Nodes(OpenIn(a))
  {
    var r, open := Advance(a, tok), OpenIn(a);
    match role
    case RoleError => r.None?
    case ElementNone =>
      r == Some(a) || (r.Some? && Live(a) && Live(r.value) && OpenIn(r.value) == open && r.value.Have? == a.Have?)
    case GroupOpen => r.Some? && !a.Have? && level == |open| + 1 && Live(r.value) && !r.value.Have? && OpenIn(r.value) == open + [NEW_GROUP]
      && (Live(a) || (a.AtStart? && open == []))
    case GroupSequence =>
      && a.Have? && Groups(open) && open[|open| - 1].kind != Mixed && open[|open| - 1].items != []
      && (r.Some? <==> open[|open| - 1].kind != Choice)
      && (r.Some? ==> r.value == Need(open))
    case GroupChoice =>
      && a.Have? && Groups(open) && open[|open| - 1].kind != Mixed && open[|open| - 1].items != []
      && (r.None? <==> open[|open| - 1].kind == Seq && |open[|open| - 1].items| > 1)
      && (r.Some? ==> r.value == Need(WithTop(open, open[|open| - 1].(kind := Choice))))
    case ContentPcdata => a.Opened? && open == [NEW_GROUP] && r == Some(MixedStart)
    case ContentElement(q) =>
      && (a.Opened? || a.Need? || a.MixedNeed?) && tok.NameTok? && tok.quant == q
      && Groups(open) && r.Some? && Live(r.value) && OpenIn(r.value) == WithItem(open, Leaf(tok.name, q)) && r.value.Have? == !a.MixedNeed?
    case GroupClose(q) =>
      && (a.MixedStart? || a.MixedHave? || a.Have?) && Groups(open)
      && var n := |open| - 1;
         r == Some(if n == 0 then Done(Closed(open[0], q)) else Have(WithItem(open[..n], Closed(open[n], q))))
    case ContentEmpty => a.AtStart? && r.Some? && r.value.Keyword?
    case ContentAny => a.AtStart? && r.Some? && r.value.Keyword?
  }

  /** The handler, the level and the role fit the state that the token leads to. */
  ghost predicate Fitting(a: State, tok: Token, level: nat)
    requires StateOk(a) && Nodes(OpenIn(a))
  {
    var (h, l, role) := Handled(HandlerOf(a), level, tok);
    && Leads(a, tok, role, l) && (role.GroupSequence? || role.GroupChoice? ==> l == level)
    && (Advance(a, tok).Some? ==>
          && h == HandlerOf(Advance(a, tok).value)
          && (Live(Advance(a, tok).value) ==> l == |OpenIn(Advance(a, tok).value)| > 0))
  }

  lemma HaveFits(a: State, tok: Token, level: nat)
    requires a.Have? && StateOk(a) && level == |a.open| && a.open[|a.open| - 1].kind != Mixed
    ensures Nodes(OpenIn(a)) && Fitting(a, tok, level)
  {
  }

  lemma NeedFits(a: State, tok: Token, level: nat)
    requires a.Need? && StateOk(a) && level == |a.open|
    ensures Nodes(OpenIn(a)) && Fitting(a, tok, level)
  {
  }

  lemma EndsFit(a: State, tok: Token, level: nat)
    requires a.AtStart? || a.Done? || a.Keyword?
    ensures StateOk(a) && Nodes(OpenIn(a)) && Fitting(a, tok, level)
  {
    assert [] + [NEW_GROUP] == [NEW_GROUP];
  }

  lemma OpenedFits(tok: Token)
    ensures Fitting(Opened, tok, 1)
  {
    hide WithItem, AddTo;
    assert [NEW_GROUP] + [NEW_GROUP] == [NEW_GROUP, NEW_GROUP];
    if tok.NameTok? { OneItemGroup(NEW_GROUP, Leaf(tok.name, tok.quant)); }
  }

  lemma OneItemGroup(g: Tree, t: Tree)
    requires g.Node?
    ensures WithItem([g], t) == [AddTo(g, t)] && AddTo(g, t) == Node(g.kind, g.items + [t], g.quant)
  {
  }

  lemma MixedNeedFits(names: seq<Tree>, tok: Token)
    ensures Fitting(MixedNeed(names), tok, 1)
  {
    hide WithItem, AddTo;
    if tok.NameTok? { OneItemGroup(Node(Mixed, names, One), Leaf(tok.name, One)); }
  }

  lemma MixedFits(a: State, tok: Token)
    requires a.MixedStart? || a.MixedHave?
    ensures StateOk(a) && Nodes(OpenIn(a)) && Fitting(a, tok, 1)
  {
    hide WithItem, AddTo;
  }

  lemma {:induction false} RoleMeans(a: State, tok: Token, level: nat)
    requires StateOk(a) && Sound(a) && Nodes(OpenIn(a)) && (Live(a) ==> level == |OpenIn(a)| > 0)
    ensures Fitting(a, tok, level)
    ensures HandlerOf(a) == Element7 ==> level > 0
    ensures a.Opened? ==> OpenIn(a) == [NEW_GROUP]
    ensures OpenIn(MixedStart) == [Node(Mixed, [], One)] && OpenIn(AtStart) == []
    ensures forall open :: OpenIn(Need(open)) == open && OpenIn(Have(open)) == open
  {
    hide Sound, Fitting;
    NotMixed(a);
    match a
    case Have(_) => HaveFits(a, tok, level);
    case Need(_) => NeedFits(a, tok, level);
    case MixedStart => MixedFits(a, tok);
    case MixedNeed(names) => MixedNeedFits(names, tok);
    case MixedHave(_) => MixedFits(a, tok);
    case Opened => OpenedFits(tok);
    case _ => EndsFit(a, tok, level);
  }

  function Handled(h: Handler, level: nat, tok: Token): (Handler, nat, Role) {
    if tok == Blank then (h, level, ElementNone) else
    match h
    case Element1 =>
      if tok == OpenParen then (Element2, 1, GroupOpen)
      else if tok == NameTok("EMPTY", One) then (DeclClose, level, ContentEmpty)
      else if tok == NameTok("ANY", One) then (DeclClose, level, ContentAny)
      else (h, level, RoleError)
    case Element2 =>
      if tok == PoundName("PCDATA") then (Element3, level, ContentPcdata)
      else if tok == OpenParen then (Element6, 2, GroupOpen)
      else if tok.NameTok? then (Element7, level, ContentElement(tok.quant))
      else (h, level, RoleError)
    case Element3 =>
      if tok == CloseParen(One) || tok == CloseParen(Rep) then (DeclClose, level, GroupClose(tok.quant))
      else if tok == Or then (Element4, level, ElementNone)
      else (h, level, RoleError)
    case Element4 =>
      if tok.NameTok? && tok.quant == One then (Element5, level, ContentElement(One)) else (h, level, RoleError)
    case Element5 =>
      if tok == CloseParen(Rep) then (DeclClose, level, GroupClose(Rep))
      else if tok == Or then (Element4, level, ElementNone)
      else (h, level, RoleError)
    case Element6 =>
      if tok == OpenParen then (Element6, level + 1, GroupOpen)
      else if tok.NameTok? then (Element7, level, ContentElement(tok.quant))
      else (h, level, RoleError)
    case Element7 =>
      if tok.CloseParen? && level > 0 then (if level == 1 then DeclClose else Element7, level - 1, GroupClose(tok.quant))
      else if tok == Comma then (Element6, level, GroupSequence)
      else if tok == Or then (Element6, level, GroupChoice)
      else (h, level, RoleError)
    case DeclClose => (h, level, RoleError)
  }
}
