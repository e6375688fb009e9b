/** Element content models, sections 3.2.1 and 3.2.2 of XML 1.0: trees, how they are written, and the
    machine of handlers element1 to element7 (expat/xmlrole.c) with the group rules of doProlog
    (expat/xmlparse.c), on the trees it stands for. */
module ContentModel {
  import opened Wrappers

  datatype Kind = Mixed | Choice | Seq
  datatype Quant = One | Opt | Rep | Plus
  datatype Tree = Leaf(name: string, quant: Quant) | Node(kind: Kind, items: seq<Tree>, quant: Quant)

  datatype Token =
    | OpenParen | CloseParen(quant: Quant) | NameTok(name: string, quant: Quant) | PoundName(name: string)
    | Comma | Or | Blank | OtherTok

  // ------------------------------------------------------------------ what the standard allows

  /** A content particle: a name, a choice of at least two, or a sequence of at least one. */
  predicate Particle(t: Tree) {
    t.Node? ==>
      && t.kind != Mixed && t.items != [] && (t.kind == Choice ==> |t.items| >= 2)
      && forall i :: 0 <= i < |t.items| ==> Particle(t.items[i])
  }

  predicate PlainLeaf(t: Tree) {
    t.Leaf? && t.quant == One
  }

  /** A whole model: a group, or a mixed one whose names repeat if there are any. */
  predicate Model(t: Tree) {
    && t.Node?
    && (t.kind == Mixed ==>
          && (t.quant == Rep || (t.quant == One && t.items == []))
          && forall i :: 0 <= i < |t.items| ==> PlainLeaf(t.items[i]))
    && (t.kind != Mixed ==> Particle(t))
  }

  function Separator(k: Kind): Token {
    if k == Seq then Comma else Or
  }

  function Print(t: Tree): seq<Token>
    decreases t, 0
  {
    match t
    case Leaf(n, q) => [NameTok(n, q)]
    case Node(Mixed, items, q) => [OpenParen, PoundName("PCDATA")] + Alternatives(items) + [CloseParen(q)]
    case Node(k, items, q) => [OpenParen] + PrintItems(items, k) + [CloseParen(q)]
  }

  function PrintItems(items: seq<Tree>, k: Kind): seq<Token>
    decreases items, 1
  {
    if items == [] then []
    else
      var last := items[|items| - 1];
      if |items| == 1 then Print(last) else PrintItems(items[..|items| - 1], k) + [Separator(k)] + Print(last)
  }

  function Alternatives(items: seq<Tree>): seq<Token>
    decreases items, 1
  {
    if items == [] then [] else
    Alternatives(items[..|items| - 1]) + [Or] + Print(items[|items| - 1])
  }

  function NoBlanks(ts: seq<Token>): seq<Token> {
    if ts == [] then [] else
    NoBlanks(ts[..|ts| - 1]) + if ts[|ts| - 1] == Blank then [] else [ts[|ts| - 1]]
  }

  // ------------------------------------------------------------------ the machine

  /** What has been read: the handler in charge and the groups that are open, the innermost last. */
  datatype State =
    | AtStart | Opened | Need(open: seq<Tree>) | Have(open: seq<Tree>)
    | MixedStart | MixedNeed(names: seq<Tree>) | MixedHave(names: seq<Tree>)
    | Done(model: Tree) | Keyword(any: bool)

  const NEW_GROUP := Node(Seq, [], One)

  /** An open group with one more item. */
  function AddTo(g: Tree, t: Tree): Tree
    requires g.Node?
  {
    g.(items := g.items + [t])
  }

  function Closed(g: Tree, q: Quant): Tree
    requires g.Node?
  {
    Node(g.kind, g.items, q)
  }

  predicate Groups(open: seq<Tree>) {
    open != [] && forall i :: 0 <= i < |open| ==> open[i].Node?
  }

  function WithItem(open: seq<Tree>, t: Tree): seq<Tree>
    requires Groups(open)
  {
    open[|open| - 1 := AddTo(open[|open| - 1], t)]
  }

  /** A separator, or an item, or the end of the group: doProlog refuses to mix the separators. */
  function AfterItem(open: seq<Tree>, tok: Token): Option<State>
    requires Groups(open)
  {
    var n := |open| - 1;
    var top := open[n];
    match tok
    case CloseParen(q) =>
      if n == 0 then Some(Done(Closed(top, q)))
      else Some(Have(WithItem(open[..n], Closed(top, q))))
    case Comma => if top.kind == Choice then None else Some(Need(open))
    case Or => if top.kind == Seq && |top.items| > 1 then None else Some(Need(open[n := top.(kind := Choice)]))
    case _ => None
  }

  function StateOk(a: State): bool {
    (a.Need? || a.Have? ==> Groups(a.open)) && (a.Have? ==> a.open[|a.open| - 1].items != [])
  }

  function Advance(a: State, tok: Token): (r: Option<State>)
    requires StateOk(a)
    ensures r.Some? ==> StateOk(r.value)
  {
    if tok == Blank then Some(a) else
    match a
    case AtStart =>
      if tok == OpenParen then Some(Opened)
      else if tok == NameTok("EMPTY", One) then Some(Keyword(false))
      else if tok == NameTok("ANY", One) then Some(Keyword(true))
      else None
    case Opened =>
      if tok == PoundName("PCDATA") then Some(MixedStart)
      else if tok == OpenParen then Some(Need([NEW_GROUP, NEW_GROUP]))
      else if tok.NameTok? then Some(Have([AddTo(NEW_GROUP, Leaf(tok.name, tok.quant))]))
      else None
    case Need(open) =>
      if tok == OpenParen then Some(Need(open + [NEW_GROUP]))
      else if tok.NameTok? then Some(Have(WithItem(open, Leaf(tok.name, tok.quant))))
      else None
    case Have(open) => AfterItem(open, tok)
    case MixedStart =>
      if tok == CloseParen(One) || tok == CloseParen(Rep) then Some(Done(Node(Mixed, [], tok.quant)))
      else if tok == Or then Some(MixedNeed([]))
      else None
    case MixedNeed(names) =>
      if tok.NameTok? && tok.quant == One then Some(MixedHave(names + [Leaf(tok.name, One)])) else None
    case MixedHave(names) =>
      if tok == CloseParen(Rep) then Some(Done(Node(Mixed, names, Rep)))
      else if tok == Or then Some(MixedNeed(names))
      else None
    case Done(_) => None
    case Keyword(_) => None
  }

  function Read(ts: seq<Token>): (r: Option<State>)
    ensures r.Some? ==> StateOk(r.value)
  {
    if ts == [] then Some(AtStart) else
    var before := Read(ts[..|ts| - 1]);
    if before.None? then None else Advance(before.value, ts[|ts| - 1])
  }

  // ------------------------------------------------------------------ everything accepted is a printing

  /** An open group that waits for its next item. */
  function PrintWaiting(g: Tree): seq<Token>
    requires g.Node?
  {
    [OpenParen] + PrintItems(g.items, g.kind) + if g.items == [] then [] else [Separator(g.kind)]
  }

  function PrintOpen(open: seq<Tree>): seq<Token>
    requires forall i :: 0 <= i < |open| ==> open[i].Node?
  {
    if open == [] then [] else PrintOpen(open[..|open| - 1]) + PrintWaiting(open[|open| - 1])
  }

  /** The tokens that lead to a state. */
  function PrintState(a: State): seq<Token>
    requires StateOk(a)
  {
    match a
    case AtStart => []
    case Opened => [OpenParen]
    case Need(open) => PrintOpen(open)
    case Have(open) =>
      var g := open[|open| - 1];
      PrintOpen(open[..|open| - 1]) + ([OpenParen] + PrintItems(g.items, g.kind))
    case MixedStart => [OpenParen, PoundName("PCDATA")]
    case MixedNeed(names) => [OpenParen, PoundName("PCDATA")] + Alternatives(names) + [Or]
    case MixedHave(names) => [OpenParen, PoundName("PCDATA")] + Alternatives(names)
    case Done(t) => Print(t)
    case Keyword(any) => [NameTok(if any then "ANY" else "EMPTY", One)]
  }

  /** A group still open: what it holds is in order, and a choice has begun with an item. */
  predicate OpenOk(g: Tree) {
    && g.Node? && g.kind != Mixed && (g.kind == Choice ==> g.items != [])
    && forall i :: 0 <= i < |g.items| ==> Particle(g.items[i])
  }

  predicate Sound(a: State) {
    match a
    case Need(open) => forall i :: 0 <= i < |open| ==> OpenOk(open[i])
    case Have(open) =>
      && (forall i :: 0 <= i < |open| ==> OpenOk(open[i]))
      && open != [] && open[|open| - 1].Node? && (open[|open| - 1].kind == Choice ==> |open[|open| - 1].items| >= 2)
    case MixedNeed(names) => forall i :: 0 <= i < |names| ==> PlainLeaf(names[i])
    case MixedHave(names) => forall i :: 0 <= i < |names| ==> PlainLeaf(names[i])
    case Done(t) => Model(t)
    case _ => true
  }

  lemma {:induction false} ItemsMore(items: seq<Tree>, k: Kind, t: Tree)
    ensures PrintItems(items + [t], k) == PrintItems(items, k) + (if items == [] then [] else [Separator(k)]) + Print(t)
  {
    var more := items + [t];
    assert more[..|more| - 1] == items;
  }

  lemma OneItem(items: seq<Tree>, j: Kind, k: Kind)
    requires |items| <= 1
    ensures PrintItems(items, j) == PrintItems(items, k)
  {
  }

  lemma {:induction false} OpenMore(open: seq<Tree>, g: Tree)
    requires g.Node? && forall i :: 0 <= i < |open| ==> open[i].Node?
    ensures PrintOpen(open + [g]) == PrintOpen(open) + PrintWaiting(g)
  {
    assert (open + [g])[..|open|] == open;
  }

  lemma {:induction false} AlternativesMore(items: seq<Tree>, t: Tree)
    ensures Alternatives(items + [t]) == Alternatives(items) + [Or] + Print(t)
  {
    assert (items + [t])[..|items|] == items;
  }

  /** One more item in the innermost group: its tokens follow the rest. */
  lemma {:induction false} ItemAdded(open: seq<Tree>, t: Tree)
    requires Groups(open)
    ensures PrintState(Have(WithItem(open, t))) == PrintOpen(open) + Print(t)
  {
    hide PrintItems, Print;
    var n := |open| - 1;
    var g := open[n];
    var more := WithItem(open, t);
    assert more[..n] == open[..n];
    ItemsMore(g.items, g.kind, t);
    var x, y := PrintOpen(open[..n]), PrintItems(g.items, g.kind);
    var sep := if g.items == [] then [] else [Separator(g.kind)];
    assert x + ([OpenParen] + (y + sep + Print(t))) == x + ([OpenParen] + y + sep) + Print(t);
  }

  /** Every step adds its token to what was written. */
  lemma {:induction false} StepPrints(a: State, tok: Token)
    requires StateOk(a) && Sound(a) && Advance(a, tok).Some? && tok != Blank
    ensures PrintState(Advance(a, tok).value) == PrintState(a) + [tok]
    ensures Sound(Advance(a, tok).value)
  {
    hide PrintItems, PrintOpen;
    match a
    case Need(open) => NeedPrints(open, tok);
    case Have(open) => HavePrints(open, tok);
    case Opened => OpenedPrints(tok);
    case MixedNeed(_) => MixedPrints(a, tok);
    case MixedHave(_) => MixedPrints(a, tok);
    case MixedStart => MixedPrints(a, tok);
    case AtStart =>
  }

  lemma {:induction false} MixedPrints(a: State, tok: Token)
    requires (a.MixedStart? || a.MixedNeed? || a.MixedHave?) && Sound(a) && Advance(a, tok).Some? && tok != Blank
    ensures PrintState(Advance(a, tok).value) == PrintState(a) + [tok]
    ensures Sound(Advance(a, tok).value)
  {
    hide PrintItems, PrintOpen, Particle;
    match a
    case MixedNeed(names) => AlternativesMore(names, Leaf(tok.name, One));
    case MixedStart => NoAlternatives(tok);
    case MixedHave(names) =>
  }

  lemma NoAlternatives(tok: Token)
    ensures Alternatives([]) == []
    ensures tok.CloseParen? ==>
      [OpenParen, PoundName("PCDATA")] + Alternatives([]) + [tok] == [OpenParen, PoundName("PCDATA")] + [tok]
  {
  }

  lemma {:induction false} OpenedPrints(tok: Token)
    requires Advance(Opened, tok).Some? && tok != Blank
    ensures PrintState(Advance(Opened, tok).value) == [OpenParen] + [tok] && Sound(Advance(Opened, tok).value)
  {
    if tok == OpenParen {
      assert [NEW_GROUP, NEW_GROUP][..1] == [NEW_GROUP] && [NEW_GROUP][..0] == [];
      assert PrintWaiting(NEW_GROUP) == [OpenParen];
      assert PrintOpen([NEW_GROUP]) == [OpenParen];
    } else if tok.NameTok? {
      var t := Leaf(tok.name, tok.quant);
      ItemsMore([], Seq, t);
      assert [] + [t] == [t];
      assert [] + [] + Print(t) == Print(t);
    }
  }

  lemma {:induction false} NeedPrints(open: seq<Tree>, tok: Token)
    requires Groups(open) && Sound(Need(open)) && Advance(Need(open), tok).Some? && tok != Blank
    ensures var b := Advance(Need(open), tok).value; PrintState(b) == PrintOpen(open) + [tok] && Sound(b)
  {
    hide PrintItems, PrintOpen;
    if tok == OpenParen {
      OpenMore(open, NEW_GROUP);
      assert PrintWaiting(NEW_GROUP) == [OpenParen] by { NothingPrinted(); }
    } else {
      var t := Leaf(tok.name, tok.quant);
      ItemAdded(open, t);
      var n := |open| - 1;
      assert OpenOk(open[n]) && Particle(t);
      ParticlesMore(open[n].items, t);
    }
  }

  lemma NothingPrinted()
    ensures forall k :: PrintItems([], k) == []
  {
  }

  lemma {:induction false} ParticlesMore(items: seq<Tree>, t: Tree)
    requires Particle(t) && forall i :: 0 <= i < |items| ==> Particle(items[i])
    ensures forall i :: 0 <= i < |items| + 1 ==> Particle((items + [t])[i])
  {
  }

  lemma {:induction false} HavePrints(open: seq<Tree>, tok: Token)
    requires StateOk(Have(open)) && Sound(Have(open)) && AfterItem(open, tok).Some?
    ensures var b := AfterItem(open, tok).value;
            StateOk(b) && PrintState(b) == PrintState(Have(open)) + [tok] && Sound(b)
  {
    hide PrintItems, PrintOpen, Print, OpenOk;
    var n := |open| - 1;
    var g := open[n];
    assert OpenOk(g) && g.kind != Mixed by { OpenIsNode(g); }
    var x, y := PrintOpen(open[..n]), PrintItems(g.items, g.kind);
    match tok
    case CloseParen(q) => ClosePrints(open, q);
    case Comma =>
      OpenIsNode(g);
      assert x + ([OpenParen] + y) + [tok] == x + ([OpenParen] + y + [tok]);
      OpenMore(open[..n], g);
      assert open[..n] + [g] == open;
    case Or =>
      var h := g.(kind := Choice);
      var more := open[n := h];
      assert more == open[..n] + [h];
      OpenMore(open[..n], h);
      OrOk(g);
      if g.kind == Seq { OneItem(g.items, Seq, Choice); }
      assert x + ([OpenParen] + y) + [tok] == x + ([OpenParen] + y + [tok]);
  }

  lemma OpenIsNode(g: Tree)
    ensures OpenOk(g) ==> g.Node? && g.kind != Mixed
  {
  }

  lemma OrOk(g: Tree)
    requires OpenOk(g) && g.items != []
    ensures OpenOk(g.(kind := Choice))
  {
  }

  lemma {:induction false} ClosePrints(open: seq<Tree>, q: Quant)
    requires StateOk(Have(open)) && Sound(Have(open))
    ensures var b := AfterItem(open, CloseParen(q)).value;
            StateOk(b) && PrintState(b) == PrintState(Have(open)) + [CloseParen(q)] && Sound(b)
  {
    hide PrintItems, PrintOpen;
    var n := |open| - 1;
    var g := open[n];
    assert OpenOk(g);
    var x, y, tok := PrintOpen(open[..n]), PrintItems(g.items, g.kind), CloseParen(q);
    var t := Closed(g, q);
    assert Print(t) == [OpenParen] + y + [tok];
    assert x + ([OpenParen] + y) + [tok] == x + Print(t);
    assert Particle(t);
    if n > 0 {
      ItemAdded(open[..n], t);
      ParticlesMore(open[n - 1].items, t);
    } else {
      NoneOpen();
      assert [] + Print(t) == Print(t);
    }
  }

  lemma NoneOpen()
    ensures PrintOpen([]) == []
  {
  }

  lemma {:induction false} ReadPrints(ts: seq<Token>)
    requires Read(ts).Some?
    ensures Sound(Read(ts).value) && PrintState(Read(ts).value) == NoBlanks(ts)
  {
    hide PrintState, Sound, Advance;
    if ts == [] {
      StartPrints();
    } else {
      var n := |ts| - 1;
      ReadPrints(ts[..n]);
      if ts[n] == Blank {
        BlankStays(Read(ts[..n]).value);
        assert NoBlanks(ts[..n]) + [] == NoBlanks(ts[..n]);
      } else {
        StepPrints(Read(ts[..n]).value, ts[n]);
      }
    }
  }

  lemma StartPrints()
    ensures Sound(AtStart) && PrintState(AtStart) == []
  {
  }

  lemma BlankStays(a: State)
    requires StateOk(a)
    ensures Advance(a, Blank) == Some(a)
  {
  }

  // ------------------------------------------------------------------ every printing is accepted

  /** The machine run on from a state. */
  function Run(a: State, ts: seq<Token>): (r: Option<State>)
    requires StateOk(a)
    ensures r.Some? ==> StateOk(r.value)
  {
    if ts == [] then Some(a) else
    var before := Run(a, ts[..|ts| - 1]);
    if before.None? then None else Advance(before.value, ts[|ts| - 1])
  }

  lemma {:induction false} RunMore(a: State, ts: seq<Token>, us: seq<Token>)
    requires StateOk(a)
    ensures Run(a, ts + us) == var b := Run(a, ts); if b.None? then None else Run(b.value, us)
  {
    hide Advance;
    if us == [] {
      assert ts + us == ts;
    } else {
      var n := |us| - 1;
      assert (ts + us)[..|ts + us| - 1] == ts + us[..n];
      RunMore(a, ts, us[..n]);
    }
  }

  lemma {:induction false} RunOne(a: State, tok: Token)
    requires StateOk(a)
    ensures Run(a, [tok]) == Advance(a, tok)
  {
    hide Advance;
    assert [tok][..0] == [];
  }

  /** Where an item is wanted, a particle is read as one item. */
  lemma {:induction false} ReadsParticle(open: seq<Tree>, t: Tree)
    requires Groups(open) && Particle(t)
    ensures StateOk(Have(WithItem(open, t)))
    ensures Run(Need(open), Print(t)) == Some(Have(WithItem(open, t)))
    decreases t, 0
  {
    hide Run, PrintItems;
    match t
    case Leaf(n, q) =>
      RunOne(Need(open), NameTok(n, q));
    case Node(k, items, q) =>
      var inner := open + [NEW_GROUP];
      RunOne(Need(open), OpenParen);
      RunMore(Need(open), [OpenParen], PrintItems(items, k));
      ReadsItems(open, t, |items|);
      assert items[..|items|] == items;
      RunMore(Need(open), [OpenParen] + PrintItems(items, k), [CloseParen(q)]);
      RunOne(Have(open + [Node(k, items, One)]), CloseParen(q));
      assert (open + [Node(k, items, One)])[..|open|] == open;
  }

  /** The group as it stands after some of its items. */
  function SoFar(t: Tree, n: nat): Tree
    requires t.Node? && n <= |t.items|
  {
    Node(if n <= 1 then Seq else t.kind, t.items[..n], One)
  }

  lemma {:induction false} ReadsItems(open: seq<Tree>, t: Tree, n: nat)
    requires (forall i :: 0 <= i < |open| ==> open[i].Node?) && t.Node? && Particle(t) && 0 < n <= |t.items|
    ensures StateOk(Have(open + [SoFar(t, n)]))
    ensures Run(Need(open + [NEW_GROUP]), PrintItems(t.items[..n], t.kind)) == Some(Have(open + [SoFar(t, n)]))
    decreases t.items, 1, n
  {
    hide Run, Print, PrintItems;
    var from := Need(open + [NEW_GROUP]);
    var item := t.items[n - 1];
    assert t.items[..n] == t.items[..n - 1] + [item];
    ItemsMore(t.items[..n - 1], t.kind, item);
    if n == 1 {
      assert t.items[..0] == [];
      NothingPrinted();
      assert [] + [] + Print(item) == Print(item);
      ReadsParticle(open + [NEW_GROUP], item);
      assert WithItem(open + [NEW_GROUP], item) == open + [SoFar(t, 1)];
    } else {
      ReadsItems(open, t, n - 1);
      var before := PrintItems(t.items[..n - 1], t.kind);
      var waiting := Node(t.kind, t.items[..n - 1], One);
      RunMore(from, before, [Separator(t.kind)]);
      RunOne(Have(open + [SoFar(t, n - 1)]), Separator(t.kind));
      assert (open + [SoFar(t, n - 1)])[|open| := waiting] == open + [waiting];
      RunMore(from, before + [Separator(t.kind)], Print(item));
      ReadsParticle(open + [waiting], item);
      assert WithItem(open + [waiting], item) == open + [SoFar(t, n)];
    }
  }

  lemma {:induction false} ReadsAlternatives(names: seq<Tree>)
    requires forall i :: 0 <= i < |names| ==> PlainLeaf(names[i])
    ensures Run(MixedStart, Alternatives(names)) == Some(if names == [] then MixedStart else MixedHave(names))
  {
    hide Run, Advance;
    if names == [] {
      RunNone(MixedStart);
    } else {
      var n := |names| - 1;
      ReadsAlternatives(names[..n]);
      var before := if n == 0 then MixedStart else MixedHave(names[..n]);
      assert PlainLeaf(names[n]);
      AlternativeSteps(names, n);
      RunMore(MixedStart, Alternatives(names[..n]), [Or]);
      RunOne(before, Or);
      RunMore(MixedStart, Alternatives(names[..n]) + [Or], Print(names[n]));
      RunOne(MixedNeed(names[..n]), NameTok(names[n].name, One));
    }
  }

  lemma AlternativeSteps(names: seq<Tree>, n: nat)
    requires n + 1 == |names| && PlainLeaf(names[n])
    ensures Advance(if n == 0 then MixedStart else MixedHave(names[..n]), Or) == Some(MixedNeed(names[..n]))
    ensures Advance(MixedNeed(names[..n]), NameTok(names[n].name, One)) == Some(MixedHave(names))
  {
    assert names[..n] + [names[n]] == names;
  }

  lemma RunNone(a: State)
    requires StateOk(a)
    ensures Run(a, []) == Some(a)
  {
  }

  lemma {:induction false} ReadIsRun(ts: seq<Token>)
    ensures Read(ts) == Run(AtStart, ts)
  {
    hide Advance;
    if ts != [] { ReadIsRun(ts[..|ts| - 1]); }
  }

  lemma {:induction false} ReadsModel(t: Tree)
    requires Model(t)
    ensures Read(Print(t)) == Some(Done(t))
  {
    hide Run, PrintItems, Alternatives;
    ReadIsRun(Print(t));
    RunOne(AtStart, OpenParen);
    var q := t.quant;
    if t.kind == Mixed {
      RunMore(AtStart, [OpenParen], [PoundName("PCDATA")]);
      RunOne(Opened, PoundName("PCDATA"));
      assert [OpenParen] + [PoundName("PCDATA")] == [OpenParen, PoundName("PCDATA")];
      RunMore(AtStart, [OpenParen, PoundName("PCDATA")], Alternatives(t.items));
      ReadsAlternatives(t.items);
      RunMore(AtStart, [OpenParen, PoundName("PCDATA")] + Alternatives(t.items), [CloseParen(q)]);
      RunOne(if t.items == [] then MixedStart else MixedHave(t.items), CloseParen(q));
    } else {
      RunMore(AtStart, [OpenParen], PrintItems(t.items, t.kind));
      ReadsFirst(t, |t.items|);
      assert t.items[..|t.items|] == t.items;
      RunMore(AtStart, [OpenParen] + PrintItems(t.items, t.kind), [CloseParen(q)]);
      RunOne(Have([Node(t.kind, t.items, One)]), CloseParen(q));
    }
  }

  /** The outermost group is read like any other, though another handler is in charge at first. */
  lemma {:induction false} ReadsFirst(t: Tree, n: nat)
    requires t.Node? && Particle(t) && 0 < n <= |t.items|
    ensures StateOk(Have([SoFar(t, n)]))
    ensures Run(Opened, PrintItems(t.items[..n], t.kind)) == Some(Have([SoFar(t, n)]))
  {
    hide PrintItems, Advance;
    var ps := PrintItems(t.items[..n], t.kind);
    ReadsItems([], t, n);
    assert [] + [NEW_GROUP] == [NEW_GROUP] && [] + [SoFar(t, n)] == [SoFar(t, n)];
    StartsItem(t, n);
    assert ps == [ps[0]] + ps[1..];
    RunMore(Opened, [ps[0]], ps[1..]);
    RunMore(Need([NEW_GROUP]), [ps[0]], ps[1..]);
    RunOne(Opened, ps[0]);
    RunOne(Need([NEW_GROUP]), ps[0]);
    SameStart(ps[0]);
  }

  lemma SameStart(tok: Token)
    requires tok == OpenParen || tok.NameTok?
    ensures Advance(Opened, tok) == Advance(Need([NEW_GROUP]), tok)
  {
    assert [NEW_GROUP] + [NEW_GROUP] == [NEW_GROUP, NEW_GROUP];
    if tok.NameTok? {
      var t := Leaf(tok.name, tok.quant);
      assert WithItem([NEW_GROUP], t) == [AddTo(NEW_GROUP, t)];
    }
  }

  lemma {:induction false} StartsItem(t: Tree, n: nat)
    requires t.Node? && Particle(t) && 0 < n <= |t.items|
    ensures var ps := PrintItems(t.items[..n], t.kind); ps != [] && (ps[0] == OpenParen || ps[0].NameTok?)
  {
    var items := t.items[..n];
    if n > 1 {
      assert items[..n - 1] == t.items[..n - 1];
      StartsItem(t, n - 1);
    } else {
      assert Particle(t.items[0]);
    }
  }

  /** Blanks may stand anywhere, after the end too. */
  lemma {:induction false} BlanksDoNotMatter(ts: seq<Token>)
    ensures Read(NoBlanks(ts)) == Read(ts)
  {
    hide Advance;
    if ts != [] {
      var n := |ts| - 1;
      BlanksDoNotMatter(ts[..n]);
      if ts[n] == Blank {
        assert NoBlanks(ts) == NoBlanks(ts[..n]);
        if Read(ts[..n]).Some? { BlankStays(Read(ts[..n]).value); }
      } else {
        var us := NoBlanks(ts);
        assert us[..|us| - 1] == NoBlanks(ts[..n]);
      }
    }
  }

  // ------------------------------------------------------------------ the theorem

  /** The machine accepts a declaration as this model if and only if it is the model's printing, with
      blanks anywhere. */
  lemma {:induction false} AcceptsExactlyPrintings(ts: seq<Token>, t: Tree)
    ensures Read(ts) == Some(Done(t)) <==> Model(t) && NoBlanks(ts) == Print(t)
  {
    hide Advance, Print;
    if Read(ts) == Some(Done(t)) {
      ReadPrints(ts);
    } else if Model(t) && NoBlanks(ts) == Print(t) {
      ReadsModel(t);
      BlanksDoNotMatter(ts);
    }
  }

  /** So a model is written in one way only. */
  lemma {:induction false} PrintInjective(t: Tree, u: Tree)
    requires Model(t) && Model(u) && Print(t) == Print(u)
    ensures t == u
  {
    ReadsModel(t);
    ReadsModel(u);
  }
}
