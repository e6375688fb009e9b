/** Two runs of successful calls after which the writer's output is wrong (genx/genx.c). Each state is
    what the writer's methods are proved to make of the one before. */
module GenxRuns {
  import opened Wrappers
  import opened GenxStack
  import opened NamespaceReader
  import opened GenxInvariants
  import opened GenxTags
  import opened GenxGrowth

  const XML: Namespace := Namespace(XML_NAMESPACE, 1, false, Some("xml"), Some("xml"))

  // ------------------------------------------------------------------ an attribute loses its prefix

  /** A namespace that was declared with prefix p, and again as the default. */
  const TWICE: seq<Namespace> := [XML, Namespace("u", 0, true, None, Some(""))]

  /** An element in it has been started and ended, and another is being started. */
  const AGAIN: seq<Namespace> := [XML, Namespace("u", 1, false, Some(""), Some(""))]

  lemma {:induction false} StatesOfDefault()
    ensures TWICE == Redefaulted([XML] + [Namespace("u", 0, false, None, Some("p"))], 1, "")
    ensures StackOk(TWICE, []) && Pushed(TWICE, 1, "")[1].declCount > 0
    ensures var ended := Popped(Pushed(TWICE, 1, ""), [], 1);
            StackOk(ended, []) && !ended[1].baroque && ended[1].declCount == 0 && AGAIN == Pushed(ended, 1, "")
  {
    assert StackOk(TWICE, []);
    var e := Entry(Some(1), "");
    assert [] + [e] == [e];
    PushOk(TWICE, [], 1, "");
    PopOk(Pushed(TWICE, 1, ""), [], e);
  }

  /** The calls declare u with prefix p, an attribute a in it, and u again as the default; then start
      r in no namespace, start and end e in u, start e again, add a and end e. The first end clears
      `baroque`, so that the second time the attribute is let through, with a colon and no prefix. */
  lemma {:induction false} DefaultRun(value: string, before_: seq<Token>, after: seq<Token>)
    ensures var attributes, pending := [Attribute(Some(1), "a", value)], [DeclAtt(""), UserAtt(0)];
            var tag := OpenTag(QName("", "e"), DeclsOf(pending, map["" := "u"]), AttsOf(AGAIN, attributes, pending), true);
            && (forall i :: 0 <= i < |pending| ==> Writable(AGAIN, attributes, pending[i]))
            && Spoils(AGAIN, attributes, pending) && tag.atts == [(Garbled("a"), value)]
            && Read(before_ + [tag] + after).Failed?
  {
    var attributes, pending := [Attribute(Some(1), "a", value)], [DeclAtt(""), UserAtt(0)];
    assert SpoilingAtt(AGAIN, attributes, pending[1]);
    assert pending[..1] == [DeclAtt("")] && [DeclAtt("")][..0] == [];
    assert AttsOf(AGAIN, attributes, [DeclAtt("")]) == AttsOf(AGAIN, attributes, []) == [];
    assert AttNameOf(AGAIN, attributes[0]) == Garbled("a");
    var tag := OpenTag(QName("", "e"), DeclsOf(pending, map["" := "u"]), AttsOf(AGAIN, attributes, pending), true);
    FailsOn(before_, tag);
    FailedStays(before_ + [tag], after);
  }

  /** A colon without a prefix before it is no name, wherever it stands. */
  lemma {:induction false} FailsOn(ts: seq<Token>, t: Token)
    requires t.OpenTag? && |t.atts| == 1 && t.atts[0].0.Garbled?
    ensures Read(ts + [t]).Failed?
  {
    ReadNext(ts, t);
    assert t.atts[..0] == [];
  }

  lemma {:induction false} FailedStays(ts: seq<Token>, more: seq<Token>)
    requires Read(ts).Failed?
    ensures Read(ts + more).Failed?
  {
    if more == [] {
      assert ts + more == ts;
    } else {
      FailedStays(ts, more[..|more| - 1]);
      assert ts + more == ts + more[..|more| - 1] + [more[|more| - 1]];
      ReadNext(ts + more[..|more| - 1], more[|more| - 1]);
    }
  }

  // ------------------------------------------------------------------ an end tag goes astray

  /** The pre-wired namespace was declared again with prefix foo, which an element has used. */
  const STALE: seq<Namespace> := [Namespace(XML_NAMESPACE, 1, true, Some("foo"), Some("foo"))]

  lemma {:induction false} StatesOfStray()
    ensures var pushed := Pushed(Redefaulted([XML], 0, "foo"), 0, "foo");
            pushed[0].declCount > 0 && STALE == Popped(pushed, [], 0) && StackOk(STALE, [])
  {
    hide StackOk, NsOk;
    var r := XML.(baroque := true, defaultDecl := Some("foo"));
    var q := r.(declaration := Some("foo"), declCount := 2);
    assert Redefaulted([XML], 0, "foo") == [r] && Pushed([r], 0, "foo") == [q];
    assert Popped([q], [], 0) == STALE;
    WiredOk();
    RedefaultOk([XML], [], 0, "foo");
    var e := Entry(Some(0), "foo");
    assert [] + [e] == [e];
    PushOk([r], [], 0, "foo");
    PopOk([q], [], e);
  }

  lemma WiredOk()
    ensures StackOk([XML], [])
  {
  }

  /** The calls start root in the xml namespace, declare that namespace again with prefix foo while it
      is open, start and end c in it, and end root: nothing is found on the stack to go back to. */
  lemma {:induction false} StrayRun()
    ensures var root, c := OpenTag(QName("xml", "root"), [], [], false), OpenTag(QName("foo", "c"), [("foo", XML_NAMESPACE)], [], true);
            var end := CloseTag(QName(STALE[0].declaration.value, "root"));
            Tags([root] + [c] + [end]).Broken?
  {
    var root, c := OpenTag(QName("xml", "root"), [], [], false), OpenTag(QName("foo", "c"), [("foo", XML_NAMESPACE)], [], true);
    var end := CloseTag(QName("foo", "root"));
    TagsNext([], root);
    TagsNext([root], c);
    TagsNext([root] + [c], end);
    assert [] + [root] == [root];
    assert root.name != end.name;
  }
}
