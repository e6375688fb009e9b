/** The writer itself (genx/genx.c): the sequence of calls, the flat stack and the lazily kept
    namespace fields. Canonical order, pretty-printing and name checks are not part of it. */
module GenxWriter {
  import opened Wrappers
  import opened GenxStack
  import opened NamespaceReader
  import opened GenxInvariants
  import opened GenxTags
  import opened GenxGrowth
  import opened GenxDeclaring

  datatype Status =
    | Success | BadNamespaceName | DuplicatePrefix | SequenceError | NoStartTag | DuplicateAttribute
    | AttributeInDefaultNamespace | DuplicateNamespace | BadDefaultDeclaration

  datatype Sequence = NoDoc | PreDoc | PostDoc | StartTag | Attributes | StartAttr | Content

  /** Room for "xmlns:" and the terminator in the buffer of storePrefix. */
  const MAX_PREFIX: nat := 1024 - 7

  function Decimal(n: nat): string {
    (if n < 10 then "" else Decimal(n / 10)) + ["0123456789"[n % 10]]
  }

  lemma {:induction false} DecimalsDiffer(m: nat, n: nat)
    requires m != n
    ensures Decimal(m) != Decimal(n)
  {
    DecimalParts(m);
    DecimalParts(n);
    if m / 10 != n / 10 { DecimalsDiffer(m / 10, n / 10); }
  }

  /** A number's digits but the last are those of its tenth, of which there are none below ten. */
  lemma DecimalParts(n: nat)
    ensures var s := Decimal(n);
            && |s| > 0 && '0' <= s[|s| - 1] <= '9' && s[|s| - 1] as int == '0' as int + n % 10
            && s[..|s| - 1] == if n < 10 then "" else Decimal(n / 10)
  {
  }

  /** The prefixes made up before number `n`. */
  ghost function MadeUp(n: nat): set<Prefix> {
    set k: nat | k < n :: "g" + Decimal(k)
  }

  class Writer {
    var namespaces: seq<Namespace>
    var elements: seq<Element>
    var attributes: seq<Attribute>
    var prefixes: set<Prefix>
    var defaultNsDeclared: bool
    var nextPrefix: nat
    var sequence: Sequence
    var stack: seq<Ptr>
    var nowStarting: nat
    var nowStartingAttr: nat
    /** The chain from firstAttribute to lastAttribute; being on it is being `provided`. */
    var pending: seq<Pending>
    /** The values collected for xmlns attributes. */
    var values: map<Prefix, string>
    var out: seq<Token>

    ghost var frames: seq<Frame>
    ghost var owner: map<Prefix, nat>
    /** What the calls asked for: declared names, attribute values and text, in order. */
    ghost var said: seq<Event>
    /** An end tag did not repeat its start tag, or a tag was sent with a name that does not resolve. */
    ghost var strayed: bool
    ghost var spoiled: bool

    predicate Starting()
      reads this`sequence
    {
      sequence == StartTag || sequence == Attributes || sequence == StartAttr
    }

    /** The stack parses into frames and agrees with the counts and declarations. */
    ghost predicate Valid()
      reads this
    {
      && stack == Flatten(frames)
      && StackOk(namespaces, AllEntries(frames)) && InTable(elements, frames)
      && (forall i :: 0 <= i < |elements| && elements[i].ns.Some? ==> elements[i].ns.value < |namespaces|)
      && (forall i :: 0 <= i < |attributes| && attributes[i].ns.Some? ==> attributes[i].ns.value < |namespaces|)
      && (sequence in {NoDoc, PreDoc, PostDoc} <==> frames == [])
      && (if Starting() then
            nowStarting == Top(frames).element && PendingOk(Names(namespaces), Top(frames).entries, pending, values)
          else pending == [])
      && (sequence == StartAttr ==> nowStartingAttr < |attributes|)
      && ChainInTable(attributes, pending)
    }

    /** The frames whose start tags have been sent. */
    ghost function Written(): seq<Frame>
      reads this
    {
      if Starting() && frames != [] then frames[..|frames| - 1] else frames
    }

    /** The tags sent nest under one root, whatever prefixes were chosen, exactly as long as no end tag
        has strayed. */
    ghost predicate Nested()
      reads this
    {
      sequence != NoDoc ==>
        if strayed then Tags(out).Broken? else Nests(out, elements, Written(), Written() != [] || sequence == PostDoc)
    }

    /** A reader of what was sent finds exactly what was asked for, as long as no tag has been spoiled. */
    ghost predicate Good()
      reads this
    {
      && Resolving(namespaces, elements, owner, frames)
      && (forall p :: p in owner ==> Taken(p))
      && (Nameless() || AttsDeclared(namespaces, attributes, AllEntries(frames), pending))
      && (strayed ==> spoiled)
      && (sequence != NoDoc ==>
            if spoiled then Read(out).Failed?
            else Reads(out, Names(namespaces), elements, Written(), Written() != [] || sequence == PostDoc, said))
    }

    /** The element being started is in no namespace. */
    predicate Nameless()
      reads this`elements, this`nowStarting
    {
      nowStarting < |elements| && elements[nowStarting].ns.None?
    }

    /** The start tag under way will not resolve: some attribute's namespace is declared nowhere, or as
        the default without being baroque. */
    predicate Spoiling()
      reads this`namespaces, this`attributes, this`pending
    {
      Spoils(namespaces, attributes, pending)
    }

    /** The innermost element is in the pre-wired namespace, which has no declaration left on the stack
        and has been left with another prefix than its own. */
    ghost predicate Straying()
      reads this`namespaces, this`elements, this`frames
    {
      && frames != [] && Top(frames).element < |elements| && elements[Top(frames).element].ns == Some(0)
      && namespaces != [] && namespaces[0].declCount == 1 && namespaces[0].declaration != Some("xml")
    }

    /** What the start tag under way means. */
    ghost function Meant(): (Expanded, seq<(Expanded, string)>)
      reads this
    {
      if nowStarting < |elements| then
        var e := elements[nowStarting];
        (ExpandedOf(Names(namespaces), e.ns, e.name), MeantAtts(Names(namespaces), attributes, pending))
      else (Expanded("", ""), [])
    }

    // ---------------------------------------------------------------- scans of the flat stack

    /** The pair whose declaration is at `i`. */
    method PairAt(i: nat, ghost fs: seq<Frame>) returns (e: Entry)
      requires i < |stack| && stack[..i + 1] == Flatten(fs) && fs != [] && Top(fs).entries != []
      ensures e == Top(fs).entries[|Top(fs).entries| - 1]
      ensures i >= 3 && stack[..i - 1] == Flatten(WithoutEntry(fs))
      ensures AllEntries(fs) == AllEntries(WithoutEntry(fs)) + [e]
      ensures stack[i - 2] == Flatten(WithoutEntry(fs))[i - 2]
    {
      FlatTop(fs);
      PopEntry(fs);
      assert stack[i] == Flatten(fs)[i] && stack[i - 1] == Flatten(fs)[i - 1];
      assert stack[..i - 1] == stack[..i + 1][..i - 1];
      var otherNs := stack[i - 1];
      e := Entry(if otherNs.NsPtr? then Some(otherNs.ns) else None, stack[i].p);
    }

    /** addNamespace: from the top down to an entry of this namespace or this declaration. */
    method ScanEither(ns: nat, decl: Prefix) returns (r: Option<Entry>)
      requires stack == Flatten(frames)
      ensures r == LastOfEither(AllEntries(frames), ns, decl)
    {
      var i := |stack| - 1;
      ghost var fs := frames;
      TopAt(stack, i, fs);
      while i > 0
        invariant -1 <= i < |stack| && stack[..i + 1] == Flatten(fs) && (i > 0 <==> fs != [])
        invariant LastOfEither(AllEntries(frames), ns, decl) == LastOfEither(AllEntries(fs), ns, decl)
        decreases i
      {
        TopAt(stack, i, fs);
        while stack[i] != Null
          invariant 0 < i < |stack| && stack[..i + 1] == Flatten(fs) && fs != []
          invariant stack[i] != Null <==> Top(fs).entries != []
          invariant LastOfEither(AllEntries(frames), ns, decl) == LastOfEither(AllEntries(fs), ns, decl)
          decreases i
        {
          var e := PairAt(i, fs);
          EitherPush(AllEntries(WithoutEntry(fs)), e, ns, decl);
          if e.ns == Some(ns) || e.decl == decl {
            return Some(e);
          }
          i := i - 2;
          fs := WithoutEntry(fs);
          TopAt(stack, i, fs);
        }
        TopAt(stack, i, fs);
        i := i - 2;
        fs := fs[..|fs| - 1];
        TopAt(stack, i, fs);
      }
      return None;
    }

    /** unsetDefaultNamespace: from the top down to a declaration of the default, or its unsetting. */
    method ScanDefault() returns (r: Option<Entry>)
      requires stack == Flatten(frames)
      requires forall e :: e in AllEntries(frames) && e.ns.None? ==> e.decl == ""
      ensures r == LastOfDecl(AllEntries(frames), "")
    {
      var i := |stack| - 1;
      ghost var fs := frames;
      TopAt(stack, i, fs);
      while i > 0
        invariant -1 <= i < |stack| && stack[..i + 1] == Flatten(fs) && (i > 0 <==> fs != [])
        invariant LastOfDecl(AllEntries(frames), "") == LastOfDecl(AllEntries(fs), "")
        invariant forall e :: e in AllEntries(fs) && e.ns.None? ==> e.decl == ""
        decreases i
      {
        TopAt(stack, i, fs);
        while stack[i] != Null
          invariant 0 < i < |stack| && stack[..i + 1] == Flatten(fs) && fs != []
          invariant stack[i] != Null <==> Top(fs).entries != []
          invariant LastOfDecl(AllEntries(frames), "") == LastOfDecl(AllEntries(fs), "")
          invariant forall e :: e in AllEntries(fs) && e.ns.None? ==> e.decl == ""
          decreases i
        {
          var e := PairAt(i, fs);
          DeclPush(AllEntries(WithoutEntry(fs)), e, "");
          InMore(AllEntries(WithoutEntry(fs)), e);
          if e.ns.None? || e.decl == "" {
            return Some(e);
          }
          i := i - 2;
          fs := WithoutEntry(fs);
          TopAt(stack, i, fs);
        }
        TopAt(stack, i, fs);
        i := i - 2;
        fs := fs[..|fs| - 1];
        TopAt(stack, i, fs);
      }
      return None;
    }

    /** genxEndElement: the declaration of `ns` that is in force below position `top`. */
    method ScanNs(ns: nat, top: nat, ghost below: seq<Frame>) returns (r: Option<Prefix>)
      requires top < |stack| && stack[..top + 1] == Flatten(below)
      ensures r == LastOfNs(AllEntries(below), ns)
    {
      var i: int := top;
      ghost var fs := below;
      TopAt(stack, i, fs);
      while i > 0
        invariant -1 <= i < |stack| && stack[..i + 1] == Flatten(fs) && (i > 0 <==> fs != [])
        invariant LastOfNs(AllEntries(below), ns) == LastOfNs(AllEntries(fs), ns)
        decreases i
      {
        TopAt(stack, i, fs);
        while stack[i] != Null
          invariant 0 < i < |stack| && stack[..i + 1] == Flatten(fs) && fs != []
          invariant stack[i] != Null <==> Top(fs).entries != []
          invariant LastOfNs(AllEntries(below), ns) == LastOfNs(AllEntries(fs), ns)
          decreases i
        {
          var e := PairAt(i, fs);
          CountPush(AllEntries(WithoutEntry(fs)), e, ns);
          if e.ns == Some(ns) {
            return Some(e.decl);
          }
          i := i - 2;
          fs := WithoutEntry(fs);
          TopAt(stack, i, fs);
        }
        TopAt(stack, i, fs);
        i := i - 2;
        fs := fs[..|fs| - 1];
        TopAt(stack, i, fs);
      }
      return None;
    }

    /** The innermost element, and whether `ns` is declared on it. */
    method ScanFrame(ns: nat) returns (found: bool, element: nat)
      requires Valid() && frames != []
      ensures found <==> HasNs(Top(frames).entries, ns)
      ensures element == Top(frames).element && element < |elements|
    {
      hide AllEntries, Flatten, StackOk, PendingOk;
      assert Top(frames) in frames;
      hide AllEntries, Flatten, HasNs;
      var i := |stack| - 1;
      ghost var fs := frames;
      TopAt(stack, i, fs);
      found := false;
      while stack[i] != Null
        invariant 0 < i < |stack| && stack[..i + 1] == Flatten(fs) && fs != []
        invariant stack[i] != Null <==> Top(fs).entries != []
        invariant Top(fs).element == Top(frames).element && Top(fs).entries <= Top(frames).entries
        invariant HasNs(Top(frames).entries, ns) <==> found || HasNs(Top(fs).entries, ns)
        decreases i
      {
        var e := PairAt(i, fs);
        HasPush(Top(WithoutEntry(fs)).entries, e, ns);
        Rebuilt(fs);
        if e.ns == Some(ns) {
          found := true;
        }
        i := i - 2;
        fs := WithoutEntry(fs);
        TopAt(stack, i, fs);
      }
      TopAt(stack, i, fs);
      element := stack[i - 1].e;
    }

    // ---------------------------------------------------------------- declarations on a tag

    /** addAttribute for an xmlns attribute. Its value is replaced even when it is a duplicate. */
    method AddDeclaration(decl: Prefix, value: string) returns (st: Status)
      modifies this`pending, this`values
      ensures values == old(values)[decl := value] && pending == Chained(old(pending), DeclAtt(decl))
      ensures st == if DeclAtt(decl) in old(pending) then DuplicateAttribute else Success
    {
      values := values[decl := value];
      if DeclAtt(decl) in pending {
        return DuplicateAttribute;
      }
      pending := pending + [DeclAtt(decl)];
      return Success;
    }

    /** What a declaration on the current tag leaves alone. */
    twostate predicate TagKept()
      reads this
    {
      && elements == old(elements) && attributes == old(attributes) && sequence == old(sequence)
      && nowStarting == old(nowStarting) && out == old(out) && said == old(said) && owner == old(owner)
      && nowStartingAttr == old(nowStartingAttr)
      && defaultNsDeclared == old(defaultNsDeclared) && old(prefixes) <= prefixes
      && Names(namespaces) == old(Names(namespaces))
      && DefaultsKept(old(namespaces), namespaces)
      && |frames| == |old(frames)| && frames != [] && frames[..|frames| - 1] == old(frames)[..|frames| - 1]
      && MoreCounted(AllEntries(old(frames)), AllEntries(frames))
      && UsersKept(old(pending), pending)
    }

    /** The declaration that stands for a prefix, or for none given. */
    function Chosen(ns: nat, prefix: Option<Prefix>): Prefix
      requires ns < |namespaces|
      reads this`namespaces
    {
      if prefix.Some? then prefix.value
      else if namespaces[ns].defaultDecl.Some? then namespaces[ns].defaultDecl.value else ""
    }

    /** All that a declaration on the current tag changes. */
    twostate predicate DeclaredSo(ns: nat, decl: Prefix)
      requires ns < |old(namespaces)|
      reads this
    {
      && namespaces == old(DeclaredTable(namespaces, elements, frames, ns, decl))
      && frames == old(DeclaredFrames(namespaces, elements, frames, ns, decl))
      && pending == old(DeclaredChain(namespaces, elements, frames, ns, decl, pending))
    }

    /** addNamespace. With the default prefix, the namespace is usable afterwards unless the
        default cannot be declared on this element. */
    method AddNamespaceInternal(ns: nat, prefix: Option<Prefix>) returns (st: Status)
      requires Valid() && Starting() && ns < |namespaces|
      modifies this`namespaces, this`prefixes, this`stack, this`pending, this`values, this`frames
      ensures Valid() && TagKept()
      ensures prefix.None? && old(Resolving(namespaces, elements, owner, frames)) ==> Declared(old(frames), ns, st)
      ensures prefix.None? ==> if st == BadDefaultDeclaration then Nameless() else Sendable(namespaces, AllEntries(frames), ns)
      ensures st != SequenceError
      ensures st == if prefix.Some? && |prefix.value| > MAX_PREFIX then BadNamespaceName else old(DeclareStatus(ns, Chosen(ns, prefix)))
      ensures if st == BadNamespaceName then unchanged(this) else DeclaredSo(ns, old(Chosen(ns, prefix)))
      ensures st == Success ==> InPlace(AllEntries(frames), ns, old(Chosen(ns, prefix)))
      ensures prefix.None? ==> OnlyPushed(old(namespaces), namespaces, ns)
      ensures DeclarationsKept(old(namespaces), namespaces, AllEntries(frames))
    {
      hide PendingOk, Flatten, Resolving, InForce, Names, WithEntry, InTable, AllEntries;
      assert NsOk(namespaces[ns], ns, AllEntries(frames));
      var decl: Prefix;
      if prefix.None? {
        decl := namespaces[ns].defaultDecl.value;
      } else if prefix.value == "" {
        decl := "";
      } else {
        if |prefix.value| > MAX_PREFIX {
          return BadNamespaceName;
        }
        prefixes := prefixes + {prefix.value};
        decl := prefix.value;
      }
      if DeclareStatus(ns, decl) == Success { DeclaredInPlace(namespaces, elements, frames, ns, decl, pending); }
      st := Declare(ns, decl);
    }

    /** A namespace declared by its default: nothing, or one more declaration. */
    ghost predicate OnlyPushed(nss: seq<Namespace>, nss': seq<Namespace>, n: nat) {
      nss' == nss ||
      (n < |nss| && nss[n].defaultDecl.Some? && nss' == Pushed(nss, n, nss[n].defaultDecl.value) && (nss[n].baroque || nss[n].declCount == 0))
    }

    /** The pre-wired namespace has its declaration, unless it is declared on an element now. */
    ghost predicate DeclarationsKept(nss: seq<Namespace>, nss': seq<Namespace>, es: seq<Entry>) {
      |nss| > 0 && |nss'| > 0 && (CountNs(es, 0) > 0 || nss'[0].declaration == nss[0].declaration)
    }

    /** The outcome of declaring a namespace by its default. */
    ghost predicate Declared(fs: seq<Frame>, ns: nat, st: Status)
      reads this
    {
      && Resolving(namespaces, elements, owner, frames) && ns < |namespaces| && frames != []
      && (if st == BadDefaultDeclaration then
            frames == fs && !Namespaced(Top(frames), elements) && namespaces[ns].defaultDecl == Some("")
          else st in {Success, DuplicateAttribute, DuplicateNamespace} && InForce(namespaces, AllEntries(frames), ns))
    }

    /** What declaring a namespace on the tag answers: it is declared so already, or differently on this
        element, or it cannot be the default, or its declaration was added by hand. */
    ghost function DeclareStatus(ns: nat, decl: Prefix): Status
      requires ns < |namespaces|
      reads this
    {
      if Standing(Prepared(namespaces, ns, decl), AllEntries(frames), ns, decl) then Success
      else if frames != [] && HasNs(Top(frames).entries, ns) then DuplicateNamespace
      else if frames != [] && !Namespaced(Top(frames), elements) && decl == "" then BadDefaultDeclaration
      else if DeclAtt(decl) in pending then DuplicateAttribute
      else Success
    }

    method Declare(ns: nat, decl: Prefix) returns (st: Status)
      requires Valid() && Starting() && ns < |namespaces|
      modifies this`namespaces, this`stack, this`pending, this`values, this`frames
      ensures Valid() && TagKept()
      ensures namespaces[ns].defaultDecl == Some(decl) && old(Resolving(namespaces, elements, owner, frames)) ==>
        Declared(old(frames), ns, st)
      ensures if st == BadDefaultDeclaration then Nameless() else Sendable(namespaces, AllEntries(frames), ns)
      ensures st == old(DeclareStatus(ns, decl))
      ensures namespaces == old(DeclaredTable(namespaces, elements, frames, ns, decl))
      ensures frames == old(DeclaredFrames(namespaces, elements, frames, ns, decl))
      ensures pending == old(DeclaredChain(namespaces, elements, frames, ns, decl, pending))
      ensures old(namespaces)[ns].defaultDecl == Some(decl) ==> OnlyPushed(old(namespaces), namespaces, ns)
      ensures DeclarationsKept(old(namespaces), namespaces, AllEntries(frames))
    {
      hide PendingOk, Flatten, AllEntries, Names, WithEntry, NsOk, Innermost, StackOk, Resolving, Sendable;
      StackSome(namespaces, AllEntries(frames));
      if Some(decl) != namespaces[ns].defaultDecl {
        MakeBaroque(ns);
      }
      ghost var resolving := Some(decl) == namespaces[ns].defaultDecl && Resolving(namespaces, elements, owner, frames);
      var yes := InEffect(ns, decl);
      if yes {
        return Success;
      }
      var found, element := ScanFrame(ns);
      if found {
        HasInTop(frames, ns);
        HasSendable(namespaces, AllEntries(frames), ns);
        if resolving { DeclaredHere(namespaces, elements, owner, frames, ns); }
        return DuplicateNamespace;
      }
      if elements[element].ns.None? && decl == "" {
        return BadDefaultDeclaration;
      }
      if resolving {
        PushResolving(namespaces, elements, owner, frames, ns, decl);
      }
      PushSendable(namespaces, AllEntries(frames), ns, decl);
      FlatPush(frames, Entry(Some(ns), decl));
      st := PushDeclaration(ns, decl);
    }

    method MakeBaroque(ns: nat)
      requires Valid() && Starting() && ns < |namespaces|
      modifies this`namespaces
      ensures Valid() && TagKept() && namespaces == MadeBaroque(old(namespaces), ns)
      ensures old(Resolving(namespaces, elements, owner, frames)) ==> Resolving(namespaces, elements, owner, frames)
    {
      hide PendingOk, Flatten, AllEntries, Names, StackOk, Resolving, InTable;
      BaroqueOk(namespaces, AllEntries(frames), ns);
      NamesKept(namespaces, ns, MadeBaroque(namespaces, ns)[ns]);
      if Resolving(namespaces, elements, owner, frames) { BaroqueResolving(namespaces, elements, owner, frames, ns); }
      namespaces := MadeBaroque(namespaces, ns);
    }

    /** Is the declaration in force already? Cheap for a namespace that is not baroque. */
    method InEffect(ns: nat, decl: Prefix) returns (yes: bool)
      requires Valid() && ns < |namespaces|
      ensures yes <==> Standing(namespaces, AllEntries(frames), ns, decl)
      ensures yes && Resolving(namespaces, elements, owner, frames) ==> InForce(namespaces, AllEntries(frames), ns)
      ensures if yes then Sendable(namespaces, AllEntries(frames), ns) else namespaces[ns].baroque || namespaces[ns].declCount == 0
    {
      hide PendingOk, Flatten, AllEntries, Names, NsOk, Owned, Unshadowed, FrameOk;
      if !namespaces[ns].baroque {
        if namespaces[ns].declCount > 0 {
          if Resolving(namespaces, elements, owner, frames) { AlreadyInForce(namespaces, elements, owner, frames, ns); }
          CheapSendable(namespaces, AllEntries(frames), ns);
          return true;
        }
        return false;
      }
      var r := ScanEither(ns, decl);
      if r == Some(Entry(Some(ns), decl)) {
        EitherIsBoth(AllEntries(frames), ns, decl);
        CountIsHas(AllEntries(frames), ns);
        return true;
      }
      return false;
    }

    /** The end of addNamespace: the pair goes on the stack, the attribute on the chain. */
    method PushDeclaration(ns: nat, decl: Prefix) returns (st: Status)
      requires Valid() && Starting() && ns < |namespaces|
      requires namespaces[ns].baroque || (namespaces[ns].declCount == 0 && namespaces[ns].defaultDecl == Some(decl))
      modifies this`namespaces, this`stack, this`pending, this`values, this`frames
      ensures Valid() && TagKept()
      ensures st == (if DeclAtt(decl) in old(pending) then DuplicateAttribute else Success)
      ensures pending == Chained(old(pending), DeclAtt(decl))
      ensures namespaces == Pushed(old(namespaces), ns, decl)
      ensures frames == WithEntry(old(frames), Entry(Some(ns), decl))
    {
      hide NsOk, StackOk, PendingOk, InTable, MoreCounted, Flatten, AllEntries, Names, UsersKept, Chained, WithEntry, LastOfDecl, Pushed, DefaultsKept, UriOf, Top;
      ghost var e := Entry(Some(ns), decl);
      FlatPush(frames, e);
      PushOk(namespaces, AllEntries(frames), ns, decl);
      PendingDeclares(Names(namespaces), Top(frames).entries, pending, values, e);
      PushKeeps(elements, frames, e);
      PushedKeeps(namespaces, ns, decl);
      stack := stack + [NsPtr(ns)];
      stack := stack + [DeclPtr(decl)];
      frames := WithEntry(frames, e);
      namespaces := Pushed(namespaces, ns, decl);
      ChainedKeeps(pending, decl);
      st := AddDeclaration(decl, namespaces[ns].name);
    }

    /** unsetDefaultNamespace: xmlns="" where a default is in force. */
    method UnsetInternal() returns (st: Status)
      requires Valid() && Starting()
      modifies this`namespaces, this`stack, this`pending, this`values, this`frames
      ensures Valid() && TagKept()
      ensures st == if old(DefaultNs(AllEntries(frames)).Some? && DeclAtt("") in pending) then DuplicateAttribute else Success
      ensures DefaultClear(AllEntries(frames))
      ensures namespaces == old(UndeclaredTable(namespaces, AllEntries(frames))) && frames == old(UndeclaredFrames(frames))
      ensures pending == old(UndeclaredChain(frames, pending))
      ensures (st == Success || !Namespaced(Top(old(frames)), elements)) && old(Resolving(namespaces, elements, owner, frames)) ==>
        Resolving(namespaces, elements, owner, frames) && DefaultClear(AllEntries(frames))
      ensures namespaces == old(namespaces) || exists m: nat :: m < |old(namespaces)| && namespaces == MadeBaroque(old(namespaces), m)
      ensures DeclarationsKept(old(namespaces), namespaces, AllEntries(frames))
    {
      hide PendingOk, Flatten, AllEntries, Names, WithEntry, NsOk, InTable;
      StackSome(namespaces, AllEntries(frames));
      var r := ScanDefault();
      if r.None? || r.value.ns.None? {
        return Success;
      }
      var ns := r.value.ns.value;
      DefaultOwner(namespaces, AllEntries(frames));
      ghost var resolving := Resolving(namespaces, elements, owner, frames);
      MakeBaroque(ns);
      ghost var fs := frames;
      st := PushUnset();
      if resolving && (st == Success || !Namespaced(Top(fs), elements)) {
        assert Top(fs) in fs;
        if st != Success { OuterDefault(elements, fs, ns); }
        UnsetResolving(namespaces, elements, owner, fs, ns);
      }
    }

    method PushUnset() returns (st: Status)
      requires Valid() && Starting()
      modifies this`stack, this`pending, this`values, this`frames
      ensures Valid() && TagKept()
      ensures st == (if DeclAtt("") in old(pending) then DuplicateAttribute else Success)
      ensures pending == Chained(old(pending), DeclAtt(""))
      ensures frames == WithEntry(old(frames), Entry(None, "")) && DefaultClear(AllEntries(frames))
      ensures st == Success ==> LastOfDecl(Top(old(frames)).entries, "").None?
    {
      hide NsOk, StackOk, PendingOk, InTable, MoreCounted, Flatten, AllEntries, Names, UsersKept, Chained, WithEntry, LastOfDecl, DefaultClear;
      ghost var e := Entry(None, "");
      FlatPush(frames, e);
      UnsetOk(namespaces, AllEntries(frames));
      PendingDeclares(Names(namespaces), Top(frames).entries, pending, values, e);
      PushKeeps(elements, frames, e);
      ChainedKeeps(pending, "");
      UnsetClears(frames);
      DefaultPending(Names(namespaces), Top(frames).entries, pending, values);
      stack := stack + [Null];
      stack := stack + [DeclPtr("")];
      frames := WithEntry(frames, e);
      st := AddDeclaration("", "");
    }

    // ---------------------------------------------------------------- tags

    /** The prefix a declaration stands for; none is sent for the default. */
    function PrefixOf(e: Element): string
      reads this`namespaces
    {
      if e.ns.Some? && e.ns.value < |namespaces| && namespaces[e.ns.value].declaration.Some?
      then namespaces[e.ns.value].declaration.value else ""
    }

    /** The end of writeStartTag: the chain, from its first attribute on. */
    method WriteAttributes() returns (st: Status, decls: seq<(string, string)>, atts: seq<(AttName, string)>)
      ensures st == Success || st == AttributeInDefaultNamespace
      ensures st == Success <==> forall i :: 0 <= i < |pending| ==> Writable(namespaces, attributes, pending[i])
      ensures st == Success ==> decls == DeclsOf(pending, values) && atts == AttsOf(namespaces, attributes, pending)
    {
      decls, atts := [], [];
      for i := 0 to |pending|
        invariant decls == DeclsOf(pending[..i], values) && atts == AttsOf(namespaces, attributes, pending[..i])
        invariant forall j :: 0 <= j < i ==> Writable(namespaces, attributes, pending[j])
      {
        assert pending[..i + 1][..i] == pending[..i];
        var x := pending[i];
        if x.DeclAtt? {
          decls := decls + [(x.p, if x.p in values then values[x.p] else "")];
        } else if x.a < |attributes| {
          var a := attributes[x.a];
          if a.ns.Some? && a.ns.value < |namespaces| && namespaces[a.ns.value].baroque
             && namespaces[a.ns.value].declaration == Some("") {
            return AttributeInDefaultNamespace, decls, atts;
          }
          atts := atts + [(AttNameOf(namespaces, a), a.value)];
        }
      }
      assert pending[..|pending|] == pending;
      st := Success;
    }

    /** A tag has been sent for the top frame; an empty one leaves nothing open. */
    ghost predicate NestedTag(empty: bool)
      reads this
    {
      && frames != [] && sequence == Content
      && if strayed then Tags(out).Broken? else Nests(out, elements, if empty then frames[..|frames| - 1] else frames, true)
    }

    ghost predicate GoodTag(empty: bool)
      reads this
    {
      && frames != [] && sequence == Content
      && Resolving(namespaces, elements, owner, frames)
      && (forall p :: p in owner ==> Taken(p))
      && (strayed ==> spoiled)
      && if spoiled then Read(out).Failed?
         else Reads(out, Names(namespaces), elements, if empty then frames[..|frames| - 1] else frames, true, said)
    }

    /** The namespace of the element being started is usable, and all was well before. */
    ghost predicate Ready()
      reads this
    {
      && Good() && nowStarting < |elements|
      && (if elements[nowStarting].ns.Some? then InForce(namespaces, AllEntries(frames), elements[nowStarting].ns.value)
          else DefaultClear(AllEntries(frames)))
    }

    /** The table that the tag under way will be sent with. */
    ghost function TagTable(): seq<Namespace>
      reads this`namespaces, this`elements, this`frames, this`nowStarting
    {
      if nowStarting < |elements| then TableFor(namespaces, elements, frames, elements[nowStarting].ns) else namespaces
    }

    /** The tag under way cannot be sent: some attribute on it will be in a baroque namespace declared
        as the default. */
    ghost predicate Refused()
      reads this`namespaces, this`elements, this`frames, this`nowStarting, this`attributes, this`pending
    {
      Refuses(TagTable(), attributes, pending)
    }

    /** The start of writeStartTag; errors are ignored. */
    method PrepareTag()
      requires Valid() && Starting()
      modifies this`namespaces, this`prefixes, this`stack, this`pending, this`values, this`frames
      ensures Valid() && TagKept() && TopSendable() && namespaces == old(TagTable())
      ensures old(Nested()) ==> Nested()
      ensures old(Good()) ==> Ready()
      ensures old(Good()) && (forall i :: 0 <= i < |pending| ==> Writable(namespaces, attributes, pending[i])) ==> (Spoiling() <==> old(Spoiling()))
    {
      hide Resolving, StackOk, PendingOk, AttsDeclared, UsersKept, MoreCounted, DefaultsKept, Flatten, Reads, Nests,
        Names, DefaultClear, InForce, NsOk, AllEntries, DeclaredTable, DeclaredFrames, DeclaredChain, UndeclaredTable, UndeclaredFrames,
        UndeclaredChain, InPlace, DefaultNs, Standing, HasNs, Pushed, MadeBaroque, Writable, InTable;
      ghost var good, fs := Good(), frames;
      TopInTable(elements, frames);
      var e := elements[nowStarting];
      label before:
      if e.ns.Some? {
        HasDefault(namespaces, AllEntries(frames), e.ns.value);
        var _ := AddNamespaceInternal(e.ns.value, None);
        if good { PushJudged@before(); }
      } else {
        var _ := UnsetInternal();
        BaroqueJudged@before();
      }
      if good { StillGood@before(); }
    }

    twostate lemma PushJudged()
      requires old(Valid()) && old(Good()) && !old(Nameless()) && TagKept() && old(Starting())
      requires nowStarting < |elements| && elements[nowStarting].ns.Some?
      requires OnlyPushed(old(namespaces), namespaces, elements[nowStarting].ns.value)
      ensures (forall i :: 0 <= i < |pending| ==> Writable(namespaces, attributes, pending[i])) ==> (Spoiling() <==> old(Spoiling()))
    {
      hide Resolving, StackOk, PendingOk, AttsDeclared, MoreCounted, DefaultsKept, Flatten, Reads, Nests, Names, AllEntries, Writable, Spoils, UsersKept, Pushed;
      var n := elements[nowStarting].ns.value;
      if forall i :: 0 <= i < |pending| ==> Writable(namespaces, attributes, pending[i]) {
        if namespaces == old(namespaces) {
          SameSpoils(namespaces, attributes, old(pending), pending);
        } else {
          PushSpoils(old(namespaces), attributes, AllEntries(old(frames)), old(pending), pending, n, old(namespaces)[n].defaultDecl.value);
        }
      }
    }

    twostate lemma BaroqueJudged()
      requires TagKept()
      requires namespaces == old(namespaces) || exists m: nat :: m < |old(namespaces)| && namespaces == MadeBaroque(old(namespaces), m)
      ensures (forall i :: 0 <= i < |pending| ==> Writable(namespaces, attributes, pending[i])) ==> (Spoiling() <==> old(Spoiling()))
    {
      hide MoreCounted, DefaultsKept, Names, AllEntries, Writable, Spoils, UsersKept, MadeBaroque;
      if forall i :: 0 <= i < |pending| ==> Writable(namespaces, attributes, pending[i]) {
        if namespaces == old(namespaces) {
          SameSpoils(namespaces, attributes, old(pending), pending);
        } else {
          var m: nat :| m < |old(namespaces)| && namespaces == MadeBaroque(old(namespaces), m);
          BaroqueSpoils(old(namespaces), attributes, old(pending), pending, m);
        }
      }
    }

    /** The namespace of the element being started can be sent. */
    ghost predicate TopSendable()
      reads this
    {
      nowStarting < |elements| && (elements[nowStarting].ns.Some? ==> Sendable(namespaces, AllEntries(frames), elements[nowStarting].ns.value))
    }

    /** A declaration that leaves names resolving leaves everything well. */
    twostate lemma StillGood()
      requires old(Valid()) && Valid() && old(Starting()) && TagKept() && old(Good())
      requires Resolving(namespaces, elements, owner, frames) && DeclarationsKept(old(namespaces), namespaces, AllEntries(frames))
      requires old(spoiled) == spoiled && old(strayed) == strayed
      ensures Good()
    {
      hide Resolving, StackOk, PendingOk, AttsDeclared, UsersKept, MoreCounted, DefaultsKept, Flatten, Reads, Names;
      if !Nameless() {
        DeclaredStill(attributes, old(namespaces), namespaces, AllEntries(old(frames)), AllEntries(frames), old(pending), pending);
      }
    }

    twostate lemma SameMeant()
      requires old(Valid()) && Valid() && TagKept()
      ensures Meant() == old(Meant())
    {
      hide StackOk, PendingOk, Flatten, Names, UsersKept, MeantAtts, AllEntries;
      MeantKept(Names(namespaces), attributes, old(pending), pending);
    }

    ghost function Started(empty: bool): seq<Event>
      reads this
    {
      [StartEvent(Meant().0, Meant().1)] + if empty then [EndEvent(Meant().0)] else []
    }

    /** The bytes of the tag; the callers' change of sequence is made here. */
    method SendTag(decls: seq<(string, string)>, atts: seq<(AttName, string)>, empty: bool)
      requires Valid() && Starting() && TopSendable()
      requires decls == DeclsOf(pending, values) && atts == AttsOf(namespaces, attributes, pending)
      requires forall i :: 0 <= i < |pending| ==> Writable(namespaces, attributes, pending[i])
      modifies this`out, this`said, this`pending, this`sequence, this`spoiled
      ensures Valid() && sequence == Content && said == old(said + Started(empty)) && spoiled == old(spoiled || Spoiling())
      ensures old(Nested()) ==> NestedTag(empty)
      ensures old(Ready()) ==> GoodTag(empty)
    {
      hide StackOk, PendingOk, AttsDeclared, Flatten, Names, DeclsOf, AttsOf, NsOk, Resolving, Reads, InTable, AllEntries, Meant, InForce,
        TopSendable, Nests, Started, PrefixOf, Writable, Spoils, Sendable, Tags, Read, ChainInTable, DefaultClear, NestedTag, GoodTag;
      TopInTable(elements, frames);
      var e := elements[nowStarting];
      var t := OpenTag(QName(PrefixOf(e), e.name), decls, atts, empty);
      ghost var fs := if empty then frames[..|frames| - 1] else frames;
      if Nested() { TagNests(t, fs); }
      if Ready() { TagMeans(t, fs); }
      label before:
      Emit(t, Started(empty), Spoiling());
      TagSent@before(t);
    }

    /** The tag is out and nothing is pending. */
    method Emit(t: Token, ghost more: seq<Event>, ghost spoils: bool)
      requires Valid() && Starting()
      modifies this`out, this`said, this`pending, this`sequence, this`spoiled
      ensures Valid() && sequence == Content && pending == [] && out == old(out) + [t] && said == old(said) + more
      ensures spoiled == (old(spoiled) || spoils)
    {
      hide StackOk, Flatten, Names, NsOk, InTable, AllEntries, LastOfDecl;
      out := out + [t];
      said := said + more;
      spoiled := spoiled || spoils;
      pending := [];
      sequence := Content;
    }

    twostate lemma TagSent(t: Token)
      requires t.OpenTag? && old(Valid()) && old(Starting()) && Valid() && sequence == Content
      requires frames == old(frames) && frames != [] && namespaces == old(namespaces) && elements == old(elements) && owner == old(owner) && strayed == old(strayed)
      requires prefixes == old(prefixes) && defaultNsDeclared == old(defaultNsDeclared)
      requires out == old(out) + [t] && spoiled == (old(spoiled) || old(Spoiling())) && said == old(said) + old(Started(t.empty))
      requires old(Nested()) ==>
        if strayed then Tags(out).Broken? else Nests(out, elements, if t.empty then frames[..|frames| - 1] else frames, true)
      requires old(Ready()) ==>
        && Resolving(namespaces, elements, owner, frames)
        && if spoiled then Read(out).Failed?
           else Reads(out, Names(namespaces), elements, if t.empty then frames[..|frames| - 1] else frames, true, said)
      ensures old(Nested()) ==> NestedTag(t.empty)
      ensures old(Ready()) ==> GoodTag(t.empty)
    {
      hide StackOk, PendingOk, AttsDeclared, Flatten, Names, NsOk, Resolving, Reads, InTable, AllEntries, Meant, InForce,
        Nests, Started, Spoils, Sendable, Tags, Read, ChainInTable, DefaultClear;
    }

    lemma TagNests(t: Token, fs: seq<Frame>)
      requires Valid() && Starting() && Nested() && TopSendable()
      requires t.OpenTag? && t.name == QName(PrefixOf(elements[nowStarting]), elements[nowStarting].name)
      requires fs == if t.empty then frames[..|frames| - 1] else frames
      ensures if strayed then Tags(out + [t]).Broken? else Nests(out + [t], elements, fs, true)
    {
      hide PendingOk, Flatten, Names, Nests, AllEntries, StackOk, CountNs;
      TagsNext(out, t);
      if !strayed {
        if elements[nowStarting].ns.Some? { PrefixSent(namespaces, elements, frames); }
        StartTagNests(out, elements, frames, t);
      }
    }

    /** What the reader makes of the tag about to be sent. */
    lemma TagMeans(t: Token, fs: seq<Frame>)
      requires Valid() && Starting() && Ready() && TopSendable()
      requires forall i :: 0 <= i < |pending| ==> Writable(namespaces, attributes, pending[i])
      requires t.OpenTag? && t.name == QName(PrefixOf(elements[nowStarting]), elements[nowStarting].name)
      requires t.decls == DeclsOf(pending, values) && t.atts == AttsOf(namespaces, attributes, pending)
      requires fs == if t.empty then frames[..|frames| - 1] else frames
      ensures Resolving(namespaces, elements, owner, frames)
      ensures if spoiled || Spoiling() then Read(out + [t]).Failed?
              else Reads(out + [t], Names(namespaces), elements, fs, true, said + Started(t.empty))
    {
      hide StackOk, PendingOk, AttsDeclared, Flatten, Names, InForce, AttsUsable, ScopeAt, DeclsOf, AttsOf, DefaultClear, NsOk,
        Owned, Unshadowed, NamesOk, FrameOk, MeantAtts, Reads, AllEntries, Writable, Spoils, Sendable;
      var e := elements[nowStarting];
      ReadNext(out, t);
      if !spoiled {
        if e.ns.Some? { PrefixSent(namespaces, elements, frames); }
        assert t.name == NameOn(elements, frames);
        UsableExactly(namespaces, attributes, AllEntries(frames), pending);
        StartTagRead(out, namespaces, elements, attributes, owner, frames, pending, values, t.empty, said);
        var start := StartEvent(Meant().0, Meant().1);
        assert Started(t.empty) == if t.empty then [start, EndEvent(Meant().0)] else [start];
        assert t == OpenTag(NameOn(elements, frames), t.decls, t.atts, t.empty);
      }
    }

    /** writeStartTag */
    method WriteStartTag(empty: bool) returns (st: Status)
      requires Valid() && Starting()
      modifies this`namespaces, this`prefixes, this`stack, this`pending, this`values, this`frames, this`out, this`said, this`sequence,
        this`spoiled
      ensures st == if old(Refused()) then AttributeInDefaultNamespace else Success
      ensures st == Success ==>
        && Valid() && sequence == Content && |frames| == |old(frames)| && Names(namespaces) == old(Names(namespaces))
        && frames[..|frames| - 1] == old(frames)[..|frames| - 1] && Top(frames).element == old(nowStarting)
        && said == old(said + Started(empty))
      ensures st == Success && old(Nested()) ==> NestedTag(empty)
      ensures st == Success && old(Good()) ==> GoodTag(empty) && spoiled == old(spoiled || Spoiling())
    {
      hide Resolving, StackOk, PendingOk, AttsDeclared, UsersKept, MoreCounted, DefaultsKept, Flatten, Reads, Names,
        DefaultClear, InForce, AttsUsable, Writable, DeclsOf, AttsOf, GoodTag, NestedTag, Nested, Meant, TopSendable, AllEntries, Spoils;
      PrepareTag();
      SameMeant();
      SameRefused(namespaces, attributes, old(pending), pending);
      var decls, atts;
      st, decls, atts := WriteAttributes();
      if st != Success {
        return st;
      }
      SendTag(decls, atts, empty);
    }

    // ---------------------------------------------------------------- declarations

    /** genxNew; the xml namespace is pre-wired. */
    constructor ()
      ensures Valid() && Nested() && Good() && sequence == NoDoc
      ensures Names(namespaces) == [XML_NAMESPACE] && elements == [] && attributes == []
    {
      namespaces := [Namespace(XML_NAMESPACE, 1, false, Some("xml"), Some("xml"))];
      elements, attributes, prefixes, defaultNsDeclared, nextPrefix := [], [], {"xml"}, false, 1;
      sequence, stack, nowStarting, nowStartingAttr, pending, values, out := NoDoc, [], 0, 0, [], map[], [];
      frames, owner, said, strayed, spoiled := [], map["xml" := 0], [], false, false;
    }

    predicate FirstNamed(nss: seq<Namespace>, i: nat, uri: string)
      requires i < |nss|
    {
      nss[i].name == uri && forall j :: 0 <= j < i ==> nss[j].name != uri
    }

    method FindNamespace(uri: string) returns (r: Option<nat>)
      ensures r.Some? ==> r.value < |namespaces| && FirstNamed(namespaces, r.value, uri)
      ensures r.None? ==> forall i :: 0 <= i < |namespaces| ==> namespaces[i].name != uri
    {
      for i := 0 to |namespaces|
        invariant forall j :: 0 <= j < i ==> namespaces[j].name != uri
      {
        if namespaces[i].name == uri {
          return Some(i);
        }
      }
      return None;
    }

    /** Has this default prefix been given away? */
    predicate Taken(p: Prefix)
      reads this`prefixes, this`defaultNsDeclared
    {
      if p == "" then defaultNsDeclared else p in prefixes
    }

    /** What giving a prefix away answers. */
    function PrefixStatus(p: Prefix): Status
      reads this`prefixes, this`defaultNsDeclared
    {
      if |p| > MAX_PREFIX then BadNamespaceName else if Taken(p) then DuplicatePrefix else Success
    }

    /** storePrefix and its counterpart for the empty prefix. */
    method StorePrefix(p: Prefix) returns (st: Status)
      modifies this`prefixes, this`defaultNsDeclared
      ensures st == Success <==> |p| <= MAX_PREFIX && !old(Taken(p))
      ensures st == DuplicatePrefix <==> |p| <= MAX_PREFIX && old(Taken(p))
      ensures st == BadNamespaceName <==> |p| > MAX_PREFIX
      ensures prefixes == if st == Success && p != "" then old(prefixes) + {p} else old(prefixes)
      ensures defaultNsDeclared == if st == Success && p == "" then true else old(defaultNsDeclared)
    {
      if |p| > MAX_PREFIX {
        return BadNamespaceName;
      }
      if Taken(p) {
        return DuplicatePrefix;
      }
      if p == "" {
        defaultNsDeclared := true;
      } else {
        prefixes := prefixes + {p};
      }
      return Success;
    }

    /** What declaring a namespace leaves alone. */
    twostate predicate RunKept()
      reads this
    {
      && elements == old(elements) && attributes == old(attributes) && sequence == old(sequence)
      && stack == old(stack) && frames == old(frames) && pending == old(pending) && values == old(values)
      && nowStarting == old(nowStarting) && nowStartingAttr == old(nowStartingAttr) && out == old(out) && said == old(said)
      && spoiled == old(spoiled) && strayed == old(strayed)
    }

    twostate lemma StillValid()
      requires old(Valid()) && RunKept() && DeclarationsKept(old(namespaces), namespaces, AllEntries(frames))
      requires StackOk(namespaces, AllEntries(frames)) && |namespaces| >= |old(namespaces)|
      requires old(Names(namespaces)) <= Names(namespaces)
      ensures Valid()
      ensures old(Nested()) ==> Nested()
      ensures (old(Good()) && Resolving(namespaces, elements, owner, frames) && (forall p :: p in owner ==> Taken(p))) ==> Good()
    {
      hide Resolving, PendingOk, AttsDeclared, Flatten, Reads, Nests, NsOk, AllEntries, InTable, Names;
      var names, names' := old(Names(namespaces)), Names(namespaces);
      NamesSize(old(namespaces));
      if frames != [] { OuterEntries(frames, |names|); }
      if Starting() { PendingKept(names, names', Top(frames).entries, pending, values); }
      if old(Good()) && !Nameless() {
        SelfKept(frames, pending, namespaces);
        DeclaredStill(attributes, old(namespaces), namespaces, AllEntries(frames), AllEntries(frames), pending, pending);
      }
      if old(Good()) && sequence != NoDoc && !spoiled {
        ReadsKept(out, names, names', elements, elements, Written(), Written() != [] || sequence == PostDoc, said);
      }
    }

    /** The prefix `p` now belongs to the namespace `ns`, nothing else has happened but to the table. */
    twostate predicate Given(ns: nat, p: Prefix)
      reads this
    {
      && RunKept() && owner == old(owner)[p := ns] && !old(Taken(p))
      && prefixes == (if p != "" then old(prefixes) + {p} else old(prefixes))
      && defaultNsDeclared == (p == "" || old(defaultNsDeclared))
    }

    twostate lemma RedefaultKeeps(ns: nat)
      requires old(Valid()) && ns < |namespaces| && ns < |old(namespaces)| && namespaces[ns].defaultDecl.Some?
      requires Given(ns, namespaces[ns].defaultDecl.value)
      requires namespaces == Redefaulted(old(namespaces), ns, namespaces[ns].defaultDecl.value)
      ensures Valid() && Names(namespaces) == old(Names(namespaces))
      ensures old(Nested()) ==> Nested()
      ensures old(Good()) ==> Good()
    {
      var p := namespaces[ns].defaultDecl.value;
      hide Resolving, StackOk, PendingOk, AttsDeclared, Flatten, Reads, Nests, Names, NsOk, AllEntries, InTable;
      RedefaultOk(old(namespaces), AllEntries(frames), ns, p);
      if old(Good()) { RedefaultResolving(old(namespaces), elements, old(owner), frames, ns, p); }
      StackSome(old(namespaces), AllEntries(frames));
      StillValid();
    }

    twostate lemma AppendKeeps()
      requires old(Valid()) && |namespaces| == |old(namespaces)| + 1
      requires var r := namespaces[|old(namespaces)|];
               && namespaces == old(namespaces) + [r]
               && r.declCount == 0 && !r.baroque && r.declaration.None? && r.defaultDecl.Some? && r.name != ""
               && Given(|old(namespaces)|, r.defaultDecl.value)
      ensures Valid() && old(Names(namespaces)) <= Names(namespaces)
      ensures old(Nested()) ==> Nested()
      ensures old(Good()) ==> Good()
    {
      hide Resolving, StackOk, PendingOk, AttsDeclared, Flatten, Reads, Nests, Names, NsOk, AllEntries, InTable;
      var r := namespaces[|old(namespaces)|];
      var p := r.defaultDecl.value;
      GrowOk(old(namespaces), AllEntries(frames), r);
      NamesGrow(old(namespaces), r);
      if old(Good()) { GrowResolving(old(namespaces), elements, old(owner), frames, r, p); }
      StackSome(old(namespaces), AllEntries(frames));
      StillValid();
    }

    /** A known namespace is given another default declaration and becomes baroque. */
    method Redefault(ns: nat, p: Prefix) returns (st: Status)
      requires Valid() && ns < |namespaces| && namespaces[ns].defaultDecl != Some(p)
      modifies this`namespaces, this`prefixes, this`defaultNsDeclared, this`owner
      ensures st == old(PrefixStatus(p))
      ensures st == Success ==> Given(ns, p) && namespaces == Redefaulted(old(namespaces), ns, p)
    {
      hide StackOk, PendingOk, AllEntries, InTable, NsOk;
      HasDefault(namespaces, AllEntries(frames), ns);
      st := StorePrefix(p);
      if st != Success {
        return st;
      }
      var r := namespaces[ns];
      namespaces := namespaces[ns := r.(defaultDecl := Some(p), baroque := r.baroque || r.defaultDecl.Some?)];
      owner := owner[p := ns];
    }

    method Append(uri: string, p: Prefix) returns (st: Status)
      requires Valid() && uri != ""
      modifies this`namespaces, this`prefixes, this`defaultNsDeclared, this`owner
      ensures st == old(PrefixStatus(p))
      ensures st == Success ==> Given(|old(namespaces)|, p)
      ensures st == Success ==> namespaces == old(namespaces) + [Namespace(uri, 0, false, None, Some(p))]
    {
      hide StackOk, PendingOk, AllEntries, InTable, NsOk;
      var ns := |namespaces|;
      namespaces := namespaces + [Namespace(uri, 0, false, None, None)];
      st := StorePrefix(p);
      if st != Success {
        return st;
      }
      namespaces := namespaces[ns := namespaces[ns].(defaultDecl := Some(p))];
      owner := owner[p := ns];
    }

    /** The prefix given, or the next one made up. */
    function PrefixFor(defaultPref: Option<Prefix>): Prefix
      reads this`nextPrefix
    {
      if defaultPref.Some? then defaultPref.value else "g" + Decimal(nextPrefix)
    }

    /** A prefix is made up when none is given: g and a number, never the same one twice. */
    method ChoosePrefix(defaultPref: Option<Prefix>) returns (p: Prefix)
      modifies this`nextPrefix
      ensures p == old(PrefixFor(defaultPref))
      ensures if defaultPref.Some? then p == defaultPref.value && nextPrefix == old(nextPrefix)
              else p !in MadeUp(old(nextPrefix)) && MadeUp(nextPrefix) == MadeUp(old(nextPrefix)) + {p}
    {
      if defaultPref.Some? {
        return defaultPref.value;
      }
      p := "g" + Decimal(nextPrefix);
      forall k: nat | k < nextPrefix
        ensures "g" + Decimal(k) != p
      {
        DecimalsDiffer(k, nextPrefix);
        assert ("g" + Decimal(k))[1..] == Decimal(k) && p[1..] == Decimal(nextPrefix);
      }
      nextPrefix := nextPrefix + 1;
    }

    /** genxDeclareNamespace. A failed call may leave behind a namespace that has no declaration. */
    method DeclareNamespace(uri: string, defaultPref: Option<Prefix>) returns (st: Status, ns: nat)
      requires Valid()
      modifies this`namespaces, this`prefixes, this`defaultNsDeclared, this`nextPrefix, this`owner
      ensures uri == "" ==> st == BadNamespaceName
      ensures uri != "" ==> forall i: nat :: i < |old(namespaces)| && FirstNamed(old(namespaces), i, uri) ==>
        st == if defaultPref.None? || old(namespaces)[i].defaultDecl == defaultPref then Success else old(PrefixStatus(PrefixFor(defaultPref)))
      ensures uri != "" && (forall i :: 0 <= i < |old(namespaces)| ==> old(namespaces)[i].name != uri) ==>
        st == old(PrefixStatus(PrefixFor(defaultPref)))
      ensures st == Success ==>
        && Valid() && ns < |namespaces| && namespaces[ns].name == uri
        && old(Names(namespaces)) <= Names(namespaces)
        && (defaultPref.Some? ==> namespaces[ns].defaultDecl == defaultPref)
        && (namespaces != old(namespaces) ==> forall p :: namespaces[ns].defaultDecl == Some(p) ==> !old(Taken(p)))
      ensures st == Success && old(Nested()) ==> Nested()
      ensures st == Success && old(Good()) ==> Good()
    {
      hide Resolving, StackOk, PendingOk, AttsDeclared, Flatten, Reads, Nests, Names, NsOk, AllEntries, InTable, Decimal;
      ns := 0;
      if uri == "" {
        return BadNamespaceName, ns;
      }
      var known := FindNamespace(uri);
      if known.Some? {
        ns := known.value;
        if defaultPref.None? || namespaces[ns].defaultDecl == defaultPref {
          return Success, ns;
        }
        st := Redefault(ns, defaultPref.value);
        if st == Success { RedefaultKeeps(ns); }
      } else {
        var p := ChoosePrefix(defaultPref);
        ns := |namespaces|;
        st := Append(uri, p);
        if st == Success { AppendKeeps(); }
      }
    }

    /** genxDeclareElement: one element for each namespace and name. */
    method DeclareElement(ns: Option<nat>, name: string) returns (e: nat)
      requires Valid() && (ns.Some? ==> ns.value < |namespaces|)
      modifies this`elements
      ensures Valid() && e < |elements| && old(elements) <= elements
      ensures elements[e].ns.Some? <==> ns.Some?
      ensures ExpandedOf(Names(namespaces), elements[e].ns, elements[e].name) == ExpandedOf(Names(namespaces), ns, name)
      ensures Starting() ==> Meant() == old(Meant())
      ensures old(Nested()) ==> Nested()
      ensures old(Good()) ==> Good()
    {
      hide Resolving, StackOk, PendingOk, AttsDeclared, Flatten, Reads, Nests, NsOk, AllEntries, InTable, MeantAtts;
      NamesSize(namespaces);
      for i := 0 to |elements|
      {
        var known := elements[i];
        if known.name == name && (known.ns.None? <==> ns.None?)
           && (ns.Some? ==> namespaces[known.ns.value].name == namespaces[ns.value].name) {
          return i;
        }
      }
      e := |elements|;
      elements := elements + [Element(ns, name)];
      ElementAdded();
    }

    twostate lemma ElementAdded()
      requires old(Valid()) && unchanged(this`namespaces, this`attributes, this`prefixes, this`defaultNsDeclared, this`sequence, this`stack,
        this`nowStarting, this`nowStartingAttr, this`pending, this`values, this`out, this`frames, this`owner, this`said, this`spoiled, this`strayed)
      requires |elements| == |old(elements)| + 1 && elements == old(elements) + [elements[|old(elements)|]]
      requires var ns := elements[|old(elements)|].ns; ns.Some? ==> ns.value < |namespaces|
      ensures Valid() && (Starting() ==> Meant() == old(Meant()))
      ensures old(Nested()) ==> Nested()
      ensures old(Good()) ==> Good()
    {
      hide Resolving, StackOk, PendingOk, AttsDeclared, Flatten, Reads, NsOk, AllEntries, Names, MeantAtts, TagNames, Covered;
      NamesSize(namespaces);
      EntriesBound(namespaces, frames);
      if frames != [] {
        OuterEntries(frames, |namespaces|);
        TopInTable(old(elements), frames);
      }
      if old(Nested()) && sequence != NoDoc && !strayed { NestsKept(old(elements), elements, Written()); }
      if old(Good()) {
        ElementsGrow(namespaces, old(elements), owner, frames, elements[|old(elements)|]);
        if sequence != NoDoc && !spoiled {
          ReadsKept(out, Names(namespaces), Names(namespaces), old(elements), elements, Written(), Written() != [] || sequence == PostDoc, said);
        }
      }
    }

    /** genxDeclareAttribute, for names that do not start with xmlns: one attribute for each namespace and name. */
    method DeclareAttribute(ns: Option<nat>, name: string) returns (st: Status, a: nat)
      requires Valid() && (ns.Some? ==> ns.value < |namespaces|)
      modifies this`attributes
      ensures st == if ns.Some? && namespaces[ns.value].defaultDecl == Some("") then AttributeInDefaultNamespace else Success
      ensures st == Success ==> a < |attributes| && attributes[a].ns == ns && attributes[a].name == name
      ensures old(attributes) <= attributes && Valid() && Meant() == old(Meant())
      ensures old(Nested()) ==> Nested()
      ensures old(Good()) ==> Good()
    {
      hide Resolving, StackOk, PendingOk, AttsDeclared, Flatten, Reads, Nests, NsOk, AllEntries, InTable, MeantAtts;
      a := 0;
      if ns.Some? && namespaces[ns.value].defaultDecl == Some("") {
        return AttributeInDefaultNamespace, a;
      }
      for i := 0 to |attributes|
      {
        if attributes[i].ns == ns && attributes[i].name == name {
          return Success, i;
        }
      }
      a := |attributes|;
      MeantAppended(Names(namespaces), attributes, Attribute(ns, name, ""), pending);
      DeclaredAppended(namespaces, attributes, Attribute(ns, name, ""), AllEntries(frames), pending);
      attributes := attributes + [Attribute(ns, name, "")];
      return Success, a;
    }

    // ---------------------------------------------------------------- the document and its elements

    /** genxStartDocSender */
    method StartDoc() returns (st: Status)
      requires Valid()
      modifies this`sequence, this`out, this`said, this`strayed, this`spoiled
      ensures st == if old(sequence) == NoDoc then Success else SequenceError
      ensures Valid() && (st == Success ==> sequence == PreDoc && out == [] && said == [] && !strayed && !spoiled)
      ensures old(Nested()) ==> Nested()
      ensures old(Good()) ==> Good()
    {
      hide Resolving, StackOk, PendingOk, AttsDeclared, NsOk, Spoils, Flatten, AllEntries, Names, CountNs, LastOfDecl;
      if sequence != NoDoc {
        return SequenceError;
      }
      sequence, out, said, strayed, spoiled := PreDoc, [], [], false, false;
      return Success;
    }

    /** What sending the tag under way, if there is one, will say. */
    ghost function Due(): seq<Event>
      reads this
    {
      if sequence == StartTag || sequence == Attributes then Started(false) else []
    }

    /** What the next call that sends the tag under way, if there is one, makes of `spoiled`. */
    predicate TagSpoils()
      reads this
    {
      (sequence == StartTag || sequence == Attributes) && Spoiling()
    }

    ghost predicate SpoiledNext()
      reads this
    {
      spoiled || TagSpoils()
    }

    /** Is there a tag under way that cannot be sent? */
    ghost predicate TagRefused()
      reads this`namespaces, this`elements, this`frames, this`nowStarting, this`attributes, this`pending, this`sequence
    {
      (sequence == StartTag || sequence == Attributes) && Refused()
    }

    /** Sends the tag under way, if there is one, before what comes next. */
    method FinishTag() returns (st: Status)
      requires Valid() && sequence in {StartTag, Attributes, PreDoc, Content}
      modifies this`namespaces, this`prefixes, this`stack, this`pending, this`values, this`frames, this`out, this`said, this`sequence,
        this`spoiled
      ensures st == if old(TagRefused()) then AttributeInDefaultNamespace else Success
      ensures st == Success ==>
        && Valid() && sequence == (if old(sequence) == PreDoc then PreDoc else Content) && |frames| == |old(frames)|
        && Names(namespaces) == old(Names(namespaces)) && said == old(said + Due())
      ensures st == Success && old(Nested()) ==> Nested()
      ensures st == Success && old(Good()) ==> Good() && spoiled == old(SpoiledNext())
    {
      hide Resolving, StackOk, PendingOk, Flatten, Reads, Nests, Names, AllEntries, Started, InTable;
      if sequence == PreDoc || sequence == Content {
        return Success;
      }
      st := WriteStartTag(false);
    }

    /** genxStartElement */
    method StartElement(e: nat) returns (st: Status)
      requires Valid() && e < |elements|
      modifies this`namespaces, this`prefixes, this`stack, this`pending, this`values, this`frames, this`out, this`said, this`sequence,
        this`nowStarting, this`spoiled
      ensures st in {Success, SequenceError, AttributeInDefaultNamespace}
      ensures st == AttributeInDefaultNamespace <==> old(TagRefused())
      ensures st == SequenceError <==> old(sequence) in {NoDoc, PostDoc, StartAttr}
      ensures st == Success ==>
        && Valid() && sequence == StartTag && |frames| == |old(frames)| + 1 && Top(frames).element == e
        && said == old(said + Due())
        && Meant() == (ExpandedOf(Names(namespaces), elements[e].ns, elements[e].name), [])
      ensures st == Success && old(Nested()) ==> Nested()
      ensures st == Success && old(Good()) ==> Good() && spoiled == old(SpoiledNext())
    {
      hide Resolving, StackOk, PendingOk, Flatten, Reads, Nests, Names, AllEntries, Due, CountNs;
      if sequence == NoDoc || sequence == PostDoc || sequence == StartAttr {
        return SequenceError;
      }
      st := FinishTag();
      if st != Success {
        return st;
      }
      label before:
      Push(e);
      PushKept@before(e);
    }

    method Push(e: nat)
      requires Valid() && sequence in {PreDoc, Content} && e < |elements|
      modifies this`stack, this`frames, this`sequence, this`nowStarting
      ensures Valid() && sequence == StartTag && frames == old(frames) + [Frame(e, [])] && nowStarting == e
    {
      hide Resolving, StackOk, Flatten, Reads, Nests, Names, AllEntries, CountNs, InTable, PendingOk, LastOfDecl, Top, ChainInTable;
      FreshFrame(Names(namespaces), elements, frames, e, values);
      ghost var fs := frames + [Frame(e, [])];
      stack := stack + [ElementPtr(e)];
      stack := stack + [Null];
      sequence, frames, nowStarting := StartTag, fs, e;
    }

    twostate lemma PushKept(e: nat)
      requires old(Valid()) && old(sequence) in {PreDoc, Content} && e < |elements|
      requires unchanged(this`namespaces, this`elements, this`attributes, this`prefixes, this`defaultNsDeclared,
        this`nowStartingAttr, this`pending, this`values, this`out, this`owner, this`said, this`spoiled, this`strayed)
      requires Valid() && sequence == StartTag && frames == old(frames) + [Frame(e, [])] && nowStarting == e
      ensures Meant() == (ExpandedOf(Names(namespaces), elements[e].ns, elements[e].name), [])
      ensures old(Nested()) ==> Nested()
      ensures old(Good()) ==> Good()
    {
      hide Resolving, StackOk, Flatten, Reads, Nests, Names, AllEntries, CountNs, InTable, PendingOk;
      if old(Good()) { OpenResolving(namespaces, elements, owner, old(frames), e); }
      assert frames[..|frames| - 1] == old(frames);
    }

    /** genxAddNamespace */
    method AddNamespace(ns: nat, prefix: Option<Prefix>) returns (st: Status)
      requires Valid() && ns < |namespaces|
      modifies this`namespaces, this`prefixes, this`stack, this`pending, this`values, this`frames
      ensures st == SequenceError <==> old(sequence) != StartTag
      ensures st != SequenceError ==>
        st == if prefix.Some? && |prefix.value| > MAX_PREFIX then BadNamespaceName else old(DeclareStatus(ns, Chosen(ns, prefix)))
      ensures if st == SequenceError || st == BadNamespaceName then unchanged(this) else DeclaredSo(ns, old(Chosen(ns, prefix)))
      ensures st == Success ==> InPlace(AllEntries(frames), ns, old(Chosen(ns, prefix)))
      ensures Valid() && (sequence == StartTag ==> TagKept() && Meant() == old(Meant()))
      ensures old(Nested()) ==> Nested()
      ensures prefix.None? && old(Good()) ==> Good()
    {
      hide Resolving, StackOk, PendingOk, Flatten, Reads, Nests, Names, AllEntries, UsersKept, MoreCounted, DefaultsKept,
        MeantAtts, AttsDeclared;
      if sequence != StartTag {
        return SequenceError;
      }
      ghost var good := Good();
      label before:
      st := AddNamespaceInternal(ns, prefix);
      StackSome(namespaces, AllEntries(frames));
      SameMeant();
      if good && prefix.None? { StillGood@before(); }
    }

    /** genxUnsetDefaultNamespace */
    method UnsetDefaultNamespace() returns (st: Status)
      requires Valid()
      modifies this`namespaces, this`stack, this`pending, this`values, this`frames
      ensures st == if old(sequence) != StartTag then SequenceError
                    else if old(DefaultNs(AllEntries(frames)).Some? && DeclAtt("") in pending) then DuplicateAttribute else Success
      ensures if st == SequenceError then unchanged(this) else
        && DefaultClear(AllEntries(frames))
        && namespaces == old(UndeclaredTable(namespaces, AllEntries(frames))) && frames == old(UndeclaredFrames(frames))
        && pending == old(UndeclaredChain(frames, pending))
      ensures Valid() && (sequence == StartTag ==> TagKept() && Meant() == old(Meant()))
      ensures old(Nested()) ==> Nested()
      ensures st == Success && old(Good()) ==> Good()
    {
      hide Resolving, StackOk, PendingOk, Flatten, Reads, Nests, Names, AllEntries, UsersKept, MoreCounted, DefaultsKept,
        MeantAtts, AttsDeclared, DefaultClear;
      if sequence != StartTag {
        return SequenceError;
      }
      ghost var good := Good();
      label before:
      st := UnsetInternal();
      StackSome(namespaces, AllEntries(frames));
      SameMeant();
      if good && st == Success { StillGood@before(); }
    }

    // ---------------------------------------------------------------- attributes

    /** genxAddAttribute */
    method AddAttribute(a: nat, value: string) returns (st: Status)
      requires Valid() && a < |attributes|
      modifies this`namespaces, this`prefixes, this`stack, this`pending, this`values, this`frames, this`attributes, this`sequence
      ensures st == SequenceError <==> old(sequence) !in {StartTag, Attributes}
      ensures st == DuplicateAttribute <==> old(sequence) in {StartTag, Attributes} && old(UserAtt(a) in pending)
      ensures st in {Success, SequenceError, DuplicateAttribute} && Valid() && |attributes| == |old(attributes)|
      ensures st != SequenceError ==>
        && (namespaces, frames) == (old(DeclaredFor(a)).0, old(DeclaredFor(a)).1)
        && pending == old(DeclaredFor(a)).2 + if st == Success then [UserAtt(a)] else []
      ensures st == Success ==>
        sequence == Attributes && Meant() == (old(Meant()).0, old(Meant()).1 + [(ExpandedAtt(a), value)])
      ensures old(Nested()) ==> Nested()
      ensures old(Good()) ==> Good()
    {
      hide Resolving, StackOk, PendingOk, Flatten, Reads, Nests, Names, AllEntries, MeantAtts, AttsDeclared, ChainInTable,
        InTable;
      if sequence != StartTag && sequence != Attributes {
        return SequenceError;
      }
      SetValue(a, value, Attributes);
      st := Attach(a);
    }

    function ExpandedAtt(a: nat): Expanded
      requires a < |attributes|
      reads this`attributes, this`namespaces
    {
      ExpandedOf(Names(namespaces), attributes[a].ns, attributes[a].name)
    }

    /** The collector of an attribute is filled; `next` is the new sequence state. */
    method SetValue(a: nat, value: string, next: Sequence)
      requires Valid() && a < |attributes| && Starting() && next in {Attributes, StartAttr}
      requires next == StartAttr ==> nowStartingAttr == a
      modifies this`attributes, this`sequence
      ensures Valid() && sequence == next
      ensures attributes == old(attributes)[a := old(attributes)[a].(value := value)]
      ensures UserAtt(a) !in pending ==> Meant() == old(Meant())
      ensures old(Nested()) ==> Nested()
      ensures old(Good()) ==> Good()
    {
      hide Resolving, StackOk, PendingOk, Flatten, Reads, Nests, Names, AllEntries, MeantAtts, InTable, CountNs;
      if UserAtt(a) !in pending { ValueOffChain(Names(namespaces), attributes, pending, a, value); }
      attributes := attributes[a := attributes[a].(value := value)];
      sequence := next;
    }

    /** The end of addAttribute and of genxEndAttribute: the namespace is declared, which may fail, and
        the attribute goes on the chain. */
    method Attach(a: nat) returns (st: Status)
      requires Valid() && a < |attributes| && Starting()
      modifies this`namespaces, this`prefixes, this`stack, this`pending, this`values, this`frames
      ensures Valid() && Names(namespaces) == old(Names(namespaces))
      ensures (namespaces, frames) == (old(DeclaredFor(a)).0, old(DeclaredFor(a)).1)
      ensures pending == old(DeclaredFor(a)).2 + if st == Success then [UserAtt(a)] else []
      ensures st == if old(UserAtt(a) in pending) then DuplicateAttribute else Success
      ensures Meant() == if st == Success then (old(Meant()).0, old(Meant()).1 + [(ExpandedAtt(a), attributes[a].value)]) else old(Meant())
      ensures old(Nested()) ==> Nested()
      ensures old(Good()) ==> Good()
    {
      hide Resolving, StackOk, PendingOk, Flatten, Reads, Nests, Names, AllEntries, MeantAtts, MoreCounted, DefaultsKept, InTable,
        AttsDeclared, CountNs, NsOk, ChainInTable;
      DeclareFor(a);
      if UserAtt(a) in pending {
        return DuplicateAttribute;
      }
      Chain(a);
      return Success;
    }

    /** What declaring an attribute's namespace, if it has one, makes of the table, the stack and the chain. */
    ghost function DeclaredFor(a: nat): (seq<Namespace>, seq<Frame>, seq<Pending>)
      requires a < |attributes|
      reads this
    {
      match attributes[a].ns
      case Some(n) =>
        if n < |namespaces| then
          (DeclaredTable(namespaces, elements, frames, n, Chosen(n, None)), DeclaredFrames(namespaces, elements, frames, n, Chosen(n, None)),
           DeclaredChain(namespaces, elements, frames, n, Chosen(n, None), pending))
        else (namespaces, frames, pending)
      case None => (namespaces, frames, pending)
    }

    method DeclareFor(a: nat)
      requires Valid() && a < |attributes| && Starting()
      modifies this`namespaces, this`prefixes, this`stack, this`pending, this`values, this`frames
      ensures Valid() && TagKept() && Meant() == old(Meant()) && (namespaces, frames, pending) == old(DeclaredFor(a))
      ensures old(Nested()) ==> Nested()
      ensures old(Good()) ==> Good() && (attributes[a].ns.Some? && !Nameless() ==> InForce(namespaces, AllEntries(frames), attributes[a].ns.value))
    {
      hide Resolving, StackOk, PendingOk, Flatten, Reads, Nests, Names, AllEntries, MeantAtts, MoreCounted, DefaultsKept, InTable,
        AttsDeclared, CountNs, NsOk, UsersKept, ChainInTable, InForce;
      var ns := attributes[a].ns;
      if ns.Some? {
        ghost var good := Good();
        label before:
        var _ := AddNamespaceInternal(ns.value, None);
        StackSome(namespaces, AllEntries(frames));
        SameMeant();
        if good { StillGood@before(); }
      } else {
        SelfKept(frames, pending, namespaces);
      }
    }

    method Chain(a: nat)
      requires Valid() && a < |attributes| && Starting() && UserAtt(a) !in pending
      modifies this`pending
      ensures pending == old(pending) + [UserAtt(a)]
      ensures Valid() && Meant() == (old(Meant()).0, old(Meant()).1 + [(ExpandedAtt(a), attributes[a].value)])
      ensures old(Nested()) ==> Nested()
      ensures old(Good()) && (attributes[a].ns.Some? && !Nameless() ==> InForce(namespaces, AllEntries(frames), attributes[a].ns.value)) ==> Good()
    {
      hide Resolving, StackOk, PendingOk, Flatten, Reads, Nests, Names, AllEntries, MeantAtts, InTable, AttsDeclared, InForce;
      PendingUser(Names(namespaces), Top(frames).entries, pending, values, a);
      MeantMore(Names(namespaces), attributes, pending, a);
      if Good() && !Nameless() && (attributes[a].ns.Some? ==> InForce(namespaces, AllEntries(frames), attributes[a].ns.value)) {
        AttDeclared(attributes, namespaces, AllEntries(frames), pending, a);
      }
      assert nowStarting < |elements| by { TopInTable(elements, frames); }
      pending := pending + [UserAtt(a)];
    }

    /** genxStartAttribute */
    method StartAttribute(a: nat) returns (st: Status)
      requires Valid() && a < |attributes|
      modifies this`attributes, this`sequence, this`nowStartingAttr
      ensures st == if old(sequence) in {StartTag, Attributes} then Success else SequenceError
      ensures Valid() && (st == Success ==> sequence == StartAttr && nowStartingAttr == a && attributes[a].value == "")
      ensures st == Success && UserAtt(a) !in pending ==> Meant() == old(Meant())
      ensures old(Nested()) ==> Nested()
      ensures old(Good()) ==> Good()
    {
      hide Resolving, StackOk, PendingOk, Flatten, Reads, Nests, Names, AllEntries, MeantAtts, InTable, AttsDeclared, ChainInTable;
      if sequence != StartTag && sequence != Attributes {
        return SequenceError;
      }
      nowStartingAttr := a;
      SetValue(a, "", StartAttr);
      return Success;
    }

    /** genxEndAttribute */
    method EndAttribute() returns (st: Status)
      requires Valid()
      modifies this`namespaces, this`prefixes, this`stack, this`pending, this`values, this`frames, this`sequence
      ensures st == SequenceError <==> old(sequence) != StartAttr
      ensures st == DuplicateAttribute <==> old(sequence) == StartAttr && old(UserAtt(nowStartingAttr) in pending)
      ensures st in {Success, SequenceError, DuplicateAttribute} && Valid()
      ensures st != SequenceError ==>
        && nowStartingAttr < |attributes|
        && (namespaces, frames) == (old(DeclaredFor(nowStartingAttr)).0, old(DeclaredFor(nowStartingAttr)).1)
        && pending == old(DeclaredFor(nowStartingAttr)).2 + if st == Success then [UserAtt(nowStartingAttr)] else []
      ensures st == Success ==>
        && sequence == Attributes && nowStartingAttr < |attributes|
        && Meant() == (old(Meant()).0, old(Meant()).1 + [(ExpandedAtt(nowStartingAttr), attributes[nowStartingAttr].value)])
      ensures old(Nested()) ==> Nested()
      ensures old(Good()) ==> Good()
    {
      hide Resolving, StackOk, PendingOk, Flatten, Reads, Nests, Names, AllEntries, MeantAtts, InTable, AttsDeclared, ChainInTable;
      if sequence != StartAttr {
        return SequenceError;
      }
      sequence := Attributes;
      st := Attach(nowStartingAttr);
    }

    /** genxAddText: content, or more of an attribute's value. */
    method AddText(text: string) returns (st: Status)
      requires Valid()
      modifies this`namespaces, this`prefixes, this`stack, this`pending, this`values, this`frames, this`out, this`said, this`sequence,
        this`attributes, this`spoiled
      ensures st in {Success, SequenceError, AttributeInDefaultNamespace}
      ensures st == AttributeInDefaultNamespace <==> old(TagRefused())
      ensures st == SequenceError <==> old(sequence) in {NoDoc, PreDoc, PostDoc}
      ensures st == Success && old(sequence) == StartAttr ==>
        && Valid() && sequence == StartAttr && said == old(said)
        && var a := nowStartingAttr; a < |old(attributes)| && attributes == old(attributes)[a := old(attributes)[a].(value := old(attributes)[a].value + text)]
      ensures st == Success && old(sequence) != StartAttr ==>
        && Valid() && sequence == Content && attributes == old(attributes)
        && said == old(said + Due()) + (if text == "" then [] else [TextEvent(text)])
      ensures st == Success && old(Nested()) ==> Nested()
      ensures st == Success && old(Good()) ==> Good() && spoiled == old(SpoiledNext())
    {
      hide Resolving, StackOk, PendingOk, Flatten, Reads, Nests, Names, AllEntries, MeantAtts, InTable, AttsDeclared,
        ChainInTable, Due;
      if sequence == StartTag || sequence == Attributes || sequence == Content {
        st := FinishTag();
        if st != Success {
          return st;
        }
        SendText(text);
      } else if sequence == StartAttr {
        SetValue(nowStartingAttr, attributes[nowStartingAttr].value + text, StartAttr);
        st := Success;
      } else {
        st := SequenceError;
      }
    }

    method SendText(text: string)
      requires Valid() && sequence == Content
      modifies this`out, this`said
      ensures Valid() && said == old(said) + (if text == "" then [] else [TextEvent(text)])
      ensures old(Nested()) ==> Nested()
      ensures old(Good()) ==> Good()
    {
      hide Resolving, StackOk, PendingOk, Flatten, Reads, Nests, Names, AllEntries, MeantAtts, InTable, AttsDeclared, ChainInTable, Tags, Read,
        Covered, CountNs, LastOfDecl, Spoils;
      if text != "" {
        TagsNext(out, Characters(text));
        ReadNext(out, Characters(text));
        if Nested() && !strayed { TextNests(out, elements, frames, text); }
        if Good() && !spoiled { TextRead(out, Names(namespaces), elements, frames, said, text); }
        out := out + [Characters(text)];
        said := said + [TextEvent(text)];
      }
    }

    // ---------------------------------------------------------------- ending elements

    /** The innermost open element, found through the stack. */
    method TopElement() returns (e: nat)
      requires Valid() && frames != []
      ensures e == Top(frames).element && e < |elements|
    {
      hide AllEntries, Flatten, StackOk, PendingOk, InTable;
      TopInTable(elements, frames);
      var i := |stack| - 1;
      ghost var fs := frames;
      TopAt(stack, i, fs);
      while stack[i] != Null
        invariant 0 < i < |stack| && stack[..i + 1] == Flatten(fs) && fs != []
        invariant stack[i] != Null <==> Top(fs).entries != []
        invariant Top(fs).element == Top(frames).element
        decreases i
      {
        var _ := PairAt(i, fs);
        i := i - 2;
        fs := WithoutEntry(fs);
        TopAt(stack, i, fs);
      }
      TopAt(stack, i, fs);
      e := stack[i - 1].e;
    }

    ghost function Ended(): seq<Event>
      reads this
    {
      if frames != [] && Top(frames).element < |elements| then
        var e := elements[Top(frames).element];
        [EndEvent(ExpandedOf(Names(namespaces), e.ns, e.name))]
      else []
    }

    /** The end tag has the prefix that the start tag had, unless it strays. */
    method SendEndTag()
      requires Valid() && sequence == Content
      modifies this`out, this`said, this`strayed, this`spoiled
      ensures Valid() && said == old(said + Ended())
      ensures old(Nested()) ==> NestedTag(true) && strayed == old(strayed || Straying()) && spoiled == old(spoiled || Straying())
      ensures old(Nested()) && old(Good()) ==> GoodTag(true)
    {
      hide Resolving, StackOk, PendingOk, Flatten, Reads, Names, AllEntries, InTable, AttsDeclared, ChainInTable, TagNames,
        NameOn, Nests, Straying, Tags, Read, PrefixOf, Covered, CountNs, Ended, Good, Nested, NestedTag, GoodTag;
      var top := TopElement();
      var e := elements[top];
      var t := CloseTag(QName(PrefixOf(e), e.name));
      if Nested() { EndTagJudged(t); }
      label before:
      ghost var more := Ended();
      ghost var strays := Straying();
      out := out + [t];
      said := said + more;
      strayed, spoiled := strayed || strays, spoiled || strays;
      EndTagSent@before(t);
    }

    /** The two readers after an end tag. */
    ghost predicate EndJudged(out': seq<Token>)
      reads this
    {
      var fs := if frames == [] then [] else frames[..|frames| - 1];
      && (if strayed || Straying() then Tags(out').Broken? else Nests(out', elements, fs, true))
      && (Good() ==>
            if spoiled || Straying() then Read(out').Failed?
            else Reads(out', Names(namespaces), elements, fs, true, said + Ended()))
    }

    twostate lemma EndTagSent(t: Token)
      requires old(Valid()) && Valid() && old(sequence) == Content && old(Nested()) ==> old(EndJudged(out + [t]))
      requires unchanged(this`namespaces, this`elements, this`attributes, this`prefixes, this`defaultNsDeclared, this`sequence, this`stack,
        this`nowStarting, this`nowStartingAttr, this`pending, this`values, this`frames, this`owner)
      requires out == old(out) + [t] && said == old(said + Ended())
      requires strayed == old(strayed || Straying()) && spoiled == old(spoiled || Straying())
      requires old(Valid()) && Valid() && sequence == Content
      ensures old(Nested()) ==> NestedTag(true)
      ensures old(Nested()) && old(Good()) ==> GoodTag(true)
    {
      hide Resolving, StackOk, PendingOk, Flatten, Reads, Names, AllEntries, InTable, AttsDeclared, ChainInTable,
        Nests, Straying, Tags, Read, Ended;
    }

    /** Whether the prefix about to be sent is that of the start tag. */
    lemma EndPrefixKept()
      requires Valid() && frames != [] && TopCovered(elements, frames)
      ensures var e := elements[Top(frames).element];
              Straying() <==> QName(PrefixOf(e), e.name) != NameOn(elements, frames)
    {
      hide PendingOk, Flatten, Names, AllEntries, ChainInTable, CountNs, InTable;
      var e := elements[Top(frames).element];
      if e.ns.Some? {
        EndPrefix(namespaces, elements, frames);
        if !Straying() { PrefixSent(namespaces, elements, frames); }
      }
    }

    /** What the two readers make of the end tag about to be sent. */
    lemma EndTagJudged(t: Token)
      requires Valid() && sequence == Content && Nested() && Top(frames).element < |elements|
      requires t == CloseTag(QName(PrefixOf(elements[Top(frames).element]), elements[Top(frames).element].name))
      ensures EndJudged(out + [t])
    {
      hide Resolving, StackOk, PendingOk, Flatten, Names, AllEntries, AttsDeclared, ChainInTable, NameOn, CountNs, Straying, PrefixOf;
      TagsNext(out, t);
      ReadNext(out, t);
      if !strayed {
        EndPrefixKept();
        if !Straying() {
          EndTagNests(out, elements, frames);
          if Good() && !spoiled { EndTagRead(out, Names(namespaces), elements, frames, said); }
        }
      }
    }

    /** The declarations of the innermost element are taken off, each namespace going back to its
        next declaration outwards. */
    method PopDeclarations() returns (count: nat, ghost fs: seq<Frame>)
      requires Valid() && frames != []
      modifies this`namespaces
      ensures 0 < count < |stack| && stack[..count + 1] == Flatten(fs) && stack[count] == Null
      ensures |fs| == |frames| && fs[..|fs| - 1] == frames[..|frames| - 1] && Top(fs).entries == []
      ensures StackOk(namespaces, AllEntries(fs)) && Names(namespaces) == old(Names(namespaces))
      ensures DefaultsKept(old(namespaces), namespaces)
      ensures old(Resolving(namespaces, elements, owner, frames)) ==> Resolving(namespaces, elements, owner, fs)
    {
      hide Resolving, StackOk, PendingOk, Flatten, Names, AllEntries, InTable, ChainInTable, LastOfNs;
      StackSome(namespaces, AllEntries(frames));
      FlattenNone(frames);
      count, fs := |stack| - 1, frames;
      TopAt(stack, count, fs);
      while stack[count] != Null
        invariant 0 < count < |stack| && stack[..count + 1] == Flatten(fs) && fs != []
        invariant stack[count] != Null <==> Top(fs).entries != []
        invariant |fs| == |frames| && fs[..|fs| - 1] == frames[..|frames| - 1]
        invariant StackOk(namespaces, AllEntries(fs)) && Names(namespaces) == old(Names(namespaces))
        invariant DefaultsKept(old(namespaces), namespaces) && namespaces != []
        invariant old(Resolving(namespaces, elements, owner, frames)) ==> Resolving(namespaces, elements, owner, fs)
        decreases count
      {
        var e := PairAt(count, fs);
        PopStep(namespaces, fs);
        if Resolving(namespaces, elements, owner, fs) { PopResolving(namespaces, elements, owner, fs); }
        fs := WithoutEntry(fs);
        count := count - 2;
        if e.ns.Some? {
          TakeBack(e.ns.value, count, fs);
        }
        TopAt(stack, count, fs);
      }
    }

    method TakeBack(ns: nat, count: nat, ghost below: seq<Frame>)
      requires ns < |namespaces| && namespaces[ns].declCount > 0
      requires count < |stack| && stack[..count + 1] == Flatten(below)
      modifies this`namespaces
      ensures namespaces == Popped(old(namespaces), AllEntries(below), ns)
    {
      if namespaces[ns].baroque {
        var other := ScanNs(ns, count, below);
        if other.Some? {
          namespaces := namespaces[ns := namespaces[ns].(declaration := other)];
        }
      }
      namespaces := namespaces[ns := namespaces[ns].(declCount := namespaces[ns].declCount - 1)];
      if namespaces[ns].declCount == 0 {
        namespaces := namespaces[ns := namespaces[ns].(baroque := false)];
      }
      assert namespaces[ns] == Popped(old(namespaces), AllEntries(below), ns)[ns];
    }

    /** The end of genxEndElement: the innermost frame is taken off the stack. */
    method Pop() returns (st: Status)
      requires Valid() && sequence == Content
      modifies this`namespaces, this`stack, this`frames, this`sequence
      ensures st == Success && Valid() && sequence == (if frames == [] then PostDoc else Content)
      ensures frames == old(frames)[..|old(frames)| - 1] && Names(namespaces) == old(Names(namespaces))
      ensures DefaultsKept(old(namespaces), namespaces)
      ensures old(Resolving(namespaces, elements, owner, frames)) ==> Resolving(namespaces, elements, owner, frames)
    {
      hide Resolving, StackOk, PendingOk, Flatten, Names, AllEntries, InTable, ChainInTable, NsOk;
      var count: nat;
      ghost var fs;
      count, fs := PopDeclarations();
      StackSome(namespaces, AllEntries(fs));
      NamesSize(namespaces);
      NamesSize(old(namespaces));
      CloseOk(namespaces, fs);
      TopAt(stack, count, fs);
      OuterInTable(elements, frames);
      if Resolving(namespaces, elements, owner, fs) { CloseResolving(namespaces, elements, owner, fs); }
      frames := frames[..|frames| - 1];
      if count == 0 {
        return NoStartTag;
      }
      stack := stack[..count - 1];
      FlattenNone(frames);
      sequence := if |stack| == 0 then PostDoc else Content;
      st := Success;
    }

    twostate lemma PopKept()
      requires old(Valid()) && Valid() && old(sequence) == Content && sequence == (if frames == [] then PostDoc else Content)
      requires unchanged(this`elements, this`attributes, this`prefixes, this`defaultNsDeclared, this`pending, this`out, this`owner, this`said,
        this`spoiled, this`strayed, this`nowStarting)
      requires frames == old(frames)[..|old(frames)| - 1] && Names(namespaces) == old(Names(namespaces))
      requires DefaultsKept(old(namespaces), namespaces)
      requires old(Resolving(namespaces, elements, owner, frames)) ==> Resolving(namespaces, elements, owner, frames)
      ensures old(NestedTag(true)) ==> Nested()
      ensures old(GoodTag(true)) ==> Good()
    {
      hide Resolving, StackOk, PendingOk, Flatten, Reads, Nests, Names, AllEntries, InTable, ChainInTable, CountNs;
      StackSome(namespaces, AllEntries(frames));
    }

    /** genxEndElement */
    method EndElement() returns (st: Status)
      requires Valid()
      modifies this`namespaces, this`prefixes, this`stack, this`pending, this`values, this`frames, this`out, this`said, this`sequence,
        this`spoiled, this`strayed
      ensures st in {Success, SequenceError, AttributeInDefaultNamespace}
      ensures st == AttributeInDefaultNamespace <==> old(TagRefused())
      ensures st == SequenceError <==> old(sequence) in {NoDoc, PreDoc, PostDoc, StartAttr}
      ensures st == Success ==>
        && Valid() && sequence == (if frames == [] then PostDoc else Content) && |frames| == |old(frames)| - 1
        && said == old(said) + (if old(sequence) == Content then old(Ended()) else old(Started(true)))
      ensures st == Success && old(Nested()) ==> Nested() && strayed == old(strayed || (sequence == Content && Straying()))
      ensures st == Success && old(Nested()) && old(Good()) ==>
        Good() && spoiled == old(SpoiledNext() || (sequence == Content && Straying()))
    {
      hide Resolving, StackOk, PendingOk, Flatten, Reads, Nests, Names, AllEntries, InTable, AttsDeclared, ChainInTable,
        Started, Ended, Nested, Good, NestedTag, GoodTag, Meant, Spoils, Straying;
      if sequence == NoDoc || sequence == PreDoc || sequence == PostDoc || sequence == StartAttr {
        return SequenceError;
      }
      var close := true;
      if sequence == StartTag || sequence == Attributes {
        st := WriteStartTag(true);
        if st != Success {
          return st;
        }
        close := false;
      }
      if close {
        SendEndTag();
      }
      label before:
      st := Pop();
      PopKept@before();
    }

    /** genxEndDocument: one element with everything in it has been read, and it is what was asked for. */
    method EndDocument() returns (st: Status)
      requires Valid()
      modifies this`sequence
      ensures st == if old(sequence) == PostDoc then Success else SequenceError
      ensures Valid() && (st == Success ==> sequence == NoDoc)
      ensures st == Success && old(Nested()) ==> if strayed then Tags(out).Broken? else Tags(out) == Nesting([], true)
      ensures st == Success && old(Good()) ==> if spoiled then Read(out).Failed? else Read(out) == Reading([], true, said)
      ensures old(Nested()) ==> Nested()
      ensures old(Good()) ==> Good()
    {
      hide Resolving, StackOk, PendingOk, AttsDeclared, ChainInTable, AllEntries, NsOk;
      if sequence != PostDoc {
        return SequenceError;
      }
      sequence := NoDoc;
      return Success;
    }
  }

  lemma {:induction false} DefaultPending(names: seq<string>, own: seq<Entry>, pending: seq<Pending>, values: map<Prefix, string>)
    requires PendingOk(names, own, pending, values)
    ensures DeclAtt("") in pending <==> LastOfDecl(own, "").Some?
  {
  }

  lemma {:induction false} EitherPush(es: seq<Entry>, e: Entry, ns: nat, p: Prefix)
    ensures LastOfEither(es + [e], ns, p) == if e.ns == Some(ns) || e.decl == p then Some(e) else LastOfEither(es, ns, p)
  {
    assert (es + [e])[..|es|] == es;
  }

  lemma {:induction false} HasPush(es: seq<Entry>, e: Entry, ns: nat)
    ensures HasNs(es + [e], ns) <==> e.ns == Some(ns) || HasNs(es, ns)
  {
    if e.ns == Some(ns) { assert (es + [e])[|es|] == e; }
    if k :| 0 <= k < |es| && es[k].ns == Some(ns) { assert (es + [e])[k] == es[k]; }
  }

  lemma NamesSize(nss: seq<Namespace>)
    ensures |Names(nss)| == |nss|
  {
  }
}
