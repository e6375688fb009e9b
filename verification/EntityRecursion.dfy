/** Entities that refer to themselves, section 4.1 of XML 1.0 (well-formedness constraint: No
    Recursion), against the open flags of appendAttributeValue. */
module EntityRecursion {
  import opened Wrappers
  import opened XmlBytes
  import opened ContentScanner
  import opened ScannerChunks
  import opened CharacterData
  import opened AttributeValues

  /** The entity a token refers to, other than a predefined one. */
  function Referred(v: seq<Byte>, p: nat, t: Verdict): set<Name>
    requires t.Token? ==> p < t.next <= |v|
  {
    var step := SimpleStep(true, v, p, t, []);
    if step.Nested? then {step.name} else {}
  }

  /** The entities referred to directly from `p` on. */
  function Refs(names: Naming, v: seq<Byte>, p: nat): set<Name>
    requires Checked(v, p)
    decreases |v| - p
  {
    var t := ValueTok(names, v, p);
    if t.Token? || t.tok == TrailingCr then
      TokensWhole(names, v, p);
      Referred(v, p, t) + Refs(names, v, NextOf(v, p, t))
    else {}
  }

  /** References lead from the value through these entities. */
  ghost predicate Chain(env: Env, v: seq<Byte>, p: nat, path: seq<Name>)
    requires EnvOk(env) && Checked(v, p)
    decreases path
  {
    && path != [] && path[0] in Refs(env.names, v, p) && path[0] in env.entities
    && (|path| > 1 ==>
          env.entities[path[0]].text.Some? && Chain(env, env.entities[path[0]].text.value, 0, path[1..]))
  }

  /** The chain comes back to an entity it has been through, or to one that was open before. */
  ghost predicate ComesBack(open: set<Name>, path: seq<Name>)
    requires path != []
  {
    var last := path[|path| - 1];
    last in open || exists i :: 0 <= i < |path| - 1 && path[i] == last
  }

  lemma SameReference(isCdata: bool, v: seq<Byte>, p: nat, t: Verdict, pool: seq<Byte>)
    requires t.Token? ==> p < t.next <= |v|
    ensures var step := SimpleStep(isCdata, v, p, t, pool);
            Referred(v, p, t) == if step.Nested? then {step.name} else {}
  {
  }

  lemma {:induction false} RefsNext(names: Naming, v: seq<Byte>, p: nat)
    requires Checked(v, p)
    ensures (var t := ValueTok(names, v, p);
             TokensWhole(names, v, p);
             Refs(names, v, p) == if t.Token? || t.tok == TrailingCr then Referred(v, p, t) + Refs(names, v, NextOf(v, p, t)) else {})
  {
    hide ValueTok, Checked, Referred;
  }

  /** Where expansion succeeds, so did that of everything referred to. */
  lemma {:induction false} InnerSucceeds(env: Env, open: set<Name>, isCdata: bool, v: seq<Byte>, p: nat, pool: seq<Byte>, name: Name)
    returns (inner: seq<Byte>)
    requires EnvOk(env) && Checked(v, p) && open <= env.entities.Keys
    requires Expand(env, open, isCdata, v, p, pool).err.None?
    requires name in Refs(env.names, v, p) && name in env.entities
    ensures name !in open && env.entities[name].text.Some?
    ensures Checked(env.entities[name].text.value, 0)
    ensures Expand(env, open + {name}, isCdata, env.entities[name].text.value, 0, inner).err.None?
    decreases |v| - p
  {
    hide Expand, ValueTok, SimpleStep, Checked, Refs, EnvOk, Lookup, Referred;
    var t := ValueTok(env.names, v, p);
    ExpandNext(env, open, isCdata, v, p, pool);
    RefsNext(env.names, v, p);
    TokensWhole(env.names, v, p);
    SameReference(isCdata, v, p, t, pool);
    StepEnds(isCdata, v, p, t, pool);
    var step := SimpleStep(isCdata, v, p, t, pool);
    if step.Append? {
      inner := InnerSucceeds(env, open, isCdata, v, NextOf(v, p, t), step.pool, name);
    } else {
      var e := Lookup(env, open, step.name);
      DeclaredLookup(env, open, step.name);
      if e.value.Some? {
        LookedUp(env, open, step.name);
        TextWhole(env, step.name);
        var x := Expand(env, open + {step.name}, isCdata, e.value.value, 0, pool);
        if step.name == name {
          inner := pool;
        } else {
          inner := InnerSucceeds(env, open, isCdata, v, NextOf(v, p, t), x.pool, name);
        }
      } else {
        inner := InnerSucceeds(env, open, isCdata, v, NextOf(v, p, t), pool, name);
      }
    }
  }

  lemma DeclaredLookup(env: Env, open: set<Name>, name: Name)
    ensures Lookup(env, open, name) == Ok(None) ==> name !in env.entities
    ensures Lookup(env, open, name) == Err(RecursiveEntityRef) ==> name in open && name in env.entities
    ensures Lookup(env, open, name).Ok? && Lookup(env, open, name).value.Some? ==> name in env.entities && name !in open
  {
  }

  lemma StepEnds(isCdata: bool, v: seq<Byte>, p: nat, t: Verdict, pool: seq<Byte>)
    requires t.Token? ==> p < t.next <= |v|
    ensures var step := SimpleStep(isCdata, v, p, t, pool);
            && (step.Append? || step.Nested? ==> t.Token? || t.tok == TrailingCr)
            && (step.Finished? ==> t.Halt? && t.tok == NoTok)
            && (step.Failure? ==> step.err != RecursiveEntityRef)
  {
  }

  /** A value that could be expanded leads into no circle and to nothing open. */
  lemma {:induction false} SuccessIsSound(env: Env, open: set<Name>, isCdata: bool, v: seq<Byte>, p: nat, pool: seq<Byte>, path: seq<Name>)
    requires EnvOk(env) && Checked(v, p) && open <= env.entities.Keys
    requires Expand(env, open, isCdata, v, p, pool).err.None? && Chain(env, v, p, path)
    ensures forall i :: 0 <= i < |path| ==> path[i] !in open
    ensures !ComesBack(open, path)
    decreases |path|
  {
    hide Expand, Checked, Refs, EnvOk;
    var inner := InnerSucceeds(env, open, isCdata, v, p, pool, path[0]);
    if |path| > 1 {
      SuccessIsSound(env, open + {path[0]}, isCdata, env.entities[path[0]].text.value, 0, inner, path[1..]);
      assert forall i :: 1 <= i < |path| ==> path[i] == path[1..][i - 1];
      forall i | 0 <= i < |path| - 1
        ensures path[i] != path[|path| - 1]
      {
        assert i > 0 ==> path[1..][i - 1] != path[1..][|path| - 2];
      }
    }
  }

  /** The error for recursion is only given when references do lead back. */
  lemma {:induction false} BlameIsJust(env: Env, open: set<Name>, isCdata: bool, v: seq<Byte>, p: nat, pool: seq<Byte>)
    returns (path: seq<Name>)
    requires EnvOk(env) && Checked(v, p) && open <= env.entities.Keys
    requires Expand(env, open, isCdata, v, p, pool).err == Some(RecursiveEntityRef)
    ensures Chain(env, v, p, path) && ComesBack(open, path)
    decreases env.entities.Keys - open, |v| - p
  {
    hide Expand, ValueTok, SimpleStep, Checked, Refs, EnvOk, Lookup, Referred, ComesBack;
    var t := ValueTok(env.names, v, p);
    ExpandNext(env, open, isCdata, v, p, pool);
    RefsNext(env.names, v, p);
    TokensWhole(env.names, v, p);
    SameReference(isCdata, v, p, t, pool);
    StepEnds(isCdata, v, p, t, pool);
    var step := SimpleStep(isCdata, v, p, t, pool);
    var next := NextOf(v, p, t);
    if step.Append? {
      path := BlameIsJust(env, open, isCdata, v, next, step.pool);
      LaterChain(env, v, p, path);
    } else {
      var e := Lookup(env, open, step.name);
      DeclaredLookup(env, open, step.name);
      if e.Err? {
        path := [step.name];
        Immediate(open, step.name);
      } else if e.value.None? {
        path := BlameIsJust(env, open, isCdata, v, next, pool);
        LaterChain(env, v, p, path);
      } else {
        LookedUp(env, open, step.name);
        TextWhole(env, step.name);
        var x := Expand(env, open + {step.name}, isCdata, e.value.value, 0, pool);
        if x.err.Some? {
          var rest := BlameIsJust(env, open + {step.name}, isCdata, e.value.value, 0, pool);
          path := [step.name] + rest;
          assert path[1..] == rest;
          Farther(open, step.name, rest);
        } else {
          path := BlameIsJust(env, open, isCdata, v, next, x.pool);
          LaterChain(env, v, p, path);
        }
      }
    }
  }

  lemma Immediate(open: set<Name>, name: Name)
    requires name in open
    ensures ComesBack(open, [name])
  {
  }

  lemma {:induction false} Farther(open: set<Name>, name: Name, rest: seq<Name>)
    requires rest != [] && ComesBack(open + {name}, rest)
    ensures ComesBack(open, [name] + rest)
  {
    var path := [name] + rest;
    var last := path[|path| - 1];
    assert last == rest[|rest| - 1];
    if last == name {
      assert path[0] == last;
    } else if last !in open {
      var i :| 0 <= i < |rest| - 1 && rest[i] == last;
      assert path[i + 1] == last;
    }
  }

  lemma {:induction false} LaterChain(env: Env, v: seq<Byte>, p: nat, path: seq<Name>)
    requires EnvOk(env) && Checked(v, p)
    requires (var t := ValueTok(env.names, v, p); t.Token? || t.tok == TrailingCr)
    requires (TokensWhole(env.names, v, p); Chain(env, v, NextOf(v, p, ValueTok(env.names, v, p)), path))
    ensures Chain(env, v, p, path)
  {
    hide ValueTok, Checked, EnvOk, Refs, Referred;
    RefsNext(env.names, v, p);
  }
}
