/** Attribute values: entity expansion and normalisation in one pass (expat/xmlparse.c) over the
    tokens of attributeValueTok, and the fast path that getAtts allows (expat/xmltok_impl.c). */
module AttributeValues {
  import opened Wrappers
  import opened XmlBytes
  import opened ContentScanner
  import opened ScannerChunks
  import opened ContentLoops
  import opened CharacterData

  // ------------------------------------------------------------------ tokens

  /** Bytes a step over the character at `p` skips; multi-byte characters were checked before. */
  function Width(v: seq<Byte>, p: nat): (n: nat)
    requires p < |v|
    ensures 0 < n <= 4
  {
    if ByteType(v[p]).Lead? then ByteType(v[p]).n else 1
  }

  /** Multi-byte characters are whole and valid: the scanner of the tag has seen to it. */
  ghost predicate Checked(v: seq<Byte>, p: nat)
    decreases |v| - p
  {
    || p == |v|
    || (p < |v| && p + Width(v, p) <= |v| && (Width(v, p) > 1 ==> !InvalidChar(v[p..p + Width(v, p)])) && Checked(v, p + Width(v, p)))
  }

  predicate EndsData(t: Bt) {
    t == Amp || t == Lf || t == Cr || t == S
  }

  /** A run of data under way at `p`. */
  function ValueData(v: seq<Byte>, p: nat): (r: Verdict)
    requires Checked(v, p)
    ensures r.Token? ==> r.tok == DataChars && p <= r.next && Checked(v, r.next)
    ensures r.Halt? ==> r.tok == Invalid
    decreases |v| - p
  {
    if p == |v| || EndsData(ByteType(v[p])) then Token(DataChars, p)
    else if ByteType(v[p]) == Lt then Halt(Invalid)
    else ValueData(v, p + Width(v, p))
  }

  /** attributeValueTok */
  function ValueTok(names: Naming, v: seq<Byte>, p: nat): (r: Verdict)
    requires Checked(v, p)
    ensures r.Token? ==> p < r.next <= |v|
  {
    if p == |v| then Halt(NoTok) else
    match ByteType(v[p])
    case Amp => RefRun(names, RefStart, v, p + 1)
    case Lt => Halt(Invalid)
    case Lf => Token(DataNewline, p + 1)
    case Cr => NewlineTok(v, p)
    case S => Token(AttributeValueS, p + 1)
    case _ => AfterFirst(v, p)
  }

  function AfterFirst(v: seq<Byte>, p: nat): (r: Verdict)
    requires Checked(v, p) && p < |v|
    ensures r.Token? ==> p < r.next <= |v| && r.tok == DataChars && Checked(v, r.next)
  {
    ValueData(v, p + Width(v, p))
  }

  /** attributeValueTok as it loops: what ends a run of data is a token of its own at the start. */
  method ScanValueTok(names: Naming, v: seq<Byte>, start: nat) returns (r: Verdict)
    requires Checked(v, start)
    ensures r == ValueTok(names, v, start)
  {
    hide RefRun, ByteType, AfterFirst;
    if start == |v| {
      return Halt(NoTok);
    }
    var ptr := start;
    if !EndsData(ByteType(v[start])) && ByteType(v[start]) != Lt { FirstData(v, start); }
    while ptr < |v|
      invariant start <= ptr && Checked(v, ptr)
      invariant ptr > start ==> ValueTok(names, v, start) == ValueData(v, ptr)
      invariant ptr > start ==> !EndsData(ByteType(v[start])) && ByteType(v[start]) != Lt
      decreases |v| - ptr
    {
      var t := ByteType(v[ptr]);
      if t == Amp {
        if ptr == start {
          r := ScanRef(names, v, ptr + 1);
          return r;
        }
        return Token(DataChars, ptr);
      } else if t == Lt {
        return Halt(Invalid);
      } else if t == Lf {
        return if ptr == start then Token(DataNewline, ptr + 1) else Token(DataChars, ptr);
      } else if t == Cr {
        if ptr > start {
          return Token(DataChars, ptr);
        }
        ptr := ptr + 1;
        if ptr == |v| {
          return Halt(TrailingCr);
        }
        return Token(DataNewline, if ByteType(v[ptr]) == Lf then ptr + 1 else ptr);
      } else if t == S {
        return if ptr == start then Token(AttributeValueS, ptr + 1) else Token(DataChars, ptr);
      } else {
        ptr := ptr + Width(v, ptr);
      }
    }
    return Token(DataChars, ptr);
  }

  lemma FirstData(v: seq<Byte>, p: nat)
    requires Checked(v, p) && p < |v|
    ensures Checked(v, p + Width(v, p)) && AfterFirst(v, p) == ValueData(v, p + Width(v, p))
  {
  }

  // ------------------------------------------------------------------ entities

  type Name = seq<Byte>

  datatype Entity = Entity(internal: bool, notation: bool, text: Option<seq<Byte>>)

  datatype Error =
    | InvalidToken | BadCharRef | UndefinedEntity | EntityDeclaredInPe | RecursiveEntityRef
    | BinaryEntityRef | AttributeExternalEntityRef | UnexpectedState

  /** The general entities, and whether references must be to declared ones. */
  datatype Env = Env(names: Naming, entities: map<Name, Entity>, check: bool)

  ghost predicate EnvOk(env: Env) {
    forall n :: n in env.entities && env.entities[n].text.Some? ==> Checked(env.entities[n].text.value, 0)
  }

  datatype Expansion = Expansion(err: Option<Error>, pool: seq<Byte>)

  /** Space characters go to the pool unless they would be the first or a second one. */
  function AddSpace(isCdata: bool, pool: seq<Byte>): seq<Byte> {
    if !isCdata && (pool == [] || pool[|pool| - 1] == 0x20) then pool else pool + [0x20]
  }

  /** What a reference to a general entity calls for before its text can be used. */
  function Lookup(env: Env, open: set<Name>, name: Name): (r: Result<Option<seq<Byte>>, Error>)
    ensures r.Ok? && r.value.Some? ==>
      name in env.entities && name !in open && env.entities[name].text == r.value
  {
    if env.check && name !in env.entities then Err(UndefinedEntity)
    else if name !in env.entities then Ok(None)
    else
      var e := env.entities[name];
      if env.check && !e.internal then Err(EntityDeclaredInPe)
      else if name in open then Err(RecursiveEntityRef)
      else if e.notation then Err(BinaryEntityRef)
      else if e.text.None? then Err(AttributeExternalEntityRef)
      else Ok(e.text)
  }

  /** The outcome of one token that needs no expansion. */
  datatype Simple = Append(pool: seq<Byte>) | Failure(err: Error) | Nested(name: Name) | Finished

  function SimpleStep(isCdata: bool, v: seq<Byte>, p: nat, t: Verdict, pool: seq<Byte>): Simple
    requires t.Token? ==> p < t.next <= |v|
  {
    if t.Token? then TokenStep(isCdata, t.tok, v[p..t.next], pool)
    else match t.tok
      case NoTok => Finished
      case Invalid => Failure(InvalidToken)
      case Partial => Failure(InvalidToken)
      case TrailingCr => Append(AddSpace(isCdata, pool))
      case _ => Failure(UnexpectedState)
  }

  function TokenStep(isCdata: bool, tok: Tok, bytes: seq<Byte>, pool: seq<Byte>): Simple {
    match tok
    case CharRef =>
      if !IsCharRef(bytes) || NumberOf(bytes) < 0 then Failure(BadCharRef)
      else if NumberOf(bytes) == 0x20 then Append(AddSpace(isCdata, pool))
      else Append(pool + Encode(NumberOf(bytes)))
    case DataChars => Append(pool + bytes)
    case AttributeValueS => Append(AddSpace(isCdata, pool))
    case DataNewline => Append(AddSpace(isCdata, pool))
    case EntityRef =>
      if |bytes| < 2 then Failure(UnexpectedState)
      else
        var name := bytes[1..|bytes| - 1];
        if PredefinedEntity(name) != 0 then Append(pool + [PredefinedEntity(name)]) else Nested(name)
    case _ => Failure(UnexpectedState)
  }

  function NextOf(v: seq<Byte>, p: nat, t: Verdict): nat {
    if t.Token? then t.next else p + 1
  }

  /** appendAttributeValue from `p` on. */
  function Expand(env: Env, open: set<Name>, isCdata: bool, v: seq<Byte>, p: nat, pool: seq<Byte>): Expansion
    requires EnvOk(env) && Checked(v, p) && open <= env.entities.Keys
    decreases env.entities.Keys - open, |v| - p
  {
    var t := ValueTok(env.names, v, p);
    var step := SimpleStep(isCdata, v, p, t, pool);
    if step.Finished? then Expansion(None, pool)
    else if step.Failure? then Expansion(Some(step.err), pool)
    else
      TokensWhole(env.names, v, p);
      var next := NextOf(v, p, t);
      if step.Append? then Expand(env, open, isCdata, v, next, step.pool)
      else
        var e := Lookup(env, open, step.name);
        if e.Err? then Expansion(Some(e.error), pool)
        else if e.value.None? then Expand(env, open, isCdata, v, next, pool)
        else
          var inner := Expand(env, open + {step.name}, isCdata, e.value.value, 0, pool);
          if inner.err.Some? then inner else Expand(env, open, isCdata, v, next, inner.pool)
  }

  lemma RefWidth(names: Naming, st: RefState, v: seq<Byte>, p: nat)
    requires p < |v|
    ensures var r := RefStep(names, st, v, p); (r.RefGo? ==> r.n == Width(v, p)) && (r.RefDone? ==> Width(v, p) == 1)
  {
    hide InvalidChar;
  }

  lemma {:induction false} RefWhole(names: Naming, st: RefState, v: seq<Byte>, p: nat)
    requires Checked(v, p)
    ensures var r := RefRun(names, st, v, p); r.Token? ==> Checked(v, r.next)
    decreases |v| - p
  {
    hide RefRun, RefStep, Width;
    RefUnroll(names, st, v, p);
    if p < |v| {
      RefWidth(names, st, v, p);
      if RefStep(names, st, v, p).RefGo? {
        RefWhole(names, RefStep(names, st, v, p).st, v, p + RefStep(names, st, v, p).n);
      }
    }
  }

  lemma {:induction false} RefHalts(names: Naming, st: RefState, v: seq<Byte>, p: nat)
    requires p <= |v|
    ensures RefRun(names, st, v, p) != Halt(TrailingCr)
    decreases |v| - p
  {
    hide RefRun, NameStart, NameInner;
    RefUnroll(names, st, v, p);
    if p < |v| {
      CharStable(names, v, v, p);
      if RefStep(names, st, v, p).RefGo? {
        RefHalts(names, RefStep(names, st, v, p).st, v, p + RefStep(names, st, v, p).n);
      }
    }
  }

  /** A token ends where a character ends. */
  lemma {:induction false} TokensWhole(names: Naming, v: seq<Byte>, p: nat)
    requires Checked(v, p)
    ensures var t := ValueTok(names, v, p);
            t.Token? || t.tok == TrailingCr ==> p < NextOf(v, p, t) <= |v| && Checked(v, NextOf(v, p, t))
  {
    hide RefRun, ValueData;
    if p < |v| {
      if ByteType(v[p]) == Amp {
        assert Checked(v, p + 1);
        RefHalts(names, RefStart, v, p + 1);
        RefWhole(names, RefStart, v, p + 1);
      } else if ByteType(v[p]) == Cr {
        NewlineWhole(v, p);
      }
    }
  }

  lemma NewlineWhole(v: seq<Byte>, p: nat)
    requires Checked(v, p) && p < |v| && ByteType(v[p]) == Cr
    ensures Checked(v, p + 1) && (p + 1 < |v| && ByteType(v[p + 1]) == Lf ==> Checked(v, p + 2))
  {
  }

  // ------------------------------------------------------------------ the two functions

  class AttributeParser {
    const env: Env
    /** The entities being expanded; the flag `open` of each. */
    var open: set<Name>
    var pool: seq<Byte>

    constructor (env: Env)
      ensures this.env == env && open == {} && pool == []
    {
      this.env := env;
      open, pool := {}, [];
    }

    /** appendAttributeValue. Each nested call has one more entity open, which bounds the nesting. */
    method AppendAttributeValue(isCdata: bool, v: seq<Byte>) returns (err: Option<Error>)
      requires EnvOk(env) && Checked(v, 0) && open <= env.entities.Keys
      modifies this
      ensures open == old(open)
      ensures Expansion(err, pool) == Expand(env, open, isCdata, v, 0, old(pool))
      decreases env.entities.Keys - open
    {
      hide ValueTok, TokenStep, Lookup, Expand, EnvOk, Checked;
      var ptr := 0;
      while true
        invariant open == old(open) && ptr <= |v| && Checked(v, ptr)
        invariant Expand(env, open, isCdata, v, ptr, pool) == Expand(env, open, isCdata, v, 0, old(pool))
        decreases |v| - ptr
      {
        ExpandNext(env, open, isCdata, v, ptr, pool);
        var t := ScanValueTok(env.names, v, ptr);
        TokensWhole(env.names, v, ptr);
        var step := SimpleStep(isCdata, v, ptr, t, pool);
        match step {
          case Finished => return None;
          case Failure(e) => return Some(e);
          case Append(more) => pool := more;
          case Nested(name) =>
            var e := Lookup(env, open, name);
            if e.Err? {
              return Some(e.error);
            }
            if e.value.Some? {
              TextWhole(env, name);
              LookedUp(env, open, name);
              open := open + {name};
              err := AppendAttributeValue(isCdata, e.value.value);
              open := open - {name};
              assert open == old(open);
              if err.Some? {
                return err;
              }
            }
        }
        ptr := NextOf(v, ptr, t);
      }
    }

    /** storeAttributeValue: a space at the end is taken off again. */
    method StoreAttributeValue(isCdata: bool, v: seq<Byte>) returns (r: Result<seq<Byte>, Error>)
      requires EnvOk(env) && Checked(v, 0) && open <= env.entities.Keys && pool == []
      modifies this
      ensures open == old(open) && r == Stored(env, open, isCdata, v)
    {
      var err := AppendAttributeValue(isCdata, v);
      if err.Some? {
        return Err(err.value);
      }
      if !isCdata && |pool| > 0 && pool[|pool| - 1] == 0x20 {
        pool := pool[..|pool| - 1];
      }
      return Ok(pool);
    }
  }

  lemma LookedUp(env: Env, open: set<Name>, name: Name)
    requires Lookup(env, open, name).Ok? && Lookup(env, open, name).value.Some?
    ensures name in env.entities && name !in open && env.entities[name].text == Lookup(env, open, name).value
  {
  }

  lemma TextWhole(env: Env, name: Name)
    requires EnvOk(env)
    ensures name in env.entities && env.entities[name].text.Some? ==> Checked(env.entities[name].text.value, 0)
  {
  }

  lemma ExpandNext(env: Env, open: set<Name>, isCdata: bool, v: seq<Byte>, p: nat, pool: seq<Byte>)
    requires EnvOk(env) && Checked(v, p) && open <= env.entities.Keys
    ensures (var t := ValueTok(env.names, v, p);
            TokensWhole(env.names, v, p);
            var step := SimpleStep(isCdata, v, p, t, pool);
            Expand(env, open, isCdata, v, p, pool) ==
              if step.Finished? then Expansion(None, pool)
              else if step.Failure? then Expansion(Some(step.err), pool)
              else if step.Append? then Expand(env, open, isCdata, v, NextOf(v, p, t), step.pool)
              else
                var e := Lookup(env, open, step.name);
                if e.Err? then Expansion(Some(e.error), pool)
                else if e.value.None? then Expand(env, open, isCdata, v, NextOf(v, p, t), pool)
                else
                  var inner := Expand(env, open + {step.name}, isCdata, e.value.value, 0, pool);
                  if inner.err.Some? then inner else Expand(env, open, isCdata, v, NextOf(v, p, t), inner.pool))
  {
    hide ValueTok, TokenStep, Lookup;
  }

  function Chopped(pool: seq<Byte>): seq<Byte> {
    if pool != [] && pool[|pool| - 1] == 0x20 then pool[..|pool| - 1] else pool
  }

  /** storeAttributeValue */
  function Stored(env: Env, open: set<Name>, isCdata: bool, v: seq<Byte>): Result<seq<Byte>, Error>
    requires EnvOk(env) && Checked(v, 0) && open <= env.entities.Keys
  {
    var x := Expand(env, open, isCdata, v, 0, []);
    if x.err.Some? then Err(x.err.value) else Ok(if isCdata then x.pool else Chopped(x.pool))
  }
}
