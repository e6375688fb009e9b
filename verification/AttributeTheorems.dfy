/** What attribute-value normalisation means: sections 3.3.3 and 4.1 of XML 1.0. */
module AttributeTheorems {
  import opened Wrappers
  import opened XmlBytes
  import opened ContentScanner
  import opened ScannerChunks
  import opened ContentLoops
  import opened CharacterData
  import opened AttributeValues

  // ------------------------------------------------------------------ one pass is two

  /** Spaces at the front dropped and runs of them made one. */
  function Collapse(x: seq<Byte>): seq<Byte> {
    if x == [] then [] else
    var y, b := Collapse(x[..|x| - 1]), x[|x| - 1];
    if b == 0x20 && (y == [] || y[|y| - 1] == 0x20) then y else y + [b]
  }

  lemma {:induction false} CollapseMore(x: seq<Byte>, b: Byte)
    ensures Collapse(x + [b]) == if b == 0x20 then AddSpace(false, Collapse(x)) else Collapse(x) + [b]
  {
    assert (x + [b])[..|x|] == x;
  }

  predicate NoSpace(b: seq<Byte>) {
    forall i :: 0 <= i < |b| ==> b[i] != 0x20
  }

  lemma {:induction false} CollapseData(x: seq<Byte>, b: seq<Byte>)
    requires NoSpace(b)
    ensures Collapse(x + b) == Collapse(x) + b
  {
    if b == [] {
      assert x + b == x && Collapse(x) + b == Collapse(x);
    } else {
      var n := |b| - 1;
      CollapseData(x, b[..n]);
      assert x + b == (x + b[..n]) + [b[n]];
      assert Collapse(x) + b == (Collapse(x) + b[..n]) + [b[n]];
      CollapseMore(x + b[..n], b[n]);
    }
  }

  lemma {:induction false} NoSpaceInData(v: seq<Byte>, p: nat)
    requires Checked(v, p) && ValueData(v, p).Token?
    ensures ValueData(v, p).next <= |v| && NoSpace(v[p..ValueData(v, p).next])
    decreases |v| - p
  {
    hide InvalidChar;
    var q := ValueData(v, p).next;
    if p < |v| && !EndsData(ByteType(v[p])) {
      var n := Width(v, p);
      NoSpaceInData(v, p + n);
      NoSpaceInChar(v, p);
      assert v[p..q] == v[p..p + n] + v[p + n..q];
    }
  }

  lemma {:induction false} NoSpaceInChar(v: seq<Byte>, p: nat)
    requires Checked(v, p) && p < |v| && ByteType(v[p]) != S
    ensures p + Width(v, p) <= |v| && NoSpace(v[p..p + Width(v, p)])
  {
    var w := v[p..p + Width(v, p)];
    if |w| > 1 {
      assert ByteType(w[0]) == Lead(|w|);
      ValidIsEncoded(w);
    }
  }

  lemma NoSpaceInEncoded(c: nat)
    requires c < 0x110000 && c != 0x20
    ensures NoSpace(Encode(c))
  {
  }

  /** A step of the one pass is the step of the other, collapsed. */
  lemma {:induction false} StepCollapses(names: Naming, v: seq<Byte>, p: nat, x: seq<Byte>)
    requires Checked(v, p)
    ensures var t := ValueTok(names, v, p);
            var raw, one := SimpleStep(true, v, p, t, x), SimpleStep(false, v, p, t, Collapse(x));
            if raw.Append? then one == Append(Collapse(raw.pool)) else one == raw
  {
    hide ValueTok, Collapse, IsCharRef, NumberOf, Encode, PredefinedEntity;
    var t := ValueTok(names, v, p);
    CollapseMore(x, 0x20);
    if t.Token? {
      var bytes := v[p..t.next];
      if t.tok == CharRef && IsCharRef(bytes) && NumberOf(bytes) >= 0 && NumberOf(bytes) != 0x20 {
        NoSpaceInEncoded(NumberOf(bytes));
        CollapseData(x, Encode(NumberOf(bytes)));
      } else if t.tok == EntityRef && |bytes| >= 2 {
        NotSpace(bytes[1..|bytes| - 1]);
        CollapseMore(x, PredefinedEntity(bytes[1..|bytes| - 1]));
      } else if t.tok == DataChars {
        DataToken(names, v, p);
        CollapseData(x, bytes);
      }
    }
  }

  lemma NotSpace(name: seq<Byte>)
    ensures PredefinedEntity(name) != 0x20
  {
  }

  lemma {:induction false} DataToken(names: Naming, v: seq<Byte>, p: nat)
    requires Checked(v, p)
    requires var t := ValueTok(names, v, p); t.Token? && t.tok == DataChars
    ensures NoSpace(v[p..ValueTok(names, v, p).next])
  {
    hide RefRun, ValueData, InvalidChar;
    var n := Width(v, p);
    var q := ValueTok(names, v, p).next;
    NoSpaceInChar(v, p);
    NoSpaceInData(v, p + n);
    assert v[p..q] == v[p..p + n] + v[p + n..q];
  }

  /** Normalising in one pass is expanding as for CDATA and then collapsing. */
  lemma {:induction false} OnePass(env: Env, open: set<Name>, v: seq<Byte>, p: nat, x: seq<Byte>)
    requires EnvOk(env) && Checked(v, p) && open <= env.entities.Keys
    ensures var raw, one := Expand(env, open, true, v, p, x), Expand(env, open, false, v, p, Collapse(x));
            one.err == raw.err && one.pool == Collapse(raw.pool)
    decreases env.entities.Keys - open, |v| - p
  {
    hide ValueTok, SimpleStep, Lookup, Collapse, Expand, Checked, EnvOk;
    var t := ValueTok(env.names, v, p);
    ExpandNext(env, open, true, v, p, x);
    ExpandNext(env, open, false, v, p, Collapse(x));
    StepCollapses(env.names, v, p, x);
    TokensWhole(env.names, v, p);
    var raw := SimpleStep(true, v, p, t, x);
    StepGoesOn(true, v, p, t, x);
    match raw
    case Finished =>
    case Failure(_) =>
    case Append(more) => OnePass(env, open, v, NextOf(v, p, t), more);
    case Nested(name) =>
      var e := Lookup(env, open, name);
      if e.Ok? {
        if e.value.None? {
          OnePass(env, open, v, NextOf(v, p, t), x);
        } else {
          LookedUp(env, open, name);
          TextWhole(env, name);
          OnePass(env, open + {name}, e.value.value, 0, x);
          var inner := Expand(env, open + {name}, true, e.value.value, 0, x);
          OnePass(env, open, v, NextOf(v, p, t), inner.pool);
        }
      }
  }

  lemma StepGoesOn(isCdata: bool, v: seq<Byte>, p: nat, t: Verdict, pool: seq<Byte>)
    requires t.Token? ==> p < t.next <= |v|
    ensures var step := SimpleStep(isCdata, v, p, t, pool);
            step.Append? || step.Nested? ==> t.Token? || t.tok == TrailingCr
  {
  }

  // ------------------------------------------------------------------ what collapsing means

  /** The words that spaces separate. */
  function Words(x: seq<Byte>): (ws: seq<seq<Byte>>)
    ensures forall i :: 0 <= i < |ws| ==> ws[i] != [] && NoSpace(ws[i])
    ensures x != [] && x[|x| - 1] != 0x20 ==> ws != []
  {
    if x == [] then [] else
    var n := |x| - 1;
    var ws := Words(x[..n]);
    if x[n] == 0x20 then ws
    else if n == 0 || x[n - 1] == 0x20 then ws + [[x[n]]]
    else ws[|ws| - 1 := ws[|ws| - 1] + [x[n]]]
  }

  /** The words with one space between each two. */
  function Sentence(ws: seq<seq<Byte>>): seq<Byte> {
    if ws == [] then []
    else if |ws| == 1 then ws[0]
    else Sentence(ws[..|ws| - 1]) + [0x20] + ws[|ws| - 1]
  }

  lemma {:induction false} SentenceMore(ws: seq<seq<Byte>>, w: seq<Byte>)
    ensures Sentence(ws + [w]) == if ws == [] then w else Sentence(ws) + [0x20] + w
  {
    assert (ws + [w])[..|ws|] == ws;
  }

  lemma {:induction false} SentenceLonger(ws: seq<seq<Byte>>, b: Byte)
    requires ws != []
    ensures Sentence(ws[|ws| - 1 := ws[|ws| - 1] + [b]]) == Sentence(ws) + [b]
  {
    var n := |ws| - 1;
    var more := ws[n := ws[n] + [b]];
    assert more[..n] == ws[..n];
    if n > 0 {
      assert Sentence(ws[..n]) + [0x20] + (ws[n] + [b]) == Sentence(ws[..n]) + [0x20] + ws[n] + [b];
    }
  }

  lemma {:induction false} SentenceEnd(ws: seq<seq<Byte>>)
    requires forall i :: 0 <= i < |ws| ==> ws[i] != [] && NoSpace(ws[i])
    ensures ws != [] ==> Sentence(ws) != [] && Sentence(ws)[|Sentence(ws)| - 1] != 0x20
  {
  }

  lemma {:induction false} CollapseIsSentence(x: seq<Byte>)
    ensures Collapse(x) == Sentence(Words(x)) + (if x != [] && x[|x| - 1] == 0x20 && Words(x) != [] then [0x20] else [])
  {
    hide Sentence;
    if x == [] {
      SentenceNone();
    } else {
      var n := |x| - 1;
      var ws := Words(x[..n]);
      CollapseIsSentence(x[..n]);
      SentenceEnd(ws);
      SentenceNone();
      if x[n] != 0x20 {
        if n == 0 || x[n - 1] == 0x20 {
          SentenceMore(ws, [x[n]]);
        } else {
          assert x[..n][n - 1] == x[n - 1];
          SentenceLonger(ws, x[n]);
        }
      }
    }
  }

  lemma SentenceNone()
    ensures Sentence([]) == []
  {
  }

  /** For an attribute that is not CDATA the stored value is the words of the CDATA value with one
      space between each two; both fail alike. */
  lemma {:induction false} StoredIsWords(env: Env, open: set<Name>, v: seq<Byte>)
    requires EnvOk(env) && Checked(v, 0) && open <= env.entities.Keys
    ensures var cdata := Stored(env, open, true, v);
            Stored(env, open, false, v) == if cdata.Err? then cdata else Ok(Sentence(Words(cdata.value)))
  {
    hide Expand, Sentence, Words;
    OnePass(env, open, v, 0, []);
    CollapseNone();
    var x := Expand(env, open, true, v, 0, []).pool;
    CollapseIsSentence(x);
    SentenceEnd(Words(x));
    SentenceNone();
    var s := Sentence(Words(x));
    assert (s + [0x20])[..|s|] == s && s + [] == s;
  }

  lemma CollapseNone()
    ensures Collapse([]) == []
  {
  }

  // ------------------------------------------------------------------ the fast path

  /** No reference or line end, and a space only singly and inside. */
  predicate FineAt(v: seq<Byte>, i: nat)
    requires i < |v|
  {
    var t := ByteType(v[i]);
    && t != Amp && t != Cr && t != Lf
    && (t == S ==> v[i] == 0x20 && 0 < i < |v| - 1 && v[i + 1] != 0x20)
  }

  predicate FineUpTo(v: seq<Byte>, n: nat)
    requires n <= |v|
  {
    forall i :: 0 <= i < n ==> FineAt(v, i)
  }

  /** A value in quotes, as the scanner of the tag has left it: the closing quote is at `e`. */
  ghost predicate Quoted(s: seq<Byte>, valuePtr: nat, e: nat, open: Bt) {
    && (open == Quot || open == Apos)
    && valuePtr <= e < |s| && ByteType(s[e]) == open && Checked(s[valuePtr..e], 0)
    && forall i :: valuePtr <= i < e ==> ByteType(s[i]) != open
  }

  /** The value part of getAtts' loop, from after the opening quote on. */
  method NormalizedFlag(s: seq<Byte>, valuePtr: nat, ghost e: nat, open: Bt) returns (normalized: bool, valueEnd: nat)
    requires Quoted(s, valuePtr, e, open)
    ensures valueEnd == e && (normalized <==> FineUpTo(s[valuePtr..e], e - valuePtr))
  {
    hide Checked, FineUpTo;
    ghost var v := s[valuePtr..e];
    normalized := true;
    var ptr := valuePtr;
    FineNone(v);
    while ByteType(s[ptr]) != open
      invariant valuePtr <= ptr <= e && Checked(v, ptr - valuePtr)
      invariant normalized <==> FineUpTo(v, ptr - valuePtr)
      decreases e - ptr
    {
      ghost var i := ptr - valuePtr;
      assert v[i] == s[ptr] && (ptr + 1 < e ==> v[i + 1] == s[ptr + 1]);
      SkipsTrail(v, i);
      var t := ByteType(s[ptr]);
      if t.Lead? {
        ptr := ptr + (t.n - 1);
      } else if t == Amp || t == Cr || t == Lf {
        normalized := false;
      } else if t == S {
        if normalized && (ptr == valuePtr || s[ptr] != 0x20 || s[ptr + 1] == 0x20 || ByteType(s[ptr + 1]) == open) {
          normalized := false;
        }
      }
      ptr := ptr + 1;
    }
    valueEnd := ptr;
  }

  lemma FineNone(v: seq<Byte>)
    ensures FineUpTo(v, 0)
  {
  }

  /** The bytes inside a multi-byte character are fine whatever they are. */
  lemma {:induction false} SkipsTrail(v: seq<Byte>, i: nat)
    requires Checked(v, i) && i < |v|
    ensures i + Width(v, i) <= |v| && Checked(v, i + Width(v, i))
    ensures FineUpTo(v, i + Width(v, i)) <==> FineUpTo(v, i) && FineAt(v, i)
  {
    var n := Width(v, i);
    if n > 1 {
      ValidIsEncoded(v[i..i + n]);
      forall k | i < k < i + n
        ensures FineAt(v, k)
      {
        assert v[k] == v[i..i + n][k - i];
      }
    }
  }

  predicate NoLt(v: seq<Byte>) {
    forall i :: 0 <= i < |v| ==> ByteType(v[i]) != Lt
  }

  /** Copying the raw value is what the slow path would have come to, for every type. */
  lemma {:induction false} FastPathRefines(env: Env, open: set<Name>, isCdata: bool, v: seq<Byte>)
    requires EnvOk(env) && Checked(v, 0) && open <= env.entities.Keys
    requires FineUpTo(v, |v|) && NoLt(v)
    ensures Stored(env, open, isCdata, v) == Ok(v)
  {
    hide Expand, Checked, EnvOk, ByteType, NoLt;
    assert v[..0] == [];
    RawFrom(env, open, isCdata, v, 0);
    if v != [] {
      assert FineAt(v, |v| - 1);
      SpaceClass(v[|v| - 1]);
    }
  }

  lemma {:induction false} RawFrom(env: Env, open: set<Name>, isCdata: bool, v: seq<Byte>, p: nat)
    requires EnvOk(env) && Checked(v, p) && open <= env.entities.Keys && p <= |v|
    requires FineUpTo(v, |v|) && NoLt(v)
    ensures Expand(env, open, isCdata, v, p, v[..p]) == Expansion(None, v)
    decreases |v| - p
  {
    hide Expand, RefRun, ValueTok, EnvOk, Checked, NoLt, ByteType;
    ExpandNext(env, open, isCdata, v, p, v[..p]);
    if p == |v| {
      assert v[..p] == v;
      EndTok(env.names, v);
    } else {
      RawTok(env.names, v, p);
      var t := ValueTok(env.names, v, p);
      TokensWhole(env.names, v, p);
      if t.tok == AttributeValueS {
        assert v[..p][p - 1] == v[p - 1];
        assert v[..p] + [0x20] == v[..p + 1];
      } else {
        assert v[..p] + v[p..t.next] == v[..t.next];
      }
      RawFrom(env, open, isCdata, v, t.next);
    }
  }

  lemma EndTok(names: Naming, v: seq<Byte>)
    requires Checked(v, |v|)
    ensures ValueTok(names, v, |v|) == Halt(NoTok)
  {
  }

  /** In such a value there are only runs of data and single spaces. */
  lemma {:induction false} RawTok(names: Naming, v: seq<Byte>, p: nat)
    requires Checked(v, p) && p < |v| && FineUpTo(v, |v|) && NoLt(v)
    ensures var t := ValueTok(names, v, p);
            && t.Token? && t.tok in {AttributeValueS, DataChars}
            && (t.tok == AttributeValueS ==> t.next == p + 1 && v[p] == 0x20 && p > 0 && v[p - 1] != 0x20)
  {
    hide RefRun, ValueData, Checked, InvalidChar;
    assert FineAt(v, p);
    if ByteType(v[p]) == S {
      assert FineAt(v, p - 1);
      SpaceClass(v[p - 1]);
    } else {
      assert Checked(v, p + Width(v, p)) by { SkipsTrail(v, p); }
      DataNoLt(v, p + Width(v, p));
    }
  }

  lemma SpaceClass(b: Byte)
    ensures b == 0x20 ==> ByteType(b) == S
  {
  }

  lemma {:induction false} DataNoLt(v: seq<Byte>, p: nat)
    requires Checked(v, p) && NoLt(v)
    ensures ValueData(v, p).Token?
    decreases |v| - p
  {
    if p < |v| && !EndsData(ByteType(v[p])) { DataNoLt(v, p + Width(v, p)); }
  }
}
