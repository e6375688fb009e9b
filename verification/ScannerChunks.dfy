/** How the input is cut into buffers does not matter: doContent (expat/xmlparse.c), which keeps the
    unconsumed tail of each buffer, finds the same tokens up to where runs of data are cut. */
module ScannerChunks {
  import opened XmlBytes
  import opened ContentScanner

  /** Verdicts that more input may change. */
  predicate Wants(tok: Tok) {
    tok == NoTok || tok == Partial || tok == PartialChar || tok == TrailingCr || tok == TrailingRsqb
  }

  predicate Settled(v: Verdict) {
    v.Halt? ==> !Wants(v.tok)
  }

  // ------------------------------------------------------------------ more input changes nothing settled

  lemma {:induction false} CharStable(names: Naming, s: seq<Byte>, t: seq<Byte>, p: nat)
    requires p < |s| && s <= t
    ensures NameStart(names, s, p) != Fail(PartialChar) ==> NameStart(names, t, p) == NameStart(names, s, p)
    ensures NameInner(names, s, p) != Fail(PartialChar) ==> NameInner(names, t, p) == NameInner(names, s, p)
    ensures AnyChar(s, p) != Fail(PartialChar) ==> AnyChar(t, p) == AnyChar(s, p)
    ensures DataStep(s, p) != Others ==> DataStep(t, p) == DataStep(s, p)
    ensures NameStart(names, s, p).Fail? ==> NameStart(names, s, p).tok in {Invalid, PartialChar}
    ensures NameInner(names, s, p).Fail? ==> NameInner(names, s, p).tok in {Invalid, PartialChar}
    ensures AnyChar(s, p).Fail? ==> AnyChar(s, p).tok in {Invalid, PartialChar}
  {
    hide InvalidChar;
    assert t[p] == s[p];
    match ByteType(s[p])
    case Lead(n) => if |s| - p >= n { assert t[p..p + n] == s[p..p + n]; }
    case _ =>
  }

  lemma {:induction false} RefStepStable(names: Naming, st: RefState, s: seq<Byte>, t: seq<Byte>, p: nat)
    requires p < |s| && s <= t
    requires var r := RefStep(names, st, s, p); r.RefStop? ==> !Wants(r.tok)
    ensures RefStep(names, st, t, p) == RefStep(names, st, s, p)
  {
    hide NameStart, NameInner, AnyChar, DataStep, ByteType;
    CharStable(names, s, t, p);
    assert t[p] == s[p];
  }

  lemma {:induction false} RefStable(names: Naming, st: RefState, s: seq<Byte>, t: seq<Byte>, p: nat)
    requires p <= |s| && s <= t && Settled(RefRun(names, st, s, p))
    ensures RefRun(names, st, t, p) == RefRun(names, st, s, p)
    decreases |s| - p
  {
    hide RefStep;
    assert p < |s|;
    RefStepStable(names, st, s, t, p);
    if RefStep(names, st, s, p).RefGo? {
      RefStable(names, RefStep(names, st, s, p).st, s, t, p + RefStep(names, st, s, p).n);
    }
  }

  lemma {:induction false} TagStable(names: Naming, st: Scan, s: seq<Byte>, t: seq<Byte>, p: nat)
    requires p < |s| && s <= t && InTag(st)
    requires var r := TagStep(names, st, s, p); r.Stop? ==> !Wants(r.tok)
    ensures TagStep(names, st, t, p) == TagStep(names, st, s, p)
  {
    hide NameStart, NameInner, AnyChar, DataStep, ByteType;
    CharStable(names, s, t, p);
    assert t[p] == s[p];
  }

  lemma {:induction false} AttStable(names: Naming, st: Scan, s: seq<Byte>, t: seq<Byte>, p: nat)
    requires p < |s| && s <= t && InAtts(st)
    requires var r := AttStep(names, st, s, p); r.Stop? ==> !Wants(r.tok)
    ensures AttStep(names, st, t, p) == AttStep(names, st, s, p)
  {
    hide NameStart, NameInner, AnyChar, DataStep, ByteType, RefRun;
    CharStable(names, s, t, p);
    assert t[p] == s[p];
    if st.Value? && ByteType(s[p]) == Amp && Settled(RefRun(names, RefStart, s, p + 1)) {
      RefStable(names, RefStart, s, t, p + 1);
    }
  }

  lemma {:induction false} OtherStable(names: Naming, st: Scan, s: seq<Byte>, t: seq<Byte>, p: nat)
    requires p < |s| && s <= t && !InAtts(st) && !InTag(st)
    requires var r := OtherStep(names, st, s, p); r.Stop? ==> !Wants(r.tok)
    ensures OtherStep(names, st, t, p) == OtherStep(names, st, s, p)
  {
    hide NameStart, NameInner, AnyChar, DataStep, ByteType;
    CharStable(names, s, t, p);
    assert t[p] == s[p];
    match st
    case Cdata => if |s| - p >= 6 { assert t[p..p + 6] == s[p..p + 6]; }
    case PiStart => if NameStart(names, s, p).Adv? { var n := NameStart(names, s, p).n; assert t[p..p + n] == s[p..p + n]; }
    case PiName(_) => if NameInner(names, s, p).Adv? { var n := NameInner(names, s, p).n; assert t[p..p + n] == s[p..p + n]; }
    case _ =>
  }

  lemma {:induction false} StepStable(names: Naming, st: Scan, s: seq<Byte>, t: seq<Byte>, p: nat)
    requires p < |s| && s <= t
    requires var r := Step(names, st, s, p); r.Stop? ==> !Wants(r.tok)
    ensures Step(names, st, t, p) == Step(names, st, s, p)
  {
    hide TagStep, AttStep, OtherStep;
    if InTag(st) {
      TagStable(names, st, s, t, p);
    } else if InAtts(st) {
      AttStable(names, st, s, t, p);
    } else {
      OtherStable(names, st, s, t, p);
    }
  }

  lemma {:induction false} RunStable(names: Naming, st: Scan, s: seq<Byte>, t: seq<Byte>, p: nat)
    requires p <= |s| && s <= t && Settled(Run(names, st, s, p))
    ensures Run(names, st, t, p) == Run(names, st, s, p)
    decreases |s| - p
  {
    hide Step;
    assert p < |s|;
    StepStable(names, st, s, t, p);
    if Step(names, st, s, p).Go? {
      RunStable(names, Step(names, st, s, p).st, s, t, p + Step(names, st, s, p).n);
    }
  }

  /** A run of data that was cut at `q` goes on from there. */
  lemma {:induction false} DataResumes(s: seq<Byte>, t: seq<Byte>, p: nat)
    requires p <= |s| && s <= t
    ensures var v := Data(s, p);
            if v.Token? then Data(t, p) == Data(t, v.next) else Data(t, p) == v
    decreases |s| - p
  {
    hide DataStep;
    if p < |s| {
      CharStable(Naming({}, {}), s, t, p);
      if DataStep(s, p).Adv? { DataResumes(s, t, p + DataStep(s, p).n); }
    }
  }

  /** Whatever goes on a run of data starts one just as well. */
  lemma {:induction false} DataStarts(names: Naming, s: seq<Byte>, p: nat)
    requires p < |s| && DataStep(s, p).Adv?
    ensures ContentTok(names, s, p) == Data(s, p)
  {
    hide InvalidChar, Data;
    DataGoes(s, p);
  }

  lemma {:induction false} DataGoes(s: seq<Byte>, p: nat)
    requires p < |s| && DataStep(s, p).Adv?
    ensures Data(s, p) == Data(s, p + DataStep(s, p).n)
  {
    hide DataStep;
  }

  predicate IsText(tok: Tok) {
    tok == DataChars || tok == DataNewline || tok == CharRef || tok == EntityRef
  }

  /** No state hands out a token of data. */
  predicate Sane(st: Scan) {
    && (st.PiBody? ==> st.tok in {Pi, XmlDecl}) && (st.PiQuest? ==> st.tok in {Pi, XmlDecl})
    && (st.PiNameEnd? ==> st.tok in {Pi, XmlDecl})
  }

  lemma {:induction false} StepTokens(names: Naming, st: Scan, s: seq<Byte>, p: nat)
    requires p < |s| && Sane(st)
    ensures var r := Step(names, st, s, p); (r.Done? ==> !IsText(r.tok)) && (r.Go? ==> Sane(r.st))
  {
    hide NameStart, NameInner, AnyChar, RefRun, ByteType;
  }

  lemma {:induction false} RunTokens(names: Naming, st: Scan, s: seq<Byte>, p: nat)
    requires p <= |s| && Sane(st)
    ensures var v := Run(names, st, s, p); v.Token? ==> !IsText(v.tok)
    decreases |s| - p
  {
    hide Step, Sane;
    if p < |s| {
      StepTokens(names, st, s, p);
      if Step(names, st, s, p).Go? {
        RunTokens(names, Step(names, st, s, p).st, s, p + Step(names, st, s, p).n);
      }
    }
  }

  /** A verdict that wants no more input is final; a run of data may only grow. */
  lemma {:induction false} ContentStable(names: Naming, s: seq<Byte>, t: seq<Byte>, p: nat)
    requires p < |s| && s <= t && Settled(ContentTok(names, s, p))
    ensures ContentTok(names, t, p) == Extended(t, ContentTok(names, s, p))
  {
    hide Run, RefRun, Data, Sane, BracketTok, NewlineTok, CharTok, ByteType;
    assert t[p] == s[p];
    match ByteType(s[p])
    case Lt =>
      SaneStart();
      RunStable(names, AfterLt, s, t, p + 1);
      RunTokens(names, AfterLt, s, p + 1);
    case Amp => RefStable(names, RefStart, s, t, p + 1);
    case Cr => NewlineStable(s, t, p);
    case Lf =>
    case Rsqb => BracketStable(s, t, p);
    case _ => CharTokStable(s, t, p);
  }

  /** What a verdict on `s` becomes on `t`. */
  function Extended(t: seq<Byte>, v: Verdict): Verdict
    requires v.Token? ==> v.next <= |t|
  {
    if v.Token? && v.tok == DataChars then Data(t, v.next) else v
  }

  lemma {:induction false} BracketStable(s: seq<Byte>, t: seq<Byte>, p: nat)
    requires p < |s| && s <= t && Settled(BracketTok(s, p))
    ensures BracketTok(t, p) == Extended(t, BracketTok(s, p))
  {
    hide Data;
    assert t[p] == s[p] && t[p + 1] == s[p + 1];
    assert p + 2 < |s| ==> t[p + 2] == s[p + 2];
    DataResumes(s, t, p + 1);
  }

  lemma {:induction false} NewlineStable(s: seq<Byte>, t: seq<Byte>, p: nat)
    requires p < |s| && s <= t && Settled(NewlineTok(s, p))
    ensures NewlineTok(t, p) == NewlineTok(s, p)
  {
  }

  lemma {:induction false} CharTokStable(s: seq<Byte>, t: seq<Byte>, p: nat)
    requires p < |s| && s <= t && Settled(CharTok(s, p))
    ensures CharTok(t, p) == Extended(t, CharTok(s, p))
  {
    hide Data, AnyChar, DataStep, NameStart, NameInner;
    CharStable(Naming({}, {}), s, t, p);
    DataResumes(s, t, if AnyChar(s, p).Adv? then p + AnyChar(s, p).n else p + 1);
  }

  lemma SaneStart()
    ensures Sane(AfterLt)
  {
  }

  // ------------------------------------------------------------------ buffers

  datatype Piece = Piece(tok: Tok, bytes: seq<Byte>)

  /** The tokens found in a buffer that is not the last one, and where the kept tail starts. */
  datatype Drained = Drained(pieces: seq<Piece>, rest: nat, bad: bool)

  function Drain(names: Naming, s: seq<Byte>, p: nat): (d: Drained)
    requires p <= |s|
    ensures p <= d.rest <= |s|
    decreases |s| - p
  {
    var v := ContentTok(names, s, p);
    match v
    case Token(tok, q) =>
      var d := Drain(names, s, q);
      Drained([Piece(tok, s[p..q])] + d.pieces, d.rest, d.bad)
    case Halt(tok) => Drained([], p, tok == Invalid)
  }

  /** The same tokens with adjacent runs of data put together. */
  function Merged(ps: seq<Piece>): seq<Piece> {
    if ps == [] then [] else Joined(ps[0], Merged(ps[1..]))
  }

  function Joined(x: Piece, ps: seq<Piece>): seq<Piece> {
    if x.tok == DataChars && ps != [] && ps[0].tok == DataChars
    then [Piece(DataChars, x.bytes + ps[0].bytes)] + ps[1..]
    else [x] + ps
  }

  lemma JoinedAs(x: Piece, ps: seq<Piece>)
    ensures Joined(x, ps) == if x.tok == DataChars && ps != [] && ps[0].tok == DataChars
                             then [Piece(DataChars, x.bytes + ps[0].bytes)] + ps[1..] else [x] + ps
  {
  }

  lemma {:induction false} JoinedTwice(x: Piece, y: Piece, ps: seq<Piece>)
    requires x.tok == DataChars && y.tok == DataChars
    ensures Joined(x, Joined(y, ps)) == Joined(Piece(DataChars, x.bytes + y.bytes), ps)
  {
    if ps != [] && ps[0].tok == DataChars {
      assert x.bytes + (y.bytes + ps[0].bytes) == x.bytes + y.bytes + ps[0].bytes;
      assert Joined(y, ps)[1..] == ps[1..];
    } else {
      assert Joined(y, ps)[1..] == ps;
    }
  }

  lemma {:induction false} MergedCons(x: Piece, ps: seq<Piece>)
    ensures Merged([x] + ps) == Joined(x, Merged(ps))
  {
    assert ([x] + ps)[1..] == ps;
  }

  lemma {:induction false} MergedNone(qs: seq<Piece>)
    ensures Merged([]) + qs == qs && [] + qs == qs
  {
  }

  lemma {:induction false} MergedLeft(ps: seq<Piece>, qs: seq<Piece>)
    ensures Merged(ps + qs) == Merged(Merged(ps) + qs)
  {
    hide Joined, Merged;
    if ps == [] {
      MergedNone(qs);
    } else {
      var x, rest := ps[0], ps[1..];
      var ms := Merged(rest);
      assert ps == [x] + rest && ps + qs == [x] + (rest + qs);
      MergedCons(x, rest);
      MergedCons(x, rest + qs);
      MergedLeft(rest, qs);
      JoinedAs(x, ms);
      if x.tok == DataChars && ms != [] && ms[0].tok == DataChars {
        var y, tail := Piece(DataChars, x.bytes + ms[0].bytes), ms[1..];
        assert ms + qs == [ms[0]] + (tail + qs);
        MergedCons(ms[0], tail + qs);
        JoinedTwice(x, ms[0], Merged(tail + qs));
        assert Merged(ps) + qs == [y] + (tail + qs);
        MergedCons(y, tail + qs);
      } else {
        assert Merged(ps) + qs == [x] + (ms + qs);
        MergedCons(x, ms + qs);
      }
    }
  }

  /** One cut: what was found before it, and what is found from the kept tail on. */
  lemma {:induction false} CutAnywhere(names: Naming, s: seq<Byte>, t: seq<Byte>, p: nat)
    requires p <= |s| && s <= t && !Drain(names, t, p).bad
    ensures var first, whole := Drain(names, s, p), Drain(names, t, p);
            var second := Drain(names, t, first.rest);
            && !first.bad && !second.bad && second.rest == whole.rest
            && Merged(first.pieces + second.pieces) == Merged(whole.pieces)
    decreases |s| - p
  {
    hide ContentTok, Joined, Data, DataStep;
    var v := ContentTok(names, s, p);
    if v.Halt? {
      if v.tok == Invalid {
        AtEnd(names, s);
        ContentStable(names, s, t, p);
      }
      assert Drain(names, s, p).pieces + Drain(names, t, p).pieces == Drain(names, t, p).pieces;
    } else {
      AtEnd(names, s);
      ContentStable(names, s, t, p);
      var q := v.next;
      assert s[p..q] == t[p..q];
      var x := Piece(v.tok, s[p..q]);
      var first, second := Drain(names, s, q), Drain(names, t, Drain(names, s, q).rest);
      assert [x] + first.pieces + second.pieces == [x] + (first.pieces + second.pieces);
      MergedCons(x, first.pieces + second.pieces);
      if v.tok == DataChars {
        CutInData(names, t, p, q);
      } else {
        MergedCons(x, Drain(names, t, q).pieces);
      }
      CutAnywhere(names, s, t, q);
    }
  }

  lemma AtEnd(names: Naming, s: seq<Byte>)
    ensures ContentTok(names, s, |s|) == Halt(NoTok)
  {
  }

  /** A run of data cut at `q`, seen whole. */
  lemma {:induction false} CutInData(names: Naming, t: seq<Byte>, p: nat, q: nat)
    requires p < q <= |t| && ContentTok(names, t, p) == Data(t, q) && !Drain(names, t, p).bad
    ensures !Drain(names, t, q).bad && Drain(names, t, q).rest == Drain(names, t, p).rest
    ensures Merged(Drain(names, t, p).pieces) == Joined(Piece(DataChars, t[p..q]), Merged(Drain(names, t, q).pieces))
  {
    hide ContentTok, DataStep;
    var whole := Data(t, q);
    var rest := Drain(names, t, whole.next).pieces;
    MergedCons(Piece(DataChars, t[p..whole.next]), rest);
    if q < |t| && DataStep(t, q).Adv? {
      DataStarts(names, t, q);
      DataAdvances(t, q);
      MergedCons(Piece(DataChars, t[q..whole.next]), rest);
      JoinedTwice(Piece(DataChars, t[p..q]), Piece(DataChars, t[q..whole.next]), Merged(rest));
      assert t[p..q] + t[q..whole.next] == t[p..whole.next];
    }
  }

  lemma {:induction false} DataAdvances(t: seq<Byte>, q: nat)
    requires q < |t| && DataStep(t, q).Adv? && Data(t, q).Token?
    ensures q < Data(t, q).next
  {
  }

  // ------------------------------------------------------------------ any number of cuts

  function Concat(chunks: seq<seq<Byte>>): seq<Byte> {
    if chunks == [] then [] else Concat(chunks[..|chunks| - 1]) + chunks[|chunks| - 1]
  }

  /** Buffers handed over one after another: all tokens so far and the start of the kept tail. */
  function Fed(names: Naming, chunks: seq<seq<Byte>>): (d: Drained)
    ensures d.rest <= |Concat(chunks)|
  {
    if chunks == [] then Drained([], 0, false) else
    var before := Fed(names, chunks[..|chunks| - 1]);
    if before.bad then before else
    var now := Drain(names, Concat(chunks), before.rest);
    Drained(before.pieces + now.pieces, now.rest, now.bad)
  }

  lemma {:induction false} ChunksDoNotMatter(names: Naming, chunks: seq<seq<Byte>>)
    requires !Drain(names, Concat(chunks), 0).bad
    ensures var fed, whole := Fed(names, chunks), Drain(names, Concat(chunks), 0);
            !fed.bad && fed.rest == whole.rest && Merged(fed.pieces) == Merged(whole.pieces)
  {
    hide Drain, Merged;
    if chunks == [] {
      DrainNothing(names);
    } else {
      var before := chunks[..|chunks| - 1];
      CutAnywhere(names, Concat(before), Concat(chunks), 0);
      ChunksDoNotMatter(names, before);
      var now := Drain(names, Concat(chunks), Fed(names, before).rest);
      MergedLeft(Fed(names, before).pieces, now.pieces);
      MergedLeft(Drain(names, Concat(before), 0).pieces, now.pieces);
    }
  }

  lemma DrainNothing(names: Naming)
    ensures Drain(names, [], 0) == Drained([], 0, false)
  {
  }
}
