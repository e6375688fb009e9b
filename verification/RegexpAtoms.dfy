/** Atoms and their comparison (regexp/xmlregexp.c): which code points an atom matches, when two
    atoms count as equal, and when they are said to intersect. The character tables of
    chvalid.c and xmlunicode.h are parameters. */
module RegexpAtoms {
  import opened RegexpLanguage
  import opened RegexpDeterminism
  import XmlBytes

  // ------------------------------------------------------- xmlRegAtomType, in its own order

  const CHARVAL: nat := 2
  const RANGES: nat := 3
  const ANYCHAR: nat := 6
  const ANYSPACE: nat := 7
  const NOTSPACE: nat := 8
  const INITNAME: nat := 9
  const NOTINITNAME: nat := 10
  const NAMECHAR: nat := 11
  const NOTNAMECHAR: nat := 12
  const DECIMAL: nat := 13
  const NOTDECIMAL: nat := 14
  const REALCHAR: nat := 15
  const NOTREALCHAR: nat := 16
  const LETTER: nat := 100
  const LETTER_OTHERS: nat := 105
  const MARK: nat := 106
  const MARK_ENCLOSING: nat := 109
  const NUMBER: nat := 110
  const NUMBER_DECIMAL: nat := 111
  const NUMBER_OTHERS: nat := 113
  const PUNCT: nat := 114
  const PUNCT_OTHERS: nat := 121
  const SEPAR: nat := 122
  const SEPAR_PARA: nat := 125
  const SYMBOL: nat := 126
  const SYMBOL_OTHERS: nat := 130
  const OTHER: nat := 131
  const OTHER_PRIVATE: nat := 134
  const OTHER_NA: nat := 135
  const BLOCK_NAME: nat := 136

  /** The types of the atoms on a built automaton: epsilon, group and string atoms are never on it. */
  type Kind = k: nat | k == 2 || k == 3 || 6 <= k <= 16 || 100 <= k <= 136 witness 2

  /** A range is a character interval, any character or a class. */
  type RangeKind = k: nat | k == 2 || 6 <= k <= 16 || 100 <= k <= 136 witness 2

  /** `neg` is 0 for a member, 1 for a complement, 2 for an exclusion. */
  datatype Range = Range(neg: nat, kind: RangeKind, start: CodePoint, end: CodePoint, block: string)

  datatype Info = Info(kind: Kind, neg: bool, codepoint: CodePoint, ranges: seq<Range>, block: string)

  /** xmlIsChar, xmlIsLetter and so on; `category` answers for the xmlUCSIsCat functions by type. */
  datatype Tables = Tables(
    isChar: CodePoint -> bool, letter: CodePoint -> bool, digit: CodePoint -> bool,
    combining: CodePoint -> bool, extender: CodePoint -> bool,
    category: (nat, CodePoint) -> bool, block: (string, CodePoint) -> bool)

  /** The first type of the general category that a type belongs to. */
  function Group(k: nat): nat {
    if k <= LETTER_OTHERS then LETTER
    else if k <= MARK_ENCLOSING then MARK
    else if k <= NUMBER_OTHERS then NUMBER
    else if k <= PUNCT_OTHERS then PUNCT
    else if k <= SEPAR_PARA then SEPAR
    else if k <= SYMBOL_OTHERS then SYMBOL
    else OTHER
  }

  /** One of two category types contains the other. */
  predicate Nested(j: nat, k: nat) {
    Group(j) == Group(k) && (j == Group(j) || k == Group(k) || j == k)
  }

  /** Unicode's general categories are a partition, and so are the parts of each. */
  ghost predicate Partition(u: Tables) {
    forall j: nat, k: nat, c: CodePoint ::
      LETTER <= j < OTHER_NA && LETTER <= k < OTHER_NA && u.category(j, c) && u.category(k, c) ==> Nested(j, k)
  }

  // --------------------------------------------------------- matching a code point

  function Bit(b: bool): int { if b then 1 else 0 }

  predicate IsSpace(c: CodePoint) { c == 10 || c == 13 || c == 9 || c == 32 }

  predicate IsInit(u: Tables, c: CodePoint) { u.letter(c) || c == 95 || c == 58 }

  predicate IsName(u: Tables, c: CodePoint) {
    || u.letter(c) || u.digit(c) || c == 46 || c == 45 || c == 95 || c == 58
    || u.combining(c) || u.extender(c)
  }

  predicate IsUnreal(u: Tables, c: CodePoint) {
    u.category(PUNCT, c) || u.category(SEPAR, c) || u.category(OTHER, c)
  }

  /** xmlRegCheckCharacterRange with `neg` 0, as every caller has it. */
  predicate CheckRange(u: Tables, kind: RangeKind, c: CodePoint, start: CodePoint, end: CodePoint, block: string) {
    if kind == ANYCHAR then c != 10 && c != 13
    else if kind == CHARVAL then start <= c <= end
    else if kind == ANYSPACE then IsSpace(c)
    else if kind == NOTSPACE then !IsSpace(c)
    else if kind == INITNAME then IsInit(u, c)
    else if kind == NOTINITNAME then !IsInit(u, c)
    else if kind == NAMECHAR then IsName(u, c)
    else if kind == NOTNAMECHAR then !IsName(u, c)
    else if kind == DECIMAL then u.category(NUMBER_DECIMAL, c)
    else if kind == NOTDECIMAL then !u.category(NUMBER_DECIMAL, c)
    else if kind == REALCHAR then !IsUnreal(u, c)
    else if kind == NOTREALCHAR then IsUnreal(u, c)
    else if kind == OTHER_NA then false
    else if kind == BLOCK_NAME then u.block(block, c)
    else u.category(kind, c)
  }

  predicate InRange(u: Tables, r: Range, c: CodePoint) {
    CheckRange(u, r.kind, c, r.start, r.end, r.block)
  }

  /** `r` keeps `c` out, whatever the other ranges say. */
  predicate Excludes(u: Tables, r: Range, c: CodePoint) {
    r.neg != 0 && InRange(u, r, c)
  }

  predicate Admits(u: Tables, r: Range, c: CodePoint) {
    if r.neg == 0 then InRange(u, r, c) else r.neg != 2 && !InRange(u, r, c)
  }

  /** A class expression matches what some range admits and none excludes. */
  predicate InRanges(u: Tables, rs: seq<Range>, c: CodePoint) {
    (forall i :: 0 <= i < |rs| ==> !Excludes(u, rs[i], c)) && exists i :: 0 <= i < |rs| && Admits(u, rs[i], c)
  }

  function Judge(u: Tables, a: Info, c: CodePoint): int {
    if !u.isChar(c) then -1
    else if a.kind == CHARVAL then Bit(c == a.codepoint)
    else if a.kind == RANGES then Bit(InRanges(u, a.ranges, c))
    else Bit(CheckRange(u, a.kind, c, 0, 0, a.block) != a.neg)
  }

  /** xmlRegCheckCharacter. */
  method CheckCharacter(u: Tables, atom: Info, codepoint: CodePoint) returns (ret: int)
    ensures ret == Judge(u, atom, codepoint)
  {
    if !u.isChar(codepoint) { return -1; }
    if atom.kind == CHARVAL { return Bit(codepoint == atom.codepoint); }
    if atom.kind == RANGES {
      var accept := 0;
      for i := 0 to |atom.ranges|
        invariant forall k :: 0 <= k < i ==> !Excludes(u, atom.ranges[k], codepoint)
        invariant accept == Bit(exists k :: 0 <= k < i && Admits(u, atom.ranges[k], codepoint))
      {
        var range := atom.ranges[i];
        var inside := InRange(u, range, codepoint);
        if range.neg == 2 {
          if inside {
            assert Excludes(u, atom.ranges[i], codepoint);
            return 0;
          }
        } else if range.neg != 0 {
          if !inside {
            accept := 1;
            assert Admits(u, atom.ranges[i], codepoint);
          } else {
            assert Excludes(u, atom.ranges[i], codepoint);
            return 0;
          }
        } else if inside {
          accept := 1;
          assert Admits(u, atom.ranges[i], codepoint);
        }
      }
      return accept;
    }
    var inside := CheckRange(u, atom.kind, codepoint, 0, 0, atom.block);
    ret := Bit(if atom.neg then !inside else inside);
  }

  // ------------------------------------------------------------- comparing two ranges

  predicate SubgroupOf(j: nat, k: nat) {
    j == Group(j) && Group(k) == j && j < k && k != OTHER_NA
  }

  predicate Complements(j: nat, k: nat) {
    || (j == ANYSPACE && k == NOTSPACE) || (j == INITNAME && k == NOTINITNAME)
    || (j == NAMECHAR && k == NOTNAMECHAR) || (j == DECIMAL && k == NOTDECIMAL)
    || (j == REALCHAR && k == NOTREALCHAR)
  }

  /** Some code point of a character range is one that `r` covers. */
  predicate Meets(u: Tables, lo: Range, r: Range) {
    exists c: CodePoint :: lo.start <= c <= lo.end && InRange(u, r, c)
  }

  predicate Misses(u: Tables, lo: Range, r: Range) {
    exists c: CodePoint :: lo.start <= c <= lo.end && !InRange(u, r, c)
  }

  /** The ranges in type order; a difference in `neg` turns the answer round. */
  function CompareOrdered(u: Tables, r1: Range, r2: Range): bool
    requires r1.kind <= r2.kind
  {
    var flip := (r1.neg == 0) != (r2.neg == 0);
    if r1.kind == ANYCHAR || r2.kind == ANYCHAR then !flip
    else if r1.kind == r2.kind then
      flip != (r1.kind != CHARVAL || !(r1.end < r2.start || r2.end < r1.start))
    else if r1.kind == CHARVAL then
      (if flip then Misses(u, r1, r2) else Meets(u, r1, r2))
    else if r2.kind == BLOCK_NAME then true
    else if r1.kind < LETTER || r2.kind < LETTER then !Complements(r1.kind, r2.kind) || flip
    else flip != SubgroupOf(r1.kind, r2.kind)
  }

  /** xmlFACompareRanges. */
  predicate CompareRanges(u: Tables, r1: Range, r2: Range) {
    if r1.kind > r2.kind then CompareOrdered(u, r2, r1) else CompareOrdered(u, r1, r2)
  }

  /** The loop over the code points of a character range. */
  method ScanRange(u: Tables, range1: Range, range2: Range) returns (ret: bool)
    requires range1.kind == CHARVAL && range2.kind > ANYCHAR
    ensures ret == CompareRanges(u, range1, range2)
  {
    var neg := (range1.neg == 0) != (range2.neg == 0);
    var codepoint := range1.start;
    while codepoint <= range1.end
      invariant range1.start <= codepoint
      invariant forall c: CodePoint :: range1.start <= c < codepoint ==> InRange(u, range2, c) == neg
    {
      if neg != InRange(u, range2, codepoint) {
        return true;
      }
      codepoint := codepoint + 1;
    }
    return false;
  }

  predicate Flipped(r: Range, t: Range) {
    (r.neg == 0) != (t.neg == 0)
  }

  /** When two ranges are said to be apart, in terms of what they cover. A complement against a member
      turns the answer round, except that a character range is then held against what the class leaves
      out; two complements are treated like two members. */
  predicate Apart(u: Tables, r: Range, t: Range) {
    if r.kind == ANYCHAR || t.kind == ANYCHAR then Flipped(r, t)
    else if r.kind == CHARVAL && t.kind == CHARVAL then Flipped(r, t) == (r.start <= t.end && t.start <= r.end)
    else if r.kind == CHARVAL then CoversAlike(u, r, t, Flipped(r, t))
    else if t.kind == CHARVAL then CoversAlike(u, t, r, Flipped(r, t))
    else if r.kind == t.kind then Flipped(r, t)
    else if r.kind == BLOCK_NAME || t.kind == BLOCK_NAME then false
    else if r.kind < LETTER || t.kind < LETTER then (Complements(r.kind, t.kind) || Complements(t.kind, r.kind)) && !Flipped(r, t)
    else Flipped(r, t) == (SubgroupOf(r.kind, t.kind) || SubgroupOf(t.kind, r.kind))
  }

  /** A class covers all of a character range, or nothing of it. */
  predicate CoversAlike(u: Tables, lo: Range, t: Range, all: bool) {
    forall c: CodePoint :: lo.start <= c <= lo.end ==> InRange(u, t, c) == all
  }

  lemma ApartExactly(u: Tables, r: Range, t: Range)
    ensures CompareRanges(u, r, t) <==> !Apart(u, r, t)
  {
  }

  /** Two members of one code point are never declared apart. */
  lemma MembersCompare(u: Tables, r1: Range, r2: Range, c: CodePoint)
    requires Partition(u) && r1.neg == 0 && r2.neg == 0
    requires InRange(u, r1, c) && InRange(u, r2, c)
    ensures CompareRanges(u, r1, r2)
  {
    if r1.kind <= r2.kind { MembersOrdered(u, r1, r2, c); } else { MembersOrdered(u, r2, r1, c); }
  }

  lemma MembersOrdered(u: Tables, r1: Range, r2: Range, c: CodePoint)
    requires Partition(u) && r1.neg == 0 && r2.neg == 0 && r1.kind <= r2.kind
    requires InRange(u, r1, c) && InRange(u, r2, c)
    ensures CompareOrdered(u, r1, r2)
  {
    if r1.kind >= LETTER && r2.kind < BLOCK_NAME && r1.kind != r2.kind {
      assert u.category(r1.kind, c) && u.category(r2.kind, c);
      assert Nested(r1.kind, r2.kind);
    }
  }

  // -------------------------------------------------------------- comparing two atoms

  /** xmlFACompareAtomTypes, for types in order. */
  function CompareTypes(j: nat, k: nat): bool
    requires j <= k
  {
    if j <= ANYCHAR || k <= ANYCHAR || j == k then true
    else if j == ANYSPACE then
      !(k == NOTSPACE || LETTER <= k <= LETTER_OTHERS || NUMBER <= k <= NUMBER_OTHERS || MARK <= k <= MARK_ENCLOSING
        || PUNCT <= k <= PUNCT_OTHERS || SYMBOL <= k <= SYMBOL_OTHERS)
    else if j == INITNAME then
      !(k == NOTINITNAME || NUMBER <= k <= NUMBER_OTHERS || MARK <= k <= MARK_ENCLOSING || SEPAR <= k <= SEPAR_PARA
        || PUNCT <= k <= PUNCT_OTHERS || SYMBOL <= k <= SYMBOL_OTHERS || OTHER <= k <= OTHER_NA)
    else if j == NAMECHAR then
      !(k == NOTNAMECHAR || MARK <= k <= MARK_ENCLOSING || PUNCT <= k <= PUNCT_OTHERS || SEPAR <= k <= SEPAR_PARA
        || SYMBOL <= k <= SYMBOL_OTHERS || OTHER <= k <= OTHER_NA)
    else if j == DECIMAL then
      !(k == NOTDECIMAL || k == REALCHAR || LETTER <= k <= LETTER_OTHERS || MARK <= k <= MARK_ENCLOSING
        || PUNCT <= k <= PUNCT_OTHERS || SEPAR <= k <= SEPAR_PARA || SYMBOL <= k <= SYMBOL_OTHERS
        || OTHER <= k <= OTHER_NA)
    else if j == REALCHAR then
      !(k == NOTDECIMAL || MARK <= k <= MARK_ENCLOSING || PUNCT <= k <= PUNCT_OTHERS || SEPAR <= k <= SEPAR_PARA
        || SYMBOL <= k <= SYMBOL_OTHERS || OTHER <= k <= OTHER_NA)
    else if LETTER <= j <= OTHER_NA then j == Group(j) && k <= LastOf(j)
    else true
  }

  function LastOf(group: nat): nat {
    if group == LETTER then LETTER_OTHERS
    else if group == MARK then MARK_ENCLOSING
    else if group == NUMBER then NUMBER_OTHERS
    else if group == PUNCT then PUNCT_OTHERS
    else if group == SEPAR then SEPAR_PARA
    else if group == SYMBOL then SYMBOL_OTHERS
    else OTHER_NA
  }

  predicate SomePair(u: Tables, rs: seq<Range>, ts: seq<Range>) {
    exists i, j :: 0 <= i < |rs| && 0 <= j < |ts| && CompareRanges(u, rs[i], ts[j])
  }

  /** The double loop over two lists of ranges. */
  method CompareLists(u: Tables, rs: seq<Range>, ts: seq<Range>) returns (ret: bool)
    ensures ret == SomePair(u, rs, ts)
  {
    for i := 0 to |rs|
      invariant forall k, j :: 0 <= k < i && 0 <= j < |ts| ==> !CompareRanges(u, rs[k], ts[j])
    {
      for j := 0 to |ts|
        invariant forall k :: 0 <= k < j ==> !CompareRanges(u, rs[i], ts[k])
      {
        if CompareRanges(u, rs[i], ts[j]) {
          return true;
        }
      }
    }
    return false;
  }

  /** xmlFACompareAtoms on different atoms that are in type order. */
  function CompareInfos(u: Tables, a: Info, b: Info): bool
    requires a.kind <= b.kind
  {
    if a.kind == ANYCHAR || b.kind == ANYCHAR then true
    else if a.kind != b.kind && !CompareTypes(a.kind, b.kind) then false
    else if a.kind == CHARVAL then
      (a.neg != b.neg) != (if b.kind == CHARVAL then a.codepoint == b.codepoint else Judge(u, b, a.codepoint) != 0)
    else if a.kind == RANGES then
      (a.neg != b.neg) != (b.kind == RANGES ==> SomePair(u, a.ranges, b.ranges))
    else true
  }

  function CompareAtoms(u: Tables, info: Atom -> Info, a: Atom, b: Atom): bool {
    a == b || (if info(a).kind > info(b).kind then CompareInfos(u, info(b), info(a)) else CompareInfos(u, info(a), info(b)))
  }

  /** xmlFAEqualAtoms: only characters are ever found equal. */
  function EqualAtoms(info: Atom -> Info, a: Atom, b: Atom): bool {
    a == b || (info(a).kind == CHARVAL && info(b).kind == CHARVAL && info(a).codepoint == info(b).codepoint)
  }

  // ------------------------------------------------------------------- what is promised

  function Equality(info: Atom -> Info): (Atom, Atom) -> bool {
    (a: Atom, b: Atom) => EqualAtoms(info, a, b)
  }

  function Comparison(u: Tables, info: Atom -> Info): (Atom, Atom) -> bool {
    (a: Atom, b: Atom) => CompareAtoms(u, info, a, b)
  }

  function Judging(u: Tables, info: Atom -> Info): Check {
    (a: Atom, c: CodePoint) => Judge(u, info(a), c)
  }

  lemma EqualAtomsMatchAlike(u: Tables, info: Atom -> Info)
    ensures EqualsSoundly(Equality(info), Judging(u, info))
  {
    forall a, b | Equality(info)(a, b)
      ensures SameMatch(Judging(u, info), a, b)
    {}
  }

  predicate AllApart(u: Tables, rs: seq<Range>, ts: seq<Range>) {
    forall i, j :: 0 <= i < |rs| && 0 <= j < |ts| ==> Apart(u, rs[i], ts[j])
  }

  lemma AllApartExactly(u: Tables, rs: seq<Range>, ts: seq<Range>)
    ensures SomePair(u, rs, ts) <==> !AllApart(u, rs, ts)
  {
    hide Apart, CompareRanges;
    forall i, j | 0 <= i < |rs| && 0 <= j < |ts|
      ensures CompareRanges(u, rs[i], ts[j]) <==> !Apart(u, rs[i], ts[j])
    {
      ApartExactly(u, rs[i], ts[j]);
    }
  }

  /** The branches of the comparison that go wrong on atoms with a character in common. */
  predicate Misjudged(u: Tables, a: Info, b: Info)
    requires a.kind <= b.kind
  {
    if a.kind == ANYCHAR || b.kind == ANYCHAR then false
    else if a.kind == RANGES && b.kind == RANGES then (a.neg == b.neg) == AllApart(u, a.ranges, b.ranges)
    else if a.kind <= RANGES then a.neg != b.neg
    else !CompareTypes(a.kind, b.kind)
  }

  predicate MisjudgedPair(u: Tables, info: Atom -> Info, a: Atom, b: Atom) {
    a != b && (if info(a).kind > info(b).kind then Misjudged(u, info(b), info(a)) else Misjudged(u, info(a), info(b)))
  }

  predicate Share(u: Tables, a: Info, b: Info, c: CodePoint) {
    Judge(u, a, c) == 1 && Judge(u, b, c) == 1
  }

  /** On atoms that share a character the comparison misses exactly the misjudged pairs. */
  lemma MissedExactly(u: Tables, a: Info, b: Info, c: CodePoint)
    requires a.kind <= b.kind && Share(u, a, b, c)
    ensures !CompareInfos(u, a, b) <==> Misjudged(u, a, b)
  {
    if a.kind == RANGES && b.kind == RANGES { AllApartExactly(u, a.ranges, b.ranges); }
  }

  /** No `[^...]`: every range is a member or an exclusion. */
  predicate NoComplement(a: Info) {
    a.kind == RANGES ==> forall i :: 0 <= i < |a.ranges| ==> a.ranges[i].neg == 0 || a.ranges[i].neg == 2
  }

  /** Without complements, class expressions that share a character are never all apart: only a
      difference in `neg` misjudges them. */
  lemma MembersNotApart(u: Tables, a: Info, b: Info, c: CodePoint)
    requires Partition(u) && a.kind == RANGES && b.kind == RANGES && Share(u, a, b, c) && NoComplement(a) && NoComplement(b)
    ensures Misjudged(u, a, b) <==> a.neg != b.neg
  {
    var i :| 0 <= i < |a.ranges| && Admits(u, a.ranges[i], c);
    var j :| 0 <= j < |b.ranges| && Admits(u, b.ranges[j], c);
    MembersCompare(u, a.ranges[i], b.ranges[j], c);
    ApartExactly(u, a.ranges[i], b.ranges[j]);
  }

  lemma MissedPair(u: Tables, info: Atom -> Info, a: Atom, b: Atom, c: CodePoint)
    requires Share(u, info(a), info(b), c)
    ensures !CompareAtoms(u, info, a, b) <==> MisjudgedPair(u, info, a, b)
  {
    if info(a).kind > info(b).kind {
      MissedExactly(u, info(b), info(a), c);
    } else {
      MissedExactly(u, info(a), info(b), c);
    }
  }

  /** No two atoms with a character in common fall into a misjudging branch. */
  ghost predicate NoneMisjudged(u: Tables, info: Atom -> Info) {
    forall a, b, c: CodePoint :: Share(u, info(a), info(b), c) ==> !MisjudgedPair(u, info, a, b)
  }

  /** The comparison finds every overlap exactly when none is misjudged. */
  lemma ComparesExactly(u: Tables, info: Atom -> Info)
    ensures ComparesSoundly(Comparison(u, info), Judging(u, info)) <==> NoneMisjudged(u, info)
  {
    hide MisjudgedPair, CompareAtoms;
    forall a, b, c: CodePoint | Share(u, info(a), info(b), c)
      ensures Comparison(u, info)(a, b) <==> !MisjudgedPair(u, info, a, b)
    {
      MissedPair(u, info, a, b, c);
    }
    if ComparesSoundly(Comparison(u, info), Judging(u, info)) {
      forall a, b, c: CodePoint | Share(u, info(a), info(b), c)
        ensures !MisjudgedPair(u, info, a, b)
      {
        assert Judging(u, info)(a, c) == 1 && Judging(u, info)(b, c) == 1;
      }
    }
    if NoneMisjudged(u, info) {
      forall a, b, c: CodePoint | Judging(u, info)(a, c) == 1 && Judging(u, info)(b, c) == 1
        ensures Comparison(u, info)(a, b)
      {
        assert Share(u, info(a), info(b), c);
      }
    }
  }

  /** Lists of character ranges, complements among them: an overlap is missed exactly when every
      complement meets every member of the other list, no two of one kind meet, and some character is
      in both classes all the same. */
  lemma ListsMissedExactly(u: Tables, a: Info, b: Info)
    requires a.kind == RANGES && b.kind == RANGES && a.neg == b.neg
    requires forall i :: 0 <= i < |a.ranges| ==> a.ranges[i].kind == CHARVAL
    requires forall i :: 0 <= i < |b.ranges| ==> b.ranges[i].kind == CHARVAL
    ensures (!CompareInfos(u, a, b) && exists c :: Share(u, a, b, c))
      <==> && (forall i, j :: 0 <= i < |a.ranges| && 0 <= j < |b.ranges| ==>
                 (Flipped(a.ranges[i], b.ranges[j]) <==>
                  a.ranges[i].start <= b.ranges[j].end && b.ranges[j].start <= a.ranges[i].end))
           && exists c: CodePoint :: u.isChar(c) && InRanges(u, a.ranges, c) && InRanges(u, b.ranges, c)
  {
    AllApartExactly(u, a.ranges, b.ranges);
    forall i, j | 0 <= i < |a.ranges| && 0 <= j < |b.ranges|
      ensures Apart(u, a.ranges[i], b.ranges[j]) <==>
              (Flipped(a.ranges[i], b.ranges[j]) <==> a.ranges[i].start <= b.ranges[j].end && b.ranges[j].start <= a.ranges[i].end)
    {}
    forall c: CodePoint
      ensures Share(u, a, b, c) <==> u.isChar(c) && InRanges(u, a.ranges, c) && InRanges(u, b.ranges, c)
    {}
  }

  /** Two characters' complements share every third character and are still declared apart. */
  lemma ComplementsMissed(u: Tables, x: CodePoint, y: CodePoint, c: CodePoint)
    requires x != y && c != x && c != y && u.isChar(c)
    ensures var a := Info(RANGES, false, 0, [Range(1, CHARVAL, x, x, "")], "");
            var b := Info(RANGES, false, 0, [Range(1, CHARVAL, y, y, "")], "");
            Share(u, a, b, c) && !CompareInfos(u, a, b)
  {
    var a := Info(RANGES, false, 0, [Range(1, CHARVAL, x, x, "")], "");
    var b := Info(RANGES, false, 0, [Range(1, CHARVAL, y, y, "")], "");
    assert Admits(u, a.ranges[0], c) && Admits(u, b.ranges[0], c);
  }

  /** A complement against an interval: a shared character is missed exactly when the intervals
      meet and some character is left outside. */
  lemma ComplementMissedExactly(u: Tables, s: Range, t: Range)
    requires s.kind == CHARVAL && t.kind == CHARVAL && s.neg == 1 && t.neg == 0
    ensures var a := Info(RANGES, false, 0, [s], "");
            var b := Info(RANGES, false, 0, [t], "");
            (!CompareInfos(u, a, b) && exists c :: Share(u, a, b, c))
            <==> (s.start <= t.end && t.start <= s.end
                  && exists c: CodePoint :: u.isChar(c) && t.start <= c <= t.end && !(s.start <= c <= s.end))
  {
    var a := Info(RANGES, false, 0, [s], "");
    var b := Info(RANGES, false, 0, [t], "");
    assert a.ranges[0] == s && b.ranges[0] == t;
    forall c: CodePoint
      ensures Share(u, a, b, c) <==> u.isChar(c) && t.start <= c <= t.end && !(s.start <= c <= s.end)
    {
      assert Admits(u, a.ranges[0], c) <==> !(s.start <= c <= s.end);
      assert Admits(u, b.ranges[0], c) <==> t.start <= c <= t.end;
      assert Excludes(u, a.ranges[0], c) <==> s.start <= c <= s.end;
    }
    assert SomePair(u, a.ranges, b.ranges) <==> CompareRanges(u, a.ranges[0], b.ranges[0]);
  }

  /** Every decimal digit is a word character, yet the two classes are declared apart. */
  lemma DigitsMissed(u: Tables, c: CodePoint)
    requires Partition(u) && u.isChar(c) && u.category(NUMBER_DECIMAL, c)
    ensures var a := Info(DECIMAL, false, 0, [], "");
            var b := Info(REALCHAR, false, 0, [], "");
            Share(u, a, b, c) && !CompareInfos(u, a, b)
  {
    assert !Nested(NUMBER_DECIMAL, PUNCT) && !Nested(NUMBER_DECIMAL, SEPAR) && !Nested(NUMBER_DECIMAL, OTHER);
  }

  // ------------------------------------------------------------- classes and types by what they cover

  /** The tables of letters and digits hold just the ASCII ones below 0x80, those of combining and
      extending characters none. */
  ghost predicate AsciiTables(u: Tables) {
    forall c: CodePoint :: c < 0x80 ==>
      && (u.letter(c) <==> 0x41 <= c <= 0x5A || 0x61 <= c <= 0x7A) && (u.digit(c) <==> 0x30 <= c <= 0x39)
      && !u.combining(c) && !u.extender(c)
  }

  /** The escapes of expressions are the classes that the parser's scanner goes by: white space, what may
      start a name and what may be in one, the colon included. */
  lemma EscapesAreClasses(u: Tables, c: XmlBytes.Byte)
    requires AsciiTables(u) && c < 0x80
    ensures var t := XmlBytes.ByteType(c);
            && (CheckRange(u, ANYSPACE, c, 0, 0, "") <==> t == XmlBytes.S || t == XmlBytes.Cr || t == XmlBytes.Lf)
            && (CheckRange(u, INITNAME, c, 0, 0, "") <==> t == XmlBytes.Nmstrt || t == XmlBytes.Hex || t == XmlBytes.Colon)
            && (CheckRange(u, NAMECHAR, c, 0, 0, "") <==>
                t == XmlBytes.Nmstrt || t == XmlBytes.Hex || t == XmlBytes.Colon || t == XmlBytes.Digit || t == XmlBytes.Name || t == XmlBytes.Minus)
  {
  }

  /** A type and its opposite share nothing and leave nothing out. */
  lemma OppositesSplit(u: Tables, j: RangeKind, k: RangeKind, c: CodePoint)
    requires Complements(j, k)
    ensures CheckRange(u, j, c, 0, 0, "") <==> !CheckRange(u, k, c, 0, 0, "")
  {
  }

  /** The categories are Unicode's: a partition, each part inside its whole, with the white space of
      ASCII among the separators and the control characters. */
  ghost predicate Categorised(u: Tables) {
    && Partition(u)
    && (forall k: nat, c: CodePoint :: LETTER <= k < OTHER_NA && u.category(k, c) ==> u.category(Group(k), c))
    && u.category(SEPAR, 32) && u.category(OTHER, 9) && u.category(OTHER, 10) && u.category(OTHER, 13)
  }

  /** Where two types that are listed as apart meet all the same: names with characters of the other
      categories, the word characters, of which every digit, mark and symbol is one, and a category with
      a block. */
  predicate MeetAt(u: Tables, j: nat, k: nat, block: string, c: CodePoint) {
    if j == INITNAME then k >= LETTER && k < OTHER_NA && u.category(k, c) && IsInit(u, c)
    else if j == NAMECHAR then k >= LETTER && k < OTHER_NA && u.category(k, c) && IsName(u, c)
    else if j == DECIMAL then k == REALCHAR && u.category(NUMBER_DECIMAL, c)
    else if j == REALCHAR then
      if k == NOTDECIMAL then !IsUnreal(u, c) && !u.category(NUMBER_DECIMAL, c)
      else (Group(k) == MARK || Group(k) == SYMBOL) && u.category(k, c)
    else j >= LETTER && j < OTHER_NA && k == BLOCK_NAME && u.category(j, c) && u.block(block, c)
  }

  /** The list of pairs said to be apart, and the characters it is wrong about. */
  lemma ListedApartExactly(u: Tables, a: Info, b: Info, c: CodePoint)
    requires Categorised(u) && ANYCHAR < a.kind < b.kind && !a.neg && !b.neg && !CompareTypes(a.kind, b.kind)
    ensures Share(u, a, b, c) <==> u.isChar(c) && MeetAt(u, a.kind, b.kind, b.block, c)
  {
    var j, k := a.kind, b.kind;
    if u.isChar(c) && k >= LETTER && k < OTHER_NA && u.category(k, c) {
      assert u.category(Group(k), c);
      if j == ANYSPACE && IsSpace(c) {
        SpaceCategories(u, k, c);
      } else if j == DECIMAL && u.category(NUMBER_DECIMAL, c) {
        assert Nested(NUMBER_DECIMAL, k);
      } else if j == REALCHAR {
        RealCategories(u, k, c);
      }
    }
    if j == DECIMAL && u.category(NUMBER_DECIMAL, c) { RealCategories(u, NUMBER_DECIMAL, c); }
  }

  lemma SpaceCategories(u: Tables, k: nat, c: CodePoint)
    requires Categorised(u) && LETTER <= k < OTHER_NA && IsSpace(c) && u.category(k, c)
    ensures Group(k) == SEPAR || Group(k) == OTHER
  {
    assert Nested(k, if c == 32 then SEPAR else OTHER);
  }

  /** What is in no category of the unreal ones is a word character. */
  lemma RealCategories(u: Tables, k: nat, c: CodePoint)
    requires Categorised(u) && LETTER <= k < OTHER_NA && u.category(k, c)
    ensures IsUnreal(u, c) <==> Group(k) == PUNCT || Group(k) == SEPAR || Group(k) == OTHER
  {
    assert u.category(Group(k), c);
    if u.category(PUNCT, c) { assert Nested(k, PUNCT); }
    if u.category(SEPAR, c) { assert Nested(k, SEPAR); }
    if u.category(OTHER, c) { assert Nested(k, OTHER); }
  }

  /** The low line starts names and is punctuation, so those two are said to be apart wrongly. */
  lemma LowLineMissed(u: Tables)
    requires Categorised(u) && u.isChar(95) && u.category(PUNCT, 95)
    ensures var a, b := Info(INITNAME, false, 0, [], ""), Info(PUNCT, false, 0, [], "");
            Share(u, a, b, 95) && !CompareInfos(u, a, b)
  {
    ListedApartExactly(u, Info(INITNAME, false, 0, [], ""), Info(PUNCT, false, 0, [], ""), 95);
  }
}
