/** Whole runs of compiler and engine on a class written out as text: which characters it finds. */
module RegexSearches {
  import opened Options
  import opened Utf8
  import opened RegexPattern
  import opened RegexTheory
  import opened RegexGrammar
  import opened RegexClasses
  import opened RegexEngine
  import opened RegexMisses

  // ---------- One character ----------

  /** The pattern is one class, spelled from its first byte to its last. */
  ghost predicate IsClassPattern(pattern: seq<Byte>, isNegated: bool, members: ClassSet) {
    0 !in pattern && SpellsAtom(pattern, 0, |pattern|, Class(isNegated, members))
  }

  lemma ClassPatternSpelled(pattern: seq<Byte>, isNegated: bool, members: ClassSet)
    requires IsClassPattern(pattern, isNegated, members)
    ensures var root := ClassRoot(isNegated, members);
            SpellsAlternatives(pattern, 0, |pattern|, root.sequences) && IsNumbered(Engine(root, 0), [])
  {
    hide SpellsAtom;
    var node := Node(Class(isNegated, members), 1, 1);
    assert SpellsNode(pattern, 0, |pattern|, node);
    SpelledOne(pattern, 0, |pattern|, node);
    PlainAlternatives([], ClassRoot(isNegated, members), 0, 1);
  }

  function ClassRoot(isNegated: bool, members: ClassSet): Alternation {
    Alternation([Sequence([Node(Class(isNegated, members), 1, 1)])], 1, 0)
  }

  /** A character of the class stands at p and ends before e. */
  ghost predicate Fits(text: seq<Byte>, isNegated: bool, members: ClassSet, p: nat, e: nat) {
    exists c :: CharacterAt(text, p, e, c) && ClassHas(members, c) != isNegated
  }

  lemma ClassFinds(s: Subject, isNegated: bool, members: ClassSet, p: nat, e: nat)
    requires p <= |s.text|
    ensures MatchFrom(s, ClassRoot(isNegated, members), 0, p) == Some(e) <==> Fits(s.text, isNegated, members, p, e)
  {
    hide CharacterAt, ClassHas, MatchSimple;
    var root := ClassRoot(isNegated, members);
    NodesOfOne(s, root.sequences[0], p);
    assert MatchFrom(s, root, 1, p).None?;
    SimpleIsOccurrence(s, Class(isNegated, members), p, e);
  }

  /** Compiling and executing a class finds its first character. */
  method SearchClass(pattern: seq<Byte>, text: seq<Byte>, ghost isNegated: bool, ghost members: ClassSet)
    returns (found: bool, ghost start: nat, ghost end: nat)
    requires IsClassPattern(pattern, isNegated, members)
    ensures found ==> BoundaryAfter(text, 0, start) && Fits(text, isNegated, members, start, end)
    ensures forall p: nat, e: nat {:trigger Fits(text, isNegated, members, p, e)} ::
              BoundaryAfter(text, 0, p) && Fits(text, isNegated, members, p, e) ==> found && start <= p
  {
    hide SpellsAlternatives, IsNumbered, MatchFrom, CharacterAt, ClassHas, BoundaryAfter, IsClassPattern;
    ClassPatternSpelled(pattern, isNegated, members);
    PatternHasNoNul(pattern, isNegated, members);
    var engine, table := Compile(pattern);
    found, start, end := Execute(engine.value, text, 0, null, false, table);
    ghost var s := Subject(text, false);
    if found {
      ClassFinds(s, isNegated, members, start, end);
    }
    forall p: nat, e: nat {:trigger Fits(text, isNegated, members, p, e)} |
      BoundaryAfter(text, 0, p) && Fits(text, isNegated, members, p, e)
      ensures found && start <= p
    {
      FitsInside(text, isNegated, members, p, e);
      ClassFinds(s, isNegated, members, p, e);
    }
  }

  lemma PatternHasNoNul(pattern: seq<Byte>, isNegated: bool, members: ClassSet)
    requires IsClassPattern(pattern, isNegated, members)
    ensures 0 !in pattern
  {
  }

  lemma FitsInside(text: seq<Byte>, isNegated: bool, members: ClassSet, p: nat, e: nat)
    requires Fits(text, isNegated, members, p, e)
    ensures p < e <= |text|
  {
  }

  // ---------- Ranges ----------

  /** A character with no meaning of its own in a bracket expression. */
  predicate IsOrdinary(c: int) {
    IsScalar(c) && c !in {0, '\\' as int, '[' as int, ']' as int, '^' as int, '-' as int}
  }

  /** [lo-hi], or [^lo-hi]. */
  function RangePattern(lo: nat, hi: nat, isNegated: bool): seq<Byte>
    requires IsOrdinary(lo) && IsOrdinary(hi)
  {
    Opening(isNegated) + Encode(lo) + ['-' as int] + Encode(hi) + [']' as int]
  }

  function Opening(isNegated: bool): seq<Byte> {
    if isNegated then ['[' as int, '^' as int] else ['[' as int]
  }

  /** A character from lo to hi, or one outside, stands at p and ends before e. */
  ghost predicate InRangeAt(text: seq<Byte>, lo: nat, hi: nat, isNegated: bool, p: nat, e: nat) {
    exists c :: CharacterAt(text, p, e, c) && (lo <= c <= hi) != isNegated
  }

  lemma EncodedBytes(c: nat)
    requires IsOrdinary(c)
    ensures |Encode(c)| > 0 && 0 !in Encode(c)
    ensures Encode(c)[0] !in {0, '\\' as int, '[' as int, ']' as int, '^' as int, '-' as int}
  {
  }

  lemma CodepointSpelled(text: seq<Byte>, p: nat, c: nat)
    requires IsOrdinary(c) && p + |Encode(c)| <= |text| && text[p..p + |Encode(c)|] == Encode(c)
    ensures SpellsCodepoint(text, p, p + |Encode(c)|, c)
    ensures At(text, p) == Encode(c)[0]
  {
    hide Encode;
    EncodedBytes(c);
    assert text[p] == text[p..p + |Encode(c)|][0];
    CharacterIsDecoded(text, p, p + |Encode(c)|, c);
  }

  lemma RangePatternIsClass(lo: nat, hi: nat, isNegated: bool)
    requires IsOrdinary(lo) && IsOrdinary(hi)
    ensures IsClassPattern(RangePattern(lo, hi, isNegated), isNegated, AddRange(EMPTY_SET, lo, hi))
  {
    hide Encode, SpellsItems, SpellsItem, SpellsCodepoint, AddRange, Decode;
    var text, p := RangePattern(lo, hi, isNegated), |Opening(isNegated)|;
    var m := p + |Encode(lo)|;
    var e := m + 1 + |Encode(hi)|;
    EncodedBytes(lo);
    EncodedBytes(hi);
    assert text[p..m] == Encode(lo) && text[m] == '-' as int && text[m + 1..e] == Encode(hi) && text[e] == ']' as int;
    CodepointSpelled(text, p, lo);
    CodepointSpelled(text, m + 1, hi);
    assert text[..p] == Opening(isNegated);
    RangeItem(text, p, m, e, lo, hi);
    NoItems(text, p);
    OneMoreItem(text, p, p, e, 0, EMPTY_SET, AddRange(EMPTY_SET, lo, hi));
    assert p == 1 || text[1] == text[..p][1];
    ClosedBracket(text, 1, p, e, 1, isNegated, AddRange(EMPTY_SET, lo, hi));
  }

  lemma RangeItem(text: seq<Byte>, p: nat, m: nat, e: nat, lo: nat, hi: nat)
    requires SpellsCodepoint(text, p, m, lo) && SpellsCodepoint(text, m + 1, e, hi) && IsRangeDash(text, m)
    requires At(text, p) !in {'[' as int, '\\' as int}
    ensures SpellsItem(text, p, e, EMPTY_SET, AddRange(EMPTY_SET, lo, hi))
  {
    hide SpellsCodepoint, AddRange, FindClose;
  }

  /** [lo-hi] finds the first character from lo to hi, [^lo-hi] the first that is not. */
  method SearchRange(lo: nat, hi: nat, isNegated: bool, text: seq<Byte>)
    returns (found: bool, ghost start: nat, ghost end: nat)
    requires IsOrdinary(lo) && IsOrdinary(hi)
    ensures found ==> BoundaryAfter(text, 0, start) && InRangeAt(text, lo, hi, isNegated, start, end)
    ensures forall p: nat, e: nat {:trigger InRangeAt(text, lo, hi, isNegated, p, e)} ::
              BoundaryAfter(text, 0, p) && InRangeAt(text, lo, hi, isNegated, p, e) ==> found && start <= p
  {
    hide IsClassPattern, AddRange, RangePattern, CharacterAt, BoundaryAfter, InRangeAt, Fits;
    RangePatternIsClass(lo, hi, isNegated);
    found, start, end := SearchClass(RangePattern(lo, hi, isNegated), text, isNegated, AddRange(EMPTY_SET, lo, hi));
    forall p: nat, e: nat {:trigger InRangeAt(text, lo, hi, isNegated, p, e)}
      {:trigger Fits(text, isNegated, AddRange(EMPTY_SET, lo, hi), p, e)}
      ensures InRangeAt(text, lo, hi, isNegated, p, e) <==> Fits(text, isNegated, AddRange(EMPTY_SET, lo, hi), p, e)
    {
      RangeFits(text, lo, hi, isNegated, p, e);
    }
  }

  lemma RangeFits(text: seq<Byte>, lo: nat, hi: nat, isNegated: bool, p: nat, e: nat)
    ensures InRangeAt(text, lo, hi, isNegated, p, e) <==> Fits(text, isNegated, AddRange(EMPTY_SET, lo, hi), p, e)
  {
    hide CharacterAt, ClassHas, AddRange;
    forall c | CharacterAt(text, p, e, c)
      ensures ClassHas(AddRange(EMPTY_SET, lo, hi), c) <==> lo <= c <= hi
    {
      CharacterIsNatural(text, p, e, c);
      EmptyHasNothing();
      AddRangeAdds(EMPTY_SET, lo, hi, c);
    }
  }

  // ---------- Escape classes and named classes ----------

  /** \d, \w or \s finds the first character of its kind. */
  method SearchEscape(escape: Byte, text: seq<Byte>) returns (found: bool, ghost start: nat, ghost end: nat)
    requires escape in {'d' as int, 'w' as int, 's' as int}
    ensures found ==> BoundaryAfter(text, 0, start) && EscapeAt(text, escape, start, end)
    ensures forall p: nat, e: nat {:trigger EscapeAt(text, escape, p, e)} ::
              BoundaryAfter(text, 0, p) && EscapeAt(text, escape, p, e) ==> found && start <= p
  {
    hide IsClassPattern, EscapeClass, CharacterAt, BoundaryAfter, EscapeAt, Fits;
    EscapeClassIff(EMPTY_SET, escape);
    ghost var members := EscapeClass(EMPTY_SET, escape).value;
    EscapePatternIsClass(escape);
    found, start, end := SearchClass(['\\' as int, escape], text, false, members);
    forall p: nat, e: nat {:trigger EscapeAt(text, escape, p, e)} {:trigger Fits(text, false, members, p, e)}
      ensures EscapeAt(text, escape, p, e) <==> Fits(text, false, members, p, e)
    {
      EscapeFits(text, escape, p, e);
    }
  }

  ghost predicate EscapeAt(text: seq<Byte>, escape: int, p: nat, e: nat) {
    exists c :: CharacterAt(text, p, e, c) && EscapeHas(escape, c)
  }

  lemma EscapePatternIsClass(escape: Byte)
    requires EscapeClass(EMPTY_SET, escape).Some?
    ensures IsClassPattern(['\\' as int, escape], false, EscapeClass(EMPTY_SET, escape).value)
  {
    EscapeClassIff(EMPTY_SET, escape);
    hide EscapeClass;
    var text: seq<Byte> := ['\\' as int, escape];
    assert IsEscape(text, 0) && At(text, 1) == escape;
  }

  lemma EscapeFits(text: seq<Byte>, escape: int, p: nat, e: nat)
    requires EscapeClass(EMPTY_SET, escape).Some?
    ensures EscapeAt(text, escape, p, e) <==> Fits(text, false, EscapeClass(EMPTY_SET, escape).value, p, e)
  {
    hide CharacterAt, ClassHas, EscapeClass, EscapeHas;
    forall c | CharacterAt(text, p, e, c)
      ensures ClassHas(EscapeClass(EMPTY_SET, escape).value, c) <==> EscapeHas(escape, c)
    {
      CharacterIsNatural(text, p, e, c);
      EmptyHasNothing();
      EscapeAdds(EMPTY_SET, escape, c);
    }
  }

  /** [[:name:]] finds the first member of the named class; a name without members finds nothing. */
  method SearchNamed(name: seq<Byte>, text: seq<Byte>) returns (found: bool, ghost start: nat, ghost end: nat)
    requires |name| < 16 && forall i :: 0 <= i < |name| ==> IsLower(name[i])
    ensures found ==> BoundaryAfter(text, 0, start) && NamedAt(text, name, start, end)
    ensures forall p: nat, e: nat {:trigger NamedAt(text, name, p, e)} ::
              BoundaryAfter(text, 0, p) && NamedAt(text, name, p, e) ==> found && start <= p
  {
    hide IsClassPattern, AddNamed, NamedPattern, CharacterAt, BoundaryAfter, NamedAt, Fits;
    ghost var members := AddNamed(EMPTY_SET, name);
    NamedPatternIsClass(name);
    found, start, end := SearchClass(NamedPattern(name), text, false, members);
    forall p: nat, e: nat {:trigger NamedAt(text, name, p, e)} {:trigger Fits(text, false, members, p, e)}
      ensures NamedAt(text, name, p, e) <==> Fits(text, false, members, p, e)
    {
      NamedFits(text, name, p, e);
    }
  }

  function NamedPattern(name: seq<Byte>): seq<Byte> {
    ['[' as int, '[' as int, ':' as int] + name + [':' as int, ']' as int, ']' as int]
  }

  ghost predicate NamedAt(text: seq<Byte>, name: seq<int>, p: nat, e: nat) {
    exists c :: CharacterAt(text, p, e, c) && NamedHas(name, c)
  }

  lemma NamedPatternIsClass(name: seq<Byte>)
    requires |name| < 16 && forall i :: 0 <= i < |name| ==> IsLower(name[i])
    ensures IsClassPattern(NamedPattern(name), false, AddNamed(EMPTY_SET, name))
  {
    hide SpellsItems, SpellsItem, AddNamed, FindClose;
    var text, n := NamedPattern(name), |name|;
    assert text[3..3 + n] == name && IsClose(text, 3 + n);
    forall i: nat | 3 <= i < 3 + n ensures !IsClose(text, i) {
      assert text[i] == name[i - 3];
    }
    assert FindClose(text, 3) == Some(3 + n);
    NamedItem(text, 1, 3 + n, name);
    NoItems(text, 1);
    OneMoreItem(text, 1, 1, n + 5, 0, EMPTY_SET, AddNamed(EMPTY_SET, name));
    ClosedBracket(text, 1, 1, n + 5, 1, false, AddNamed(EMPTY_SET, name));
  }

  lemma NamedItem(text: seq<Byte>, p: nat, close: nat, name: seq<int>)
    requires NamedClassEnd(text, p) == Some(close) && p + 2 <= close <= |text|
    requires text[p + 2..close] == name && |name| < 16
    ensures SpellsItem(text, p, close + 2, EMPTY_SET, AddNamed(EMPTY_SET, name))
  {
    hide NamedClassEnd, AddNamed;
  }

  lemma NamedFits(text: seq<Byte>, name: seq<int>, p: nat, e: nat)
    ensures NamedAt(text, name, p, e) <==> Fits(text, false, AddNamed(EMPTY_SET, name), p, e)
  {
    hide CharacterAt, ClassHas, AddNamed, NamedHas;
    forall c | CharacterAt(text, p, e, c) ensures ClassHas(AddNamed(EMPTY_SET, name), c) <==> NamedHas(name, c) {
      CharacterIsNatural(text, p, e, c);
      EmptyHasNothing();
      AddNamedAdds(EMPTY_SET, name, c);
    }
  }
}
