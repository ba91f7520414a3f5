/** What the text of a bracket expression says of a character, without the sets the compiler builds. */
module RegexClasses {
  import opened Utf8
  import opened RegexPattern
  import opened RegexGrammar

  // ---------- Named classes, by their members ----------

  const UPPERCASE := "ABCDEFGHIJKLMNOPQRSTUVWXYZ"
  const LOWERCASE := "abcdefghijklmnopqrstuvwxyz"
  const DECIMALS := "0123456789"
  const HEXADECIMALS := "0123456789abcdefABCDEF"
  const PUNCTUATION := "!\"#$%&'()*+,-./:;<=>?@[\\]^_`{|}~"

  predicate OneOf(c: int, letters: string) {
    exists i :: 0 <= i < |letters| && letters[i] as int == c
  }

  predicate IsLetterOrDigit(c: int) {
    OneOf(c, UPPERCASE) || OneOf(c, LOWERCASE) || OneOf(c, DECIMALS)
  }

  /** Space, tab, line feed, vertical tab, form feed, carriage return. */
  predicate IsSpace(c: int) { c in {32, 9, 10, 11, 12, 13} }

  /** The POSIX class of that name; no other name has members. */
  predicate NamedHas(name: seq<int>, c: int) {
    || (name == Bytes("upper") && OneOf(c, UPPERCASE))
    || (name == Bytes("lower") && OneOf(c, LOWERCASE))
    || (name == Bytes("alpha") && (OneOf(c, UPPERCASE) || OneOf(c, LOWERCASE)))
    || (name == Bytes("digit") && OneOf(c, DECIMALS))
    || (name == Bytes("alnum") && IsLetterOrDigit(c))
    || (name == Bytes("xdigit") && OneOf(c, HEXADECIMALS))
    || (name == Bytes("punct") && OneOf(c, PUNCTUATION))
    || (name == Bytes("graph") && (IsLetterOrDigit(c) || OneOf(c, PUNCTUATION)))
    || (name == Bytes("print") && (IsLetterOrDigit(c) || OneOf(c, PUNCTUATION) || c == 32))
    || (name == Bytes("space") && IsSpace(c))
    || (name == Bytes("blank") && c in {32, 9})
    || (name == Bytes("cntrl") && (0 <= c <= 31 || c == 127))
  }

  predicate EscapeHas(escape: int, c: int) {
    || (escape == 'd' as int && OneOf(c, DECIMALS))
    || (escape == 'w' as int && (IsLetterOrDigit(c) || c == '_' as int))
    || (escape == 's' as int && IsSpace(c))
  }

  lemma RangeOfUppercase(c: int)
    ensures OneOf(c, UPPERCASE) <==> IsUpper(c)
  {
    if IsUpper(c) { assert UPPERCASE[c - 65] as int == c; }
  }

  lemma RangeOfLowercase(c: int)
    ensures OneOf(c, LOWERCASE) <==> IsLower(c)
  {
    if IsLower(c) { assert LOWERCASE[c - 97] as int == c; }
  }

  lemma RangeOfDecimals(c: int)
    ensures OneOf(c, DECIMALS) <==> IsDigit(c)
  {
    if IsDigit(c) { assert DECIMALS[c - 48] as int == c; }
  }

  lemma RangeOfHexadecimals(c: int)
    ensures OneOf(c, HEXADECIMALS) <==> IsDigit(c) || 'a' as int <= c <= 'f' as int || 'A' as int <= c <= 'F' as int
  {
    if IsDigit(c) { assert HEXADECIMALS[c - 48] as int == c; }
    if 'a' as int <= c <= 'f' as int { assert HEXADECIMALS[c - 87] as int == c; }
    if 'A' as int <= c <= 'F' as int { assert HEXADECIMALS[c - 49] as int == c; }
  }

  const PUNCTUATION_CODES: seq<int> := [
    33, 34, 35, 36, 37, 38, 39, 40, 41, 42, 43, 44, 45, 46, 47, 58, 59, 60, 61, 62, 63, 64,
    91, 92, 93, 94, 95, 96, 123, 124, 125, 126]

  lemma PunctuationCode(i: nat)
    requires i < |PUNCTUATION|
    ensures |PUNCTUATION_CODES| == |PUNCTUATION| && PUNCTUATION[i] as int == PUNCTUATION_CODES[i]
  {
  }

  lemma RangeOfPunctuation(c: int)
    ensures OneOf(c, PUNCTUATION) <==> ' ' as int < c < 127 && !IsAlnum(c)
  {
    forall i | 0 <= i < |PUNCTUATION|
      ensures |PUNCTUATION_CODES| == |PUNCTUATION| && PUNCTUATION[i] as int == PUNCTUATION_CODES[i]
    {
      PunctuationCode(i);
    }
    if ' ' as int < c < 127 && !IsAlnum(c) {
      var i := if c < 48 then c - 33 else if c < 65 then c - 43 else if c < 97 then c - 69 else c - 95;
      PunctuationPlace(c, i);
    }
    if OneOf(c, PUNCTUATION) {
      var i :| 0 <= i < |PUNCTUATION| && PUNCTUATION[i] as int == c;
      CodeIsPunctuation(i);
    }
  }

  lemma CodeIsPunctuation(i: nat)
    requires i < |PUNCTUATION_CODES|
    ensures ' ' as int < PUNCTUATION_CODES[i] < 127 && !IsAlnum(PUNCTUATION_CODES[i])
  {
  }

  lemma PunctuationPlace(c: int, i: nat)
    requires ' ' as int < c < 127 && !IsAlnum(c)
    requires i == if c < 48 then c - 33 else if c < 65 then c - 43 else if c < 97 then c - 69 else c - 95
    ensures i < |PUNCTUATION_CODES| && PUNCTUATION_CODES[i] == c
  {
  }

  // Three letters and the length tell the names apart.
  lemma NameLetters(name: seq<int>)
    ensures name == Bytes("alpha") ==> |name| == 5 && name[0] == 97 && name[2] == 112
    ensures name == Bytes("alnum") ==> |name| == 5 && name[0] == 97 && name[2] == 110
    ensures name == Bytes("digit") ==> |name| == 5 && name[0] == 100
    ensures name == Bytes("upper") ==> |name| == 5 && name[0] == 117
    ensures name == Bytes("lower") ==> |name| == 5 && name[0] == 108
    ensures name == Bytes("space") ==> |name| == 5 && name[0] == 115
    ensures name == Bytes("blank") ==> |name| == 5 && name[0] == 98
    ensures name == Bytes("punct") ==> |name| == 5 && name[0] == 112 && name[2] == 110
    ensures name == Bytes("print") ==> |name| == 5 && name[0] == 112 && name[2] == 105
    ensures name == Bytes("graph") ==> |name| == 5 && name[0] == 103
    ensures name == Bytes("cntrl") ==> |name| == 5 && name[0] == 99
    ensures name == Bytes("xdigit") ==> |name| == 6
  {
  }

  // The compiler's tests have the members of the classes, and no others.
  lemma NamedClassMembers(name: seq<int>, c: int)
    requires 0 <= c < 128
    ensures AsciiClassHas(name, c) <==> NamedHas(name, c)
  {
    hide OneOf, Bytes;
    RangeOfUppercase(c);
    RangeOfLowercase(c);
    RangeOfDecimals(c);
    RangeOfHexadecimals(c);
    RangeOfPunctuation(c);
    NameLetters(name);
    NameLetters(Bytes("punct"));
  }

  lemma NamedIsAscii(name: seq<int>, c: int)
    requires NamedHas(name, c)
    ensures 0 <= c < 128
  {
    hide OneOf;
    RangeOfUppercase(c);
    RangeOfLowercase(c);
    RangeOfDecimals(c);
    RangeOfHexadecimals(c);
    RangeOfPunctuation(c);
  }

  lemma AddNamedAdds(members: ClassSet, name: seq<int>, c: int)
    requires c >= 0
    ensures ClassHas(AddNamed(members, name), c) <==> ClassHas(members, c) || NamedHas(name, c)
  {
    hide NamedHas, AsciiClassHas;
    if c < 128 {
      NamedClassMembers(name, c);
    } else if NamedHas(name, c) {
      NamedIsAscii(name, c);
      assert false;
    }
  }

  lemma EscapeAdds(members: ClassSet, escape: int, c: int)
    requires c >= 0 && EscapeClass(members, escape).Some?
    ensures ClassHas(EscapeClass(members, escape).value, c) <==> ClassHas(members, c) || EscapeHas(escape, c)
  {
    hide ClassHas, AddNamed, AddRange, OneOf, Bytes, NamedHas;
    NamesOfEscapes(c);
    if escape == 'd' as int {
      AddNamedAdds(members, Bytes("digit"), c);
    } else if escape == 'w' as int {
      AddNamedAdds(members, Bytes("alnum"), c);
      AddRangeAdds(AddNamed(members, Bytes("alnum")), '_' as int, '_' as int, c);
    } else {
      AddNamedAdds(members, Bytes("space"), c);
    }
  }

  lemma NamesOfEscapes(c: int)
    ensures NamedHas(Bytes("digit"), c) <==> OneOf(c, DECIMALS)
    ensures NamedHas(Bytes("alnum"), c) <==> IsLetterOrDigit(c)
    ensures NamedHas(Bytes("space"), c) <==> IsSpace(c)
  {
    hide OneOf, Bytes;
    NameLetters(Bytes("digit"));
    NameLetters(Bytes("alnum"));
    NameLetters(Bytes("space"));
  }

  // \d, \w and \s are escape classes, and no other escape is.
  lemma EscapeClassIff(members: ClassSet, escape: int)
    ensures EscapeClass(members, escape).Some? <==> escape in {'d' as int, 'w' as int, 's' as int}
  {
  }

  /** What a backslash makes of the character after it. */
  lemma EscapeMeaning(c: int)
    ensures EscapeCharacter('n' as int) == '\n' as int && EscapeCharacter('t' as int) == '\t' as int
    ensures EscapeCharacter('r' as int) == '\r' as int && EscapeCharacter('0' as int) == 0
    ensures EscapeCharacter('v' as int) == 11 && EscapeCharacter('f' as int) == 12
    ensures c !in {'n' as int, 't' as int, 'r' as int, '0' as int, 'v' as int, 'f' as int} ==> EscapeCharacter(c) == c
  {
  }

  // ---------- Items ----------

  /** The character c is one of those the item text[p..e] stands for: the members of a named class or of
      an escape class, the characters from one to another, or one character. */
  ghost predicate ItemHas(text: seq<Byte>, p: nat, e: nat, c: int) {
    if NamedClassEnd(text, p).Some? then
      var name := text[p + 2..NamedClassEnd(text, p).value];
      |name| < 16 && NamedHas(name, c)
    else if IsEscape(text, p) && At(text, p + 1) in {'d' as int, 'w' as int, 's' as int} then
      EscapeHas(At(text, p + 1), c)
    else exists m: nat, low: int ::
      && SpellsCodepoint(text, p, m, low)
      && if IsRangeDash(text, m) then low <= c && AtMost(text, m + 1, e, c) else c == low
  }

  /** c is at most the codepoint that text[p..e] spells. */
  ghost predicate AtMost(text: seq<Byte>, p: nat, e: nat, c: int) {
    exists high: int :: SpellsCodepoint(text, p, e, high) && c <= high
  }

  lemma ItemMeans(text: seq<Byte>, p: nat, e: nat, before: ClassSet, after: ClassSet, c: int)
    requires SpellsItem(text, p, e, before, after) && c >= 0
    ensures ClassHas(after, c) <==> ClassHas(before, c) || ItemHas(text, p, e, c)
  {
    hide ClassHas, AddNamed, AddRange, EscapeClass, NamedHas, EscapeHas, SpellsCodepoint;
    EscapeClassIff(before, At(text, p + 1));
    if NamedClassEnd(text, p).Some? {
      AddNamedAdds(before, text[p + 2..NamedClassEnd(text, p).value], c);
    } else if IsEscape(text, p) && EscapeClass(before, At(text, p + 1)).Some? {
      EscapeAdds(before, At(text, p + 1), c);
    } else {
      RangeItemMeans(text, p, e, before, after, c);
    }
  }

  lemma RangeItemMeans(text: seq<Byte>, p: nat, e: nat, before: ClassSet, after: ClassSet, c: int)
    requires SpellsItem(text, p, e, before, after) && c >= 0 && NamedClassEnd(text, p).None?
    requires !(IsEscape(text, p) && EscapeClass(before, At(text, p + 1)).Some?)
    requires !(IsEscape(text, p) && At(text, p + 1) in {'d' as int, 'w' as int, 's' as int})
    ensures ClassHas(after, c) <==> ClassHas(before, c) || ItemHas(text, p, e, c)
  {
    hide ClassHas, AddNamed, AddRange, EscapeClass, NamedHas, EscapeHas, NamedClassEnd;
    var m: nat, low: int :|
      && SpellsCodepoint(text, p, m, low)
      && if IsRangeDash(text, m) then
           exists high: int :: SpellsCodepoint(text, m + 1, e, high) && after == AddRange(before, low, high)
         else e == m && after == AddRange(before, low, low);
    if IsRangeDash(text, m) {
      var high: int :| SpellsCodepoint(text, m + 1, e, high) && after == AddRange(before, low, high);
      AddRangeAdds(before, low, high, c);
      assert AtMost(text, m + 1, e, c) <==> c <= high;
    } else {
      AddRangeAdds(before, low, low, c);
    }
  }

  ghost predicate IsItem(text: seq<Byte>, p: nat, e: nat) {
    exists before, after :: SpellsItem(text, p, e, before, after)
  }

  /** Items spelled one after the other: each begins where the one before ends. */
  ghost predicate CutIntoItems(text: seq<Byte>, cuts: seq<nat>) {
    cuts != [] && forall k :: 0 <= k < |cuts| - 1 ==> IsItem(text, cuts[k], cuts[k + 1])
  }

  lemma OneMoreCut(text: seq<Byte>, front: seq<nat>, e: nat)
    requires CutIntoItems(text, front) && IsItem(text, front[|front| - 1], e)
    ensures CutIntoItems(text, front + [e])
  {
    hide IsItem;
    var cuts := front + [e];
    forall k | 0 <= k < |cuts| - 1 ensures IsItem(text, cuts[k], cuts[k + 1]) {
      assert cuts[k] == front[k];
      if k < |front| - 1 {
        assert cuts[k + 1] == front[k + 1];
      }
    }
  }

  /** The set of a bracket expression has exactly the characters of its items. */
  lemma {:induction false} ItemsMean(text: seq<Byte>, p: nat, e: nat, n: nat, members: ClassSet)
    returns (cuts: seq<nat>)
    requires SpellsItems(text, p, e, n, members)
    ensures |cuts| == n + 1 && cuts[0] == p && cuts[n] == e && CutIntoItems(text, cuts)
    ensures forall c: int :: c >= 0 ==>
              (ClassHas(members, c) <==> exists k :: 0 <= k < n && ItemHas(text, cuts[k], cuts[k + 1], c))
    decreases n
  {
    hide ClassHas, SpellsItem, ItemHas, CutIntoItems;
    if n == 0 {
      cuts := [p];
      NoCuts(text, p);
      EmptyHasNothing();
    } else {
      var m: nat, before :| SpellsItems(text, p, m, n - 1, before) && SpellsItem(text, m, e, before, members);
      var front := ItemsMean(text, p, m, n - 1, before);
      cuts := front + [e];
      assert IsItem(text, m, e);
      OneMoreCut(text, front, e);
      forall c: int | c >= 0
        ensures ClassHas(members, c) <==> exists k :: 0 <= k < n && ItemHas(text, cuts[k], cuts[k + 1], c)
      {
        ItemMeans(text, m, e, before, members, c);
        OneMoreHas(text, front, e, n, c);
      }
    }
  }

  lemma NoCuts(text: seq<Byte>, p: nat)
    ensures CutIntoItems(text, [p])
  {
  }

  lemma EmptyHasNothing()
    ensures forall c: int :: c >= 0 ==> !ClassHas(EMPTY_SET, c)
  {
  }

  lemma OneMoreHas(text: seq<Byte>, front: seq<nat>, e: nat, n: nat, c: int)
    requires |front| == n > 0
    ensures (exists k :: 0 <= k < n && ItemHas(text, (front + [e])[k], (front + [e])[k + 1], c)) <==>
            || (exists k :: 0 <= k < n - 1 && ItemHas(text, front[k], front[k + 1], c))
            || ItemHas(text, front[n - 1], e, c)
  {
    hide ItemHas;
    var cuts := front + [e];
    assert forall k :: 0 <= k < n ==> cuts[k] == front[k];
    assert cuts[n] == e;
    if k :| 0 <= k < n - 1 && ItemHas(text, front[k], front[k + 1], c) {
      assert ItemHas(text, cuts[k], cuts[k + 1], c);
    }
    if ItemHas(text, front[n - 1], e, c) {
      assert ItemHas(text, cuts[n - 1], cuts[n - 1 + 1], c);
    }
  }

  // ---------- Bracket expressions ----------

  /** A bracket expression matches one character: one that an item has, or, after '^', one that none has. */
  lemma BracketMeans(s: Subject, text: seq<Byte>, p: nat, e: nat, isNegated: bool, members: ClassSet)
    returns (cuts: seq<nat>)
    requires SpellsBracket(text, p, e, isNegated, members)
    ensures isNegated == (At(text, p) == '^' as int) && At(text, e - 1) == ']' as int && |cuts| > 1
    ensures CutIntoItems(text, cuts) && cuts[0] == (if isNegated then p + 1 else p) && cuts[|cuts| - 1] + 1 == e
    ensures forall q: nat, r: nat {:trigger AtomMatches(s, Class(isNegated, members), q, r)} ::
              AtomMatches(s, Class(isNegated, members), q, r) <==>
                exists c :: CharacterAt(s.text, q, r, c) && isNegated != HasItem(text, cuts, c)
  {
    hide ClassHas, ItemHas, SpellsItem, CharacterAt, CutIntoItems;
    var start := if isNegated then p + 1 else p;
    var n: nat :| SpellsItems(text, start, e - 1, n, members) && n > 0;
    cuts := ItemsMean(text, start, e - 1, n, members);
    forall q: nat, r: nat {:trigger AtomMatches(s, Class(isNegated, members), q, r)}
      ensures AtomMatches(s, Class(isNegated, members), q, r) <==>
                exists c :: CharacterAt(s.text, q, r, c) && isNegated != HasItem(text, cuts, c)
    {
      forall c | CharacterAt(s.text, q, r, c)
        ensures c >= 0 && q <= |s.text| && (ClassHas(members, c) <==> HasItem(text, cuts, c))
      {
        CharacterIsNatural(s.text, q, r, c);
      }
    }
  }

  ghost predicate HasItem(text: seq<Byte>, cuts: seq<nat>, c: int) {
    exists k :: 0 <= k < |cuts| - 1 && ItemHas(text, cuts[k], cuts[k + 1], c)
  }

  lemma CharacterIsNatural(text: seq<Byte>, p: nat, e: nat, c: int)
    requires CharacterAt(text, p, e, c)
    ensures c >= 0 && p < |text|
  {
  }
}
