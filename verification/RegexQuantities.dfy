/** What each quantifier admits, as the engine finds it: ^a, the quantifier and $ on a line of the letter. */
module RegexQuantities {
  import opened Utf8
  import opened RegexPattern
  import opened RegexTheory
  import opened RegexCaptures
  import opened RegexGrammar
  import opened RegexEngine
  import opened RegexLimits
  import opened RegexMisses

  datatype Quantity = Once | Star | Plus | Optional | Exactly(n: nat) | AtLeast(n: nat) | Between(low: nat, high: nat)

  predicate Admits(q: Quantity, n: nat) {
    match q
    case Once => n == 1
    case Star => true
    case Plus => n > 0
    case Optional => n < 2
    case Exactly(m) => n == m
    case AtLeast(m) => n >= m
    case Between(low, high) => low <= n <= high
  }

  function Decimal(n: nat): (digits: seq<Byte>)
    ensures digits != []
  {
    if n < 10 then ['0' as int + n] else Decimal(n / 10) + ['0' as int + n % 10]
  }

  /** The quantifier as a pattern writes it. */
  function Written(q: Quantity): seq<Byte> {
    match q
    case Once => []
    case Star => ['*' as int]
    case Plus => ['+' as int]
    case Optional => ['?' as int]
    case Exactly(n) => ['{' as int] + Decimal(n) + ['}' as int]
    case AtLeast(n) => ['{' as int] + Decimal(n) + [',' as int, '}' as int]
    case Between(low, high) => ['{' as int] + Decimal(low) + [',' as int] + Decimal(high) + ['}' as int]
  }

  function Minimum(q: Quantity): int {
    match q
    case Once => 1
    case Star => 0
    case Plus => 1
    case Optional => 0
    case Exactly(n) => n
    case AtLeast(n) => n
    case Between(low, _) => low
  }

  // Negative where there is no upper bound.
  function Maximum(q: Quantity): int {
    match q
    case Once => 1
    case Star => -1
    case Plus => -1
    case Optional => 1
    case Exactly(n) => n
    case AtLeast(_) => -1
    case Between(_, high) => high
  }

  // ---------- Reading a quantifier ----------

  ghost predicate StandsAt(text: seq<Byte>, p: nat, part: seq<Byte>) {
    p + |part| <= |text| && text[p..p + |part|] == part
  }

  lemma {:induction false} NumberRead(text: seq<Byte>, p: nat, n: nat)
    requires StandsAt(text, p, Decimal(n))
    ensures Number(text, p, p + |Decimal(n)|) == n
    ensures forall i :: p <= i < p + |Decimal(n)| ==> IsDigit(At(text, i))
    decreases n
  {
    var e := p + |Decimal(n)|;
    assert At(text, e - 1) == text[p..e][|Decimal(n)| - 1];
    if n >= 10 {
      assert text[p..e - 1] == text[p..e][..|Decimal(n)| - 1] == Decimal(n / 10);
      NumberRead(text, p, n / 10);
    }
  }

  lemma NumberEnds(text: seq<Byte>, p: nat, n: nat)
    requires StandsAt(text, p, Decimal(n)) && !IsDigit(At(text, p + |Decimal(n)|))
    ensures NumberEnd(text, p) == p + |Decimal(n)| && Number(text, p, p + |Decimal(n)|) == n && IsDigit(At(text, p))
  {
    hide Decimal, IsDigit;
    NumberRead(text, p, n);
  }

  // The parts of a text put together from parts.
  lemma Parts(text: seq<Byte>, p: nat, a: seq<Byte>, b: seq<Byte>)
    requires StandsAt(text, p, a + b)
    ensures StandsAt(text, p, a) && StandsAt(text, p + |a|, b)
  {
    var whole := text[p..p + |a + b|];
    assert text[p..p + |a|] == whole[..|a|] && text[p + |a|..p + |a| + |b|] == whole[|a|..];
  }

  lemma First(text: seq<Byte>, p: nat, part: seq<Byte>)
    requires StandsAt(text, p, part) && part != []
    ensures At(text, p) == part[0]
  {
    assert text[p..p + |part|][0] == part[0];
  }

  // An opening brace, the first number and what follows.
  lemma IntervalRead(text: seq<Byte>, p: nat, n: nat, rest: seq<Byte>)
    requires StandsAt(text, p, ['{' as int] + Decimal(n) + rest) && rest != [] && !IsDigit(rest[0])
    ensures At(text, p) == '{' as int && IsDigit(At(text, p + 1))
    ensures NumberEnd(text, p + 1) == p + 1 + |Decimal(n)| && Number(text, p + 1, p + 1 + |Decimal(n)|) == n
    ensures StandsAt(text, p + 1 + |Decimal(n)|, rest) && At(text, p + 1 + |Decimal(n)|) == rest[0]
    ensures |rest| == 2 ==> At(text, p + 1 + |Decimal(n)| + 1) == rest[1]
  {
    hide Decimal, NumberEnd, Number;
    var m := p + 1 + |Decimal(n)|;
    Parts(text, p, ['{' as int] + Decimal(n), rest);
    Parts(text, p, ['{' as int], Decimal(n));
    First(text, p, ['{' as int]);
    First(text, m, rest);
    NumberEnds(text, p + 1, n);
    if |rest| == 2 {
      assert text[m..m + 2][1] == rest[1];
    }
  }

  lemma NoNumber(text: seq<Byte>, p: nat)
    requires !IsDigit(At(text, p))
    ensures NumberEnd(text, p) == p
  {
  }

  lemma ExactlyRead(text: seq<Byte>, p: nat, n: nat)
    requires StandsAt(text, p, Written(Exactly(n)))
    ensures QuantifierAt(text, p) == Quantifier(p + |Written(Exactly(n))|, n, n)
  {
    hide Decimal, NumberEnd, Number, IsDigit, StandsAt;
    BraceIsNoDigit();
    IntervalRead(text, p, n, ['}' as int]);
  }

  lemma AtLeastRead(text: seq<Byte>, p: nat, n: nat)
    requires StandsAt(text, p, Written(AtLeast(n)))
    ensures QuantifierAt(text, p) == Quantifier(p + |Written(AtLeast(n))|, n, -1)
  {
    hide Decimal, NumberEnd, Number, IsDigit, StandsAt;
    BraceIsNoDigit();
    IntervalRead(text, p, n, [',' as int, '}' as int]);
    NoNumber(text, p + 1 + |Decimal(n)| + 1);
  }

  lemma BraceIsNoDigit()
    ensures !IsDigit(',' as int) && !IsDigit('}' as int)
  {
  }

  lemma BetweenRead(text: seq<Byte>, p: nat, low: nat, high: nat)
    requires StandsAt(text, p, Written(Between(low, high)))
    ensures QuantifierAt(text, p) == Quantifier(p + |Written(Between(low, high))|, low, high)
  {
    hide Decimal, NumberEnd, Number, IsDigit, StandsAt;
    var m := p + 1 + |Decimal(low)|;
    var rest: seq<Byte> := [',' as int] + (Decimal(high) + ['}' as int]);
    BraceIsNoDigit();
    assert Written(Between(low, high)) == ['{' as int] + Decimal(low) + rest;
    IntervalRead(text, p, low, rest);
    Parts(text, m, [',' as int], Decimal(high) + ['}' as int]);
    Parts(text, m + 1, Decimal(high), ['}' as int]);
    First(text, m + 1 + |Decimal(high)|, ['}' as int]);
    NumberEnds(text, m + 1, high);
  }

  // The quantifier is read with its bounds.
  lemma QuantifierRead(text: seq<Byte>, p: nat, q: Quantity)
    requires StandsAt(text, p, Written(q)) && At(text, p + |Written(q)|) == '$' as int
    ensures QuantifierAt(text, p) == Quantifier(p + |Written(q)|, Minimum(q), Maximum(q))
  {
    hide Decimal, NumberEnd, Number, StandsAt;
    match q {
      case Once =>
      case Exactly(n) => ExactlyRead(text, p, n);
      case AtLeast(n) => AtLeastRead(text, p, n);
      case Between(low, high) => BetweenRead(text, p, low, high);
      case _ => First(text, p, Written(q));
    }
  }

  // ---------- The pattern ----------

  /** ^a, the quantifier and $. */
  function LineOf(q: Quantity): seq<Byte> {
    ['^' as int, 'a' as int] + Written(q) + ['$' as int]
  }

  function LetterNode(q: Quantity): Node {
    Node(Character('a' as int), Minimum(q), Maximum(q))
  }

  function LineRoot(q: Quantity): Alternation {
    Alternation([Sequence([START, LetterNode(q), END])], 1, 0)
  }

  lemma LineOfSpelled(q: Quantity)
    ensures SpellsAlternatives(LineOf(q), 0, |LineOf(q)|, LineRoot(q).sequences)
  {
    hide Written, SpellsNode, QuantifierAt, Minimum, Maximum;
    var text, n := LineOf(q), |Written(q)|;
    assert text[2..2 + n] == Written(q) && At(text, 2 + n) == '$' as int;
    QuantifierRead(text, 2, q);
    AnchorSpelled(text, 0, START);
    SpelledLetter(text, 1, 2 + n, LetterNode(q));
    AnchorSpelled(text, 2 + n, END);
    var node := LetterNode(q);
    SpellsOneMore(text, 0, 0, 1, [], START);
    assert [] + [START] == [START] && [START] + [node] == [START, node] && [START, node] + [END] == [START, node, END];
    SpellsOneMore(text, 0, 1, 2 + n, [START], node);
    SpellsOneMore(text, 0, 2 + n, 3 + n, [START, node], END);
  }

  lemma AnchorSpelled(text: seq<Byte>, p: nat, node: Node)
    requires p < |text| && (node == START || node == END)
    requires text[p] == (if node == START then '^' as int else '$' as int)
    ensures SpellsNode(text, p, p + 1, node)
  {
  }

  lemma LineOfHasNoNul(q: Quantity)
    ensures 0 !in LineOf(q)
  {
    match q {
      case Exactly(n) => DecimalHasNoNul(n);
      case AtLeast(n) => DecimalHasNoNul(n);
      case Between(low, high) => DecimalHasNoNul(low); DecimalHasNoNul(high);
      case _ =>
    }
  }

  lemma {:induction false} DecimalHasNoNul(n: nat)
    ensures 0 !in Decimal(n)
    decreases n
  {
    if n >= 10 {
      DecimalHasNoNul(n / 10);
    }
  }

  // ---------- What it matches ----------

  // On n of the letter the pattern matches exactly when the quantifier admits n.
  lemma LineIff(q: Quantity, n: nat, p: nat, e: nat)
    ensures AlternationMatches(Subject(Repeated(n), false), LineRoot(q), p, e) <==> p == 0 && e == n && Admits(q, n)
  {
    hide AlternationMatches, SequenceMatches, Repeated, Repeats;
    var s := Subject(Repeated(n), false);
    LengthOfRepeated(n);
    if AlternationMatches(s, LineRoot(q), p, e) {
      var m, k := LineParts(s, q, p, e);
      RepeatsLetters(q, n, k, m);
    }
    if p == 0 && e == n && Admits(q, n) {
      LetterRepeats(q, n);
      AnchorRepeats(s, START, 0);
      AnchorRepeats(s, END, n);
      var line := LineRoot(q).sequences[0];
      assert SequenceMatches(s, line, 3, n, n) by {
        LineIsOver(s, line, n);
      }
      MatchesRepeated(s, line, 2, 1, n, n, n);
      MatchesRepeated(s, line, 1, n, 0, n, n);
      MatchesRepeated(s, line, 0, 1, 0, 0, n);
      MatchesAlternative(s, LineRoot(q), 0, 0, n);
    }
  }

  lemma LineIsOver(s: Subject, line: Sequence, n: nat)
    requires |line.nodes| == 3
    ensures SequenceMatches(s, line, 3, n, n)
  {
  }

  lemma AnchorRepeats(s: Subject, node: Node, p: nat)
    requires (node == START && p == 0 && !s.isNotBeginningOfLine) || (node == END && p == |s.text|)
    ensures Repeats(s, node, 1, p, p)
  {
    assert Occurrences(s, node.atom, 0, p, p) && AtomMatches(s, node.atom, p, p);
  }

  lemma AnchorTaken(s: Subject, node: Node, k: nat, p: nat, m: nat)
    requires (node == START || node == END) && Repeats(s, node, k, p, m)
    ensures p == m == if node == START then 0 else |s.text|
  {
    var q: nat :| Occurrences(s, node.atom, 0, p, q) && AtomMatches(s, node.atom, q, m);
  }

  lemma NodeParts(s: Subject, sequence: Sequence, index: nat, p: nat, e: nat) returns (m: nat, k: nat)
    requires index < |sequence.nodes| && SequenceMatches(s, sequence, index, p, e)
    ensures Repeats(s, sequence.nodes[index], k, p, m) && SequenceMatches(s, sequence, index + 1, m, e)
  {
    m, k :| Repeats(s, sequence.nodes[index], k, p, m) && SequenceMatches(s, sequence, index + 1, m, e);
  }

  lemma LineParts(s: Subject, q: Quantity, p: nat, e: nat) returns (m: nat, k: nat)
    requires AlternationMatches(s, LineRoot(q), p, e)
    ensures p == 0 && e == m == |s.text| && Repeats(s, LetterNode(q), k, 0, m)
  {
    hide Repeats, LetterNode;
    var line := LineRoot(q).sequences[0];
    var start, once := NodeParts(s, line, 0, p, e);
    AnchorTaken(s, START, once, p, start);
    m, k := NodeParts(s, line, 1, start, e);
    var end, last := NodeParts(s, line, 2, m, e);
    AnchorTaken(s, END, last, m, end);
  }

  lemma RepeatsLetters(q: Quantity, n: nat, k: nat, m: nat)
    requires Repeats(Subject(Repeated(n), false), LetterNode(q), k, 0, m)
    ensures m == k && Admits(q, k)
  {
    LettersTaken(n, k, m);
  }

  lemma LetterRepeats(q: Quantity, n: nat)
    requires Admits(q, n)
    ensures Repeats(Subject(Repeated(n), false), LetterNode(q), n, 0, n)
  {
    LettersOccur(n, n);
  }

  // ---------- Whole runs ----------

  lemma {:induction false} CharactersOfLetters(n: nat, p: nat)
    requires p <= n
    ensures Characters(Repeated(n), p) == n - p
    decreases n - p
  {
    if p < n {
      CharactersOfLetters(n, p + 1);
    }
  }

  lemma LineFound(q: Quantity, n: nat)
    requires n <= 8192
    ensures NoneBefore(Subject(Repeated(n), false), LineRoot(q), n + 1) <==> !Admits(q, n)
  {
    hide NoneBefore, AlternationMatches, Repeated, Admits;
    var s := Subject(Repeated(n), false);
    LengthOfRepeated(n);
    CharactersOfLetters(n, 0);
    NothingMissed(s, LineRoot(q), n + 1);
    forall p: nat, e: nat {:trigger AlternationMatches(s, LineRoot(q), p, e)}
      ensures AlternationMatches(s, LineRoot(q), p, e) <==> p == 0 && e == n && Admits(q, n)
    {
      LineIff(q, n, p, e);
    }
    if Admits(q, n) {
      assert AlternationMatches(s, LineRoot(q), 0, n);
      assert IsBoundary(s, n + 1, 0) && CanMatch(s, LineRoot(q), 0);
    }
  }

  /** Compiling ^a, a quantifier and $, and searching n of the letter, finds a match exactly when the
      quantifier admits n. */
  method SearchLetters(q: Quantity, n: nat) returns (found: bool, ghost start: nat, ghost end: nat)
    requires n <= 8192
    ensures found <==> Admits(q, n)
    ensures found ==> start == 0 && end == n
  {
    hide SpellsAlternatives, IsNumbered, MatchFrom, NoneBefore, AlternationMatches, Admits, LineOf, Repeated;
    LineOfSpelled(q);
    LineOfHasNoNul(q);
    LengthOfRepeated(n);
    LineFound(q, n);
    assert IsNumbered(Engine(LineRoot(q), 0), []) by {
      PlainAlternatives([], LineRoot(q), 0, 1);
      Unnumbered(LineRoot(q));
    }
    var engine, table := Compile(LineOf(q));
    found, start, end := Execute(engine.value, Repeated(n), 0, null, false, table);
    if found {
      LineIff(q, n, start, end);
    }
  }

  lemma Unnumbered(root: Alternation)
    requires root.firstGroup == 1 && root.lastGroup == 0 && GroupsFrom(root, 0) == 0 && NumberedFrom([], root, 0, 1)
    ensures IsNumbered(Engine(root, 0), [])
  {
  }
}
