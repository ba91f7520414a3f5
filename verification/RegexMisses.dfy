/** Three patterns, as their text is compiled, whose search misses a match: one for each of the
    limits that separate what is committed to from what matches. */
module RegexMisses {
  import opened Options
  import opened Utf8
  import opened RegexPattern
  import opened RegexTheory
  import opened RegexCommitment
  import opened RegexCaptures
  import opened RegexGrammar
  import opened RegexEngine
  import opened RegexLimits

  /** The engine for `pattern` finds nothing in the subject, which matches from its start to `end`. */
  ghost predicate Misses(pattern: seq<Byte>, s: Subject, end: nat) {
    exists engine: Engine, table: seq<Alternation> ::
      && SpellsAlternatives(pattern, 0, |pattern|, engine.root.sequences) && IsNumbered(engine, table)
      && NoneBefore(s, engine.root, |s.text| + 1) && AlternationMatches(s, engine.root, 0, end)
  }

  // A run of compiler and engine that a missed match is missed in.
  method SearchMisses(pattern: seq<Byte>, s: Subject, ghost end: nat) returns (found: bool)
    requires 0 !in pattern && Misses(pattern, s, end)
    ensures !found
  {
    hide SpellsAlternatives, IsNumbered, AlternationMatches, MatchFrom;
    var engine, table := Compile(pattern);
    ghost var missing: Engine, numbers :|
      && SpellsAlternatives(pattern, 0, |pattern|, missing.root.sequences) && IsNumbered(missing, numbers)
      && NoneBefore(s, missing.root, |s.text| + 1) && AlternationMatches(s, missing.root, 0, end);
    ghost var start, last;
    found, start, last := Execute(engine.value, s.text, 0, null, s.isNotBeginningOfLine, table);
  }

  // ---------- Spelling ----------

  lemma SpelledLetter(text: seq<Byte>, p: nat, e: nat, node: Node)
    requires p < |text| && IsLower(text[p]) && node.atom == Character(text[p])
    requires QuantifierAt(text, p + 1) == Quantifier(e, node.minimum, node.maximum)
    ensures SpellsNode(text, p, e, node)
  {
    assert SpellsAtom(text, p, p + 1, node.atom);
  }

  lemma SpelledGroup(text: seq<Byte>, p: nat, m: nat, e: nat, node: Node)
    requires p < m <= |text| && text[p] == '(' as int && text[m - 1] == ')' as int
    requires node.atom.Group? && SpellsAlternatives(text, p + 1, m - 1, node.atom.group.sequences)
    requires QuantifierAt(text, m) == Quantifier(e, node.minimum, node.maximum)
    ensures SpellsNode(text, p, e, node)
  {
    assert SpellsAtom(text, p, m, node.atom);
  }

  lemma SpelledOne(text: seq<Byte>, p: nat, e: nat, node: Node)
    requires SpellsNode(text, p, e, node) && EndsSequence(At(text, e))
    ensures SpellsSequence(text, p, e, Sequence([node]))
  {
    SpellsOneMore(text, p, p, e, [], node);
    assert [] + [node] == [node];
  }

  lemma SpelledTwo(text: seq<Byte>, p: nat, m: nat, e: nat, first: Node, second: Node)
    requires SpellsNode(text, p, m, first) && SpellsNode(text, m, e, second) && EndsSequence(At(text, e))
    ensures SpellsSequence(text, p, e, Sequence([first, second]))
  {
    SpellsOneMore(text, p, p, m, [], first);
    assert [] + [first] == [first];
    SpellsOneMore(text, p, m, e, [first], second);
    assert [first] + [second] == [first, second];
  }

  // ---------- Numbering ----------

  predicate IsPlain(sequence: Sequence) {
    forall k :: 0 <= k < |sequence.nodes| ==> !sequence.nodes[k].atom.Group?
  }

  lemma {:induction false} PlainNodes(table: seq<Alternation>, sequence: Sequence, index: nat, lo: nat)
    requires index <= |sequence.nodes| && forall k :: index <= k < |sequence.nodes| ==> !sequence.nodes[k].atom.Group?
    ensures GroupsInNodes(sequence, index) == 0 && NodesNumbered(table, sequence, index, lo)
    decreases |sequence.nodes| - index
  {
    if index < |sequence.nodes| {
      PlainNodes(table, sequence, index + 1, lo);
    }
  }

  lemma {:induction false} PlainAlternatives(table: seq<Alternation>, alternation: Alternation, i: nat, lo: nat)
    requires i <= |alternation.sequences| && forall k :: i <= k < |alternation.sequences| ==>
        IsPlain(alternation.sequences[k])
    ensures GroupsFrom(alternation, i) == 0 && NumberedFrom(table, alternation, i, lo)
    decreases |alternation.sequences| - i
  {
    if i < |alternation.sequences| {
      PlainNodes(table, alternation.sequences[i], 0, lo);
      PlainAlternatives(table, alternation, i + 1, lo);
    }
  }

  // One alternative, which begins with a group, the only one.
  lemma OneGroup(root: Alternation, sequence: Sequence, group: Alternation)
    requires root == Alternation([sequence], 1, 1) && sequence.nodes != [] && sequence.nodes[0].atom == Group(group, 1)
    requires forall k :: 0 < k < |sequence.nodes| ==> !sequence.nodes[k].atom.Group?
    requires forall k :: 0 <= k < |group.sequences| ==> IsPlain(group.sequences[k])
    requires group.firstGroup == 2 && group.lastGroup == 1
    ensures IsNumbered(Engine(root, 1), [root, group])
  {
    var table := [root, group];
    PlainAlternatives(table, group, 0, 2);
    PlainNodes(table, sequence, 1, 2);
    assert Numbered(table, group, 2);
    assert sequence.nodes[0].atom.group == group && GroupsInAtom(sequence.nodes[0].atom) == 1;
    assert NodesNumbered(table, sequence, 0, 1);
    PlainAlternatives(table, root, 1, 2);
    assert root.sequences[0] == sequence;
  }

  // ---------- Matching ----------

  lemma MatchesLetter(s: Subject, sequence: Sequence, index: nat, p: nat, e: nat)
    requires index < |sequence.nodes| && p < |s.text| && s.text[p] < 128
    requires sequence.nodes[index] == Node(Character(s.text[p]), 1, 1)
    requires SequenceMatches(s, sequence, index + 1, p + 1, e)
    ensures SequenceMatches(s, sequence, index, p, e)
  {
    assert Occurrences(s, sequence.nodes[index].atom, 0, p, p);
    assert AtomMatches(s, sequence.nodes[index].atom, p, p + 1);
    assert Repeats(s, sequence.nodes[index], 1, p, p + 1);
  }

  lemma MatchesGroup(s: Subject, sequence: Sequence, index: nat, p: nat, m: nat, e: nat)
    requires index < |sequence.nodes| && p <= |s.text| && sequence.nodes[index].atom.Group?
    requires sequence.nodes[index].minimum == 1
    requires (sequence.nodes[index].maximum < 0 || sequence.nodes[index].maximum >= 1)
    requires AlternationMatches(s, sequence.nodes[index].atom.group, p, m)
    requires SequenceMatches(s, sequence, index + 1, m, e)
    ensures SequenceMatches(s, sequence, index, p, e)
  {
    assert Occurrences(s, sequence.nodes[index].atom, 0, p, p);
    assert AtomMatches(s, sequence.nodes[index].atom, p, m);
    assert Repeats(s, sequence.nodes[index], 1, p, m);
  }

  lemma MatchesRepeated(s: Subject, sequence: Sequence, index: nat, k: nat, p: nat, m: nat, e: nat)
    requires index < |sequence.nodes|
    requires Repeats(s, sequence.nodes[index], k, p, m) && SequenceMatches(s, sequence, index + 1, m, e)
    ensures SequenceMatches(s, sequence, index, p, e)
  {
  }

  lemma MatchesAlternative(s: Subject, alternation: Alternation, i: nat, p: nat, e: nat)
    requires i < |alternation.sequences| && SequenceMatches(s, alternation.sequences[i], 0, p, e)
    ensures AlternationMatches(s, alternation, p, e)
  {
  }

  lemma NodesOfOne(s: Subject, sequence: Sequence, p: nat)
    requires |sequence.nodes| == 1 && IsSingle(sequence.nodes[0]) && p <= |s.text|
    ensures MatchNodes(s, sequence, 0, p) == MatchAtom(s, sequence.nodes[0].atom, p)
  {
  }

  // ---------- Groups are not entered again ----------

  const A := Node(Character('a' as int), 1, 1)
  const B := Node(Character('b' as int), 1, 1)
  const C := Node(Character('c' as int), 1, 1)

  // (a|ab)c
  const CHOICE := Alternation([Sequence([A]), Sequence([A, B])], 2, 1)
  const CHOICE_THEN_C := Sequence([Node(Group(CHOICE, 1), 1, 1), C])
  const CHOICE_PATTERN := Alternation([CHOICE_THEN_C], 1, 1)

  // In (a|ab)c the group keeps its first alternative, and the match "abc" is missed.
  lemma GroupsAreNotReentered()
    ensures Misses(Bytes("(a|ab)c"), Subject(Bytes("abc"), false), 3)
  {
    hide SpellsAlternatives, NoneBefore, AlternationMatches, IsNumbered;
    ChoiceSpelled();
    ChoiceNumbered();
    ChoiceMatches();
    ChoiceMissed();
    var engine := Engine(CHOICE_PATTERN, 1);
  }

  lemma ChoiceSpelled()
    ensures SpellsAlternatives(Bytes("(a|ab)c"), 0, 7, CHOICE_PATTERN.sequences)
  {
    hide SpellsNode;
    var text: seq<Byte> := Bytes("(a|ab)c");
    SpelledLetter(text, 1, 2, A);
    SpelledOne(text, 1, 2, A);
    SpelledLetter(text, 3, 4, A);
    SpelledLetter(text, 4, 5, B);
    SpelledTwo(text, 3, 4, 5, A, B);
    assert SpellsAlternatives(text, 1, 2, CHOICE.sequences[..1]);
    assert SpellsAlternatives(text, 1, 5, CHOICE.sequences);
    SpelledGroup(text, 0, 6, 6, CHOICE_THEN_C.nodes[0]);
    SpelledLetter(text, 6, 7, C);
    SpelledTwo(text, 0, 6, 7, CHOICE_THEN_C.nodes[0], C);
  }

  lemma ChoiceNumbered()
    ensures IsNumbered(Engine(CHOICE_PATTERN, 1), [CHOICE_PATTERN, CHOICE])
  {
    OneGroup(CHOICE_PATTERN, CHOICE_THEN_C, CHOICE);
  }

  lemma ChoiceMatches()
    ensures AlternationMatches(Subject(Bytes("abc"), false), CHOICE_PATTERN, 0, 3)
  {
    var s := Subject(Bytes("abc"), false);
    MatchesLetter(s, CHOICE.sequences[1], 1, 1, 2);
    MatchesLetter(s, CHOICE.sequences[1], 0, 0, 2);
    MatchesAlternative(s, CHOICE, 1, 0, 2);
    MatchesLetter(s, CHOICE_THEN_C, 1, 2, 3);
    MatchesGroup(s, CHOICE_THEN_C, 0, 0, 2, 3);
    MatchesAlternative(s, CHOICE_PATTERN, 0, 0, 3);
  }

  lemma ChoiceMissed()
    ensures NoneBefore(Subject(Bytes("abc"), false), CHOICE_PATTERN, 4)
  {
    var s := Subject(Bytes("abc"), false);
    forall p: nat {:trigger BoundaryAfter(s.text, 0, p)} | p <= 3 ensures MatchFrom(s, CHOICE_PATTERN, 0, p).None? {
      NodesOfOne(s, CHOICE.sequences[0], p);
      if p == 0 {
        assert MatchNodes(s, CHOICE.sequences[0], 0, 0) == Some(1);
        assert MatchAtom(s, CHOICE_THEN_C.nodes[0].atom, 0) == Some(1);
        assert MatchNodes(s, CHOICE_THEN_C, 1, 1).None?;
      } else {
        assert MatchNodes(s, CHOICE.sequences[1], 0, p).None?;
        assert MatchFrom(s, CHOICE, 1, p).None?;
        assert MatchAtom(s, CHOICE_THEN_C.nodes[0].atom, p).None?;
      }
      assert MatchNodes(s, CHOICE_THEN_C, 0, p).None?;
      assert MatchFrom(s, CHOICE_PATTERN, 1, p).None?;
    }
  }

  // ---------- Repetitions make progress ----------

  // (a*)+
  const EMPTY_RUN := Alternation([Sequence([Node(Character('a' as int), 0, -1)])], 2, 1)
  const REPEATED := Sequence([Node(Group(EMPTY_RUN, 1), 1, -1)])
  const REPEATED_PATTERN := Alternation([REPEATED], 1, 1)

  // In (a*)+ the group matches nothing, which is no progress, and the empty match is missed.
  lemma RepetitionsMakeProgress()
    ensures Misses(Bytes("(a*)+"), Subject([], false), 0)
  {
    hide SpellsAlternatives, NoneBefore, AlternationMatches, IsNumbered;
    RepeatedSpelled();
    RepeatedNumbered();
    RepeatedMatches();
    RepeatedMissed();
    var engine := Engine(REPEATED_PATTERN, 1);
  }

  lemma RepeatedSpelled()
    ensures SpellsAlternatives(Bytes("(a*)+"), 0, 5, REPEATED_PATTERN.sequences)
  {
    var text: seq<Byte> := Bytes("(a*)+");
    SpelledLetter(text, 1, 3, EMPTY_RUN.sequences[0].nodes[0]);
    SpelledOne(text, 1, 3, EMPTY_RUN.sequences[0].nodes[0]);
    assert SpellsAlternatives(text, 1, 3, EMPTY_RUN.sequences);
    SpelledGroup(text, 0, 4, 5, REPEATED.nodes[0]);
    SpelledOne(text, 0, 5, REPEATED.nodes[0]);
  }

  lemma RepeatedNumbered()
    ensures IsNumbered(Engine(REPEATED_PATTERN, 1), [REPEATED_PATTERN, EMPTY_RUN])
  {
    OneGroup(REPEATED_PATTERN, REPEATED, EMPTY_RUN);
  }

  lemma RepeatedMatches()
    ensures AlternationMatches(Subject([], false), REPEATED_PATTERN, 0, 0)
  {
    var s := Subject([], false);
    var node := EMPTY_RUN.sequences[0].nodes[0];
    assert Occurrences(s, node.atom, 0, 0, 0) && Repeats(s, node, 0, 0, 0);
    assert SequenceMatches(s, EMPTY_RUN.sequences[0], 1, 0, 0);
    MatchesAlternative(s, EMPTY_RUN, 0, 0, 0);
    MatchesGroup(s, REPEATED, 0, 0, 0, 0);
    MatchesAlternative(s, REPEATED_PATTERN, 0, 0, 0);
  }

  lemma RepeatedMissed()
    ensures NoneBefore(Subject([], false), REPEATED_PATTERN, 1)
  {
    var s := Subject([], false);
    forall p: nat, counts: seq<nat>, e: nat {:trigger Committed(s, REPEATED, 0, counts, p, e)} | p == 0
      ensures !Committed(s, REPEATED, 0, counts, p, e)
    {
      if Committed(s, REPEATED, 0, counts, p, e) {
        var m := FirstCommits(s, REPEATED, 0, counts, p, e);
        RunOccurs(s, REPEATED.nodes[0], counts[0], p, m);
      }
    }
    FoundIffCommitted(s, REPEATED_PATTERN, 0);
  }

  // ---------- Repetitions are cut ----------

  const START := Node(BeginningOfLine, 1, 1)
  const MANY := Node(Character('a' as int), 0, -1)
  const END := Node(EndOfLine, 1, 1)

  // ^a*$
  const LINE := Sequence([START, MANY, END])
  const LINE_PATTERN := Alternation([LINE], 1, 0)

  function Repeated(n: nat): seq<Byte> {
    seq(n, _ => 'a' as int)
  }

  // In ^a*$ the run stops after 8192 characters, and a longer line of the same letter is missed.
  lemma RepetitionsAreCut(n: nat)
    requires n > 8192
    ensures Misses(Bytes("^a*$"), Subject(Repeated(n), false), n)
  {
    hide SpellsAlternatives, NoneBefore, AlternationMatches, IsNumbered, Repeated;
    LineSpelled();
    LineNumbered();
    LineMatches(n);
    LineMissed(n);
    LengthOfRepeated(n);
    var engine := Engine(LINE_PATTERN, 0);
  }

  lemma LengthOfRepeated(n: nat)
    ensures |Repeated(n)| == n
  {
  }

  lemma LineSpelled()
    ensures SpellsAlternatives(Bytes("^a*$"), 0, 4, LINE_PATTERN.sequences)
  {
    var text: seq<Byte> := Bytes("^a*$");
    assert SpellsNode(text, 0, 1, START);
    SpelledLetter(text, 1, 3, MANY);
    assert SpellsNode(text, 3, 4, END);
    hide SpellsNode;
    SpellsOneMore(text, 0, 0, 1, [], START);
    assert [] + [START] == [START] && [START] + [MANY] == [START, MANY] && [START, MANY] + [END] == LINE.nodes;
    SpellsOneMore(text, 0, 1, 3, [START], MANY);
    SpellsOneMore(text, 0, 3, 4, [START, MANY], END);
  }

  lemma LineNumbered()
    ensures IsNumbered(Engine(LINE_PATTERN, 0), [])
  {
    PlainAlternatives([], LINE_PATTERN, 0, 1);
  }

  // A run of the letter is as long as its count.
  lemma {:induction false} LettersOccur(n: nat, k: nat)
    requires k <= n
    ensures Occurrences(Subject(Repeated(n), false), MANY.atom, k, 0, k)
    decreases k
  {
    if k > 0 {
      LettersOccur(n, k - 1);
      assert AtomMatches(Subject(Repeated(n), false), MANY.atom, k - 1, k);
    }
  }

  lemma {:induction false} LettersTaken(n: nat, k: nat, m: nat)
    requires Occurrences(Subject(Repeated(n), false), MANY.atom, k, 0, m)
    ensures m == k
    decreases k
  {
    if k > 0 {
      var s := Subject(Repeated(n), false);
      var q: nat :| Occurrences(s, MANY.atom, k - 1, 0, q) && AtomMatches(s, MANY.atom, q, m);
      LettersTaken(n, k - 1, q);
    }
  }

  lemma LineMatches(n: nat)
    ensures AlternationMatches(Subject(Repeated(n), false), LINE_PATTERN, 0, n)
  {
    var s := Subject(Repeated(n), false);
    LettersOccur(n, n);
    assert Occurrences(s, START.atom, 0, 0, 0) && AtomMatches(s, START.atom, 0, 0);
    assert Occurrences(s, END.atom, 0, n, n) && AtomMatches(s, END.atom, n, n);
    assert Repeats(s, START, 1, 0, 0) && Repeats(s, MANY, n, 0, n) && Repeats(s, END, 1, n, n);
    MatchesRepeated(s, LINE, 2, 1, n, n, n);
    MatchesRepeated(s, LINE, 1, n, 0, n, n);
    MatchesRepeated(s, LINE, 0, 1, 0, 0, n);
    MatchesAlternative(s, LINE_PATTERN, 0, 0, n);
  }

  lemma LineMissed(n: nat)
    requires n > 8192
    ensures NoneBefore(Subject(Repeated(n), false), LINE_PATTERN, n + 1)
  {
    var s := Subject(Repeated(n), false);
    forall p: nat {:trigger BoundaryAfter(s.text, 0, p)} | p <= n ensures MatchFrom(s, LINE_PATTERN, 0, p).None? {
      FoundIffCommitted(s, LINE_PATTERN, p);
      forall counts: seq<nat>, e: nat {:trigger Committed(s, LINE, 0, counts, p, e)}
        ensures !Committed(s, LINE, 0, counts, p, e)
      {
        if Committed(s, LINE, 0, counts, p, e) {
          LineEnds(n, counts, p, e);
        }
      }
    }
  }

  lemma LineEnds(n: nat, counts: seq<nat>, p: nat, e: nat)
    requires Committed(Subject(Repeated(n), false), LINE, 0, counts, p, e) && p <= n
    ensures n <= 8192
  {
    var s := Subject(Repeated(n), false);
    var start := FirstCommits(s, LINE, 0, counts, p, e);
    OnceCommits(s, START, counts[0], p, start);
    var end := FirstCommits(s, LINE, 1, counts[1..], start, e);
    RunOccurs(s, MANY, counts[1], start, end);
    LettersTaken(n, counts[1], end);
    var last := FirstCommits(s, LINE, 2, counts[2..], end, e);
    OnceCommits(s, END, counts[2], end, last);
  }
}
