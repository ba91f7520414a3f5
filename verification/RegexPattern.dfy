/** Compiled patterns, the engine's search as a function of pattern and subject, and the
    declarative meaning it is measured against. */
module RegexPattern {
  import opened Options
  import opened Utf8

  datatype CodeRange = CodeRange(low: int, high: int)

  /** The members of a bracket expression: a bitmap of the ASCII codepoints and ranges above it. */
  datatype ClassSet = ClassSet(ascii: set<int>, ranges: seq<CodeRange>)

  datatype Atom =
    | Character(codepoint: int)
    | Any
    | Class(isNegated: bool, members: ClassSet)
    | Group(group: Alternation, index: nat)
    | BeginningOfLine
    | EndOfLine

  // A negative maximum means unbounded.
  datatype Node = Node(atom: Atom, minimum: int, maximum: int)

  datatype Sequence = Sequence(nodes: seq<Node>)

  // first_group .. last_group are the capture numbers opened inside.
  datatype Alternation = Alternation(sequences: seq<Sequence>, firstGroup: int, lastGroup: int)

  const MAX_REPEAT := 8192

  /** What a match can see: the bytes of the subject, and whether '^' may match at its start. */
  datatype Subject = Subject(text: seq<Byte>, isNotBeginningOfLine: bool)

  predicate ClassHas(members: ClassSet, codepoint: int) {
    if codepoint < 128 then codepoint in members.ascii
    else exists i :: 0 <= i < |members.ranges| && members.ranges[i].low <= codepoint <= members.ranges[i].high
  }

  predicate IsSingle(node: Node) {
    node.minimum == 1 && node.maximum == 1
  }

  // ---------- The search ----------

  /** The position after one occurrence of an atom that is not a group. */
  function MatchSimple(s: Subject, atom: Atom, pos: nat): (r: Option<nat>)
    requires pos <= |s.text|
    ensures r.Some? ==> pos <= r.value <= |s.text|
    ensures r.Some? && !atom.BeginningOfLine? && !atom.EndOfLine? ==> pos < r.value
    ensures atom.Group? ==> r.None?
  {
    match atom
    case BeginningOfLine => if pos == 0 && !s.isNotBeginningOfLine then Some(pos) else None
    case EndOfLine => if pos == |s.text| then Some(pos) else None
    case Group(_, _) => None
    case Any => if pos == |s.text| then None else Some(pos + Decode(s.text, pos).length)
    case Character(codepoint) =>
      if pos < |s.text| && Decode(s.text, pos).codepoint == codepoint then Some(pos + Decode(s.text, pos).length)
          else None
    case Class(isNegated, members) =>
      if pos < |s.text| && ClassHas(members, Decode(s.text, pos).codepoint) != isNegated
      then Some(pos + Decode(s.text, pos).length) else None
  }

  function MatchAtom(s: Subject, atom: Atom, pos: nat): (r: Option<nat>)
    requires pos <= |s.text|
    ensures r.Some? ==> pos <= r.value <= |s.text|
    decreases atom, 0, 0, 0
  {
    if atom.Group? then MatchFrom(s, atom.group, 0, pos) else MatchSimple(s, atom, pos)
  }

  /** The alternatives from number `i` on, in order. */
  function MatchFrom(s: Subject, alternation: Alternation, i: nat, pos: nat): (r: Option<nat>)
    requires pos <= |s.text| && i <= |alternation.sequences|
    ensures r.Some? ==> pos <= r.value <= |s.text|
    decreases alternation, |alternation.sequences| - i, 0, 0
  {
    if i == |alternation.sequences| then None
    else
      var end := MatchNodes(s, alternation.sequences[i], 0, pos);
      if end.Some? then end else MatchFrom(s, alternation, i + 1, pos)
  }

  /** The nodes of a sequence from `index` on, each taking as many occurrences as it can. */
  function MatchNodes(s: Subject, sequence: Sequence, index: nat, pos: nat): (r: Option<nat>)
    requires pos <= |s.text| && index <= |sequence.nodes|
    ensures r.Some? ==> pos <= r.value <= |s.text|
    decreases sequence, |sequence.nodes| - index, 1, 0
  {
    if index == |sequence.nodes| then Some(pos)
    else
      var node := sequence.nodes[index];
      if IsSingle(node) then
        var next := MatchAtom(s, node.atom, pos);
        if next.None? then None else MatchNodes(s, sequence, index + 1, next.value)
      else
        var stops := Runs(s, node, [pos]);
        GiveGround(s, sequence, index, stops, |stops| - 1)
  }

  ghost predicate Within(s: Subject, stops: seq<nat>) {
    stops != [] && (forall i :: 0 <= i < |stops| ==> stops[0] <= stops[i] <= stops[|stops| - 1] <= |s.text|)
  }

  /** Extends a run of occurrences until the atom fails, makes no progress, or the limit is met. */
  function Runs(s: Subject, node: Node, stops: seq<nat>): (r: seq<nat>)
    requires Within(s, stops)
    ensures Within(s, r) && stops <= r
    decreases node, MAX_REPEAT + 1 - |stops|, 0, 0
  {
    var depth, cursor := |stops| - 1, stops[|stops| - 1];
    if (node.maximum < 0 || depth < node.maximum) && depth < MAX_REPEAT then
      var next := MatchAtom(s, node.atom, cursor);
      if next.None? || next.value == cursor then stops else Runs(s, node, stops + [next.value])
    else stops
  }

  /** Gives ground from the longest run back to the minimum until the rest of the sequence fits. */
  function GiveGround(s: Subject, sequence: Sequence, index: nat, stops: seq<nat>, take: int): (r: Option<nat>)
    requires index < |sequence.nodes| && Within(s, stops) && -1 <= take < |stops|
    ensures r.Some? ==> stops[0] <= r.value <= |s.text|
    decreases sequence, |sequence.nodes| - index, 0, take + 1
  {
    if take < 0 || take < sequence.nodes[index].minimum then None
    else
      var rest := MatchNodes(s, sequence, index + 1, stops[take]);
      if rest.Some? then rest else GiveGround(s, sequence, index, stops, take - 1)
  }

  // ---------- The declarative meaning ----------

  /** What one occurrence of an atom that is not a group is: a character, any or of a certain kind, or
      one end of the subject. */
  ghost predicate Occurs(s: Subject, atom: Atom, p: nat, e: nat) {
    match atom
    case BeginningOfLine => p == e == 0 && !s.isNotBeginningOfLine
    case EndOfLine => p == e == |s.text|
    case Group(_, _) => false
    case Any => exists c :: CharacterAt(s.text, p, e, c)
    case Character(codepoint) => CharacterAt(s.text, p, e, codepoint)
    case Class(isNegated, members) =>
      if isNegated then exists c :: CharacterAt(s.text, p, e, c) && !ClassHas(members, c)
      else exists c :: CharacterAt(s.text, p, e, c) && ClassHas(members, c)
  }

  // The search tests a single occurrence rightly.
  lemma SimpleIsOccurrence(s: Subject, atom: Atom, p: nat, e: nat)
    requires p <= |s.text|
    ensures Occurs(s, atom, p, e) <==> MatchSimple(s, atom, p) == Some(e)
  {
    hide CharacterAt, Decode, ClassHas;
    forall c {:trigger CharacterAt(s.text, p, e, c)}
      ensures CharacterAt(s.text, p, e, c) <==>
                p < |s.text| && Decode(s.text, p).codepoint == c && p + Decode(s.text, p).length == e
    {
      CharacterIsDecoded(s.text, p, e, c);
    }
    if p < |s.text| && e == p + Decode(s.text, p).length {
      assert CharacterAt(s.text, p, e, Decode(s.text, p).codepoint);
    }
  }

  /** `atom` matches the bytes from p up to e. */
  ghost predicate AtomMatches(s: Subject, atom: Atom, p: nat, e: nat)
    decreases atom, 0, 0, 0
  {
    p <= |s.text| && if atom.Group? then AlternationMatches(s, atom.group, p, e) else Occurs(s, atom, p, e)
  }

  lemma PlainAtomMatches(s: Subject, atom: Atom, p: nat, e: nat)
    requires !atom.Group?
    ensures AtomMatches(s, atom, p, e) <==> p <= |s.text| && MatchSimple(s, atom, p) == Some(e)
  {
    if p <= |s.text| {
      SimpleIsOccurrence(s, atom, p, e);
    }
  }

  ghost predicate AlternationMatches(s: Subject, alternation: Alternation, p: nat, e: nat)
    decreases alternation, 0, 0, 0
  {
    exists i :: 0 <= i < |alternation.sequences| && SequenceMatches(s, alternation.sequences[i], 0, p, e)
  }

  ghost predicate SequenceMatches(s: Subject, sequence: Sequence, index: nat, p: nat, e: nat)
    requires index <= |sequence.nodes|
    decreases sequence, |sequence.nodes| - index, 0, 0
  {
    if index == |sequence.nodes| then p == e
    else exists m: nat, k: nat ::
        Repeats(s, sequence.nodes[index], k, p, m) && SequenceMatches(s, sequence, index + 1, m, e)
  }

  /** k occurrences, within the bounds of the quantifier. */
  ghost predicate Repeats(s: Subject, node: Node, k: nat, p: nat, m: nat)
    decreases node, 1, 0, 0
  {
    node.minimum <= k && (node.maximum < 0 || k <= node.maximum) && Occurrences(s, node.atom, k, p, m)
  }

  ghost predicate Occurrences(s: Subject, atom: Atom, k: nat, p: nat, m: nat)
    decreases atom, 1, k, 0
  {
    if k == 0 then p == m
    else exists q: nat :: Occurrences(s, atom, k - 1, p, q) && AtomMatches(s, atom, q, m)
  }
}
