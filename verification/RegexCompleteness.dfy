/** When the search misses nothing: patterns whose atoms can match in one way only, among them every
    pattern whose groups have a fixed length. */
module RegexCompleteness {
  import opened Options
  import opened Utf8
  import opened RegexPattern
  import opened RegexTheory
  import opened RegexCommitment

  // ---------- Exact patterns ----------

  /** Each occurrence of the atom is the one the search finds, and makes progress where it may repeat. */
  ghost predicate IsExact(s: Subject, node: Node) {
    forall q: nat, m: nat {:trigger AtomMatches(s, node.atom, q, m)} ::
      AtomMatches(s, node.atom, q, m) ==> MatchAtom(s, node.atom, q) == Some(m) && (IsSingle(node) || q < m)
  }

  ghost predicate AllExact(s: Subject, sequence: Sequence) {
    forall i :: 0 <= i < |sequence.nodes| ==> IsExact(s, sequence.nodes[i])
  }

  lemma {:induction false} OccurrencesCommit(s: Subject, node: Node, k: nat, p: nat, m: nat)
    requires IsExact(s, node) && Occurrences(s, node.atom, k, p, m)
    ensures CommittedRun(s, node, k, p, m)
    decreases k
  {
    if k > 0 {
      var q: nat :| Occurrences(s, node.atom, k - 1, p, q) && AtomMatches(s, node.atom, q, m);
      OccurrencesCommit(s, node, k - 1, p, q);
      AtomSearch(s, node.atom, q);
      assert AtomCommits(s, node.atom, q, m);
    }
  }

  // For exact patterns only the limit on repetitions separates what is found from what matches.
  lemma {:induction false} DerivedCommits(s: Subject, sequence: Sequence, index: nat, counts: seq<nat>, p: nat, e: nat)
    requires AllExact(s, sequence) && Derives(s, sequence, index, counts, p, e) && LimitsKept(sequence, index, counts)
    ensures Committed(s, sequence, index, counts, p, e)
    decreases |counts|
  {
    if counts != [] {
      var node, rest := sequence.nodes[index], counts[1..];
      var m: nat :| Repeats(s, node, counts[0], p, m) && Derives(s, sequence, index + 1, rest, m, e);
      assert InLimits(sequence.nodes[index + 0], counts[0]);
      OccurrencesCommit(s, node, counts[0], p, m);
      forall i | 0 <= i < |rest| ensures InLimits(sequence.nodes[index + 1 + i], rest[i]) {
        assert rest[i] == counts[i + 1] && InLimits(sequence.nodes[index + (i + 1)], counts[i + 1]);
      }
      DerivedCommits(s, sequence, index + 1, rest, m, e);
      CommitStep(s, sequence, index, counts[0], rest, p, m, e);
      assert counts == [counts[0]] + rest;
    }
  }

  /** For a pattern that is exact on the subject. */
  ghost predicate IsExactPattern(s: Subject, root: Alternation) {
    forall i :: 0 <= i < |root.sequences| ==> AllExact(s, root.sequences[i])
  }

  ghost predicate DerivesInLimits(s: Subject, sequence: Sequence, counts: seq<nat>, p: nat, e: nat) {
    Derives(s, sequence, 0, counts, p, e) && LimitsKept(sequence, 0, counts)
  }

  /** Whatever the length of the subject, the search of an exact pattern is its meaning up to the limit
      on repetitions: the first alternative with a derivation inside it, and of those the greediest. */
  lemma SearchInLimits(s: Subject, root: Alternation, p: nat) returns (j: nat, counts: seq<nat>)
    requires IsExactPattern(s, root) && p <= |s.text|
    ensures match MatchFrom(s, root, 0, p)
            case Some(e) =>
              && j < |root.sequences| && DerivesInLimits(s, root.sequences[j], counts, p, e)
              && (forall other, e' :: DerivesInLimits(s, root.sequences[j], other, p, e') ==> TakesMore(counts, other))
            case None => j == |root.sequences|
    ensures forall j', other, e :: 0 <= j' < j ==> !DerivesInLimits(s, root.sequences[j'], other, p, e)
  {
    j, counts := SearchIsCommitment(s, root, 0, p);
    if MatchFrom(s, root, 0, p).Some? {
      CommittedDerives(s, root.sequences[j], 0, counts, p, MatchFrom(s, root, 0, p).value);
    }
    forall j': nat, other, e | j' <= j && j' < |root.sequences| && DerivesInLimits(s, root.sequences[j'], other, p, e)
      ensures Committed(s, root.sequences[j'], 0, other, p, e)
    {
      DerivedCommits(s, root.sequences[j'], 0, other, p, e);
    }
  }

  // ---------- Whole characters ----------

  /** The characters an atom takes, when it always takes the same number. */
  function AtomWidth(atom: Atom): (w: Option<nat>)
    decreases atom, 0
  {
    match atom
    case BeginningOfLine => Some(0)
    case EndOfLine => Some(0)
    case Group(group, _) => AlternativesWidth(group.sequences)
    case _ => Some(1)
  }

  function AlternativesWidth(sequences: seq<Sequence>): (w: Option<nat>)
    decreases sequences, 0
  {
    if sequences == [] then None
    else
      var first := NodesWidth(sequences[0].nodes);
      if |sequences| == 1 || first == AlternativesWidth(sequences[1..]) then first else None
  }

  function NodesWidth(nodes: seq<Node>): (w: Option<nat>)
    decreases nodes, 0
  {
    if nodes == [] then Some(0)
    else
      var first, rest := NodeWidth(nodes[0]), NodesWidth(nodes[1..]);
      if first.Some? && rest.Some? then Some(first.value + rest.value) else None
  }

  function NodeWidth(node: Node): (w: Option<nat>)
    decreases node, 1
  {
    if IsFixed(node) && 0 <= node.minimum
        == node.maximum <= MAX_REPEAT then Some(node.minimum * AtomWidth(node.atom).value)
    else None
  }

  /** Every occurrence takes the same number of characters, and some if it may be repeated. */
  predicate IsFixed(node: Node)
    decreases node, 0
  {
    AtomWidth(node.atom).Some? && (IsSingle(node) || AtomWidth(node.atom).value > 0)
  }

  /** The occurrences of a node all have one length: a condition that can be read off the pattern. */
  predicate AllFixed(root: Alternation) {
    forall i, k :: 0 <= i < |root.sequences| && 0 <= k < |root.sequences[i].nodes| ==>
        IsFixed(root.sequences[i].nodes[k])
  }

  lemma {:induction false} AlternativesAgree(sequences: seq<Sequence>, i: nat)
    requires i < |sequences| && AlternativesWidth(sequences).Some?
    ensures NodesWidth(sequences[i].nodes) == AlternativesWidth(sequences)
    decreases |sequences|
  {
    if i > 0 {
      AlternativesAgree(sequences[1..], i - 1);
    }
  }

  lemma NodesWidthFrom(nodes: seq<Node>, i: nat)
    requires i < |nodes| && NodesWidth(nodes[i..]).Some?
    ensures NodeWidth(nodes[i]).Some? && NodesWidth(nodes[i + 1..]).Some?
    ensures NodesWidth(nodes[i..]).value == NodeWidth(nodes[i]).value + NodesWidth(nodes[i + 1..]).value
  {
    assert nodes[i..][1..] == nodes[i + 1..];
  }

  lemma {:induction false} NodesAllFixed(nodes: seq<Node>, k: nat)
    requires k < |nodes| && NodesWidth(nodes).Some?
    ensures NodeWidth(nodes[k]).Some?
    decreases k
  {
    if k > 0 {
      NodesAllFixed(nodes[1..], k - 1);
    }
  }

  /** From p to m by whole characters, `w` of them if a width is given. */
  ghost predicate Moves(text: seq<Byte>, p: nat, m: nat, w: Option<nat>) {
    p <= m <= |text| && BoundaryAfter(text, p, m) && (w.Some? ==> Characters(text, p) == Characters(text, m) + w.value)
  }

  function Plus(v: Option<nat>, w: Option<nat>): Option<nat> {
    if v.Some? && w.Some? then Some(v.value + w.value) else None
  }

  function Times(k: nat, w: Option<nat>): Option<nat> {
    if w.Some? then Some(k * w.value) else None
  }

  lemma OnceMore(k: nat, w: Option<nat>)
    requires k > 0
    ensures Plus(Times(k - 1, w), w) == Times(k, w)
  {
  }

  lemma MovesChain(text: seq<Byte>, p: nat, q: nat, m: nat, v: Option<nat>, w: Option<nat>)
    requires Moves(text, p, q, v) && Moves(text, q, m, w)
    ensures Moves(text, p, m, Plus(v, w))
  {
    BoundaryChains(text, p, q, m);
  }

  lemma {:induction false} AtomMoves(s: Subject, atom: Atom, p: nat, m: nat)
    requires AtomMatches(s, atom, p, m)
    ensures Moves(s.text, p, m, AtomWidth(atom))
    decreases atom, 0, 0
  {
    hide Occurs;
    if atom.Group? {
      var i: nat :| i < |atom.group.sequences| && SequenceMatches(s, atom.group.sequences[i], 0, p, m);
      SequenceMoves(s, atom.group.sequences[i], 0, p, m);
      assert atom.group.sequences[i].nodes[0..] == atom.group.sequences[i].nodes;
      if AtomWidth(atom).Some? {
        AlternativesAgree(atom.group.sequences, i);
      }
    } else {
      PlainAtomMatches(s, atom, p, m);
      PlainMoves(s, atom, p, m);
    }
  }

  lemma PlainMoves(s: Subject, atom: Atom, p: nat, m: nat)
    requires p <= |s.text| && MatchSimple(s, atom, p) == Some(m)
    ensures Moves(s.text, p, m, AtomWidth(atom))
  {
    if p < m {
      assert BoundaryAfter(s.text, m, m) && BoundaryAfter(s.text, p, p + Decode(s.text, p).length);
    }
  }

  lemma {:induction false} SequenceMoves(s: Subject, sequence: Sequence, index: nat, p: nat, e: nat)
    requires index <= |sequence.nodes| && p <= |s.text| && SequenceMatches(s, sequence, index, p, e)
    ensures Moves(s.text, p, e, NodesWidth(sequence.nodes[index..]))
    decreases sequence, |sequence.nodes| - index, 0
  {
    hide NodeWidth, Repeats;
    if index < |sequence.nodes| {
      var node := sequence.nodes[index];
      var m: nat, k: nat :| Repeats(s, node, k, p, m) && SequenceMatches(s, sequence, index + 1, m, e);
      RepeatsMove(s, node, k, p, m);
      SequenceMoves(s, sequence, index + 1, m, e);
      MovesChain(s.text, p, m, e, NodeWidth(node), NodesWidth(sequence.nodes[index + 1..]));
      if NodesWidth(sequence.nodes[index..]).Some? {
        NodesWidthFrom(sequence.nodes, index);
      }
    }
  }

  lemma {:induction false} RepeatsMove(s: Subject, node: Node, k: nat, p: nat, m: nat)
    requires Repeats(s, node, k, p, m) && p <= |s.text|
    ensures Moves(s.text, p, m, NodeWidth(node))
    decreases node, 1, 0
  {
    OccurrencesMove(s, node, k, p, m);
  }

  lemma {:induction false} OccurrencesMove(s: Subject, node: Node, k: nat, p: nat, m: nat)
    requires Occurrences(s, node.atom, k, p, m) && p <= |s.text|
    ensures Moves(s.text, p, m, Times(k, AtomWidth(node.atom)))
    decreases node, 0, k
  {
    if k > 0 {
      var w := AtomWidth(node.atom);
      var q: nat :| Occurrences(s, node.atom, k - 1, p, q) && AtomMatches(s, node.atom, q, m);
      OccurrencesMove(s, node, k - 1, p, q);
      AtomMoves(s, node.atom, q, m);
      MovesChain(s.text, p, q, m, Times(k - 1, w), w);
      OnceMore(k, w);
    }
  }

  // ---------- Fixed patterns are exact ----------

  lemma {:induction false} FixedLimits(s: Subject, sequence: Sequence, index: nat, counts: seq<nat>, p: nat, e: nat)
    requires index <= |sequence.nodes| && NodesWidth(sequence.nodes[index..]).Some?
    requires Derives(s, sequence, index, counts, p, e)
    ensures LimitsKept(sequence, index, counts)
    decreases |counts|
  {
    if counts != [] {
      var rest := counts[1..];
      var m: nat :| Repeats(s, sequence.nodes[index], counts[0], p, m) && Derives(s, sequence, index + 1, rest, m, e);
      NodesWidthFrom(sequence.nodes, index);
      FixedLimits(s, sequence, index + 1, rest, m, e);
      FirstInLimits(sequence, index, counts);
    }
  }

  lemma FirstInLimits(sequence: Sequence, index: nat, counts: seq<nat>)
    requires index < |sequence.nodes| && |counts| == |sequence.nodes| - index
    requires InLimits(sequence.nodes[index], counts[0]) && LimitsKept(sequence, index + 1, counts[1..])
    ensures LimitsKept(sequence, index, counts)
  {
    forall i | 0 <= i < |counts| ensures InLimits(sequence.nodes[index + i], counts[i]) {
      if i > 0 {
        assert InLimits(sequence.nodes[index + 1 + (i - 1)], counts[1..][i - 1]);
      }
    }
  }

  /** A node of fixed length is exact on every subject. */
  lemma {:induction false} FixedIsExact(s: Subject, node: Node)
    requires IsFixed(node)
    ensures IsExact(s, node)
    decreases node, 0
  {
    forall q: nat, m: nat {:trigger AtomMatches(s, node.atom, q, m)} | AtomMatches(s, node.atom, q, m)
      ensures MatchAtom(s, node.atom, q) == Some(m) && (IsSingle(node) || q < m)
    {
      FixedFound(s, node.atom, q, m);
      var found := MatchAtom(s, node.atom, q).value;
      AtomSound(s, node.atom, q);
      AtomMoves(s, node.atom, q, m);
      AtomMoves(s, node.atom, q, found);
      SameBoundary(s.text, q, m, found);
    }
  }

  lemma {:induction false} FixedFound(s: Subject, atom: Atom, q: nat, m: nat)
    requires AtomWidth(atom).Some? && AtomMatches(s, atom, q, m)
    ensures MatchAtom(s, atom, q).Some?
    decreases atom, 0
  {
    hide Occurs, MatchSimple;
    if !atom.Group? {
      PlainAtomMatches(s, atom, q, m);
    } else {
      var i: nat :| i < |atom.group.sequences| && SequenceMatches(s, atom.group.sequences[i], 0, q, m);
      var sequence := atom.group.sequences[i];
      AlternativesAgree(atom.group.sequences, i);
      forall k | 0 <= k < |sequence.nodes| ensures IsExact(s, sequence.nodes[k]) {
        NodesAllFixed(sequence.nodes, k);
        FixedIsExact(s, sequence.nodes[k]);
      }
      var counts := MatchesIsDerived(s, sequence, 0, q, m);
      assert sequence.nodes[0..] == sequence.nodes;
      FixedLimits(s, sequence, 0, counts, q, m);
      DerivedCommits(s, sequence, 0, counts, q, m);
      var j, others := SearchIsCommitment(s, atom.group, 0, q);
    }
  }

  // ---------- Short subjects ----------

  // An exact repetition takes a character each time.
  lemma {:induction false} OccurrencesTakeCharacters(s: Subject, node: Node, k: nat, p: nat, m: nat)
    requires IsExact(s, node) && !IsSingle(node) && Occurrences(s, node.atom, k, p, m) && p <= |s.text|
    ensures m <= |s.text| && Characters(s.text, p) >= Characters(s.text, m) + k
    decreases k
  {
    if k > 0 {
      var q: nat :| Occurrences(s, node.atom, k - 1, p, q) && AtomMatches(s, node.atom, q, m);
      OccurrencesTakeCharacters(s, node, k - 1, p, q);
      AtomMoves(s, node.atom, q, m);
      BoundaryIsLater(s.text, q, m);
    }
  }

  // From at most MAX_REPEAT characters before the end no derivation passes the limit.
  lemma {:induction false} ShortLimits(s: Subject, sequence: Sequence, index: nat, counts: seq<nat>, p: nat, e: nat)
    requires AllExact(s, sequence) && Derives(s, sequence, index, counts, p, e)
    requires p <= |s.text| && Characters(s.text, p) <= MAX_REPEAT
    ensures LimitsKept(sequence, index, counts)
    decreases |counts|
  {
    if counts != [] {
      var node := sequence.nodes[index];
      var m: nat :| Repeats(s, node, counts[0], p, m) && Derives(s, sequence, index + 1, counts[1..], m, e);
      OccurrencesMove(s, node, counts[0], p, m);
      BoundaryIsLater(s.text, p, m);
      if !IsSingle(node) {
        OccurrencesTakeCharacters(s, node, counts[0], p, m);
      }
      ShortLimits(s, sequence, index + 1, counts[1..], m, e);
      FirstInLimits(sequence, index, counts);
    }
  }

  lemma AllFixedIsExact(s: Subject, root: Alternation)
    requires AllFixed(root)
    ensures IsExactPattern(s, root)
  {
    forall i | 0 <= i < |root.sequences| ensures AllExact(s, root.sequences[i]) {
      forall k | 0 <= k < |root.sequences[i].nodes| ensures IsExact(s, root.sequences[i].nodes[k]) {
        FixedIsExact(s, root.sequences[i].nodes[k]);
      }
    }
  }

  /** For an exact pattern, and at most MAX_REPEAT characters, the search at a position is exactly the
      declarative meaning: it fails only if nothing matches there, and it answers for the first
      alternative that matches, greedily. */
  lemma SearchIsMeaning(s: Subject, root: Alternation, p: nat) returns (j: nat, counts: seq<nat>)
    requires IsExactPattern(s, root) && p <= |s.text| && Characters(s.text, p) <= MAX_REPEAT
    ensures match MatchFrom(s, root, 0, p)
            case Some(e) => j < |root.sequences| && IsGreediest(s, root.sequences[j], 0, counts, p, e)
            case None => j == |root.sequences|
    ensures forall j', e :: 0 <= j' < j ==> !SequenceMatches(s, root.sequences[j'], 0, p, e)
  {
    j, counts := SearchInLimits(s, root, p);
    forall i: nat, other, e {:trigger Derives(s, root.sequences[i], 0, other, p, e)} |
      i < |root.sequences| && Derives(s, root.sequences[i], 0, other, p, e)
      ensures DerivesInLimits(s, root.sequences[i], other, p, e)
    {
      ShortLimits(s, root.sequences[i], 0, other, p, e);
    }
    forall j': nat, e | j' < j && SequenceMatches(s, root.sequences[j'], 0, p, e)
      ensures false
    {
      var other := MatchesIsDerived(s, root.sequences[j'], 0, p, e);
    }
  }
}
