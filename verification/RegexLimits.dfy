/** What the search misses, and for which patterns it misses nothing. */
module RegexLimits {
  import opened Utf8
  import opened RegexPattern
  import opened RegexTheory
  import opened RegexCommitment
  import opened RegexCompleteness
  import opened RegexGrammar
  import opened RegexEngine

  // ---------- Every pattern ----------

  /** Some alternative of the pattern can be committed to at p. */
  ghost predicate CanCommit(s: Subject, root: Alternation, p: nat) {
    exists i: nat, counts: seq<nat>, e: nat :: i < |root.sequences| && Committed(s, root.sequences[i], 0, counts, p, e)
  }

  ghost predicate CanMatch(s: Subject, root: Alternation, p: nat) {
    exists e: nat :: AlternationMatches(s, root, p, e)
  }

  lemma FoundIffCommitted(s: Subject, root: Alternation, p: nat)
    requires p <= |s.text|
    ensures MatchFrom(s, root, 0, p).Some? <==> CanCommit(s, root, p)
    ensures CanCommit(s, root, p) ==> CanMatch(s, root, p)
  {
    var j, counts := SearchIsCommitment(s, root, 0, p);
    if MatchFrom(s, root, 0, p).Some? {
      FromSound(s, root, 0, p);
    }
  }

  /** A match exists at a boundary before `bound` and none is found there: for every pattern and subject,
      exactly when some boundary can match and none can be committed to. */
  lemma MissedExactly(s: Subject, root: Alternation, bound: nat)
    ensures NoneBefore(s, root, bound) && !NoMatchBefore(s, root, bound) <==>
            && (exists p: nat :: IsBoundary(s, bound, p) && CanMatch(s, root, p))
            && (forall p: nat :: IsBoundary(s, bound, p) ==> !CanCommit(s, root, p))
  {
    hide CanMatch, MatchFrom, CanCommit, BoundaryAfter;
    forall p: nat | p <= |s.text|
      ensures MatchFrom(s, root, 0, p).Some? <==> CanCommit(s, root, p)
    {
      FoundIffCommitted(s, root, p);
    }
  }

  ghost predicate IsBoundary(s: Subject, bound: nat, p: nat) {
    p < bound && p <= |s.text| && BoundaryAfter(s.text, 0, p)
  }

  ghost predicate NoMatchBefore(s: Subject, root: Alternation, bound: nat) {
    forall p: nat :: IsBoundary(s, bound, p) ==> !CanMatch(s, root, p)
  }

  // ---------- Exact patterns, and patterns of fixed lengths ----------

  lemma MatchesHere(s: Subject, root: Alternation, p: nat)
    requires IsExactPattern(s, root) && p <= |s.text| && Characters(s.text, p) <= MAX_REPEAT
    ensures MatchFrom(s, root, 0, p).Some? <==> CanMatch(s, root, p)
  {
    var j, counts := SearchIsMeaning(s, root, p);
    FoundIffCommitted(s, root, p);
    if CanMatch(s, root, p) {
      var e: nat :| AlternationMatches(s, root, p, e);
      var i: nat :| i < |root.sequences| && SequenceMatches(s, root.sequences[i], 0, p, e);
    }
  }

  /** For an exact pattern on a subject of at most MAX_REPEAT characters, no match before `bound` is
      missed. */
  lemma ExactMissesNothing(s: Subject, root: Alternation, bound: nat)
    requires IsExactPattern(s, root) && Characters(s.text, 0) <= MAX_REPEAT
    ensures NoneBefore(s, root, bound) <==> NoMatchBefore(s, root, bound)
  {
    hide CanMatch, MatchFrom, BoundaryAfter;
    forall p: nat {:trigger BoundaryAfter(s.text, 0, p)} | p <= |s.text| && BoundaryAfter(s.text, 0, p)
      ensures MatchFrom(s, root, 0, p).Some? <==> CanMatch(s, root, p)
    {
      BoundaryIsLater(s.text, 0, p);
      MatchesHere(s, root, p);
    }
  }

  /** A pattern of fixed lengths is exact on every subject. */
  lemma NothingMissed(s: Subject, root: Alternation, bound: nat)
    requires AllFixed(root) && Characters(s.text, 0) <= MAX_REPEAT
    ensures NoneBefore(s, root, bound) <==> NoMatchBefore(s, root, bound)
  {
    AllFixedIsExact(s, root);
    ExactMissesNothing(s, root, bound);
  }

  // ---------- Only groups need a look ----------

  predicate GroupsFixed(root: Alternation) {
    forall i, k :: 0 <= i < |root.sequences| && 0 <= k < |root.sequences[i].nodes| ==>
      root.sequences[i].nodes[k].atom.Group? ==> IsFixed(root.sequences[i].nodes[k])
  }

  /** In a pattern that text can spell, every node that is not a group has a fixed length. */
  lemma OnlyGroupsMatter(text: seq<Byte>, p: nat, e: nat, root: Alternation)
    requires SpellsAlternatives(text, p, e, root.sequences) && GroupsFixed(root)
    ensures AllFixed(root)
  {
    forall i, k | 0 <= i < |root.sequences| && 0 <= k < |root.sequences[i].nodes|
      ensures IsFixed(root.sequences[i].nodes[k])
    {
      var a, b := SpelledSequence(text, p, e, root.sequences, i);
      SpelledNode(text, a, b, root.sequences[i].nodes, k);
    }
  }

  lemma {:induction false} SpelledSequence(text: seq<Byte>, p: nat, e: nat, sequences: seq<Sequence>,
                                           i: nat) returns (a: nat, b: nat)
    requires SpellsAlternatives(text, p, e, sequences) && i < |sequences|
    ensures SpellsSequence(text, a, b, sequences[i])
    decreases |sequences|
  {
    var last := |sequences| - 1;
    if |sequences| == 1 {
      a, b := p, e;
    } else {
      var m: nat :| SpellsAlternatives(text, p, m, sequences[..last]) && At(text, m) == '|' as int
                    && SpellsSequence(text, m + 1, e, sequences[last]);
      if i == last {
        a, b := m + 1, e;
      } else {
        a, b := SpelledSequence(text, p, m, sequences[..last], i);
      }
    }
  }

  lemma {:induction false} SpelledNode(text: seq<Byte>, p: nat, e: nat, nodes: seq<Node>, k: nat)
    requires SpellsNodes(text, p, e, nodes) && k < |nodes|
    ensures nodes[k].atom.BeginningOfLine? || nodes[k].atom.EndOfLine? ==> IsSingle(nodes[k])
    decreases |nodes|
  {
    var front, last := nodes[..|nodes| - 1], nodes[|nodes| - 1];
    var m: nat :| SpellsNodes(text, p, m, front) && SpellsNode(text, m, e, last);
    if k < |front| {
      SpelledNode(text, p, m, front, k);
      assert nodes[k] == front[k];
    }
  }
}
