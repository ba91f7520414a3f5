/** What the search finds, for every pattern and every subject: a group occurrence ends where the
    group's own search ends and is not entered again, a repetition makes progress, and it stops after
    MAX_REPEAT occurrences. Within these limits the search is the first alternative, greedily. */
module RegexCommitment {
  import opened Options
  import opened RegexPattern
  import opened RegexTheory

  // ---------- Committed derivations ----------

  ghost predicate AtomCommits(s: Subject, atom: Atom, p: nat, e: nat)
    decreases atom, 0, 0
  {
    p <= |s.text| && if atom.Group? then Commits(s, atom.group, p, e) else Occurs(s, atom, p, e)
  }

  /** The first alternative with a derivation is taken, and of its derivations the greediest. */
  ghost predicate Commits(s: Subject, alternation: Alternation, p: nat, e: nat)
    decreases alternation, 0, 0
  {
    exists i: nat, counts: seq<nat> ::
      && i < |alternation.sequences| && IsBest(s, alternation.sequences[i], 0, counts, p, e)
      && forall j :: 0 <= j < i ==> IsStuck(s, alternation.sequences[j], 0, p)
  }

  ghost predicate IsBest(s: Subject, sequence: Sequence, index: nat, counts: seq<nat>, p: nat, e: nat)
    decreases sequence, 1, 0
  {
    && Committed(s, sequence, index, counts, p, e)
    && forall other: seq<nat>, e': nat {:trigger Committed(s, sequence, index, other, p, e')} ::
         Committed(s, sequence, index, other, p, e') ==> TakesMore(counts, other)
  }

  ghost predicate IsStuck(s: Subject, sequence: Sequence, index: nat, p: nat)
    decreases sequence, 1, 0
  {
    forall counts: seq<nat>, e: nat {:trigger Committed(s, sequence, index, counts, p, e)} ::
      !Committed(s, sequence, index, counts, p, e)
  }

  /** Like Derives, with committed occurrences. */
  ghost predicate Committed(s: Subject, sequence: Sequence, index: nat, counts: seq<nat>, p: nat, e: nat)
    decreases sequence, 0, |counts|
  {
    && index <= |sequence.nodes| && |counts| == |sequence.nodes| - index
    && if counts == [] then p == e
       else exists m: nat ::
         CommittedRepeats(s, sequence.nodes[index], counts[0], p, m)
             && Committed(s, sequence, index + 1, counts[1..], m, e)
  }

  predicate InLimits(node: Node, k: nat) {
    node.minimum <= k && (node.maximum < 0 || k <= node.maximum) && (IsSingle(node) || k <= MAX_REPEAT)
  }

  ghost predicate CommittedRepeats(s: Subject, node: Node, k: nat, p: nat, m: nat)
    decreases node, 2, 0
  {
    InLimits(node, k) && CommittedRun(s, node, k, p, m)
  }

  /** k committed occurrences, each of which, unless it is the only one, makes progress. */
  ghost predicate CommittedRun(s: Subject, node: Node, k: nat, p: nat, m: nat)
    decreases node, 1, k
  {
    if k == 0 then p == m
    else exists q: nat ::
      CommittedRun(s, node, k - 1, p, q) && AtomCommits(s, node.atom, q, m) && (IsSingle(node) || q < m)
  }

  lemma FirstCommits(s: Subject, sequence: Sequence, index: nat, counts: seq<nat>, p: nat, e: nat) returns (m: nat)
    requires Committed(s, sequence, index, counts, p, e) && counts != []
    ensures CommittedRepeats(s, sequence.nodes[index], counts[0], p, m)
    ensures Committed(s, sequence, index + 1, counts[1..], m, e)
  {
    m :| CommittedRepeats(s, sequence.nodes[index], counts[0], p, m)
        && Committed(s, sequence, index + 1, counts[1..], m, e);
  }

  lemma LastCommits(s: Subject, node: Node, k: nat, p: nat, m: nat) returns (q: nat)
    requires CommittedRun(s, node, k, p, m) && k > 0
    ensures CommittedRun(s, node, k - 1, p, q) && AtomCommits(s, node.atom, q, m) && (IsSingle(node) || q < m)
  {
    q :| CommittedRun(s, node, k - 1, p, q) && AtomCommits(s, node.atom, q, m) && (IsSingle(node) || q < m);
  }

  lemma CommitsBy(s: Subject, alternation: Alternation, p: nat, e: nat) returns (i: nat, counts: seq<nat>)
    requires Commits(s, alternation, p, e)
    ensures i < |alternation.sequences| && IsBest(s, alternation.sequences[i], 0, counts, p, e)
    ensures forall j :: 0 <= j < i ==> IsStuck(s, alternation.sequences[j], 0, p)
  {
    i, counts :|
      && i < |alternation.sequences| && IsBest(s, alternation.sequences[i], 0, counts, p, e)
      && forall j :: 0 <= j < i ==> IsStuck(s, alternation.sequences[j], 0, p);
  }

  lemma CommitStep(s: Subject, sequence: Sequence, index: nat, k: nat, rest: seq<nat>, p: nat, m: nat, e: nat)
    requires index < |sequence.nodes|
    requires CommittedRepeats(s, sequence.nodes[index], k, p, m) && Committed(s, sequence, index + 1, rest, m, e)
    ensures Committed(s, sequence, index, [k] + rest, p, e)
  {
    var counts := [k] + rest;
    assert counts[0] == k && counts[1..] == rest;
  }

  // ---------- The greediest is one ----------

  lemma {:induction false} EquallyGreedy(counts: seq<nat>, other: seq<nat>)
    requires TakesMore(counts, other) && TakesMore(other, counts)
    ensures counts == other
    decreases |counts|
  {
    if counts != [] {
      EquallyGreedy(counts[1..], other[1..]);
      assert counts == [counts[0]] + counts[1..] && other == [other[0]] + other[1..];
    }
  }

  // ---------- The search of an atom ----------

  /** The search of an atom ends exactly where the atom commits to end. */
  lemma {:induction false} AtomSearch(s: Subject, atom: Atom, p: nat)
    requires p <= |s.text|
    ensures forall e: nat {:trigger AtomCommits(s, atom, p, e)} :: AtomCommits(s, atom, p, e) <==>
        MatchAtom(s, atom, p) == Some(e)
    decreases atom, 0, 0, 0
  {
    hide Occurs, MatchSimple;
    forall e: nat {:trigger AtomCommits(s, atom, p, e)}
      ensures AtomCommits(s, atom, p, e) <==> MatchAtom(s, atom, p) == Some(e)
    {
      if atom.Group? {
        SearchCommits(s, atom.group, p, e);
      } else {
        SimpleIsOccurrence(s, atom, p, e);
      }
    }
  }

  // ---------- The search of a run ----------

  lemma {:induction false} StepsCommit(s: Subject, node: Node, stops: seq<nat>, k: nat)
    requires Steps(s, node, stops) && k < |stops|
    ensures CommittedRun(s, node, k, stops[0], stops[k])
    decreases node, 0, 0, k
  {
    if k > 0 {
      StepsCommit(s, node, stops, k - 1);
      AtomSearch(s, node.atom, stops[k - 1]);
      assert AtomCommits(s, node.atom, stops[k - 1], stops[k]);
    }
  }

  // A committed run follows the run the search takes, and no further.
  lemma {:induction false} RunFollows(s: Subject, node: Node, stops: seq<nat>, k: nat, m: nat)
    requires Steps(s, node, stops) && IsMaximal(s, node, stops) && !IsSingle(node)
    requires k <= MAX_REPEAT && (node.maximum < 0 || k <= node.maximum)
    requires CommittedRun(s, node, k, stops[0], m)
    ensures k < |stops| && stops[k] == m
    decreases node, 0, 0, k
  {
    hide AtomCommits, MatchAtom;
    if k > 0 {
      var q := LastCommits(s, node, k, stops[0], m);
      RunFollows(s, node, stops, k - 1, q);
      AtomSearch(s, node.atom, q);
    }
  }

  lemma OnceCommits(s: Subject, node: Node, k: nat, p: nat, m: nat)
    requires IsSingle(node) && p <= |s.text|
    ensures CommittedRepeats(s, node, k, p, m) <==> k == 1 && AtomCommits(s, node.atom, p, m)
  {
    assert CommittedRun(s, node, 0, p, p);
    if k == 1 && AtomCommits(s, node.atom, p, m) {
      assert CommittedRun(s, node, 1, p, m);
    }
    if CommittedRepeats(s, node, k, p, m) {
      var q := LastCommits(s, node, 1, p, m);
    }
  }

  // ---------- The search of a sequence ----------

  // The search fails only where no derivation commits, and otherwise ends where the greediest does.
  lemma {:induction false} NodesGreedy(s: Subject, sequence: Sequence, index: nat, p: nat) returns (counts: seq<nat>)
    requires index <= |sequence.nodes| && p <= |s.text|
    ensures match MatchNodes(s, sequence, index, p)
            case Some(e) => IsBest(s, sequence, index, counts, p, e)
            case None => IsStuck(s, sequence, index, p)
    decreases sequence, |sequence.nodes| - index, 1, 0
  {
    if index == |sequence.nodes| {
      counts := [];
    } else {
      var node := sequence.nodes[index];
      if IsSingle(node) {
        counts := SingleGreedy(s, sequence, index, p);
      } else {
        var stops := Runs(s, node, [p]);
        RunIsFull(s, node, p);
        forall other: seq<nat>, e: nat {:trigger Committed(s, sequence, index, other, p, e)}
            | Committed(s, sequence, index, other, p, e)
          ensures other != [] && other[0] <= |stops| - 1
        {
          var m := FirstCommits(s, sequence, index, other, p, e);
          RunFollows(s, node, stops, other[0], m);
        }
        counts := GroundGreedy(s, sequence, index, stops, |stops| - 1);
      }
    }
  }

  lemma {:induction false} SingleGreedy(s: Subject, sequence: Sequence, index: nat, p: nat) returns (counts: seq<nat>)
    requires index < |sequence.nodes| && p <= |s.text| && IsSingle(sequence.nodes[index])
    ensures match MatchNodes(s, sequence, index, p)
            case Some(e) => IsBest(s, sequence, index, counts, p, e)
            case None => IsStuck(s, sequence, index, p)
    decreases sequence, |sequence.nodes| - index, 0, 0
  {
    var node := sequence.nodes[index];
    var next := MatchAtom(s, node.atom, p);
    AtomSearch(s, node.atom, p);
    var rest := [];
    if next.Some? {
      rest := NodesGreedy(s, sequence, index + 1, next.value);
    }
    counts := [1] + rest;
    assert counts[0] == 1 && counts[1..] == rest;
    if MatchNodes(s, sequence, index, p).Some? {
      OnceCommits(s, node, 1, p, next.value);
      CommitStep(s, sequence, index, 1, rest, p, next.value, MatchNodes(s, sequence, index, p).value);
    }
    forall other: seq<nat>, e: nat {:trigger Committed(s, sequence, index, other, p, e)}
        | Committed(s, sequence, index, other, p, e)
      ensures next.Some? && other != [] && other[0] == 1 && Committed(s, sequence, index + 1, other[1..], next.value, e)
    {
      var m := FirstCommits(s, sequence, index, other, p, e);
      OnceCommits(s, node, other[0], p, m);
    }
  }

  lemma {:induction false} GroundGreedy(s: Subject, sequence: Sequence, index: nat, stops: seq<nat>, take: int)
    returns (counts: seq<nat>)
    requires index < |sequence.nodes| && !IsSingle(sequence.nodes[index])
    requires Steps(s, sequence.nodes[index], stops) && IsMaximal(s, sequence.nodes[index], stops)
    requires -1 <= take < |stops| <= MAX_REPEAT + 1
    requires (sequence.nodes[index].maximum < 0 || take <= sequence.nodes[index].maximum)
    requires forall other: seq<nat>, e: nat {:trigger Committed(s, sequence, index, other, stops[0], e)} ::
               Committed(s, sequence, index, other, stops[0], e) ==> other != [] && other[0] <= take
    ensures match GiveGround(s, sequence, index, stops, take)
            case Some(e) => IsBest(s, sequence, index, counts, stops[0], e)
            case None => IsStuck(s, sequence, index, stops[0])
    decreases sequence, |sequence.nodes| - index, 0, take + 1
  {
    var node := sequence.nodes[index];
    counts := [];
    if take < 0 || take < node.minimum {
      return;
    }
    StepsCommit(s, node, stops, take);
    var rest := NodesGreedy(s, sequence, index + 1, stops[take]);
    forall other: seq<nat>, e: nat {:trigger Committed(s, sequence, index, other, stops[0], e)} |
      Committed(s, sequence, index, other, stops[0], e) && other[0] == take
      ensures Committed(s, sequence, index + 1, other[1..], stops[take], e)
    {
      var m := FirstCommits(s, sequence, index, other, stops[0], e);
      RunFollows(s, node, stops, take, m);
    }
    if MatchNodes(s, sequence, index + 1, stops[take]).Some? {
      counts := [take] + rest;
      assert counts[0] == take && counts[1..] == rest;
      CommitStep(s, sequence, index, take, rest, stops[0], stops[take],
                 MatchNodes(s, sequence, index + 1, stops[take]).value);
    } else {
      counts := GroundGreedy(s, sequence, index, stops, take - 1);
    }
  }

  // ---------- The search of a pattern ----------

  /** The search answers for the first alternative that commits to a derivation, by its greediest;
      it fails only if no alternative has one. */
  lemma {:induction false} SearchIsCommitment(s: Subject, alternation: Alternation, i: nat, p: nat)
    returns (j: nat, counts: seq<nat>)
    requires i <= |alternation.sequences| && p <= |s.text|
    ensures match MatchFrom(s, alternation, i, p)
            case Some(e) => i <= j < |alternation.sequences| && IsBest(s, alternation.sequences[j], 0, counts, p, e)
            case None => j == |alternation.sequences|
    ensures forall j' :: i <= j' < j ==> IsStuck(s, alternation.sequences[j'], 0, p)
    decreases alternation, |alternation.sequences| - i, 0, 0
  {
    j, counts := i, [];
    if i < |alternation.sequences| {
      counts := NodesGreedy(s, alternation.sequences[i], 0, p);
      if MatchNodes(s, alternation.sequences[i], 0, p).None? {
        j, counts := SearchIsCommitment(s, alternation, i + 1, p);
      }
    }
  }

  lemma {:induction false} SearchCommits(s: Subject, alternation: Alternation, p: nat, e: nat)
    requires p <= |s.text|
    ensures Commits(s, alternation, p, e) <==> MatchFrom(s, alternation, 0, p) == Some(e)
    decreases alternation, |alternation.sequences| + 1, 0, 0
  {
    var j, counts := SearchIsCommitment(s, alternation, 0, p);
    if MatchFrom(s, alternation, 0, p) == Some(e) {
      assert Commits(s, alternation, p, e);
    }
    if Commits(s, alternation, p, e) {
      var i, others := CommitsBy(s, alternation, p, e);
      assert i == j;
      EquallyGreedy(counts, others);
      OneEnd(s, alternation.sequences[i], 0, counts, p, e, MatchFrom(s, alternation, 0, p).value);
    }
  }

  // The counts of a committed derivation settle where it ends.
  lemma {:induction false} OneEnd(s: Subject, sequence: Sequence, index: nat, counts: seq<nat>, p: nat, e: nat, e': nat)
    requires Committed(s, sequence, index, counts, p, e) && Committed(s, sequence, index, counts, p, e')
    ensures e == e'
    decreases sequence, 0, 0, |counts|
  {
    if counts != [] {
      var node := sequence.nodes[index];
      var m := FirstCommits(s, sequence, index, counts, p, e);
      var m' := FirstCommits(s, sequence, index, counts, p, e');
      OneRun(s, node, counts[0], p, m, m');
      OneEnd(s, sequence, index + 1, counts[1..], m, e, e');
    }
  }

  lemma {:induction false} OneRun(s: Subject, node: Node, k: nat, p: nat, m: nat, m': nat)
    requires CommittedRun(s, node, k, p, m) && CommittedRun(s, node, k, p, m')
    ensures m == m'
    decreases node, 0, 0, k
  {
    hide AtomCommits, MatchAtom;
    if k > 0 {
      var q := LastCommits(s, node, k, p, m);
      var q' := LastCommits(s, node, k, p, m');
      OneRun(s, node, k - 1, p, q, q');
      AtomSearch(s, node.atom, q);
    }
  }

  // ---------- Commitment is a match ----------

  // What is committed is derived, so a search that succeeds never claims too much.
  lemma {:induction false} CommittedDerives(s: Subject, sequence: Sequence, index: nat, counts: seq<nat>, p: nat,
                                            e: nat)
    requires Committed(s, sequence, index, counts, p, e) && p <= |s.text|
    ensures Derives(s, sequence, index, counts, p, e) && LimitsKept(sequence, index, counts)
    decreases |counts|
  {
    if counts != [] {
      var m := FirstCommits(s, sequence, index, counts, p, e);
      RunOccurs(s, sequence.nodes[index], counts[0], p, m);
      assert Repeats(s, sequence.nodes[index], counts[0], p, m);
      CommittedDerives(s, sequence, index + 1, counts[1..], m, e);
    }
  }

  /** Every count lies within the bounds of its node and, unless its node stands alone, MAX_REPEAT. */
  predicate LimitsKept(sequence: Sequence, index: nat, counts: seq<nat>)
    requires index <= |sequence.nodes| && |counts| == |sequence.nodes| - index
  {
    forall i :: 0 <= i < |counts| ==> InLimits(sequence.nodes[index + i], counts[i])
  }

  lemma {:induction false} RunOccurs(s: Subject, node: Node, k: nat, p: nat, m: nat)
    requires CommittedRun(s, node, k, p, m) && p <= |s.text|
    ensures Occurrences(s, node.atom, k, p, m) && m <= |s.text|
    decreases k
  {
    if k > 0 {
      var q := LastCommits(s, node, k, p, m);
      RunOccurs(s, node, k - 1, p, q);
      AtomSearch(s, node.atom, q);
      AtomSound(s, node.atom, q);
    }
  }
}
