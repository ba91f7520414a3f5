/** Soundness of the search for every pattern, and derivations: matches told by how often each node
    occurs. */
module RegexTheory {
  import opened Options
  import opened Utf8
  import opened RegexPattern

  // ---------- Soundness ----------

  lemma {:induction false} AtomSound(s: Subject, atom: Atom, p: nat)
    requires p <= |s.text| && MatchAtom(s, atom, p).Some?
    ensures AtomMatches(s, atom, p, MatchAtom(s, atom, p).value)
    decreases atom, 0, 0, 0
  {
    hide Occurs, MatchSimple;
    if atom.Group? {
      FromSound(s, atom.group, 0, p);
    } else {
      PlainAtomMatches(s, atom, p, MatchAtom(s, atom, p).value);
    }
  }

  lemma {:induction false} FromSound(s: Subject, alternation: Alternation, i: nat, p: nat)
    requires p <= |s.text| && i <= |alternation.sequences| && MatchFrom(s, alternation, i, p).Some?
    ensures AlternationMatches(s, alternation, p, MatchFrom(s, alternation, i, p).value)
    decreases alternation, |alternation.sequences| - i, 0, 0
  {
    if MatchNodes(s, alternation.sequences[i], 0, p).Some? {
      NodesSound(s, alternation.sequences[i], 0, p);
    } else {
      FromSound(s, alternation, i + 1, p);
    }
  }

  lemma {:induction false} NodesSound(s: Subject, sequence: Sequence, index: nat, p: nat)
    requires p <= |s.text| && index <= |sequence.nodes| && MatchNodes(s, sequence, index, p).Some?
    ensures SequenceMatches(s, sequence, index, p, MatchNodes(s, sequence, index, p).value)
    decreases sequence, |sequence.nodes| - index, 1, 0
  {
    if index < |sequence.nodes| {
      var node := sequence.nodes[index];
      if IsSingle(node) {
        var next := MatchAtom(s, node.atom, p).value;
        AtomSound(s, node.atom, p);
        OneOccurrence(s, node, p, next);
        NodesSound(s, sequence, index + 1, next);
      } else {
        var stops := Runs(s, node, [p]);
        RunsSound(s, node, [p]);
        GroundSound(s, sequence, index, stops, |stops| - 1);
      }
    }
  }

  lemma OneOccurrence(s: Subject, node: Node, p: nat, q: nat)
    requires IsSingle(node) && AtomMatches(s, node.atom, p, q)
    ensures Repeats(s, node, 1, p, q)
  {
  }

  /** Entry k of a run is k occurrences from its start. */
  ghost predicate IsRun(s: Subject, node: Node, stops: seq<nat>) {
    && Within(s, stops)
    && (node.maximum >= 0 ==> |stops| - 1 <= node.maximum || |stops| == 1)
    && forall k :: 0 <= k < |stops| ==> Occurrences(s, node.atom, k, stops[0], stops[k])
  }

  lemma {:induction false} RunsSound(s: Subject, node: Node, stops: seq<nat>)
    requires IsRun(s, node, stops)
    ensures IsRun(s, node, Runs(s, node, stops))
    decreases node, MAX_REPEAT + 1 - |stops|, 0, 0
  {
    hide AtomMatches, MatchAtom;
    var depth, cursor := |stops| - 1, stops[|stops| - 1];
    if (node.maximum < 0 || depth < node.maximum) && depth < MAX_REPEAT {
      var next := MatchAtom(s, node.atom, cursor);
      if next.Some? && next.value != cursor {
        AtomSound(s, node.atom, cursor);
        assert Occurrences(s, node.atom, depth + 1, stops[0], next.value);
        RunsSound(s, node, stops + [next.value]);
      }
    }
  }

  lemma RunsFrom(s: Subject, node: Node, p: nat)
    requires p <= |s.text|
    ensures IsRun(s, node, Runs(s, node, [p])) && Runs(s, node, [p])[0] == p
  {
    assert Occurrences(s, node.atom, 0, p, p);
    RunsSound(s, node, [p]);
  }

  lemma {:induction false} GroundSound(s: Subject, sequence: Sequence, index: nat, stops: seq<nat>, take: int)
    requires index < |sequence.nodes| && IsRun(s, sequence.nodes[index], stops) && -1 <= take < |stops|
    requires GiveGround(s, sequence, index, stops, take).Some?
    ensures SequenceMatches(s, sequence, index, stops[0], GiveGround(s, sequence, index, stops, take).value)
    decreases sequence, |sequence.nodes| - index, 0, take + 1
  {
    if MatchNodes(s, sequence, index + 1, stops[take]).Some? {
      NodesSound(s, sequence, index + 1, stops[take]);
      assert Repeats(s, sequence.nodes[index], take, stops[0], stops[take]);
    } else {
      GroundSound(s, sequence, index, stops, take - 1);
    }
  }

  // ---------- Character boundaries ----------

  /** The number of characters from a position on. */
  function Characters(text: seq<Byte>, p: nat): (n: nat)
    decreases |text| - p
  {
    if p >= |text| then 0 else 1 + Characters(text, p + Decode(text, p).length)
  }

  /** p is reached from `from` by whole characters. */
  ghost predicate BoundaryAfter(text: seq<Byte>, from: nat, p: nat)
    decreases |text| - from
  {
    p == from || (from < |text| && BoundaryAfter(text, from + Decode(text, from).length, p))
  }

  lemma {:induction false} BoundaryIsLater(text: seq<Byte>, from: nat, p: nat)
    requires BoundaryAfter(text, from, p) && from <= |text|
    ensures from <= p <= |text| && Characters(text, p) <= Characters(text, from)
    ensures from < p ==> Characters(text, p) < Characters(text, from)
    decreases |text| - from
  {
    if p != from {
      BoundaryIsLater(text, from + Decode(text, from).length, p);
    }
  }

  lemma {:induction false} BoundaryExtends(text: seq<Byte>, from: nat, at: nat)
    requires BoundaryAfter(text, from, at) && at < |text| && from <= |text|
    ensures BoundaryAfter(text, from, at + Decode(text, at).length)
    decreases |text| - from
  {
    if at != from {
      BoundaryExtends(text, from + Decode(text, from).length, at);
    }
  }

  lemma {:induction false} BoundaryChains(text: seq<Byte>, from: nat, at: nat, p: nat)
    requires BoundaryAfter(text, from, at) && BoundaryAfter(text, at, p) && from <= |text|
    ensures BoundaryAfter(text, from, p)
    decreases |text| - from
  {
    if at != from {
      BoundaryChains(text, from + Decode(text, from).length, at, p);
    }
  }

  // Boundaries are told apart by the characters that follow them.
  lemma {:induction false} SameBoundary(text: seq<Byte>, from: nat, p: nat, p': nat)
    requires BoundaryAfter(text, from, p) && BoundaryAfter(text, from, p') && from <= |text|
    requires Characters(text, p) == Characters(text, p')
    ensures p == p'
    decreases |text| - from
  {
    BoundaryIsLater(text, from, p);
    BoundaryIsLater(text, from, p');
    if p != from && p' != from {
      SameBoundary(text, from + Decode(text, from).length, p, p');
    }
  }

  // ---------- Runs ----------

  /** Each entry is where the atom is found from the entry before, further on. */
  ghost predicate Steps(s: Subject, node: Node, stops: seq<nat>) {
    && Within(s, stops)
    && forall j :: 0 < j < |stops| ==>
        MatchAtom(s, node.atom, stops[j - 1]) == Some(stops[j]) && stops[j - 1] < stops[j]
  }

  /** The run cannot be made longer. */
  ghost predicate IsMaximal(s: Subject, node: Node, stops: seq<nat>)
    requires Within(s, stops)
  {
    var top := |stops| - 1;
    || (node.maximum >= 0 && top >= node.maximum) || top >= MAX_REPEAT
    || MatchAtom(s, node.atom, stops[top]).None? || MatchAtom(s, node.atom, stops[top]) == Some(stops[top])
  }

  lemma {:induction false} RunExtends(s: Subject, node: Node, stops: seq<nat>)
    requires Steps(s, node, stops) && |stops| <= MAX_REPEAT + 1 && (node.maximum < 0 || |stops| - 1 <= node.maximum)
    ensures Steps(s, node, Runs(s, node, stops)) && IsMaximal(s, node, Runs(s, node, stops))
    ensures |Runs(s, node, stops)| <= MAX_REPEAT + 1
    ensures node.maximum < 0 || |Runs(s, node, stops)| - 1 <= node.maximum
    decreases MAX_REPEAT + 1 - |stops|
  {
    var depth, cursor := |stops| - 1, stops[|stops| - 1];
    if (node.maximum < 0 || depth < node.maximum) && depth < MAX_REPEAT {
      var next := MatchAtom(s, node.atom, cursor);
      if next.Some? && next.value != cursor {
        RunExtends(s, node, stops + [next.value]);
      }
    }
  }

  // A run takes the steps its atom takes, as many as there are up to the limits.
  lemma RunIsFull(s: Subject, node: Node, p: nat)
    requires p <= |s.text|
    ensures var stops := Runs(s, node, [p]);
            Steps(s, node, stops) && IsMaximal(s, node, stops) && |stops| <= MAX_REPEAT + 1
    ensures node.maximum < 0 || |Runs(s, node, [p])| - 1 <= node.maximum
  {
    RunExtends(s, node, [p]);
  }

  lemma RunStep(s: Subject, node: Node, stops: seq<nat>, take: nat)
    requires Within(s, stops) && 0 < take < |stops| && stops == Runs(s, node, [stops[0]])
    ensures MatchAtom(s, node.atom, stops[take - 1]) == Some(stops[take])
  {
    RunIsFull(s, node, stops[0]);
  }

  // ---------- Derivations ----------

  /** A derivation names how often each node occurs. */
  ghost predicate Derives(s: Subject, sequence: Sequence, index: nat, counts: seq<nat>, p: nat, e: nat)
    decreases |counts|
  {
    && index <= |sequence.nodes| && |counts| == |sequence.nodes| - index
    && if counts == [] then p == e
       else exists m: nat ::
         Repeats(s, sequence.nodes[index], counts[0], p, m) && Derives(s, sequence, index + 1, counts[1..], m, e)
  }

  /** The first difference is in favour of more. */
  predicate TakesMore(counts: seq<nat>, other: seq<nat>) {
    |counts| == |other| &&
    (counts == [] || counts[0] > other[0] || (counts[0] == other[0] && TakesMore(counts[1..], other[1..])))
  }

  ghost predicate IsGreediest(s: Subject, sequence: Sequence, index: nat, counts: seq<nat>, p: nat, e: nat) {
    && Derives(s, sequence, index, counts, p, e)
    && forall other, e' {:trigger Derives(s, sequence, index, other, p, e')} ::
         Derives(s, sequence, index, other, p, e') ==> TakesMore(counts, other)
  }

  ghost predicate NoDerivation(s: Subject, sequence: Sequence, index: nat, p: nat) {
    forall counts, e {:trigger Derives(s, sequence, index, counts, p, e)} :: !Derives(s, sequence, index, counts, p, e)
  }

  lemma DeriveStep(s: Subject, sequence: Sequence, index: nat, k: nat, rest: seq<nat>, p: nat, m: nat, e: nat)
    requires index < |sequence.nodes|
    requires Repeats(s, sequence.nodes[index], k, p, m) && Derives(s, sequence, index + 1, rest, m, e)
    ensures Derives(s, sequence, index, [k] + rest, p, e)
  {
    var counts := [k] + rest;
    assert counts[0] == k && counts[1..] == rest;
  }

  lemma {:induction false} MatchesIsDerived(s: Subject, sequence: Sequence, index: nat, p: nat,
                                            e: nat) returns (counts: seq<nat>)
    requires index <= |sequence.nodes| && SequenceMatches(s, sequence, index, p, e)
    ensures Derives(s, sequence, index, counts, p, e)
    decreases |sequence.nodes| - index
  {
    if index == |sequence.nodes| {
      counts := [];
    } else {
      var m: nat, k: nat :| Repeats(s, sequence.nodes[index], k, p, m) && SequenceMatches(s, sequence, index + 1, m, e);
      var rest := MatchesIsDerived(s, sequence, index + 1, m, e);
      DeriveStep(s, sequence, index, k, rest, p, m, e);
      counts := [k] + rest;
    }
  }

  lemma {:induction false} DerivedMatches(s: Subject, sequence: Sequence, index: nat, counts: seq<nat>, p: nat, e: nat)
    requires index <= |sequence.nodes| && Derives(s, sequence, index, counts, p, e)
    ensures SequenceMatches(s, sequence, index, p, e)
    decreases |counts|
  {
    if counts != [] {
      var m: nat :| Repeats(s, sequence.nodes[index], counts[0], p, m)
          && Derives(s, sequence, index + 1, counts[1..], m, e);
      DerivedMatches(s, sequence, index + 1, counts[1..], m, e);
    }
  }
}
