/** The backtracking matcher: it finds the end of a match and records capture spans on the way. */
module RegexMatcher {
  import opened Options
  import opened RegexPattern
  import opened RegexTheory
  import opened RegexCaptures
  import opened RegexReports

  class Matcher {
    const subject: Subject
    const captures: array?<Span>  // indexed by group number; null when nobody reads groups
    ghost const table: seq<Alternation>

    constructor (subject: Subject, captures: array?<Span>, ghost table: seq<Alternation>)
      ensures this.subject == subject && this.captures == captures && this.table == table
    {
      this.subject, this.captures, this.table := subject, captures, table;
    }

    ghost function Frame(): set<object> {
      if captures == null then {} else {captures}
    }

    ghost function Spans(): seq<Span>
      reads Frame()
    {
      if captures == null then [] else captures[..]
    }

    predicate Covers(hi: nat) {
      captures != null ==> hi <= captures.Length
    }

    method ClearCaptures(first: int, last: int)
      requires 0 <= first && (captures != null ==> last < captures.Length)
      modifies Frame()
      ensures Spans() == Cleared(old(Spans()), first, last + 1)
    {
      if captures != null {
        var g := first;
        ClearedNothing(Spans(), first, first);
        while g <= last
          invariant first <= g
          invariant Spans() == Cleared(old(Spans()), first, g)
          invariant first <= last ==> g <= last + 1
          invariant first > last ==> g == first
        {
          captures[g] := UNSET;
          g := g + 1;
        }
        if first > last {
          ClearedNothing(old(Spans()), first, g);
          ClearedNothing(old(Spans()), first, last + 1);
        }
      }
    }

    method MatchOne(atom: Atom, pos: nat, ghost lo: nat) returns (r: Option<nat>)
      requires pos <= |subject.text| && AtomNumbered(table, atom, lo) && Covers(lo + GroupsInAtom(atom))
      modifies Frame()
      ensures r == MatchAtom(subject, atom, pos)
      ensures Effect(subject, table, old(Spans()), Spans(), lo + 1, lo + GroupsInAtom(atom), pos, r)
      ensures !atom.Group? ==> Spans() == old(Spans())
      ensures captures != null && r.Some? && atom.Group? && Unset(old(Spans()), lo + 1, lo + GroupsInAtom(atom)) ==>
                AlternationReported(subject, atom.group, lo + 1, pos, r.value, Spans())
      decreases atom, 0, 0, 0
    {
      hide AlternationReported;
      if atom.Group? {
        r := MatchAlternation(atom.group, pos, lo + 1);
      } else {
        r := MatchSimple(subject, atom, pos);
        NoEffect(subject, table, Spans(), lo + 1, lo, pos, r);
      }
    }

    method MatchAlternation(alternation: Alternation, pos: nat, ghost lo: nat) returns (r: Option<nat>)
      requires pos <= |subject.text| && Numbered(table, alternation, lo) && Covers(lo + GroupsFrom(alternation, 0))
      modifies Frame()
      ensures r == MatchFrom(subject, alternation, 0, pos)
      ensures Effect(subject, table, old(Spans()), Spans(), lo, lo + GroupsFrom(alternation, 0), pos, r)
      ensures captures != null && r.Some? && Unset(old(Spans()), lo, lo + GroupsFrom(alternation, 0)) ==>
                AlternationReported(subject, alternation, lo, pos, r.value, Spans())
      decreases alternation, 0, 0, 0
    {
      hide Effect, Cleared, Unset, AlternationReported, SequenceReported;
      ghost var before, hi := Spans(), lo + GroupsFrom(alternation, 0);
      ghost var from := lo;
      NoEffect(subject, table, before, lo, hi, pos, None);
      var i := 0;
      while i < |alternation.sequences|
        invariant 0 <= i <= |alternation.sequences|
        invariant lo <= from && from + GroupsFrom(alternation, i) == hi && NumberedFrom(table, alternation, i, from)
        invariant MatchFrom(subject, alternation, 0, pos) == MatchFrom(subject, alternation, i, pos)
        invariant Effect(subject, table, before, Spans(), lo, hi, pos, None)
      {
        ghost var now := Spans();
        ghost var to := from + GroupsInNodes(alternation.sequences[i], 0);
        ghost var isFresh := captures != null && Unset(before, lo, hi);
        if isFresh {
          UnsetAfterFailure(subject, table, before, now, lo, hi, lo, hi, pos);
          UnsetPart(now, lo, hi, from, to);
        }
        r := MatchSequence(alternation.sequences[i], 0, pos, from);
        if isFresh && r.Some? {
          AlternativeReported(subject, table, alternation, i, lo, from, pos, r.value, now, Spans());
        }
        EffectAfterFailure(subject, table, before, now, Spans(), lo, hi, from, to, pos, r);
        if r.Some? {
          return;
        }
        ClearedAfterFailure(subject, table, before, Spans(), lo, hi, pos);
        ClearCaptures(alternation.firstGroup, alternation.lastGroup);
        from := to;
        i := i + 1;
      }
      return None;
    }

    /** Matches the nodes of `sequence` from `index` on. */
    method MatchSequence(sequence: Sequence, index: nat, pos: nat, ghost lo: nat) returns (r: Option<nat>)
      requires pos <= |subject.text| && index <= |sequence.nodes|
      requires NodesNumbered(table, sequence, index, lo) && Covers(lo + GroupsInNodes(sequence, index))
      modifies Frame()
      ensures r == MatchNodes(subject, sequence, index, pos)
      ensures Effect(subject, table, old(Spans()), Spans(), lo, lo + GroupsInNodes(sequence, index), pos, r)
      ensures captures != null && r.Some? && Unset(old(Spans()), lo, lo + GroupsInNodes(sequence, index)) ==>
                SequenceReported(subject, sequence, index, lo, pos, r.value, Spans())
      decreases sequence, |sequence.nodes| - index, 2, 0
    {
      hide Effect, Unset, SequenceReported;
      if index == |sequence.nodes| {
        NothingReported(subject, sequence, lo, pos, Spans());
        NoEffect(subject, table, Spans(), lo, lo, pos, Some(pos));
        return Some(pos);
      }
      if IsSingle(sequence.nodes[index]) {
        r := MatchOnce(sequence, index, pos, lo);
      } else {
        r := MatchRepeated(sequence, index, pos, lo);
      }
    }

    /** The fixed single occurrence. */
    method MatchOnce(sequence: Sequence, index: nat, pos: nat, ghost lo: nat) returns (r: Option<nat>)
      requires pos <= |subject.text| && index < |sequence.nodes| && IsSingle(sequence.nodes[index])
      requires NodesNumbered(table, sequence, index, lo) && Covers(lo + GroupsInNodes(sequence, index))
      modifies Frame()
      ensures r == MatchNodes(subject, sequence, index, pos)
      ensures Effect(subject, table, old(Spans()), Spans(), lo, lo + GroupsInNodes(sequence, index), pos, r)
      ensures captures != null && r.Some? && Unset(old(Spans()), lo, lo + GroupsInNodes(sequence, index)) ==>
                SequenceReported(subject, sequence, index, lo, pos, r.value, Spans())
      decreases sequence, |sequence.nodes| - index, 1, 0
    {
      hide Occurs, Effect, Cleared, Unset, AlternationReported, SequenceReported;
      ghost var a := Spans();
      var atom := sequence.nodes[index].atom;
      ghost var mid, hi := lo + GroupsInAtom(atom), lo + GroupsInNodes(sequence, index);
      ghost var isFresh := captures != null && Unset(a, lo, hi);
      if isFresh {
        UnsetPart(a, lo, hi, lo + 1, mid);
      }
      var next := MatchOne(atom, pos, lo);
      ghost var b := Spans();
      if next.None? {
        EffectWidens(subject, table, a, b, lo, mid, hi, pos, None);
        return None;
      }
      AtomSound(subject, atom, pos);
      GroupBounds(table, atom, lo);
      if isFresh {
        OnceLeaves(subject, table, a, b, lo, mid, hi, pos, next.value, Span(pos, next.value));
      }
      if !atom.Group? || captures == null {
        r := MatchSequence(sequence, index + 1, next.value, mid);
        if isFresh && r.Some? {
          OnceReported(subject, table, sequence, index, lo, pos, next.value, r.value, b, b, Spans());
        }
        OnceUnrecorded(subject, table, a, b, Spans(), lo, mid, hi, pos, next.value, r);
        return;
      }
      var previous := captures[atom.index];
      captures[atom.index] := Span(pos, next.value);
      ghost var c := Spans();
      assert c == b[lo := Span(pos, next.value)];
      r := MatchSequence(sequence, index + 1, next.value, mid);
      if r.None? {
        ghost var d := Spans();
        ClearCaptures(atom.group.firstGroup, atom.group.lastGroup);
        captures[atom.index] := previous;
        assert Spans() == Cleared(d, lo + 1, mid)[lo := previous];
        OnceFailed(subject, table, a, b, c, d, lo, mid, hi, pos, next.value);
      } else {
        if isFresh {
          OnceReported(subject, table, sequence, index, lo, pos, next.value, r.value, b, c, Spans());
        }
        OnceRecorded(subject, table, a, b, c, Spans(), lo, mid, hi, pos, next.value, r.value);
      }
    }

    /** A quantified occurrence: record how far the atom can repeat, then give ground. */
    method MatchRepeated(sequence: Sequence, index: nat, pos: nat, ghost lo: nat) returns (r: Option<nat>)
      requires pos <= |subject.text| && index < |sequence.nodes| && !IsSingle(sequence.nodes[index])
      requires NodesNumbered(table, sequence, index, lo) && Covers(lo + GroupsInNodes(sequence, index))
      modifies Frame()
      ensures r == MatchNodes(subject, sequence, index, pos)
      ensures Effect(subject, table, old(Spans()), Spans(), lo, lo + GroupsInNodes(sequence, index), pos, r)
      ensures captures != null && r.Some? && Unset(old(Spans()), lo, lo + GroupsInNodes(sequence, index)) ==>
                SequenceReported(subject, sequence, index, lo, pos, r.value, Spans())
      decreases sequence, |sequence.nodes| - index, 1, 0
    {
      hide Effect, Cleared, InFlux, Chosen, Unset, SequenceReported, IsRun, MatchAtom, Numbered;
      ghost var a := Spans();
      var node := sequence.nodes[index];
      ghost var mid, hi := lo + GroupsInAtom(node.atom), lo + GroupsInNodes(sequence, index);
      var stops := CollectRun(node, pos, lo);
      var recordsCaptures := node.atom.Group? && captures != null;
      GroupBounds(table, node.atom, lo);
      var previous := UNSET;
      if recordsCaptures {
        previous := captures[node.atom.index];
        OwnSpanKept(a, Spans(), lo, mid, hi);
      }
      StartFlux(a, Spans(), lo, mid, hi);
      RunsFrom(subject, node, pos);
      var take := |stops| - 1;
      while take >= 0 && take >= node.minimum
        invariant -1 <= take < |stops|
        invariant GiveGround(subject, sequence, index, stops, |stops| - 1)
            == GiveGround(subject, sequence, index, stops, take)
        invariant InFlux(a, Spans(), lo, mid, hi)
      {
        r := TryTake(sequence, index, stops, take, previous, lo, a);
        if r.Some? {
          return;
        }
        take := take - 1;
      }
      if recordsCaptures {
        ghost var d := Spans();
        ClearCaptures(node.atom.group.firstGroup, node.atom.group.lastGroup);
        captures[node.atom.index] := previous;
        assert Spans() == Cleared(d, lo + 1, mid)[lo := a[lo]];
        Restored(subject, table, a, d, lo, mid, hi, pos);
      } else {
        UnrecordedFailure(subject, table, a, Spans(), lo, mid, hi, pos);
      }
      return None;
    }

    /** One turn of giving ground: the node occurs `take` times, and the rest of the sequence follows. */
    method TryTake(sequence: Sequence, index: nat, stops: seq<nat>, take: nat, previous: Span, ghost lo: nat,
                   ghost a: seq<Span>)
      returns (r: Option<nat>)
      requires index < |sequence.nodes| && take < |stops| && IsRun(subject, sequence.nodes[index], stops)
      requires stops == Runs(subject, sequence.nodes[index], [stops[0]])
      requires NodesNumbered(table, sequence, index, lo) && Covers(lo + GroupsInNodes(sequence, index))
      requires InFlux(a, Spans(), lo, lo + GroupsInAtom(sequence.nodes[index].atom),
          lo + GroupsInNodes(sequence, index))
      requires sequence.nodes[index].atom.Group? && captures != null ==> lo < |a| && previous == a[lo]
      requires take >= sequence.nodes[index].minimum
      modifies Frame()
      ensures captures != null && r.Some? && Unset(a, lo, lo + GroupsInNodes(sequence, index)) ==>
                SequenceReported(subject, sequence, index, lo, stops[0], r.value, Spans())
      ensures r == MatchNodes(subject, sequence, index + 1, stops[take])
      ensures r.Some? ==> Effect(subject, table, a, Spans(), lo, lo + GroupsInNodes(sequence, index), stops[0], r)
      ensures r.None? ==>
                InFlux(a, Spans(), lo, lo + GroupsInAtom(sequence.nodes[index].atom),
                    lo + GroupsInNodes(sequence, index))
      decreases sequence, |sequence.nodes| - index, 0, 0
    {
      hide Effect, Cleared, InFlux, Chosen, Runs, Unset, SequenceReported, AtomReported, IsRun;
      var node := sequence.nodes[index];
      ghost var mid, hi := lo + GroupsInAtom(node.atom), lo + GroupsInNodes(sequence, index);
      GroupBounds(table, node.atom, lo);
      ghost var b := Spans();
      FluxLength(a, b, lo, mid, hi);
      if node.atom.Group? && captures != null {
        ghost var own := Choose(node, stops, take, previous, lo);
        ghost var c, from := Spans(), stops[if take == 0 then 0 else take - 1];
        ghost var isFresh := Unset(a, lo, hi);
        if isFresh {
          FluxLeaves(subject, table, a, b, c, lo, mid, hi, own, from, stops[take]);
        }
        r := MatchSequence(sequence, index + 1, stops[take], mid);
        if isFresh && r.Some? {
          TakenReported(subject, table, sequence, index, lo, stops, take, r.value, c, Spans());
        }
        if r.Some? {
          OwnSpan(subject, table, node, stops, take, own, a, lo, r.value);
          ChosenThenRest(subject, table, a, b, c, Spans(), lo, mid, hi, own, stops[0], from, stops[take], r.value);
        } else {
          ChosenThenFailure(subject, table, a, b, c, Spans(), lo, mid, hi, own, stops[0], from, stops[take]);
        }
      } else {
        ghost var isFresh := captures != null && Unset(a, lo, hi);
        if isFresh {
          FluxLeavesPlain(a, b, lo, hi);
        }
        r := MatchSequence(sequence, index + 1, stops[take], mid);
        if isFresh && r.Some? {
          PlainTaken(subject, node, stops, take, lo, b);
          TakenReported(subject, table, sequence, index, lo, stops, take, r.value, b, Spans());
        }
        if r.Some? {
          UnrecordedRest(subject, table, a, b, Spans(), lo, mid, hi, stops[0], stops[take], r.value);
        } else {
          FluxAfterFailure(subject, table, a, b, Spans(), lo, mid, hi, stops[take]);
        }
      }
    }

    /** The run of occurrences of `node` from `pos` on. */
    method CollectRun(node: Node, pos: nat, ghost lo: nat) returns (stops: seq<nat>)
      requires pos <= |subject.text| && AtomNumbered(table, node.atom, lo) && Covers(lo + GroupsInAtom(node.atom))
      modifies Frame()
      ensures stops == Runs(subject, node, [pos])
      ensures OnlyIn(old(Spans()), Spans(), lo + 1, lo + GroupsInAtom(node.atom))
      decreases node, 0, 0, 0
    {
      hide Effect, Unset, AlternationReported;
      stops := [pos];
      var depth, cursor := 0, pos;
      while (node.maximum < 0 || depth < node.maximum) && depth < MAX_REPEAT
        invariant 0 <= depth <= MAX_REPEAT && |stops| == depth + 1 && stops[depth] == cursor
        invariant Within(subject, stops) && Runs(subject, node, [pos]) == Runs(subject, node, stops)
        invariant OnlyIn(old(Spans()), Spans(), lo + 1, lo + GroupsInAtom(node.atom))
        decreases MAX_REPEAT - depth
      {
        ghost var now := Spans();
        var next := MatchOne(node.atom, cursor, lo);
        EffectIsInside(subject, table, old(Spans()), now, Spans(), lo + 1, lo + GroupsInAtom(node.atom), cursor, next);
        if next.None? || next.value == cursor {
          return;
        }
        cursor := next.value;
        depth := depth + 1;
        stops := stops + [cursor];
      }
    }

    /** The group reports its last iteration: rerun that iteration, so that the groups nested in it
        match it and not a later or failed one. */
    method Choose(node: Node, stops: seq<nat>, take: nat, previous: Span, ghost lo: nat) returns (ghost own: Span)
      requires node.atom.Group? && captures != null && lo < captures.Length
      requires AtomNumbered(table, node.atom, lo) && Covers(lo + GroupsInAtom(node.atom))
      requires IsRun(subject, node, stops) && take < |stops| && stops == Runs(subject, node, [stops[0]])
      modifies Frame()
      ensures own == if take == 0 then previous else Span(stops[take - 1], stops[take])
      ensures Chosen(subject, table, old(Spans()), Spans(), lo, lo + GroupsInAtom(node.atom), own,
                     stops[if take == 0 then 0 else take - 1], stops[take])
      ensures take > 0 ==>
                AtomMatches(subject, node.atom, stops[take - 1], stops[take]) && stops[take - 1] <= stops[take]
      ensures take > 0 ==> AtomReported(subject, node.atom, lo, stops[take - 1], stops[take], Spans())
      ensures take == 0 && own == UNSET ==> Unset(Spans(), lo, lo + GroupsInAtom(node.atom))
      decreases node, 0, 0, 0
    {
      hide Effect, AlternationReported;
      GroupBounds(table, node.atom, lo);
      ghost var b, mid := Spans(), lo + GroupsInAtom(node.atom);
      ClearCaptures(node.atom.group.firstGroup, node.atom.group.lastGroup);
      ghost var c := Spans();
      if take == 0 {
        captures[node.atom.index] := previous;
        own := previous;
      } else {
        RunStep(subject, node, stops, take);
        var again := MatchOne(node.atom, stops[take - 1], lo);
        ghost var d := Spans();
        AtomSound(subject, node.atom, stops[take - 1]);
        captures[node.atom.index] := Span(stops[take - 1], stops[take]);
        own := Span(stops[take - 1], stops[take]);
        Rerun(subject, table, b, d, lo, mid, own, stops[take - 1], stops[take]);
        AlternationStays(subject, node.atom.group, lo + 1, stops[take - 1], stops[take], d, d[lo := own]);
        assert Spans() == d[lo := own];
      }
    }
  }

  lemma PlainTaken(s: Subject, node: Node, stops: seq<nat>, take: nat, lo: nat, spans: seq<Span>)
    requires !node.atom.Group? && Within(s, stops) && take < |stops| && stops == Runs(s, node, [stops[0]])
    requires lo <= |spans|
    ensures take > 0 ==> AtomReported(s, node.atom, lo, stops[take - 1], stops[take], spans)
    ensures Unset(spans, lo, lo + GroupsInAtom(node.atom))
  {
    hide Occurs;
    if take > 0 {
      RunStep(s, node, stops, take);
      SimpleIsOccurrence(s, node.atom, stops[take - 1], stops[take]);
    }
  }

  ghost predicate OnlyIn(before: seq<Span>, after: seq<Span>, lo: nat, hi: nat) {
    |after| == |before| && forall g :: 0 <= g < |before| ==> after[g] == before[g] || lo <= g < hi
  }

  lemma EffectIsInside(s: Subject, table: seq<Alternation>, a: seq<Span>, b: seq<Span>, c: seq<Span>, lo: nat, hi: nat,
                       pos: nat, r: Option<nat>)
    requires OnlyIn(a, b, lo, hi) && Effect(s, table, b, c, lo, hi, pos, r)
    ensures OnlyIn(a, c, lo, hi)
  {
  }

  lemma Rerun(s: Subject, table: seq<Alternation>, b: seq<Span>, d: seq<Span>, lo: nat, mid: nat, own: Span, from: nat,
              to: nat)
    requires Effect(s, table, Cleared(b, lo + 1, mid), d, lo + 1, mid, from, Some(to)) && lo < |b|
    ensures |d| == |b| && Chosen(s, table, b, d[lo := own], lo, mid, own, from, to)
  {
  }

  lemma EffectWidens(s: Subject, table: seq<Alternation>, a: seq<Span>, b: seq<Span>, lo: nat, mid: nat, hi: nat,
                     pos: nat, r: Option<nat>)
    requires Effect(s, table, a, b, lo + 1, mid, pos, r) && mid <= hi
    ensures Effect(s, table, a, b, lo, hi, pos, r)
  {
  }

  lemma OnceUnrecorded(s: Subject, table: seq<Alternation>, a: seq<Span>, b: seq<Span>, c: seq<Span>,
                       lo: nat, mid: nat, hi: nat, pos: nat, next: nat, r: Option<nat>)
    requires b == a && lo <= mid <= hi && pos <= next && Effect(s, table, b, c, mid, hi, next, r)
    ensures Effect(s, table, a, c, lo, hi, pos, r)
  {
  }

  lemma OnceRecorded(s: Subject, table: seq<Alternation>, a: seq<Span>, b: seq<Span>, c: seq<Span>, d: seq<Span>,
                     lo: nat, mid: nat, hi: nat, pos: nat, next: nat, end: nat)
    requires lo < mid <= hi && lo < |b| && pos <= next <= end && SpanOk(s, table, lo, Span(pos, next), pos, end)
    requires Effect(s, table, a, b, lo + 1, mid, pos, Some(next)) && c == b[lo := Span(pos, next)]
    requires Effect(s, table, c, d, mid, hi, next, Some(end))
    ensures Effect(s, table, a, d, lo, hi, pos, Some(end))
  {
  }

  lemma OnceFailed(s: Subject, table: seq<Alternation>, a: seq<Span>, b: seq<Span>, c: seq<Span>, d: seq<Span>,
                   lo: nat, mid: nat, hi: nat, pos: nat, next: nat)
    requires lo < mid <= hi && lo < |b| && Effect(s, table, a, b, lo + 1, mid, pos, Some(next))
    requires c == b[lo := Span(pos, next)] && Effect(s, table, c, d, mid, hi, next, None)
    ensures Effect(s, table, a, Cleared(d, lo + 1, mid)[lo := b[lo]], lo, hi, pos, None)
  {
  }

  lemma OwnSpanKept(a: seq<Span>, b: seq<Span>, lo: nat, mid: nat, hi: nat)
    requires OnlyIn(a, b, lo + 1, mid) && lo < |a|
    ensures b[lo] == a[lo]
  {
  }

  lemma StartFlux(a: seq<Span>, b: seq<Span>, lo: nat, mid: nat, hi: nat)
    requires OnlyIn(a, b, lo + 1, mid)
    ensures InFlux(a, b, lo, mid, hi)
  {
  }

  lemma OwnSpan(s: Subject, table: seq<Alternation>, node: Node, stops: seq<nat>, take: nat, own: Span, a: seq<Span>,
                lo: nat, end: nat)
    requires AtomNumbered(table, node.atom, lo) && node.atom.Group? && Within(s, stops) && take < |stops|
    requires stops[take] <= end
    requires own == if take == 0 then (if lo < |a| then a[lo] else own) else Span(stops[take - 1], stops[take])
    requires take > 0 ==> AtomMatches(s, node.atom, stops[take - 1], stops[take])
    requires take > 0 ==> stops[take - 1] <= stops[take]
    ensures lo < |a| ==> own == a[lo] || SpanOk(s, table, lo, own, stops[0], end)
  {
  }

  lemma UnrecordedRest(s: Subject, table: seq<Alternation>, a: seq<Span>, b: seq<Span>, c: seq<Span>,
                       lo: nat, mid: nat, hi: nat, pos: nat, next: nat, end: nat)
    requires InFlux(a, b, lo, mid, hi) && (mid == lo || a == []) && Effect(s, table, b, c, mid, hi, next, Some(end))
    requires pos <= next
    ensures Effect(s, table, a, c, lo, hi, pos, Some(end))
  {
  }

  lemma UnrecordedFailure(s: Subject, table: seq<Alternation>, a: seq<Span>, b: seq<Span>, lo: nat, mid: nat, hi: nat,
                          pos: nat)
    requires InFlux(a, b, lo, mid, hi) && (mid == lo || a == [])
    ensures Effect(s, table, a, b, lo, hi, pos, None)
  {
  }
}
