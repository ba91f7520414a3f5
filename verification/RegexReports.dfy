/** What the recorded spans say about a match: how the pattern was matched, each group by its last
    occurrence, and the groups that took no part unset. */
module RegexReports {
  import opened Options
  import opened RegexPattern
  import opened RegexTheory
  import opened RegexCaptures

  /** Groups lo to hi - 1 have no span. */
  ghost predicate Unset(spans: seq<Span>, lo: nat, hi: nat) {
    hi <= |spans| && forall g :: lo <= g < hi ==> spans[g] == UNSET
  }

  ghost predicate AtomReported(s: Subject, atom: Atom, lo: nat, p: nat, e: nat, spans: seq<Span>)
    decreases atom, 0, 0
  {
    p <= |s.text| &&
    if atom.Group? then lo < |spans| && spans[lo] == Span(p, e)
        && AlternationReported(s, atom.group, lo + 1, p, e, spans)
    else Occurs(s, atom, p, e)
  }

  /** One alternative, whose groups are numbered from `from` on, was matched; the groups of the
      others are unset. */
  ghost predicate AlternationReported(s: Subject, alternation: Alternation, lo: nat, p: nat, e: nat, spans: seq<Span>)
    decreases alternation, 0, 0
  {
    exists i: nat, from: nat ::
      && i < |alternation.sequences| && IsStart(alternation, i, lo, from)
      && SequenceReported(s, alternation.sequences[i], 0, from, p, e, spans)
      && Unset(spans, lo, from) && Unset(spans, from + GroupsInNodes(alternation.sequences[i], 0),
          lo + GroupsFrom(alternation, 0))
  }

  predicate IsStart(alternation: Alternation, i: nat, lo: nat, from: nat) {
    i <= |alternation.sequences| && lo <= from && from + GroupsFrom(alternation, i) == lo + GroupsFrom(alternation, 0)
  }

  ghost predicate SequenceReported(s: Subject, sequence: Sequence, index: nat, lo: nat, p: nat, e: nat,
                                   spans: seq<Span>)
    requires index <= |sequence.nodes|
    decreases sequence, |sequence.nodes| - index, 0
  {
    if index == |sequence.nodes| then p == e
    else
      var node, mid := sequence.nodes[index], lo + GroupsInAtom(sequence.nodes[index].atom);
      exists m: nat :: NodeReported(s, node, lo, p, m, spans)
          && SequenceReported(s, sequence, index + 1, mid, m, e, spans)
  }

  /** No occurrence, and nothing reported; or some occurrences, the last of them reported. */
  ghost predicate NodeReported(s: Subject, node: Node, lo: nat, p: nat, m: nat, spans: seq<Span>)
    decreases node, 0, 0
  {
    || (node.minimum <= 0 && p == m && Unset(spans, lo, lo + GroupsInAtom(node.atom)))
    || exists k: nat, q: nat ::
         && node.minimum <= k + 1 && (node.maximum < 0 || k < node.maximum)
         && Occurrences(s, node.atom, k, p, q) && AtomReported(s, node.atom, lo, q, m, spans)
  }

  // ---------- Only the spans of the pattern's own groups matter ----------

  ghost predicate SameSpans(a: seq<Span>, b: seq<Span>, lo: nat, hi: nat) {
    |a| <= |b| && forall g :: lo <= g < hi && g < |a| ==> a[g] == b[g]
  }

  lemma {:induction false} AtomStays(s: Subject, atom: Atom, lo: nat, p: nat, e: nat, a: seq<Span>, b: seq<Span>)
    requires AtomReported(s, atom, lo, p, e, a) && SameSpans(a, b, lo, lo + GroupsInAtom(atom))
    ensures AtomReported(s, atom, lo, p, e, b)
    decreases atom, 0, 0
  {
    if atom.Group? {
      AlternationStays(s, atom.group, lo + 1, p, e, a, b);
    }
  }

  lemma {:induction false} AlternationStays(s: Subject, alternation: Alternation, lo: nat, p: nat, e: nat, a: seq<Span>,
                                            b: seq<Span>)
    requires AlternationReported(s, alternation, lo, p, e, a) && SameSpans(a, b, lo, lo + GroupsFrom(alternation, 0))
    ensures AlternationReported(s, alternation, lo, p, e, b)
    decreases alternation, 0, 0
  {
    var i: nat, from: nat :|
      && i < |alternation.sequences| && IsStart(alternation, i, lo, from)
      && SequenceReported(s, alternation.sequences[i], 0, from, p, e, a)
      && Unset(a, lo, from) && Unset(a, from + GroupsInNodes(alternation.sequences[i], 0),
          lo + GroupsFrom(alternation, 0));
    SequenceStays(s, alternation.sequences[i], 0, from, p, e, a, b);
    assert Unset(b, lo, from);
    assert Unset(b, from + GroupsInNodes(alternation.sequences[i], 0), lo + GroupsFrom(alternation, 0));
  }

  lemma {:induction false} SequenceStays(s: Subject, sequence: Sequence, index: nat, lo: nat, p: nat, e: nat,
                                         a: seq<Span>, b: seq<Span>)
    requires index <= |sequence.nodes| && SequenceReported(s, sequence, index, lo, p, e, a)
    requires SameSpans(a, b, lo, lo + GroupsInNodes(sequence, index))
    ensures SequenceReported(s, sequence, index, lo, p, e, b)
    decreases sequence, |sequence.nodes| - index, 0
  {
    if index < |sequence.nodes| {
      var node := sequence.nodes[index];
      var mid := lo + GroupsInAtom(node.atom);
      var m: nat :| NodeReported(s, node, lo, p, m, a) && SequenceReported(s, sequence, index + 1, mid, m, e, a);
      NodeStays(s, node, lo, p, m, a, b);
      SequenceStays(s, sequence, index + 1, mid, m, e, a, b);
    }
  }

  lemma {:induction false} NodeStays(s: Subject, node: Node, lo: nat, p: nat, m: nat, a: seq<Span>, b: seq<Span>)
    requires NodeReported(s, node, lo, p, m, a) && SameSpans(a, b, lo, lo + GroupsInAtom(node.atom))
    ensures NodeReported(s, node, lo, p, m, b)
    decreases node, 0, 0
  {
    if !(node.minimum <= 0 && p == m && Unset(a, lo, lo + GroupsInAtom(node.atom))) {
      var k: nat, q: nat :|
        && node.minimum <= k + 1 && (node.maximum < 0 || k < node.maximum)
        && Occurrences(s, node.atom, k, p, q) && AtomReported(s, node.atom, lo, q, m, a);
      AtomStays(s, node.atom, lo, q, m, a, b);
    }
  }

  // ---------- Building a report ----------

  lemma UnsetAfterFailure(s: Subject, table: seq<Alternation>, a: seq<Span>, b: seq<Span>, lo: nat, hi: nat, from: nat,
                          to: nat, pos: nat)
    requires Unset(a, lo, hi) && Effect(s, table, a, b, from, to, pos, None)
    ensures Unset(b, lo, hi)
  {
  }

  // A node that occurs once or more, reported by its last occurrence, and the rest of the sequence.
  lemma NodeThenRest(s: Subject, sequence: Sequence, index: nat, lo: nat, p: nat, k: nat, q: nat, m: nat, e: nat,
                     c: seq<Span>, d: seq<Span>)
    requires index < |sequence.nodes|
    requires sequence.nodes[index].minimum <= k + 1
    requires (sequence.nodes[index].maximum < 0 || k < sequence.nodes[index].maximum)
    requires Occurrences(s, sequence.nodes[index].atom, k, p, q)
    requires AtomReported(s, sequence.nodes[index].atom, lo, q, m, c)
    requires SameSpans(c, d, lo, lo + GroupsInAtom(sequence.nodes[index].atom))
    requires SequenceReported(s, sequence, index + 1, lo + GroupsInAtom(sequence.nodes[index].atom), m, e, d)
    ensures SequenceReported(s, sequence, index, lo, p, e, d)
  {
    AtomStays(s, sequence.nodes[index].atom, lo, q, m, c, d);
    assert NodeReported(s, sequence.nodes[index], lo, p, m, d);
  }

  lemma NothingThenRest(s: Subject, sequence: Sequence, index: nat, lo: nat, p: nat, e: nat, d: seq<Span>)
    requires index < |sequence.nodes| && sequence.nodes[index].minimum <= 0
    requires Unset(d, lo, lo + GroupsInAtom(sequence.nodes[index].atom))
    requires SequenceReported(s, sequence, index + 1, lo + GroupsInAtom(sequence.nodes[index].atom), p, e, d)
    ensures SequenceReported(s, sequence, index, lo, p, e, d)
  {
    assert NodeReported(s, sequence.nodes[index], lo, p, p, d);
  }

  lemma NothingReported(s: Subject, sequence: Sequence, lo: nat, p: nat, spans: seq<Span>)
    ensures SequenceReported(s, sequence, |sequence.nodes|, lo, p, p, spans)
  {
  }

  lemma UnsetPart(spans: seq<Span>, lo: nat, hi: nat, lo': nat, hi': nat)
    requires Unset(spans, lo, hi) && lo <= lo' && hi' <= hi
    ensures Unset(spans, lo', hi')
  {
  }

  // The alternative that matched left the groups of the others as it found them.
  lemma AlternativeReported(s: Subject, table: seq<Alternation>, alternation: Alternation, i: nat, lo: nat, from: nat,
                            p: nat, e: nat,
                            now: seq<Span>, after: seq<Span>)
    requires i < |alternation.sequences| && IsStart(alternation, i, lo, from)
    requires Unset(now, lo, lo + GroupsFrom(alternation, 0))
    requires Effect(s, table, now, after, from, from + GroupsInNodes(alternation.sequences[i], 0), p, Some(e))
    requires SequenceReported(s, alternation.sequences[i], 0, from, p, e, after)
    ensures AlternationReported(s, alternation, lo, p, e, after)
  {
    assert Unset(after, lo, from);
    assert Unset(after, from + GroupsInNodes(alternation.sequences[i], 0), lo + GroupsFrom(alternation, 0));
  }

  // After a single occurrence the groups to come are still unset.
  lemma OnceLeaves(s: Subject, table: seq<Alternation>, a: seq<Span>, b: seq<Span>, lo: nat, mid: nat, hi: nat,
                   pos: nat, next: nat, own: Span)
    requires Unset(a, lo, hi) && lo <= mid <= hi && Effect(s, table, a, b, lo + 1, mid, pos, Some(next))
    ensures Unset(b, mid, hi) && (lo < mid ==> lo < |b| && Unset(b[lo := own], mid, hi))
  {
  }

  lemma OnceReported(s: Subject, table: seq<Alternation>, sequence: Sequence, index: nat, lo: nat, pos: nat, next: nat,
                     e: nat,
                     b: seq<Span>, c: seq<Span>, d: seq<Span>)
    requires index < |sequence.nodes| && IsSingle(sequence.nodes[index]) && pos <= |s.text|
    requires if sequence.nodes[index].atom.Group? then
               && lo < |b| && c == b[lo := Span(pos, next)]
               && AlternationReported(s, sequence.nodes[index].atom.group, lo + 1, pos, next, b)
             else c == b && Occurs(s, sequence.nodes[index].atom, pos, next)
    requires Effect(s, table, c, d, lo + GroupsInAtom(sequence.nodes[index].atom), lo + GroupsInNodes(sequence, index),
        next, Some(e))
    requires SequenceReported(s, sequence, index + 1, lo + GroupsInAtom(sequence.nodes[index].atom), next, e, d)
    ensures SequenceReported(s, sequence, index, lo, pos, e, d)
  {
    hide Occurs;
    var atom := sequence.nodes[index].atom;
    if atom.Group? {
      AlternationStays(s, atom.group, lo + 1, pos, next, b, c);
    }
    assert Occurrences(s, atom, 0, pos, pos) && AtomReported(s, atom, lo, pos, next, c);
    NodeThenRest(s, sequence, index, lo, pos, 0, pos, next, e, c, d);
  }

  // While giving ground, the groups to come are unset and the group's own span is the one to go back to.
  lemma FluxLeaves(s: Subject, table: seq<Alternation>, a: seq<Span>, b: seq<Span>, c: seq<Span>, lo: nat, mid: nat,
                   hi: nat,
                   own: Span, from: nat, to: nat)
    requires Unset(a, lo, hi) && lo < mid <= hi && InFlux(a, b, lo, mid, hi)
    requires Chosen(s, table, b, c, lo, mid, own, from, to)
    ensures Unset(c, mid, hi) && a[lo] == UNSET && c[lo] == own
  {
  }

  lemma FluxLeavesPlain(a: seq<Span>, b: seq<Span>, lo: nat, hi: nat)
    requires Unset(a, lo, hi) && InFlux(a, b, lo, lo, hi)
    ensures Unset(b, lo, hi)
  {
  }

  lemma TakenReported(s: Subject, table: seq<Alternation>, sequence: Sequence, index: nat, lo: nat, stops: seq<nat>,
                      take: nat, e: nat,
                      c: seq<Span>, d: seq<Span>)
    requires index < |sequence.nodes| && take < |stops| && IsRun(s, sequence.nodes[index], stops)
    requires take >= sequence.nodes[index].minimum
    requires take > 0 ==> AtomReported(s, sequence.nodes[index].atom, lo, stops[take - 1], stops[take], c)
    requires take == 0 ==> Unset(c, lo, lo + GroupsInAtom(sequence.nodes[index].atom))
    requires Effect(s, table, c, d, lo + GroupsInAtom(sequence.nodes[index].atom), lo + GroupsInNodes(sequence, index),
        stops[take], Some(e))
    requires SequenceReported(s, sequence, index + 1, lo + GroupsInAtom(sequence.nodes[index].atom), stops[take], e, d)
    ensures SequenceReported(s, sequence, index, lo, stops[0], e, d)
  {
    if take == 0 {
      assert Occurrences(s, sequence.nodes[index].atom, 0, stops[0], stops[0]);
      NothingThenRest(s, sequence, index, lo, stops[0], e, d);
    } else {
      assert Occurrences(s, sequence.nodes[index].atom, take - 1, stops[0], stops[take - 1]);
      NodeThenRest(s, sequence, index, lo, stops[0], take - 1, stops[take - 1], stops[take], e, c, d);
    }
  }
}
