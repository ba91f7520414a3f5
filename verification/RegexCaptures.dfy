/** Numbering of capture groups, and what a step of the matcher may do to the recorded spans. */
module RegexCaptures {
  import opened Options
  import opened RegexPattern

  // A group that did not participate has the span (-1, -1).
  datatype Span = Span(so: int, eo: int)

  const UNSET := Span(-1, -1)

  // ---------- Numbering ----------

  function GroupsInAtom(atom: Atom): (n: nat)
    decreases atom, 0
  {
    if atom.Group? then 1 + GroupsFrom(atom.group, 0) else 0
  }

  function GroupsFrom(alternation: Alternation, i: nat): (n: nat)
    requires i <= |alternation.sequences|
    decreases alternation, |alternation.sequences| - i
  {
    if i == |alternation.sequences| then 0
        else GroupsInNodes(alternation.sequences[i], 0) + GroupsFrom(alternation, i + 1)
  }

  function GroupsInNodes(sequence: Sequence, index: nat): (n: nat)
    requires index <= |sequence.nodes|
    decreases sequence, |sequence.nodes| - index
  {
    if index == |sequence.nodes| then 0
    else GroupsInAtom(sequence.nodes[index].atom) + GroupsInNodes(sequence, index + 1)
  }

  /** The groups of `atom` are numbered from `lo` on, in the order in which they open, and
      `table` holds the alternation of each. */
  ghost predicate AtomNumbered(table: seq<Alternation>, atom: Atom, lo: nat)
    decreases atom, 0
  {
    atom.Group? ==> atom.index == lo && lo < |table| && table[lo] == atom.group && Numbered(table, atom.group, lo + 1)
  }

  ghost predicate Numbered(table: seq<Alternation>, alternation: Alternation, lo: nat)
    decreases alternation, |alternation.sequences| + 1
  {
    && alternation.firstGroup == lo && alternation.lastGroup == lo + GroupsFrom(alternation, 0) - 1
    && NumberedFrom(table, alternation, 0, lo)
  }

  ghost predicate NumberedFrom(table: seq<Alternation>, alternation: Alternation, i: nat, lo: nat)
    requires i <= |alternation.sequences|
    decreases alternation, |alternation.sequences| - i
  {
    i < |alternation.sequences| ==>
      && NodesNumbered(table, alternation.sequences[i], 0, lo)
      && NumberedFrom(table, alternation, i + 1, lo + GroupsInNodes(alternation.sequences[i], 0))
  }

  ghost predicate NodesNumbered(table: seq<Alternation>, sequence: Sequence, index: nat, lo: nat)
    requires index <= |sequence.nodes|
    decreases sequence, |sequence.nodes| - index
  {
    index < |sequence.nodes| ==>
      && AtomNumbered(table, sequence.nodes[index].atom, lo)
      && NodesNumbered(table, sequence, index + 1, lo + GroupsInAtom(sequence.nodes[index].atom))
  }

  lemma GroupBounds(table: seq<Alternation>, atom: Atom, lo: nat)
    requires AtomNumbered(table, atom, lo)
    ensures atom.Group? ==>
              && atom.index == lo && lo < |table| && table[lo] == atom.group && Numbered(table, atom.group, lo + 1)
              && atom.group.firstGroup == lo + 1 && atom.group.lastGroup == lo + GroupsInAtom(atom) - 1
    ensures !atom.Group? ==> GroupsInAtom(atom) == 0
  {
  }

  // ---------- Effects on the recorded spans ----------

  /** A span inside [from, to] that the group's own alternation matches. */
  ghost predicate SpanOk(s: Subject, table: seq<Alternation>, g: nat, span: Span, from: nat, to: nat) {
    g < |table| && from <= span.so <= span.eo <= to && AlternationMatches(s, table[g], span.so, span.eo)
  }

  /** Groups lo to hi - 1 keep their span, or lose it, or, when the step succeeded, have one inside
      the matched bytes that they match; the other groups keep theirs. */
  ghost predicate Effect(s: Subject, table: seq<Alternation>, before: seq<Span>, after: seq<Span>,
                         lo: nat, hi: nat, pos: nat, r: Option<nat>)
  {
    |after| == |before| &&
    forall g :: 0 <= g < |before| ==>
      || after[g] == before[g]
      || (lo <= g < hi && (after[g] == UNSET || (r.Some? && SpanOk(s, table, g, after[g], pos, r.value))))
  }

  function Cleared(spans: seq<Span>, lo: int, hi: int): (r: seq<Span>)
    ensures |r| == |spans|
  {
    seq(|spans|, i requires 0 <= i < |spans| => if lo <= i < hi then UNSET else spans[i])
  }

  lemma ClearedNothing(spans: seq<Span>, lo: int, hi: int)
    requires hi <= lo
    ensures Cleared(spans, lo, hi) == spans
  {
  }

  lemma NoEffect(s: Subject, table: seq<Alternation>, spans: seq<Span>, lo: nat, hi: nat, pos: nat, r: Option<nat>)
    ensures Effect(s, table, spans, spans, lo, hi, pos, r)
  {
  }

  // Clearing everything a failed step may have touched leaves a failed step's effect.
  lemma ClearedAfterFailure(s: Subject, table: seq<Alternation>, a: seq<Span>, b: seq<Span>, lo: nat, hi: nat, pos: nat)
    requires Effect(s, table, a, b, lo, hi, pos, None)
    ensures Effect(s, table, a, Cleared(b, lo, hi), lo, hi, pos, None)
  {
  }

  lemma EffectAfterFailure(s: Subject, table: seq<Alternation>, a: seq<Span>, b: seq<Span>, c: seq<Span>,
                           lo: nat, hi: nat, lo': nat, hi': nat, pos: nat, r: Option<nat>)
    requires Effect(s, table, a, b, lo, hi, pos, None) && Effect(s, table, b, c, lo', hi', pos, r)
    requires lo <= lo' <= hi' <= hi
    ensures Effect(s, table, a, c, lo, hi, pos, r)
  {
  }

  /** In the middle of giving ground: groups lo to mid - 1 are in flux, the later ones have the
      effect of failed steps. */
  ghost predicate InFlux(before: seq<Span>, now: seq<Span>, lo: nat, mid: nat, hi: nat) {
    |now| == |before| &&
    forall g :: 0 <= g < |before| ==> now[g] == before[g] || lo <= g < mid || (mid <= g < hi && now[g] == UNSET)
  }

  lemma FluxLength(before: seq<Span>, now: seq<Span>, lo: nat, mid: nat, hi: nat)
    requires InFlux(before, now, lo, mid, hi)
    ensures |now| == |before|
  {
  }

  lemma FluxAfterFailure(s: Subject, table: seq<Alternation>, a: seq<Span>, b: seq<Span>, c: seq<Span>,
                         lo: nat, mid: nat, hi: nat, pos: nat)
    requires InFlux(a, b, lo, mid, hi) && Effect(s, table, b, c, mid, hi, pos, None)
    ensures InFlux(a, c, lo, mid, hi)
  {
  }

  /** The spans a chosen repetition leaves: the group itself is `own`, the groups inside it are
      unset or lie within its last occurrence, everything else is as before. */
  ghost predicate Chosen(s: Subject, table: seq<Alternation>, b: seq<Span>, c: seq<Span>, lo: nat, mid: nat, own: Span,
                         from: nat, to: nat) {
    |c| == |b| &&
    forall g :: 0 <= g < |b| ==>
      if g == lo then c[g] == own
      else if lo < g < mid then c[g] == UNSET || SpanOk(s, table, g, c[g], from, to)
      else c[g] == b[g]
  }

  lemma ChosenThenRest(s: Subject, table: seq<Alternation>, a: seq<Span>, b: seq<Span>, c: seq<Span>, d: seq<Span>,
                       lo: nat, mid: nat, hi: nat, own: Span, pos: nat, from: nat, to: nat, end: nat)
    requires InFlux(a, b, lo, mid, hi) && Chosen(s, table, b, c, lo, mid, own, from, to)
    requires Effect(s, table, c, d, mid, hi, to, Some(end))
    requires lo < mid <= hi && pos <= from <= to <= end
    requires lo < |a| ==> own == a[lo] || SpanOk(s, table, lo, own, pos, end)
    ensures Effect(s, table, a, d, lo, hi, pos, Some(end))
  {
  }

  lemma ChosenThenFailure(s: Subject, table: seq<Alternation>, a: seq<Span>, b: seq<Span>, c: seq<Span>, d: seq<Span>,
                          lo: nat, mid: nat, hi: nat, own: Span, pos: nat, from: nat, to: nat)
    requires InFlux(a, b, lo, mid, hi) && Chosen(s, table, b, c, lo, mid, own, from, to)
    requires Effect(s, table, c, d, mid, hi, to, None)
    requires lo < mid <= hi
    ensures InFlux(a, d, lo, mid, hi)
  {
  }

  // Clearing the inner groups and putting the group's own span back ends the flux.
  lemma Restored(s: Subject, table: seq<Alternation>, a: seq<Span>, b: seq<Span>, lo: nat, mid: nat, hi: nat, pos: nat)
    requires InFlux(a, b, lo, mid, hi) && lo < mid <= hi && lo < |a|
    ensures Effect(s, table, a, Cleared(b, lo + 1, mid)[lo := a[lo]], lo, hi, pos, None)
  {
  }
}
