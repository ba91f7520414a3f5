/** The grammar is unambiguous: a text spells at most one pattern, up to the numbers of its groups,
    and how far it reaches is settled by where it starts. */
module RegexUnambiguous {
  import opened Utf8
  import opened RegexPattern
  import opened RegexCaptures
  import opened RegexGrammar

  // ---------- Brackets ----------

  lemma ItemUnique(text: seq<Byte>, p: nat, e: nat, e': nat, before: ClassSet, after: ClassSet, after': ClassSet)
    requires SpellsItem(text, p, e, before, after) && SpellsItem(text, p, e', before, after')
    ensures e == e' && after == after'
  {
    hide AddRange, AddNamed, EscapeClass, FindClose;
  }

  lemma {:induction false} ItemsUnique(text: seq<Byte>, p: nat, e: nat, e': nat, n: nat, members: ClassSet,
                                       members': ClassSet)
    requires SpellsItems(text, p, e, n, members) && SpellsItems(text, p, e', n, members')
    ensures e == e' && members == members'
    decreases n
  {
    hide SpellsItem;
    if n > 0 {
      var m: nat, before :| SpellsItems(text, p, m, n - 1, before) && SpellsItem(text, m, e, before, members);
      var m': nat, before' :| SpellsItems(text, p, m', n - 1, before') && SpellsItem(text, m', e', before', members');
      ItemsUnique(text, p, m, m', n - 1, before, before');
      ItemUnique(text, m, e, e', before, members, members');
    }
  }

  // Item number k begins where the first k end.
  lemma {:induction false} ItemsPrefix(text: seq<Byte>, p: nat, e: nat, n: nat, members: ClassSet, k: nat)
    returns (m: nat, x: nat, before: ClassSet, after: ClassSet)
    requires SpellsItems(text, p, e, n, members) && k < n
    ensures SpellsItems(text, p, m, k, before) && SpellsItem(text, m, x, before, after)
    ensures (k > 0 ==> At(text, m) != ']' as int)
    decreases n
  {
    hide SpellsItem;
    m, before :| SpellsItems(text, p, m, n - 1, before) && SpellsItem(text, m, e, before, members)
                 && (n > 1 ==> At(text, m) != ']' as int);
    if k == n - 1 {
      x, after := e, members;
    } else {
      m, x, before, after := ItemsPrefix(text, p, m, n - 1, before, k);
    }
  }

  // Before a closing bracket stand all the items, or none.
  lemma ItemsEnd(text: seq<Byte>, p: nat, e: nat, e': nat, n: nat, n': nat, members: ClassSet, members': ClassSet)
    requires SpellsItems(text, p, e, n, members) && SpellsItems(text, p, e', n', members')
    requires n > 0 && At(text, e) == ']' as int
    ensures n' <= n
  {
    if n < n' {
      var m, x, before, after := ItemsPrefix(text, p, e', n', members', n);
      ItemsUnique(text, p, e, m, n, members, before);
    }
  }

  lemma BracketUnique(text: seq<Byte>, p: nat, e: nat, e': nat, isNegated: bool, isNegated': bool, members: ClassSet,
                      members': ClassSet)
    requires SpellsBracket(text, p, e, isNegated, members) && SpellsBracket(text, p, e', isNegated', members')
    ensures e == e' && isNegated == isNegated' && members == members'
  {
    hide SpellsItems;
    var start := if isNegated then p + 1 else p;
    var n: nat :| SpellsItems(text, start, e - 1, n, members) && n > 0;
    var n': nat :| SpellsItems(text, start, e' - 1, n', members') && n' > 0;
    ItemsEnd(text, start, e - 1, e' - 1, n, n', members, members');
    ItemsEnd(text, start, e' - 1, e - 1, n', n, members', members);
    ItemsUnique(text, start, e - 1, e' - 1, n, members, members');
  }

  // ---------- Patterns but for the numbers of their groups ----------

  predicate SameAtom(a: Atom, b: Atom)
    decreases a, 0
  {
    if a.Group? then b.Group? && SameAlternatives(a.group.sequences, b.group.sequences) else a == b
  }

  predicate SameNode(a: Node, b: Node)
    decreases a, 0
  {
    a.minimum == b.minimum && a.maximum == b.maximum && SameAtom(a.atom, b.atom)
  }

  predicate SameNodes(a: seq<Node>, b: seq<Node>)
    decreases a, 0
  {
    |a| == |b| && forall i :: 0 <= i < |a| ==> SameNode(a[i], b[i])
  }

  predicate SameAlternatives(a: seq<Sequence>, b: seq<Sequence>)
    decreases a, 0
  {
    |a| == |b| && forall i :: 0 <= i < |a| ==> SameNodes(a[i].nodes, b[i].nodes)
  }

  // ---------- Atoms and nodes ----------

  lemma {:induction false} AtomUnique(text: seq<Byte>, p: nat, e: nat, e': nat, a: Atom, b: Atom)
    requires SpellsAtom(text, p, e, a) && SpellsAtom(text, p, e', b)
    ensures e == e' && SameAtom(a, b)
    decreases a, 0
  {
    hide SpellsBracket, EscapeClass;
    if a.Group? {
      AlternativesUnique(text, p + 1, e - 1, e' - 1, a.group.sequences, b.group.sequences);
    } else if a.Class? && text[p] == '[' as int {
      BracketUnique(text, p + 1, e, e', a.isNegated, b.isNegated, a.members, b.members);
    }
  }

  lemma {:induction false} NodeUnique(text: seq<Byte>, p: nat, e: nat, e': nat, a: Node, b: Node)
    requires SpellsNode(text, p, e, a) && SpellsNode(text, p, e', b)
    ensures e == e' && SameNode(a, b)
    decreases a, 0
  {
    hide SpellsAtom, QuantifierAt;
    var m := NodeAtom(text, p, e, a);
    var m' := NodeAtom(text, p, e', b);
    AtomUnique(text, p, m, m', a.atom, b.atom);
  }

  lemma NodeAtom(text: seq<Byte>, p: nat, e: nat, node: Node) returns (m: nat)
    requires SpellsNode(text, p, e, node)
    ensures SpellsAtom(text, p, m, node.atom)
    ensures node.atom.BeginningOfLine? || node.atom.EndOfLine? ==> m == e && IsSingle(node)
    ensures !node.atom.BeginningOfLine? && !node.atom.EndOfLine? ==>
              QuantifierAt(text, m) == Quantifier(e, node.minimum, node.maximum)
  {
    if node.atom.BeginningOfLine? || node.atom.EndOfLine? {
      m := e;
    } else {
      m :| SpellsAtom(text, p, m, node.atom) && QuantifierAt(text, m) == Quantifier(e, node.minimum, node.maximum);
    }
  }

  lemma NodeBegins(text: seq<Byte>, p: nat, e: nat, node: Node)
    requires SpellsNode(text, p, e, node)
    ensures !EndsSequence(At(text, p))
  {
    var m := NodeAtom(text, p, e, node);
  }

  // ---------- Sequences ----------

  lemma {:induction false} NodesUnique(text: seq<Byte>, p: nat, e: nat, e': nat, a: seq<Node>, b: seq<Node>)
    requires SpellsNodes(text, p, e, a) && SpellsNodes(text, p, e', b) && |a| == |b|
    ensures e == e' && SameNodes(a, b)
    decreases a, 0
  {
    hide SpellsNode;
    if a != [] {
      var last := |a| - 1;
      var m: nat :| SpellsNodes(text, p, m, a[..last]) && SpellsNode(text, m, e, a[last]);
      var m': nat :| SpellsNodes(text, p, m', b[..last]) && SpellsNode(text, m', e', b[last]);
      NodesUnique(text, p, m, m', a[..last], b[..last]);
      NodeUnique(text, m, e, e', a[last], b[last]);
      forall i | 0 <= i < |a| ensures SameNode(a[i], b[i]) {
        if i < last {
          assert SameNode(a[..last][i], b[..last][i]);
        }
      }
    }
  }

  // Node number k begins where the first k end.
  lemma {:induction false} NodesPrefix(text: seq<Byte>, p: nat, e: nat, nodes: seq<Node>,
                                       k: nat) returns (m: nat, x: nat)
    requires SpellsNodes(text, p, e, nodes) && k < |nodes|
    ensures SpellsNodes(text, p, m, nodes[..k]) && SpellsNode(text, m, x, nodes[k])
    decreases |nodes|
  {
    hide SpellsNode;
    var last := |nodes| - 1;
    m :| SpellsNodes(text, p, m, nodes[..last]) && SpellsNode(text, m, e, nodes[last]);
    if k == last {
      x := e;
    } else {
      m, x := NodesPrefix(text, p, m, nodes[..last], k);
      assert nodes[..last][..k] == nodes[..k];
    }
  }

  lemma {:induction false} SequenceUnique(text: seq<Byte>, p: nat, e: nat, e': nat, a: Sequence, b: Sequence)
    requires SpellsSequence(text, p, e, a) && SpellsSequence(text, p, e', b)
    ensures e == e' && SameNodes(a.nodes, b.nodes)
    decreases a, 0
  {
    hide SpellsNode, EndsSequence;
    if |a.nodes| < |b.nodes| {
      var m, x := NodesPrefix(text, p, e', b.nodes, |a.nodes|);
      NodesUnique(text, p, e, m, a.nodes, b.nodes[..|a.nodes|]);
      NodeBegins(text, m, x, b.nodes[|a.nodes|]);
    } else if |a.nodes| > |b.nodes| {
      var m, x := NodesPrefix(text, p, e, a.nodes, |b.nodes|);
      NodesUnique(text, p, m, e', a.nodes[..|b.nodes|], b.nodes);
      NodeBegins(text, m, x, a.nodes[|b.nodes|]);
    } else {
      NodesUnique(text, p, e, e', a.nodes, b.nodes);
    }
  }

  // ---------- Alternatives ----------

  lemma {:induction false} SameCountUnique(text: seq<Byte>, p: nat, e: nat, e': nat, a: seq<Sequence>, b: seq<Sequence>)
    requires SpellsAlternatives(text, p, e, a) && SpellsAlternatives(text, p, e', b) && |a| == |b|
    ensures e == e' && SameAlternatives(a, b)
    decreases a, 0
  {
    hide SpellsSequence;
    var last := |a| - 1;
    if |a| == 1 {
      SequenceUnique(text, p, e, e', a[0], b[0]);
    } else {
      var m := LastAlternative(text, p, e, a);
      var m' := LastAlternative(text, p, e', b);
      SameCountUnique(text, p, m, m', a[..last], b[..last]);
      SequenceUnique(text, m + 1, e, e', a[last], b[last]);
      forall i | 0 <= i < |a| ensures SameNodes(a[i].nodes, b[i].nodes) {
        if i < last {
          assert SameNodes(a[..last][i].nodes, b[..last][i].nodes);
        }
      }
    }
  }

  lemma LastAlternative(text: seq<Byte>, p: nat, e: nat, sequences: seq<Sequence>) returns (m: nat)
    requires SpellsAlternatives(text, p, e, sequences) && |sequences| > 1
    ensures SpellsAlternatives(text, p, m, sequences[..|sequences| - 1]) && At(text, m) == '|' as int
    ensures SpellsSequence(text, m + 1, e, sequences[|sequences| - 1])
  {
    m :| SpellsAlternatives(text, p, m, sequences[..|sequences| - 1]) && At(text, m) == '|' as int
         && SpellsSequence(text, m + 1, e, sequences[|sequences| - 1]);
  }

  // Alternative number k follows the '|' after the first k.
  lemma {:induction false} AlternativesPrefix(text: seq<Byte>, p: nat, e: nat, sequences: seq<Sequence>,
                                              k: nat) returns (m: nat, x: nat)
    requires SpellsAlternatives(text, p, e, sequences) && 0 < k < |sequences|
    ensures SpellsAlternatives(text, p, m, sequences[..k]) && At(text, m) == '|' as int
    ensures SpellsSequence(text, m + 1, x, sequences[k])
    decreases |sequences|
  {
    hide SpellsSequence, SpellsAlternatives;
    var last := |sequences| - 1;
    m := LastAlternative(text, p, e, sequences);
    if k == last {
      x := e;
    } else {
      m, x := AlternativesPrefix(text, p, m, sequences[..last], k);
      assert sequences[..last][..k] == sequences[..k];
    }
  }

  lemma {:induction false} AlternativesUnique(text: seq<Byte>, p: nat, e: nat, e': nat, a: seq<Sequence>,
                                              b: seq<Sequence>)
    requires SpellsAlternatives(text, p, e, a) && SpellsAlternatives(text, p, e', b)
    requires At(text, e) != '|' as int && At(text, e') != '|' as int
    ensures e == e' && SameAlternatives(a, b)
    decreases a, 1
  {
    hide SpellsSequence;
    if |a| < |b| {
      var m, x := AlternativesPrefix(text, p, e', b, |a|);
      SameCountUnique(text, p, e, m, a, b[..|a|]);
    } else if |a| > |b| {
      var m, x := AlternativesPrefix(text, p, e, a, |b|);
      SameCountUnique(text, p, m, e', a[..|b|], b);
    } else {
      SameCountUnique(text, p, e, e', a, b);
    }
  }

  // ---------- Numbering settles the rest ----------

  lemma {:induction false} AtomEqual(table: seq<Alternation>, table': seq<Alternation>, a: Atom, b: Atom, lo: nat)
    requires SameAtom(a, b) && AtomNumbered(table, a, lo) && AtomNumbered(table', b, lo)
    ensures a == b
    decreases a, 0
  {
    if a.Group? {
      AlternationEqual(table, table', a.group, b.group, lo + 1);
    }
  }

  lemma {:induction false} AlternationEqual(table: seq<Alternation>, table': seq<Alternation>, a: Alternation,
                                            b: Alternation, lo: nat)
    requires SameAlternatives(a.sequences, b.sequences) && Numbered(table, a, lo) && Numbered(table', b, lo)
    ensures a == b
    decreases a, |a.sequences| + 1
  {
    FromEqual(table, table', a, b, 0, lo);
    assert a.sequences == b.sequences;
  }

  lemma {:induction false} FromEqual(table: seq<Alternation>, table': seq<Alternation>, a: Alternation, b: Alternation,
                                     i: nat, lo: nat)
    requires SameAlternatives(a.sequences, b.sequences) && i <= |a.sequences|
    requires NumberedFrom(table, a, i, lo) && NumberedFrom(table', b, i, lo)
    ensures GroupsFrom(a, i) == GroupsFrom(b, i)
    ensures forall k :: i <= k < |a.sequences| ==> a.sequences[k] == b.sequences[k]
    decreases a, |a.sequences| - i
  {
    if i < |a.sequences| {
      NodesEqual(table, table', a.sequences[i], b.sequences[i], 0, lo);
      assert a.sequences[i].nodes == b.sequences[i].nodes;
      FromEqual(table, table', a, b, i + 1, lo + GroupsInNodes(a.sequences[i], 0));
    }
  }

  lemma {:induction false} NodesEqual(table: seq<Alternation>, table': seq<Alternation>, a: Sequence, b: Sequence,
                                      index: nat, lo: nat)
    requires SameNodes(a.nodes, b.nodes) && index <= |a.nodes|
    requires NodesNumbered(table, a, index, lo) && NodesNumbered(table', b, index, lo)
    ensures forall k :: index <= k < |a.nodes| ==> a.nodes[k] == b.nodes[k]
    decreases a, |a.nodes| - index
  {
    if index < |a.nodes| {
      assert SameNode(a.nodes[index], b.nodes[index]);
      AtomEqual(table, table', a.nodes[index].atom, b.nodes[index].atom, lo);
      NodesEqual(table, table', a, b, index + 1, lo + GroupsInAtom(a.nodes[index].atom));
    }
  }

  /** A text spells one pattern. */
  lemma PatternIsUnique(text: seq<Byte>, p: nat, e: nat, e': nat, a: Alternation, b: Alternation,
                        table: seq<Alternation>, table': seq<Alternation>, lo: nat)
    requires SpellsAlternatives(text, p, e, a.sequences) && SpellsAlternatives(text, p, e', b.sequences)
    requires At(text, e) != '|' as int && At(text, e') != '|' as int
    requires Numbered(table, a, lo) && Numbered(table', b, lo)
    ensures e == e' && a == b
  {
    AlternativesUnique(text, p, e, e', a.sequences, b.sequences);
    AlternationEqual(table, table', a, b, lo);
  }

  // ---------- Where nothing is spelled ----------

  ghost predicate NoBracket(text: seq<Byte>, p: nat) {
    forall e: nat, isNegated, members :: !SpellsBracket(text, p, e, isNegated, members)
  }

  ghost predicate NoAtom(text: seq<Byte>, p: nat) {
    forall e: nat, atom :: !SpellsAtom(text, p, e, atom)
  }

  ghost predicate NoNode(text: seq<Byte>, p: nat) {
    forall e: nat, node :: !SpellsNode(text, p, e, node)
  }

  ghost predicate NoSequence(text: seq<Byte>, p: nat) {
    forall e: nat, sequence :: !SpellsSequence(text, p, e, sequence)
  }

  /** No alternatives with all that follow them. */
  ghost predicate NoAlternatives(text: seq<Byte>, p: nat) {
    forall e: nat, sequences :: SpellsAlternatives(text, p, e, sequences) ==> At(text, e) == '|' as int
  }

  // Items read up to the end of the text are never closed.
  lemma BracketNeverCloses(text: seq<Byte>, p: nat, start: nat, n: nat, members: ClassSet)
    requires start == (if At(text, p) == '^' as int then p + 1 else p) && SpellsItems(text, start, |text|, n, members)
    ensures NoBracket(text, p)
  {
    forall e: nat, isNegated, other ensures !SpellsBracket(text, p, e, isNegated, other) {
      if SpellsBracket(text, p, e, isNegated, other) {
        var n': nat :| SpellsItems(text, start, e - 1, n', other) && n' > 0;
        if n < n' {
          var m, x, before, after := ItemsPrefix(text, start, e - 1, n', other, n);
          ItemsUnique(text, start, |text|, m, n, members, before);
          NoItemAtEnd(text, x, before, after);
        } else {
          ItemsClosed(text, start, |text|, e - 1, n, n', members, other);
        }
      }
    }
  }

  lemma NoItemAtEnd(text: seq<Byte>, e: nat, before: ClassSet, after: ClassSet)
    ensures !SpellsItem(text, |text|, e, before, after)
  {
  }

  // No items follow those before a closing bracket.
  lemma ItemsClosed(text: seq<Byte>, p: nat, e: nat, e': nat, n: nat, n': nat, members: ClassSet, members': ClassSet)
    requires SpellsItems(text, p, e, n, members) && SpellsItems(text, p, e', n', members')
    requires 0 < n' <= n && At(text, e') == ']' as int
    ensures n == n' && e == e'
  {
    ItemsEnd(text, p, e', e, n', n, members', members);
    ItemsUnique(text, p, e, e', n, members, members');
  }

  lemma NoAtomNoNode(text: seq<Byte>, p: nat)
    requires NoAtom(text, p)
    ensures NoNode(text, p)
  {
    forall e: nat, node ensures !SpellsNode(text, p, e, node) {
      if SpellsNode(text, p, e, node) {
        var m := NodeAtom(text, p, e, node);
      }
    }
  }

  lemma NoBracketNoAtom(text: seq<Byte>, p: nat)
    requires p < |text| && text[p] == '[' as int && NoBracket(text, p + 1)
    ensures NoAtom(text, p)
  {
  }

  // A group that is not spelled, or not closed, is no atom.
  lemma NoGroupNoAtom(text: seq<Byte>, p: nat)
    requires p < |text| && text[p] == '(' as int && NoAlternatives(text, p + 1)
    ensures NoAtom(text, p)
  {
  }

  lemma OpenGroupNoAtom(text: seq<Byte>, p: nat, e: nat, sequences: seq<Sequence>)
    requires p < |text| && text[p] == '(' as int && SpellsAlternatives(text, p + 1, e, sequences)
    requires At(text, e) != '|' as int && At(text, e) != ')' as int
    ensures NoAtom(text, p)
  {
    forall x: nat, atom ensures !SpellsAtom(text, p, x, atom) {
      if SpellsAtom(text, p, x, atom) {
        AlternativesUnique(text, p + 1, e, x - 1, sequences, atom.group.sequences);
      }
    }
  }

  // Nodes after which none is spelled, although the sequence does not end there, begin no sequence.
  lemma NoNodeNoSequence(text: seq<Byte>, p: nat, m: nat, nodes: seq<Node>)
    requires SpellsNodes(text, p, m, nodes) && NoNode(text, m) && !EndsSequence(At(text, m))
    ensures NoSequence(text, p)
  {
    hide SpellsNode, EndsSequence;
    forall e: nat, other ensures !SpellsSequence(text, p, e, other) {
      if SpellsSequence(text, p, e, other) {
        if |nodes| < |other.nodes| {
          var q, x := NodesPrefix(text, p, e, other.nodes, |nodes|);
          NodesUnique(text, p, m, q, nodes, other.nodes[..|nodes|]);
        } else if |nodes| > |other.nodes| {
          var q, x := NodesPrefix(text, p, m, nodes, |other.nodes|);
          NodesUnique(text, p, q, e, nodes[..|other.nodes|], other.nodes);
          NodeBegins(text, q, x, nodes[|other.nodes|]);
        } else {
          NodesUnique(text, p, m, e, nodes, other.nodes);
        }
      }
    }
  }

  // Alternatives after which no sequence is spelled.
  lemma NoSequenceNoAlternatives(text: seq<Byte>, p: nat, start: nat, sequences: seq<Sequence>)
    requires SpellsBefore(text, p, start, sequences) && NoSequence(text, start)
    ensures NoAlternatives(text, p)
  {
    hide SpellsSequence;
    forall e: nat, other | SpellsAlternatives(text, p, e, other) ensures At(text, e) == '|' as int {
      if |sequences| < |other| {
        if sequences == [] {
          var x := FirstAlternative(text, p, e, other);
        } else {
          var m, x := AlternativesPrefix(text, p, e, other, |sequences|);
          SameCountUnique(text, p, start - 1, m, sequences, other[..|sequences|]);
        }
      } else if |sequences| > |other| {
        var m, x := AlternativesPrefix(text, p, start - 1, sequences, |other|);
        SameCountUnique(text, p, m, e, sequences[..|other|], other);
      } else {
        SameCountUnique(text, p, start - 1, e, sequences, other);
      }
    }
  }

  lemma {:induction false} FirstAlternative(text: seq<Byte>, p: nat, e: nat, sequences: seq<Sequence>) returns (x: nat)
    requires SpellsAlternatives(text, p, e, sequences)
    ensures SpellsSequence(text, p, x, sequences[0])
    decreases |sequences|
  {
    if |sequences| == 1 {
      x := e;
    } else {
      var m := LastAlternative(text, p, e, sequences);
      x := FirstAlternative(text, p, m, sequences[..|sequences| - 1]);
    }
  }
}
