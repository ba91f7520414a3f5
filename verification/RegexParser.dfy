/** The recursive-descent pattern compiler: what it builds is spelled by the text it consumed, it fails
    only where nothing is spelled, and capture groups are numbered in the order in which they open. */
module RegexParser {
  import opened Utf8
  import opened RegexPattern
  import opened RegexCaptures
  import opened RegexGrammar
  import opened RegexUnambiguous

  // ---------- The parser ----------

  class Parser {
    const text: seq<Byte>  // without the terminating NUL
    var cursor: nat
    var failed: bool
    var groupCount: nat
    ghost var table: seq<Alternation>  // the alternation of each group opened so far; entry 0 is not used

    constructor (text: seq<Byte>)
      requires 0 !in text
      ensures this.text == text && cursor == 0 && !failed && groupCount == 0 && Valid()
    {
      this.text := text;
      cursor, failed, groupCount := 0, false, 0;
      table := [Alternation([], 0, 0)];
    }

    ghost predicate Valid()
      reads this
    {
      cursor <= |text| && 0 !in text && |table| == groupCount + 1
    }

    /** What every parsing method keeps: it moves forward and only adds groups. */
    twostate predicate Advanced()
      reads this
    {
      && Valid() && old(cursor) <= cursor && old(groupCount) <= groupCount
      && |old(table)| <= |table| && table[..|old(table)|] == old(table)
    }

    function Peek(k: nat): int
      reads this
    {
      At(text, cursor + k)
    }

    method NextCodepoint() returns (codepoint: nat)
      requires Valid() && cursor < |text|
      modifies this`cursor
      ensures Advanced() && Decode(text, old(cursor)) == Decoded(cursor - old(cursor), codepoint)
    {
      var decoded := Decode(text, cursor);
      cursor := cursor + decoded.length;
      codepoint := decoded.codepoint;
    }

    method BracketCodepoint() returns (codepoint: int)
      requires Valid() && cursor < |text|
      modifies this`cursor
      ensures Advanced() && old(cursor) < cursor && SpellsCodepoint(text, old(cursor), cursor, codepoint)
    {
      if Peek(0) == '\\' as int && Peek(1) != 0 {
        cursor := cursor + 1;
        codepoint := NextCodepoint();
        return EscapeCharacter(codepoint);
      }
      codepoint := NextCodepoint();
    }

    method ParseBracket() returns (isNegated: bool, members: ClassSet)
      requires Valid()
      modifies this`cursor, this`failed
      ensures Advanced() && (old(failed) ==> failed)
      ensures !failed ==> SpellsBracket(text, old(cursor), cursor, isNegated, members)
      ensures failed && !old(failed) ==> NoBracket(text, old(cursor))
    {
      hide SpellsItems, SpellsItem, SpellsBracket, NoBracket;
      members := EMPTY_SET;
      isNegated := Peek(0) == '^' as int;
      if isNegated {
        cursor := cursor + 1;
      }
      var first := true;
      ghost var start, n: nat := cursor, 0;
      NoItems(text, cursor);
      while Peek(0) != 0 && (Peek(0) != ']' as int || first)
        invariant Advanced() && start <= cursor && failed == old(failed) && first == (n == 0)
        invariant SpellsItems(text, start, cursor, n, members)
        decreases |text| - cursor
      {
        first := false;
        ghost var p, before := cursor, members;
        members := ParseItem(members);
        OneMoreItem(text, start, p, cursor, n, before, members);
        n := n + 1;
      }
      if Peek(0) == ']' as int {
        ClosedBracket(text, old(cursor), start, cursor, n, isNegated, members);
        cursor := cursor + 1;
      } else {
        BracketNeverCloses(text, old(cursor), start, n, members);
        failed := true;
      }
    }

    method ParseItem(before: ClassSet) returns (members: ClassSet)
      requires Valid() && cursor < |text|
      modifies this`cursor
      ensures Advanced() && old(cursor) < cursor && SpellsItem(text, old(cursor), cursor, before, members)
    {
      members := before;
      if Peek(0) == '[' as int && Peek(1) == ':' as int {
        var close := FindClose(text, cursor + 2);
        if close.Some? {
          var name := text[cursor + 2..close.value];
          if |name| < 16 {
            members := AddNamed(members, name);
          }
          cursor := close.value + 2;
          return;
        }
      }
      if Peek(0) == '\\' as int && Peek(1) != 0 {
        var escaped := EscapeClass(members, Peek(1));
        if escaped.Some? {
          cursor := cursor + 2;
          return escaped.value;
        }
      }
      var rangeLow := BracketCodepoint();
      ghost var m := cursor;
      if Peek(0) == '-' as int && Peek(1) != 0 && Peek(1) != ']' as int {
        cursor := cursor + 1;
        var rangeHigh := BracketCodepoint();
        members := AddRange(members, rangeLow, rangeHigh);
      } else {
        members := AddRange(members, rangeLow, rangeLow);
      }
      assert SpellsCodepoint(text, old(cursor), m, rangeLow);
    }

    method ParseNumber() returns (n: int)
      requires Valid()
      modifies this`cursor
      ensures Advanced() && cursor == NumberEnd(text, old(cursor)) && n == Number(text, old(cursor), cursor)
    {
      n := 0;
      while IsDigit(Peek(0))
        invariant Advanced() && NumberEnd(text, cursor) == NumberEnd(text, old(cursor))
        invariant n == Number(text, old(cursor), cursor)
        decreases |text| - cursor
      {
        n := n * 10 + (Peek(0) - '0' as int);
        cursor := cursor + 1;
      }
    }

    /** The quantifier at the cursor, if there is one. */
    method ParseQuantifier() returns (minimum: int, maximum: int)
      requires Valid()
      modifies this`cursor
      ensures Advanced() && QuantifierAt(text, old(cursor)) == Quantifier(cursor, minimum, maximum)
    {
      minimum, maximum := 1, 1;
      if Peek(0) == '*' as int {
        cursor := cursor + 1;
        return 0, -1;
      }
      if Peek(0) == '+' as int {
        cursor := cursor + 1;
        return 1, -1;
      }
      if Peek(0) == '?' as int {
        cursor := cursor + 1;
        return 0, 1;
      }
      if Peek(0) == '{' as int {
        var save := cursor;
        cursor := cursor + 1;
        if !IsDigit(Peek(0)) {
          cursor := save;
          return;
        }
        var repeatLow := ParseNumber();
        var repeatHigh := repeatLow;
        if Peek(0) == ',' as int {
          cursor := cursor + 1;
          if IsDigit(Peek(0)) {
            repeatHigh := ParseNumber();
          } else {
            repeatHigh := -1;
          }
        }
        if Peek(0) == '}' as int {
          cursor := cursor + 1;
          return repeatLow, repeatHigh;
        }
        cursor := save;
      }
    }

    /** One atom and any quantifier that follows it; false at the end of a sequence. */
    method ParseAtom() returns (more: bool, node: Node)
      requires Valid()
      modifies this
      ensures Advanced()
      ensures more ==> old(cursor) < cursor
      ensures more ==> AtomNumbered(table, node.atom, old(groupCount) + 1)
      ensures more ==> groupCount == old(groupCount) + GroupsInAtom(node.atom)
      ensures more && !failed ==> !old(failed) && SpellsNode(text, old(cursor), cursor, node)
      ensures more ==> !EndsSequence(At(text, old(cursor)))
      ensures failed && !old(failed) ==> NoNode(text, old(cursor))
      ensures !more ==> EndsSequence(At(text, cursor)) && unchanged(this)
      decreases |text| - cursor, 1
    {
      node := Node(Any, 1, 1);
      var character := Peek(0);
      if character == 0 || character == '|' as int || character == ')' as int {
        return false, node;
      }
      if character == '^' as int {
        cursor := cursor + 1;
        return true, Node(BeginningOfLine, 1, 1);
      }
      if character == '$' as int {
        cursor := cursor + 1;
        return true, Node(EndOfLine, 1, 1);
      }
      var atom: Atom;
      if character == '(' as int {
        atom := ParseGroup();
      } else {
        atom := ParseSimpleAtom();
      }
      if failed && !old(failed) {
        NoAtomNoNode(text, old(cursor));
      }
      var minimum, maximum := ParseQuantifier();
      return true, Node(atom, minimum, maximum);
    }

    method ParseSimpleAtom() returns (atom: Atom)
      requires Valid() && cursor < |text|
      requires !EndsSequence(text[cursor]) && text[cursor] !in {'(' as int, '^' as int, '$' as int}
      modifies this`cursor, this`failed
      ensures Advanced() && old(cursor) < cursor && (old(failed) ==> failed)
      ensures !atom.Group? && !atom.BeginningOfLine? && !atom.EndOfLine?
      ensures !failed ==> SpellsAtom(text, old(cursor), cursor, atom)
      ensures failed && !old(failed) ==> NoAtom(text, old(cursor))
    {
      hide NoBracket, NoAtom;
      var character := Peek(0);
      if character == '[' as int {
        cursor := cursor + 1;
        var isNegated, members := ParseBracket();
        atom := Class(isNegated, members);
        if failed && !old(failed) {
          NoBracketNoAtom(text, old(cursor));
        }
      } else if character == '.' as int {
        cursor := cursor + 1;
        atom := Any;
      } else if character == '\\' as int && Peek(1) != 0 {
        cursor := cursor + 1;
        var escaped := EscapeClass(EMPTY_SET, Peek(0));
        if escaped.Some? {
          cursor := cursor + 1;
          atom := Class(false, escaped.value);
        } else {
          var codepoint := NextCodepoint();
          atom := Character(EscapeCharacter(codepoint));
        }
      } else {
        var codepoint := NextCodepoint();
        atom := Character(codepoint);
      }
    }

    method ParseGroup() returns (atom: Atom)
      requires Valid() && cursor < |text| && text[cursor] == '(' as int
      modifies this
      ensures Advanced() && old(cursor) < cursor
      ensures atom.Group? && AtomNumbered(table, atom, old(groupCount) + 1)
      ensures groupCount == old(groupCount) + GroupsInAtom(atom)
      ensures !failed ==> !old(failed) && SpellsAtom(text, old(cursor), cursor, atom)
      ensures failed && !old(failed) ==> NoAtom(text, old(cursor))
      decreases |text| - cursor, 0
    {
      cursor := cursor + 1;
      groupCount := groupCount + 1;
      var index := groupCount;
      table := table + [Alternation([], 0, 0)];
      ghost var before := table;
      var group := ParseAlternation();
      ghost var after := table;
      table := table[index := group];
      NumberedStable(after, table, group, index + 1);
      assert table[..index] == before[..index];
      if failed && !old(failed) {
        NoGroupNoAtom(text, old(cursor));
      }
      if Peek(0) == ')' as int {
        cursor := cursor + 1;
      } else {
        if !failed {
          OpenGroupNoAtom(text, old(cursor), cursor, group.sequences);
        }
        failed := true;
      }
      return Group(group, index);
    }

    method ParseSequence() returns (sequence: Sequence)
      requires Valid()
      modifies this
      ensures Advanced()
      ensures NodesNumbered(table, sequence, 0, old(groupCount) + 1)
      ensures groupCount == old(groupCount) + GroupsInNodes(sequence, 0)
      ensures !failed ==> !old(failed) && SpellsSequence(text, old(cursor), cursor, sequence)
      ensures failed && !old(failed) ==> NoSequence(text, old(cursor))
      decreases |text| - cursor, 2
    {
      var nodes: seq<Node> := [];
      while !failed
        invariant Advanced()
        invariant NodesNumbered(table, Sequence(nodes), 0, old(groupCount) + 1)
        invariant groupCount == old(groupCount) + GroupsInNodes(Sequence(nodes), 0)
        invariant !failed ==> !old(failed) && SpellsNodes(text, old(cursor), cursor, nodes)
        invariant failed && !old(failed) ==> NoSequence(text, old(cursor))
        decreases |text| - cursor
      {
        ghost var now, m := table, cursor;
        var more, node := ParseAtom();
        if !more {
          break;
        }
        NodesStable(now, table, Sequence(nodes), 0, old(groupCount) + 1);
        AppendNode(table, nodes, node, 0, old(groupCount) + 1);
        if !failed {
          SpellsOneMore(text, old(cursor), m, cursor, nodes, node);
        } else {
          NoNodeNoSequence(text, old(cursor), m, nodes);
        }
        nodes := nodes + [node];
      }
      return Sequence(nodes);
    }

    method ParseAlternation() returns (alternation: Alternation)
      requires Valid()
      modifies this
      ensures Advanced()
      ensures Numbered(table, alternation, old(groupCount) + 1)
      ensures groupCount == old(groupCount) + GroupsFrom(alternation, 0)
      ensures !failed ==> !old(failed) && SpellsAlternatives(text, old(cursor), cursor, alternation.sequences)
      ensures !failed ==> At(text, cursor) != '|' as int && EndsSequence(At(text, cursor))
      ensures failed && !old(failed) ==> NoAlternatives(text, old(cursor))
      decreases |text| - cursor, 3
    {
      hide Numbering, Agree, SpellsBefore, SpellsAlternatives, SpellsSequence, NodesNumbered, Numbered, NoSequence;
      hide NoAlternatives;
      var firstGroup := groupCount + 1;
      var sequences: seq<Sequence> := [];
      NothingNumbered(table, firstGroup);
      SpellsNothing(text, cursor);
      while true
        invariant Advanced() && Numbering(table, sequences, firstGroup, groupCount)
        invariant !failed ==> !old(failed) && SpellsBefore(text, old(cursor), cursor, sequences)
        invariant failed && !old(failed) ==> NoAlternatives(text, old(cursor))
        decreases |text| - cursor
      {
        ghost var now, start, hadFailed := table, cursor, failed;
        var sequence := ParseSequence();
        SequenceNumbered(now, table, sequences, sequence, firstGroup, groupCount);
        if !failed {
          SpellsOneMoreSequence(text, old(cursor), start, cursor, sequences, sequence);
        } else if !hadFailed {
          NoSequenceNoAlternatives(text, old(cursor), start, sequences);
        }
        sequences := sequences + [sequence];
        if Peek(0) != '|' as int {
          break;
        }
        cursor := cursor + 1;
        SpellsBar(text, old(cursor), cursor, sequences);
      }
      alternation := Alternation(sequences, firstGroup, groupCount);
      AllNumbered(table, sequences, firstGroup, groupCount);
    }
  }

  // ---------- Numbering is stable and extends at the end ----------

  ghost predicate Agree(a: seq<Alternation>, b: seq<Alternation>, lo: nat, n: nat) {
    lo + n <= |a| && lo + n <= |b| && forall g :: lo <= g < lo + n ==> a[g] == b[g]
  }

  lemma {:induction false} AtomStable(a: seq<Alternation>, b: seq<Alternation>, atom: Atom, lo: nat)
    requires AtomNumbered(a, atom, lo) && Agree(a, b, lo, GroupsInAtom(atom))
    ensures AtomNumbered(b, atom, lo)
    decreases atom, 0
  {
    if atom.Group? {
      NumberedStable(a, b, atom.group, lo + 1);
    }
  }

  lemma {:induction false} NumberedStable(a: seq<Alternation>, b: seq<Alternation>, alternation: Alternation, lo: nat)
    requires Numbered(a, alternation, lo) && Agree(a, b, lo, GroupsFrom(alternation, 0))
    ensures Numbered(b, alternation, lo)
    decreases alternation, |alternation.sequences| + 1
  {
    FromStable(a, b, alternation, 0, lo);
  }

  lemma {:induction false} FromStable(a: seq<Alternation>, b: seq<Alternation>, alternation: Alternation, i: nat,
                                      lo: nat)
    requires i <= |alternation.sequences| && NumberedFrom(a, alternation, i, lo)
    requires Agree(a, b, lo, GroupsFrom(alternation, i))
    ensures NumberedFrom(b, alternation, i, lo)
    decreases alternation, |alternation.sequences| - i
  {
    if i < |alternation.sequences| {
      NodesStable(a, b, alternation.sequences[i], 0, lo);
      FromStable(a, b, alternation, i + 1, lo + GroupsInNodes(alternation.sequences[i], 0));
    }
  }

  lemma {:induction false} NodesStable(a: seq<Alternation>, b: seq<Alternation>, sequence: Sequence, index: nat,
                                       lo: nat)
    requires index <= |sequence.nodes| && NodesNumbered(a, sequence, index, lo)
    requires Agree(a, b, lo, GroupsInNodes(sequence, index))
    ensures NodesNumbered(b, sequence, index, lo)
    decreases sequence, |sequence.nodes| - index
  {
    if index < |sequence.nodes| {
      AtomStable(a, b, sequence.nodes[index].atom, lo);
      NodesStable(a, b, sequence, index + 1, lo + GroupsInAtom(sequence.nodes[index].atom));
    }
  }

  lemma {:induction false} AppendNode(table: seq<Alternation>, nodes: seq<Node>, node: Node, index: nat, lo: nat)
    requires index <= |nodes| && NodesNumbered(table, Sequence(nodes), index, lo)
    requires AtomNumbered(table, node.atom, lo + GroupsInNodes(Sequence(nodes), index))
    ensures NodesNumbered(table, Sequence(nodes + [node]), index, lo)
    ensures GroupsInNodes(Sequence(nodes + [node]), index)
        == GroupsInNodes(Sequence(nodes), index) + GroupsInAtom(node.atom)
    decreases |nodes| - index
  {
    var longer := Sequence(nodes + [node]);
    if index < |nodes| {
      assert longer.nodes[index] == nodes[index];
      AppendNode(table, nodes, node, index + 1, lo + GroupsInAtom(nodes[index].atom));
    } else {
      assert longer.nodes[index] == node;
      assert GroupsInNodes(longer, index + 1) == 0;
    }
  }

  lemma {:induction false} AppendSequence(table: seq<Alternation>, sequences: seq<Sequence>, sequence: Sequence, i: nat,
                                          lo: nat)
    requires i <= |sequences| && NumberedFrom(table, Alternation(sequences, 0, 0), i, lo)
    requires NodesNumbered(table, sequence, 0, lo + GroupsFrom(Alternation(sequences, 0, 0), i))
    ensures NumberedFrom(table, Alternation(sequences + [sequence], 0, 0), i, lo)
    ensures GroupsFrom(Alternation(sequences + [sequence], 0, 0), i)
         == GroupsFrom(Alternation(sequences, 0, 0), i) + GroupsInNodes(sequence, 0)
    decreases |sequences| - i
  {
    var longer := Alternation(sequences + [sequence], 0, 0);
    if i < |sequences| {
      assert longer.sequences[i] == sequences[i];
      AppendSequence(table, sequences, sequence, i + 1, lo + GroupsInNodes(sequences[i], 0));
    } else {
      assert longer.sequences[i] == sequence;
      assert GroupsFrom(longer, i + 1) == 0;
    }
  }

  // The group range of an alternation plays no part in numbering its sequences.
  lemma {:induction false} SameNumbering(table: seq<Alternation>, sequences: seq<Sequence>, first: int, last: int,
                                         first': int, last': int, i: nat, lo: nat)
    requires i <= |sequences| && NumberedFrom(table, Alternation(sequences, first, last), i, lo)
    ensures NumberedFrom(table, Alternation(sequences, first', last'), i, lo)
    ensures GroupsFrom(Alternation(sequences, first', last'), i) == GroupsFrom(Alternation(sequences, first, last), i)
    decreases |sequences| - i
  {
    if i < |sequences| {
      SameNumbering(table, sequences, first, last, first', last', i + 1, lo + GroupsInNodes(sequences[i], 0));
    }
  }

  /** The sequences read so far use the groups from `first` up to `groupCount`. */
  ghost predicate Numbering(table: seq<Alternation>, sequences: seq<Sequence>, first: nat, groupCount: nat) {
    var read := Alternation(sequences, 0, 0);
    NumberedFrom(table, read, 0, first) && groupCount + 1 == first + GroupsFrom(read, 0)
  }

  lemma NothingNumbered(table: seq<Alternation>, first: nat)
    requires first > 0
    ensures Numbering(table, [], first, first - 1)
  {
  }

  lemma SequenceNumbered(was: seq<Alternation>, now: seq<Alternation>, sequences: seq<Sequence>, sequence: Sequence,
                         first: nat, groupCount: nat)
    requires was != [] && Numbering(was, sequences, first, |was| - 1) && |was| <= |now| && now[..|was|] == was
    requires NodesNumbered(now, sequence, 0, |was|) && groupCount == |was| - 1 + GroupsInNodes(sequence, 0)
    ensures Numbering(now, sequences + [sequence], first, groupCount)
  {
    FromStable(was, now, Alternation(sequences, 0, 0), 0, first);
    AppendSequence(now, sequences, sequence, 0, first);
  }

  lemma AllNumbered(table: seq<Alternation>, sequences: seq<Sequence>, first: nat, groupCount: nat)
    requires Numbering(table, sequences, first, groupCount)
    ensures Numbered(table, Alternation(sequences, first, groupCount), first)
    ensures groupCount + 1 == first + GroupsFrom(Alternation(sequences, first, groupCount), 0)
  {
    SameNumbering(table, sequences, 0, 0, first, groupCount, 0, first);
  }

  lemma SpellsNothing(text: seq<Byte>, p: nat)
    ensures SpellsBefore(text, p, p, [])
  {
  }

  lemma SpellsBar(text: seq<Byte>, p: nat, start: nat, sequences: seq<Sequence>)
    requires start > 0 && At(text, start - 1) == '|' as int && sequences != []
    ensures SpellsBefore(text, p, start, sequences) <==> SpellsAlternatives(text, p, start - 1, sequences)
  {
  }
}
