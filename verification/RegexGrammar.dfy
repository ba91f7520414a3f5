/** The pattern language as a relation between a stretch of text and the pattern it spells. */
module RegexGrammar {
  import opened Options
  import opened Utf8
  import opened RegexPattern

  // ---------- Characters ----------

  predicate IsUpper(c: int) { 'A' as int <= c <= 'Z' as int }
  predicate IsLower(c: int) { 'a' as int <= c <= 'z' as int }
  predicate IsDigit(c: int) { '0' as int <= c <= '9' as int }
  predicate IsAlnum(c: int) { IsUpper(c) || IsLower(c) || IsDigit(c) }

  function Bytes(name: string): seq<int> {
    seq(|name|, i requires 0 <= i < |name| => name[i] as int)
  }

  /** Is the ASCII character in the class `name`? No character is in an unknown class. */
  predicate AsciiClassHas(name: seq<int>, c: int) {
    if name == Bytes("alpha") then IsUpper(c) || IsLower(c)
    else if name == Bytes("digit") then IsDigit(c)
    else if name == Bytes("alnum") then IsAlnum(c)
    else if name == Bytes("upper") then IsUpper(c)
    else if name == Bytes("lower") then IsLower(c)
    else if name == Bytes("space") then c == ' ' as int || 9 <= c <= 13
    else if name == Bytes("blank") then c == ' ' as int || c == 9
    else if name == Bytes("punct") then ' ' as int < c < 127 && !IsAlnum(c)
    else if name == Bytes("print") then ' ' as int <= c < 127
    else if name == Bytes("graph") then ' ' as int < c < 127
    else if name == Bytes("cntrl") then c < ' ' as int || c == 127
    else if name == Bytes("xdigit") then IsDigit(c) || 'a' as int <= c <= 'f' as int || 'A' as int <= c <= 'F' as int
    else false
  }

  function EscapeCharacter(c: int): int {
    if c == 'n' as int then 10 else if c == 't' as int then 9 else if c == 'r' as int then 13
    else if c == 'f' as int then 12 else if c == 'v' as int then 11 else if c == '0' as int then 0 else c
  }

  // ---------- Character sets ----------

  const EMPTY_SET := ClassSet({}, [])

  function Below128(low: int, high: int): set<int> {
    set c: int {:trigger InRange(c, low, high)} | 0 <= c < 128 && InRange(c, low, high)
  }

  predicate InRange(c: int, low: int, high: int) { low <= c <= high }

  function AddRange(members: ClassSet, low: int, high: int): (r: ClassSet) {
    var ascii := members.ascii + Below128(low, high);
    if high < 128 then ClassSet(ascii, members.ranges)
    else ClassSet(ascii, members.ranges + [CodeRange(if low < 128 then 128 else low, high)])
  }

  function AddNamed(members: ClassSet, name: seq<int>): ClassSet {
    members.(ascii := members.ascii + set c: int | 0 <= c < 128 && AsciiClassHas(name, c))
  }

  /** \d, \w and \s. */
  function EscapeClass(members: ClassSet, escape: int): Option<ClassSet> {
    if escape == 'd' as int then Some(AddNamed(members, Bytes("digit")))
    else if escape == 'w' as int then Some(AddRange(AddNamed(members, Bytes("alnum")), '_' as int, '_' as int))
    else if escape == 's' as int then Some(AddNamed(members, Bytes("space")))
    else None
  }

  // Splitting a range at the end of ASCII loses and adds nothing.
  lemma AddRangeAdds(members: ClassSet, low: int, high: int, c: int)
    requires c >= 0
    ensures ClassHas(AddRange(members, low, high), c) <==> ClassHas(members, c) || low <= c <= high
  {
    var r := AddRange(members, low, high);
    if c >= 128 && ClassHas(members, c) {
      var i :| 0 <= i < |members.ranges| && members.ranges[i].low <= c <= members.ranges[i].high;
      assert r.ranges[i] == members.ranges[i];
    }
    if c >= 128 && low <= c <= high {
      assert r.ranges[|members.ranges|] == CodeRange(if low < 128 then 128 else low, high);
    }
    if c < 128 {
      assert InRange(c, low, high) <==> low <= c <= high;
    }
  }

  predicate IsClose(text: seq<Byte>, i: nat) {
    i + 2 <= |text| && text[i] == ':' as int && text[i + 1] == ']' as int
  }

  /** The first ":]" at or after `from`. */
  function FindClose(text: seq<Byte>, from: nat): (r: Option<nat>)
    ensures r.Some? ==> from <= r.value && r.value + 2 <= |text| && IsClose(text, r.value)
    ensures forall i: nat :: from <= i && (r.Some? ==> i < r.value) ==> !IsClose(text, i)
    decreases |text| - from
  {
    if from + 2 > |text| then None
    else if text[from] == ':' as int && text[from + 1] == ']' as int then Some(from)
    else FindClose(text, from + 1)
  }

  function NamedClassEnd(text: seq<Byte>, p: nat): Option<nat> {
    if At(text, p) == '[' as int && At(text, p + 1) == ':' as int then FindClose(text, p + 2) else None
  }

  /** A backslash escapes unless it ends the pattern. */
  predicate IsEscape(text: seq<Byte>, p: nat) {
    At(text, p) == '\\' as int && At(text, p + 1) != 0
  }

  /** text[p..e] is one codepoint of a bracket expression. */
  ghost predicate SpellsCodepoint(text: seq<Byte>, p: nat, e: nat, c: int) {
    if IsEscape(text, p) then
      p + 1 < |text| && var d := Decode(text, p + 1); c == EscapeCharacter(d.codepoint) && e == p + 1 + d.length
    else p < |text| && var d := Decode(text, p); c == d.codepoint && e == p + d.length
  }

  predicate IsRangeDash(text: seq<Byte>, p: nat) {
    At(text, p) == '-' as int && At(text, p + 1) != 0 && At(text, p + 1) != ']' as int
  }

  /** One item of a bracket expression, which turns the set `before` into `after`. */
  ghost predicate SpellsItem(text: seq<Byte>, p: nat, e: nat, before: ClassSet, after: ClassSet) {
    var close := NamedClassEnd(text, p);
    if close.Some? then
      && e == close.value + 2
      && after == (if close.value - (p + 2) < 16 then AddNamed(before, text[p + 2..close.value]) else before)
    else if IsEscape(text, p) && EscapeClass(before, At(text, p + 1)).Some? then
      e == p + 2 && after == EscapeClass(before, At(text, p + 1)).value
    else exists m: nat, low: int ::
      && SpellsCodepoint(text, p, m, low)
      && if IsRangeDash(text, m) then exists high: int ::
          SpellsCodepoint(text, m + 1, e, high) && after == AddRange(before, low, high)
         else e == m && after == AddRange(before, low, low)
  }

  /** n items spelled by text[p..e]; only the first may begin with ']'. */
  ghost predicate SpellsItems(text: seq<Byte>, p: nat, e: nat, n: nat, members: ClassSet)
    decreases n
  {
    if n == 0 then p == e && members == EMPTY_SET
    else exists m: nat, before: ClassSet ::
      && SpellsItems(text, p, m, n - 1, before) && SpellsItem(text, m, e, before, members)
      && (n > 1 ==> At(text, m) != ']' as int)
  }

  /** What follows '[' up to and including the closing ']'. */
  ghost predicate SpellsBracket(text: seq<Byte>, p: nat, e: nat, isNegated: bool, members: ClassSet) {
    && isNegated == (At(text, p) == '^' as int) && p < e && At(text, e - 1) == ']' as int
    && var start, close := if isNegated then p + 1 else p, e - 1;
       exists n: nat :: SpellsItems(text, start, close, n, members) && n > 0
  }

  lemma NoItems(text: seq<Byte>, p: nat)
    ensures SpellsItems(text, p, p, 0, EMPTY_SET)
  {
  }

  lemma OneMoreItem(text: seq<Byte>, p: nat, m: nat, e: nat, n: nat, before: ClassSet, members: ClassSet)
    requires SpellsItems(text, p, m, n, before) && SpellsItem(text, m, e, before, members)
    requires n > 0 ==> At(text, m) != ']' as int
    ensures SpellsItems(text, p, e, n + 1, members)
  {
  }

  lemma ClosedBracket(text: seq<Byte>, p: nat, start: nat, e: nat, n: nat, isNegated: bool, members: ClassSet)
    requires isNegated == (At(text, p) == '^' as int) && start == (if isNegated then p + 1 else p)
    requires start <= e && At(text, e) == ']' as int && n > 0 && SpellsItems(text, start, e, n, members)
    ensures SpellsBracket(text, p, e + 1, isNegated, members)
  {
  }

  // ---------- Quantifiers ----------

  function NumberEnd(text: seq<Byte>, p: nat): (e: nat)
    ensures p <= e && (p <= |text| ==> e <= |text|)
    ensures !IsDigit(At(text, e)) && forall i :: p <= i < e ==> IsDigit(At(text, i))
    decreases |text| - p
  {
    if IsDigit(At(text, p)) then NumberEnd(text, p + 1) else p
  }

  /** The number written by the digits text[p..e]. */
  function Number(text: seq<Byte>, p: nat, e: nat): int
    decreases e - p
  {
    if e <= p then 0 else Number(text, p, e - 1) * 10 + (At(text, e - 1) - '0' as int)
  }

  // Where the quantifier ends, and its bounds.
  datatype Quantifier = Quantifier(end: nat, minimum: int, maximum: int)

  /** The quantifier at p; a '{' that does not open a well-formed interval is no quantifier. */
  function QuantifierAt(text: seq<Byte>, p: nat): Quantifier {
    var c := At(text, p);
    if c == '*' as int then Quantifier(p + 1, 0, -1)
    else if c == '+' as int then Quantifier(p + 1, 1, -1)
    else if c == '?' as int then Quantifier(p + 1, 0, 1)
    else if c == '{' as int && IsDigit(At(text, p + 1)) then
      var m := NumberEnd(text, p + 1);
      var low := Number(text, p + 1, m);
      var e := if At(text, m) == ',' as int then NumberEnd(text, m + 1) else m;
      var high := if e == m then low else if e == m + 1 then -1 else Number(text, m + 1, e);
      if At(text, e) == '}' as int then Quantifier(e + 1, low, high) else Quantifier(p, 1, 1)
    else Quantifier(p, 1, 1)
  }

  // ---------- Patterns ----------

  predicate EndsSequence(c: int) {
    c == 0 || c == '|' as int || c == ')' as int
  }

  predicate IsPlainCharacter(c: int) {
    !EndsSequence(c) && c !in {'(' as int, '[' as int, '.' as int, '^' as int, '$' as int}
  }

  ghost predicate SpellsAtom(text: seq<Byte>, p: nat, e: nat, atom: Atom)
    decreases atom, 0
  {
    && p < e <= |text|
    && match atom
       case Any => text[p] == '.' as int && e == p + 1
       case BeginningOfLine => text[p] == '^' as int && e == p + 1
       case EndOfLine => text[p] == '$' as int && e == p + 1
       case Character(c) =>
         && IsPlainCharacter(text[p]) && SpellsCodepoint(text, p, e, c)
         && (IsEscape(text, p) ==> EscapeClass(EMPTY_SET, At(text, p + 1)).None?)
       case Class(isNegated, members) =>
         if text[p] == '[' as int then SpellsBracket(text, p + 1, e, isNegated, members)
         else IsEscape(text, p) && e == p + 2 && !isNegated && EscapeClass(EMPTY_SET, At(text, p + 1)) == Some(members)
       case Group(group, _) =>
         text[p] == '(' as int && text[e - 1] == ')' as int && SpellsAlternatives(text, p + 1, e - 1, group.sequences)
  }

  ghost predicate SpellsNode(text: seq<Byte>, p: nat, e: nat, node: Node)
    decreases node, 0
  {
    if node.atom.BeginningOfLine? || node.atom.EndOfLine? then SpellsAtom(text, p, e, node.atom) && IsSingle(node)
    else exists m: nat ::
      SpellsAtom(text, p, m, node.atom) && QuantifierAt(text, m) == Quantifier(e, node.minimum, node.maximum)
  }

  ghost predicate SpellsNodes(text: seq<Byte>, p: nat, e: nat, nodes: seq<Node>)
    decreases nodes, 0
  {
    if nodes == [] then p == e
    else
      var front, last := nodes[..|nodes| - 1], nodes[|nodes| - 1];
      exists m: nat :: SpellsNodes(text, p, m, front) && SpellsNode(text, m, e, last)
  }

  /** A sequence runs as far as it can. */
  ghost predicate SpellsSequence(text: seq<Byte>, p: nat, e: nat, sequence: Sequence)
    decreases sequence, 0
  {
    SpellsNodes(text, p, e, sequence.nodes) && EndsSequence(At(text, e))
  }

  /** One or more sequences with '|' between them. */
  ghost predicate SpellsAlternatives(text: seq<Byte>, p: nat, e: nat, sequences: seq<Sequence>)
    decreases sequences, 0
  {
    && sequences != []
    && var last := sequences[|sequences| - 1];
       if |sequences| == 1 then SpellsSequence(text, p, e, last)
       else exists m: nat ::
         && SpellsAlternatives(text, p, m, sequences[..|sequences| - 1]) && At(text, m) == '|' as int
         && SpellsSequence(text, m + 1, e, last)
  }

  lemma SpellsOneMore(text: seq<Byte>, p: nat, m: nat, e: nat, nodes: seq<Node>, node: Node)
    requires SpellsNodes(text, p, m, nodes) && SpellsNode(text, m, e, node)
    ensures SpellsNodes(text, p, e, nodes + [node])
  {
    assert (nodes + [node])[..|nodes|] == nodes;
  }

  lemma SpellsOneMoreSequence(text: seq<Byte>, p: nat, start: nat, e: nat, sequences: seq<Sequence>, sequence: Sequence)
    requires SpellsBefore(text, p, start, sequences) && SpellsSequence(text, start, e, sequence)
    ensures SpellsAlternatives(text, p, e, sequences + [sequence])
  {
  }

  /** text[p..start] holds the sequences and the '|' after each. */
  ghost predicate SpellsBefore(text: seq<Byte>, p: nat, start: nat, sequences: seq<Sequence>) {
    if sequences == [] then p == start
    else start > 0 && SpellsAlternatives(text, p, start - 1, sequences) && At(text, start - 1) == '|' as int
  }
}
