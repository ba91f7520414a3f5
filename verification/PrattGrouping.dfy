/** How operators group, told by the order of their levels and not by the parser's table of numbers. */
module PrattGrouping {
  import opened Expressions
  import opened Pratt
  import opened PrattTheory
  import opened PrattCompleteness

  // The binary operators, loosest first: or; and; equality; bitwise; ordering; membership; shifts;
  // sums; products.
  const LEVELS: seq<set<Kind>> := [
    {Or}, {And}, {Equal, NotEqual}, {BitAnd, BitOr, BitXor},
    {LessThan, GreaterThan, LessThanOrEqual, GreaterThanOrEqual}, {In, NotIn},
    {BitShiftLeft, BitShiftRight}, {Plus, Minus}, {Asterisk, Slash, Percent}]

  const PREFIX_OPERATORS := {Minus, Bang, BitNot}
  const POSTFIX_OPERATORS := {Increment, Decrement, Caret}

  predicate IsBinaryKind(kind: Kind) {
    exists i :: 0 <= i < |LEVELS| && kind in LEVELS[i]
  }

  /** What the parser makes of the tokens, with as much room as there are tokens. */
  function Parse(tokens: seq<Token>): Tree {
    Expression(tokens, |tokens|, 0, 0, LOWEST).tree
  }

  /** A tree that can stand as an operand: any well-formed one but a bare binary expression. */
  predicate IsOperand(tree: Tree) {
    !tree.Infix? && Respects(tree, LOWEST)
  }

  // ---------- The table has the levels' order ----------

  lemma TableHasLevels(kind: Kind, i: nat)
    requires i < |LEVELS| && kind in LEVELS[i]
    ensures Precedence(Symbol(kind)) == i + 1 && IsBinary(Symbol(kind))
  {
  }

  lemma BinaryIff(kind: Kind)
    ensures IsBinary(Symbol(kind)) <==> IsBinaryKind(kind)
    ensures IsPostfix(Symbol(kind)) <==> kind in POSTFIX_OPERATORS
    ensures IsPrefix(Symbol(kind)) <==> kind in PREFIX_OPERATORS
  {
    if IsBinary(Symbol(kind)) {
      assert kind in LEVELS[Precedence(Symbol(kind)) - 1];
    }
  }

  // An operand binds more tightly than every binary operator, on both sides.
  lemma {:induction false} OperandBindsTightly(tree: Tree, precedence: nat)
    requires IsOperand(tree) && precedence <= PREFIX
    ensures Respects(tree, precedence) && RightEdge(tree) >= PREFIX
    decreases tree
  {
    match tree {
      case Leaf(_) =>
      case Parenthesized(_) =>
      case Prefix(_, operand) => PrefixEdge(operand);
      case Postfix(left, _) => SuffixOperand(left); OperandBindsTightly(left, precedence);
      case Member(left, _) => SuffixOperand(left); OperandBindsTightly(left, precedence);
      case Index(left, _) => SuffixOperand(left); OperandBindsTightly(left, precedence);
      case Call(left, _) => SuffixOperand(left); OperandBindsTightly(left, precedence);
    }
  }

  lemma SuffixOperand(left: Tree)
    requires RightEdge(left) > PREFIX && Respects(left, LOWEST)
    ensures IsOperand(left)
  {
  }

  // What a prefix operator takes has nothing looser on its right.
  lemma {:induction false} PrefixEdge(operand: Tree)
    requires Respects(operand, PREFIX)
    ensures RightEdge(operand) >= PREFIX
    decreases operand
  {
    if operand.Prefix? {
      PrefixEdge(operand.operand);
    }
  }

  // ---------- Grouping ----------

  /** The two ways to read a o1 b o2 c. */
  function Grouped(a: Tree, o1: Kind, b: Tree, o2: Kind, c: Tree, isSecondTighter: bool): Tree {
    if isSecondTighter then Infix(a, Symbol(o1), Infix(b, Symbol(o2), c))
    else Infix(Infix(a, Symbol(o1), b), Symbol(o2), c)
  }

  function TokensOf(a: Tree, o1: Kind, b: Tree, o2: Kind, c: Tree): seq<Token> {
    Yield(a) + [Symbol(o1)] + Yield(b) + [Symbol(o2)] + Yield(c)
  }

  /** Of two binary operators the later level takes the operand between them; on one level, or when
      the first is the tighter, the first does. */
  lemma Grouping(a: Tree, o1: Kind, b: Tree, o2: Kind, c: Tree, i: nat, j: nat)
    requires IsOperand(a) && IsOperand(b) && IsOperand(c)
    requires i < |LEVELS| && o1 in LEVELS[i] && j < |LEVELS| && o2 in LEVELS[j]
    ensures Parse(TokensOf(a, o1, b, o2, c)) == Grouped(a, o1, b, o2, c, i < j)
    ensures Respects(Grouped(a, o1, b, o2, c, i < j), LOWEST)
    ensures Yield(Grouped(a, o1, b, o2, c, i < j)) == TokensOf(a, o1, b, o2, c)
  {
    hide Precedence, Expression, IsOperand;
    TableHasLevels(o1, i);
    TableHasLevels(o2, j);
    var tokens := TokensOf(a, o1, b, o2, c);
    OperandBindsTightly(a, LOWEST);
    OperandBindsTightly(b, i + 1);
    OperandBindsTightly(c, j + 1);
    if i < j {
      var right := Infix(b, Symbol(o2), c);
      assert Respects(right, i + 1);
      assert Yield(Infix(a, Symbol(o1), right)) == tokens;
      ReadsItsYield(Infix(a, Symbol(o1), right), LOWEST);
    } else {
      var left := Infix(a, Symbol(o1), b);
      assert Respects(left, LOWEST) && RightEdge(left) == i + 1;
      ReadsItsYield(Infix(left, Symbol(o2), c), LOWEST);
    }
  }

  // One binary operator between operands, which may themselves end in calls, indexes, members or
  // postfix operators, or begin with prefix operators.
  lemma OneOperator(a: Tree, o: Kind, b: Tree)
    requires IsOperand(a) && IsOperand(b) && IsBinaryKind(o)
    ensures Parse(Yield(a) + [Symbol(o)] + Yield(b)) == Infix(a, Symbol(o), b)
  {
    hide Precedence, Expression, IsOperand;
    var i :| 0 <= i < |LEVELS| && o in LEVELS[i];
    TableHasLevels(o, i);
    OperandBindsTightly(a, LOWEST);
    OperandBindsTightly(b, i + 1);
    ReadsItsYield(Infix(a, Symbol(o), b), LOWEST);
  }

  // A prefix operator takes its operand before any binary operator does.
  lemma PrefixBeforeBinary(p: Kind, a: Tree, o: Kind, b: Tree)
    requires p in PREFIX_OPERATORS && IsOperand(a) && IsOperand(b) && IsBinaryKind(o)
    ensures Parse([Symbol(p)] + Yield(a) + [Symbol(o)] + Yield(b)) == Infix(Prefix(Symbol(p), a), Symbol(o), b)
  {
    hide Precedence, Expression;
    BinaryIff(p);
    OperandBindsTightly(a, PREFIX);
    OneOperator(Prefix(Symbol(p), a), o, b);
  }

  /** `tree` is a call, an index, a member or a postfix operator on `left`, which begins with no
      prefix operator of its own. */
  predicate IsSuffixOf(tree: Tree, left: Tree) {
    && IsOperand(left) && !left.Prefix?
    && match tree
       case Postfix(l, operator) => l == left && operator.Symbol? && operator.kind in POSTFIX_OPERATORS
       case Member(l, _) => l == left
       case Index(l, index) => l == left && Respects(index, LOWEST)
       case Call(l, arguments) => l == left && forall i :: 0 <= i < |arguments| ==> Respects(arguments[i], LOWEST)
       case _ => false
  }

  // Calls, indexes, members and postfix operators come before a prefix operator, and chain from the left.
  lemma SuffixBeforePrefix(p: Kind, tree: Tree, left: Tree)
    requires p in PREFIX_OPERATORS && IsSuffixOf(tree, left)
    ensures IsOperand(tree) && Parse(Yield(tree)) == tree
    ensures Parse([Symbol(p)] + Yield(tree)) == Prefix(Symbol(p), tree)
  {
    BinaryIff(p);
    if tree.Postfix? {
      BinaryIff(tree.operator.kind);
    }
    assert RightEdge(left) == POSTFIX;
    assert IsOperand(tree);
    OperandBindsTightly(tree, PREFIX);
    ReadsItsYield(tree, LOWEST);
    ReadsItsYield(Prefix(Symbol(p), tree), LOWEST);
  }

  // Any other symbol ends the expression before it.
  lemma OthersEnd(a: Tree, kind: Kind, rest: seq<Token>)
    requires IsOperand(a) && !IsBinaryKind(kind)
    requires kind !in POSTFIX_OPERATORS && kind !in {LeftParenthesis, LeftBracket, Dot}
    ensures var tokens := Yield(a) + [Symbol(kind)] + rest;
            Expression(tokens, |tokens|, 0, 0, LOWEST) == Parsed(a, |Yield(a)| - 1)
  {
    hide Expression;
    var tokens, end := Yield(a) + [Symbol(kind)] + rest, |Yield(a)|;
    BinaryIff(kind);
    assert Precedence(Symbol(kind)) == LOWEST;
    YieldNonEmpty(a, LOWEST);
    LongLimitFits(a, |tokens|, 0, LOWEST);
    assert Slice(tokens, 0, end) == Yield(a);
    ExpressionComplete(tokens, |tokens|, 0, end, 0, LOWEST, a);
  }
}
