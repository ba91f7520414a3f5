/** Whole runs of the parser: how two operators group, how deeply parentheses may nest, and how many
    operators may follow one operand. */
module PrattLimits {
  import opened Expressions
  import opened Pratt
  import opened PrattTheory
  import opened PrattCompleteness
  import opened PrattGrouping
  import opened ExpressionParser

  // ---------- Grouping ----------

  /** Of two binary operators that of the later level takes the operand between them, if the tree is
      within 256 levels and 256 links. */
  method ParseTwoOperators(a: Tree, o1: Kind, b: Tree, o2: Kind, c: Tree, ghost i: nat, ghost j: nat)
    returns (tree: Tree)
    requires IsOperand(a) && IsOperand(b) && IsOperand(c)
    requires i < |LEVELS| && o1 in LEVELS[i] && j < |LEVELS| && o2 in LEVELS[j]
    requires Fits(Grouped(a, o1, b, o2, c, i < j), 256, 0)
    ensures tree == Grouped(a, o1, b, o2, c, i < j)
  {
    hide IsOperand, Precedence, Fits, Grouped, Expression, Respects, Yield;
    var tokens := TokensOf(a, o1, b, o2, c);
    Grouping(a, o1, b, o2, c, i, j);
    var parser := new Parser(tokens);
    tree := parser.ParseExpression(LOWEST);
    WholeYield(tokens, Grouped(a, o1, b, o2, c, i < j));
    ExpressionComplete(tokens, 256, 0, |tokens|, 0, LOWEST, Grouped(a, o1, b, o2, c, i < j));
  }

  lemma WholeYield(tokens: seq<Token>, tree: Tree)
    requires Yield(tree) == tokens && Respects(tree, LOWEST)
    ensures StandsAt(tokens, 0, |tokens|, tree) && Precedence(At(tokens, |tokens|)) == LOWEST
  {
    YieldNonEmpty(tree, LOWEST);
    assert Slice(tokens, 0, |tokens|) == tokens;
  }

  // ---------- Nesting ----------

  /** n opening parentheses, the operand and n closing parentheses. */
  function Nested(n: nat, operand: Token): (tokens: seq<Token>)
    ensures |tokens| == 2 * n + 1 && tokens[n] == operand
    ensures forall i :: 0 <= i < n ==> tokens[i] == Symbol(LeftParenthesis)
    ensures forall i :: n < i < |tokens| ==> tokens[i] == Symbol(RightParenthesis)
  {
    seq(n, _ => Symbol(LeftParenthesis)) + [operand] + seq(n, _ => Symbol(RightParenthesis))
  }

  // After i parentheses the parser is at depth i; it reads on to the matching parenthesis.
  lemma {:induction false} NestedFrom(n: nat, operand: Token, limit: nat, i: nat)
    requires operand.Operand? && i <= n && i <= limit
    ensures var r := Expression(Nested(n, operand), limit, i, i, LOWEST);
            if n < limit then !r.tree.Missing? && r.at == 2 * n - i else r.tree.Missing?
    decreases n - i
  {
    var tokens := Nested(n, operand);
    if i < limit {
      if i < n {
        NestedFrom(n, operand, limit, i + 1);
      }
      if n < limit {
        assert At(tokens, 2 * n - i + 1) in {Symbol(RightParenthesis), Symbol(EndOfFile)};
      }
    }
  }

  /** An operand in n pairs of parentheses is parsed exactly when n is at most 255. */
  method ParseNested(n: nat, operand: Token) returns (tree: Tree)
    requires operand.Operand?
    ensures !tree.Missing? <==> n <= 255
  {
    hide Expression;
    var parser := new Parser(Nested(n, operand));
    tree := parser.ParseExpression(LOWEST);
    NestedFrom(n, operand, MAX_PARSE_DEPTH, 0);
  }

  // ---------- Chaining ----------

  /** The operand and n postfix operators. */
  function Chained(n: nat, operand: Token): (tokens: seq<Token>)
    ensures |tokens| == n + 1 && tokens[0] == operand
    ensures forall i :: 1 <= i <= n ==> tokens[i] == Symbol(Increment)
  {
    [operand] + seq(n, _ => Symbol(Increment))
  }

  lemma {:induction false} ChainedFrom(n: nat, operand: Token, limit: nat, i: nat, left: Tree)
    requires i <= n && 0 < limit && i <= limit && !left.Missing?
    ensures Chain(Chained(n, operand), limit, i, 1, LOWEST, left, i).tree.Missing? <==> n > limit
    decreases n - i
  {
    var tokens := Chained(n, operand);
    if i < n && i < limit {
      ChainedFrom(n, operand, limit, i + 1, Postfix(left, Symbol(Increment)));
    }
  }

  /** An operand with n postfix operators is parsed exactly when n is at most 256. */
  method ParseChained(n: nat, operand: Token) returns (tree: Tree)
    requires operand.Operand?
    ensures !tree.Missing? <==> n <= 256
  {
    hide Chain;
    var parser := new Parser(Chained(n, operand));
    tree := parser.ParseExpression(LOWEST);
    ChainedFrom(n, operand, MAX_PARSE_DEPTH, 0, Leaf(operand));
  }
}
