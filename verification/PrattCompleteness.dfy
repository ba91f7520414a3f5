/** Every tree that respects the precedence table and fits the limits is found from its yield. */
module PrattCompleteness {
  import opened Expressions
  import opened Pratt
  import opened PrattTheory

  /** How many times the parser's loop extends a tree's leftmost operand to make the tree. */
  function Links(tree: Tree): (n: nat) {
    match tree
    case Infix(left, _, _) => Links(left) + 1
    case Postfix(left, _) => Links(left) + 1
    case Member(left, _) => Links(left) + 1
    case Index(left, _) => Links(left) + 1
    case Call(left, _) => Links(left) + 1
    case _ => 0
  }

  /** The tree can be parsed at `depth` without exceeding the limit on nesting or on chaining. */
  predicate Fits(tree: Tree, limit: nat, depth: nat)
    decreases tree, 1
  {
    depth + 1 <= limit && Links(tree) <= limit && Inside(tree, limit, depth + 1)
  }

  predicate Inside(tree: Tree, limit: nat, depth: nat)
    decreases tree, 0
  {
    match tree
    case Missing | Leaf(_) => true
    case Parenthesized(inner) => Fits(inner, limit, depth)
    case Prefix(_, operand) => Fits(operand, limit, depth)
    case Infix(left, _, right) => Inside(left, limit, depth) && Fits(right, limit, depth)
    case Postfix(left, _) => Inside(left, limit, depth)
    case Member(left, _) => Inside(left, limit, depth)
    case Index(left, index) => Inside(left, limit, depth) && Fits(index, limit, depth)
    case Call(left, arguments) =>
      Inside(left, limit, depth) && forall i :: 0 <= i < |arguments| ==> Fits(arguments[i], limit, depth)
  }

  /** The tokens from `from` on begin with the tree's yield, and the one after it, numbered `end`, does
      not belong to the tree's last operand. */
  ghost predicate StandsAt(tokens: seq<Token>, from: nat, end: nat, tree: Tree) {
    from < end && Slice(tokens, from, end) == Yield(tree) && Precedence(At(tokens, end)) <= RightEdge(tree)
  }

  lemma SliceSplits(tokens: seq<Token>, from: nat, to: nat, a: seq<Token>, b: seq<Token>)
    requires from <= to && Slice(tokens, from, to) == a + b
    ensures from + |a| <= to && Slice(tokens, from, from + |a|) == a && Slice(tokens, from + |a|, to) == b
  {
    hide Slice;
    var m := from + |a|;
    assert |Slice(tokens, from, to)| == |a| + |b|;
    SliceJoins(tokens, from, m, to);
    var first, second := Slice(tokens, from, m), Slice(tokens, m, to);
    assert first == (first + second)[..|a|] == (a + b)[..|a|] == a;
    assert second == (first + second)[|a|..] == (a + b)[|a|..] == b;
  }

  lemma {:induction false} YieldNonEmpty(tree: Tree, precedence: nat)
    requires Respects(tree, precedence)
    ensures |Yield(tree)| > 0
  {
  }

  // ---------- Where the parts of a tree stand ----------

  lemma PartsOfInfix(tokens: seq<Token>, from: nat, end: nat, left: Tree, operator: Token, right: Tree,
                     precedence: nat) returns (m: nat)
    requires StandsAt(tokens, from, end, Infix(left, operator, right))
    requires Respects(Infix(left, operator, right), precedence)
    ensures m + 1 < end && StandsAt(tokens, from, m, left) && At(tokens, m) == operator
    ensures StandsAt(tokens, m + 1, end, right)
    ensures Precedence(At(tokens, end)) <= Precedence(operator)
  {
    hide Slice;
    m := from + |Yield(left)|;
    YieldNonEmpty(left, precedence);
    YieldNonEmpty(right, Precedence(operator));
    assert Yield(Infix(left, operator, right)) == Yield(left) + ([operator] + Yield(right));
    SliceSplits(tokens, from, end, Yield(left), [operator] + Yield(right));
    SliceSplits(tokens, m, end, [operator], Yield(right));
    SliceOne(tokens, m);
  }

  lemma PartsOfPrefix(tokens: seq<Token>, from: nat, end: nat, operator: Token, operand: Tree)
    requires StandsAt(tokens, from, end, Prefix(operator, operand)) && Respects(operand, PREFIX)
    ensures At(tokens, from) == operator && StandsAt(tokens, from + 1, end, operand)
    ensures Precedence(At(tokens, end)) <= PREFIX
  {
    hide Slice;
    YieldNonEmpty(operand, PREFIX);
    SliceSplits(tokens, from, end, [operator], Yield(operand));
    SliceOne(tokens, from);
  }

  // A tree in brackets, after `before`.
  lemma PartsOfBracket(tokens: seq<Token>, from: nat, end: nat, before: seq<Token>, open: Token, inner: seq<Token>,
                       close: Token)
    requires from <= end && Slice(tokens, from, end) == before + [open] + inner + [close]
    ensures from + |before| + |inner| + 2 == end && Slice(tokens, from, from + |before|) == before
    ensures At(tokens, from + |before|) == open && At(tokens, end - 1) == close
    ensures Slice(tokens, from + |before| + 1, end - 1) == inner
  {
    hide Slice;
    var m := from + |before|;
    assert before + [open] + inner + [close] == before + ([open] + (inner + [close]));
    SliceSplits(tokens, from, end, before, [open] + (inner + [close]));
    SliceSplits(tokens, m, end, [open], inner + [close]);
    SliceSplits(tokens, m + 1, end, inner, [close]);
    SliceOne(tokens, m);
    SliceOne(tokens, end - 1);
  }

  lemma PartsOfSuffix(tokens: seq<Token>, from: nat, end: nat, before: seq<Token>, suffix: seq<Token>)
    requires from <= end && Slice(tokens, from, end) == before + suffix
    ensures var m := from + |before|; m + |suffix| == end && Slice(tokens, from, m) == before
    ensures |suffix| > 0 ==> At(tokens, from + |before|) == suffix[0]
    ensures |suffix| > 1 ==> At(tokens, from + |before| + 1) == suffix[1]
  {
    SliceSplits(tokens, from, end, before, suffix);
    var rest := Slice(tokens, from + |before|, end);
    if |suffix| > 0 {
      assert rest[0] == At(tokens, from + |before|);
    }
    if |suffix| > 1 {
      assert rest[1] == At(tokens, from + |before| + 1);
    }
  }

  // ---------- Completeness ----------

  /** Every tree that respects the table and fits the limits is what the parser makes of its yield,
      when the token after it neither belongs to it nor binds above `precedence`. */
  lemma {:induction false} ExpressionComplete(tokens: seq<Token>, limit: nat, from: nat, end: nat, depth: nat,
                                              precedence: nat, tree: Tree)
    requires StandsAt(tokens, from, end, tree) && Respects(tree, precedence) && Fits(tree, limit, depth)
    requires Precedence(At(tokens, end)) <= precedence
    ensures Expression(tokens, limit, from, depth, precedence) == Parsed(tree, end - 1)
    decreases tree, 3
  {
    hide StandsAt, Respects, Inside, PrefixExpression, Link;
    Spine(tokens, limit, from, end, depth + 1, precedence, tree);
  }

  // The loop, started on the leftmost operand of a tree, comes to the whole tree.
  lemma {:induction false} Spine(tokens: seq<Token>, limit: nat, from: nat, end: nat, depth: nat, precedence: nat,
                                 tree: Tree)
    requires depth <= limit && Links(tree) <= limit
    requires StandsAt(tokens, from, end, tree) && Respects(tree, precedence) && Inside(tree, limit, depth)
    ensures from < end
    ensures var head := PrefixExpression(tokens, limit, from, depth);
            && !head.tree.Missing?
            && Chain(tokens, limit, head.at, depth, precedence, head.tree, 0)
            == Chain(tokens, limit, end - 1, depth, precedence, tree, Links(tree))
    decreases tree, 2
  {
    hide StandsAt, PrefixExpression, Link;
    if tree.Leaf? || tree.Parenthesized? || tree.Prefix? {
      HeadFound(tokens, limit, from, end, depth, precedence, tree);
    } else {
      var m := LinkFound(tokens, limit, from, end, depth, precedence, tree);
      Spine(tokens, limit, from, m, depth, precedence, tree.left);
    }
  }

  lemma {:induction false} HeadFound(tokens: seq<Token>, limit: nat, from: nat, end: nat, depth: nat, precedence: nat,
                                     tree: Tree)
    requires depth <= limit && (tree.Leaf? || tree.Parenthesized? || tree.Prefix?)
    requires StandsAt(tokens, from, end, tree) && Respects(tree, precedence) && Inside(tree, limit, depth)
    ensures from < end && PrefixExpression(tokens, limit, from, depth) == Parsed(tree, end - 1)
    decreases tree, 1
  {
    hide Expression, Slice;
    match tree {
      case Leaf(token) =>
        SliceSplits(tokens, from, end, [token], []);
        SliceOne(tokens, from);
      case Prefix(operator, operand) =>
        PartsOfPrefix(tokens, from, end, operator, operand);
        ExpressionComplete(tokens, limit, from + 1, end, depth, PREFIX, operand);
      case Parenthesized(inner) =>
        PartsOfBracket(tokens, from, end, [], Symbol(LeftParenthesis), Yield(inner), Symbol(RightParenthesis));
        YieldNonEmpty(inner, LOWEST);
        ExpressionComplete(tokens, limit, from + 1, end - 1, depth, LOWEST, inner);
    }
  }

  /** `tree` is one link from its left operand, which ends before token m. */
  ghost predicate LinksFrom(tokens: seq<Token>, limit: nat, from: nat, end: nat, depth: nat, precedence: nat,
                            tree: Tree, left: Tree, m: nat) {
    && from < m < end && depth <= limit && StandsAt(tokens, from, m, left) && Respects(left, precedence)
    && precedence < Precedence(At(tokens, m)) && Link(tokens, limit, m, depth, left) == Parsed(tree, end - 1)
  }

  lemma SuffixFound(tokens: seq<Token>, limit: nat, from: nat, end: nat, depth: nat, precedence: nat, tree: Tree)
    requires depth <= limit && (tree.Postfix? || tree.Member?)
    requires StandsAt(tokens, from, end, tree) && Respects(tree, precedence)
    ensures LinksFrom(tokens, limit, from, end, depth, precedence, tree, tree.left, from + |Yield(tree.left)|)
  {
    hide Slice, Expression, Arguments;
    YieldNonEmpty(tree.left, precedence);
    PartsOfSuffix(tokens, from, end, Yield(tree.left),
                  if tree.Postfix? then [tree.operator] else [Symbol(Dot), tree.name]);
  }

  lemma {:induction false} LinkFound(tokens: seq<Token>, limit: nat, from: nat, end: nat, depth: nat, precedence: nat,
                                     tree: Tree) returns (m: nat)
    requires depth <= limit && !(tree.Leaf? || tree.Parenthesized? || tree.Prefix?)
    requires StandsAt(tokens, from, end, tree) && Respects(tree, precedence) && Inside(tree, limit, depth)
    ensures LinksFrom(tokens, limit, from, end, depth, precedence, tree, tree.left, m)
    decreases tree, 1
  {
    hide Expression, Slice, Arguments;
    m := from + |Yield(tree.left)|;
    YieldNonEmpty(tree.left, precedence);
    match tree {
      case Infix(left, operator, right) =>
        m := PartsOfInfix(tokens, from, end, left, operator, right, precedence);
        ExpressionComplete(tokens, limit, m + 1, end, depth, Precedence(operator), right);
      case Postfix(left, operator) =>
        SuffixFound(tokens, limit, from, end, depth, precedence, tree);
      case Member(left, name) =>
        SuffixFound(tokens, limit, from, end, depth, precedence, tree);
      case Index(left, index) =>
        PartsOfBracket(tokens, from, end, Yield(left), Symbol(LeftBracket), Yield(index), Symbol(RightBracket));
        YieldNonEmpty(index, LOWEST);
        IndexFound(tokens, limit, m, end, depth, left, index);
      case Call(left, arguments) =>
        PartsOfBracket(tokens, from, end, Yield(left), Symbol(LeftParenthesis), YieldList(arguments, |arguments|),
                       Symbol(RightParenthesis));
        CallFound(tokens, limit, m, end, depth, left, arguments);
    }
  }

  lemma {:induction false} FirstToken(tree: Tree, precedence: nat)
    requires Respects(tree, precedence)
    ensures |Yield(tree)| > 0 && Yield(tree)[0] != Symbol(RightBracket) && Yield(tree)[0] != Symbol(RightParenthesis)
  {
    match tree {
      case Infix(left, _, _) => FirstToken(left, precedence);
      case Postfix(left, _) => FirstToken(left, precedence);
      case Member(left, _) => FirstToken(left, precedence);
      case Index(left, _) => FirstToken(left, precedence);
      case Call(left, _) => FirstToken(left, precedence);
      case _ =>
    }
  }

  lemma SliceFirst(tokens: seq<Token>, from: nat, to: nat)
    requires from < to
    ensures Slice(tokens, from, to)[0] == At(tokens, from)
  {
  }

  lemma {:induction false} IndexFound(tokens: seq<Token>, limit: nat, at: nat, end: nat, depth: nat, left: Tree,
                                      index: Tree)
    requires depth <= limit && at + 1 < end - 1 && At(tokens, at) == Symbol(LeftBracket)
    requires At(tokens, end - 1) == Symbol(RightBracket)
    requires Slice(tokens, at + 1, end - 1) == Yield(index) && Respects(index, LOWEST) && Fits(index, limit, depth)
    ensures Link(tokens, limit, at, depth, left) == Parsed(Index(left, index), end - 1)
    decreases index, 4
  {
    hide Expression, Slice, Respects, Yield, Fits, Arguments;
    FirstToken(index, LOWEST);
    SliceFirst(tokens, at + 1, end - 1);
    ExpressionComplete(tokens, limit, at + 1, end - 1, depth, LOWEST, index);
  }

  predicate AllRespectAndFit(arguments: seq<Tree>, limit: nat, depth: nat) {
    forall i :: 0 <= i < |arguments| ==> Respects(arguments[i], LOWEST) && Fits(arguments[i], limit, depth)
  }

  /** Where argument i begins, when the arguments begin at `start`. */
  function ArgumentStart(start: nat, arguments: seq<Tree>, i: nat): nat
    requires i <= |arguments|
  {
    start + |YieldList(arguments, i)| + (if i > 0 then 1 else 0)
  }

  lemma {:induction false} ArgumentStands(tokens: seq<Token>, start: nat, end: nat, arguments: seq<Tree>, n: nat,
                                          i: nat)
    requires start <= end && i < n <= |arguments| && Slice(tokens, start, end) == YieldList(arguments, n)
    ensures var p := ArgumentStart(start, arguments, i); var q := p + |Yield(arguments[i])|;
            && Slice(tokens, p, q) == Yield(arguments[i])
            && if i + 1 == n then q == end else q < end && At(tokens, q) == Symbol(Comma)
    ensures YieldList(arguments, i + 1)
        == YieldList(arguments, i) + (if i > 0 then [Symbol(Comma)] else []) + Yield(arguments[i])
    decreases n
  {
    hide Slice, Yield;
    if n > 1 {
      var before, last := YieldList(arguments, n - 1), Yield(arguments[n - 1]);
      assert before + [Symbol(Comma)] + last == before + ([Symbol(Comma)] + last);
      SliceSplits(tokens, start, end, before, [Symbol(Comma)] + last);
      var comma := start + |before|;
      SliceSplits(tokens, comma, end, [Symbol(Comma)], last);
      SliceOne(tokens, comma);
      if i + 1 < n {
        ArgumentStands(tokens, start, comma, arguments, n - 1, i);
      }
    }
  }

  lemma FirstOfArgument(tokens: seq<Token>, from: nat, argument: Tree)
    requires Respects(argument, LOWEST) && Slice(tokens, from, from + |Yield(argument)|) == Yield(argument)
    ensures At(tokens, from) != Symbol(RightParenthesis)
  {
    hide Yield, Respects;
    FirstToken(argument, LOWEST);
    SliceFirst(tokens, from, from + |Yield(argument)|);
  }

  lemma {:induction false} CallFound(tokens: seq<Token>, limit: nat, at: nat, end: nat, depth: nat, left: Tree,
                                     arguments: seq<Tree>)
    requires depth <= limit && at + 1 <= end - 1 && At(tokens, at) == Symbol(LeftParenthesis)
    requires At(tokens, end - 1) == Symbol(RightParenthesis)
    requires Slice(tokens, at + 1, end - 1) == YieldList(arguments, |arguments|)
    requires AllRespectAndFit(arguments, limit, depth)
    ensures Link(tokens, limit, at, depth, left) == Parsed(Call(left, arguments), end - 1)
    decreases arguments, 1, 0
  {
    hide Expression, Slice, Respects, Fits, Yield, Arguments;
    if |arguments| == 0 {
      assert at + 1 == end - 1;
    } else {
      ArgumentStands(tokens, at + 1, end - 1, arguments, |arguments|, 0);
      FirstOfArgument(tokens, at + 1, arguments[0]);
      ArgumentsFound(tokens, limit, at + 1, end, at, depth, left, arguments, 0);
      assert arguments[..0] == [];
    }
  }

  lemma {:induction false} ArgumentsFound(tokens: seq<Token>, limit: nat, start: nat, end: nat, at: nat, depth: nat,
                                          left: Tree, arguments: seq<Tree>, i: nat)
    requires depth <= limit && start <= end - 1 && i < |arguments| && at < |tokens|
    requires at + 1 == ArgumentStart(start, arguments, i)
    requires Slice(tokens, start, end - 1) == YieldList(arguments, |arguments|)
    requires At(tokens, end - 1) == Symbol(RightParenthesis)
    requires AllRespectAndFit(arguments, limit, depth)
    ensures Arguments(tokens, limit, at, depth, left, arguments[..i]) == Parsed(Call(left, arguments), end - 1)
    decreases arguments, 0, |arguments| - i
  {
    hide Expression, Slice, Respects, Fits, Yield, YieldList;
    var argument := arguments[i];
    ArgumentStands(tokens, start, end - 1, arguments, |arguments|, i);
    FirstToken(argument, LOWEST);
    var q := at + 1 + |Yield(argument)|;
    ExpressionComplete(tokens, limit, at + 1, q, depth, LOWEST, argument);
    assert arguments[..i] + [argument] == arguments[..i + 1];
    if i + 1 == |arguments| {
      assert arguments[..i + 1] == arguments;
    } else {
      ArgumentsFound(tokens, limit, start, end, q, depth, left, arguments, i + 1);
    }
  }

  // ---------- Uniqueness ----------

  lemma {:induction false} ArgumentIsShorter(arguments: seq<Tree>, n: nat, i: nat)
    requires i < n <= |arguments|
    ensures |Yield(arguments[i])| <= |YieldList(arguments, n)|
    decreases n
  {
    if i + 1 < n {
      ArgumentIsShorter(arguments, n - 1, i);
    }
  }

  lemma {:induction false} LinksAreTokens(tree: Tree, precedence: nat)
    requires Respects(tree, precedence)
    ensures Links(tree) < |Yield(tree)|
  {
    if !(tree.Leaf? || tree.Parenthesized? || tree.Prefix?) {
      LinksAreTokens(tree.left, precedence);
    }
  }

  // A limit as large as the number of tokens is large enough.
  lemma {:induction false} LongLimitFits(tree: Tree, limit: nat, depth: nat, precedence: nat)
    requires Respects(tree, precedence) && depth + |Yield(tree)| <= limit
    ensures Fits(tree, limit, depth)
    decreases tree, 1
  {
    LinksAreTokens(tree, precedence);
    LongLimitInside(tree, limit, depth + 1, precedence);
  }

  lemma {:induction false} LongLimitInside(tree: Tree, limit: nat, depth: nat, precedence: nat)
    requires Respects(tree, precedence) && depth + |Yield(tree)| <= limit + 1
    ensures Inside(tree, limit, depth)
    decreases tree, 0
  {
    hide Fits;
    match tree {
      case Leaf(_) =>
      case Parenthesized(inner) => LongLimitFits(inner, limit, depth, LOWEST);
      case Prefix(_, operand) => LongLimitFits(operand, limit, depth, PREFIX);
      case Infix(left, operator, right) =>
        YieldNonEmpty(left, precedence);
        LongLimitInside(left, limit, depth, precedence);
        LongLimitFits(right, limit, depth, Precedence(operator));
      case Postfix(left, _) => LongLimitInside(left, limit, depth, precedence);
      case Member(left, _) => LongLimitInside(left, limit, depth, precedence);
      case Index(left, index) =>
        LongLimitInside(left, limit, depth, precedence);
        LongLimitFits(index, limit, depth, LOWEST);
      case Call(left, arguments) =>
        LongLimitInside(left, limit, depth, precedence);
        forall i | 0 <= i < |arguments| ensures Fits(arguments[i], limit, depth) {
          ArgumentIsShorter(arguments, |arguments|, i);
          LongLimitFits(arguments[i], limit, depth, LOWEST);
        }
    }
  }

  lemma ReadsItsYield(tree: Tree, precedence: nat)
    requires Respects(tree, precedence)
    ensures Expression(Yield(tree), |Yield(tree)|, 0, 0, precedence).tree == tree
  {
    var tokens := Yield(tree);
    YieldNonEmpty(tree, precedence);
    LongLimitFits(tree, |tokens|, 0, precedence);
    assert Slice(tokens, 0, |tokens|) == tokens;
    ExpressionComplete(tokens, |tokens|, 0, |tokens|, 0, precedence, tree);
  }

  /** The table makes the grammar unambiguous: tokens are the yield of at most one respecting tree. */
  lemma RespectingTreeIsUnique(a: Tree, b: Tree, precedence: nat)
    requires Respects(a, precedence) && Respects(b, precedence) && Yield(a) == Yield(b)
    ensures a == b
  {
    ReadsItsYield(a, precedence);
    ReadsItsYield(b, precedence);
  }
}
