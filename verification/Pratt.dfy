/** The expression parser as a function: of the tokens, the limit on nesting and chaining, the number
    of the current token, the depth and the precedence to stay above. */
module Pratt {
  import opened Expressions

  // The node, if any, and the number of the token the parser stands on afterwards.
  datatype Parsed = Parsed(tree: Tree, at: nat)

  /** The lexer repeats the end-of-file token. */
  function At(tokens: seq<Token>, i: nat): Token {
    if i < |tokens| then tokens[i] else Symbol(EndOfFile)
  }

  function Expression(tokens: seq<Token>, limit: nat, at: nat, depth: nat, precedence: nat): (r: Parsed)
    ensures r.at >= at
    decreases limit - depth, 2, 0
  {
    if depth + 1 > limit then Parsed(Missing, at)
    else
      var left := PrefixExpression(tokens, limit, at, depth + 1);
      if left.tree.Missing? then left else Chain(tokens, limit, left.at, depth + 1, precedence, left.tree, 0)
  }

  function PrefixExpression(tokens: seq<Token>, limit: nat, at: nat, depth: nat): (r: Parsed)
    requires depth <= limit
    ensures r.at >= at
    decreases limit - depth, 6, 0
  {
    var token := At(tokens, at);
    if token.Operand? then Parsed(Leaf(token), at)
    else if IsPrefix(token) then
      var operand := Expression(tokens, limit, at + 1, depth, PREFIX);
      Parsed(Prefix(token, operand.tree), operand.at)
    else if token == Symbol(LeftParenthesis) then
      var inner := Expression(tokens, limit, at + 1, depth, LOWEST);
      if At(tokens, inner.at + 1) != Symbol(RightParenthesis) then Parsed(Missing, inner.at)
      else if inner.tree.Missing? then Parsed(Missing, inner.at + 1)
      else Parsed(Parenthesized(inner.tree), inner.at + 1)
    else Parsed(Missing, at)
  }

  /** Extends `left`, made of n links so far, while the next operator binds tightly enough. */
  function Chain(tokens: seq<Token>, limit: nat, at: nat, depth: nat, precedence: nat, left: Tree, n: nat): (r: Parsed)
    requires depth <= limit && n <= limit
    ensures r.at >= at
    decreases limit - depth, 5, limit - n
  {
    if precedence >= Precedence(At(tokens, at + 1)) then Parsed(left, at)
    else if n + 1 > limit then Parsed(Missing, at)
    else
      var next := Link(tokens, limit, at + 1, depth, left);
      if next.tree.Missing? then next else Chain(tokens, limit, next.at, depth, precedence, next.tree, n + 1)
  }

  /** One link of the chain, the parser standing on its operator. */
  function Link(tokens: seq<Token>, limit: nat, at: nat, depth: nat, left: Tree): (r: Parsed)
    requires depth <= limit && Precedence(At(tokens, at)) > LOWEST
    ensures r.at >= at
    decreases limit - depth, 4, 0
  {
    var token := At(tokens, at);
    if IsBinary(token) then
      var right := Expression(tokens, limit, at + 1, depth, Precedence(token));
      Parsed(Infix(left, token, right.tree), right.at)
    else if IsPostfix(token) then Parsed(Postfix(left, token), at)
    else if token == Symbol(Dot) then Parsed(Member(left, At(tokens, at + 1)), at + 1)
    else if token == Symbol(LeftBracket) then
      if At(tokens, at + 1) == Symbol(RightBracket) then Parsed(Missing, at + 1)
      else
        var index := Expression(tokens, limit, at + 1, depth, LOWEST);
        if At(tokens, index.at + 1) != Symbol(RightBracket) then Parsed(Missing, index.at)
        else Parsed(Index(left, index.tree), index.at + 1)
    else if At(tokens, at + 1) == Symbol(RightParenthesis) then Parsed(Call(left, []), at + 1)
    else Arguments(tokens, limit, at, depth, left, [])
  }

  /** The arguments after those read, the parser standing on '(' or a comma. */
  function Arguments(tokens: seq<Token>, limit: nat, at: nat, depth: nat, left: Tree, read: seq<Tree>): (r: Parsed)
    requires depth <= limit && at < |tokens|
    ensures r.at >= at
    decreases limit - depth, 3, |tokens| - at
  {
    var argument := Expression(tokens, limit, at + 1, depth, LOWEST);
    var arguments := read + [argument.tree];
    var next := At(tokens, argument.at + 1);
    if next == Symbol(Comma) then Arguments(tokens, limit, argument.at + 1, depth, left, arguments)
    else if next == Symbol(RightParenthesis) then Parsed(Call(left, arguments), argument.at + 1)
    else Parsed(Missing, argument.at)
  }
}
