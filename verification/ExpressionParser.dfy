/** The expression parser over its token stream. */
module ExpressionParser {
  import opened Expressions
  import opened Pratt

  const MAX_PARSE_DEPTH := 256

  class Parser {
    const tokens: seq<Token>
    var current: nat  // the number of the current token; the next one is the peek token
    var depth: nat
    var shouldSuppressStructLiteral: bool

    constructor (tokens: seq<Token>)
      ensures this.tokens == tokens && current == 0 && depth == 0 && !shouldSuppressStructLiteral
    {
      this.tokens := tokens;
      current, depth, shouldSuppressStructLiteral := 0, 0, false;
    }

    /** Nothing but the current token changes across a call. */
    twostate predicate Restored()
      reads this
    {
      depth == old(depth) && shouldSuppressStructLiteral == old(shouldSuppressStructLiteral)
    }

    function CurrentToken(): Token
      reads this
    {
      At(tokens, current)
    }

    function PeekToken(): Token
      reads this
    {
      At(tokens, current + 1)
    }

    method NextToken()
      modifies this`current
      ensures current == old(current) + 1
    {
      current := current + 1;
    }

    method ExpectPeekToken(token: Token) returns (found: bool)
      modifies this`current
      ensures found == (At(tokens, old(current) + 1) == token)
      ensures current == old(current) + if found then 1 else 0
    {
      found := PeekToken() == token;
      if found {
        NextToken();
      }
    }

    method ParseExpression(precedence: nat) returns (left: Tree)
      requires depth <= MAX_PARSE_DEPTH
      modifies this
      ensures Parsed(left, current) == Expression(tokens, MAX_PARSE_DEPTH, old(current), old(depth), precedence)
      ensures Restored()
      decreases MAX_PARSE_DEPTH - depth, 2, 0
    {
      hide PrefixExpression, Link;
      depth := depth + 1;
      if depth > MAX_PARSE_DEPTH {
        depth := depth - 1;
        return Missing;
      }
      left := ParsePrefix();
      if left.Missing? {
        depth := depth - 1;
        return;
      }
      var chainLength := 0;
      ghost var start, head := current, left;
      while PeekToken() != Symbol(EndOfFile) && precedence < Precedence(PeekToken())
        invariant chainLength <= MAX_PARSE_DEPTH && depth == old(depth) + 1
        invariant shouldSuppressStructLiteral == old(shouldSuppressStructLiteral)
        invariant Chain(tokens, MAX_PARSE_DEPTH, start, depth, precedence, head, 0)
               == Chain(tokens, MAX_PARSE_DEPTH, current, depth, precedence, left, chainLength)
        decreases MAX_PARSE_DEPTH - chainLength
      {
        chainLength := chainLength + 1;
        if chainLength > MAX_PARSE_DEPTH {
          depth := depth - 1;
          return Missing;
        }
        NextToken();
        left := ParseInfix(left);
        if left.Missing? {
          depth := depth - 1;
          return;
        }
      }
      depth := depth - 1;
    }

    method ParsePrefix() returns (tree: Tree)
      requires depth <= MAX_PARSE_DEPTH
      modifies this
      ensures Parsed(tree, current) == PrefixExpression(tokens, MAX_PARSE_DEPTH, old(current), old(depth)) && Restored()
      decreases MAX_PARSE_DEPTH - depth, 6, 0
    {
      hide Expression;
      var token := CurrentToken();
      if token.Operand? {
        return Leaf(token);
      } else if IsPrefix(token) {
        NextToken();
        var operand := ParseExpression(PREFIX);
        return Prefix(token, operand);
      } else if token == Symbol(LeftParenthesis) {
        NextToken();
        var inner := ParseExpression(LOWEST);
        var found := ExpectPeekToken(Symbol(RightParenthesis));
        return if found && !inner.Missing? then Parenthesized(inner) else Missing;
      }
      return Missing;
    }

    method ParseInfix(left: Tree) returns (tree: Tree)
      requires depth <= MAX_PARSE_DEPTH && Precedence(CurrentToken()) > LOWEST
      modifies this
      ensures Parsed(tree, current) == Link(tokens, MAX_PARSE_DEPTH, old(current), old(depth), left) && Restored()
      decreases MAX_PARSE_DEPTH - depth, 4, 0
    {
      hide Expression, Arguments;
      var token := CurrentToken();
      if IsBinary(token) {
        tree := ParseInfixExpression(left);
      } else if IsPostfix(token) {
        tree := Postfix(left, token);
      } else if token == Symbol(Dot) {
        NextToken();
        tree := Member(left, CurrentToken());
      } else if token == Symbol(LeftBracket) {
        if PeekToken() == Symbol(RightBracket) {
          NextToken();
          return Missing;
        }
        NextToken();
        var index := ParseExpression(LOWEST);
        var found := ExpectPeekToken(Symbol(RightBracket));
        tree := if found then Index(left, index) else Missing;
      } else if PeekToken() == Symbol(RightParenthesis) {
        NextToken();
        tree := Call(left, []);
      } else {
        tree := ParseArguments(left);
      }
    }

    method ParseInfixExpression(left: Tree) returns (tree: Tree)
      requires depth <= MAX_PARSE_DEPTH && IsBinary(CurrentToken())
      modifies this
      ensures Parsed(tree, current) == Link(tokens, MAX_PARSE_DEPTH, old(current), old(depth), left) && Restored()
      decreases MAX_PARSE_DEPTH - depth, 3, 0
    {
      hide Expression, Arguments;
      var operator := CurrentToken();
      var shouldSuppressOnRight := Precedence(operator) in {3, 5, 6};
      NextToken();
      var saved := shouldSuppressStructLiteral;
      if shouldSuppressOnRight {
        shouldSuppressStructLiteral := true;
      }
      var right := ParseExpression(Precedence(operator));
      shouldSuppressStructLiteral := saved;
      return Infix(left, operator, right);
    }

    method ParseArguments(left: Tree) returns (tree: Tree)
      requires depth <= MAX_PARSE_DEPTH && CurrentToken() == Symbol(LeftParenthesis)
      modifies this
      ensures Parsed(tree, current) == Arguments(tokens, MAX_PARSE_DEPTH, old(current), old(depth), left, [])
      ensures Restored()
      decreases MAX_PARSE_DEPTH - depth, 3, 0
    {
      hide Expression;
      var arguments: seq<Tree> := [];
      while true
        invariant current < |tokens| && Restored()
        invariant Arguments(tokens, MAX_PARSE_DEPTH, old(current), depth, left, [])
               == Arguments(tokens, MAX_PARSE_DEPTH, current, depth, left, arguments)
        decreases |tokens| - current
      {
        NextToken();
        var argument := ParseExpression(LOWEST);
        arguments := arguments + [argument];
        if PeekToken() != Symbol(Comma) {
          break;
        }
        NextToken();
      }
      var found := ExpectPeekToken(Symbol(RightParenthesis));
      return if found then Call(left, arguments) else Missing;
    }
  }
}
