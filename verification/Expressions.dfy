/** Tokens, the precedence table, expression trees, and what it means for a tree to respect the
    table. Parentheses are kept in the tree so that every token it was read from can be recovered. */
module Expressions {
  datatype Kind =
    | Or | And | Equal | NotEqual | BitAnd | BitOr | BitXor
    | LessThan | GreaterThan | LessThanOrEqual | GreaterThanOrEqual | In | NotIn
    | BitShiftLeft | BitShiftRight | Plus | Minus | Asterisk | Slash | Percent
    | Bang | BitNot | Increment | Decrement | Caret
    | LeftParenthesis | RightParenthesis | LeftBracket | RightBracket | Dot | Comma | EndOfFile

  // An operand is an identifier or a literal; `Other` is any token no expression contains.
  datatype Token = Operand(text: string) | Symbol(kind: Kind) | Other(text: string)

  const LOWEST := 0
  const PREFIX := 10
  const INDEX := 12
  const POSTFIX := 13

  function Precedence(token: Token): (p: nat)
    ensures p <= POSTFIX
  {
    match token
    case Operand(_) | Other(_) => LOWEST
    case Symbol(kind) =>
      match kind
      case Or => 1
      case And => 2
      case Equal | NotEqual => 3
      case BitAnd | BitOr | BitXor => 4
      case LessThan | GreaterThan | LessThanOrEqual | GreaterThanOrEqual => 5
      case In | NotIn => 6
      case BitShiftLeft | BitShiftRight => 7
      case Plus | Minus => 8
      case Asterisk | Slash | Percent => 9
      case LeftParenthesis => 11
      case LeftBracket | Dot => INDEX
      case Increment | Decrement | Caret => POSTFIX
      case _ => LOWEST
  }

  predicate IsBinary(token: Token) {
    0 < Precedence(token) < PREFIX
  }

  predicate IsPostfix(token: Token) {
    Precedence(token) == POSTFIX
  }

  predicate IsPrefix(token: Token) {
    token in {Symbol(Minus), Symbol(Bang), Symbol(BitNot)}
  }

  /** `Missing` stands where the parser has no node. */
  datatype Tree =
    | Missing
    | Leaf(token: Token)
    | Parenthesized(inner: Tree)
    | Prefix(operator: Token, operand: Tree)
    | Infix(left: Tree, operator: Token, right: Tree)
    | Postfix(left: Tree, operator: Token)
    | Member(left: Tree, name: Token)
    | Index(left: Tree, index: Tree)
    | Call(left: Tree, arguments: seq<Tree>)

  /** Nothing is missing anywhere. */
  predicate IsComplete(tree: Tree) {
    match tree
    case Missing => false
    case Leaf(_) => true
    case Parenthesized(inner) => IsComplete(inner)
    case Prefix(_, operand) => IsComplete(operand)
    case Infix(left, _, right) => IsComplete(left) && IsComplete(right)
    case Postfix(left, _) => IsComplete(left)
    case Member(left, _) => IsComplete(left)
    case Index(left, index) => IsComplete(left) && IsComplete(index)
    case Call(left, arguments) => IsComplete(left) && forall i :: 0 <= i < |arguments| ==> IsComplete(arguments[i])
  }

  /** The tokens of a tree, in order. */
  function Yield(tree: Tree): seq<Token>
    decreases tree, 0
  {
    match tree
    case Missing => []
    case Leaf(token) => [token]
    case Parenthesized(inner) => [Symbol(LeftParenthesis)] + Yield(inner) + [Symbol(RightParenthesis)]
    case Prefix(operator, operand) => [operator] + Yield(operand)
    case Infix(left, operator, right) => Yield(left) + [operator] + Yield(right)
    case Postfix(left, operator) => Yield(left) + [operator]
    case Member(left, name) => Yield(left) + [Symbol(Dot), name]
    case Index(left, index) => Yield(left) + [Symbol(LeftBracket)] + Yield(index) + [Symbol(RightBracket)]
    case Call(left, arguments) =>
      Yield(left) + [Symbol(LeftParenthesis)] + YieldList(arguments, |arguments|) + [Symbol(RightParenthesis)]
  }

  /** The tokens of the first n arguments, with commas between them. */
  function YieldList(arguments: seq<Tree>, n: nat): seq<Token>
    requires n <= |arguments|
    decreases arguments, n
  {
    if n == 0 then []
    else if n == 1 then Yield(arguments[0])
    else YieldList(arguments, n - 1) + [Symbol(Comma)] + Yield(arguments[n - 1])
  }

  /** The weakest precedence on the tree's right edge: an operator that binds more tightly than this
      would have been taken into the tree's last operand. */
  function RightEdge(tree: Tree): (p: nat)
  {
    match tree
    case Prefix(_, operand) => Min(PREFIX, RightEdge(operand))
    case Infix(_, operator, right) => Min(Precedence(operator), RightEdge(right))
    case _ => POSTFIX
  }

  function Min(a: nat, b: nat): nat { if a < b then a else b }

  /** The tree respects the precedence table, with left association, where only operators that bind
      more tightly than `precedence` may stand outside brackets on its left edge. */
  predicate Respects(tree: Tree, precedence: nat) {
    match tree
    case Missing => false
    case Leaf(token) => token.Operand?
    case Parenthesized(inner) => Respects(inner, LOWEST)
    case Prefix(operator, operand) => IsPrefix(operator) && Respects(operand, PREFIX)
    case Infix(left, operator, right) =>
      && IsBinary(operator) && precedence < Precedence(operator) <= RightEdge(left)
      && Respects(left, precedence) && Respects(right, Precedence(operator))
    case Postfix(left, operator) =>
      IsPostfix(operator) && precedence < POSTFIX <= RightEdge(left) && Respects(left, precedence)
    case Member(left, _) => precedence < INDEX <= RightEdge(left) && Respects(left, precedence)
    case Index(left, index) => precedence < INDEX <= RightEdge(left) && Respects(left, precedence)
        && Respects(index, LOWEST)
    case Call(left, arguments) =>
      && precedence < Precedence(Symbol(LeftParenthesis)) <= RightEdge(left) && Respects(left, precedence)
      && forall i :: 0 <= i < |arguments| ==> Respects(arguments[i], LOWEST)
  }
}
