/** The formatter's per-line tables: brace depth, and whether a line continues a statement. */
module FmtTables {
  datatype Kind = Assign | LeftBrace | RightBrace | LeftParenthesis | RightParenthesis | LeftBracket | RightBracket
      | And | Or | Newline | Illegal | Other

  // What the formatter uses of a token.
  datatype LexToken = LexToken(kind: Kind, line: int)

  /** Scope depth, group depth, per open brace whether it opens a collection literal, last token kind. */
  datatype State = State(depth: nat, group: nat, braceIsLiteral: seq<bool>, previous: Kind)

  const START := State(0, 0, [], Other)

  function Less(n: nat): nat { if n > 0 then n - 1 else 0 }

  function Close(s: State, kind: Kind): State {
    match kind
    case RightBrace =>
      var n := |s.braceIsLiteral|;
      if n == 0 then s.(depth := Less(s.depth))
      else if s.braceIsLiteral[n - 1] then s.(group := Less(s.group), braceIsLiteral := s.braceIsLiteral[..n - 1])
      else s.(depth := Less(s.depth), braceIsLiteral := s.braceIsLiteral[..n - 1])
    case RightParenthesis | RightBracket => s.(group := Less(s.group))
    case _ => s
  }

  function Open(s: State, kind: Kind): State {
    match kind
    case LeftBrace =>
      if s.previous == Assign then s.(group := s.group + 1, braceIsLiteral := s.braceIsLiteral + [true])
      else s.(depth := s.depth + 1, braceIsLiteral := s.braceIsLiteral + [false])
    case LeftParenthesis | LeftBracket => s.(group := s.group + 1)
    case _ => s
  }

  predicate OnLines(token: LexToken, maximumLine: nat) {
    token.kind != Newline && 1 <= token.line <= maximumLine
  }

  /** The state after the first k tokens. */
  function Run(tokens: seq<LexToken>, maximumLine: nat, k: nat): State
    requires k <= |tokens|
  {
    if k == 0 then START
    else
      var s, token := Run(tokens, maximumLine, k - 1), tokens[k - 1];
      if token.kind == Newline then s
      else if !OnLines(token, maximumLine) then s.(previous := token.kind)
      else Open(Close(s, token.kind), token.kind).(previous := token.kind)
  }

  /** The number of open braces that are scopes. */
  function Scopes(braceIsLiteral: seq<bool>): nat {
    if braceIsLiteral == [] then 0
    else Scopes(braceIsLiteral[..|braceIsLiteral| - 1]) + if braceIsLiteral[|braceIsLiteral| - 1] then 0 else 1
  }

  // The depth is the number of open scope braces, however unbalanced the parentheses are.
  lemma {:induction false} DepthIsScopes(tokens: seq<LexToken>, maximumLine: nat, k: nat)
    requires k <= |tokens|
    ensures var s := Run(tokens, maximumLine, k); s.depth == Scopes(s.braceIsLiteral)
  {
    if k > 0 {
      DepthIsScopes(tokens, maximumLine, k - 1);
      var s := Run(tokens, maximumLine, k - 1);
      assert (s.braceIsLiteral + [true])[..|s.braceIsLiteral|] == s.braceIsLiteral;
      assert (s.braceIsLiteral + [false])[..|s.braceIsLiteral|] == s.braceIsLiteral;
    }
  }

  /** The tokens before the first illegal one. */
  function Legal(tokens: seq<LexToken>): (n: nat)
    ensures n <= |tokens|
  {
    if tokens == [] || tokens[0].kind == Illegal then 0 else 1 + Legal(tokens[1..])
  }

  lemma {:induction false} LegalEnds(tokens: seq<LexToken>, k: nat)
    requires k <= |tokens| && forall i :: 0 <= i < k ==> tokens[i].kind != Illegal
    ensures k <= Legal(tokens) && (k == |tokens| || tokens[k].kind == Illegal ==> Legal(tokens) == k)
  {
    if k > 0 {
      LegalEnds(tokens[1..], k - 1);
    }
  }

  // ---------- Lines ----------

  /** The first of the first k tokens on `line`, or -1. */
  function FirstOn(tokens: seq<LexToken>, k: nat, line: nat): (f: int)
    requires k <= |tokens|
    ensures -1 <= f < k && (f >= 0 ==> tokens[f].line == line)
  {
    if k == 0 then -1
    else
      var f := FirstOn(tokens, k - 1, line);
      if f < 0 && tokens[k - 1].kind != Newline && tokens[k - 1].line == line then k - 1 else f
  }

  function LastOn(tokens: seq<LexToken>, k: nat, line: nat): (f: int)
    requires k <= |tokens|
    ensures -1 <= f < k && (f >= 0 ==> tokens[f].line == line)
    ensures f >= 0 <==> FirstOn(tokens, k, line) >= 0
  {
    if k == 0 then -1
    else if tokens[k - 1].kind != Newline && tokens[k - 1].line == line then k - 1
    else LastOn(tokens, k - 1, line)
  }

  /** The scope depth at which a line with tokens stands: a closing brace is already outside. */
  function DepthAtFirst(tokens: seq<LexToken>, maximumLine: nat, f: nat): nat
    requires f < |tokens|
  {
    Close(Run(tokens, maximumLine, f), tokens[f].kind).depth
  }

  /** The state after the last line up to `line` that has tokens. */
  function Carried(tokens: seq<LexToken>, maximumLine: nat, line: nat): State {
    if line == 0 then START
    else
      var last := LastOn(tokens, Legal(tokens), line);
      if last >= 0 then Run(tokens, maximumLine, last + 1) else Carried(tokens, maximumLine, line - 1)
  }

  function DepthOf(tokens: seq<LexToken>, maximumLine: nat, line: nat): nat
    requires line > 0
  {
    var first := FirstOn(tokens, Legal(tokens), line);
    if first >= 0 then DepthAtFirst(tokens, maximumLine, first) else Carried(tokens, maximumLine, line - 1).depth
  }

  function GroupOf(tokens: seq<LexToken>, maximumLine: nat, line: nat): nat
    requires line > 0
  {
    var first := FirstOn(tokens, Legal(tokens), line);
    if first >= 0 then Run(tokens, maximumLine, first).group else Carried(tokens, maximumLine, line - 1).group
  }

  predicate IsOperator(tokens: seq<LexToken>, index: int)
    requires index < |tokens|
  {
    index >= 0 && (tokens[index].kind == And || tokens[index].kind == Or)
  }

  /** Something other than a scope is still open, or a boolean operator joins the line to the one before. */
  predicate IsContinuation(tokens: seq<LexToken>, maximumLine: nat, line: nat)
    requires line > 0
  {
    var n := Legal(tokens);
    || GroupOf(tokens, maximumLine, line) > 0
    || IsOperator(tokens, FirstOn(tokens, n, line))
    || (line > 1 && IsOperator(tokens, LastOn(tokens, n, line - 1)))
  }

  // Room for lines that are not there changes nothing.
  lemma {:induction false} RunIgnoresRoom(tokens: seq<LexToken>, a: nat, b: nat, k: nat)
    requires k <= |tokens|
    requires forall i :: 0 <= i < |tokens| ==> 1 <= tokens[i].line <= a && tokens[i].line <= b
    ensures Run(tokens, a, k) == Run(tokens, b, k)
  {
    if k > 0 {
      RunIgnoresRoom(tokens, a, b, k - 1);
    }
  }

  lemma {:induction false} CarriedIgnoresRoom(tokens: seq<LexToken>, a: nat, b: nat, line: nat)
    requires forall i :: 0 <= i < |tokens| ==> 1 <= tokens[i].line <= a && tokens[i].line <= b
    ensures Carried(tokens, a, line) == Carried(tokens, b, line)
  {
    if line > 0 {
      var last := LastOn(tokens, Legal(tokens), line);
      if last >= 0 {
        RunIgnoresRoom(tokens, a, b, last + 1);
      } else {
        CarriedIgnoresRoom(tokens, a, b, line - 1);
      }
    }
  }

  lemma TablesIgnoreRoom(tokens: seq<LexToken>, a: nat, b: nat, line: nat)
    requires forall i :: 0 <= i < |tokens| ==> 1 <= tokens[i].line <= a && tokens[i].line <= b
    requires line > 0
    ensures DepthOf(tokens, a, line) == DepthOf(tokens, b, line)
    ensures IsContinuation(tokens, a, line) == IsContinuation(tokens, b, line)
  {
    var first := FirstOn(tokens, Legal(tokens), line);
    if first >= 0 {
      RunIgnoresRoom(tokens, a, b, first);
    }
    CarriedIgnoresRoom(tokens, a, b, line - 1);
  }
}
