/** Brackets read off a token stream by counting: which of them are open at a place. */
module FmtBrackets {
  import opened FmtTables

  // ---------- Counting ----------

  // 1 opens a bracket, -1 closes the one opened last.
  type Step = x: int | -1 <= x <= 1

  function Sum(steps: seq<Step>, i: nat, j: nat): int
    requires i <= j <= |steps|
  {
    if i == j then 0 else Sum(steps, i, j - 1) + steps[j - 1]
  }

  /** Step i opens a bracket, and more is opened than closed from there to every place up to k. */
  ghost predicate StillOpen(steps: seq<Step>, i: nat, k: nat)
    requires k <= |steps|
  {
    i < k && steps[i] == 1 && forall m :: i < m <= k ==> Sum(steps, i, m) > 0
  }

  /** The open brackets as a stack. */
  function Openers(steps: seq<Step>, k: nat): (stack: seq<nat>)
    requires k <= |steps|
  {
    if k == 0 then []
    else
      var stack := Openers(steps, k - 1);
      if steps[k - 1] == 1 then stack + [k - 1]
      else if steps[k - 1] == -1 && stack != [] then stack[..|stack| - 1]
      else stack
  }

  /** Every entry is open, in the order of opening, and as many brackets are as stand from it to the top. */
  ghost predicate IsStack(steps: seq<Step>, stack: seq<nat>, k: nat)
    requires k <= |steps|
  {
    && (forall x :: 0 <= x < |stack| ==> IsEntry(steps, stack[x], k, |stack| - x))
    && (forall x, y :: 0 <= x < y < |stack| ==> stack[x] < stack[y])
  }

  ghost predicate IsEntry(steps: seq<Step>, i: nat, k: nat, height: int)
    requires k <= |steps|
  {
    StillOpen(steps, i, k) && Sum(steps, i, k) == height
  }

  lemma EntryStep(steps: seq<Step>, i: nat, k: nat, height: int)
    requires k < |steps| && IsEntry(steps, i, k, height) && height + steps[k] > 0
    ensures i < k && IsEntry(steps, i, k + 1, height + steps[k])
  {
  }

  lemma {:induction false} OpenersAreOpen(steps: seq<Step>, k: nat)
    requires k <= |steps|
    ensures IsStack(steps, Openers(steps, k), k)
  {
    if k > 0 {
      OpenersAreOpen(steps, k - 1);
      var before, stack := Openers(steps, k - 1), Openers(steps, k);
      forall x | 0 <= x < |before|
        ensures before[x] < k - 1 && (x < |stack| ==> IsEntry(steps, stack[x], k, |stack| - x))
      {
        assert IsEntry(steps, before[x], k - 1, |before| - x);
        if x < |stack| {
          EntryStep(steps, before[x], k - 1, |before| - x);
        }
      }
      if steps[k - 1] == 1 {
        assert Sum(steps, k - 1, k) == Sum(steps, k - 1, k - 1) + 1;
        assert IsEntry(steps, k - 1, k, 1);
      }
    }
  }

  lemma {:induction false} OpenIsOpener(steps: seq<Step>, i: nat, k: nat)
    requires k <= |steps| && StillOpen(steps, i, k)
    ensures i in Openers(steps, k)
    decreases k
  {
    if i < k - 1 {
      OpenIsOpener(steps, i, k - 1);
      OpenersAreOpen(steps, k - 1);
      var x :| 0 <= x < |Openers(steps, k - 1)| && Openers(steps, k - 1)[x] == i;
      assert IsEntry(steps, i, k - 1, |Openers(steps, k - 1)| - x) && Sum(steps, i, k) > 0;
    }
  }

  // The stack holds what counting finds open.
  lemma OpenIffOpener(steps: seq<Step>, i: nat, k: nat)
    requires k <= |steps|
    ensures i in Openers(steps, k) <==> StillOpen(steps, i, k)
  {
    hide Openers;
    OpenersAreOpen(steps, k);
    var stack := Openers(steps, k);
    if i in stack {
      var x :| 0 <= x < |stack| && stack[x] == i;
      assert IsEntry(steps, stack[x], k, |stack| - x);
    }
    if StillOpen(steps, i, k) {
      OpenIsOpener(steps, i, k);
    }
  }

  // ---------- Braces, and what is no scope ----------

  function BraceSteps(tokens: seq<LexToken>): (steps: seq<Step>) {
    seq(|tokens|, i requires 0 <= i < |tokens| =>
      if tokens[i].kind == LeftBrace then 1 else if tokens[i].kind == RightBrace then -1 else 0)
  }

  /** The token before place i is an assignment, newlines aside. */
  ghost predicate AfterAssign(tokens: seq<LexToken>, i: nat)
    requires i <= |tokens|
  {
    exists p: nat :: p < i && tokens[p].kind == Assign && forall q :: p < q < i ==> tokens[q].kind == Newline
  }

  /** The brace at i closes one that opened a collection. */
  ghost predicate ClosesCollection(tokens: seq<LexToken>, i: nat)
    requires i < |tokens|
  {
    exists o: nat ::
      o < i && StillOpen(BraceSteps(tokens), o, i) && Sum(BraceSteps(tokens), o, i + 1) == 0 && AfterAssign(tokens, o)
  }

  /** Parentheses, brackets and the braces of collections, counted as brackets of one kind. */
  ghost function GroupSteps(tokens: seq<LexToken>): (steps: seq<Step>)
    ensures |steps| == |tokens|
  {
    seq(|tokens|, i requires 0 <= i < |tokens| => GroupStep(tokens, i))
  }

  ghost function GroupStep(tokens: seq<LexToken>, i: nat): Step
    requires i < |tokens|
  {
    match tokens[i].kind
    case LeftParenthesis | LeftBracket => 1
    case RightParenthesis | RightBracket => -1
    case LeftBrace => if AfterAssign(tokens, i) then 1 else 0
    case RightBrace => if ClosesCollection(tokens, i) then -1 else 0
    case _ => 0
  }

  /** The braces before `before` that open a scope and are not closed before `at`. */
  ghost function Enclosing(tokens: seq<LexToken>, before: nat, at: nat): (scopes: set<nat>)
    requires before <= at <= |tokens|
  {
    set i: nat | i < before && StillOpen(BraceSteps(tokens), i, at) && !AfterAssign(tokens, i)
  }

  ghost predicate InsideGroup(tokens: seq<LexToken>, at: nat)
    requires at <= |tokens|
  {
    exists i: nat :: StillOpen(GroupSteps(tokens), i, at)
  }

  // ---------- The state of the scan ----------

  ghost predicate OnSource(tokens: seq<LexToken>, maximumLine: nat) {
    forall i :: 0 <= i < |tokens| ==> 1 <= tokens[i].line <= maximumLine
  }

  /** Each open brace carries whether it follows an assignment, and the group depth counts the rest. */
  ghost predicate Tracks(tokens: seq<LexToken>, s: State, k: nat)
    requires k <= |tokens|
  {
    var stack := Openers(BraceSteps(tokens), k);
    && (s.previous == Assign <==> AfterAssign(tokens, k))
    && |s.braceIsLiteral| == |stack|
    && (forall x :: 0 <= x < |stack| ==> stack[x] < k && s.braceIsLiteral[x] == AfterAssign(tokens, stack[x]))
    && s.group == |Openers(GroupSteps(tokens), k)|
  }

  lemma {:induction false} RunTracks(tokens: seq<LexToken>, maximumLine: nat, k: nat)
    requires k <= |tokens| && OnSource(tokens, maximumLine)
    ensures Tracks(tokens, Run(tokens, maximumLine, k), k)
  {
    if k == 0 {
      NothingTracked(tokens);
    } else {
      hide Tracks, Close, Open;
      RunTracks(tokens, maximumLine, k - 1);
      var s, token := Run(tokens, maximumLine, k - 1), tokens[k - 1];
      if token.kind == Newline {
        NewlineTracked(tokens, s, k - 1);
      } else {
        TokenTracked(tokens, s, k - 1);
      }
    }
  }

  lemma NothingTracked(tokens: seq<LexToken>)
    ensures Tracks(tokens, START, 0)
  {
  }

  lemma NewlineTracked(tokens: seq<LexToken>, s: State, k: nat)
    requires k < |tokens| && tokens[k].kind == Newline && Tracks(tokens, s, k)
    ensures Tracks(tokens, s, k + 1)
  {
    AssignStep(tokens, k);
  }

  lemma TokenTracked(tokens: seq<LexToken>, s: State, k: nat)
    requires k < |tokens| && tokens[k].kind != Newline && Tracks(tokens, s, k)
    ensures Tracks(tokens, Open(Close(s, tokens[k].kind), tokens[k].kind).(previous := tokens[k].kind), k + 1)
  {
    hide AfterAssign, ClosesCollection;
    AssignStep(tokens, k);
    if tokens[k].kind == RightBrace {
      CollectionClosed(tokens, k);
    }
  }

  lemma AssignStep(tokens: seq<LexToken>, k: nat)
    requires k < |tokens|
    ensures AfterAssign(tokens, k + 1) <==>
              if tokens[k].kind == Newline then AfterAssign(tokens, k) else tokens[k].kind == Assign
  {
    if tokens[k].kind == Newline && AfterAssign(tokens, k) {
      var p: nat :| p < k && tokens[p].kind == Assign && forall q :: p < q < k ==> tokens[q].kind == Newline;
      assert p < k + 1;
    }
  }

  // A brace closes the last on the stack.
  lemma CollectionClosed(tokens: seq<LexToken>, k: nat)
    requires k < |tokens| && tokens[k].kind == RightBrace
    ensures var stack := Openers(BraceSteps(tokens), k);
            && (stack != [] ==> stack[|stack| - 1] < k)
            && (ClosesCollection(tokens, k) <==> stack != [] && AfterAssign(tokens, stack[|stack| - 1]))
  {
    hide AfterAssign, Openers;
    var steps := BraceSteps(tokens);
    var stack := Openers(steps, k);
    OpenersAreOpen(steps, k);
    if stack != [] {
      var top := stack[|stack| - 1];
      assert IsEntry(steps, top, k, 1);
      assert Sum(steps, top, k + 1) == 0;
    }
    if ClosesCollection(tokens, k) {
      var o: nat :| o < k && StillOpen(steps, o, k) && Sum(steps, o, k + 1) == 0 && AfterAssign(tokens, o);
      OpenIffOpener(steps, o, k);
      var x :| 0 <= x < |stack| && stack[x] == o;
      assert IsEntry(steps, stack[x], k, |stack| - x);
    }
  }
}
