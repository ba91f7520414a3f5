/** A tree the parser returns has exactly the consumed tokens as its yield and respects the
    precedence table; every such tree within the limits is found from its yield, so there is one. */
module PrattTheory {
  import opened Expressions
  import opened Pratt

  /** The tokens numbered from .. to - 1. */
  function Slice(tokens: seq<Token>, from: nat, to: nat): (r: seq<Token>)
    requires from <= to
    ensures |r| == to - from
  {
    seq(to - from, i requires 0 <= i < to - from => At(tokens, from + i))
  }

  lemma SliceJoins(tokens: seq<Token>, from: nat, mid: nat, to: nat)
    requires from <= mid <= to
    ensures Slice(tokens, from, mid) + Slice(tokens, mid, to) == Slice(tokens, from, to)
  {
  }

  lemma SliceOne(tokens: seq<Token>, at: nat)
    ensures Slice(tokens, at, at + 1) == [At(tokens, at)]
  {
  }

  // ---------- Soundness ----------

  /** The tree was read from tokens `from` to r.at, respects the table above `precedence`, and the
      next token does not belong to its last operand. */
  ghost predicate ReadFrom(tokens: seq<Token>, from: nat, r: Parsed, precedence: nat) {
    && from <= r.at && Yield(r.tree) == Slice(tokens, from, r.at + 1) && Respects(r.tree, precedence)
    && Precedence(At(tokens, r.at + 1)) <= RightEdge(r.tree)
  }

  // Each way of building a tree, from what its parts were read from.
  lemma ReadLeaf(tokens: seq<Token>, at: nat, precedence: nat)
    requires At(tokens, at).Operand?
    ensures ReadFrom(tokens, at, Parsed(Leaf(At(tokens, at)), at), precedence)
  {
    SliceOne(tokens, at);
  }

  lemma ReadPrefix(tokens: seq<Token>, at: nat, operand: Parsed, precedence: nat)
    requires IsPrefix(At(tokens, at)) && ReadFrom(tokens, at + 1, operand, PREFIX)
    requires Precedence(At(tokens, operand.at + 1)) <= PREFIX
    ensures ReadFrom(tokens, at, Parsed(Prefix(At(tokens, at), operand.tree), operand.at), precedence)
  {
    hide Slice;
    SliceOne(tokens, at);
    SliceJoins(tokens, at, at + 1, operand.at + 1);
  }

  lemma ReadParenthesized(tokens: seq<Token>, at: nat, inner: Parsed, precedence: nat)
    requires At(tokens, at) == Symbol(LeftParenthesis) && ReadFrom(tokens, at + 1, inner, LOWEST)
    requires At(tokens, inner.at + 1) == Symbol(RightParenthesis)
    ensures ReadFrom(tokens, at, Parsed(Parenthesized(inner.tree), inner.at + 1), precedence)
  {
    hide Slice;
    SliceOne(tokens, at);
    SliceOne(tokens, inner.at + 1);
    SliceJoins(tokens, at, at + 1, inner.at + 1);
    SliceJoins(tokens, at, inner.at + 1, inner.at + 2);
  }

  lemma ReadInfix(tokens: seq<Token>, from: nat, left: Parsed, right: Parsed, precedence: nat)
    requires ReadFrom(tokens, from, left, precedence)
    requires IsBinary(At(tokens, left.at + 1)) && precedence < Precedence(At(tokens, left.at + 1))
    requires ReadFrom(tokens, left.at + 2, right, Precedence(At(tokens, left.at + 1)))
    requires Precedence(At(tokens, right.at + 1)) <= Precedence(At(tokens, left.at + 1))
    ensures ReadFrom(tokens, from, Parsed(Infix(left.tree, At(tokens, left.at + 1), right.tree), right.at), precedence)
  {
    hide Slice;
    SliceOne(tokens, left.at + 1);
    SliceJoins(tokens, from, left.at + 1, left.at + 2);
    SliceJoins(tokens, from, left.at + 2, right.at + 1);
  }

  lemma ReadPostfix(tokens: seq<Token>, from: nat, left: Parsed, precedence: nat)
    requires ReadFrom(tokens, from, left, precedence) && precedence < Precedence(At(tokens, left.at + 1))
    ensures var token := At(tokens, left.at + 1);
            && (IsPostfix(token) ==> ReadFrom(tokens, from, Parsed(Postfix(left.tree, token), left.at + 1), precedence))
            && (token == Symbol(Dot) ==>
                ReadFrom(tokens, from, Parsed(Member(left.tree, At(tokens, left.at + 2)), left.at + 2), precedence))
  {
    hide Slice;
    SliceOne(tokens, left.at + 1);
    SliceOne(tokens, left.at + 2);
    SliceJoins(tokens, from, left.at + 1, left.at + 2);
    SliceJoins(tokens, from, left.at + 2, left.at + 3);
    if At(tokens, left.at + 1) == Symbol(Dot) {
      assert [Symbol(Dot), At(tokens, left.at + 2)] == [Symbol(Dot)] + [At(tokens, left.at + 2)];
    }
  }

  lemma ReadIndex(tokens: seq<Token>, from: nat, left: Parsed, index: Parsed, precedence: nat)
    requires ReadFrom(tokens, from, left, precedence) && precedence < INDEX
    requires At(tokens, left.at + 1) == Symbol(LeftBracket)
    requires ReadFrom(tokens, left.at + 2, index, LOWEST) && At(tokens, index.at + 1) == Symbol(RightBracket)
    ensures ReadFrom(tokens, from, Parsed(Index(left.tree, index.tree), index.at + 1), precedence)
  {
    hide Slice;
    SliceOne(tokens, left.at + 1);
    SliceOne(tokens, index.at + 1);
    SliceJoins(tokens, from, left.at + 1, left.at + 2);
    SliceJoins(tokens, from, left.at + 2, index.at + 1);
    SliceJoins(tokens, from, index.at + 1, index.at + 2);
  }

  lemma ReadEmptyCall(tokens: seq<Token>, from: nat, left: Parsed, precedence: nat)
    requires ReadFrom(tokens, from, left, precedence) && precedence < Precedence(Symbol(LeftParenthesis))
    requires At(tokens, left.at + 1) == Symbol(LeftParenthesis)
    ensures CallSoFar(tokens, from, left.at + 1, precedence, left.tree, [])
    ensures At(tokens, left.at + 2) == Symbol(RightParenthesis) ==>
              ReadFrom(tokens, from, Parsed(Call(left.tree, []), left.at + 2), precedence)
  {
    hide Slice;
    SliceOne(tokens, left.at + 1);
    SliceOne(tokens, left.at + 2);
    SliceJoins(tokens, from, left.at + 1, left.at + 2);
    SliceJoins(tokens, from, left.at + 2, left.at + 3);
  }

  lemma {:induction false} ExpressionSound(tokens: seq<Token>, limit: nat, at: nat, depth: nat, precedence: nat)
    ensures var r := Expression(tokens, limit, at, depth, precedence);
            IsComplete(r.tree) ==> ReadFrom(tokens, at, r, precedence) && Precedence(At(tokens, r.at + 1)) <= precedence
    decreases limit - depth, 2, 0
  {
    if depth + 1 <= limit {
      var left := PrefixExpression(tokens, limit, at, depth + 1);
      PrefixSound(tokens, limit, at, depth + 1, precedence);
      if !left.tree.Missing? {
        ChainSound(tokens, limit, at, left.at, depth + 1, precedence, left.tree, 0);
      }
    }
  }

  lemma {:induction false} PrefixSound(tokens: seq<Token>, limit: nat, at: nat, depth: nat, precedence: nat)
    requires depth <= limit
    ensures var r := PrefixExpression(tokens, limit, at, depth);
            IsComplete(r.tree) ==> ReadFrom(tokens, at, r, precedence)
    decreases limit - depth, 6, 0
  {
    hide ReadFrom, Expression;
    var token := At(tokens, at);
    if token.Operand? {
      ReadLeaf(tokens, at, precedence);
    } else if IsPrefix(token) {
      ExpressionSound(tokens, limit, at + 1, depth, PREFIX);
      var operand := Expression(tokens, limit, at + 1, depth, PREFIX);
      if IsComplete(operand.tree) {
        ReadPrefix(tokens, at, operand, precedence);
      }
    } else if token == Symbol(LeftParenthesis) {
      ExpressionSound(tokens, limit, at + 1, depth, LOWEST);
      var inner := Expression(tokens, limit, at + 1, depth, LOWEST);
      if IsComplete(inner.tree) && At(tokens, inner.at + 1) == Symbol(RightParenthesis) {
        ReadParenthesized(tokens, at, inner, precedence);
      }
    }
  }

  lemma {:induction false} ChainSound(tokens: seq<Token>, limit: nat, from: nat, at: nat, depth: nat, precedence: nat,
                                      left: Tree, n: nat)
    requires depth <= limit && n <= limit && from <= at
    requires IsComplete(left) ==> ReadFrom(tokens, from, Parsed(left, at), precedence)
    ensures var r := Chain(tokens, limit, at, depth, precedence, left, n);
            IsComplete(r.tree) ==>
              ReadFrom(tokens, from, r, precedence) && Precedence(At(tokens, r.at + 1)) <= precedence
    decreases limit - depth, 5, limit - n
  {
    hide ReadFrom, Link;
    if precedence < Precedence(At(tokens, at + 1)) && n + 1 <= limit {
      var next := Link(tokens, limit, at + 1, depth, left);
      LinkSound(tokens, limit, from, at, depth, precedence, left);
      if !next.tree.Missing? {
        ChainSound(tokens, limit, from, next.at, depth, precedence, next.tree, n + 1);
      }
    }
  }

  lemma {:induction false} LinkSound(tokens: seq<Token>, limit: nat, from: nat, at: nat, depth: nat, precedence: nat,
                                     left: Tree)
    requires depth <= limit && from <= at && precedence < Precedence(At(tokens, at + 1))
    requires IsComplete(left) ==> ReadFrom(tokens, from, Parsed(left, at), precedence)
    ensures var r := Link(tokens, limit, at + 1, depth, left);
            IsComplete(r.tree) ==> ReadFrom(tokens, from, r, precedence)
    decreases limit - depth, 4, 1
  {
    hide ReadFrom, CallSoFar, Expression, Arguments;
    var token := At(tokens, at + 1);
    if IsBinary(token) {
      ExpressionSound(tokens, limit, at + 2, depth, Precedence(token));
      var right := Expression(tokens, limit, at + 2, depth, Precedence(token));
      if IsComplete(left) && IsComplete(right.tree) {
        ReadInfix(tokens, from, Parsed(left, at), right, precedence);
      }
    } else if IsPostfix(token) || token == Symbol(Dot) {
      if IsComplete(left) {
        ReadPostfix(tokens, from, Parsed(left, at), precedence);
      }
    } else {
      BracketSound(tokens, limit, from, at, depth, precedence, left);
    }
  }

  lemma {:induction false} BracketSound(tokens: seq<Token>, limit: nat, from: nat, at: nat, depth: nat, precedence: nat,
                                        left: Tree)
    requires depth <= limit && from <= at && precedence < Precedence(At(tokens, at + 1))
    requires At(tokens, at + 1) == Symbol(LeftBracket) || At(tokens, at + 1) == Symbol(LeftParenthesis)
    requires IsComplete(left) ==> ReadFrom(tokens, from, Parsed(left, at), precedence)
    ensures var r := Link(tokens, limit, at + 1, depth, left);
            IsComplete(r.tree) ==> ReadFrom(tokens, from, r, precedence)
    decreases limit - depth, 4, 0
  {
    hide ReadFrom, CallSoFar, Expression, Arguments, Yield, Respects;
    if IsComplete(left) && At(tokens, at + 1) == Symbol(LeftParenthesis) {
      ReadEmptyCall(tokens, from, Parsed(left, at), precedence);
    }
    if At(tokens, at + 1) == Symbol(LeftBracket) {
      ExpressionSound(tokens, limit, at + 2, depth, LOWEST);
      var index := Expression(tokens, limit, at + 2, depth, LOWEST);
      if IsComplete(left) && IsComplete(index.tree) && At(tokens, index.at + 1) == Symbol(RightBracket) {
        ReadIndex(tokens, from, Parsed(left, at), index, precedence);
      }
    } else if At(tokens, at + 2) != Symbol(RightParenthesis) {
      ArgumentsSound(tokens, limit, from, at + 1, depth, precedence, left, []);
    }
  }

  /** The call so far: its callee, '(' and the arguments before the token numbered `at`. */
  ghost predicate CallSoFar(tokens: seq<Token>, from: nat, at: nat, precedence: nat, left: Tree, read: seq<Tree>) {
    && from <= at && Respects(Call(left, read), precedence)
    && Slice(tokens, from, at + 1)
        == Yield(left) + [Symbol(LeftParenthesis)] + YieldList(read, |read|)
            + (if read == [] then [] else [Symbol(Comma)])
  }

  predicate AllComplete(trees: seq<Tree>) {
    forall i :: 0 <= i < |trees| ==> IsComplete(trees[i])
  }

  lemma AllCompleteGrows(read: seq<Tree>, last: Tree)
    ensures AllComplete(read + [last]) <==> AllComplete(read) && IsComplete(last)
  {
    var all := read + [last];
    assert all[|read|] == last;
    assert forall i :: 0 <= i < |read| ==> all[i] == read[i];
  }

  // One more argument; then a comma or the end of the call.
  lemma ReadArgument(tokens: seq<Token>, from: nat, at: nat, left: Tree, read: seq<Tree>, argument: Parsed,
                     precedence: nat)
    requires CallSoFar(tokens, from, at, precedence, left, read) && ReadFrom(tokens, at + 1, argument, LOWEST)
    ensures var read', end := read + [argument.tree], argument.at + 1;
            && (At(tokens, end) == Symbol(Comma) ==> CallSoFar(tokens, from, end, precedence, left, read'))
            && (At(tokens, end) == Symbol(RightParenthesis) ==>
                ReadFrom(tokens, from, Parsed(Call(left, read'), end), precedence))
  {
    var read' := read + [argument.tree];
    assert Respects(Call(left, read'), precedence);
    hide Respects;
    ArgumentTokens(tokens, from, at, left, read, argument);
  }

  lemma ArgumentTokens(tokens: seq<Token>, from: nat, at: nat, left: Tree, read: seq<Tree>, argument: Parsed)
    requires from <= at < argument.at + 1 && Slice(tokens, at + 1, argument.at + 1) == Yield(argument.tree)
    requires Slice(tokens, from, at + 1)
          == Yield(left) + [Symbol(LeftParenthesis)] + YieldList(read, |read|)
              + (if read == [] then [] else [Symbol(Comma)])
    ensures Slice(tokens, from, argument.at + 2)
         == Yield(left) + [Symbol(LeftParenthesis)] + YieldList(read + [argument.tree], |read| + 1)
             + [At(tokens, argument.at + 1)]
  {
    hide Slice, Yield, YieldList;
    var end := argument.at;
    SliceOne(tokens, end + 1);
    SliceJoins(tokens, from, at + 1, end + 1);
    SliceJoins(tokens, from, end + 1, end + 2);
    YieldListGrows(read, argument.tree);
  }

  lemma {:induction false} ArgumentsSound(tokens: seq<Token>, limit: nat, from: nat, at: nat, depth: nat,
                                          precedence: nat, left: Tree, read: seq<Tree>)
    requires depth <= limit && at < |tokens| && from <= at
    requires IsComplete(left) && AllComplete(read) ==> CallSoFar(tokens, from, at, precedence, left, read)
    ensures var r := Arguments(tokens, limit, at, depth, left, read);
            IsComplete(r.tree) ==> IsComplete(left) && AllComplete(read) && ReadFrom(tokens, from, r, precedence)
    decreases limit - depth, 3, |tokens| - at
  {
    hide ReadFrom, CallSoFar, Expression;
    var argument := Expression(tokens, limit, at + 1, depth, LOWEST);
    ExpressionSound(tokens, limit, at + 1, depth, LOWEST);
    AllCompleteGrows(read, argument.tree);
    if IsComplete(left) && AllComplete(read) && IsComplete(argument.tree) {
      ReadArgument(tokens, from, at, left, read, argument, precedence);
    }
    if At(tokens, argument.at + 1) == Symbol(Comma) {
      ArgumentsSound(tokens, limit, from, argument.at + 1, depth, precedence, left, read + [argument.tree]);
    }
  }

  lemma {:induction false} YieldListPrefix(read: seq<Tree>, more: seq<Tree>, n: nat)
    requires n <= |read|
    ensures YieldList(read + more, n) == YieldList(read, n)
    decreases n
  {
    if n > 1 {
      YieldListPrefix(read, more, n - 1);
    }
  }

  lemma YieldListGrows(read: seq<Tree>, last: Tree)
    ensures YieldList(read + [last], |read| + 1)
        == YieldList(read, |read|) + (if read == [] then [] else [Symbol(Comma)]) + Yield(last)
  {
    hide Yield;
    YieldListPrefix(read, [last], |read|);
    assert (read + [last])[|read|] == last;
  }
}
