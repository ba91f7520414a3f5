/** What the tables say of a line, read off the tokens: how many scopes stand open at its start, and
    whether it continues a statement. */
module FmtMeaning {
  import opened FmtTables
  import opened FmtBrackets

  // ---------- Depth ----------

  /** The entries of a stack of braces that open a scope. */
  ghost function ScopesOn(tokens: seq<LexToken>, stack: seq<nat>): (scopes: set<nat>) {
    set i: nat | i in stack && i <= |tokens| && !AfterAssign(tokens, i)
  }

  /** The stack ascends, and the flags tell which of its braces follow an assignment. */
  ghost predicate IsFlagged(tokens: seq<LexToken>, stack: seq<nat>, braceIsLiteral: seq<bool>) {
    && (forall x, y :: 0 <= x < y < |stack| ==> stack[x] < stack[y])
    && |braceIsLiteral| == |stack|
    && (forall x :: 0 <= x < |stack| ==> stack[x] <= |tokens| && braceIsLiteral[x] == AfterAssign(tokens, stack[x]))
  }

  lemma ScopeStep(tokens: seq<LexToken>, stack: seq<nat>, braceIsLiteral: seq<bool>, n: nat)
    requires IsFlagged(tokens, stack, braceIsLiteral) && |stack| == n + 1
    ensures IsFlagged(tokens, stack[..n], braceIsLiteral[..n]) && stack[n] !in ScopesOn(tokens, stack[..n])
    ensures ScopesOn(tokens, stack)
            == ScopesOn(tokens, stack[..n]) + if braceIsLiteral[n] then {} else {stack[n]}
  {
    hide AfterAssign;
    forall i: nat ensures i in stack <==> i in stack[..n] || i == stack[n] {
      if i in stack {
        var x :| 0 <= x < |stack| && stack[x] == i;
        assert x < n ==> stack[..n][x] == i;
      }
    }
  }

  lemma {:induction false} ScopesCounted(tokens: seq<LexToken>, stack: seq<nat>, braceIsLiteral: seq<bool>)
    requires IsFlagged(tokens, stack, braceIsLiteral)
    ensures |ScopesOn(tokens, stack)| == Scopes(braceIsLiteral)
    decreases |stack|
  {
    if stack != [] {
      hide IsFlagged, ScopesOn;
      var n := |stack| - 1;
      assert |braceIsLiteral| == n + 1 by {
        FlagForEach(tokens, stack, braceIsLiteral);
      }
      ScopeStep(tokens, stack, braceIsLiteral, n);
      ScopesCounted(tokens, stack[..n], braceIsLiteral[..n]);
    }
  }

  lemma FlagForEach(tokens: seq<LexToken>, stack: seq<nat>, braceIsLiteral: seq<bool>)
    requires IsFlagged(tokens, stack, braceIsLiteral)
    ensures |braceIsLiteral| == |stack|
  {
  }

  // The depth after k tokens is the number of scopes that are open there.
  lemma DepthIsEnclosing(tokens: seq<LexToken>, maximumLine: nat, k: nat)
    requires k <= |tokens| && OnSource(tokens, maximumLine)
    ensures Run(tokens, maximumLine, k).depth == |Enclosing(tokens, k, k)|
  {
    hide AfterAssign, StillOpen, Openers, Run;
    var s, stack := Run(tokens, maximumLine, k), Openers(BraceSteps(tokens), k);
    RunTracks(tokens, maximumLine, k);
    OpenersAreOpen(BraceSteps(tokens), k);
    DepthIsScopes(tokens, maximumLine, k);
    ScopesCounted(tokens, stack, s.braceIsLiteral);
    forall i: nat ensures i in ScopesOn(tokens, stack) <==> i in Enclosing(tokens, k, k) {
      OpenIffOpener(BraceSteps(tokens), i, k);
      if StillOpen(BraceSteps(tokens), i, k) {
        OpenIsBefore(BraceSteps(tokens), i, k);
      }
    }
    assert ScopesOn(tokens, stack) == Enclosing(tokens, k, k);
  }

  lemma OpenIsBefore(steps: seq<Step>, i: nat, k: nat)
    requires k <= |steps| && StillOpen(steps, i, k)
    ensures i < k
  {
  }

  // A closing brace is already outside the scope it closes.
  lemma DepthAtIsEnclosing(tokens: seq<LexToken>, maximumLine: nat, f: nat)
    requires f < |tokens| && OnSource(tokens, maximumLine) && tokens[f].kind != Newline
    ensures DepthAtFirst(tokens, maximumLine, f) == |Enclosing(tokens, f, f + 1)|
  {
    if tokens[f].kind == RightBrace {
      DepthIsEnclosing(tokens, maximumLine, f + 1);
      assert Enclosing(tokens, f + 1, f + 1) == Enclosing(tokens, f, f + 1) by {
        hide AfterAssign, Sum;
      }
    } else {
      DepthIsEnclosing(tokens, maximumLine, f);
      EnclosingStays(tokens, f);
    }
  }

  lemma EnclosingStays(tokens: seq<LexToken>, f: nat)
    requires f < |tokens| && tokens[f].kind != RightBrace
    ensures Enclosing(tokens, f, f + 1) == Enclosing(tokens, f, f)
  {
    hide AfterAssign;
    var steps := BraceSteps(tokens);
    forall i: nat | i < f ensures StillOpen(steps, i, f + 1) <==> StillOpen(steps, i, f) {
      assert Sum(steps, i, f + 1) == Sum(steps, i, f) + steps[f];
    }
  }

  // Something other than a scope is open exactly when the group depth is not 0.
  lemma GroupIsInside(tokens: seq<LexToken>, maximumLine: nat, k: nat)
    requires k <= |tokens| && OnSource(tokens, maximumLine)
    ensures Run(tokens, maximumLine, k).group > 0 <==> InsideGroup(tokens, k)
  {
    hide StillOpen, Openers, Run, GroupSteps;
    var stack := Openers(GroupSteps(tokens), k);
    RunTracks(tokens, maximumLine, k);
    if stack != [] {
      OpenIffOpener(GroupSteps(tokens), stack[0], k);
    }
    if InsideGroup(tokens, k) {
      var i: nat :| StillOpen(GroupSteps(tokens), i, k);
      OpenIffOpener(GroupSteps(tokens), i, k);
    }
  }

  // ---------- Lines ----------

  predicate StandsOn(token: LexToken, line: nat) {
    token.kind != Newline && token.line == line
  }

  /** The tokens that count: those before the first illegal one. */
  ghost predicate IsLegalEnd(tokens: seq<LexToken>, n: nat) {
    && n <= |tokens| && (forall i :: 0 <= i < n ==> tokens[i].kind != Illegal)
    && (n < |tokens| ==> tokens[n].kind == Illegal)
  }

  /** Token f is the first of the first n on the line. */
  ghost predicate Leads(tokens: seq<LexToken>, n: nat, f: nat, line: nat)
    requires n <= |tokens|
  {
    f < n && StandsOn(tokens[f], line) && forall i :: 0 <= i < f ==> !StandsOn(tokens[i], line)
  }

  /** Token l is the last of the first n on the line. */
  ghost predicate Trails(tokens: seq<LexToken>, n: nat, l: nat, line: nat)
    requires n <= |tokens|
  {
    l < n && StandsOn(tokens[l], line) && forall i :: l < i < n ==> !StandsOn(tokens[i], line)
  }

  ghost predicate IsBare(tokens: seq<LexToken>, n: nat, line: nat)
    requires n <= |tokens|
  {
    forall i :: 0 <= i < n ==> !StandsOn(tokens[i], line)
  }

  ghost predicate BareBetween(tokens: seq<LexToken>, n: nat, earlier: int, line: nat)
    requires n <= |tokens|
  {
    forall m: nat :: earlier < m <= line ==> IsBare(tokens, n, m)
  }

  /** The k-th token ends a line before this one, and no line from there to this one has tokens. */
  ghost predicate EndsBefore(tokens: seq<LexToken>, n: nat, line: nat, k: nat, earlier: nat)
    requires n <= |tokens|
  {
    earlier < line && k > 0 && Trails(tokens, n, k - 1, earlier) && BareBetween(tokens, n, earlier, line)
  }

  /** The line starts after k of the first n tokens: before its own first token, and a line without
      tokens where the last line with tokens ends, or at the start of the source. */
  ghost predicate StartsAt(tokens: seq<LexToken>, n: nat, line: nat, k: nat): (r: bool)
    requires n <= |tokens|
    ensures r ==> k <= n
  {
    || Leads(tokens, n, k, line)
    || (exists earlier: nat :: EndsBefore(tokens, n, line, k, earlier))
    || (k == 0 && BareBetween(tokens, n, -1, line))
  }

  /** The scopes around a line that starts after k tokens: those a brace before it opened and none
      before it, nor the one it begins with, closed. */
  ghost function ScopesAround(tokens: seq<LexToken>, n: nat, line: nat, k: nat): (scopes: set<nat>)
    requires n <= |tokens| && StartsAt(tokens, n, line, k)
  {
    Enclosing(tokens, k, if Leads(tokens, n, k, line) then k + 1 else k)
  }

  predicate Joins(kind: Kind) {
    kind == And || kind == Or
  }

  /** Inside a parenthesis, a bracket or a collection at its start, or joined to the line before. */
  ghost predicate Continues(tokens: seq<LexToken>, n: nat, line: nat, k: nat)
    requires n <= |tokens| && line > 0 && StartsAt(tokens, n, line, k)
  {
    || InsideGroup(tokens, k)
    || (exists f: nat :: Leads(tokens, n, f, line) && Joins(tokens[f].kind))
    || (line > 1 && exists l: nat :: Trails(tokens, n, l, line - 1) && Joins(tokens[l].kind))
  }

  // ---------- The tables' lines ----------

  lemma {:induction false} LegalIsEnd(tokens: seq<LexToken>)
    ensures IsLegalEnd(tokens, Legal(tokens))
  {
    if tokens != [] && tokens[0].kind != Illegal {
      LegalIsEnd(tokens[1..]);
      forall i | 0 <= i < Legal(tokens) ensures tokens[i].kind != Illegal {
        assert i > 0 ==> tokens[i] == tokens[1..][i - 1];
      }
    }
  }

  lemma {:induction false} FirstLeads(tokens: seq<LexToken>, n: nat, line: nat)
    requires n <= |tokens|
    ensures var f := FirstOn(tokens, n, line);
            if f < 0 then IsBare(tokens, n, line) else Leads(tokens, n, f, line)
  {
    if n > 0 {
      FirstLeads(tokens, n - 1, line);
    }
  }

  lemma {:induction false} LastTrails(tokens: seq<LexToken>, n: nat, line: nat)
    requires n <= |tokens|
    ensures var l := LastOn(tokens, n, line);
            if l < 0 then IsBare(tokens, n, line) else Trails(tokens, n, l, line)
  {
    if n > 0 {
      LastTrails(tokens, n - 1, line);
    }
  }

  lemma LeadsIff(tokens: seq<LexToken>, n: nat, f: nat, line: nat)
    requires n <= |tokens|
    ensures Leads(tokens, n, f, line) <==> FirstOn(tokens, n, line) == f
  {
    FirstLeads(tokens, n, line);
  }

  lemma TrailsIff(tokens: seq<LexToken>, n: nat, l: nat, line: nat)
    requires n <= |tokens|
    ensures Trails(tokens, n, l, line) <==> LastOn(tokens, n, line) == l
  {
    LastTrails(tokens, n, line);
  }

  lemma LegalIsUnique(tokens: seq<LexToken>, n: nat)
    requires IsLegalEnd(tokens, n)
    ensures n == Legal(tokens)
  {
    LegalIsEnd(tokens);
  }

  // Every line starts somewhere.
  lemma {:induction false} StartOf(tokens: seq<LexToken>, n: nat, line: nat) returns (k: nat)
    requires n <= |tokens|
    ensures StartsAt(tokens, n, line, k)
    decreases line
  {
    FirstLeads(tokens, n, line);
    if FirstOn(tokens, n, line) >= 0 {
      k := FirstOn(tokens, n, line);
    } else if line == 0 {
      k := 0;
    } else {
      LastTrails(tokens, n, line - 1);
      if LastOn(tokens, n, line - 1) >= 0 {
        k := LastOn(tokens, n, line - 1) + 1;
        assert EndsBefore(tokens, n, line, k, line - 1);
      } else {
        k := StartOf(tokens, n, line - 1);
        BareStart(tokens, n, line, k);
      }
    }
  }

  lemma BareStart(tokens: seq<LexToken>, n: nat, line: nat, k: nat)
    requires n <= |tokens| && line > 0 && StartsAt(tokens, n, line - 1, k)
    requires IsBare(tokens, n, line) && IsBare(tokens, n, line - 1)
    ensures StartsAt(tokens, n, line, k)
  {
    var before: nat := line - 1;
    if earlier: nat :| EndsBefore(tokens, n, before, k, earlier) {
      assert EndsBefore(tokens, n, line, k, earlier);
    }
  }

  // What is carried over the lines without tokens is the state where they stand.
  lemma {:induction false} CarriedFrom(tokens: seq<LexToken>, maximumLine: nat, line: nat, k: nat)
    requires OnSource(tokens, maximumLine)
    requires StartsAt(tokens, Legal(tokens), line + 1, k) && IsBare(tokens, Legal(tokens), line + 1)
    ensures k <= |tokens| && Carried(tokens, maximumLine, line) == Run(tokens, maximumLine, k)
    decreases line
  {
    var n, next := Legal(tokens), line + 1;
    LastTrails(tokens, n, line);
    if earlier: nat :| EndsBefore(tokens, n, next, k, earlier) {
      TrailsIff(tokens, n, k - 1, earlier);
      assert earlier > 0;
      if earlier < line {
        assert IsBare(tokens, n, line) && EndsBefore(tokens, n, line, k, earlier);
        CarriedFrom(tokens, maximumLine, line - 1, k);
      }
    } else if line > 0 {
      assert IsBare(tokens, n, line) && BareBetween(tokens, n, -1, line);
      CarriedFrom(tokens, maximumLine, line - 1, k);
    }
  }

  /** The depth of a line is the number of scopes around it. */
  lemma DepthMeans(tokens: seq<LexToken>, maximumLine: nat, n: nat, line: nat, k: nat)
    requires OnSource(tokens, maximumLine) && IsLegalEnd(tokens, n) && line > 0 && StartsAt(tokens, n, line, k)
    ensures DepthOf(tokens, maximumLine, line) == |ScopesAround(tokens, n, line, k)|
  {
    hide AfterAssign, StillOpen, Run, Close;
    LegalIsUnique(tokens, n);
    FirstLeads(tokens, n, line);
    LeadsIff(tokens, n, k, line);
    if Leads(tokens, n, k, line) {
      DepthAtIsEnclosing(tokens, maximumLine, k);
    } else {
      StartIsBare(tokens, n, line, k);
      CarriedFrom(tokens, maximumLine, line - 1, k);
      DepthIsEnclosing(tokens, maximumLine, k);
    }
  }

  lemma StartIsBare(tokens: seq<LexToken>, n: nat, line: nat, k: nat)
    requires n <= |tokens| && StartsAt(tokens, n, line, k) && !Leads(tokens, n, k, line)
    ensures IsBare(tokens, n, line)
  {
  }

  /** The second table marks exactly the lines that continue a statement. */
  lemma ContinuationMeans(tokens: seq<LexToken>, maximumLine: nat, n: nat, line: nat, k: nat)
    requires OnSource(tokens, maximumLine) && IsLegalEnd(tokens, n) && line > 0 && StartsAt(tokens, n, line, k)
    ensures IsContinuation(tokens, maximumLine, line) <==> Continues(tokens, n, line, k)
  {
    hide InsideGroup, Run, Leads, Trails, Close;
    LegalIsUnique(tokens, n);
    GroupMeans(tokens, maximumLine, n, line, k);
    forall f: nat ensures Leads(tokens, n, f, line) <==> FirstOn(tokens, n, line) == f {
      LeadsIff(tokens, n, f, line);
    }
    var before: nat := line - 1;
    forall l: nat ensures Trails(tokens, n, l, before) <==> LastOn(tokens, n, before) == l {
      TrailsIff(tokens, n, l, before);
    }
  }

  lemma GroupMeans(tokens: seq<LexToken>, maximumLine: nat, n: nat, line: nat, k: nat)
    requires OnSource(tokens, maximumLine) && n == Legal(tokens) && line > 0 && StartsAt(tokens, n, line, k)
    ensures GroupOf(tokens, maximumLine, line) > 0 <==> InsideGroup(tokens, k)
  {
    hide InsideGroup, Run;
    FirstLeads(tokens, n, line);
    LeadsIff(tokens, n, k, line);
    if !Leads(tokens, n, k, line) {
      StartIsBare(tokens, n, line, k);
      CarriedFrom(tokens, maximumLine, line - 1, k);
    }
    GroupIsInside(tokens, maximumLine, k);
  }
}
