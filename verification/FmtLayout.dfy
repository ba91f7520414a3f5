/** How the formatter lays a source out, told by its lines and tokens alone. */
module FmtLayout {
  import opened FmtTables
  import opened FmtBrackets
  import opened FmtMeaning
  import opened FmtLines
  import opened Formatter

  // ---------- Lines of each kind ----------

  ghost predicate Continued(tokens: seq<LexToken>, n: nat, line: nat)
    requires n <= |tokens| && line > 0
  {
    exists k: nat :: StartsAt(tokens, n, line, k) && Continues(tokens, n, line, k)
  }

  /** Neither blank nor inside a raw string. */
  predicate IsVisible(source: Source, i: nat)
    requires i < |source.lines|
  {
    Content(source.lines[i]) != "" && !InRaw(source, i + 1)
  }

  /** Line i takes its indentation from the scopes around it. The first n tokens count. */
  ghost predicate IsOrdinary(source: Source, n: nat, i: nat)
    requires n <= |source.tokens| && i < |source.lines|
    decreases i, 1
  {
    IsVisible(source, i) && !InComment(source, n, i) && !Continued(source.tokens, n, i + 1)
  }

  /** A line before i opened a block comment, which none since has closed. */
  ghost predicate InComment(source: Source, n: nat, i: nat)
    requires n <= |source.tokens| && i <= |source.lines|
    decreases i, 0
  {
    exists o: nat :: o < i && OpensComment(source, n, o) && Unclosed(source, o, i)
  }

  ghost predicate OpensComment(source: Source, n: nat, o: nat)
    requires n <= |source.tokens| && o < |source.lines|
    decreases o, 2
  {
    && IsOrdinary(source, n, o)
    && var content := Content(source.lines[o]);
       |content| >= 2 && content[0] == '/' && content[1] == '*' && !Closes(content, 2)
  }

  predicate Unclosed(source: Source, o: nat, i: nat)
    requires i <= |source.lines|
  {
    forall j :: o < j < i && IsVisible(source, j) ==> !Closes(Content(source.lines[j]), 0)
  }

  /** The last ordinary line before i. */
  ghost predicate IsMover(source: Source, n: nat, o: nat, i: nat)
    requires n <= |source.tokens| && i <= |source.lines|
  {
    o < i && IsOrdinary(source, n, o) && forall j :: o < j < i ==> !IsOrdinary(source, n, j)
  }

  // Inside a comment, that is the line that opened it.
  lemma CommentMovesWithOpener(source: Source, n: nat, o: nat, i: nat)
    requires n <= |source.tokens| && o < i <= |source.lines|
    requires OpensComment(source, n, o) && Unclosed(source, o, i)
    ensures IsMover(source, n, o, i) && InComment(source, n, i)
  {
    forall j | o < j < i ensures InComment(source, n, j) {
      assert Unclosed(source, o, j);
    }
  }

  // ---------- The layout ----------

  /** Blank lines are emptied and raw strings left alone. An ordinary line has four blanks for each
      scope around it; any other line moves as far as the last ordinary line before it did. */
  ghost predicate LaidOut(source: Source, n: nat, after: seq<string>, i: nat)
    requires n <= |source.tokens| && i < |source.lines| == |after|
  {
    var line := source.lines[i];
    var content := Content(line);
    if content == "" then after[i] == ""
    else if InRaw(source, i + 1) then after[i] == line
    else
      var leading: int := |after[i]| - |content|;
      && leading >= 0 && after[i][leading..] == content && (forall j :: 0 <= j < leading ==> after[i][j] == ' ')
      && if IsOrdinary(source, n, i) then
           forall k: nat {:trigger StartsAt(source.tokens, n, i + 1, k)} ::
             StartsAt(source.tokens, n, i + 1, k) ==> leading == 4 * |ScopesAround(source.tokens, n, i + 1, k)|
         else
           && (forall o: nat :: IsMover(source, n, o, i) ==>
                var moved := Leading(line) + Leading(after[o]) - Leading(source.lines[o]);
                leading == if moved < 0 then 0 else moved)
           && ((forall o :: 0 <= o < i ==> !IsOrdinary(source, n, o)) ==> leading == Leading(line))
  }

  // ---------- The formatter lays out ----------

  /** The shift with which the formatter meets line i. */
  function ShiftAt(source: Source, i: nat): Shift
    requires i <= |source.lines|
  {
    if i == 0 then UNSHIFTED else FormatLine(source, source.lines[i - 1], i, ShiftAt(source, i - 1)).1
  }

  /** How far the last ordinary line before i moves. */
  ghost function Moved(source: Source, n: nat, i: nat): int
    requires n <= |source.tokens| && i <= |source.lines|
  {
    if i == 0 then 0
    else if IsOrdinary(source, n, i - 1) then
      4 * DepthOf(source.tokens, source.maximumLine, i) - Leading(source.lines[i - 1])
    else Moved(source, n, i - 1)
  }

  ghost predicate IsSource(source: Source, n: nat) {
    OnSource(source.tokens, source.maximumLine) && IsLegalEnd(source.tokens, n) && |source.lines| <= source.maximumLine
  }

  lemma ContinuedMeans(source: Source, n: nat, line: nat)
    requires IsSource(source, n) && line > 0
    ensures IsContinuation(source.tokens, source.maximumLine, line) <==> Continued(source.tokens, n, line)
  {
    hide IsContinuation, Continues, StartsAt;
    var k := StartOf(source.tokens, n, line);
    forall k: nat | StartsAt(source.tokens, n, line, k)
      ensures IsContinuation(source.tokens, source.maximumLine, line) <==> Continues(source.tokens, n, line, k)
    {
      ContinuationMeans(source.tokens, source.maximumLine, n, line, k);
    }
  }

  lemma OpenerOf(source: Source, n: nat, i: nat) returns (o: nat)
    requires n <= |source.tokens| && i <= |source.lines| && InComment(source, n, i)
    ensures o < i && OpensComment(source, n, o) && Unclosed(source, o, i)
  {
    o :| o < i && OpensComment(source, n, o) && Unclosed(source, o, i);
  }

  lemma CommentStep(source: Source, n: nat, i: nat)
    requires n <= |source.tokens| && i < |source.lines|
    ensures InComment(source, n, i + 1) <==>
              || OpensComment(source, n, i)
              || (InComment(source, n, i) && !(IsVisible(source, i) && Closes(Content(source.lines[i]), 0)))
  {
    hide OpensComment, IsVisible, Closes;
    if InComment(source, n, i + 1) {
      var o := OpenerOf(source, n, i + 1);
      assert o < i ==> Unclosed(source, o, i);
    }
    if OpensComment(source, n, i) {
      assert Unclosed(source, i, i + 1);
    }
    if InComment(source, n, i) && !(IsVisible(source, i) && Closes(Content(source.lines[i]), 0)) {
      var o := OpenerOf(source, n, i);
      assert Unclosed(source, o, i + 1);
    }
  }

  ghost predicate Knows(source: Source, n: nat, i: nat, shift: Shift)
    requires n <= |source.tokens| && i <= |source.lines|
  {
    && shift.inBlockComment == InComment(source, n, i) && shift.continuationDelta == Moved(source, n, i)
    && (shift.inBlockComment ==> shift.blockCommentDelta == Moved(source, n, i))
  }

  lemma {:induction false} ShiftKnows(source: Source, n: nat, i: nat)
    requires IsSource(source, n) && i <= |source.lines|
    ensures Knows(source, n, i, ShiftAt(source, i))
  {
    if i > 0 {
      ShiftKnows(source, n, i - 1);
      LineKnows(source, n, i - 1, ShiftAt(source, i - 1));
    }
  }

  lemma LineKnows(source: Source, n: nat, i: nat, shift: Shift)
    requires IsSource(source, n) && i < |source.lines| && Knows(source, n, i, shift)
    ensures Knows(source, n, i + 1, FormatLine(source, source.lines[i], i + 1, shift).1)
  {
    hide InRaw, Closes, IsContinuation, DepthOf, Continued, InComment, Content, Leading;
    CommentStep(source, n, i);
    ContinuedMeans(source, n, i + 1);
  }

  // Line i of the output is line i of the source under the shift met there.
  lemma {:induction false} OutputLine(source: Source, from: nat, i: nat)
    requires from <= i < |source.lines|
    ensures var after := FormatFrom(source, source.lines[from..], from + 1, ShiftAt(source, from));
            |after| == |source.lines| - from && after[i - from] == FormatLine(source, source.lines[i], i + 1,
                ShiftAt(source, i)).0
    decreases |source.lines| - from
  {
    hide FormatLine;
    var rest := source.lines[from..];
    var _ := FormatAt(source, rest, from + 1, ShiftAt(source, from), |rest|);
    if from < i {
      assert rest[1..] == source.lines[from + 1..] && ShiftAt(source, from + 1) == FormatLine(source, rest[0], from + 1,
          ShiftAt(source, from)).1;
      OutputLine(source, from + 1, i);
    }
  }

  // The last ordinary line moves by what the formatter carries on.
  lemma {:induction false} MoverMoved(source: Source, n: nat, o: nat, i: nat)
    requires n <= |source.tokens| && i <= |source.lines| && IsMover(source, n, o, i)
    ensures Moved(source, n, i) == 4 * DepthOf(source.tokens, source.maximumLine, o + 1) - Leading(source.lines[o])
    decreases i
  {
    hide IsOrdinary;
    if o < i - 1 {
      MoverMoved(source, n, o, i - 1);
    }
  }

  lemma {:induction false} NothingMoved(source: Source, n: nat, i: nat)
    requires n <= |source.tokens| && i <= |source.lines| && forall o :: 0 <= o < i ==> !IsOrdinary(source, n, o)
    ensures Moved(source, n, i) == 0
    decreases i
  {
    hide IsOrdinary;
    if i > 0 {
      NothingMoved(source, n, i - 1);
    }
  }

  // ---------- The whole source ----------

  ghost predicate AreMoved(source: Source, n: nat, after: seq<string>)
    requires n <= |source.tokens|
  {
    |after| == |source.lines| && forall i :: 0 <= i < |after| ==> IsMoved(source, n, after[i], i)
  }

  ghost predicate IsMoved(source: Source, n: nat, moved: string, i: nat)
    requires n <= |source.tokens| && i < |source.lines|
  {
    var line := source.lines[i];
    var leading := if IsOrdinary(source, n, i) then 4 * DepthOf(source.tokens, source.maximumLine, i + 1)
                   else NonNegative(Leading(line) + Moved(source, n, i));
    moved ==
      if Content(line) == "" then "" else if InRaw(source, i + 1) then line else Spaces(leading) + Content(line)
  }

  lemma AllMoved(source: Source, n: nat)
    requires IsSource(source, n)
    ensures AreMoved(source, n, FormatFrom(source, source.lines, 1, UNSHIFTED))
  {
    hide FormatLine, FormatFrom, IsMoved;
    var after := FormatFrom(source, source.lines, 1, UNSHIFTED);
    assert source.lines[0..] == source.lines;
    var _ := FormatAt(source, source.lines, 1, UNSHIFTED, 0);
    forall i: nat | i < |source.lines| ensures |after| == |source.lines| && IsMoved(source, n, after[i], i) {
      OutputLine(source, 0, i);
      LineIsMoved(source, n, i);
    }
  }

  lemma LineIsMoved(source: Source, n: nat, i: nat)
    requires IsSource(source, n) && i < |source.lines|
    ensures IsMoved(source, n, FormatLine(source, source.lines[i], i + 1, ShiftAt(source, i)).0, i)
  {
    hide InRaw, Closes, IsContinuation, DepthOf, Continued, InComment, Content, Leading, ShiftAt, Moved;
    ShiftKnows(source, n, i);
    ContinuedMeans(source, n, i + 1);
  }

  lemma MovedIsLaidOut(source: Source, n: nat, after: seq<string>, i: nat)
    requires IsSource(source, n) && AreMoved(source, n, after) && i < |after|
    ensures LaidOut(source, n, after, i)
  {
    hide Leading, Content, InRaw, IsOrdinary, StartsAt, ScopesAround, DepthOf, Moved, IsMover;
    var line := source.lines[i];
    assert IsMoved(source, n, after[i], i);
    if Content(line) != "" && !InRaw(source, i + 1) {
      if IsOrdinary(source, n, i) {
        forall k: nat {:trigger StartsAt(source.tokens, n, i + 1, k)} | StartsAt(source.tokens, n, i + 1, k)
          ensures |after[i]| - |Content(line)| == 4 * |ScopesAround(source.tokens, n, i + 1, k)|
        {
          DepthMeans(source.tokens, source.maximumLine, n, i + 1, k);
        }
      } else {
        forall o: nat | IsMover(source, n, o, i)
          ensures o < i && NonNegative(Leading(line) + Leading(after[o]) - Leading(source.lines[o]))
                           == NonNegative(Leading(line) + Moved(source, n, i))
        {
          MoverLeads(source, n, after, o, i);
        }
        if forall o :: 0 <= o < i ==> !IsOrdinary(source, n, o) {
          NothingMoved(source, n, i);
        }
      }
    }
  }

  lemma MoverLeads(source: Source, n: nat, after: seq<string>, o: nat, i: nat)
    requires IsSource(source, n) && AreMoved(source, n, after) && i < |after| && IsMover(source, n, o, i)
    ensures o < i && Leading(after[o]) - Leading(source.lines[o]) == Moved(source, n, i)
  {
    hide InComment, Continued, InRaw, DepthOf, Moved;
    var depth := DepthOf(source.tokens, source.maximumLine, o + 1);
    assert IsMoved(source, n, after[o], o);
    LeadingOfIndented(4 * depth, Content(source.lines[o]));
    MoverMoved(source, n, o, i);
  }

  /** The formatted text has the lines of the source, each laid out as its tokens say. */
  lemma FormattedIsLaidOut(text: string, tokens: seq<LexToken>, n: nat)
    requires OnSource(tokens, |Lines(text)|) && IsLegalEnd(tokens, n)
    ensures var source := Source(Lines(text), tokens, 1 + Newlines(text));
            var after := Lines(Formatted(text, tokens));
            |after| == |source.lines| && forall i :: 0 <= i < |after| ==> LaidOut(source, n, after, i)
  {
    hide LaidOut, FormatFrom, IsOrdinary, InRaw, Newlines, Lines, AreMoved, Join, Content;
    var source := Source(Lines(text), tokens, 1 + Newlines(text));
    LinesAreCounted(text);
    var after := FormatFrom(source, source.lines, 1, UNSHIFTED);
    FormatKeepsContent(source, source.lines, 1, UNSHIFTED);
    LinesOfJoin(after);
    AllMoved(source, n);
    forall i: nat | i < |after| ensures LaidOut(source, n, after, i) {
      MovedIsLaidOut(source, n, after, i);
    }
  }

  // Leading blanks are the spaces and tabs a line begins with.
  lemma {:induction false} LeadingMeans(line: string, n: nat)
    ensures Leading(line) == n <==>
              && n <= |line| && (forall i :: 0 <= i < n ==> line[i] in [' ', '\t'])
              && (n < |line| ==> line[n] !in [' ', '\t'])
  {
    if line != "" && IsBlank(line[0]) {
      if n > 0 {
        LeadingMeans(line[1..], n - 1);
        assert forall i :: 0 < i < n && n <= |line| ==> line[i] == line[1..][i - 1];
      }
    }
  }
}
