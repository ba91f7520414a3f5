/** The source formatter: it re-indents each line and changes nothing else, and a second pass
    changes nothing at all. */
module Formatter {
  import opened FmtTables
  import opened FmtDepth
  import opened FmtLines

  const INDENT_WIDTH := 4

  /** What the formatter knows of a source: its lines, its tokens and the size of the line tables. */
  datatype Source = Source(lines: seq<string>, tokens: seq<LexToken>, maximumLine: nat)

  // An open block comment and how far its first line moved; how far the last ordinary line moved.
  datatype Shift = Shift(inBlockComment: bool, blockCommentDelta: int, continuationDelta: int)

  const UNSHIFTED := Shift(false, 0, 0)

  predicate InRaw(source: Source, n: nat) {
    InRawString(source.lines, 1, n, false, false)
  }

  /** A star followed by a slash, at or after `start`. */
  predicate Closes(content: string, start: nat) {
    exists i :: start <= i < |content| - 1 && content[i] == '*' && content[i + 1] == '/'
  }

  function NonNegative(x: int): nat { if x < 0 then 0 else x }

  /** Line number n, re-indented, and the shift for the next line. */
  function FormatLine(source: Source, line: string, n: nat, shift: Shift): (r: (string, Shift))
    requires n > 0
  {
    var content, leading := Content(line), Leading(line);
    if content == "" then ("", shift)
    else if InRaw(source, n) then (line, shift)
    else if shift.inBlockComment then
      (Spaces(NonNegative(leading + shift.blockCommentDelta)) + content, shift.(inBlockComment := !Closes(content, 0)))
    else if IsContinuation(source.tokens, source.maximumLine, n) then
      (Spaces(NonNegative(leading + shift.continuationDelta)) + content, shift)
    else
      var newLeading := DepthOf(source.tokens, source.maximumLine, n) * INDENT_WIDTH;
      var delta := newLeading - leading;
      (Spaces(newLeading) + content,
       if content[0] == '/' && |content| >= 2 && content[1] == '*' then Shift(!Closes(content, 2), delta, delta)
       else shift.(continuationDelta := delta))
  }

  function FormatFrom(source: Source, rest: seq<string>, n: nat, shift: Shift): (lines: seq<string>)
    requires n > 0
  {
    if rest == [] then []
    else
      var (line, next) := FormatLine(source, rest[0], n, shift);
      [line] + FormatFrom(source, rest[1..], n + 1, next)
  }

  function Newlines(text: string): nat {
    if text == "" then 0 else (if text[0] == '\n' then 1 else 0) + Newlines(text[1..])
  }

  function Formatted(text: string, tokens: seq<LexToken>): string {
    var lines := Lines(text);
    Join(FormatFrom(Source(lines, tokens, 1 + Newlines(text)), lines, 1, UNSHIFTED))
  }

  // ---------- Content is preserved ----------

  lemma FormatLineKeeps(source: Source, line: string, n: nat, shift: Shift)
    requires n > 0
    ensures var after := FormatLine(source, line, n, shift).0;
            && Content(after) == Content(line)
            && (IsOneLine(line) ==> IsOneLine(after))
            && (Content(line) != "" && InRaw(source, n) ==> after == line)
  {
    var content := Content(line);
    if content != "" && !InRaw(source, n) {
      LeadingOfIndented(NonNegative(Leading(line) + shift.blockCommentDelta), content);
      LeadingOfIndented(NonNegative(Leading(line) + shift.continuationDelta), content);
      LeadingOfIndented(DepthOf(source.tokens, source.maximumLine, n) * INDENT_WIDTH, content);
    }
  }

  // Line i of the output is line i of the input, re-indented under some shift.
  lemma {:induction false} FormatAt(source: Source, rest: seq<string>, n: nat, shift: Shift, i: nat) returns (at: Shift)
    requires n > 0 && i <= |rest|
    ensures |FormatFrom(source, rest, n, shift)| == |rest|
    ensures i < |rest| ==> FormatFrom(source, rest, n, shift)[i] == FormatLine(source, rest[i], n + i, at).0
    decreases |rest|
  {
    hide FormatLine;
    at := shift;
    if rest != [] {
      at := FormatAt(source, rest[1..], n + 1, FormatLine(source, rest[0], n, shift).1, if i > 0 then i - 1 else 0);
      if i == 0 {
        at := shift;
      }
    }
  }

  /** Every line keeps its place and its text after the leading blanks; lines inside a raw string
      that are not blank are left alone. */
  lemma FormatKeepsContent(source: Source, rest: seq<string>, n: nat, shift: Shift)
    requires n > 0
    ensures var after := FormatFrom(source, rest, n, shift);
            && |after| == |rest| && Contents(after) == Contents(rest)
            && (forall i :: 0 <= i < |rest| && IsOneLine(rest[i]) ==> IsOneLine(after[i]))
            && (forall i :: 0 <= i < |rest| && Content(rest[i]) != "" && InRaw(source, n + i) ==> after[i] == rest[i])
  {
    hide FormatLine, FormatFrom, Content, InRaw;
    var after := FormatFrom(source, rest, n, shift);
    var _ := FormatAt(source, rest, n, shift, |rest|);
    forall i | 0 <= i < |rest|
      ensures Content(after[i]) == Content(rest[i]) && (IsOneLine(rest[i]) ==> IsOneLine(after[i]))
      ensures Content(rest[i]) != "" && InRaw(source, n + i) ==> after[i] == rest[i]
    {
      var at := FormatAt(source, rest, n, shift, i);
      FormatLineKeeps(source, rest[i], n + i, at);
    }
  }

  // ---------- A second pass changes nothing ----------

  /** The raw-string scanner and the tables say the same about both sources. */
  ghost predicate SameFlags(a: Source, b: Source) {
    forall n: nat :: n > 0 ==>
      && InRaw(a, n) == InRaw(b, n)
      && DepthOf(a.tokens, a.maximumLine, n) == DepthOf(b.tokens, b.maximumLine, n)
      && IsContinuation(a.tokens, a.maximumLine, n) == IsContinuation(b.tokens, b.maximumLine, n)
  }

  lemma FormatLineAgain(a: Source, b: Source, line: string, n: nat, shift: Shift)
    requires n > 0 && SameFlags(a, b)
    ensures var (after, next) := FormatLine(a, line, n, shift);
            FormatLine(b, after, n, Shift(shift.inBlockComment, 0, 0)) == (after, Shift(next.inBlockComment, 0, 0))
  {
    hide DepthOf, IsContinuation, InRaw, Closes, Spaces;
    var content := Content(line);
    if content != "" && !InRaw(a, n) {
      if shift.inBlockComment {
        LeadingOfIndented(NonNegative(Leading(line) + shift.blockCommentDelta), content);
      } else if IsContinuation(a.tokens, a.maximumLine, n) {
        LeadingOfIndented(NonNegative(Leading(line) + shift.continuationDelta), content);
      } else {
        LeadingOfIndented(DepthOf(a.tokens, a.maximumLine, n) * INDENT_WIDTH, content);
      }
    }
  }

  // On its own output, every line moves by nothing.
  lemma {:induction false} FormatAgain(a: Source, b: Source, rest: seq<string>, n: nat, shift: Shift)
    requires n > 0 && SameFlags(a, b)
    ensures var after := FormatFrom(a, rest, n, shift);
            FormatFrom(b, after, n, Shift(shift.inBlockComment, 0, 0)) == after
    decreases |rest|
  {
    if rest != [] {
      hide FormatLine, SameFlags;
      var (line, next) := FormatLine(a, rest[0], n, shift);
      FormatLineAgain(a, b, rest[0], n, shift);
      FormatAgain(a, b, rest[1..], n + 1, next);
      var after, tail := FormatFrom(a, rest, n, shift), FormatFrom(a, rest[1..], n + 1, next);
      assert after[0] == line && after[1..] == tail;
    }
  }

  lemma {:induction false} LinesAreCounted(text: string)
    ensures |Lines(text)| <= 1 + Newlines(text)
    decreases |text|
  {
    if text != "" {
      LinesAreCounted(AfterLine(text));
      FirstLineCounted(text);
    }
  }

  lemma {:induction false} FirstLineCounted(text: string)
    ensures Newlines(text) == Newlines(AfterLine(text)) + if LineEnd(text) < |text| then 1 else 0
    decreases |text|
  {
    if text != "" && text[0] != '\n' {
      FirstLineCounted(text[1..]);
      assert AfterLine(text) == AfterLine(text[1..]);
    }
  }

  /** Formatting is idempotent, for any lexer whose token kinds and lines do not depend on leading
      blanks and whose tokens lie on the lines of the source. */
  lemma FormattingIsIdempotent(text: string, lex: seq<string> -> seq<LexToken>)
    requires var lines := Lines(text); forall token <- lex(Contents(lines)) :: 1 <= token.line <= |lines|
    ensures var once := Formatted(text, lex(Contents(Lines(text)))); Formatted(once, lex(Contents(Lines(once)))) == once
  {
    hide FormatFrom, Lines, Join, InRawString, DepthOf, IsContinuation, Newlines, Content;
    var lines := Lines(text);
    var tokens := lex(Contents(lines));
    var a := Source(lines, tokens, 1 + Newlines(text));
    var after := FormatFrom(a, lines, 1, UNSHIFTED);
    FormatKeepsContent(a, lines, 1, UNSHIFTED);
    LinesOfJoin(after);
    var once := Join(after);
    var b := Source(after, tokens, 1 + Newlines(once));
    LinesAreCounted(text);
    LinesAreCounted(once);
    forall n: nat | n > 0
      ensures InRaw(a, n) == InRaw(b, n)
      ensures DepthOf(tokens, a.maximumLine, n) == DepthOf(tokens, b.maximumLine, n)
      ensures IsContinuation(tokens, a.maximumLine, n) == IsContinuation(tokens, b.maximumLine, n)
    {
      RawIgnoresBlanks(lines, after, 1, n, false, false);
      TablesIgnoreRoom(tokens, a.maximumLine, b.maximumLine, n);
    }
    assert SameFlags(a, b);
    FormatAgain(a, b, lines, 1, UNSHIFTED);
  }

  // ---------- The program ----------

  method CountLines(source: string) returns (count: nat)
    ensures count == 1 + Newlines(source)
  {
    count := 1;
    var cursor := 0;
    assert source[0..] == source;
    while cursor < |source|
      invariant 0 <= cursor <= |source|
      invariant count + Newlines(source[cursor..]) == 1 + Newlines(source)
    {
      assert source[cursor..][1..] == source[cursor + 1..];
      if source[cursor] == '\n' {
        count := count + 1;
      }
      cursor := cursor + 1;
    }
  }

  method BlockCommentCloses(content: string, startOffset: nat) returns (closes: bool)
    ensures closes == Closes(content, startOffset)
  {
    var i := startOffset;
    while i + 1 < |content|
      invariant startOffset <= i
      invariant forall j :: startOffset <= j < i && j < |content| - 1 ==> !(content[j] == '*' && content[j + 1] == '/')
      decreases |content| - i
    {
      if content[i] == '*' && content[i + 1] == '/' {
        return true;
      }
      i := i + 1;
    }
    return false;
  }

  method FindLineEnd(source: string, start: nat) returns (cursor: nat)
    requires start <= |source|
    ensures cursor == start + LineEnd(source[start..])
  {
    cursor := start;
    while cursor < |source| && source[cursor] != '\n'
      invariant start <= cursor <= |source| && cursor + LineEnd(source[cursor..]) == start + LineEnd(source[start..])
    {
      assert source[cursor..][1..] == source[cursor + 1..];
      cursor := cursor + 1;
    }
  }

  method SkipBlanks(line: string) returns (leading: nat)
    ensures leading == Leading(line)
  {
    leading := 0;
    assert line[0..] == line;
    while leading < |line| && IsBlank(line[leading])
      invariant 0 <= leading <= |line| && leading + Leading(line[leading..]) == Leading(line)
    {
      assert line[leading..][1..] == line[leading + 1..];
      leading := leading + 1;
    }
  }

  /** `tokens` is what the lexer makes of the source. */
  method FormatSource(source: string, tokens: seq<LexToken>) returns (output: string)
    ensures output == Formatted(source, tokens)
  {
    hide FormatLine, LineEnd, Leading, Closes, FormatFrom, Join, Lines, Newlines, DepthOf, IsContinuation, AfterLine;
    var maximumLine := CountLines(source);
    var depth, isContinuation := BuildDepthTables(tokens, maximumLine);
    ghost var all := Source(Lines(source), tokens, maximumLine);
    LinesAreCounted(source);
    output := "";
    var cursor, lineNumber, shift := 0, 1, UNSHIFTED;
    assert source[0..] == source;
    while cursor < |source|
      invariant forall i :: 1 <= i <= maximumLine ==> depth[i] == DepthOf(tokens, maximumLine, i)
      invariant forall i :: 1 <= i <= maximumLine ==> isContinuation[i] == IsContinuation(tokens, maximumLine, i)
      invariant 0 <= cursor <= |source| && lineNumber >= 1 && lineNumber - 1 + |Lines(source[cursor..])| <= maximumLine
      invariant output + Join(FormatFrom(all, Lines(source[cursor..]), lineNumber, shift)) == Formatted(source, tokens)
      decreases |source| - cursor
    {
      ghost var rest := source[cursor..];
      OutputGrows(all, rest, lineNumber, shift, output);
      var end := FindLineEnd(source, cursor);
      var line := source[cursor..end];
      assert line == rest[..LineEnd(rest)];
      LineLeft(source, cursor, end);
      cursor := if end < |source| then end + 1 else end;
      assert lineNumber <= maximumLine;
      var text, next := ReindentLine(all, source, line, lineNumber, shift, depth, isContinuation);
      output, shift := output + text + "\n", next;
      lineNumber := lineNumber + 1;
    }
    NothingLeft(all, source[cursor..], lineNumber, shift, output);
  }

  lemma LineLeft(source: string, cursor: nat, end: nat)
    requires cursor <= |source| && end == cursor + LineEnd(source[cursor..])
    ensures end <= |source| && source[if end < |source| then end + 1 else end..] == AfterLine(source[cursor..])
  {
  }

  lemma NothingLeft(all: Source, rest: string, n: nat, shift: Shift, output: string)
    requires rest == "" && n > 0
    ensures output + Join(FormatFrom(all, Lines(rest), n, shift)) == output
  {
  }

  lemma OutputGrows(all: Source, rest: string, n: nat, shift: Shift, output: string)
    requires rest != "" && n > 0
    ensures var (text, next) := FormatLine(all, rest[..LineEnd(rest)], n, shift);
            output + Join(FormatFrom(all, Lines(rest), n, shift))
            == output + text + "\n" + Join(FormatFrom(all, Lines(AfterLine(rest)), n + 1, next))
    ensures |Lines(rest)| == 1 + |Lines(AfterLine(rest))|
  {
    hide FormatLine, LineEnd, Join, FormatFrom;
    var (text, next) := FormatLine(all, rest[..LineEnd(rest)], n, shift);
    FormatStep(all, rest[..LineEnd(rest)], Lines(AfterLine(rest)), n, shift);
    JoinStep(text, FormatFrom(all, Lines(AfterLine(rest)), n + 1, next), output);
  }

  lemma FormatStep(all: Source, line: string, others: seq<string>, n: nat, shift: Shift)
    requires n > 0
    ensures var (text, next) := FormatLine(all, line, n, shift);
            FormatFrom(all, [line] + others, n, shift) == [text] + FormatFrom(all, others, n + 1, next)
  {
  }

  lemma JoinStep(text: string, others: seq<string>, output: string)
    ensures output + Join([text] + others) == output + text + "\n" + Join(others)
  {
  }

  method ReindentLine(ghost all: Source, source: string, line: string, lineNumber: nat, shift: Shift,
                      depth: array<nat>, isContinuation: array<bool>)
    returns (text: string, next: Shift)
    requires all.lines == Lines(source) && 1 <= lineNumber <= all.maximumLine
    requires depth.Length == isContinuation.Length == all.maximumLine + 2
    requires depth[lineNumber] == DepthOf(all.tokens, all.maximumLine, lineNumber)
    requires isContinuation[lineNumber] == IsContinuation(all.tokens, all.maximumLine, lineNumber)
    ensures (text, next) == FormatLine(all, line, lineNumber, shift)
  {
    hide DepthOf, IsContinuation, Lines, Leading, Closes, Spaces, InRawString;
    var originalLeading := SkipBlanks(line);
    var content := line[originalLeading..];
    next := shift;
    if content == "" {
      return "", next;
    }
    var inRaw := LineIsInRawString(source, lineNumber);
    if inRaw {
      return line, next;
    }
    if shift.inBlockComment {
      text := Spaces(NonNegative(originalLeading + shift.blockCommentDelta)) + content;
      var closes := BlockCommentCloses(content, 0);
      if closes {
        next := next.(inBlockComment := false);
      }
    } else if isContinuation[lineNumber] {
      text := Spaces(NonNegative(originalLeading + shift.continuationDelta)) + content;
    } else {
      var newLeading := depth[lineNumber] * INDENT_WIDTH;
      text := Spaces(newLeading) + content;
      var delta := newLeading - originalLeading;
      if |content| >= 2 && content[0] == '/' && content[1] == '*' {
        var closes := BlockCommentCloses(content, 2);
        next := next.(blockCommentDelta := delta, inBlockComment := !closes);
      }
      next := next.(continuationDelta := delta);
    }
  }
}
