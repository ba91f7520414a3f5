/** Source text as lines, and the scanner that finds raw strings. Leading blanks do not matter to it. */
module FmtLines {

  predicate IsBlank(c: char) { c == ' ' || c == '\t' }

  predicate IsOneLine(text: string) { '\n' !in text }

  /** The text up to the end of its first line. */
  function LineEnd(text: string): (n: nat)
    ensures n <= |text| && IsOneLine(text[..n]) && (n < |text| ==> text[n] == '\n')
  {
    if text == "" || text[0] == '\n' then 0 else 1 + LineEnd(text[1..])
  }

  function AfterLine(text: string): (rest: string)
    ensures text != "" ==> |rest| < |text|
  {
    var n := LineEnd(text);
    if n < |text| then text[n + 1..] else ""
  }

  /** A final newline ends the last line and does not begin another. */
  function Lines(text: string): (lines: seq<string>)
    ensures forall i :: 0 <= i < |lines| ==> IsOneLine(lines[i])
    decreases |text|
  {
    if text == "" then [] else [text[..LineEnd(text)]] + Lines(AfterLine(text))
  }

  function Join(lines: seq<string>): string {
    if lines == [] then "" else lines[0] + "\n" + Join(lines[1..])
  }

  lemma {:induction false} LineEndOf(line: string, rest: string)
    requires IsOneLine(line)
    ensures LineEnd(line + "\n" + rest) == |line|
  {
    var text := line + "\n" + rest;
    if line != "" {
      assert text[1..] == line[1..] + "\n" + rest;
      LineEndOf(line[1..], rest);
    }
  }

  lemma {:induction false} LinesOfJoin(lines: seq<string>)
    requires forall i :: 0 <= i < |lines| ==> IsOneLine(lines[i])
    ensures Lines(Join(lines)) == lines
  {
    if lines != [] {
      var text, rest := Join(lines), Join(lines[1..]);
      LineEndOf(lines[0], rest);
      assert text[..|lines[0]|] == lines[0];
      assert text[|lines[0]| + 1..] == rest;
      LinesOfJoin(lines[1..]);
    }
  }

  // ---------- Leading blanks ----------

  function Leading(line: string): (n: nat)
    ensures n <= |line| && (n < |line| ==> !IsBlank(line[n]))
  {
    if line != "" && IsBlank(line[0]) then 1 + Leading(line[1..]) else 0
  }

  function Content(line: string): (content: string)
    ensures content != "" ==> !IsBlank(content[0])
    ensures IsOneLine(line) ==> IsOneLine(content)
  {
    line[Leading(line)..]
  }

  function Contents(lines: seq<string>): (r: seq<string>)
    ensures |r| == |lines|
  {
    seq(|lines|, i requires 0 <= i < |lines| => Content(lines[i]))
  }

  function Spaces(n: nat): (s: string)
    ensures |s| == n && IsOneLine(s)
  {
    seq(n, _ => ' ')
  }

  lemma {:induction false} LeadingOfIndented(n: nat, content: string)
    requires content != "" && !IsBlank(content[0])
    ensures Leading(Spaces(n) + content) == n && Content(Spaces(n) + content) == content
    decreases n
  {
    var line := Spaces(n) + content;
    if n > 0 {
      assert line[1..] == Spaces(n - 1) + content;
      LeadingOfIndented(n - 1, content);
    }
    assert line[n..] == content;
  }

  // ---------- Raw strings ----------

  // Where the scanner is: inside a raw string, inside an ordinary string, and whether a backslash
  // has swallowed the newline that follows.
  datatype Scan = Scan(inRaw: bool, inString: bool, swallows: bool)

  /** The scanner over the rest of one line. */
  function ScanLine(text: string, inRaw: bool, inString: bool): Scan {
    if text == "" then Scan(inRaw, inString, false)
    else
      var c, rest := text[0], text[1..];
      if inRaw then ScanLine(rest, c != '`', inString)
      else if inString then
        if c == '\\' && rest == "" then Scan(inRaw, inString, true)
        else if c == '\\' then ScanLine(rest[1..], inRaw, inString)
        else ScanLine(rest, inRaw, c != '"')
      else ScanLine(rest, c == '`', c == '"')
  }

  /** Is the scanner inside a raw string when it stops? It stops at the line it counts as `target`,
      or at the end. */
  function InRawString(lines: seq<string>, line: nat, target: nat, inRaw: bool, inString: bool): bool {
    if lines == [] || line >= target then inRaw
    else
      var scan := ScanLine(lines[0], inRaw, inString);
      InRawString(lines[1..], if scan.swallows then line else line + 1, target, scan.inRaw, scan.inString)
  }

  lemma {:induction false} ScanIgnoresBlanks(line: string, inRaw: bool, inString: bool)
    ensures ScanLine(line, inRaw, inString) == ScanLine(Content(line), inRaw, inString)
  {
    if line != "" && IsBlank(line[0]) {
      assert Content(line) == Content(line[1..]);
      ScanIgnoresBlanks(line[1..], inRaw, inString);
    } else {
      assert Content(line) == line;
    }
  }

  lemma {:induction false} RawIgnoresBlanks(a: seq<string>, b: seq<string>, line: nat, target: nat, inRaw: bool,
                                            inString: bool)
    requires Contents(a) == Contents(b)
    ensures InRawString(a, line, target, inRaw, inString) == InRawString(b, line, target, inRaw, inString)
  {
    if a != [] && line < target {
      assert |a| == |Contents(a)| == |b|;
      assert Contents(a)[0] == Contents(b)[0] && Contents(a)[1..] == Contents(b)[1..];
      assert Contents(a[1..]) == Contents(a)[1..] && Contents(b[1..]) == Contents(b)[1..];
      ScanIgnoresBlanks(a[0], inRaw, inString);
      ScanIgnoresBlanks(b[0], inRaw, inString);
      var scan := ScanLine(a[0], inRaw, inString);
      RawIgnoresBlanks(a[1..], b[1..], if scan.swallows then line else line + 1, target, scan.inRaw, scan.inString);
    } else {
      assert |a| == |Contents(a)| == |b|;
    }
  }

  /** The scanner over the characters of the source, where newlines are counted as they pass. */
  function ScanText(text: string, line: nat, target: nat, inRaw: bool, inString: bool): bool {
    if text == "" || line >= target then inRaw
    else
      var c, rest := text[0], text[1..];
      if c == '\n' then ScanText(rest, line + 1, target, inRaw, inString)
      else if inRaw then ScanText(rest, line, target, c != '`', inString)
      else if inString then
        if c == '\\' && rest != "" then ScanText(rest[1..], line, target, inRaw, inString)
        else ScanText(rest, line, target, inRaw, c != '"')
      else ScanText(rest, line, target, c == '`', c == '"')
  }

  // Character by character or line by line, the scanner answers the same.
  lemma {:induction false} ScanTextIsByLine(text: string, line: nat, target: nat, inRaw: bool, inString: bool)
    ensures ScanText(text, line, target, inRaw, inString) == InRawString(Lines(text), line, target, inRaw, inString)
    decreases |text|
  {
    if text != "" && line < target {
      var n := LineEnd(text);
      var scan := ScanLine(text[..n], inRaw, inString);
      var next := if scan.swallows then line else line + 1;
      ScanTextOneLine(text, line, target, inRaw, inString);
      ScanTextIsByLine(AfterLine(text), next, target, scan.inRaw, scan.inString);
    }
  }

  lemma {:induction false} ScanTextOneLine(text: string, line: nat, target: nat, inRaw: bool, inString: bool)
    requires line < target
    ensures var scan := ScanLine(text[..LineEnd(text)], inRaw, inString);
            ScanText(text, line, target, inRaw, inString)
            == ScanText(AfterLine(text), if scan.swallows then line else line + 1, target, scan.inRaw, scan.inString)
    decreases |text|
  {
    var n := LineEnd(text);
    if n > 0 {
      var c, rest := text[0], text[1..];
      NextCharacter(text);
      if !inRaw && inString && c == '\\' {
        if n > 1 {
          NextCharacter(rest);
          ScanTextOneLine(rest[1..], line, target, inRaw, inString);
        } else if rest != "" {
          assert AfterLine(text) == rest[1..];
        }
      } else if inRaw {
        ScanTextOneLine(rest, line, target, c != '`', inString);
      } else if inString {
        ScanTextOneLine(rest, line, target, inRaw, c != '"');
      } else {
        ScanTextOneLine(rest, line, target, c == '`', c == '"');
      }
    }
  }

  lemma NextCharacter(text: string)
    requires LineEnd(text) > 0
    ensures LineEnd(text[1..]) == LineEnd(text) - 1 && AfterLine(text[1..]) == AfterLine(text)
    ensures text[..LineEnd(text)][1..] == text[1..][..LineEnd(text) - 1]
  {
  }

  /** Scans the source up to the target line. */
  method LineIsInRawString(source: string, targetLine: nat) returns (inRaw: bool)
    ensures inRaw == InRawString(Lines(source), 1, targetLine, false, false)
  {
    inRaw := false;
    var line, isInString, cursor := 1, false, 0;
    assert source[0..] == source;
    while cursor < |source| && line < targetLine
      invariant 0 <= cursor <= |source|
      invariant ScanText(source[cursor..], line, targetLine, inRaw, isInString)
          == ScanText(source, 1, targetLine, false, false)
      decreases |source| - cursor
    {
      ghost var rest := source[cursor..];
      assert rest[1..] == source[cursor + 1..];
      if source[cursor] == '\n' {
        line := line + 1;
      } else if inRaw {
        if source[cursor] == '`' {
          inRaw := false;
        }
      } else if isInString {
        if source[cursor] == '\\' && cursor + 1 < |source| {
          assert rest[1..][1..] == source[cursor + 2..];
          cursor := cursor + 2;
          continue;
        }
        if source[cursor] == '"' {
          isInString := false;
        }
      } else if source[cursor] == '`' {
        inRaw := true;
      } else if source[cursor] == '"' {
        isInString := true;
      }
      cursor := cursor + 1;
    }
    ScanTextIsByLine(source, 1, targetLine, false, false);
  }
}
