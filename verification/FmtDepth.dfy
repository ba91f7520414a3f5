/** Filling the formatter's tables from the token stream. */
module FmtDepth {
  import opened FmtTables

  datatype MaybeKind = Nothing | Just(kind: Kind)

  // A line's slots in the parallel tables; -1 is "not yet assigned by a token".
  datatype Entry = Entry(depth: int, groupStart: int, first: MaybeKind, last: MaybeKind, endDepth: nat, endGroup: nat)

  const BLANK := Entry(-1, -1, Nothing, Nothing, 0, 0)

  /** What the first k tokens say about a line. */
  ghost function EntryFor(tokens: seq<LexToken>, maximumLine: nat, k: nat, line: nat): Entry
    requires k <= |tokens|
  {
    var f, l := FirstOn(tokens, k, line), LastOn(tokens, k, line);
    if f < 0 then BLANK
    else
      var end := Run(tokens, maximumLine, l + 1);
      Entry(DepthAtFirst(tokens, maximumLine, f), Run(tokens, maximumLine, f).group,
            Just(tokens[f].kind), Just(tokens[l].kind), end.depth, end.group)
  }

  function Updated(e: Entry, before: State, kind: Kind, after: State): Entry {
    Entry(if e.depth < 0 then Close(before, kind).depth else e.depth,
          if e.groupStart < 0 then before.group else e.groupStart,
          if e.first.Nothing? then Just(kind) else e.first, Just(kind), after.depth, after.group)
  }

  ghost predicate Filled(tokens: seq<LexToken>, maximumLine: nat, k: nat, entries: seq<Entry>) {
    && k <= |tokens| && |entries| == maximumLine + 2
    && forall line :: 1 <= line <= maximumLine ==> entries[line] == EntryFor(tokens, maximumLine, k, line)
  }

  lemma FilledStep(tokens: seq<LexToken>, maximumLine: nat, k: nat, entries: seq<Entry>)
    requires Filled(tokens, maximumLine, k, entries) && k < |tokens|
    ensures var token := tokens[k];
            var entries' := if !OnLines(token, maximumLine) then entries
                            else entries[token.line := Updated(entries[token.line], Run(tokens, maximumLine, k),
                                token.kind, Run(tokens, maximumLine, k + 1))];
            Filled(tokens, maximumLine, k + 1, entries')
  {
  }

  method ScanTokens(tokens: seq<LexToken>, maximumLine: nat) returns (entries: array<Entry>)
    ensures fresh(entries) && Filled(tokens, maximumLine, Legal(tokens), entries[..])
  {
    hide Filled, EntryFor, Close, Open;
    entries := new Entry[maximumLine + 2](_ => BLANK);
    NothingScanned(tokens, maximumLine, entries[..]);
    var state, k := START, 0;
    while k < |tokens| && tokens[k].kind != Illegal
      invariant 0 <= k <= |tokens| && forall i :: 0 <= i < k ==> tokens[i].kind != Illegal
      invariant state == Run(tokens, maximumLine, k) && Filled(tokens, maximumLine, k, entries[..])
      invariant entries.Length == maximumLine + 2
    {
      FilledStep(tokens, maximumLine, k, entries[..]);
      var token := tokens[k];
      k := k + 1;
      if token.kind == Newline {
        continue;
      }
      if token.line < 1 || token.line > maximumLine {
        state := state.(previous := token.kind);
        continue;
      }
      var before := state;
      state := Open(Close(before, token.kind), token.kind).(previous := token.kind);
      entries[token.line] := Updated(entries[token.line], before, token.kind, state);
    }
    LegalEnds(tokens, k);
  }

  lemma NothingScanned(tokens: seq<LexToken>, maximumLine: nat, entries: seq<Entry>)
    requires |entries| == maximumLine + 2 && forall i :: 0 <= i < |entries| ==> entries[i] == BLANK
    ensures Filled(tokens, maximumLine, 0, entries)
  {
  }

  /** Line tables, valid from line 1 to maximumLine. */
  method BuildDepthTables(tokens: seq<LexToken>,
                          maximumLine: nat) returns (depth: array<nat>, isContinuation: array<bool>)
    ensures depth.Length == isContinuation.Length == maximumLine + 2
    ensures forall i :: 1 <= i <= maximumLine ==>
              depth[i] == DepthOf(tokens, maximumLine, i) && isContinuation[i] == IsContinuation(tokens, maximumLine, i)
  {
    hide Carried, Run, FirstOn, LastOn;
    var entries := ScanTokens(tokens, maximumLine);
    ghost var scanned := entries[..];
    depth := new nat[maximumLine + 2](_ => 0);
    isContinuation := new bool[maximumLine + 2](_ => false);
    var groupStart := new nat[maximumLine + 2](_ => 0);
    var current, currentGroup := 0, 0;
    var i := 1;
    CarriedStart(tokens, maximumLine);
    while i <= maximumLine
      invariant 1 <= i <= maximumLine + 1 && entries[..] == scanned
      invariant current == Carried(tokens, maximumLine, i - 1).depth
      invariant currentGroup == Carried(tokens, maximumLine, i - 1).group
      invariant forall j :: 1 <= j < i ==>
          depth[j] == DepthOf(tokens, maximumLine, j) && groupStart[j] == GroupOf(tokens, maximumLine, j)
    {
      assert entries[i] == scanned[i];
      LineFilled(tokens, maximumLine, scanned, i);
      if entries[i].depth >= 0 {
        depth[i], groupStart[i] := entries[i].depth, entries[i].groupStart;
        current, currentGroup := entries[i].endDepth, entries[i].endGroup;
      } else {
        depth[i], groupStart[i] := current, currentGroup;
      }
      i := i + 1;
    }
    i := 1;
    while i <= maximumLine
      invariant 1 <= i <= maximumLine + 1 && entries[..] == scanned
      invariant forall j :: 1 <= j <= maximumLine ==>
          depth[j] == DepthOf(tokens, maximumLine, j) && groupStart[j] == GroupOf(tokens, maximumLine, j)
      invariant forall j :: 1 <= j < i ==> isContinuation[j] == IsContinuation(tokens, maximumLine, j)
    {
      assert entries[i] == scanned[i] && entries[i - 1] == scanned[i - 1];
      LineOperators(tokens, maximumLine, scanned, i);
      var leadsWithOperator := entries[i].first == Just(And) || entries[i].first == Just(Or);
      var previousTrails := i > 1 && (entries[i - 1].last == Just(And) || entries[i - 1].last == Just(Or));
      isContinuation[i] := groupStart[i] > 0 || leadsWithOperator || previousTrails;
      i := i + 1;
    }
  }

  lemma CarriedStart(tokens: seq<LexToken>, maximumLine: nat)
    ensures Carried(tokens, maximumLine, 0) == START
  {
  }

  // A line with tokens takes its own depth and hands on the one it ends with; any other line takes
  // the one handed on.
  lemma LineFilled(tokens: seq<LexToken>, maximumLine: nat, entries: seq<Entry>, line: nat)
    requires Filled(tokens, maximumLine, Legal(tokens), entries) && 1 <= line <= maximumLine
    ensures var e, before, after := entries[line], Carried(tokens, maximumLine, line - 1),
        Carried(tokens, maximumLine, line);
            if e.depth >= 0 then
              && e.groupStart >= 0 && DepthOf(tokens, maximumLine, line) == e.depth
                  && GroupOf(tokens, maximumLine, line) == e.groupStart
              && after.depth == e.endDepth && after.group == e.endGroup
            else
              && DepthOf(tokens, maximumLine, line) == before.depth
                  && GroupOf(tokens, maximumLine, line) == before.group
              && after == before
  {
  }

  lemma LineOperators(tokens: seq<LexToken>, maximumLine: nat, entries: seq<Entry>, line: nat)
    requires Filled(tokens, maximumLine, Legal(tokens), entries) && 1 <= line <= maximumLine
    ensures IsContinuation(tokens, maximumLine, line) <==>
              || GroupOf(tokens, maximumLine, line) > 0
              || entries[line].first == Just(And) || entries[line].first == Just(Or)
              || (line > 1 && (entries[line - 1].last == Just(And) || entries[line - 1].last == Just(Or)))
  {
  }
}
