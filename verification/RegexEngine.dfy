/** Compiling a pattern and searching a subject for its leftmost match. */
module RegexEngine {
  import opened Options
  import opened Utf8
  import opened RegexPattern
  import opened RegexTheory
  import opened RegexCaptures
  import opened RegexReports
  import opened RegexGrammar
  import opened RegexParser
  import opened RegexUnambiguous
  import opened RegexMatcher

  datatype Engine = Engine(root: Alternation, groupCount: nat)

  /** The groups of the engine's pattern are numbered 1 to groupCount. */
  ghost predicate IsNumbered(engine: Engine, table: seq<Alternation>) {
    engine.groupCount == GroupsFrom(engine.root, 0) && Numbered(table, engine.root, 1)
  }

  /** The engine of the one pattern the text spells, and None if it spells none. A pattern is a C string,
      so it holds no NUL. */
  method Compile(pattern: seq<Byte>) returns (r: Option<Engine>, ghost table: seq<Alternation>)
    requires 0 !in pattern
    ensures r.Some? ==> SpellsAlternatives(pattern, 0, |pattern|, r.value.root.sequences) && IsNumbered(r.value, table)
    ensures r.Some? <==> exists sequences :: SpellsAlternatives(pattern, 0, |pattern|, sequences)
    ensures forall engine: Engine, numbers {:trigger IsNumbered(engine, numbers)} ::
              SpellsAlternatives(pattern, 0, |pattern|, engine.root.sequences) && IsNumbered(engine, numbers) ==>
                  r == Some(engine)
  {
    hide SpellsAlternatives, Numbered;
    var parser := new Parser(pattern);
    var root := parser.ParseAlternation();
    table := parser.table;
    if parser.failed || parser.Peek(0) != 0 {
      forall sequences ensures !SpellsAlternatives(pattern, 0, |pattern|, sequences) {
        if !parser.failed && SpellsAlternatives(pattern, 0, |pattern|, sequences) {
          AlternativesUnique(pattern, 0, parser.cursor, |pattern|, root.sequences, sequences);
        }
      }
      return None, table;
    }
    r := Some(Engine(root, parser.groupCount));
    forall engine: Engine, numbers {:trigger IsNumbered(engine, numbers)} |
      SpellsAlternatives(pattern, 0, |pattern|, engine.root.sequences) && IsNumbered(engine, numbers)
      ensures r == Some(engine)
    {
      PatternIsUnique(pattern, 0, |pattern|, |pattern|, root, engine.root, table, numbers, 1);
    }
  }

  // ---------- Boundaries tried ----------

  /** No match of the root starts at a boundary before `bound`. */
  ghost predicate NoneBefore(s: Subject, root: Alternation, bound: nat) {
    forall p: nat {:trigger BoundaryAfter(s.text, 0, p)} ::
      p < bound && p <= |s.text| && BoundaryAfter(s.text, 0, p) ==> MatchFrom(s, root, 0, p).None?
  }

  /** Every boundary before `at` has been tried in vain. */
  ghost predicate Tried(s: Subject, root: Alternation, at: nat) {
    forall p: nat {:trigger BoundaryAfter(s.text, 0, p)} ::
      p <= |s.text| && BoundaryAfter(s.text, 0, p) ==> BoundaryAfter(s.text, at, p) || MatchFrom(s, root, 0, p).None?
  }

  lemma NothingTried(s: Subject, root: Alternation)
    ensures Tried(s, root, 0)
  {
  }

  lemma TriedBefore(s: Subject, root: Alternation, at: nat)
    requires Tried(s, root, at) && at <= |s.text|
    ensures NoneBefore(s, root, at)
    ensures at == |s.text| && MatchFrom(s, root, 0, at).None? ==> NoneBefore(s, root, at + 1)
  {
    forall p: nat {:trigger BoundaryAfter(s.text, 0, p)} | p <= |s.text| && BoundaryAfter(s.text, at, p)
      ensures at <= p
    {
      BoundaryIsLater(s.text, at, p);
    }
  }

  lemma TriedNext(s: Subject, root: Alternation, at: nat)
    requires Tried(s, root, at) && at < |s.text| && MatchFrom(s, root, 0, at).None?
    ensures Tried(s, root, at + Decode(s.text, at).length)
  {
  }

  /** Each span is unset or, after a match, a span of its group within the match. */
  ghost predicate Recorded(s: Subject, table: seq<Alternation>, spans: seq<Span>, start: nat, r: Option<nat>) {
    forall g :: 0 <= g < |spans| ==> spans[g] == UNSET || (r.Some? && SpanOk(s, table, g, spans[g], start, r.value))
  }

  lemma EffectRecords(s: Subject, table: seq<Alternation>, before: seq<Span>, after: seq<Span>, lo: nat, hi: nat,
                      at: nat, r: Option<nat>)
    requires Effect(s, table, before, after, lo, hi, at, r)
    requires forall g :: 0 <= g < |before| ==> before[g] == UNSET
    ensures |after| == |before| && Recorded(s, table, after, at, r)
    ensures r.None? ==> forall g :: 0 <= g < |after| ==> after[g] == UNSET
  {
  }

  // ---------- The search ----------

  /** The leftmost boundary at which the root matches, and where that match ends; the caller's first
      `nmatch` spans receive the whole match and the groups. With room for all groups, the spans tell
      how the pattern matched: each group by its last occurrence. */
  method Execute(engine: Engine, text: seq<Byte>, nmatch: nat, spans: array?<Span>, isNotBeginningOfLine: bool,
                 ghost table: seq<Alternation>)
    returns (found: bool, ghost start: nat, ghost end: nat)
    requires IsNumbered(engine, table) && (spans != null ==> nmatch <= spans.Length)
    modifies if spans == null then {} else {spans}
    ensures var s := Subject(text, isNotBeginningOfLine);
            if found then
              && BoundaryAfter(text, 0, start) && start <= |text| && MatchFrom(s, engine.root, 0, start) == Some(end)
              && NoneBefore(s, engine.root, start) && AlternationMatches(s, engine.root, start, end)
            else NoneBefore(s, engine.root, |text| + 1)
    ensures found && spans != null && nmatch > 0 ==> spans[0] == Span(start, end)
    ensures found && spans != null ==> forall g :: 1 <= g < nmatch ==>
              || spans[g] == Span(-1, -1)
              || (g <= engine.groupCount && SpanOk(Subject(text, isNotBeginningOfLine), table, g, spans[g], start, end))
    ensures found && spans != null && nmatch > engine.groupCount > 0 ==>
              AlternationReported(Subject(text, isNotBeginningOfLine), engine.root, 1, start, end, spans[..nmatch])
    ensures spans != null ==>
              forall g :: (if found then nmatch else 0) <= g < spans.Length ==> spans[g] == old(spans[g])
  {
    hide AlternationReported, Effect, Numbered, MatchFrom, AlternationMatches, SpanOk, Tried, NoneBefore, Recorded;
    var subject := Subject(text, isNotBeginningOfLine);
    var captures: array?<Span> := null;
    if nmatch > 1 && spans != null && engine.groupCount > 0 {
      captures := new Span[engine.groupCount + 1](_ => UNSET);
    }
    var matcher := new Matcher(subject, captures, table);
    var at := 0;
    NothingTried(subject, engine.root);
    while true
      invariant at <= |text| && BoundaryAfter(text, 0, at) && Tried(subject, engine.root, at)
      invariant spans != null ==> spans[..] == old(spans[..])
      invariant forall g :: 0 <= g < |matcher.Spans()| ==> matcher.Spans()[g] == UNSET
      decreases |text| - at
    {
      ghost var before := matcher.Spans();
      var r := matcher.MatchAlternation(engine.root, at, 1);
      EffectRecords(subject, table, before, matcher.Spans(), 1, 1 + engine.groupCount, at, r);
      TriedBefore(subject, engine.root, at);
      if r.Some? {
        FromSound(subject, engine.root, 0, at);
        if spans != null {
          ghost var recorded := matcher.Spans();
          Report(matcher, engine.groupCount, nmatch, spans, at, r.value);
          if nmatch > engine.groupCount > 0 {
            AlternationStays(subject, engine.root, 1, at, r.value, recorded, spans[..nmatch]);
          }
        }
        return true, at, r.value;
      }
      if at == |text| {
        return false, at, at;
      }
      TriedNext(subject, engine.root, at);
      BoundaryExtends(text, 0, at);
      at := at + Decode(text, at).length;
    }
  }

  method Report(matcher: Matcher, groupCount: nat, nmatch: nat, spans: array<Span>, start: nat, end: nat)
    requires nmatch <= spans.Length && spans != matcher.captures
    requires matcher.captures != null ==> matcher.captures.Length == groupCount + 1
    requires Recorded(matcher.subject, matcher.table, matcher.Spans(), start, Some(end))
    modifies spans
    ensures nmatch > 0 ==> spans[0] == Span(start, end)
    ensures forall g :: 1 <= g < nmatch ==>
              || spans[g] == UNSET
              || (g <= groupCount && SpanOk(matcher.subject, matcher.table, g, spans[g], start, end))
    ensures matcher.captures != null ==>
              forall g :: 1 <= g < nmatch && g <= groupCount ==> spans[g] == matcher.captures[g]
    ensures forall g :: nmatch <= g < spans.Length ==> spans[g] == old(spans[g])
  {
    hide SpanOk;
    if nmatch > 0 {
      spans[0] := Span(start, end);
    }
    var g := 1;
    while g < nmatch
      invariant 1 <= g && (nmatch > 0 ==> g <= nmatch && spans[0] == Span(start, end))
      invariant forall i :: 1 <= i < g && i < nmatch ==>
                  || spans[i] == UNSET
                  || (i <= groupCount && SpanOk(matcher.subject, matcher.table, i, spans[i], start, end))
      invariant matcher.captures != null ==>
                  forall i :: 1 <= i < g && i <= groupCount && i < nmatch ==> spans[i] == matcher.captures[i]
      invariant forall i :: nmatch <= i < spans.Length ==> spans[i] == old(spans[i])
    {
      if matcher.captures != null && g <= groupCount {
        assert matcher.Spans()[g] == matcher.captures[g];
        spans[g] := matcher.captures[g];
      } else {
        spans[g] := UNSET;
      }
      g := g + 1;
    }
  }
}
