/** The span-building part of crates/syntax/src/highlight.rs: highlight names, the fold of
    a highlight-event sequence into byte spans, and the `SyntaxHighlighter` that runs it.
    The events are the ones tree-sitter's highlighter would yield; they are a parameter
    here, each event already either a value or its error text. */
module SyntaxHighlight {
  import opened Wrappers
  import opened SyntaxLanguage
  import opened SyntaxLines

  /** One event of the highlighter: a stretch of source bytes, the start of a highlight
      (an index into the configured names) or the end of the innermost one. */
  datatype HighlightEvent = Source(start: nat, end: nat) | HighlightStart(idx: nat) | HighlightEnd

  /** The names the highlighter is configured with, in index order. */
  const HighlightNames: seq<seq<char>> := ["keyword", "function", "type", "string", "comment",
    "number", "operator", "variable", "punctuation", "property", "constant"]

  /** The token types of those names, in the same order. */
  const NamedTokenTypes: seq<TokenType> := [TokenType.Keyword, TokenType.Function, TokenType.Type,
    TokenType.String, TokenType.Comment, TokenType.Number, TokenType.Operator, TokenType.Variable,
    TokenType.Punctuation, TokenType.Property, TokenType.Constant]

  /** The token type of a highlight name; a name outside the table is `TokenType.None`. */
  function TokenTypeOfName(name: seq<char>): TokenType
  {
    if name == "keyword" then TokenType.Keyword
    else if name == "function" then TokenType.Function
    else if name == "type" then TokenType.Type
    else if name == "string" then TokenType.String
    else if name == "comment" then TokenType.Comment
    else if name == "number" then TokenType.Number
    else if name == "operator" then TokenType.Operator
    else if name == "variable" then TokenType.Variable
    else if name == "punctuation" then TokenType.Punctuation
    else if name == "property" then TokenType.Property
    else if name == "constant" then TokenType.Constant
    else TokenType.None
  }

  /** `map_index_to_token_type`: the type of the `idx`-th name, nothing past the names. */
  function MapIndexToTokenType(names: seq<seq<char>>, idx: nat): (r: Option<TokenType>)
    ensures r.Some? <==> idx < |names|
  {
    if idx < |names| then Some(TokenTypeOfName(names[idx])) else Option.None
  }

  /** With the builtin names, index `i` is the `i`-th token type, and never `None`. */
  lemma BuiltinNamesMap(i: nat)
    requires i < |HighlightNames|
    ensures MapIndexToTokenType(HighlightNames, i) == Some(NamedTokenTypes[i])
    ensures NamedTokenTypes[i] != TokenType.None
  {
    assert |NamedTokenTypes| == |HighlightNames| == 11;
  }

  /** A name that is not one of the table's is highlighted as `TokenType.None`. */
  lemma UnknownNameIsNone(names: seq<seq<char>>, idx: nat)
    requires idx < |names| && names[idx] !in HighlightNames
    ensures MapIndexToTokenType(names, idx) == Some(TokenType.None)
  {
  }

  // ----- the fold as the source writes it -----

  /** The fold's state in the source: the current byte position and the spans so far. */
  datatype FoldState = FoldState(pos: nat, spans: seq<HighlightSpan>)

  /** One event of the source's fold: a source stretch moves the position to its end; a
      known highlight start pushes an empty span at the position; an end sets the end of
      the last pushed span to the position. */
  function StepAsWritten(names: seq<seq<char>>, st: FoldState, ev: HighlightEvent): FoldState
  {
    match ev
    case Source(_, end) => FoldState(end, st.spans)
    case HighlightStart(idx) =>
      (match MapIndexToTokenType(names, idx)
       case Some(t) => FoldState(st.pos, st.spans + [HighlightSpan(st.pos, st.pos, t)])
       case None => st)
    case HighlightEnd =>
      if st.spans == [] then st
      else
        var n := |st.spans| - 1;
        FoldState(st.pos, st.spans[..n] + [st.spans[n].(endByte := st.pos)])
  }

  /** The source's fold over a whole event sequence, from position 0 and no spans. */
  function FoldAsWritten(names: seq<seq<char>>, evs: seq<HighlightEvent>): FoldState
  {
    if evs == [] then FoldState(0, [])
    else StepAsWritten(names, FoldAsWritten(names, evs[..|evs| - 1]), evs[|evs| - 1])
  }

  // ----- the fold with highlights closed innermost first -----

  /** The fold's state with the highlights still open, innermost last: the index of each
      one's span, or nothing for a start whose index has no name. */
  datatype NestState = NestState(pos: nat, spans: seq<HighlightSpan>, open: seq<Option<nat>>)

  /** One event: as in the source, except that an end closes the innermost open highlight
      (and nothing when none is open) instead of the last pushed span. */
  function Step(names: seq<seq<char>>, st: NestState, ev: HighlightEvent): NestState
  {
    match ev
    case Source(_, end) => st.(pos := end)
    case HighlightStart(idx) =>
      (match MapIndexToTokenType(names, idx)
       case Some(t) => NestState(st.pos, st.spans + [HighlightSpan(st.pos, st.pos, t)], st.open + [Some(|st.spans|)])
       case None => st.(open := st.open + [Option.None]))
    case HighlightEnd =>
      if st.open == [] then st
      else
        var top := st.open[|st.open| - 1];
        var rest := st.open[..|st.open| - 1];
        if top.Some? && top.value < |st.spans| then
          NestState(st.pos, st.spans[top.value := st.spans[top.value].(endByte := st.pos)], rest)
        else st.(open := rest)
  }

  function Fold(names: seq<seq<char>>, evs: seq<HighlightEvent>): NestState
  {
    if evs == [] then NestState(0, [], [])
    else Step(names, Fold(names, evs[..|evs| - 1]), evs[|evs| - 1])
  }

  /** Highlights minus ends: how many are open after `evs`. */
  function Depth(evs: seq<HighlightEvent>): int
  {
    if evs == [] then 0
    else
      var last := evs[|evs| - 1];
      Depth(evs[..|evs| - 1]) + (if last.HighlightStart? then 1 else if last.HighlightEnd? then -1 else 0)
  }

  /** No highlight inside another, every end closing an open one, every index named. */
  predicate Flat(names: seq<seq<char>>, evs: seq<HighlightEvent>)
  {
    (forall i :: 0 <= i <= |evs| ==> 0 <= Depth(evs[..i]) <= 1)
    && (forall i :: 0 <= i < |evs| && evs[i].HighlightStart? ==> evs[i].idx < |names|)
  }

  /** Without nesting the two folds build the same spans, so the source's fold is right
      on flat highlights. */
  lemma {:induction false} FlatFoldsAgree(names: seq<seq<char>>, evs: seq<HighlightEvent>)
    requires Flat(names, evs)
    ensures Fold(names, evs).pos == FoldAsWritten(names, evs).pos
    ensures Fold(names, evs).spans == FoldAsWritten(names, evs).spans
    ensures Depth(evs) == 0 ==> Fold(names, evs).open == []
    ensures Depth(evs) == 1 ==>
      (|Fold(names, evs).spans| >= 1 && Fold(names, evs).open == [Some(|Fold(names, evs).spans| - 1)])
    decreases |evs|
  {
    if evs != [] {
      var init := evs[..|evs| - 1];
      assert Flat(names, init) by {
        forall i | 0 <= i <= |init| ensures 0 <= Depth(init[..i]) <= 1 {
          assert init[..i] == evs[..i];
        }
      }
      FlatFoldsAgree(names, init);
      assert evs[..|evs|] == evs;
      var last := evs[|evs| - 1];
      assert last.HighlightStart? ==> last.idx < |names|;
      FlatStep(names, Fold(names, init), FoldAsWritten(names, init), last, Depth(init), Depth(evs));
    }
  }

  /** One event of a flat sequence keeps the two folds' states in step. */
  lemma FlatStep(names: seq<seq<char>>, a: NestState, b: FoldState, e: HighlightEvent, d: int, d': int)
    requires a.pos == b.pos && a.spans == b.spans
    requires d == 0 ==> a.open == []
    requires d == 1 ==> |a.spans| >= 1 && a.open == [Some(|a.spans| - 1)]
    requires 0 <= d <= 1 && 0 <= d' <= 1
    requires d' == d + (if e.HighlightStart? then 1 else if e.HighlightEnd? then -1 else 0)
    requires e.HighlightStart? ==> e.idx < |names|
    ensures Step(names, a, e).pos == StepAsWritten(names, b, e).pos
    ensures Step(names, a, e).spans == StepAsWritten(names, b, e).spans
    ensures d' == 0 ==> Step(names, a, e).open == []
    ensures d' == 1 ==> |Step(names, a, e).spans| >= 1 && Step(names, a, e).open == [Some(|Step(names, a, e).spans| - 1)]
  {
    if e.HighlightEnd? {
      var n := |a.spans| - 1;
      assert a.spans[n := a.spans[n].(endByte := a.pos)] == a.spans[..n] + [a.spans[n].(endByte := a.pos)];
    }
  }

  /** A highlight (a keyword) with another one (a string) nested in it, followed by more
      of the outer one. */
  const NestedEvents: seq<HighlightEvent> := [HighlightStart(0), Source(0, 2), HighlightStart(3),
    Source(2, 3), HighlightEnd, Source(3, 5), HighlightEnd]

  /** On `NestedEvents` the source's fold leaves the outer span empty and stretches the
      inner one over the outer's tail. */
  lemma NestedAsWrittenExample()
    ensures FoldAsWritten(HighlightNames, NestedEvents).spans ==
      [HighlightSpan(0, 0, TokenType.Keyword), HighlightSpan(2, 5, TokenType.String)]
  {
    var evs := NestedEvents;
    BuiltinNamesMap(0);
    BuiltinNamesMap(3);
    var k := HighlightSpan(0, 0, TokenType.Keyword);
    assert FoldAsWritten(HighlightNames, evs[..0]) == FoldState(0, []);
    assert evs[..1][..0] == evs[..0];
    assert FoldAsWritten(HighlightNames, evs[..1]) == FoldState(0, [k]);
    assert evs[..2][..1] == evs[..1];
    assert FoldAsWritten(HighlightNames, evs[..2]) == FoldState(2, [k]);
    assert evs[..3][..2] == evs[..2];
    assert FoldAsWritten(HighlightNames, evs[..3]) == FoldState(2, [k, HighlightSpan(2, 2, TokenType.String)]);
    assert evs[..4][..3] == evs[..3];
    assert FoldAsWritten(HighlightNames, evs[..4]) == FoldState(3, [k, HighlightSpan(2, 2, TokenType.String)]);
    assert evs[..5][..4] == evs[..4];
    assert FoldAsWritten(HighlightNames, evs[..5]) == FoldState(3, [k, HighlightSpan(2, 3, TokenType.String)]);
    assert evs[..6][..5] == evs[..5];
    assert FoldAsWritten(HighlightNames, evs[..6]) == FoldState(5, [k, HighlightSpan(2, 3, TokenType.String)]);
    assert evs[..7][..6] == evs[..6];
    assert evs[..7] == evs;
  }

  /** On `NestedEvents`, closing innermost first gives the outer span all of its bytes and
      the inner one its own. */
  lemma NestedCorrectedExample()
    ensures Fold(HighlightNames, NestedEvents).spans ==
      [HighlightSpan(0, 5, TokenType.Keyword), HighlightSpan(2, 3, TokenType.String)]
  {
    var evs := NestedEvents;
    BuiltinNamesMap(0);
    BuiltinNamesMap(3);
    var k := HighlightSpan(0, 0, TokenType.Keyword);
    var t := HighlightSpan(2, 2, TokenType.String);
    assert Fold(HighlightNames, evs[..0]) == NestState(0, [], []);
    assert evs[..1][..0] == evs[..0];
    assert Fold(HighlightNames, evs[..1]) == NestState(0, [k], [Some(0)]);
    assert evs[..2][..1] == evs[..1];
    assert Fold(HighlightNames, evs[..2]) == NestState(2, [k], [Some(0)]);
    assert evs[..3][..2] == evs[..2];
    assert Fold(HighlightNames, evs[..3]) == NestState(2, [k, t], [Some(0), Some(1)]);
    assert evs[..4][..3] == evs[..3];
    assert Fold(HighlightNames, evs[..4]) == NestState(3, [k, t], [Some(0), Some(1)]);
    assert evs[..5][..4] == evs[..4];
    assert Fold(HighlightNames, evs[..5]) == NestState(3, [k, t.(endByte := 3)], [Some(0)]);
    assert evs[..6][..5] == evs[..5];
    assert Fold(HighlightNames, evs[..6]) == NestState(5, [k, t.(endByte := 3)], [Some(0)]);
    assert evs[..7][..6] == evs[..6];
    assert evs[..7] == evs;
  }

  /** The events yielded before the first error, or that error. */
  function EventsOrError(evs: seq<Result<HighlightEvent, seq<char>>>): (r: Result<seq<HighlightEvent>, seq<char>>)
    ensures r.Success? ==> |r.value| == |evs| && forall i :: 0 <= i < |evs| ==> evs[i] == Success(r.value[i])
    ensures r.Failure? <==> exists i :: 0 <= i < |evs| && evs[i].Failure?
  {
    if evs == [] then Success([])
    else
      match EventsOrError(evs[..|evs| - 1])
      case Failure(e) => Failure(e)
      case Success(vs) =>
        match evs[|evs| - 1]
        case Failure(e) => Failure(e)
        case Success(v) => Success(vs + [v])
  }

  /** What `highlight_text` returns: an error without a language, an error when the
      highlighter fails or an event fails, otherwise the spans of the fold. */
  function HighlightOutcome(configured: bool, names: seq<seq<char>>,
                            highlights: Result<seq<Result<HighlightEvent, seq<char>>>, seq<char>>)
    : Result<seq<HighlightSpan>, seq<char>>
  {
    if !configured then Failure("No language configured")
    else match highlights
      case Failure(e) => Failure("Highlight error: " + e)
      case Success(evs) =>
        match EventsOrError(evs)
        case Failure(e) => Failure("Event error: " + e)
        case Success(vs) => Success(Fold(names, vs).spans)
  }

  /** One span per highlight start with a named index, and every open highlight that has
      a span points at one. */
  lemma {:induction false} SpansAreEvents(names: seq<seq<char>>, evs: seq<HighlightEvent>)
    ensures |Fold(names, evs).spans| == StartsNamed(names, evs)
    ensures forall k :: k in Fold(names, evs).open && k.Some? ==> k.value < |Fold(names, evs).spans|
    decreases |evs|
  {
    if evs != [] {
      SpansAreEvents(names, evs[..|evs| - 1]);
      var st := Fold(names, evs[..|evs| - 1]);
      if evs[|evs| - 1].HighlightEnd? && st.open != [] {
        assert forall k :: k in st.open[..|st.open| - 1] ==> k in st.open;
      }
    }
  }

  /** The number of highlight starts whose index has a name. */
  function StartsNamed(names: seq<seq<char>>, evs: seq<HighlightEvent>): nat
  {
    if evs == [] then 0
    else
      StartsNamed(names, evs[..|evs| - 1]) +
      (if evs[|evs| - 1].HighlightStart? && evs[|evs| - 1].idx < |names| then 1 else 0)
  }

  class SyntaxHighlighter {
    /** The name of the configured language, if one is set. */
    var currentConfig: Option<seq<char>>
    const highlightNames: seq<seq<char>>

    /** `SyntaxHighlighter::new`: the builtin names and no language. */
    constructor()
      ensures currentConfig == Option.None && highlightNames == HighlightNames
    {
      currentConfig := Option.None;
      highlightNames := HighlightNames;
    }

    /** `set_language`: the grammar and the highlight query are loaded by tree-sitter,
        whose outcomes are given; the language is set only when both succeed. */
    method SetLanguage(config: LanguageConfig, grammar: Result<(), seq<char>>, query: Result<(), seq<char>>)
      returns (r: Result<(), seq<char>>)
      modifies this
      ensures grammar.Failure? ==> r == grammar && currentConfig == old(currentConfig)
      ensures grammar.Success? && query.Failure? ==>
        r == Failure("Failed to create highlight config: " + query.error) && currentConfig == old(currentConfig)
      ensures grammar.Success? && query.Success? ==> r == Success(()) && currentConfig == Some(config.name)
    {
      if grammar.Failure? {
        return grammar;
      }
      if query.Failure? {
        return Failure("Failed to create highlight config: " + query.error);
      }
      currentConfig := Some(config.name);
      r := Success(());
    }

    /** `highlight_text`: the event loop, with the position and the open highlights kept
        in local variables. */
    method HighlightText(highlights: Result<seq<Result<HighlightEvent, seq<char>>>, seq<char>>)
      returns (r: Result<seq<HighlightSpan>, seq<char>>)
      ensures currentConfig.None? ==> r == Failure("No language configured")
      ensures r == HighlightOutcome(currentConfig.Some?, highlightNames, highlights)
    {
      if currentConfig.None? {
        return Failure("No language configured");
      }
      if highlights.Failure? {
        return Failure("Highlight error: " + highlights.error);
      }
      var evs := highlights.value;
      var spans: seq<HighlightSpan> := [];
      var open: seq<Option<nat>> := [];
      var pos: nat := 0;
      ghost var vs: seq<HighlightEvent> := [];
      for i := 0 to |evs|
        invariant EventsOrError(evs[..i]) == Success(vs)
        invariant Fold(highlightNames, vs) == NestState(pos, spans, open)
      {
        assert evs[..i + 1][..i] == evs[..i];
        match evs[i] {
          case Failure(e) =>
            assert EventsOrError(evs[..i + 1]) == Failure(e);
            EventsFail(evs, i + 1);
            return Failure("Event error: " + e);
          case Success(ev) =>
            assert EventsOrError(evs[..i + 1]) == Success(vs + [ev]);
            FoldSnoc(highlightNames, vs, ev);
            pos, spans, open := ApplyEvent(highlightNames, pos, spans, open, ev);
            vs := vs + [ev];
        }
      }
      assert evs[..|evs|] == evs;
      r := Success(spans);
    }

    /** `highlight_lines`: the spans of the whole text, then for each line of the range the
        spans that reach into it, in line coordinates. */
    method HighlightLines(text: seq<char>, rangeStart: nat, rangeEnd: nat,
                          highlights: Result<seq<Result<HighlightEvent, seq<char>>>, seq<char>>)
      returns (r: Result<seq<LineHighlights>, seq<char>>)
      ensures var all := HighlightOutcome(currentConfig.Some?, highlightNames, highlights);
        match all
        case Failure(e) => r == Failure(e)
        case Success(spans) => r == Success(LinesHighlighted(text, rangeStart, rangeEnd, spans))
    {
      var all := HighlightText(highlights);
      if all.Failure? {
        return Failure(all.error);
      }
      var result := ProjectLines(text, rangeStart, rangeEnd, all.value);
      r := Success(result);
    }
  }

  /** The body of the event loop of `highlight_text`, on the position, the spans and the
      open highlights. */
  method ApplyEvent(names: seq<seq<char>>, pos: nat, spans: seq<HighlightSpan>, open: seq<Option<nat>>,
                    ev: HighlightEvent)
    returns (pos': nat, spans': seq<HighlightSpan>, open': seq<Option<nat>>)
    ensures NestState(pos', spans', open') == Step(names, NestState(pos, spans, open), ev)
  {
    pos', spans', open' := pos, spans, open;
    match ev {
      case Source(_, end) =>
        pos' := end;
      case HighlightStart(idx) =>
        var t := MapIndexToTokenType(names, idx);
        if t.Some? {
          open' := open + [Some(|spans|)];
          spans' := spans + [HighlightSpan(pos, pos, t.value)];
        } else {
          open' := open + [Option.None];
        }
      case HighlightEnd =>
        if open != [] {
          var top := open[|open| - 1];
          open' := open[..|open| - 1];
          if top.Some? && top.value < |spans| {
            spans' := spans[top.value := spans[top.value].(endByte := pos)];
          }
        }
    }
  }

  /** The fold one event further. */
  lemma FoldSnoc(names: seq<seq<char>>, vs: seq<HighlightEvent>, ev: HighlightEvent)
    ensures Fold(names, vs + [ev]) == Step(names, Fold(names, vs), ev)
  {
    assert (vs + [ev])[..|vs|] == vs;
  }

  /** An error among the first `n` events makes the whole prefix fail. */
  lemma {:induction false} EventsFail(evs: seq<Result<HighlightEvent, seq<char>>>, n: nat)
    requires n <= |evs| && EventsOrError(evs[..n]).Failure?
    ensures EventsOrError(evs).Failure? && EventsOrError(evs).error == EventsOrError(evs[..n]).error
    decreases |evs| - n
  {
    if n < |evs| {
      assert evs[..n + 1][..n] == evs[..n];
      EventsFail(evs, n + 1);
    } else {
      assert evs[..n] == evs;
    }
  }
}
