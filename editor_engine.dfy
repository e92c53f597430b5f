/** The editor engine of crates/editor/src/engine.rs: a buffer, the viewport, the soft-wrap
    switch, the key table and a cache of line texts. Every command method leaves the buffer
    in the state the matching function of `EditorCommands` describes; the view model is
    built from the cache, cut into soft-wrap segments, with the selection spans and the
    caret columns of each segment. */
module EditorEngine {
  import opened Wrappers
  import opened RustStr
  import opened EditorDocument
  import opened EditorSelection
  import opened EditorHistory
  import opened EditorBuffer
  import opened EditorSearch
  import opened EditorLayout
  import opened EditorKeymap
  import opened EditorCommands

  // ----- the integer parts of the view model -----

  function Pow10(k: nat): (r: nat)
    ensures r >= 1
  {
    if k == 0 then 1 else 10 * Pow10(k - 1)
  }

  /** The length of `n.to_string()`. */
  function DecimalDigits(n: nat): (d: nat)
    ensures d >= 1
  {
    if n < 10 then 1 else 1 + DecimalDigits(n / 10)
  }

  /** `n` has `d` digits exactly when `10^(d-1) <= n < 10^d` (0 has one digit). */
  lemma {:induction false} DecimalDigitsBounds(n: nat)
    ensures n < Pow10(DecimalDigits(n))
    ensures n >= 1 ==> Pow10(DecimalDigits(n) - 1) <= n
  {
    if n >= 10 {
      DecimalDigitsBounds(n / 10);
    }
  }

  /** The gutter: the digit count of the line count, at least three, plus one column. */
  function GutterWidth(lineCount: nat): (w: nat)
    ensures w >= 4
  {
    Max(DecimalDigits(lineCount), 3) + 1
  }

  /** The gutter is four columns wide up to 999 lines and grows by one column per digit
      beyond. */
  lemma GutterWidthFits(lineCount: nat)
    ensures GutterWidth(lineCount) == 4 <==> lineCount < 1000
    ensures lineCount >= 1000 ==> GutterWidth(lineCount) == DecimalDigits(lineCount) + 1
  {
    var a := lineCount / 10;
    var b := a / 10;
    assert lineCount >= 1000 <==> b >= 10;
    if lineCount >= 100 {
      assert DecimalDigits(lineCount) == 2 + DecimalDigits(b);
      if b >= 10 {
        assert DecimalDigits(b) >= 2;
      }
    } else if lineCount >= 10 {
      assert DecimalDigits(lineCount) == 1 + DecimalDigits(a) && a < 10;
    }
  }

  /** The lines the view shows: from the first viewport line (clamped to the line count),
      at most `maxLines` of them. */
  function VisibleRange(vp: Viewport, lineCount: nat): (r: (nat, nat))
    ensures r.0 == Min(vp.firstLine, lineCount)
    ensures r.0 <= r.1 <= lineCount
    ensures r.1 - r.0 == Min(vp.maxLines, lineCount - r.0)
  {
    var first := Min(vp.firstLine, lineCount);
    (first, Min(first + vp.maxLines, lineCount))
  }

  /** The span of `s` on the segment that starts `off` columns into the line
      `[ls, le)` and is `segLen` chars long, in segment columns, if that part is not
      empty. */
  function SpanOn(s: Selection, ls: nat, le: nat, off: nat, segLen: nat): (r: Option<SelectionSpan>)
    ensures r.Some? ==> r.value.startCol < r.value.endCol <= segLen
  {
    var selStart, selEnd := Min(Max(s.Start(), ls), le), Min(Max(s.End(), ls), le);
    if selStart < selEnd then
      var startCol, endCol := SaturatingSub(selStart, ls), SaturatingSub(selEnd, ls);
      var segEnd := off + segLen;
      var interStart, interEnd := Min(Max(startCol, off), segEnd), Min(Max(endCol, off), segEnd);
      if interStart < interEnd then Some(SelectionSpan(interStart - off, interEnd - off)) else None
    else None
  }

  /** A segment column lies in the span exactly when its char is selected and belongs to
      the line. */
  lemma SpanOnCovers(s: Selection, ls: nat, le: nat, off: nat, segLen: nat, x: nat)
    requires ls <= le && x < segLen
    ensures var r := SpanOn(s, ls, le, off, segLen);
      (r.Some? && r.value.startCol <= x < r.value.endCol) <==>
      (s.Start() <= ls + off + x < s.End() && ls + off + x < le)
  {
  }

  /** The column of the caret `s` on that segment, if it is a caret within the line whose
      column falls on the segment (its end included). */
  function CaretColumn(s: Selection, ls: nat, le: nat, off: nat, segLen: nat): (r: Option<nat>)
    ensures r.Some? <==> s.IsCaret() && ls + off <= s.head <= ls + off + segLen && s.head <= le
    ensures r.Some? ==> r.value <= segLen && s.head == ls + off + r.value
  {
    if s.IsCaret() && ls <= s.head <= le then
      var col := s.head - ls;
      if off <= col <= off + segLen then Some(col - off) else None
    else None
  }

  /** The spans of all the selections, in selection order. */
  function SegmentSpans(sels: seq<Selection>, ls: nat, le: nat, off: nat, segLen: nat): (r: seq<SelectionSpan>)
    ensures |r| <= |sels|
    ensures forall i :: 0 <= i < |r| ==> r[i].startCol < r[i].endCol <= segLen
  {
    if sels == [] then []
    else
      var rest := SegmentSpans(sels[..|sels| - 1], ls, le, off, segLen);
      match SpanOn(sels[|sels| - 1], ls, le, off, segLen)
      case None => rest
      case Some(sp) => rest + [sp]
  }

  /** The caret columns of all the selections, in selection order. */
  function SegmentCursors(sels: seq<Selection>, ls: nat, le: nat, off: nat, segLen: nat): (r: seq<nat>)
    ensures |r| <= |sels|
    ensures forall i :: 0 <= i < |r| ==> r[i] <= segLen
  {
    if sels == [] then []
    else
      var rest := SegmentCursors(sels[..|sels| - 1], ls, le, off, segLen);
      match CaretColumn(sels[|sels| - 1], ls, le, off, segLen)
      case None => rest
      case Some(c) => rest + [c]
  }

  /** The inner loop of `view_model`: the spans and caret columns of one segment. */
  method SegmentMarks(sels: seq<Selection>, ls: nat, le: nat, off: nat, segLen: nat)
    returns (spans: seq<SelectionSpan>, cursors: seq<nat>)
    ensures spans == SegmentSpans(sels, ls, le, off, segLen)
    ensures cursors == SegmentCursors(sels, ls, le, off, segLen)
  {
    spans, cursors := [], [];
    for i := 0 to |sels|
      invariant spans == SegmentSpans(sels[..i], ls, le, off, segLen)
      invariant cursors == SegmentCursors(sels[..i], ls, le, off, segLen)
    {
      assert sels[..i + 1][..i] == sels[..i];
      var span := SpanOn(sels[i], ls, le, off, segLen);
      if span.Some? {
        spans := spans + [span.value];
      }
      var col := CaretColumn(sels[i], ls, le, off, segLen);
      if col.Some? {
        cursors := cursors + [col.value];
      }
    }
    assert sels[..|sels|] == sels;
  }

  /** The lines from `a` up to `b`. */
  function LineRange(a: nat, b: nat): (r: set<nat>)
    ensures forall k :: k in r <==> a <= k < b
    decreases b - a
  {
    if a >= b then {} else LineRange(a, b - 1) + {b - 1}
  }

  /** The removal loop of the version check: the lines `start..=end` dropped. */
  method RemoveLines(cache: map<nat, seq<char>>, start: nat, end: nat) returns (r: map<nat, seq<char>>)
    ensures r == cache - LineRange(start, end + 1)
  {
    r := cache;
    var line := start;
    while line <= end
      invariant start <= line <= Max(start, end + 1)
      invariant r == cache - LineRange(start, line)
    {
      r := r - {line};
      line := line + 1;
    }
  }

  /** The line cache after the version check of `view_model`: kept while the document
      version is the cached one; cleared when the line count changed or no edit impact is
      recorded; otherwise without the lines of the impact, clamped to the document. */
  function Invalidated(cache: map<nat, seq<char>>, cachedVersion: u64, cachedCount: nat,
                       version: u64, lineCount: nat, impact: Option<EditImpact>): (r: map<nat, seq<char>>)
    ensures r.Keys <= cache.Keys && forall l :: l in r ==> r[l] == cache[l]
    ensures version == cachedVersion ==> r == cache
  {
    if version == cachedVersion then cache
    else if lineCount != cachedCount then map[]
    else match impact
      case None => map[]
      case Some(i) =>
        cache - LineRange(Min(i.startLine, lineCount), Min(i.endLineInclusive, SaturatingSub(lineCount, 1)) + 1)
  }

  /** After an edit that leaves the line count alone, no line of its impact that exists in
      the document is still cached, and every other line keeps its entry. */
  lemma InvalidatedDropsImpact(cache: map<nat, seq<char>>, cachedVersion: u64, version: u64,
                               lineCount: nat, i: EditImpact, l: nat)
    requires version != cachedVersion && l < lineCount
    ensures var r := Invalidated(cache, cachedVersion, lineCount, version, lineCount, Some(i));
      (i.startLine <= l <= i.endLineInclusive ==> l !in r) &&
      (l in cache && !(i.startLine <= l <= i.endLineInclusive) ==> l in r)
  {
  }

  /** Every cached entry is the text of its line in `t`. */
  predicate CacheAgrees(cache: map<nat, seq<char>>, t: seq<char>)
  {
    forall l :: l in cache ==> cache[l] == LineText(t, l)
  }

  /** A row built for line `l` whose text is `text`: the segment of `text` at the row's
      offset, the spans and caret columns of that segment, and whether the line holds the
      primary head. */
  predicate RowOf(v: VisualLine, t: seq<char>, sels: seq<Selection>, active: nat, l: nat, text: seq<char>)
  {
    v.lineIdx == l &&
    v.wrapColOffset + |v.text| <= |text| && text[v.wrapColOffset..v.wrapColOffset + |v.text|] == v.text &&
    v.selections == SegmentSpans(sels, LineStartChar(t, l), LineEndChar(t, l), v.wrapColOffset, |v.text|) &&
    v.cursors == SegmentCursors(sels, LineStartChar(t, l), LineEndChar(t, l), v.wrapColOffset, |v.text|) &&
    (v.isCurrentLine <==> l == active)
  }

  /** A row of the view model: one for a cached line of `[first, last)`, built from the
      cached text. */
  predicate Shown(v: VisualLine, t: seq<char>, sels: seq<Selection>, active: nat,
                  cache: map<nat, seq<char>>, first: nat, last: nat)
  {
    first <= v.lineIdx < last && v.lineIdx in cache && RowOf(v, t, sels, active, v.lineIdx, cache[v.lineIdx])
  }

  /** The segment loop of `view_model` for line `l`: one row per segment, segment `k` at
      offset `k * width`, which is `Column(k, width)`. */
  method SegmentRows(t: seq<char>, sels: seq<Selection>, active: nat, l: nat, text: seq<char>,
                     segments: seq<seq<char>>, width: nat)
    returns (rows: seq<VisualLine>)
    requires forall k :: 0 <= k < |segments| ==>
      Column(k, width) + |segments[k]| <= |text| && segments[k] == text[Column(k, width)..Column(k, width) + |segments[k]|]
    ensures |rows| == |segments|
    ensures forall i :: 0 <= i < |rows| ==>
      RowOf(rows[i], t, sels, active, l, text) && rows[i].wrapColOffset == Column(i, width) && rows[i].text == segments[i]
  {
    var ls, le := LineStartChar(t, l), LineEndChar(t, l);
    rows := [];
    for k := 0 to |segments|
      invariant |rows| == k
      invariant forall i :: 0 <= i < k ==> rows[i] == MadeRow(t, sels, active, l, segments[i], i, width)
    {
      var v := SegmentRow(t, sels, active, l, segments[k], k, width, ls, le);
      rows := rows + [v];
    }
    forall i | 0 <= i < |rows|
      ensures RowOf(rows[i], t, sels, active, l, text) && rows[i].wrapColOffset == Column(i, width) && rows[i].text == segments[i]
    {
      MadeRowOf(t, sels, active, l, text, segments[i], i, width);
    }
  }

  /** The row of segment `k` of line `l`, as `view_model` fills it in. */
  function MadeRow(t: seq<char>, sels: seq<Selection>, active: nat, l: nat, seg: seq<char>, k: nat, width: nat): VisualLine
  {
    var ls, le, off := LineStartChar(t, l), LineEndChar(t, l), Column(k, width);
    VisualLine(l, off, seg, SegmentSpans(sels, ls, le, off, |seg|), SegmentCursors(sels, ls, le, off, |seg|), l == active)
  }

  /** A segment taken from the line's text at its column makes a row of that line. */
  lemma MadeRowOf(t: seq<char>, sels: seq<Selection>, active: nat, l: nat, text: seq<char>, seg: seq<char>,
                  k: nat, width: nat)
    requires Column(k, width) + |seg| <= |text| && seg == text[Column(k, width)..Column(k, width) + |seg|]
    ensures var v := MadeRow(t, sels, active, l, seg, k, width);
      RowOf(v, t, sels, active, l, text) && v.wrapColOffset == Column(k, width) && v.text == seg
  {
  }

  /** The row of segment `k` of line `l`: at offset `k * width`, with the selection spans
      and carets that fall inside it. */
  method SegmentRow(t: seq<char>, sels: seq<Selection>, active: nat, l: nat, seg: seq<char>, k: nat, width: nat,
                    ls: nat, le: nat)
    returns (v: VisualLine)
    requires ls == LineStartChar(t, l) && le == LineEndChar(t, l)
    ensures v == MadeRow(t, sels, active, l, seg, k, width)
  {
    var off := k * width;
    ColumnIsProduct(k, width);
    var spans, cursors := SegmentMarks(sels, ls, le, off, |seg|);
    v := VisualLine(l, off, seg, spans, cursors, l == active);
  }

  /** What `view_model` leaves of the cache: the kept entries and the text of every
      visible line, nothing else. */
  predicate CacheOf(t: seq<char>, kept: map<nat, seq<char>>, cache: map<nat, seq<char>>, first: nat, last: nat)
  {
    (forall l :: l in kept ==> l in cache && cache[l] == kept[l]) &&
    (forall l :: l in cache && l !in kept ==> first <= l < last && cache[l] == LineText(t, l)) &&
    (forall l :: first <= l < last ==> l in cache)
  }

  /** The rows `view_model` builds: every row is `Shown`; without soft wrap there is
      exactly one row per visible line, in order, holding the whole cached text. */
  predicate RowsOf(lines: seq<VisualLine>, t: seq<char>, sels: seq<Selection>, active: nat,
                   cache: map<nat, seq<char>>, first: nat, last: nat, wrap: bool)
  {
    (forall v :: v in lines ==> Shown(v, t, sels, active, cache, first, last)) &&
    (!wrap ==> |lines| == last - first) &&
    (!wrap ==> InLineOrder(lines, cache, first))
  }

  /** Row `i` is the whole cached text of line `first + i`. */
  predicate InLineOrder(rows: seq<VisualLine>, cache: map<nat, seq<char>>, first: nat)
  {
    forall i :: 0 <= i < |rows| ==>
      rows[i].lineIdx == first + i && rows[i].wrapColOffset == 0 && first + i in cache &&
      rows[i].text == cache[first + i]
  }

  /** What `view_model` leaves: its cache and its rows. */
  predicate ViewOf(lines: seq<VisualLine>, t: seq<char>, sels: seq<Selection>, active: nat,
                   kept: map<nat, seq<char>>, cache: map<nat, seq<char>>, first: nat, last: nat, wrap: bool)
  {
    CacheOf(t, kept, cache, first, last) && RowsOf(lines, t, sels, active, cache, first, last, wrap)
  }

  /** When the kept entries agree with the document, so does the whole cache, and every
      row shows the document's own line text from the row's offset. */
  lemma ViewShowsDocument(lines: seq<VisualLine>, t: seq<char>, sels: seq<Selection>, active: nat,
                          kept: map<nat, seq<char>>, cache: map<nat, seq<char>>, first: nat, last: nat, wrap: bool)
    requires ViewOf(lines, t, sels, active, kept, cache, first, last, wrap) && CacheAgrees(kept, t)
    ensures CacheAgrees(cache, t)
    ensures forall v :: v in lines ==>
      v.wrapColOffset + |v.text| <= |LineText(t, v.lineIdx)| &&
      v.text == LineText(t, v.lineIdx)[v.wrapColOffset..v.wrapColOffset + |v.text|]
    ensures !wrap ==> forall i :: 0 <= i < |lines| ==> lines[i].text == LineText(t, first + i)
  {
  }

  /** The row loop of `view_model`: for every visible line, its text from the cache or
      from the document (cached then), cut into segments when wrapping, one row per
      segment with its spans and caret columns. */
  method BuildLines(t: seq<char>, sels: seq<Selection>, active: nat, cache0: map<nat, seq<char>>,
                    first: nat, last: nat, wrap: bool, width: nat)
    returns (cache: map<nat, seq<char>>, lines: seq<VisualLine>)
    requires first <= last && (wrap ==> width > 0)
    ensures ViewOf(lines, t, sels, active, cache0, cache, first, last, wrap)
  {
    cache := cache0;
    lines := [];
    var l := first;
    while l < last
      invariant first <= l <= last
      invariant ViewOf(lines, t, sels, active, cache0, cache, first, l, wrap)
    {
      ghost var before, shown := cache, lines;
      var rows;
      cache, rows := LineRows(t, sels, active, l, cache, wrap, width);
      lines := lines + rows;
      ViewStep(t, sels, active, cache0, before, cache, shown, rows, first, l, wrap);
      l := l + 1;
    }
  }

  /** One pass of the row loop: line `l`'s text from the cache, or from the document and
      then cached, and its rows. */
  method LineRows(t: seq<char>, sels: seq<Selection>, active: nat, l: nat, cache0: map<nat, seq<char>>,
                  wrap: bool, width: nat)
    returns (cache: map<nat, seq<char>>, rows: seq<VisualLine>)
    requires wrap ==> width > 0
    ensures cache == if l in cache0 then cache0 else cache0[l := LineText(t, l)]
    ensures forall v :: v in rows ==> RowOf(v, t, sels, active, l, cache[l])
    ensures !wrap ==> |rows| == 1 && rows[0].lineIdx == l && rows[0].wrapColOffset == 0 && rows[0].text == cache[l]
  {
    cache := cache0;
    var text: seq<char>;
    if l in cache {
      text := cache[l];
    } else {
      text := LineText(t, l);
      cache := cache[l := text];
    }
    var segments: seq<seq<char>>;
    if wrap {
      segments := SplitByCols(text, width);
      PiecesAt(text, width);
    } else {
      segments := [text];
      assert text[0..|text|] == text;
    }
    rows := SegmentRows(t, sels, active, l, text, segments, width);
  }

  /** Line `l` added to the cache and its rows appended extend a view of the lines
      `[first, l)` to one of `[first, l + 1)`. */
  lemma ViewStep(t: seq<char>, sels: seq<Selection>, active: nat, kept: map<nat, seq<char>>,
                 before: map<nat, seq<char>>, after: map<nat, seq<char>>, shown: seq<VisualLine>,
                 rows: seq<VisualLine>, first: nat, l: nat, wrap: bool)
    requires first <= l
    requires ViewOf(shown, t, sels, active, kept, before, first, l, wrap)
    requires after == if l in before then before else before[l := LineText(t, l)]
    requires forall v :: v in rows ==> RowOf(v, t, sels, active, l, after[l])
    requires !wrap ==> |rows| == 1 && rows[0].lineIdx == l && rows[0].wrapColOffset == 0 && rows[0].text == after[l]
    ensures ViewOf(shown + rows, t, sels, active, kept, after, first, l + 1, wrap)
  {
    CacheStep(t, kept, before, after, first, l);
    RowsStep(t, sels, active, before, after, shown, rows, first, l, wrap);
  }

  /** The cache conditions carry over from `[first, l)` to `[first, l + 1)`. */
  lemma CacheStep(t: seq<char>, kept: map<nat, seq<char>>, before: map<nat, seq<char>>,
                  after: map<nat, seq<char>>, first: nat, l: nat)
    requires first <= l && CacheOf(t, kept, before, first, l)
    requires after == if l in before then before else before[l := LineText(t, l)]
    ensures CacheOf(t, kept, after, first, l + 1)
  {
    if l in before {
      CacheHit(t, kept, before, first, l);
    } else {
      CacheMiss(t, kept, before, first, l);
    }
  }

  /** A line already cached extends the cached range as it is. */
  lemma CacheHit(t: seq<char>, kept: map<nat, seq<char>>, cache: map<nat, seq<char>>, first: nat, l: nat)
    requires first <= l && CacheOf(t, kept, cache, first, l) && l in cache
    ensures CacheOf(t, kept, cache, first, l + 1)
  {
    forall k | k in cache && k !in kept ensures first <= k < l + 1 && cache[k] == LineText(t, k) {
      assert first <= k < l && cache[k] == LineText(t, k);
    }
    forall k | first <= k < l + 1 ensures k in cache {
      if k < l { assert k in cache; }
    }
  }

  /** A line not cached yet is cached with its text. */
  lemma CacheMiss(t: seq<char>, kept: map<nat, seq<char>>, before: map<nat, seq<char>>, first: nat, l: nat)
    requires first <= l && CacheOf(t, kept, before, first, l) && l !in before
    ensures CacheOf(t, kept, before[l := LineText(t, l)], first, l + 1)
  {
    var x := LineText(t, l);
    MissKeeps(kept, before, l, x);
    MissOwn(t, kept, before, first, l, x);
    MissCovers(before, before[l := x], first, l, x);
  }

  lemma MissKeeps(kept: map<nat, seq<char>>, before: map<nat, seq<char>>, l: nat, x: seq<char>)
    requires l !in before && forall k :: k in kept ==> k in before && before[k] == kept[k]
    ensures forall k :: k in kept ==> k in before[l := x] && before[l := x][k] == kept[k]
  {
    forall k | k in kept ensures k in before[l := x] && before[l := x][k] == kept[k] {
      assert k in before && k != l;
    }
  }

  lemma MissOwn(t: seq<char>, kept: map<nat, seq<char>>, before: map<nat, seq<char>>, first: nat, l: nat,
                x: seq<char>)
    requires first <= l && x == LineText(t, l)
    requires forall k :: k in before && k !in kept ==> first <= k < l && before[k] == LineText(t, k)
    ensures forall k :: k in before[l := x] && k !in kept ==> first <= k < l + 1 && before[l := x][k] == LineText(t, k)
  {
    forall k | k in before[l := x] && k !in kept ensures first <= k < l + 1 && before[l := x][k] == LineText(t, k) {
      if k != l { assert k in before; }
    }
  }

  lemma MissCovers(before: map<nat, seq<char>>, after: map<nat, seq<char>>, first: nat, l: nat, x: seq<char>)
    requires after == before[l := x] && forall k :: first <= k < l ==> k in before
    ensures forall k :: first <= k < l + 1 ==> k in after
  {
    forall k | first <= k < l + 1 ensures k in after {
      if k < l { assert k in before; }
    }
  }

  /** The rows carry over from `[first, l)` to `[first, l + 1)`. */
  lemma RowsStep(t: seq<char>, sels: seq<Selection>, active: nat, before: map<nat, seq<char>>,
                 after: map<nat, seq<char>>, shown: seq<VisualLine>, rows: seq<VisualLine>, first: nat, l: nat,
                 wrap: bool)
    requires first <= l && RowsOf(shown, t, sels, active, before, first, l, wrap)
    requires after == if l in before then before else before[l := LineText(t, l)]
    requires forall v :: v in rows ==> RowOf(v, t, sels, active, l, after[l])
    requires !wrap ==> |rows| == 1 && rows[0].lineIdx == l && rows[0].wrapColOffset == 0 && rows[0].text == after[l]
    ensures RowsOf(shown + rows, t, sels, active, after, first, l + 1, wrap)
  {
    assert l in after;
    assert forall k :: k in before ==> k in after && after[k] == before[k];
    ShownStep(t, sels, active, before, after, shown, rows, first, l);
    if !wrap {
      OrderStep(shown, rows, before, after, first, l);
    }
  }

  /** Without soft wrap, the rows stay in line order, one per line, when line `l` is added
      to the cache and its row appended. */
  lemma OrderStep(shown: seq<VisualLine>, rows: seq<VisualLine>, before: map<nat, seq<char>>,
                  after: map<nat, seq<char>>, first: nat, l: nat)
    requires first <= l && l in after && |shown| == l - first
    requires forall k :: k in before ==> k in after && after[k] == before[k]
    requires InLineOrder(shown, before, first)
    requires |rows| == 1 && rows[0].lineIdx == l && rows[0].wrapColOffset == 0 && rows[0].text == after[l]
    ensures |shown + rows| == l + 1 - first
    ensures InLineOrder(shown + rows, after, first)
  {
    forall i | 0 <= i < |shown|
      ensures shown[i].lineIdx == first + i && shown[i].wrapColOffset == 0 && first + i in after &&
        shown[i].text == after[first + i]
    {
      assert shown[i].lineIdx == first + i && first + i in before && shown[i].text == before[first + i];
      assert first + i in after && after[first + i] == before[first + i];
    }
    assert InLineOrder(shown, after, first);
    assert first + |shown| == l;
    RowOrderStep(shown, rows, after, first);
  }

  /** The rows already built stay shown when line `l` is added to the cache and its own
      rows are appended. */
  lemma ShownStep(t: seq<char>, sels: seq<Selection>, active: nat, before: map<nat, seq<char>>,
                  after: map<nat, seq<char>>, shown: seq<VisualLine>, rows: seq<VisualLine>, first: nat, l: nat)
    requires first <= l && l in after
    requires forall k :: k in before ==> k in after && after[k] == before[k]
    requires forall v :: v in shown ==> Shown(v, t, sels, active, before, first, l)
    requires forall v :: v in rows ==> RowOf(v, t, sels, active, l, after[l])
    ensures forall v :: v in shown + rows ==> Shown(v, t, sels, active, after, first, l + 1)
  {
    forall v | v in shown + rows ensures Shown(v, t, sels, active, after, first, l + 1) {
      if v in shown {
        assert Shown(v, t, sels, active, before, first, l);
      } else {
        assert v in rows;
      }
    }
  }

  /** Without soft wrap, one row for line `first + |shown|` keeps the rows in line order. */
  lemma RowOrderStep(shown: seq<VisualLine>, rows: seq<VisualLine>, cache: map<nat, seq<char>>, first: nat)
    requires InLineOrder(shown, cache, first)
    requires |rows| == 1 && rows[0].lineIdx == first + |shown| && rows[0].wrapColOffset == 0
    requires first + |shown| in cache && rows[0].text == cache[first + |shown|]
    ensures InLineOrder(shown + rows, cache, first)
  {
    var all := shown + rows;
    forall i | 0 <= i < |all|
      ensures all[i].lineIdx == first + i && all[i].wrapColOffset == 0 && first + i in cache &&
        all[i].text == cache[first + i]
    {
      if i < |shown| {
        assert all[i] == shown[i];
      } else {
        assert all[i] == rows[0];
      }
    }
  }

  // ----- key dispatch -----

  /** The unit `indent` adds and `outdent` removes. */
  const IndentUnit: seq<char> := "    "

  /** The prefix `toggle_comment` toggles. */
  const CommentPrefix: seq<char> := "//"

  /** What `apply_key_action` needs of the buffer for each action (ropey panics on an
      index past the text). */
  predicate CanApply(st: BufferState, action: KeyAction)
  {
    match action
    case Undo => true
    case Redo => true
    case Move(m, extend) => BasesInText(st.text, st.selections.AllIncludingPrimary(), m, extend)
    case Backspace => !AllCarets(st.selections.AllIncludingPrimary()) ==> SelectionsInText(st)
    case Delete => !AllCarets(st.selections.AllIncludingPrimary()) ==> SelectionsInText(st)
    case DeleteWordForward => !AllCarets(st.selections.AllIncludingPrimary()) ==> SelectionsInText(st)
    case Copy => true
    case Cut => CopyText(st.text, st.selections.AllIncludingPrimary()) != [] ==> SelectionsInText(st)
    case DeleteLine => HeadsInText(st.text, st.selections.AllIncludingPrimary())
    case DuplicateLine => HeadsInText(st.text, st.selections.AllIncludingPrimary())
    case _ => SelectionsInText(st)
  }

  /** The buffer state `apply_key_action(action, clipboard)` leaves. */
  function KeyActionApplied(st: BufferState, action: KeyAction, clipboard: seq<char>): BufferState
    requires CanApply(st, action)
  {
    match action
    case Newline => Typed(st, "\n")
    case Backspace => Backspaced(st)
    case Delete => DeletedForward(st)
    case DeleteWordBackward => DeletedWordBackward(st)
    case DeleteWordForward => DeletedWordForward(st)
    case DeleteLine => DeletedLine(st)
    case Undo => Undone(st)
    case Redo => Redone(st)
    case Copy => st
    case Cut => CutState(st)
    case Paste => Typed(st, clipboard)
    case Indent => LinePrefixEdited(st, IndentUnit, false)
    case Outdent => LinePrefixEdited(st, IndentUnit, true)
    case DuplicateLine => DuplicatedLine(st)
    case ToggleComment => ToggledLinePrefix(st, CommentPrefix)
    case Move(m, extend) => Moved(st, m, extend)
  }

  /** The clipboard after the action: the copied text for copy and cut, else unchanged. */
  function ClipboardAfter(st: BufferState, action: KeyAction, clipboard: seq<char>): seq<char>
  {
    if action.Copy? || action.Cut? then CopyText(st.text, st.selections.AllIncludingPrimary()) else clipboard
  }

  /** Every action but undo and redo is possible with the selections inside the text. */
  lemma InTextCanApply(st: BufferState, action: KeyAction)
    requires SelectionsInText(st)
    ensures CanApply(st, action)
  {
    var sels := st.selections.AllIncludingPrimary();
    assert HeadsInText(st.text, sels) by {
      forall i | 0 <= i < |sels| ensures sels[i].head <= |st.text| {
        assert sels[i].End() <= |st.text|;
      }
    }
    if action.Move? {
      MovedStaysInText(st, action.movement, action.extend);
    }
  }

  // ----- the loops of the commands, on values -----

  /** The selections `backspace` builds from carets. */
  method CollectBackspaceTargets(len: nat, sels: seq<Selection>) returns (all: seq<Selection>)
    ensures all == BackspaceTargets(len, sels)
  {
    all := [];
    for i := 0 to |sels|
      invariant |all| == i
      invariant forall j :: 0 <= j < i ==> all[j] == BackspaceTarget(len, sels[j])
    {
      var caret := Min(sels[i].head, len);
      if caret == 0 {
        all := all + [Selection(caret, caret)];
      } else {
        all := all + [Selection(caret - 1, caret)];
      }
    }
  }

  /** The selections `delete_forward` builds from carets. */
  method CollectDeleteForwardTargets(len: nat, sels: seq<Selection>) returns (all: seq<Selection>)
    ensures all == DeleteForwardTargets(len, sels)
  {
    all := [];
    for i := 0 to |sels|
      invariant |all| == i
      invariant forall j :: 0 <= j < i ==> all[j] == DeleteForwardTarget(len, sels[j])
    {
      var caret := Min(sels[i].head, len);
      if caret >= len {
        all := all + [Selection(caret, caret)];
      } else {
        all := all + [Selection(caret, caret + 1)];
      }
    }
  }

  /** The ranges `delete_word_backward` collects. */
  method CollectWordBackRanges(text: seq<char>, sels: seq<Selection>) returns (ranges: seq<ReplaceRange>)
    ensures ranges == WordBackRanges(text, sels)
  {
    ranges := [];
    for i := 0 to |sels|
      invariant ranges == WordBackRanges(text, sels[..i])
    {
      assert sels[..i + 1][..i] == sels[..i];
      var caret := sels[i].head;
      var start := FindWordLeft(text, caret);
      if start < caret {
        ranges := ranges + [ReplaceRange(start, caret, [])];
      }
    }
    assert sels[..|sels|] == sels;
  }

  /** The ranges `delete_word_forward` collects. */
  method CollectWordForwardRanges(text: seq<char>, sels: seq<Selection>) returns (ranges: seq<ReplaceRange>)
    ensures ranges == WordForwardRanges(text, sels)
  {
    ranges := [];
    for i := 0 to |sels|
      invariant ranges == WordForwardRanges(text, sels[..i])
    {
      assert sels[..i + 1][..i] == sels[..i];
      var caret := sels[i].head;
      var end := FindWordRight(text, caret);
      if caret < end {
        ranges := ranges + [ReplaceRange(caret, end, [])];
      }
    }
    assert sels[..|sels|] == sels;
  }

  /** The line of every head, sorted, without repeats (`delete_line`, `duplicate_line`). */
  method CollectHeadLines(t: seq<char>, sels: seq<Selection>) returns (lines: seq<nat>)
    requires HeadsInText(t, sels)
    ensures lines == SortedUnique(HeadLines(t, sels))
  {
    var idxs: seq<nat> := [];
    for i := 0 to |sels|
      invariant |idxs| == i
      invariant forall j :: 0 <= j < i ==> idxs[j] == CharToLine(t, sels[j].head)
    {
      idxs := idxs + [CharToLine(t, sels[i].head)];
    }
    assert idxs == HeadLines(t, sels);
    lines := SortedUnique(idxs);
  }

  /** The lines every selection starts and ends on, sorted, without repeats (the
      line-prefix edits). */
  method CollectTouchedLines(t: seq<char>, sels: seq<Selection>) returns (lines: seq<nat>)
    requires InText(t, sels)
    ensures lines == SortedUnique(TouchedLines(t, sels))
  {
    var idxs: seq<nat> := [];
    for i := 0 to |sels|
      invariant idxs == TouchedLines(t, sels[..i])
    {
      assert sels[..i + 1][..i] == sels[..i];
      var (start, end) := sels[i].Range();
      idxs := idxs + [CharToLine(t, start)];
      idxs := idxs + [CharToLine(t, end)];
    }
    assert sels[..|sels|] == sels;
    lines := SortedUnique(idxs);
  }

  /** One more element taken from the front of a sequence. */
  lemma TakeSnoc<T>(s: seq<T>, i: nat)
    requires i < |s|
    ensures s[..i + 1] == s[..i] + [s[i]]
  {
  }

  /** Splicing a sequence that is a step followed by a rest. */
  lemma AppendStep<T>(done: seq<T>, whole: seq<T>, step: seq<T>, rest: seq<T>)
    requires whole == step + rest
    ensures done + whole == (done + step) + rest
  {
  }

  lemma LineDeleteRangesStep(t: seq<char>, lines: seq<nat>, i: nat)
    requires 0 < i <= |lines|
    ensures LineDeleteRanges(t, lines[..i]) == LineDeleteRanges(t, [lines[i - 1]]) + LineDeleteRanges(t, lines[..i - 1])
  {
    assert lines[..i][..i - 1] == lines[..i - 1];
    assert [lines[i - 1]][..0] == [];
  }

  /** The deletion `delete_line` collects for line `l`: its chars with its '\n', nothing
      for an empty line. */
  method DeleteRangeFor(t: seq<char>, l: nat) returns (step: seq<ReplaceRange>)
    ensures step == LineDeleteRanges(t, [l])
  {
    var start, end := LineStartChar(t, l), LineEndChar(t, l);
    step := if start < end then [ReplaceRange(start, end, [])] else [];
    assert [l][..0] == [];
  }

  lemma LineDuplicateRangesStep(t: seq<char>, lines: seq<nat>, i: nat)
    requires 0 < i <= |lines|
    ensures var a, b := LineStartChar(t, lines[i - 1]), LineEndChar(t, lines[i - 1]);
      LineDuplicateRanges(t, lines[..i]) ==
        [ReplaceRange(a, b, DuplicatedChunk(Slice(t, a, b)))] + LineDuplicateRanges(t, lines[..i - 1])
  {
    assert lines[..i][..i - 1] == lines[..i - 1];
  }

  lemma PrefixRangesStep(t: seq<char>, p: seq<char>, lines: seq<nat>, remove: bool, i: nat)
    requires 0 < i <= |lines|
    ensures PrefixRanges(t, p, lines[..i], remove) ==
      PrefixRangeAt(t, p, LineStartChar(t, lines[i - 1]), remove) + PrefixRanges(t, p, lines[..i - 1], remove)
  {
    assert lines[..i][..i - 1] == lines[..i - 1];
  }

  /** The deletions `delete_line` collects, walking the lines from the last one down. */
  method CollectLineDeletes(t: seq<char>, lines: seq<nat>) returns (ranges: seq<ReplaceRange>)
    ensures ranges == LineDeleteRanges(t, lines)
  {
    ranges := [];
    assert LineDeleteRanges(t, lines) == ranges + LineDeleteRanges(t, lines[..|lines|]) by {
      assert lines[..|lines|] == lines;
    }
    var i := |lines|;
    while i > 0
      invariant 0 <= i <= |lines|
      invariant LineDeleteRanges(t, lines) == ranges + LineDeleteRanges(t, lines[..i])
    {
      var step := DeleteRangeFor(t, lines[i - 1]);
      LineDeleteRangesStep(t, lines, i);
      AppendStep(ranges, LineDeleteRanges(t, lines[..i]), step, LineDeleteRanges(t, lines[..i - 1]));
      ranges := ranges + step;
      i := i - 1;
    }
    assert LineDeleteRanges(t, lines[..0]) == [] by {
      assert lines[..0] == [];
    }
    assert ranges + [] == ranges;
  }

  /** The replacements `duplicate_line` collects, walking the lines from the last one
      down. */
  method CollectLineDuplicates(t: seq<char>, lines: seq<nat>) returns (ranges: seq<ReplaceRange>)
    ensures ranges == LineDuplicateRanges(t, lines)
  {
    ranges := [];
    assert lines[..|lines|] == lines;
    var i := |lines|;
    while i > 0
      invariant 0 <= i <= |lines|
      invariant LineDuplicateRanges(t, lines) == ranges + LineDuplicateRanges(t, lines[..i])
    {
      LineDuplicateRangesStep(t, lines, i);
      var start, end := LineStartChar(t, lines[i - 1]), LineEndChar(t, lines[i - 1]);
      var original := Slice(t, start, end);
      var step := [ReplaceRange(start, end, DuplicatedChunk(original))];
      AppendStep(ranges, LineDuplicateRanges(t, lines[..i]), step, LineDuplicateRanges(t, lines[..i - 1]));
      ranges := ranges + step;
      i := i - 1;
    }
  }

  /** The ranges `apply_line_prefix_edit` collects, walking the lines from the last one
      down. */
  method CollectPrefixRanges(t: seq<char>, prefix: seq<char>, lines: seq<nat>, remove: bool)
    returns (ranges: seq<ReplaceRange>)
    ensures ranges == PrefixRanges(t, prefix, lines, remove)
  {
    ranges := [];
    assert lines[..|lines|] == lines;
    var i := |lines|;
    while i > 0
      invariant 0 <= i <= |lines|
      invariant PrefixRanges(t, prefix, lines, remove) == ranges + PrefixRanges(t, prefix, lines[..i], remove)
    {
      var start := LineStartChar(t, lines[i - 1]);
      var step := PrefixRangeFor(t, prefix, start, remove);
      PrefixLoopStep(t, prefix, lines, remove, i, ranges, step);
      ranges := ranges + step;
      i := i - 1;
    }
  }

  /** One iteration of `CollectPrefixRanges`: the range of line `i - 1` moves from what is
      left to collect to what is collected. */
  lemma PrefixLoopStep(t: seq<char>, p: seq<char>, lines: seq<nat>, remove: bool, i: nat,
                       ranges: seq<ReplaceRange>, step: seq<ReplaceRange>)
    requires 0 < i <= |lines|
    requires PrefixRanges(t, p, lines, remove) == ranges + PrefixRanges(t, p, lines[..i], remove)
    requires step == PrefixRangeAt(t, p, LineStartChar(t, lines[i - 1]), remove)
    ensures PrefixRanges(t, p, lines, remove) == (ranges + step) + PrefixRanges(t, p, lines[..i - 1], remove)
  {
    PrefixRangesStep(t, p, lines, remove, i);
    AppendStep(ranges, PrefixRanges(t, p, lines[..i], remove), step, PrefixRanges(t, p, lines[..i - 1], remove));
  }

  /** The range `apply_line_prefix_edit` collects for the line starting at `start`. */
  method PrefixRangeFor(t: seq<char>, prefix: seq<char>, start: nat, remove: bool) returns (step: seq<ReplaceRange>)
    requires start <= |t|
    ensures step == PrefixRangeAt(t, prefix, start, remove)
  {
    if remove {
      var current := Slice(t, start, Min(start + |prefix|, |t|));
      if current == prefix {
        step := [ReplaceRange(start, start + |prefix|, [])];
      } else {
        step := [];
      }
    } else {
      step := [ReplaceRange(start, start, prefix)];
    }
  }

  /** What `toggle_line_prefix` asks first: does every line start with the prefix? */
  method CheckAllHavePrefix(t: seq<char>, prefix: seq<char>, lines: seq<nat>) returns (allHave: bool)
    ensures allHave <==> AllHavePrefix(t, prefix, lines)
  {
    allHave := true;
    var i := 0;
    while i < |lines|
      invariant 0 <= i <= |lines|
      invariant forall j :: 0 <= j < i ==> HasPrefixAt(t, LineStartChar(t, lines[j]), prefix)
    {
      var start := LineStartChar(t, lines[i]);
      var current := Slice(t, start, Min(start + |prefix|, |t|));
      if current != prefix {
        assert !HasPrefixAt(t, LineStartChar(t, lines[i]), prefix);
        return false;
      }
      i := i + 1;
    }
  }

  /** The selections `move_cursors` builds. */
  method CollectMoved(t: seq<char>, sels: seq<Selection>, m: Movement, extend: bool) returns (moved: seq<Selection>)
    requires BasesInText(t, sels, m, extend)
    ensures moved == MovedSelections(t, sels, m, extend)
  {
    moved := [];
    for i := 0 to |sels|
      invariant |moved| == i
      invariant forall j :: 0 <= j < i ==> moved[j] == MovedSelection(t, sels[j], m, extend)
    {
      var one := MoveOne(t, sels[i], m, extend);
      moved := moved + [one];
    }
  }

  /** One selection of `move_cursors`: the head moved from its base; the anchor kept when
      extending, otherwise a caret. */
  method MoveOne(t: seq<char>, s: Selection, m: Movement, extend: bool) returns (r: Selection)
    requires UsesLines(m) ==> MoveBase(s, m, extend) <= |t|
    ensures r == MovedSelection(t, s, m, extend)
  {
    var base := MoveBase(s, m, extend);
    var newHead: nat;
    if m.WordLeft? {
      newHead := FindWordLeft(t, base);
    } else if m.WordRight? {
      newHead := FindWordRight(t, base);
    } else {
      newHead := MovedHead(t, m, base);
    }
    if extend {
      r := Selection(s.anchor, newHead);
    } else {
      r := Selection(newHead, newHead);
    }
  }

  /** The loop of `copy`: the selected slices joined by '\n'. */
  method JoinSelected(t: seq<char>, sels: seq<Selection>) returns (out: seq<char>)
    ensures out == Join(SelectedSlices(t, sels), "\n")
  {
    var slices := SelectedSlices(t, sels);
    out := [];
    for i := 0 to |sels|
      invariant i == 0 ==> out == []
      invariant i > 0 ==> out == Join(slices[..i], "\n")
    {
      var (start, end) := sels[i].Range();
      var piece := Slice(t, start, end);
      assert piece == slices[i];
      TakeSnoc(slices, i);
      if i > 0 {
        JoinSnoc(slices[..i], piece, "\n");
        out := out + "\n";
      } else {
        assert Join([piece], "\n") == piece;
      }
      out := out + piece;
    }
    if sels == [] {
      assert slices == [];
    } else {
      assert slices[..|sels|] == slices;
    }
  }

  /** The search loop of `replace_all`: `find_next` forward from the end of the previous
      match, until nothing is found or a match reaches the end of the text. */
  method CollectMatches(t: seq<char>, q: SearchQuery) returns (matches: seq<SearchMatch>)
    ensures matches == ReplaceAllMatches(t, q)
  {
    if q.needle == [] {
      return [];
    }
    ghost var h, n := Haystack(t, q), Needle(q);
    ghost var total := GreedyMatches(h, n, 0);
    var cursor := 0;
    matches := [];
    var done := false;
    while !done
      invariant !done ==> cursor <= |t| && matches + GreedyMatches(h, n, cursor) == total
      invariant done ==> matches == total
      decreases if done then 0 else |t| - cursor + 1
    {
      matches, cursor, done := SearchStep(t, q, cursor, matches, total);
    }
    ReplaceAllGreedy(t, q);
  }

  /** One pass of the search loop of `replace_all`: the next match is collected and the
      search moves past it; the loop stops when nothing is found or the match reaches the
      end of the text. */
  method SearchStep(t: seq<char>, q: SearchQuery, cursor: nat, matches: seq<SearchMatch>,
                    ghost total: seq<SearchMatch>)
    returns (matches': seq<SearchMatch>, cursor': nat, done: bool)
    requires q.needle != [] && cursor <= |t|
    requires matches + GreedyMatches(Haystack(t, q), Needle(q), cursor) == total
    ensures !done ==> cursor < cursor' <= |t| && matches' + GreedyMatches(Haystack(t, q), Needle(q), cursor') == total
    ensures done ==> matches' == total
  {
    var m := FindForward(t, q, cursor);
    GreedyLoopStep(Haystack(t, q), Needle(q), cursor, m, matches, total);
    matches', cursor', done := matches, cursor, true;
    if m.Some? {
      matches' := matches + [m.value];
      cursor' := m.value.endChar;
      done := cursor' >= |t|;
    }
  }

  /** Away from an empty needle, `replace_all`'s matches are the greedy ones from the
      start. */
  lemma ReplaceAllGreedy(t: seq<char>, q: SearchQuery)
    requires q.needle != []
    ensures ReplaceAllMatches(t, q) == GreedyMatches(Haystack(t, q), Needle(q), 0)
  {
  }

  /** One search of `CollectMatches`, on the first occurrence from the cursor made a
      match: nothing found leaves the matches complete; a match found is the next one,
      and the rest start from its end. */
  lemma GreedyLoopStep(h: seq<char>, n: seq<char>, cursor: nat, m: Option<SearchMatch>,
                       matches: seq<SearchMatch>, total: seq<SearchMatch>)
    requires n != [] && cursor <= |h|
    requires var r := FindFrom(h, n, cursor);
      m == if r.None? then None else Some(SearchMatch(r.value, r.value + |n|))
    requires matches + GreedyMatches(h, n, cursor) == total
    ensures m.None? ==> matches == total
    ensures m.Some? ==> cursor < m.value.endChar <= |h|
    ensures m.Some? && m.value.endChar >= |h| ==> matches + [m.value] == total
    ensures m.Some? && m.value.endChar < |h| ==>
      (matches + [m.value]) + GreedyMatches(h, n, m.value.endChar) == total
  {
    var r := FindFrom(h, n, cursor);
    if r.Some? {
      var rest := if r.value + |n| >= |h| then [] else GreedyMatches(h, n, r.value + |n|);
      assert GreedyMatches(h, n, cursor) == [SearchMatch(r.value, r.value + |n|)] + rest;
      AppendStep(matches, GreedyMatches(h, n, cursor), [m.value], rest);
    } else {
      assert matches + [] == matches;
    }
  }

  /** The search `replace_all` makes: `find_next` forward from `cursor`. */
  method FindForward(t: seq<char>, q: SearchQuery, cursor: nat) returns (m: Option<SearchMatch>)
    requires q.needle != [] && cursor <= |t|
    ensures var r := FindFrom(Haystack(t, q), Needle(q), cursor);
      m == if r.None? then None else Some(SearchMatch(r.value, r.value + |Needle(q)|))
  {
    m := FindNext(t, q, cursor, Forward);
    FindNextForward(t, q, cursor);
  }

  /** Forward, `find_next` from inside the text is the first occurrence from there. */
  lemma FindNextForward(t: seq<char>, q: SearchQuery, cursor: nat)
    requires q.needle != [] && cursor <= |t|
    ensures var r := FindFrom(Haystack(t, q), Needle(q), cursor);
      FindNext(t, q, cursor, Forward) == if r.None? then None else Some(SearchMatch(r.value, r.value + |Needle(q)|))
  {
    assert Min(cursor, |Haystack(t, q)|) == cursor;
  }

  /** The collected matches, their ranges and the caret after the last one give the state
      `replace_all` leaves. */
  lemma ReplaceAllPlan(st: BufferState, q: SearchQuery, repl: seq<char>, matches: seq<SearchMatch>,
                       ranges: seq<ReplaceRange>, caret: nat)
    requires matches == ReplaceAllMatches(st.text, q) && matches != []
    requires ranges == ReplacementRanges(matches, repl) && caret == matches[|matches| - 1].startChar + |repl|
    ensures RangesInText(st.text, ranges)
    ensures ReplacedAll(st, q, repl) == RangesReplaced(st, ranges, TransactionKind.Replace, SingleCaretSet(caret))
  {
    ReplacedAllMatchesReplaced(st, q, repl, matches);
    MatchesReplacedIs(st, matches, repl, ranges, caret);
  }

  /** The ranges and caret the method builds are those `MatchesReplaced` replaces with. */
  lemma MatchesReplacedIs(st: BufferState, matches: seq<SearchMatch>, repl: seq<char>,
                          ranges: seq<ReplaceRange>, caret: nat)
    requires matches != [] && ranges == ReplacementRanges(matches, repl) && RangesInText(st.text, ranges)
    requires caret == matches[|matches| - 1].startChar + |repl|
    ensures MatchesReplaced(st, matches, repl) == RangesReplaced(st, ranges, TransactionKind.Replace, SingleCaretSet(caret))
  {
  }

  /** The ranges `replace_all` builds from its matches. */
  method CollectReplacements(matches: seq<SearchMatch>, repl: seq<char>) returns (ranges: seq<ReplaceRange>)
    ensures ranges == ReplacementRanges(matches, repl)
  {
    ranges := [];
    for i := 0 to |matches|
      invariant |ranges| == i
      invariant forall j :: 0 <= j < i ==> ranges[j] == ReplaceRange(matches[j].startChar, matches[j].endChar, repl)
    {
      ranges := ranges + [ReplaceRange(matches[i].startChar, matches[i].endChar, repl)];
    }
  }

  // ----- the engine -----

  /** `EditorEngine`: the buffer, what the view shows and the cache of line texts. */
  class Engine {
    const buffer: Buffer
    var viewport: Viewport
    var softWrap: bool
    var keymap: Keymap
    var lineCache: map<nat, seq<char>>
    var cachedDocVersion: u64
    var cachedLineCount: nat

    /** `EditorEngine::new`: a fresh buffer on the text, the 64-line, 120-column viewport
        at the top, no soft wrap, the default key table and an empty cache. */
    constructor (text: seq<char>)
      ensures fresh(buffer) && fresh(buffer.doc) && fresh(buffer.history)
      ensures buffer.State() == BufferState(text, 0, DefaultSet(), [], [], None)
      ensures viewport == Viewport(0, 64, 120) && !softWrap
      ensures keymap.bindings.Keys == DefaultChords()
      ensures lineCache == map[] && cachedDocVersion == 0 && cachedLineCount == 0
    {
      var k := WithDefaults();
      buffer := new Buffer(text);
      viewport := Viewport(0, 64, 120);
      softWrap := false;
      keymap := k;
      lineCache := map[];
      cachedDocVersion := 0;
      cachedLineCount := 0;
    }

    /** `insert_text`: the text typed over every selection. */
    method InsertText(ins: seq<char>)
      requires SelectionsInText(buffer.State())
      modifies buffer, buffer.doc, buffer.history
      ensures buffer.State() == Typed(old(buffer.State()), ins)
    {
      buffer.ApplyTextToSelections(ins);
    }

    /** `backspace`. */
    method Backspace()
      requires !AllCarets(buffer.selections.AllIncludingPrimary()) ==> SelectionsInText(buffer.State())
      modifies buffer, buffer.doc, buffer.history
      ensures buffer.State() == Backspaced(old(buffer.State()))
    {
      var sels := buffer.selections.AllIncludingPrimary();
      if !AllCarets(sels) {
        buffer.ApplyTextToSelections([]);
        return;
      }
      var all := CollectBackspaceTargets(|buffer.doc.text|, sels);
      assert FromList(all).AllIncludingPrimary() == all;
      buffer.selections := FromList(all);
      buffer.ApplyTextToSelections([]);
    }

    /** `delete_forward`. */
    method DeleteForward()
      requires !AllCarets(buffer.selections.AllIncludingPrimary()) ==> SelectionsInText(buffer.State())
      modifies buffer, buffer.doc, buffer.history
      ensures buffer.State() == DeletedForward(old(buffer.State()))
    {
      var sels := buffer.selections.AllIncludingPrimary();
      if !AllCarets(sels) {
        buffer.ApplyTextToSelections([]);
        return;
      }
      var all := CollectDeleteForwardTargets(|buffer.doc.text|, sels);
      assert FromList(all).AllIncludingPrimary() == all;
      buffer.selections := FromList(all);
      buffer.ApplyTextToSelections([]);
    }

    /** `delete_word_backward`. */
    method DeleteWordBackward()
      requires SelectionsInText(buffer.State())
      modifies buffer, buffer.doc, buffer.history
      ensures buffer.State() == DeletedWordBackward(old(buffer.State()))
    {
      var sels := buffer.selections.AllIncludingPrimary();
      if !AllCarets(sels) {
        buffer.ApplyTextToSelections([]);
        return;
      }
      var ranges := CollectWordBackRanges(buffer.doc.text, sels);
      var caret := if ranges == [] then 0 else ranges[|ranges| - 1].startChar;
      buffer.ApplyReplaceRanges(ranges, TransactionKind.Delete, SingleCaretSet(caret));
    }

    /** `delete_word_forward`. */
    method DeleteWordForward()
      requires !AllCarets(buffer.selections.AllIncludingPrimary()) ==> SelectionsInText(buffer.State())
      modifies buffer, buffer.doc, buffer.history
      ensures buffer.State() == DeletedWordForward(old(buffer.State()))
    {
      var sels := buffer.selections.AllIncludingPrimary();
      if !AllCarets(sels) {
        buffer.ApplyTextToSelections([]);
        return;
      }
      var ranges := CollectWordForwardRanges(buffer.doc.text, sels);
      var caret := if ranges == [] then 0 else ranges[0].startChar;
      buffer.ApplyReplaceRanges(ranges, TransactionKind.Delete, SingleCaretSet(caret));
    }

    /** `delete_line`. */
    method DeleteLine()
      requires HeadsInText(buffer.doc.text, buffer.selections.AllIncludingPrimary())
      modifies buffer, buffer.doc, buffer.history
      ensures buffer.State() == DeletedLine(old(buffer.State()))
    {
      var lines := CollectHeadLines(buffer.doc.text, buffer.selections.AllIncludingPrimary());
      var ranges := CollectLineDeletes(buffer.doc.text, lines);
      var caret := if ranges == [] then 0 else ranges[|ranges| - 1].startChar;
      buffer.ApplyReplaceRanges(ranges, TransactionKind.Delete, SingleCaretSet(caret));
    }

    /** `duplicate_line`. */
    method DuplicateLine()
      requires HeadsInText(buffer.doc.text, buffer.selections.AllIncludingPrimary())
      modifies buffer, buffer.doc, buffer.history
      ensures buffer.State() == DuplicatedLine(old(buffer.State()))
    {
      var lines := CollectHeadLines(buffer.doc.text, buffer.selections.AllIncludingPrimary());
      var ranges := CollectLineDuplicates(buffer.doc.text, lines);
      buffer.ApplyReplaceRanges(ranges, TransactionKind.Other, SingleCaretSet(buffer.selections.primary.head));
    }

    /** `apply_line_prefix_edit(prefix, remove)`. */
    method ApplyLinePrefixEdit(prefix: seq<char>, remove: bool)
      requires SelectionsInText(buffer.State())
      modifies buffer, buffer.doc, buffer.history
      ensures buffer.State() == LinePrefixEdited(old(buffer.State()), prefix, remove)
    {
      var lines := CollectTouchedLines(buffer.doc.text, buffer.selections.AllIncludingPrimary());
      var ranges := CollectPrefixRanges(buffer.doc.text, prefix, lines, remove);
      if ranges == [] {
        return;
      }
      buffer.ApplyReplaceRanges(ranges, TransactionKind.Other, SingleCaretSet(buffer.selections.primary.head));
    }

    /** `toggle_line_prefix(prefix)`. */
    method ToggleLinePrefix(prefix: seq<char>)
      requires SelectionsInText(buffer.State())
      modifies buffer, buffer.doc, buffer.history
      ensures buffer.State() == ToggledLinePrefix(old(buffer.State()), prefix)
    {
      var lines := CollectTouchedLines(buffer.doc.text, buffer.selections.AllIncludingPrimary());
      if lines == [] {
        return;
      }
      var allHave := CheckAllHavePrefix(buffer.doc.text, prefix, lines);
      ApplyLinePrefixEdit(prefix, allHave);
    }

    /** `indent`: four spaces added at the start of every touched line. */
    method Indent()
      requires SelectionsInText(buffer.State())
      modifies buffer, buffer.doc, buffer.history
      ensures buffer.State() == LinePrefixEdited(old(buffer.State()), IndentUnit, false)
    {
      ApplyLinePrefixEdit(IndentUnit, false);
    }

    /** `outdent`: four leading spaces removed from every touched line that has them. */
    method Outdent()
      requires SelectionsInText(buffer.State())
      modifies buffer, buffer.doc, buffer.history
      ensures buffer.State() == LinePrefixEdited(old(buffer.State()), IndentUnit, true)
    {
      ApplyLinePrefixEdit(IndentUnit, true);
    }

    /** `toggle_comment`: "//" toggled on the touched lines. */
    method ToggleComment()
      requires SelectionsInText(buffer.State())
      modifies buffer, buffer.doc, buffer.history
      ensures buffer.State() == ToggledLinePrefix(old(buffer.State()), CommentPrefix)
    {
      ToggleLinePrefix(CommentPrefix);
    }

    /** `move_cursors(movement, extend)`. */
    method MoveCursors(m: Movement, extend: bool)
      requires BasesInText(buffer.doc.text, buffer.selections.AllIncludingPrimary(), m, extend)
      modifies buffer
      ensures buffer.State() == Moved(old(buffer.State()), m, extend)
    {
      var moved := CollectMoved(buffer.doc.text, buffer.selections.AllIncludingPrimary(), m, extend);
      buffer.selections := FromList(moved);
    }

    /** `copy`: "" when every selection is a caret, else the selected slices joined by
        '\n'; nothing changes. */
    method Copy() returns (out: seq<char>)
      ensures out == CopyText(buffer.doc.text, buffer.selections.AllIncludingPrimary())
    {
      var sels := buffer.selections.AllIncludingPrimary();
      if AllCarets(sels) {
        return [];
      }
      out := JoinSelected(buffer.doc.text, sels);
    }

    /** `cut`: the copied text; the selections deleted when it is not empty. */
    method Cut() returns (out: seq<char>)
      requires CopyText(buffer.doc.text, buffer.selections.AllIncludingPrimary()) != [] ==> SelectionsInText(buffer.State())
      modifies buffer, buffer.doc, buffer.history
      ensures out == CopyText(old(buffer.doc.text), old(buffer.selections.AllIncludingPrimary()))
      ensures buffer.State() == CutState(old(buffer.State()))
    {
      out := Copy();
      if out == [] {
        return;
      }
      buffer.ApplyTextToSelections([]);
    }

    /** `replace_range(range, replacement)`. */
    method ReplaceRange(range: SearchMatch, repl: seq<char>)
      requires range.startChar <= |buffer.doc.text| && range.endChar <= |buffer.doc.text|
      modifies buffer, buffer.doc, buffer.history
      ensures buffer.State() == RangeReplacedBy(old(buffer.State()), range, repl)
    {
      buffer.ApplyReplaceRanges([EditorBuffer.ReplaceRange(range.startChar, range.endChar, repl)],
        TransactionKind.Replace, SingleCaretSet(range.startChar + |repl|));
    }

    /** `replace_all(query, replacement)`: every collected match replaced, and their number
        returned. */
    method ReplaceAll(q: SearchQuery, repl: seq<char>) returns (count: nat)
      modifies buffer, buffer.doc, buffer.history
      ensures count == |ReplaceAllMatches(old(buffer.doc.text), q)|
      ensures buffer.State() == ReplacedAll(old(buffer.State()), q, repl)
    {
      if q.needle == [] {
        return 0;
      }
      var t := buffer.doc.text;
      ghost var st := buffer.State();
      var matches := CollectMatches(t, q);
      if matches == [] {
        return 0;
      }
      var ranges := CollectReplacements(matches, repl);
      var caret := matches[|matches| - 1].startChar + |repl|;
      assert st.text == t;
      ReplaceAllPlan(st, q, repl, matches, ranges, caret);
      buffer.ApplyReplaceRanges(ranges, TransactionKind.Replace, SingleCaretSet(caret));
      count := |matches|;
    }

    /** `apply_key_action(action, clipboard)`: the action's command; copy and cut return
        the new clipboard text, paste types the clipboard. */
    method ApplyKeyAction(action: KeyAction, clipboard: seq<char>) returns (clip: seq<char>)
      requires CanApply(buffer.State(), action)
      modifies buffer, buffer.doc, buffer.history
      ensures clip == ClipboardAfter(old(buffer.State()), action, clipboard)
      ensures buffer.State() == KeyActionApplied(old(buffer.State()), action, clipboard)
    {
      clip := clipboard;
      if action.Move? || action.Undo? || action.Redo? || action.Copy? || action.Cut? {
        clip := ApplyNonEditing(action, clipboard);
      } else {
        ApplyEditing(action, clipboard);
      }
    }

    /** The arms of `apply_key_action` that move, undo, redo or use the clipboard. */
    method ApplyNonEditing(action: KeyAction, clipboard: seq<char>) returns (clip: seq<char>)
      requires action.Move? || action.Undo? || action.Redo? || action.Copy? || action.Cut?
      requires CanApply(buffer.State(), action)
      modifies buffer, buffer.doc, buffer.history
      ensures clip == ClipboardAfter(old(buffer.State()), action, clipboard)
      ensures buffer.State() == KeyActionApplied(old(buffer.State()), action, clipboard)
    {
      clip := clipboard;
      match action {
        case Undo => var _ := buffer.Undo();
        case Redo => var _ := buffer.Redo();
        case Copy => clip := Copy();
        case Cut => clip := Cut();
        case Move(m, extend) => MoveCursors(m, extend);
      }
    }

    /** The arms of `apply_key_action` that edit the text at the selections. */
    method ApplyEditing(action: KeyAction, clipboard: seq<char>)
      requires !(action.Move? || action.Undo? || action.Redo? || action.Copy? || action.Cut?)
      requires CanApply(buffer.State(), action)
      modifies buffer, buffer.doc, buffer.history
      ensures buffer.State() == KeyActionApplied(old(buffer.State()), action, clipboard)
    {
      match action {
        case Newline => buffer.ApplyTextToSelections("\n");
        case Backspace => Backspace();
        case Delete => DeleteForward();
        case DeleteWordBackward => DeleteWordBackward();
        case DeleteWordForward => DeleteWordForward();
        case DeleteLine => DeleteLine();
        case Paste => buffer.ApplyTextToSelections(clipboard);
        case Indent => Indent();
        case Outdent => Outdent();
        case DuplicateLine => DuplicateLine();
        case ToggleComment => ToggleComment();
      }
    }

    /** The version check of `view_model`: nothing when the version is the cached one;
        otherwise the cache is invalidated and the version and line count recorded. */
    method InvalidateCache()
      modifies this
      ensures viewport == old(viewport) && softWrap == old(softWrap) && keymap == old(keymap)
      ensures buffer.doc.version == old(cachedDocVersion) ==>
        cachedDocVersion == old(cachedDocVersion) && cachedLineCount == old(cachedLineCount)
      ensures buffer.doc.version != old(cachedDocVersion) ==>
        cachedDocVersion == buffer.doc.version && cachedLineCount == LenLines(buffer.doc.text)
      ensures lineCache == Invalidated(old(lineCache), old(cachedDocVersion), old(cachedLineCount),
        buffer.doc.version, LenLines(buffer.doc.text), buffer.lastEditImpact)
    {
      var version := buffer.doc.version;
      var lineCount := LenLines(buffer.doc.text);
      if version != cachedDocVersion {
        if lineCount != cachedLineCount {
          lineCache := map[];
        } else if buffer.lastEditImpact.Some? {
          var impact := buffer.lastEditImpact.value;
          var start := Min(impact.startLine, lineCount);
          var end := Min(impact.endLineInclusive, SaturatingSub(lineCount, 1));
          lineCache := RemoveLines(lineCache, start, end);
        } else {
          lineCache := map[];
        }
        cachedDocVersion := version;
        cachedLineCount := lineCount;
      }
    }

    /** `view_model`: the version check, then one row per soft-wrap segment of every
        visible line, each line's text read from the cache or from the document (and then
        cached); the gutter fits the line count. */
    method ViewModel() returns (vm: EditorViewModel)
      requires buffer.selections.primary.head <= |buffer.doc.text|
      modifies this
      ensures viewport == old(viewport) && softWrap == old(softWrap) && keymap == old(keymap)
      ensures buffer.doc.version != old(cachedDocVersion) ==>
        cachedDocVersion == buffer.doc.version && cachedLineCount == LenLines(buffer.doc.text)
      ensures var t := buffer.doc.text;
        var kept := Invalidated(old(lineCache), old(cachedDocVersion), old(cachedLineCount),
          buffer.doc.version, LenLines(t), buffer.lastEditImpact);
        var (first, last) := VisibleRange(viewport, LenLines(t));
        ViewOf(vm.lines, t, buffer.selections.AllIncludingPrimary(), CharToLine(t, buffer.selections.primary.head),
          kept, lineCache, first, last, softWrap && viewport.widthCols > 0) &&
        vm.gutterWidthCols == GutterWidth(LenLines(t))
    {
      InvalidateCache();
      var t := buffer.doc.text;
      var (first, last) := VisibleRange(viewport, LenLines(t));
      var cache, lines := BuildLines(t, buffer.selections.AllIncludingPrimary(),
        CharToLine(t, buffer.selections.primary.head), lineCache, first, last,
        softWrap && viewport.widthCols > 0, viewport.widthCols);
      lineCache := cache;
      vm := EditorViewModel(lines, GutterWidth(LenLines(t)));
    }
  }
}
