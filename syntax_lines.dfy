/** The per-line part of crates/syntax/src/highlight.rs: the byte spans of a whole text
    cut down to the lines of a range, each in its line's own byte coordinates. */
module SyntaxLines {
  import opened RustStr
  import opened SyntaxLanguage

  /** A highlighted stretch of bytes `[startByte, endByte)`. */
  datatype HighlightSpan = HighlightSpan(startByte: nat, endByte: nat, tokenType: TokenType)

  /** The spans of one line. */
  datatype LineHighlights = LineHighlights(lineIdx: nat, spans: seq<HighlightSpan>)

  /** A span reaches into the line `[lineStart, lineEnd)`. */
  predicate Overlaps(s: HighlightSpan, lineStart: nat, lineEnd: nat)
  {
    s.startByte < lineEnd && s.endByte > lineStart
  }

  /** A span in line coordinates: its start moved back by the line start (down to 0),
      its end likewise and cut at the line length. */
  function Relative(s: HighlightSpan, lineStart: nat, lineLen: nat): (r: HighlightSpan)
    ensures Overlaps(s, lineStart, lineStart + lineLen) ==>
      r.startByte <= lineLen && r.endByte <= lineLen && (s.startByte <= s.endByte ==> r.startByte <= r.endByte)
  {
    HighlightSpan(SaturatingSub(s.startByte, lineStart), Min(SaturatingSub(s.endByte, lineStart), lineLen), s.tokenType)
  }

  /** No span ends before it starts. */
  predicate WellFormed(spans: seq<HighlightSpan>)
  {
    forall j :: 0 <= j < |spans| ==> spans[j].startByte <= spans[j].endByte
  }

  /** The filter and map of `highlight_lines`: the spans that reach into the line, in line
      coordinates, in their original order. */
  function ProjectSpans(spans: seq<HighlightSpan>, lineStart: nat, lineLen: nat): (r: seq<HighlightSpan>)
    ensures |r| <= |spans|
    ensures forall k :: 0 <= k < |r| ==> r[k].startByte <= lineLen && r[k].endByte <= lineLen
    ensures WellFormed(spans) ==> WellFormed(r)
  {
    if spans == [] then []
    else
      var init := ProjectSpans(spans[..|spans| - 1], lineStart, lineLen);
      var s := spans[|spans| - 1];
      if Overlaps(s, lineStart, lineStart + lineLen) then init + [Relative(s, lineStart, lineLen)] else init
  }

  /** Both directions: every span reaching into the line is in the projection, in line
      coordinates, and every projected span comes from one that reaches into the line. */
  lemma {:induction false} ProjectSpansMembers(spans: seq<HighlightSpan>, lineStart: nat, lineLen: nat)
    ensures var r := ProjectSpans(spans, lineStart, lineLen);
      (forall j :: 0 <= j < |spans| && Overlaps(spans[j], lineStart, lineStart + lineLen) ==>
        Relative(spans[j], lineStart, lineLen) in r) &&
      (forall k :: 0 <= k < |r| ==>
        (exists j :: 0 <= j < |spans| && Overlaps(spans[j], lineStart, lineStart + lineLen) &&
           r[k] == Relative(spans[j], lineStart, lineLen)))
    decreases |spans|
  {
    if spans != [] {
      var init := spans[..|spans| - 1];
      ProjectSpansMembers(init, lineStart, lineLen);
      assert forall j :: 0 <= j < |init| ==> init[j] == spans[j];
      var r0 := ProjectSpans(init, lineStart, lineLen);
      var r := ProjectSpans(spans, lineStart, lineLen);
      forall k | 0 <= k < |r|
        ensures exists j :: (0 <= j < |spans| && Overlaps(spans[j], lineStart, lineStart + lineLen) &&
          r[k] == Relative(spans[j], lineStart, lineLen))
      {
        if k < |r0| {
          assert r[k] == r0[k];
          var j :| 0 <= j < |init| && Overlaps(init[j], lineStart, lineStart + lineLen) &&
            r0[k] == Relative(init[j], lineStart, lineLen);
          assert spans[j] == init[j];
        } else {
          assert r[k] == Relative(spans[|spans| - 1], lineStart, lineLen);
        }
      }
    }
  }

  /** The projection keeps the order of the spans: it distributes over concatenation. */
  lemma {:induction false} ProjectSpansAppend(a: seq<HighlightSpan>, b: seq<HighlightSpan>, lineStart: nat, lineLen: nat)
    ensures ProjectSpans(a + b, lineStart, lineLen) == ProjectSpans(a, lineStart, lineLen) + ProjectSpans(b, lineStart, lineLen)
    decreases |b|
  {
    if b == [] {
      assert a + b == a;
    } else {
      ProjectSpansAppend(a, b[..|b| - 1], lineStart, lineLen);
      assert (a + b)[..|a + b| - 1] == a + b[..|b| - 1];
    }
  }

  /** Every element of `xs` moved up by `d`. */
  function Shifted(xs: seq<nat>, d: nat): (r: seq<nat>)
    ensures |r| == |xs| && forall k :: 0 <= k < |xs| ==> r[k] == xs[k] + d
  {
    seq(|xs|, k requires 0 <= k < |xs| => xs[k] + d)
  }

  /** The char index at which each line of `str::lines` begins in `s`. */
  function LineCharStarts(s: seq<char>): (r: seq<nat>)
    ensures |r| == |Lines(s)|
    decreases |s|
  {
    if s == [] then []
    else
      var i := IndexOf(s, '\n');
      if i == |s| then [0] else [0] + Shifted(LineCharStarts(s[i + 1..]), i + 1)
  }

  /** The byte offset at which each line of `str::lines` begins in `s`. */
  function LineByteStarts(s: seq<char>): (r: seq<nat>)
    ensures |r| == |Lines(s)|
    decreases |s|
  {
    if s == [] then []
    else
      var i := IndexOf(s, '\n');
      if i == |s| then [0] else [0] + Shifted(LineByteStarts(s[i + 1..]), ByteLen(s[..i + 1]))
  }

  /** One step of the three recursions: past the first line and its '\n', the lines and
      their starts are those of what follows, one line later and shifted by the first
      line's chars and bytes. */
  lemma LinesStep(s: seq<char>, i: nat, rest: seq<char>)
    requires i == IndexOf(s, '\n') && i < |s| && rest == s[i + 1..]
    ensures Lines(s) == [StripCr(s[..i], true)] + Lines(rest)
    ensures LineCharStarts(s) == [0] + Shifted(LineCharStarts(rest), i + 1)
    ensures LineByteStarts(s) == [0] + Shifted(LineByteStarts(rest), ByteLen(s[..i + 1]))
  {
  }

  /** `line` sits in `s` at char `c`, and `b` is the byte length of the text before it. */
  predicate Located(s: seq<char>, c: nat, line: seq<char>, b: nat)
  {
    c + |line| <= |s| && s[c..c + |line|] == line && b == ByteLen(s[..c])
  }

  /** Each line sits in `s` at its char start, and its byte start is the byte length of
      the text before it. */
  lemma {:induction false} LineStartsLocate(s: seq<char>, k: nat)
    requires k < |Lines(s)|
    ensures Located(s, LineCharStarts(s)[k], Lines(s)[k], LineByteStarts(s)[k])
    decreases |s|
  {
    var i := IndexOf(s, '\n');
    if i == |s| {
      assert Lines(s) == [s] && LineCharStarts(s) == [0] && LineByteStarts(s) == [0];
      assert s[..0] == [];
    } else {
      var rest := s[i + 1..];
      if k == 0 {
        assert s[..0] == [];
        assert LineCharStarts(s)[0] == 0 && LineByteStarts(s)[0] == 0;
        var l := StripCr(s[..i], true);
        assert Lines(s)[0] == l;
        assert |l| <= i && s[..|l|] == l;
      } else {
        LinesStep(s, i, rest);
        LineStartsLocate(rest, k - 1);
        LocateStep(s, i + 1, rest, StripCr(s[..i], true), Lines(rest), LineCharStarts(rest),
          LineByteStarts(rest), k, Lines(s), LineCharStarts(s), LineByteStarts(s));
      }
    }
  }

  /** The step of `LineStartsLocate` past the first line, on the three sequences as values. */
  lemma LocateStep(s: seq<char>, d: nat, rest: seq<char>, x: seq<char>, ls: seq<seq<char>>,
                   cs: seq<nat>, bs: seq<nat>, k: nat, l: seq<seq<char>>, c: seq<nat>, b: seq<nat>)
    requires d <= |s| && rest == s[d..] && 0 < k && k - 1 < |ls| && k - 1 < |cs| && k - 1 < |bs|
    requires l == [x] + ls && c == [0] + Shifted(cs, d) && b == [0] + Shifted(bs, ByteLen(s[..d]))
    requires Located(rest, cs[k - 1], ls[k - 1], bs[k - 1])
    ensures Located(s, c[k], l[k], b[k])
  {
    assert l[k] == ls[k - 1] && c[k] == d + cs[k - 1] && b[k] == ByteLen(s[..d]) + bs[k - 1];
    LocateShift(s, d, rest, cs[k - 1], ls[k - 1], bs[k - 1]);
  }

  /** A line found at `c` in `rest`, the text after `d` chars of `s`, is found at `d + c`
      in `s`, and the bytes before it add up. */
  lemma LocateShift(s: seq<char>, d: nat, rest: seq<char>, c: nat, line: seq<char>, b: nat)
    requires d <= |s| && rest == s[d..] && Located(rest, c, line, b)
    ensures Located(s, d + c, line, ByteLen(s[..d]) + b)
  {
    assert s[d + c..d + c + |line|] == rest[c..c + |line|];
    assert s[..d + c] == s[..d] + rest[..c];
    ByteLenAppend(s[..d], rest[..c]);
  }

  /** The offsets the source computes: each line starts one byte after the end of the
      line before, as yielded by `str::lines`. */
  function OffsetsAsWritten(lines: seq<seq<char>>, base: nat): (r: seq<nat>)
    ensures |r| == |lines|
  {
    if lines == [] then [] else [base] + OffsetsAsWritten(lines[1..], base + ByteLen(lines[0]) + 1)
  }

  /** Without '\r' the source's offsets are the lines' byte starts. */
  lemma {:induction false} OffsetsAgreeWithoutCr(s: seq<char>, base: nat)
    requires '\r' !in s
    ensures OffsetsAsWritten(Lines(s), base) == Shifted(LineByteStarts(s), base)
    decreases |s|
  {
    var i := IndexOf(s, '\n');
    if s == [] {
    } else if i == |s| {
      assert Lines(s) == [s] && LineByteStarts(s) == [0];
      assert OffsetsAsWritten([s], base) == [base];
    } else {
      var rest := s[i + 1..];
      var d := ByteLen(s[..i + 1]);
      NoCrStep(s, i, rest);
      OffsetsAgreeWithoutCr(rest, base + d);
      ByteStartsStep(s, i, rest);
      OffsetsStep(s[..i], Lines(rest), LineByteStarts(rest), d, base);
    }
  }

  /** The inductive step of `OffsetsAgreeWithoutCr`, on the first line and what follows. */
  lemma OffsetsStep(line: seq<char>, lines: seq<seq<char>>, starts: seq<nat>, d: nat, base: nat)
    requires d == ByteLen(line) + 1
    requires OffsetsAsWritten(lines, base + d) == Shifted(starts, base + d)
    ensures OffsetsAsWritten([line] + lines, base) == Shifted([0] + Shifted(starts, d), base)
  {
    OffsetsCons(line, lines, base);
    ShiftedCons(starts, d, base);
  }

  lemma ByteStartsStep(s: seq<char>, i: nat, rest: seq<char>)
    requires i == IndexOf(s, '\n') < |s| && rest == s[i + 1..]
    ensures LineByteStarts(s) == [0] + Shifted(LineByteStarts(rest), ByteLen(s[..i + 1]))
  {
  }

  lemma OffsetsCons(line: seq<char>, lines: seq<seq<char>>, base: nat)
    ensures OffsetsAsWritten([line] + lines, base) == [base] + OffsetsAsWritten(lines, base + ByteLen(line) + 1)
  {
    assert ([line] + lines)[1..] == lines;
  }

  lemma ShiftedCons(xs: seq<nat>, d: nat, base: nat)
    ensures Shifted([0] + Shifted(xs, d), base) == [base] + Shifted(xs, base + d)
  {
  }

  /** The first step on text without '\r': the first line is everything before the '\n',
      whose byte is one more, and the rest has no '\r' either. */
  lemma NoCrStep(s: seq<char>, i: nat, rest: seq<char>)
    requires '\r' !in s && i == IndexOf(s, '\n') < |s| && rest == s[i + 1..]
    ensures Lines(s) == [s[..i]] + Lines(rest)
    ensures ByteLen(s[..i + 1]) == ByteLen(s[..i]) + 1
    ensures '\r' !in rest
  {
    LinesStep(s, i, rest);
    NoCrKept(s[..i]);
    NewlineByte(s[..i + 1], s[..i]);
    NoCrSuffix(s, i + 1);
  }

  /** Without '\r' at its end, `StripCr` keeps a line as it is. */
  lemma NoCrKept(line: seq<char>)
    requires '\r' !in line
    ensures StripCr(line, true) == line
  {
    if |line| > 0 { assert line[|line| - 1] in line; }
  }

  /** A '\n' adds one byte. */
  lemma NewlineByte(x: seq<char>, line: seq<char>)
    requires |x| == |line| + 1 && x[..|line|] == line && x[|line|] == '\n'
    ensures ByteLen(x) == ByteLen(line) + 1
  {
    assert x[..|x| - 1] == line;
    assert Utf8Len(x[|x| - 1]) == 1;
  }

  /** A suffix of a text without '\r' has none either. */
  lemma NoCrSuffix(s: seq<char>, k: nat)
    requires '\r' !in s && k <= |s|
    ensures '\r' !in s[k..]
  {
    forall j | 0 <= j < |s| - k ensures s[k..][j] != '\r' { assert s[k..][j] == s[k + j]; }
  }

  /** The rows of `highlight_lines` among the first `m` lines: one per line index in the
      range, in increasing order, each with the spans projected at that line's offset. */
  function Rows(lines: seq<seq<char>>, starts: seq<nat>, rangeStart: nat, rangeEnd: nat,
                spans: seq<HighlightSpan>, m: nat): (r: seq<LineHighlights>)
    requires |starts| == |lines| && m <= |lines|
    ensures var hi := Min(rangeEnd, m);
      |r| == (if rangeStart < hi then hi - rangeStart else 0)
    ensures forall k :: 0 <= k < |r| ==>
      (rangeStart + k < |lines| && r[k].lineIdx == rangeStart + k &&
       r[k].spans == ProjectSpans(spans, starts[rangeStart + k], ByteLen(lines[rangeStart + k])))
  {
    if m == 0 then []
    else
      Rows(lines, starts, rangeStart, rangeEnd, spans, m - 1) +
      (if rangeStart <= m - 1 < rangeEnd
       then [LineHighlights(m - 1, ProjectSpans(spans, starts[m - 1], ByteLen(lines[m - 1])))]
       else [])
  }

  /** The result of `highlight_lines` with each line's offset the place it really starts
      at in the text. */
  function LinesHighlighted(text: seq<char>, rangeStart: nat, rangeEnd: nat, spans: seq<HighlightSpan>)
    : seq<LineHighlights>
  {
    Rows(Lines(text), LineByteStarts(text), rangeStart, rangeEnd, spans, |Lines(text)|)
  }

  /** The result of `highlight_lines` as the source computes it, with the offsets counted
      from the lines `str::lines` yields. */
  function LinesHighlightedAsWritten(text: seq<char>, rangeStart: nat, rangeEnd: nat, spans: seq<HighlightSpan>)
    : seq<LineHighlights>
  {
    Rows(Lines(text), OffsetsAsWritten(Lines(text), 0), rangeStart, rangeEnd, spans, |Lines(text)|)
  }

  /** On text without '\r' the source's result is the intended one. */
  lemma LinesAgreeWithoutCr(text: seq<char>, rangeStart: nat, rangeEnd: nat, spans: seq<HighlightSpan>)
    requires '\r' !in text
    ensures LinesHighlightedAsWritten(text, rangeStart, rangeEnd, spans) == LinesHighlighted(text, rangeStart, rangeEnd, spans)
  {
    OffsetsAgreeWithoutCr(text, 0);
    assert Shifted(LineByteStarts(text), 0) == LineByteStarts(text);
  }

  /** "a\r\nb" with a keyword over the "b" (bytes 3 to 4): the source puts the second line
      at byte 2, so the keyword misses it; at its real offset 3 the line has it. */
  lemma CrLfExample()
    ensures var spans := [HighlightSpan(3, 4, TokenType.Keyword)];
      LinesHighlightedAsWritten("a\r\nb", 0, 2, spans) == [LineHighlights(0, []), LineHighlights(1, [])] &&
      LinesHighlighted("a\r\nb", 0, 2, spans) == [LineHighlights(0, []), LineHighlights(1, [HighlightSpan(0, 1, TokenType.Keyword)])]
  {
    CrLfShape();
    var spans := [HighlightSpan(3, 4, TokenType.Keyword)];
    assert spans[..0] == [];
    assert ProjectSpans(spans, 0, 1) == [];
    assert ProjectSpans(spans, 2, 1) == [];
    assert ProjectSpans(spans, 3, 1) == [HighlightSpan(0, 1, TokenType.Keyword)];
  }

  /** The lines of "a\r\nb", their byte lengths, the offsets the source computes and the
      real byte starts. */
  lemma CrLfShape()
    ensures Lines("a\r\nb") == ["a", "b"] && ByteLen("a") == 1 && ByteLen("b") == 1
    ensures OffsetsAsWritten(["a", "b"], 0) == [0, 2] && LineByteStarts("a\r\nb") == [0, 3]
  {
    var t := "a\r\nb";
    assert IndexOf(t, '\n') == 2;
    assert t[..2] == "a\r" && t[3..] == "b";
    assert IndexOf("b", '\n') == 1;
    assert Lines("b") == ["b"];
    assert StripCr("a\r", true) == "a" by { assert "a\r"[..1] == "a"; }
    assert Lines(t) == ["a", "b"];
    assert ByteLen("a") == 1 by { assert "a"[..0] == []; }
    assert ByteLen("b") == 1 by { assert "b"[..0] == []; }
    assert ByteLen(t[..3]) == 3 by {
      assert t[..3][..2] == "a\r";
      assert "a\r"[..1] == "a";
    }
    assert OffsetsAsWritten(["a", "b"], 0) == [0, 2];
    assert LineByteStarts("b") == [0];
    assert LineByteStarts(t) == [0, 3];
  }

  /** The loop of `highlight_lines`, each line's offset taken from where it starts in the
      text. */
  method ProjectLines(text: seq<char>, rangeStart: nat, rangeEnd: nat, spans: seq<HighlightSpan>)
    returns (result: seq<LineHighlights>)
    ensures result == LinesHighlighted(text, rangeStart, rangeEnd, spans)
  {
    var lines := Lines(text);
    var starts := LineByteStarts(text);
    result := [];
    for idx := 0 to |lines|
      invariant result == Rows(lines, starts, rangeStart, rangeEnd, spans, idx)
    {
      if rangeStart <= idx < rangeEnd {
        var lineStart := starts[idx];
        var lineLen := ByteLen(lines[idx]);
        result := result + [LineHighlights(idx, ProjectSpans(spans, lineStart, lineLen))];
      }
    }
  }
}
