/** The text store of one open file (crates/editor/src/document.rs): a rope, here
    its sequence of chars, with a version counter. Lines are split on '\n' only, as
    ropey does for '\n'; `LenLines` is one more than the number of '\n'. */
module EditorDocument {
  import opened RustStr

  newtype u64 = x: int | 0 <= x < 0x1_0000_0000_0000_0000

  const U64_MAX: u64 := 0xFFFF_FFFF_FFFF_FFFF

  /** `u64::wrapping_add(1)`. */
  function WrappingInc(v: u64): (r: u64)
    ensures v < U64_MAX ==> r as int == v as int + 1
    ensures v == U64_MAX ==> r == 0
  {
    if v == U64_MAX then 0 else v + 1
  }

  /** Line and column of a char index. */
  datatype LineCol = LineCol(line: nat, col: nat)

  /** The number of '\n' in a sequence, counted from the end. */
  function CountNewlines(s: seq<char>): nat
    decreases |s|
  {
    if s == [] then 0 else CountNewlines(s[..|s| - 1]) + (if s[|s| - 1] == '\n' then 1 else 0)
  }

  lemma {:induction false} CountNewlinesAppend(a: seq<char>, b: seq<char>)
    ensures CountNewlines(a + b) == CountNewlines(a) + CountNewlines(b)
    decreases |b|
  {
    if b == [] {
      assert a + b == a;
    } else {
      var init := b[..|b| - 1];
      assert (a + b)[..|a + b| - 1] == a + init;
      CountNewlinesAppend(a, init);
    }
  }

  lemma {:induction false} CountNewlinesZero(t: seq<char>)
    ensures CountNewlines(t) == 0 <==> '\n' !in t
    decreases |t|
  {
    if t != [] {
      var init := t[..|t| - 1];
      CountNewlinesZero(init);
      assert t == init + [t[|t| - 1]];
    }
  }

  /** Counting newlines of a prefix is monotone in the prefix length. */
  lemma PrefixCountMono(s: seq<char>, a: nat, b: nat)
    requires a <= b <= |s|
    ensures CountNewlines(s[..a]) <= CountNewlines(s[..b])
    ensures CountNewlines(s[..b]) == CountNewlines(s[..a]) + CountNewlines(s[a..b])
  {
    assert s[..b] == s[..a] + s[a..b];
    CountNewlinesAppend(s[..a], s[a..b]);
  }

  /** Extending a prefix over chars that hold no '\n' keeps its newline count. */
  lemma NoNewlineSameCount(s: seq<char>, a: nat, c: nat)
    requires a <= c <= |s| && '\n' !in s[a..c]
    ensures CountNewlines(s[..c]) == CountNewlines(s[..a])
  {
    CountNewlinesZero(s[a..c]);
    PrefixCountMono(s, a, c);
  }

  /** A part of a stretch without '\n' has none either. */
  lemma NoNewlinePrefix(s: seq<char>, a: nat, c: nat, d: nat)
    requires a <= c <= d <= |s| && '\n' !in s[a..d]
    ensures '\n' !in s[a..c]
  {
    assert s[a..c] == s[a..d][..c - a];
  }

  /** ropey `len_lines`. */
  function LenLines(s: seq<char>): nat
  {
    CountNewlines(s) + 1
  }

  /** The index just after the first '\n' at or after `i`, or `|s|` when there is none. */
  function NextLineStart(s: seq<char>, i: nat): (j: nat)
    requires i <= |s|
    ensures i <= j <= |s|
  {
    var k := IndexOf(s[i..], '\n');
    if i + k < |s| then i + k + 1 else |s|
  }

  /** ropey `line_to_char`: where line `line` starts; line `LenLines(s)` starts at the end. */
  function LineToChar(s: seq<char>, line: nat): (r: nat)
    requires line <= LenLines(s)
    ensures r <= |s|
  {
    if line == 0 then 0 else NextLineStart(s, LineToChar(s, line - 1))
  }

  /** ropey `char_to_line`: the number of '\n' before the index. */
  function CharToLine(s: seq<char>, c: nat): (line: nat)
    requires c <= |s|
    ensures line < LenLines(s)
  {
    PrefixCountMono(s, c, |s|);
    assert s[..|s|] == s;
    CountNewlines(s[..c])
  }

  /** What one step of `NextLineStart` does to the newline count of the prefix. */
  lemma NextLineStartStep(s: seq<char>, i: nat)
    requires i <= |s|
    ensures var j := NextLineStart(s, i);
      if '\n' in s[i..] then
        i < j && s[j - 1] == '\n' && '\n' !in s[i..j - 1]
        && CountNewlines(s[..j]) == CountNewlines(s[..i]) + 1
      else
        j == |s| && CountNewlines(s[..j]) == CountNewlines(s[..i])
  {
    var t := s[i..];
    var k := IndexOf(t, '\n');
    assert s[i..i + k] == t[..k];
    assert '\n' !in t[..k];
    CountNewlinesZero(t[..k]);
    if k < |t| {
      var j := i + k + 1;
      assert s[i..j] == t[..k] + [t[k]];
      PrefixCountMono(s, i, j);
      CountNewlinesAppend(t[..k], [t[k]]);
      assert [t[k]][..0] == [];
    } else {
      assert t[..k] == t;
      assert s[i..|s|] == t;
      PrefixCountMono(s, i, |s|);
    }
  }

  /** The newline count of the part of `s` from `i` on. */
  lemma SuffixCount(s: seq<char>, i: nat)
    requires i <= |s|
    ensures CountNewlines(s[i..]) == CountNewlines(s) - CountNewlines(s[..i])
  {
    PrefixCountMono(s, i, |s|);
    assert s[..|s|] == s;
    assert s[i..|s|] == s[i..];
  }

  /** Line `l` (for l up to the number of '\n') starts right after the l-th '\n'. */
  lemma {:induction false} LineToCharCounts(s: seq<char>, l: nat)
    requires l <= CountNewlines(s)
    ensures CountNewlines(s[..LineToChar(s, l)]) == l
    ensures l > 0 ==> LineToChar(s, l) > 0 && s[LineToChar(s, l) - 1] == '\n'
  {
    if l > 0 {
      var i := LineToChar(s, l - 1);
      LineToCharCounts(s, l - 1);
      assert LineToChar(s, l) == NextLineStart(s, i);
      CountsStep(s, i, l - 1);
    }
  }

  /** From a start whose prefix holds `k` newlines, fewer than the text has, the next
      line start is just past the `k + 1`-th. */
  lemma CountsStep(s: seq<char>, i: nat, k: nat)
    requires i <= |s| && CountNewlines(s[..i]) == k < CountNewlines(s)
    ensures var j := NextLineStart(s, i);
      CountNewlines(s[..j]) == k + 1 && j > 0 && s[j - 1] == '\n'
  {
    SuffixCount(s, i);
    CountNewlinesZero(s[i..]);
    NextLineStartStep(s, i);
  }

  /** The shape of line `l`: it runs from `LineToChar(s, l)` to `LineToChar(s, l + 1)`;
      every line but the last ends in its only '\n', the last has none and ends at `|s|`. */
  lemma LineShape(s: seq<char>, l: nat)
    requires l < LenLines(s)
    ensures LineToChar(s, l) <= LineToChar(s, l + 1)
    ensures l < CountNewlines(s) ==>
      var a, b := LineToChar(s, l), LineToChar(s, l + 1);
      a < b && s[b - 1] == '\n' && '\n' !in s[a..b - 1]
    ensures l == CountNewlines(s) ==>
      LineToChar(s, l + 1) == |s| && '\n' !in s[LineToChar(s, l)..]
  {
    var a := LineToChar(s, l);
    LineToCharCounts(s, l);
    assert LineToChar(s, l + 1) == NextLineStart(s, a);
    ShapeAt(s, a, l);
  }

  /** The stretch from an index whose prefix holds `l` newlines to the next line start. */
  lemma ShapeAt(s: seq<char>, a: nat, l: nat)
    requires a <= |s| && CountNewlines(s[..a]) == l
    ensures var b := NextLineStart(s, a);
      a <= b &&
      (l < CountNewlines(s) ==> a < b && s[b - 1] == '\n' && '\n' !in s[a..b - 1]) &&
      (l == CountNewlines(s) ==> b == |s| && '\n' !in s[a..])
  {
    SuffixCount(s, a);
    CountNewlinesZero(s[a..]);
    NextLineStartStep(s, a);
  }

  /** ropey `line_to_char(len_lines)` is the document length. */
  lemma LastLineEnd(s: seq<char>)
    ensures LineToChar(s, LenLines(s)) == |s|
  {
    var l := CountNewlines(s);
    assert LenLines(s) == l + 1;
    LineShape(s, l);
  }

  /** Every line start is the first index of its line: the prefix before it has `l`
      newlines and no shorter prefix does. */
  lemma LineStartIsFirst(s: seq<char>, l: nat, c: nat)
    requires l < LenLines(s) && c <= |s|
    requires CountNewlines(s[..c]) >= l
    ensures LineToChar(s, l) <= c
  {
    LineToCharCounts(s, l);
    var a := LineToChar(s, l);
    if l > 0 && c < a {
      PrefixCountMono(s, a - 1, a);
      assert s[a - 1..a] == [s[a - 1]];
      assert CountNewlines([s[a - 1]]) == 1;
      PrefixCountMono(s, c, a - 1);
    }
  }

  /** The line `CharToLine` picks for an index is the one whose range holds it. */
  lemma LineContains(s: seq<char>, c: nat)
    requires c <= |s|
    ensures var line := CharToLine(s, c);
      LineToChar(s, line) <= c <= LineToChar(s, line + 1) &&
      (c < LineToChar(s, line + 1) || c == |s|)
  {
    var line := CharToLine(s, c);
    assert line == CountNewlines(s[..c]);
    LineStartIsFirst(s, line, c);
    LineEnds(s, line);
    if line < CountNewlines(s) {
      LineToCharCounts(s, line + 1);
      BelowNextStart(s, c, line, LineToChar(s, line + 1));
    }
  }

  /** Line `l` ends no earlier than it starts, and the last line ends at `|s|`. */
  lemma LineEnds(s: seq<char>, l: nat)
    requires l < LenLines(s)
    ensures LineToChar(s, l) <= LineToChar(s, l + 1)
    ensures l == CountNewlines(s) ==> LineToChar(s, l + 1) == |s|
  {
    LineShape(s, l);
  }

  /** An index whose prefix holds `line` newlines lies before any index whose prefix
      holds one more. */
  lemma BelowNextStart(s: seq<char>, c: nat, line: nat, b: nat)
    requires c <= |s| && b <= |s| && CountNewlines(s[..c]) == line && CountNewlines(s[..b]) == line + 1
    ensures c < b
  {
    if c >= b {
      PrefixCountMono(s, b, c);
    }
  }

  lemma LineStartsOrdered(s: seq<char>, line: nat)
    requires line <= LenLines(s)
    ensures LineToChar(s, line) <= LineToChar(s, Min(line + 1, LenLines(s)))
  {
    if line < LenLines(s) { LineShape(s, line); }
  }

  /** `Document::line_start_char`: the start of line `l`, clamped to the line count. */
  function LineStartChar(s: seq<char>, l: nat): nat
  {
    LineToChar(s, Min(l, LenLines(s)))
  }

  /** `Document::line_end_char`: the start of the next line (so it includes the '\n'). */
  function LineEndChar(s: seq<char>, l: nat): nat
  {
    LineToChar(s, Min(l + 1, LenLines(s)))
  }

  /** `Document::line_text`: the line without its '\n'; "" for a line past the end. */
  function LineText(s: seq<char>, l: nat): (r: seq<char>)
    ensures l >= LenLines(s) ==> r == []
    ensures '\n' !in r
    ensures l < CountNewlines(s) ==> s[LineToChar(s, l)..LineToChar(s, l + 1)] == r + ['\n']
    ensures l == CountNewlines(s) ==> s[LineToChar(s, l)..] == r
  {
    if l >= LenLines(s) then []
    else
      LineShape(s, l);
      var a, b := LineToChar(s, l), LineToChar(s, l + 1);
      ChunkWithoutBreak(s, a, b, l < CountNewlines(s));
      var chunk := s[a..b];
      if |chunk| > 0 && chunk[|chunk| - 1] == '\n' then chunk[..|chunk| - 1] else chunk
  }

  /** Dropping the '\n' a line's chars end with (when they have one) leaves no '\n'. */
  lemma ChunkWithoutBreak(s: seq<char>, a: nat, b: nat, hasBreak: bool)
    requires a <= b <= |s|
    requires hasBreak ==> a < b && s[b - 1] == '\n' && '\n' !in s[a..b - 1]
    requires !hasBreak ==> b == |s| && '\n' !in s[a..]
    ensures var chunk := s[a..b];
      var r := if |chunk| > 0 && chunk[|chunk| - 1] == '\n' then chunk[..|chunk| - 1] else chunk;
      '\n' !in r && (hasBreak ==> chunk == r + ['\n']) && (!hasBreak ==> s[a..] == r)
  {
    var chunk := s[a..b];
    if hasBreak {
      assert chunk[..|chunk| - 1] == s[a..b - 1];
    } else {
      assert chunk == s[a..];
      if |chunk| > 0 { assert chunk[|chunk| - 1] in s[a..]; }
    }
  }

  /** `Document::char_to_line_col`: the line holding the index and the column within it. */
  function CharToLineCol(s: seq<char>, c: nat): (lc: LineCol)
    requires c <= |s|
    ensures lc.line < LenLines(s)
    ensures LineToChar(s, lc.line) <= c <= LineToChar(s, lc.line + 1)
    ensures c < LineToChar(s, lc.line + 1) || c == |s|
    ensures lc.col == c - LineToChar(s, lc.line)
  {
    var line := CharToLine(s, c);
    LineContains(s, c);
    LineCol(line, SaturatingSub(c, LineToChar(s, line)))
  }

  /** `Document::line_col_to_char`: the column is clamped to the start of the next line. */
  function LineColToChar(s: seq<char>, line: nat, col: nat): (c: nat)
    requires line <= LenLines(s)
    ensures LineToChar(s, line) <= c <= LineToChar(s, Min(line + 1, LenLines(s)))
    ensures c <= |s|
  {
    LineStartsOrdered(s, line);
    Min(LineToChar(s, line) + col, LineToChar(s, Min(line + 1, LenLines(s))))
  }

  /** char index -> (line, col) -> char index is the identity. */
  lemma CharLineColRoundTrip(s: seq<char>, c: nat)
    requires c <= |s|
    ensures var lc := CharToLineCol(s, c); LineColToChar(s, lc.line, lc.col) == c
  {
    var lc := CharToLineCol(s, c);
    assert Min(lc.line + 1, LenLines(s)) == lc.line + 1;
    assert LineToChar(s, lc.line) + lc.col == c;
  }

  /** An index reached from a line start without crossing a '\n' is on that line. */
  lemma SameLineWithin(s: seq<char>, line: nat, c: nat)
    requires line < LenLines(s) && LineToChar(s, line) <= c <= |s|
    requires '\n' !in s[LineToChar(s, line)..c]
    ensures CharToLine(s, c) == line
  {
    NoNewlineSameCount(s, LineToChar(s, line), c);
    LineToCharCounts(s, line);
  }

  /** A column inside line `line`'s text stays inside the line and crosses no '\n'. */
  lemma ColumnInLine(s: seq<char>, line: nat, col: nat)
    requires line < LenLines(s) && col <= |LineText(s, line)|
    ensures LineToChar(s, line) + col <= LineToChar(s, line + 1)
    ensures LineToChar(s, line) + col <= |s|
    ensures '\n' !in s[LineToChar(s, line)..LineToChar(s, line) + col]
  {
    var a, b := LineToChar(s, line), LineToChar(s, line + 1);
    var t := LineText(s, line);
    LineShape(s, line);
    if line < CountNewlines(s) {
      assert |s[a..b]| == |t| + 1;
      NoNewlinePrefix(s, a, a + col, b - 1);
    } else {
      assert |s[a..]| == |t|;
      assert s[a..] == s[a..|s|];
      NoNewlinePrefix(s, a, a + col, |s|);
    }
  }

  /** (line, col) -> char index -> (line, col) is the identity for a column inside the line. */
  lemma LineColCharRoundTrip(s: seq<char>, line: nat, col: nat)
    requires line < LenLines(s) && col <= |LineText(s, line)|
    ensures CharToLineCol(s, LineColToChar(s, line, col)) == LineCol(line, col)
  {
    ColumnInLine(s, line, col);
    SameLineWithin(s, line, LineToChar(s, line) + col);
    assert Min(line + 1, LenLines(s)) == line + 1;
    assert LineColToChar(s, line, col) == LineToChar(s, line) + col;
  }

  /** `Document::slice_to_string`: both bounds are clamped to the length; an empty or
      inverted clamped range gives "". */
  function Slice(s: seq<char>, start: nat, end: nat): (r: seq<char>)
    ensures Min(start, |s|) >= Min(end, |s|) ==> r == []
    ensures Min(start, |s|) < Min(end, |s|) ==>
      |r| == Min(end, |s|) - Min(start, |s|) &&
      forall i :: 0 <= i < |r| ==> r[i] == s[Min(start, |s|) + i]
  {
    var a := Min(start, |s|);
    var b := Min(end, |s|);
    if a >= b then [] else s[a..b]
  }

  /** The text after `Document::replace_range(start, end, ins)`: with both bounds clamped
      to the length, the chars before the start, then `ins`, then the chars from the end
      on (from the start on when the clamped range is empty or inverted). */
  function Replaced(s: seq<char>, start: nat, end: nat, ins: seq<char>): (r: seq<char>)
    ensures var a, b := Min(start, |s|), Max(Min(start, |s|), Min(end, |s|));
      |r| == |s| - (b - a) + |ins| &&
      r[..a] == s[..a] && r[a..a + |ins|] == ins && r[a + |ins|..] == s[b..]
  {
    var a := Min(start, |s|);
    var b := Max(a, Min(end, |s|));
    s[..a] + ins + s[b..]
  }

  /** Replacing a range and then replacing the inserted text by the removed text gives
      the original back: the inverse of a single edit. */
  lemma ReplacedInverse(s: seq<char>, start: nat, end: nat, ins: seq<char>)
    requires start <= end <= |s|
    ensures Replaced(Replaced(s, start, end, ins), start, start + |ins|, s[start..end]) == s
  {
    var t := Replaced(s, start, end, ins);
    var u := Replaced(t, start, start + |ins|, s[start..end]);
    assert u == s[..start] + s[start..end] + s[end..];
    assert s == s[..start] + s[start..end] + s[end..];
  }

  /** The document as a snapshot holds it: text and version. */
  datatype DocumentSnapshot = DocumentSnapshot(text: seq<char>, version: u64)

  class Document {
    var text: seq<char>
    var version: u64

    /** `Document::new`: the given text at version 0. */
    constructor (t: seq<char>)
      ensures text == t && version == 0
    {
      text := t;
      version := 0;
    }

    /** `Document::snapshot`. */
    function Snapshot(): (snap: DocumentSnapshot)
      reads this
      ensures snap.text == text && snap.version == version
    {
      DocumentSnapshot(text, version)
    }

    /** `Document::restore`: text and version become the snapshot's. */
    method Restore(snap: DocumentSnapshot)
      modifies this
      ensures text == snap.text && version == snap.version
    {
      text := snap.text;
      version := snap.version;
    }

    /** `Document::insert`; ropey panics on an index past the end. */
    method Insert(idx: nat, t: seq<char>)
      requires idx <= |text|
      modifies this
      ensures text == old(text)[..idx] + t + old(text)[idx..]
      ensures version == WrappingInc(old(version))
    {
      text := text[..idx] + t + text[idx..];
      version := WrappingInc(version);
    }

    /** `Document::delete_range`: an empty or inverted range changes nothing, not even
        the version; ropey panics on an end past the text. */
    method DeleteRange(start: nat, end: nat)
      requires start < end ==> end <= |text|
      modifies this
      ensures start >= end ==> text == old(text) && version == old(version)
      ensures start < end ==> text == old(text)[..start] + old(text)[end..]
      ensures start < end ==> version == WrappingInc(old(version))
    {
      if start >= end {
        return;
      }
      text := text[..start] + text[end..];
      version := WrappingInc(version);
    }

    /** `Document::replace_range`: clamp, remove, insert; the version moves on even when
        the text does not change. */
    method ReplaceRange(start: nat, end: nat, ins: seq<char>)
      modifies this
      ensures text == Replaced(old(text), start, end, ins)
      ensures version == WrappingInc(old(version))
    {
      var a := Min(start, |text|);
      var b := Min(end, |text|);
      if a < b {
        text := text[..a] + text[b..];
      }
      if ins != [] {
        text := text[..a] + ins + text[a..];
      }
      version := WrappingInc(version);
    }
  }
}
