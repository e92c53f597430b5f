/** The editing commands of crates/editor/src/engine.rs, as functions: word scans,
    deletions, cursor motion, copy and cut, find and replace and the line-prefix edits.
    Each command is specified as the buffer state it leaves, written with the state
    functions of `EditorBuffer`; the `Engine` class of `EditorEngine` carries them out. */
module EditorCommands {
  import opened Wrappers
  import opened RustStr
  import opened EditorDocument
  import opened EditorSelection
  import opened EditorHistory
  import opened EditorBuffer
  import opened EditorSearch
  import opened EditorKeymap

  // ----- word scans -----

  /** `is_word_char`: alphanumeric or '_'. */
  predicate IsWordChar(c: char)
  {
    IsAlphanumeric(c) || c == '_'
  }

  /** The first loop of `find_word_left`: step back over whitespace, never below 0. */
  function SkipSpaceLeft(t: seq<char>, i: nat): (j: nat)
    requires i < |t|
    ensures j <= i
    ensures j == 0 || !IsWhitespace(t[j])
    ensures forall x :: j < x <= i ==> IsWhitespace(t[x])
  {
    if i > 0 && IsWhitespace(t[i]) then SkipSpaceLeft(t, i - 1) else i
  }

  /** The second loop of `find_word_left`: step back while this char and the one before
      are both word chars. */
  function WordRunLeft(t: seq<char>, i: nat): (j: nat)
    requires i < |t|
    ensures j <= i
    ensures j == 0 || !(IsWordChar(t[j]) && IsWordChar(t[j - 1]))
    ensures j < i ==> forall x :: j <= x <= i ==> IsWordChar(t[x])
  {
    if i > 0 && IsWordChar(t[i]) && IsWordChar(t[i - 1]) then WordRunLeft(t, i - 1) else i
  }

  /** Where `find_word_left(t, k)` lands. */
  function WordLeft(t: seq<char>, k: nat): nat
  {
    var m := Min(k, |t|);
    if m == 0 then 0 else WordRunLeft(t, SkipSpaceLeft(t, m - 1))
  }

  /** The first loop of `find_word_right`: step over whitespace, never past the end. */
  function SkipSpaceRight(t: seq<char>, i: nat): (j: nat)
    requires i <= |t|
    ensures i <= j <= |t|
    ensures j == |t| || !IsWhitespace(t[j])
    ensures forall x :: i <= x < j ==> IsWhitespace(t[x])
    decreases |t| - i
  {
    if i < |t| && IsWhitespace(t[i]) then SkipSpaceRight(t, i + 1) else i
  }

  /** The second loop of `find_word_right`: step over word chars. */
  function WordRunRight(t: seq<char>, i: nat): (j: nat)
    requires i <= |t|
    ensures i <= j <= |t|
    ensures j == |t| || !IsWordChar(t[j])
    ensures forall x :: i <= x < j ==> IsWordChar(t[x])
    decreases |t| - i
  {
    if i < |t| && IsWordChar(t[i]) then WordRunRight(t, i + 1) else i
  }

  /** Where `find_word_right(t, k)` lands. */
  function WordRight(t: seq<char>, k: nat): nat
  {
    WordRunRight(t, SkipSpaceRight(t, Min(k, |t|)))
  }

  /** `find_word_left`: 0 from the start; otherwise strictly before the clamped index, at
      the start of the word run reached after skipping whitespace backwards. */
  method FindWordLeft(t: seq<char>, k: nat) returns (r: nat)
    ensures r == WordLeft(t, k)
    ensures Min(k, |t|) == 0 ==> r == 0
    ensures Min(k, |t|) > 0 ==> r < Min(k, |t|)
  {
    var i: nat := Min(k, |t|);
    if i == 0 {
      return 0;
    }
    i := i - 1;
    while i > 0 && IsWhitespace(t[i])
      invariant i < |t|
      invariant SkipSpaceLeft(t, i) == SkipSpaceLeft(t, Min(k, |t|) - 1)
    {
      i := i - 1;
    }
    ghost var j := i;
    while i > 0 && IsWordChar(t[i]) && IsWordChar(t[i - 1])
      invariant i <= j
      invariant WordRunLeft(t, i) == WordRunLeft(t, j)
    {
      i := i - 1;
    }
    r := i;
  }

  /** `find_word_right`: between the clamped index and the end, after the whitespace and
      then the word chars that follow it. */
  method FindWordRight(t: seq<char>, k: nat) returns (r: nat)
    ensures r == WordRight(t, k)
    ensures Min(k, |t|) <= r <= |t|
  {
    var i: nat := Min(k, |t|);
    while i < |t| && IsWhitespace(t[i])
      invariant i <= |t|
      invariant SkipSpaceRight(t, i) == SkipSpaceRight(t, Min(k, |t|))
      decreases |t| - i
    {
      i := i + 1;
    }
    ghost var j := i;
    while i < |t|
      invariant j <= i <= |t|
      invariant WordRunRight(t, i) == WordRunRight(t, j)
      decreases |t| - i
    {
      var c := t[i];
      if !IsWordChar(c) {
        break;
      }
      i := i + 1;
      if i < |t| && !IsWordChar(t[i]) {
        break;
      }
    }
    r := i;
  }

  /** `find_word_left` stops at a word start: everything between the result and the
      clamped index, bar the result's own word, is whitespace or the same word. */
  lemma WordLeftShape(t: seq<char>, k: nat)
    requires 0 < Min(k, |t|)
    ensures var m, r := Min(k, |t|), WordLeft(t, k);
      r < m &&
      (r == 0 || !IsWordChar(t[r]) || !IsWordChar(t[r - 1])) &&
      forall x :: r < x < m ==> IsWordChar(t[x]) || IsWhitespace(t[x])
  {
    var m := Min(k, |t|);
    var s := SkipSpaceLeft(t, m - 1);
    var r := WordRunLeft(t, s);
    forall x | r < x < m ensures IsWordChar(t[x]) || IsWhitespace(t[x]) {
      if x > s {
      } else {
        assert r < s;
      }
    }
  }

  /** `find_word_right` from a punctuation char does not move (neither loop advances). */
  lemma WordRightStuckOnPunctuation(t: seq<char>, k: nat)
    requires k < |t| && !IsWhitespace(t[k]) && !IsWordChar(t[k])
    ensures WordRight(t, k) == k
  {
  }

  // ----- find -----

  /** `n` occurs in `h` at char index `i`. */
  predicate OccursAt(h: seq<char>, n: seq<char>, i: nat)
  {
    i + |n| <= |h| && h[i..i + |n|] == n
  }

  /** `str::find` on the suffix from char `i`, as an index into the whole haystack. */
  function FindFrom(h: seq<char>, n: seq<char>, i: nat): (r: Option<nat>)
    requires i <= |h|
    ensures r.Some? ==> i <= r.value && OccursAt(h, n, r.value)
    ensures r.Some? ==> forall j :: i <= j < r.value ==> !OccursAt(h, n, j)
    ensures r.None? ==> forall j :: i <= j <= |h| ==> !OccursAt(h, n, j)
    decreases |h| - i
  {
    if OccursAt(h, n, i) then Some(i) else if i == |h| then None else FindFrom(h, n, i + 1)
  }

  /** `str::rfind` on the prefix of `e` chars, scanning down from the start `j`. */
  function RFindAt(h: seq<char>, n: seq<char>, e: nat, j: nat): (r: Option<nat>)
    requires e <= |h| && j + |n| <= e
    ensures r.Some? ==> r.value <= j && OccursAt(h, n, r.value)
    ensures r.Some? ==> forall x: nat :: r.value < x <= j ==> !OccursAt(h, n, x)
    ensures r.None? ==> forall x: nat :: x <= j ==> !OccursAt(h, n, x)
  {
    if OccursAt(h, n, j) then Some(j) else if j == 0 then None else RFindAt(h, n, e, j - 1)
  }

  /** `str::rfind` on the first `e` chars: the last occurrence that ends by `e`. */
  function RFindBefore(h: seq<char>, n: seq<char>, e: nat): (r: Option<nat>)
    requires e <= |h|
    ensures r.Some? ==> r.value + |n| <= e && OccursAt(h, n, r.value)
    ensures r.Some? ==> forall x: nat :: r.value < x && x + |n| <= e ==> !OccursAt(h, n, x)
    ensures r.None? ==> forall x: nat :: x + |n| <= e ==> !OccursAt(h, n, x)
  {
    if |n| > e then None else RFindAt(h, n, e, e - |n|)
  }

  /** The text searched: lowered unless the query is case sensitive. */
  function Haystack(text: seq<char>, q: SearchQuery): (h: seq<char>)
    ensures |h| == |text|
  {
    if q.caseSensitive then text else ToLower(text)
  }

  /** The needle searched for: lowered unless the query is case sensitive. */
  function Needle(q: SearchQuery): (n: seq<char>)
    ensures |n| == |q.needle|
  {
    if q.caseSensitive then q.needle else ToLower(q.needle)
  }

  /** `EditorEngine::find_next`: None for an empty needle; forward, the first occurrence
      starting at or after `fromChar`; backward, the last one ending by `fromChar` (both
      clamped to the text). A match spans exactly the needle's char count. The byte
      offsets the source goes through are those of `EditorSearch`; the match is found
      here directly on chars. */
  function FindNext(text: seq<char>, q: SearchQuery, fromChar: nat, dir: SearchDirection): (r: Option<SearchMatch>)
    ensures q.needle == [] ==> r == None
    ensures r.Some? ==> r.value.endChar == r.value.startChar + |q.needle| <= |text|
    ensures r.Some? ==> OccursAt(Haystack(text, q), Needle(q), r.value.startChar)
    ensures r.Some? && dir == Forward ==> Min(fromChar, |text|) <= r.value.startChar
    ensures r.Some? && dir == Backward ==> r.value.endChar <= Min(fromChar, |text|)
    ensures dir == Forward && r.Some? ==>
      forall j :: Min(fromChar, |text|) <= j < r.value.startChar ==> !OccursAt(Haystack(text, q), Needle(q), j)
    ensures dir == Forward && q.needle != [] && r.None? ==>
      forall j :: Min(fromChar, |text|) <= j ==> !OccursAt(Haystack(text, q), Needle(q), j)
    ensures dir == Backward && r.Some? ==>
      forall j: nat :: r.value.startChar < j && j + |q.needle| <= Min(fromChar, |text|) ==>
        !OccursAt(Haystack(text, q), Needle(q), j)
    ensures dir == Backward && q.needle != [] && r.None? ==>
      forall j: nat :: j + |q.needle| <= Min(fromChar, |text|) ==> !OccursAt(Haystack(text, q), Needle(q), j)
  {
    if q.needle == [] then None
    else
      var h, n := Haystack(text, q), Needle(q);
      match dir
      case Forward =>
        (match FindFrom(h, n, Min(fromChar, |h|))
         case None => None
         case Some(i) => Some(SearchMatch(i, i + |n|)))
      case Backward =>
        (match RFindBefore(h, n, Min(fromChar, |h|))
         case None => None
         case Some(i) => Some(SearchMatch(i, i + |n|)))
  }

  /** The matches `replace_all` collects in the haystack `h`: forward from `cursor`, each
      search starting at the end of the previous match, stopping once a match reaches the
      end of the text. */
  function GreedyMatches(h: seq<char>, n: seq<char>, cursor: nat): seq<SearchMatch>
    requires n != [] && cursor <= |h|
    decreases |h| - cursor
  {
    var r := FindFrom(h, n, cursor);
    if r.None? then []
    else if r.value + |n| >= |h| then [SearchMatch(r.value, r.value + |n|)]
    else [SearchMatch(r.value, r.value + |n|)] + GreedyMatches(h, n, r.value + |n|)
  }

  /** Every match is an occurrence of `n` in `h` that starts at or after `cursor`. */
  predicate OccurrencesFrom(h: seq<char>, n: seq<char>, cursor: nat, ms: seq<SearchMatch>)
  {
    forall i :: 0 <= i < |ms| ==>
      cursor <= ms[i].startChar && ms[i].endChar == ms[i].startChar + |n| <= |h| &&
      OccursAt(h, n, ms[i].startChar)
  }

  /** Each match ends before the next one starts. */
  predicate NonOverlapping(ms: seq<SearchMatch>)
  {
    forall i, j :: 0 <= i < j < |ms| ==> ms[i].endChar <= ms[j].startChar
  }

  /** The collected matches are occurrences that start at or after the cursor. */
  lemma {:induction false} GreedyMatchesOccur(h: seq<char>, n: seq<char>, cursor: nat)
    requires n != [] && cursor <= |h|
    ensures OccurrencesFrom(h, n, cursor, GreedyMatches(h, n, cursor))
    decreases |h| - cursor
  {
    var r := FindFrom(h, n, cursor);
    if r.Some? {
      var k := r.value;
      var m := SearchMatch(k, k + |n|);
      if k + |n| < |h| {
        var rest := GreedyMatches(h, n, k + |n|);
        GreedyMatchesOccur(h, n, k + |n|);
        var ms := [m] + rest;
        assert GreedyMatches(h, n, cursor) == ms;
        forall i | 0 <= i < |ms|
          ensures cursor <= ms[i].startChar && ms[i].endChar == ms[i].startChar + |n| <= |h|
          ensures OccursAt(h, n, ms[i].startChar)
        {
          if i > 0 { assert ms[i] == rest[i - 1]; }
        }
      } else {
        assert GreedyMatches(h, n, cursor) == [m];
      }
    }
  }

  /** The collected matches are in increasing order and do not overlap. */
  lemma {:induction false} GreedyMatchesOrdered(h: seq<char>, n: seq<char>, cursor: nat)
    requires n != [] && cursor <= |h|
    ensures NonOverlapping(GreedyMatches(h, n, cursor))
    decreases |h| - cursor
  {
    var r := FindFrom(h, n, cursor);
    if r.Some? {
      var k := r.value;
      if k + |n| < |h| {
        var rest := GreedyMatches(h, n, k + |n|);
        GreedyMatchesOrdered(h, n, k + |n|);
        GreedyMatchesOccur(h, n, k + |n|);
        var ms := [SearchMatch(k, k + |n|)] + rest;
        assert GreedyMatches(h, n, cursor) == ms;
        forall i, j | 0 <= i < j < |ms| ensures ms[i].endChar <= ms[j].startChar {
          assert ms[j] == rest[j - 1];
          if i > 0 {
            assert ms[i] == rest[i - 1];
          }
        }
      }
    }
  }

  /** Some match spans the char index `x`. */
  predicate Covers(ms: seq<SearchMatch>, x: nat)
  {
    exists i :: 0 <= i < |ms| && ms[i].startChar <= x < ms[i].endChar
  }

  /** Every occurrence at or after the cursor is collected or overlaps a collected match
      that starts before it. */
  lemma {:induction false} GreedyMatchesCover(h: seq<char>, n: seq<char>, cursor: nat, x: nat)
    requires n != [] && cursor <= x && OccursAt(h, n, x)
    ensures Covers(GreedyMatches(h, n, cursor), x)
    decreases |h| - cursor
  {
    var r := FindFrom(h, n, cursor);
    assert r.Some? && r.value <= x;
    var k := r.value;
    var m := SearchMatch(k, k + |n|);
    if x >= k + |n| {
      assert k + |n| < |h|;
      var rest := GreedyMatches(h, n, k + |n|);
      GreedyMatchesCover(h, n, k + |n|, x);
      var ms := [m] + rest;
      assert GreedyMatches(h, n, cursor) == ms;
      var i :| 0 <= i < |rest| && rest[i].startChar <= x < rest[i].endChar;
      assert ms[i + 1] == rest[i];
    } else {
      var ms := GreedyMatches(h, n, cursor);
      assert ms[0] == m;
    }
  }

  // ----- the commands, as the buffer state each one leaves -----

  /** The selection set of one caret at `c`, as the commands build it. */
  function SingleCaretSet(c: nat): (r: SelectionSet)
    ensures r.IsSingleCaret() && r.AllIncludingPrimary() == [Caret(c)]
  {
    SelectionSet(Caret(c), [])
  }

  /** The text after typing: the recorded edits replayed from the highest start down. */
  lemma TypedText(st: BufferState, ins: seq<char>)
    requires SelectionsInText(st)
    ensures var es := EditsOf(st.text, st.selections.AllIncludingPrimary(), ins);
      Typed(st, ins).text == if AllEmpty(es) then st.text else ApplyAll(st.text, SortDesc(es))
  {
  }

  /** The edit recorded for typing over one selection inside the text replaces exactly
      the selected chars. */
  lemma OneSelectionReplay(s: seq<char>, p: Selection, ins: seq<char>)
    requires p.End() <= |s| && !(ins == [] && p.IsCaret())
    ensures var es := EditsOf(s, [p], ins);
      !AllEmpty(es) && ApplyAll(s, SortDesc(es)) == s[..p.Start()] + ins + s[p.End()..]
  {
    var e := EditOf(s, p.Start(), p.End(), ins);
    assert EditsOf(s, [p], ins) == [e];
    assert !AllEmpty([e]) by {
      if p.Start() < p.End() { assert |e.deleted| > 0; }
    }
    ReplayOne(s, e);
    ApplyEditOf(s, p.Start(), p.End(), ins);
  }

  /** The edit recorded for replacing `a..b` by `ins` replaces exactly those chars. */
  lemma ApplyEditOf(s: seq<char>, a: nat, b: nat, ins: seq<char>)
    requires a <= b <= |s|
    ensures ApplyEdit(s, EditOf(s, a, b, ins)) == s[..a] + ins + s[b..]
  {
    var e := EditOf(s, a, b, ins);
    assert e.startChar + e.DeletedLen() == b;
  }

  /** Typing over one selection inside the text replaces exactly the selected chars. */
  lemma TypedOneSelection(st: BufferState, ins: seq<char>)
    requires SelectionsInText(st) && st.selections.secondary == []
    requires !(ins == [] && st.selections.primary.IsCaret())
    ensures var p := st.selections.primary;
      Typed(st, ins).text == st.text[..p.Start()] + ins + st.text[p.End()..]
  {
    var p := st.selections.primary;
    assert st.selections.AllIncludingPrimary() == [p];
    OneSelectionReplay(st.text, p, ins);
    TypedText(st, ins);
  }

  /** The selection `backspace` puts in place of a caret: the char before it, or the caret
      itself at 0 (the caret is clamped to the text first). */
  function BackspaceTarget(len: nat, s: Selection): (r: Selection)
    ensures r.End() == Min(s.head, len)
    ensures r.End() - r.Start() == (if Min(s.head, len) == 0 then 0 else 1)
  {
    var c := Min(s.head, len);
    if c == 0 then Caret(c) else Selection(c - 1, c)
  }

  function BackspaceTargets(len: nat, sels: seq<Selection>): (r: seq<Selection>)
    ensures |r| == |sels|
    ensures forall i :: 0 <= i < |sels| ==> r[i] == BackspaceTarget(len, sels[i])
  {
    seq(|sels|, i requires 0 <= i < |sels| => BackspaceTarget(len, sels[i]))
  }

  /** The state `backspace` leaves: a selection is deleted as typing ""; carets first grow
      over the char before them. */
  function Backspaced(st: BufferState): BufferState
    requires !AllCarets(st.selections.AllIncludingPrimary()) ==> SelectionsInText(st)
  {
    var sels := st.selections.AllIncludingPrimary();
    if !AllCarets(sels) then Typed(st, [])
    else
      var targets := BackspaceTargets(|st.text|, sels);
      assert FromList(targets).AllIncludingPrimary() == targets;
      Typed(st.(selections := FromList(targets)), [])
  }

  /** Backspace with a single caret at 0 changes nothing. */
  lemma BackspaceAtStart(st: BufferState)
    requires st.selections.IsSingleCaret() && st.selections.primary.head == 0
    ensures Backspaced(st) == st
  {
    var sels := st.selections.AllIncludingPrimary();
    assert sels == [Caret(0)];
    assert BackspaceTargets(|st.text|, sels) == [Caret(0)];
    assert st.(selections := FromList([Caret(0)])) == st;
    TypedNoOp(st, []);
  }

  /** Backspace with a single caret inside the text removes exactly the char before it,
      that caret, and leaves the caret there. */
  lemma BackspaceRemovesOne(st: BufferState)
    requires st.selections.IsSingleCaret() && 0 < st.selections.primary.head <= |st.text|
    ensures var h := st.selections.primary.head;
      Backspaced(st).text == st.text[..h - 1] + st.text[h..]
  {
    var h := st.selections.primary.head;
    var sels := st.selections.AllIncludingPrimary();
    assert sels == [Caret(h)];
    var targets := BackspaceTargets(|st.text|, sels);
    assert targets == [Selection(h - 1, h)];
    var t := st.(selections := FromList(targets));
    TypedOneSelection(t, []);
  }

  /** It leaves a single caret at the start of the deleted char. */
  lemma BackspaceCaret(st: BufferState)
    requires st.selections.IsSingleCaret() && 0 < st.selections.primary.head <= |st.text|
    ensures Backspaced(st).selections.AllIncludingPrimary() == [Caret(st.selections.primary.head - 1)]
  {
    var h := st.selections.primary.head;
    var sels := st.selections.AllIncludingPrimary();
    assert sels == [Caret(h)];
    var targets := BackspaceTargets(|st.text|, sels);
    assert targets == [Selection(h - 1, h)];
    TypedCarets(st.(selections := FromList(targets)), []);
  }

  /** The selection `delete_forward` puts in place of a caret: the char after it, or the
      caret itself at the end (clamped to the text first). */
  function DeleteForwardTarget(len: nat, s: Selection): (r: Selection)
    ensures r.Start() == Min(s.head, len)
    ensures r.End() - r.Start() == (if Min(s.head, len) >= len then 0 else 1)
  {
    var c := Min(s.head, len);
    if c >= len then Caret(c) else Selection(c, c + 1)
  }

  function DeleteForwardTargets(len: nat, sels: seq<Selection>): (r: seq<Selection>)
    ensures |r| == |sels|
    ensures forall i :: 0 <= i < |sels| ==> r[i] == DeleteForwardTarget(len, sels[i])
  {
    seq(|sels|, i requires 0 <= i < |sels| => DeleteForwardTarget(len, sels[i]))
  }

  /** The state `delete_forward` leaves: as `backspace`, towards the end. */
  function DeletedForward(st: BufferState): BufferState
    requires !AllCarets(st.selections.AllIncludingPrimary()) ==> SelectionsInText(st)
  {
    var sels := st.selections.AllIncludingPrimary();
    if !AllCarets(sels) then Typed(st, [])
    else
      var targets := DeleteForwardTargets(|st.text|, sels);
      assert FromList(targets).AllIncludingPrimary() == targets;
      Typed(st.(selections := FromList(targets)), [])
  }

  /** Delete-forward with a single caret at the end of the text changes nothing. */
  lemma DeleteForwardAtEnd(st: BufferState)
    requires st.selections.IsSingleCaret() && st.selections.primary.head == |st.text|
    ensures DeletedForward(st) == st
  {
    var h := |st.text|;
    var sels := st.selections.AllIncludingPrimary();
    assert sels == [Caret(h)];
    assert DeleteForwardTargets(h, sels) == [Caret(h)];
    assert st.(selections := FromList([Caret(h)])) == st;
    TypedNoOp(st, []);
  }

  /** Delete-forward with a single caret before the end removes exactly the char after it
      and leaves the caret where it was. */
  lemma DeleteForwardRemovesOne(st: BufferState)
    requires st.selections.IsSingleCaret() && st.selections.primary.head < |st.text|
    ensures var h := st.selections.primary.head;
      DeletedForward(st).text == st.text[..h] + st.text[h + 1..]
  {
    var h := st.selections.primary.head;
    var sels := st.selections.AllIncludingPrimary();
    assert sels == [Caret(h)];
    var targets := DeleteForwardTargets(|st.text|, sels);
    assert targets == [Selection(h, h + 1)];
    var t := st.(selections := FromList(targets));
    TypedOneSelection(t, []);
  }

  /** It leaves a single caret at the start of the deleted char. */
  lemma DeleteForwardCaret(st: BufferState)
    requires st.selections.IsSingleCaret() && st.selections.primary.head < |st.text|
    ensures DeletedForward(st).selections.AllIncludingPrimary() == [Caret(st.selections.primary.head)]
  {
    var h := st.selections.primary.head;
    var sels := st.selections.AllIncludingPrimary();
    assert sels == [Caret(h)];
    var targets := DeleteForwardTargets(|st.text|, sels);
    assert targets == [Selection(h, h + 1)];
    TypedCarets(st.(selections := FromList(targets)), []);
  }

  /** What each selection covers, clamped to the text. */
  function SelectedSlices(t: seq<char>, sels: seq<Selection>): (r: seq<seq<char>>)
    ensures |r| == |sels|
    ensures forall i :: 0 <= i < |sels| ==> r[i] == Slice(t, sels[i].Start(), sels[i].End())
  {
    seq(|sels|, i requires 0 <= i < |sels| => Slice(t, sels[i].Start(), sels[i].End()))
  }

  /** The text `copy` returns: "" when every selection is a caret, otherwise the selected
      slices joined by '\n'. */
  function CopyText(t: seq<char>, sels: seq<Selection>): seq<char>
  {
    if AllCarets(sels) then [] else Join(SelectedSlices(t, sels), "\n")
  }

  /** The copied text holds every selected char and one '\n' between each two selections. */
  lemma CopyTextLength(t: seq<char>, sels: seq<Selection>)
    requires sels != [] && !AllCarets(sels)
    ensures |CopyText(t, sels)| == SumLengths(SelectedSlices(t, sels)) + |sels| - 1
  {
    JoinLength(SelectedSlices(t, sels), "\n");
  }

  /** With one selection inside the text, `copy` returns exactly the selected chars. */
  lemma CopyOneSelection(t: seq<char>, s: Selection)
    requires s.End() <= |t| && !s.IsCaret()
    ensures CopyText(t, [s]) == t[s.Start()..s.End()]
  {
    assert [s][0] == s;
    assert SelectedSlices(t, [s]) == [Slice(t, s.Start(), s.End())];
  }

  /** The state `cut` leaves: nothing when the copied text is empty, otherwise every
      selection is deleted as typing "". */
  function CutState(st: BufferState): BufferState
    requires CopyText(st.text, st.selections.AllIncludingPrimary()) != [] ==> SelectionsInText(st)
  {
    if CopyText(st.text, st.selections.AllIncludingPrimary()) == [] then st else Typed(st, [])
  }

  /** Cutting one selection and undoing gives the text back, and the cut text is what
      was selected. */
  lemma CutThenUndo(st: BufferState)
    requires SelectionsInText(st) && st.selections.secondary == [] && !st.selections.primary.IsCaret()
    ensures var p := st.selections.primary;
      CopyText(st.text, st.selections.AllIncludingPrimary()) == st.text[p.Start()..p.End()] &&
      CutState(st).text == st.text[..p.Start()] + st.text[p.End()..] &&
      Undone(CutState(st)).text == st.text
  {
    var p := st.selections.primary;
    var sels := st.selections.AllIncludingPrimary();
    assert sels == [p];
    CopyOneSelection(st.text, p);
    TypedOneSelection(st, []);
    assert SelectionsApart(sels);
    var es := SortDesc(EditsOf(st.text, sels, []));
    assert !Coalesces(st.undo, Transaction(TransactionKind.Delete, es), false);
    TypedThenUndone(st, []);
  }

  /** The text after replacing ranges is the recorded edits replayed from the highest
      start down. */
  lemma RangesReplacedText(st: BufferState, ranges: seq<ReplaceRange>, kind: TransactionKind, sels: SelectionSet)
    requires RangesInText(st.text, ranges) && ranges != []
    ensures RangesReplaced(st, ranges, kind, sels).text == ApplyAll(st.text, SortDesc(EditsOfRanges(st.text, ranges)))
  {
  }

  /** Replacing one range inside the text replaces exactly those chars. */
  lemma RangesReplacedOne(st: BufferState, r: ReplaceRange, kind: TransactionKind, sels: SelectionSet)
    requires r.startChar <= r.endChar <= |st.text|
    ensures RangesInText(st.text, [r])
    ensures RangesReplaced(st, [r], kind, sels).text ==
      st.text[..r.startChar] + r.inserted + st.text[r.endChar..]
    ensures r.inserted == [] ==>
      RangesReplaced(st, [r], kind, sels).text == st.text[..r.startChar] + st.text[r.endChar..]
  {
    var e := EditOf(st.text, r.startChar, r.endChar, r.inserted);
    assert EditsOfRanges(st.text, [r]) == [e];
    ReplayOne(st.text, e);
    RangesReplacedText(st, [r], kind, sels);
    ApplyEditOf(st.text, r.startChar, r.endChar, r.inserted);
    if r.inserted == [] {
      assert st.text[..r.startChar] + r.inserted == st.text[..r.startChar];
    }
  }

  /** The deletions `delete_word_backward` collects: from each caret back to where
      `find_word_left` lands, for the carets where that is an actual move. */
  function WordBackRanges(t: seq<char>, sels: seq<Selection>): (rs: seq<ReplaceRange>)
    ensures |rs| <= |sels|
    ensures forall i :: 0 <= i < |rs| ==>
      rs[i].inserted == [] && rs[i].startChar < rs[i].endChar && rs[i].startChar == WordLeft(t, rs[i].endChar)
    ensures InText(t, sels) ==> RangesInText(t, rs)
  {
    if sels == [] then []
    else
      var rest := WordBackRanges(t, sels[..|sels| - 1]);
      var c := sels[|sels| - 1].head;
      var start := WordLeft(t, c);
      if start < c then rest + [ReplaceRange(start, c, [])] else rest
  }

  /** The deletions `delete_word_forward` collects: from each caret up to where
      `find_word_right` lands, when that is past the caret. */
  function WordForwardRanges(t: seq<char>, sels: seq<Selection>): (rs: seq<ReplaceRange>)
    ensures |rs| <= |sels|
    ensures forall i :: 0 <= i < |rs| ==>
      rs[i].inserted == [] && rs[i].startChar < rs[i].endChar && rs[i].endChar == WordRight(t, rs[i].startChar)
    ensures RangesInText(t, rs)
  {
    if sels == [] then []
    else
      var rest := WordForwardRanges(t, sels[..|sels| - 1]);
      var c := sels[|sels| - 1].head;
      var end := WordRight(t, c);
      if c < end then rest + [ReplaceRange(c, end, [])] else rest
  }

  /** What `delete_word_backward` does when every selection is a caret: the collected
      ranges are deleted, leaving one caret at the start of the last one (at 0 when there
      is none). */
  function WordBackDeletion(st: BufferState): BufferState
    requires InText(st.text, st.selections.AllIncludingPrimary())
  {
    var rs := WordBackRanges(st.text, st.selections.AllIncludingPrimary());
    RangesReplaced(st, rs, TransactionKind.Delete,
      SingleCaretSet(if rs == [] then 0 else rs[|rs| - 1].startChar))
  }

  /** The state `delete_word_backward` leaves: a selection is deleted as typing "",
      otherwise `WordBackDeletion`. */
  function DeletedWordBackward(st: BufferState): BufferState
    requires SelectionsInText(st)
  {
    if !AllCarets(st.selections.AllIncludingPrimary()) then Typed(st, []) else WordBackDeletion(st)
  }

  /** What `delete_word_forward` does when every selection is a caret: as backward, the
      caret going to the start of the first range. */
  function WordForwardDeletion(st: BufferState): BufferState
  {
    var rs := WordForwardRanges(st.text, st.selections.AllIncludingPrimary());
    RangesReplaced(st, rs, TransactionKind.Delete, SingleCaretSet(if rs == [] then 0 else rs[0].startChar))
  }

  /** The state `delete_word_forward` leaves. */
  function DeletedWordForward(st: BufferState): BufferState
    requires !AllCarets(st.selections.AllIncludingPrimary()) ==> SelectionsInText(st)
  {
    if !AllCarets(st.selections.AllIncludingPrimary()) then Typed(st, []) else WordForwardDeletion(st)
  }

  /** With one caret, `delete_word_backward` removes the chars from where
      `find_word_left` lands up to the caret, and nothing when it does not move. */
  lemma DeleteWordBackwardOne(st: BufferState)
    requires st.selections.IsSingleCaret() && st.selections.primary.head <= |st.text|
    ensures var c := st.selections.primary.head;
      WordBackDeletion(st).text == st.text[..WordLeft(st.text, c)] + st.text[c..]
  {
    var c := st.selections.primary.head;
    var sels := st.selections.AllIncludingPrimary();
    assert sels == [Caret(c)] && sels[..0] == [];
    if c == 0 {
      assert WordBackRanges(st.text, sels) == [];
      assert st.text[0..] == st.text;
    } else {
      WordLeftShape(st.text, c);
      var w := WordLeft(st.text, c);
      var r := ReplaceRange(w, c, []);
      assert WordBackRanges(st.text, sels) == [r];
      RangesReplacedOne(st, r, TransactionKind.Delete, SingleCaretSet(w));
    }
  }

  /** With one caret inside the text, `delete_word_forward` removes the chars from the
      caret up to where `find_word_right` lands. */
  lemma DeleteWordForwardOne(st: BufferState)
    requires st.selections.IsSingleCaret() && st.selections.primary.head <= |st.text|
    ensures var c := st.selections.primary.head;
      WordForwardDeletion(st).text == st.text[..c] + st.text[WordRight(st.text, c)..]
  {
    var c := st.selections.primary.head;
    var sels := st.selections.AllIncludingPrimary();
    assert sels == [Caret(c)] && sels[..0] == [];
    var w := WordRight(st.text, c);
    if c < w {
      var r := ReplaceRange(c, w, []);
      assert WordForwardRanges(st.text, sels) == [r];
      RangesReplacedOne(st, r, TransactionKind.Delete, SingleCaretSet(c));
    } else {
      assert WordForwardRanges(st.text, sels) == [];
      assert st.text[..c] + st.text[c..] == st.text;
    }
  }

  // ----- the lines the selections touch -----

  predicate StrictlyIncreasing(xs: seq<nat>)
  {
    forall i, j :: 0 <= i < j < |xs| ==> xs[i] < xs[j]
  }

  /** `x` put in its place in an increasing list without repeats, unless already there. */
  function InsertSorted(x: nat, xs: seq<nat>): (r: seq<nat>)
    requires StrictlyIncreasing(xs)
    ensures StrictlyIncreasing(r)
    ensures forall y :: y in r <==> y == x || y in xs
  {
    if xs == [] then [x]
    else if x < xs[0] then [x] + xs
    else if x == xs[0] then xs
    else
      assert StrictlyIncreasing(xs[1..]);
      var rest := InsertSorted(x, xs[1..]);
      assert xs == [xs[0]] + xs[1..];
      StrictlyIncreasingCons(xs[0], rest);
      [xs[0]] + rest
  }

  /** A value below every element of an increasing list extends it at the front. */
  lemma StrictlyIncreasingCons(h: nat, xs: seq<nat>)
    requires StrictlyIncreasing(xs) && forall y :: y in xs ==> h < y
    ensures StrictlyIncreasing([h] + xs)
    ensures forall y :: y in [h] + xs <==> y == h || y in xs
  {
    var r := [h] + xs;
    forall i, j | 0 <= i < j < |r| ensures r[i] < r[j] {
      assert r[j] == xs[j - 1] && xs[j - 1] in xs;
      if i > 0 {
        assert r[i] == xs[i - 1];
      }
    }
  }

  /** `sort_unstable` followed by `dedup`: the distinct values, increasing. */
  function SortedUnique(xs: seq<nat>): (r: seq<nat>)
    ensures StrictlyIncreasing(r)
    ensures forall y :: y in r <==> y in xs
  {
    if xs == [] then []
    else
      assert xs == xs[..|xs| - 1] + [xs[|xs| - 1]];
      InsertSorted(xs[|xs| - 1], SortedUnique(xs[..|xs| - 1]))
  }

  /** Every head lies inside the text (ropey's `char_to_line` panics otherwise). */
  predicate HeadsInText(t: seq<char>, sels: seq<Selection>)
  {
    forall i :: 0 <= i < |sels| ==> sels[i].head <= |t|
  }

  /** The line of each head, in selection order (`delete_line`, `duplicate_line`). */
  function HeadLines(t: seq<char>, sels: seq<Selection>): (r: seq<nat>)
    requires HeadsInText(t, sels)
    ensures |r| == |sels|
    ensures forall i :: 0 <= i < |sels| ==> r[i] == CharToLine(t, sels[i].head)
  {
    seq(|sels|, i requires 0 <= i < |sels| && HeadsInText(t, sels) => CharToLine(t, sels[i].head))
  }

  /** The lines of each selection's start and end, in selection order (the line-prefix
      edits). */
  function TouchedLines(t: seq<char>, sels: seq<Selection>): (r: seq<nat>)
    requires InText(t, sels)
    ensures |r| == 2 * |sels|
    ensures forall i :: 0 <= i < |sels| ==>
      r[2 * i] == CharToLine(t, sels[i].Start()) && r[2 * i + 1] == CharToLine(t, sels[i].End())
  {
    if sels == [] then []
    else
      var l := sels[|sels| - 1];
      TouchedLines(t, sels[..|sels| - 1]) + [CharToLine(t, l.Start()), CharToLine(t, l.End())]
  }

  // ----- delete_line and duplicate_line -----

  /** The deletions `delete_line` collects, walking the lines from the last one down: each
      line with its '\n', when it is not empty. */
  function LineDeleteRanges(t: seq<char>, lines: seq<nat>): (rs: seq<ReplaceRange>)
    ensures |rs| <= |lines|
    ensures RangesInText(t, rs)
    ensures forall i :: 0 <= i < |rs| ==> rs[i].inserted == [] && rs[i].startChar < rs[i].endChar
  {
    if lines == [] then []
    else
      var l := lines[|lines| - 1];
      var a, b := LineStartChar(t, l), LineEndChar(t, l);
      (if a < b then [ReplaceRange(a, b, [])] else []) + LineDeleteRanges(t, lines[..|lines| - 1])
  }

  /** The state `delete_line` leaves: the lines of the heads deleted, one caret at the
      start of the lowest deleted line (0 when nothing is deleted). */
  function DeletedLine(st: BufferState): BufferState
    requires HeadsInText(st.text, st.selections.AllIncludingPrimary())
  {
    var lines := SortedUnique(HeadLines(st.text, st.selections.AllIncludingPrimary()));
    var rs := LineDeleteRanges(st.text, lines);
    RangesReplaced(st, rs, TransactionKind.Delete, SingleCaretSet(if rs == [] then 0 else rs[|rs| - 1].startChar))
  }

  /** The one line of a single caret, as `delete_line` and `duplicate_line` collect it. */
  lemma SingleCaretLine(st: BufferState)
    requires st.selections.IsSingleCaret() && st.selections.primary.head <= |st.text|
    ensures HeadsInText(st.text, st.selections.AllIncludingPrimary())
    ensures SortedUnique(HeadLines(st.text, st.selections.AllIncludingPrimary())) ==
      [CharToLine(st.text, st.selections.primary.head)]
  {
    var sels := st.selections.AllIncludingPrimary();
    assert sels == [Caret(st.selections.primary.head)];
    var hl := HeadLines(st.text, sels);
    assert hl == [CharToLine(st.text, st.selections.primary.head)];
    assert hl[..0] == [];
  }

  /** The deletion `delete_line` collects for a single line: the line's chars, unless
      there are none. */
  lemma LineDeleteRangesOne(t: seq<char>, l: nat)
    requires l < LenLines(t)
    ensures var a, b := LineToChar(t, l), LineToChar(t, l + 1);
      a <= b &&
      LineDeleteRanges(t, [l]) == if a < b then [ReplaceRange(a, b, [])] else []
  {
    assert [l][..0] == [];
    LineStartsOrdered(t, l);
    assert LineStartChar(t, l) == LineToChar(t, l) && LineEndChar(t, l) == LineToChar(t, l + 1);
  }

  /** With one caret, `delete_line` removes exactly its line with the line's '\n'. */
  lemma DeleteLineOne(st: BufferState)
    requires st.selections.IsSingleCaret() && st.selections.primary.head <= |st.text|
    ensures var l := CharToLine(st.text, st.selections.primary.head);
      DeletedLine(st).text == st.text[..LineStartChar(st.text, l)] + st.text[LineEndChar(st.text, l)..]
  {
    var t := st.text;
    var l := CharToLine(t, st.selections.primary.head);
    SingleCaretLine(st);
    DeletedLineOf(st, l);
    LineDeleteRangesOne(t, l);
    LineBoundsChars(t, l);
    OneRangeDeleted(st, LineToChar(t, l), LineToChar(t, l + 1), LineDeleteRanges(t, [l]));
  }

  /** `delete_line` over a single collected line deletes that line's ranges. */
  lemma DeletedLineOf(st: BufferState, l: nat)
    requires HeadsInText(st.text, st.selections.AllIncludingPrimary())
    requires SortedUnique(HeadLines(st.text, st.selections.AllIncludingPrimary())) == [l]
    ensures var rs := LineDeleteRanges(st.text, [l]);
      DeletedLine(st) == RangesReplaced(st, rs, TransactionKind.Delete,
        SingleCaretSet(if rs == [] then 0 else rs[|rs| - 1].startChar))
  {
  }

  /** For a line of the document, the clamped start and end are its `LineToChar` bounds. */
  lemma LineBoundsChars(t: seq<char>, l: nat)
    requires l < LenLines(t)
    ensures LineStartChar(t, l) == LineToChar(t, l) && LineEndChar(t, l) == LineToChar(t, l + 1)
  {
  }

  /** Deleting the chars `a..b` (nothing when the range is empty) leaves the text around it. */
  lemma OneRangeDeleted(st: BufferState, a: nat, b: nat, rs: seq<ReplaceRange>)
    requires a <= b <= |st.text|
    requires rs == if a < b then [ReplaceRange(a, b, [])] else []
    ensures RangesInText(st.text, rs)
    ensures RangesReplaced(st, rs, TransactionKind.Delete,
      SingleCaretSet(if rs == [] then 0 else rs[|rs| - 1].startChar)).text == st.text[..a] + st.text[b..]
  {
    if a < b {
      RangesReplacedOne(st, ReplaceRange(a, b, []), TransactionKind.Delete, SingleCaretSet(a));
    } else {
      assert st.text[..a] + st.text[a..] == st.text;
    }
  }

  /** `trim_end_matches('\n')`: every trailing '\n' removed. */
  function TrimTrailingNewlines(s: seq<char>): (r: seq<char>)
    ensures |r| <= |s| && r == s[..|r|]
    ensures r == [] || r[|r| - 1] != '\n'
    ensures forall i :: |r| <= i < |s| ==> s[i] == '\n'
  {
    if s != [] && s[|s| - 1] == '\n' then
      var r := TrimTrailingNewlines(s[..|s| - 1]);
      assert r == s[..|r|];
      r
    else s
  }

  /** What `duplicate_line` puts in place of a line's chars: the line, a '\n' and the line
      again, keeping the line's own '\n' at the end. */
  function DuplicatedChunk(original: seq<char>): seq<char>
  {
    if |original| > 0 && original[|original| - 1] == '\n' then
      var lt := TrimTrailingNewlines(original);
      lt + "\n" + lt + "\n"
    else original + "\n" + original
  }

  /** The replacements `duplicate_line` collects, from the last line down. */
  function LineDuplicateRanges(t: seq<char>, lines: seq<nat>): (rs: seq<ReplaceRange>)
    ensures |rs| == |lines|
    ensures RangesInText(t, rs)
  {
    if lines == [] then []
    else
      var l := lines[|lines| - 1];
      var a, b := LineStartChar(t, l), LineEndChar(t, l);
      [ReplaceRange(a, b, DuplicatedChunk(Slice(t, a, b)))] + LineDuplicateRanges(t, lines[..|lines| - 1])
  }

  /** The state `duplicate_line` leaves: every line of a head duplicated, one caret where
      the primary head was. */
  function DuplicatedLine(st: BufferState): BufferState
    requires HeadsInText(st.text, st.selections.AllIncludingPrimary())
  {
    var lines := SortedUnique(HeadLines(st.text, st.selections.AllIncludingPrimary()));
    RangesReplaced(st, LineDuplicateRanges(st.text, lines), TransactionKind.Other,
      SingleCaretSet(st.selections.primary.head))
  }

  /** A line's text with its '\n' trims back to the line's text. */
  lemma TrimLineBreak(lt: seq<char>)
    requires '\n' !in lt
    ensures TrimTrailingNewlines(lt + "\n") == lt
  {
    assert (lt + "\n")[..|lt|] == lt;
    if lt != [] { assert lt[|lt| - 1] in lt; }
  }

  /** The duplicated chunk of a line without a '\n'. */
  lemma DuplicatedLastLine(lt: seq<char>)
    requires '\n' !in lt
    ensures DuplicatedChunk(lt) == lt + "\n" + lt
  {
    if lt != [] { assert lt[|lt| - 1] in lt; }
  }

  /** The chars of line `l`, with its '\n' when it has one. */
  function LineChunk(t: seq<char>, l: nat): (chunk: seq<char>)
    requires l < LenLines(t)
    ensures l < CountNewlines(t) ==> chunk == LineText(t, l) + "\n"
    ensures l == CountNewlines(t) ==> chunk == LineText(t, l)
  {
    LineStartsOrdered(t, l);
    t[LineToChar(t, l)..LineToChar(t, l + 1)]
  }

  /** The duplicated chunk of a line is the line's text, a '\n' and the line's chars. */
  lemma DuplicatedChunkOfLine(t: seq<char>, l: nat)
    requires l < LenLines(t)
    ensures DuplicatedChunk(LineChunk(t, l)) == LineText(t, l) + "\n" + LineChunk(t, l)
  {
    ChunkDuplicated(LineText(t, l), LineChunk(t, l), l < CountNewlines(t));
  }

  /** The duplicated chunk of a line's chars, given the line's text and whether the
      chars end in the line's '\n'. */
  lemma ChunkDuplicated(lt: seq<char>, chunk: seq<char>, hasBreak: bool)
    requires '\n' !in lt && chunk == if hasBreak then lt + "\n" else lt
    ensures DuplicatedChunk(chunk) == lt + "\n" + chunk
  {
    if hasBreak {
      TrimLineBreak(lt);
    } else {
      DuplicatedLastLine(lt);
    }
  }

  /** The one replacement `duplicate_line` collects for a single line. */
  lemma LineDuplicateRangesOne(t: seq<char>, l: nat)
    requires l < LenLines(t)
    ensures LineDuplicateRanges(t, [l]) ==
      [ReplaceRange(LineToChar(t, l), LineToChar(t, l + 1), DuplicatedChunk(LineChunk(t, l)))]
  {
    assert [l][..0] == [];
    LineStartsOrdered(t, l);
    assert LineStartChar(t, l) == LineToChar(t, l) && LineEndChar(t, l) == LineToChar(t, l + 1);
  }

  /** Replacing line `l`'s chars by their duplicate inserts the line's text and a '\n'
      at the line's start. */
  lemma DuplicateLineText(t: seq<char>, l: nat)
    requires l < LenLines(t)
    ensures var a, b := LineToChar(t, l), LineToChar(t, l + 1);
      a <= b <= |t| &&
      t[..a] + DuplicatedChunk(LineChunk(t, l)) + t[b..] == t[..a] + LineText(t, l) + "\n" + t[a..]
  {
    var a, b := LineToChar(t, l), LineToChar(t, l + 1);
    LineStartsOrdered(t, l);
    DuplicatedChunkOfLine(t, l);
    DuplicateSplice(t, a, b, LineChunk(t, l), LineText(t, l));
  }

  /** Replacing a piece by its duplicate, when that is a line text, '\n' and the piece. */
  lemma DuplicateSplice(t: seq<char>, a: nat, b: nat, chunk: seq<char>, lt: seq<char>)
    requires a <= b <= |t| && chunk == t[a..b] && DuplicatedChunk(chunk) == lt + "\n" + chunk
    ensures t[..a] + DuplicatedChunk(chunk) + t[b..] == t[..a] + lt + "\n" + t[a..]
  {
    SuffixSplit(t, a, b);
    SpliceBefore(t[..a], lt + "\n", chunk, t[b..], t[a..]);
  }

  /** A suffix is the piece up to `b` followed by the rest. */
  lemma SuffixSplit(s: seq<char>, a: nat, b: nat)
    requires a <= b <= |s|
    ensures s[a..] == s[a..b] + s[b..]
  {
  }

  /** Putting `y` in front of a piece that starts the rest of the text. */
  lemma SpliceBefore(x: seq<char>, y: seq<char>, chunk: seq<char>, z: seq<char>, s: seq<char>)
    requires s == chunk + z
    ensures x + (y + chunk) + z == x + y + s
  {
  }

  /** With one caret, `duplicate_line` inserts a copy of its line and a '\n' at the line's
      start, and leaves the caret where it was. */
  lemma DuplicateLineOne(st: BufferState)
    requires st.selections.IsSingleCaret() && st.selections.primary.head <= |st.text|
    ensures var l := CharToLine(st.text, st.selections.primary.head);
      var a := LineStartChar(st.text, l);
      DuplicatedLine(st).text == st.text[..a] + LineText(st.text, l) + "\n" + st.text[a..]
  {
    var t := st.text;
    var l := CharToLine(t, st.selections.primary.head);
    SingleCaretLine(st);
    LineDuplicateRangesOne(t, l);
    DuplicateLineText(t, l);
    var r := ReplaceRange(LineToChar(t, l), LineToChar(t, l + 1), DuplicatedChunk(LineChunk(t, l)));
    RangesReplacedOne(st, r, TransactionKind.Other, SingleCaretSet(st.selections.primary.head));
  }

  // ----- apply_line_prefix_edit and toggle_line_prefix -----

  /** Whether the line starting at `a` starts with `p`, as `apply_line_prefix_edit` tests
      it: the chars from `a`, as many as `p` has (fewer at the end of the text), are `p`. */
  predicate HasPrefixAt(t: seq<char>, a: nat, p: seq<char>)
  {
    Slice(t, a, Min(a + |p|, |t|)) == p
  }

  /** The test holds exactly when `p` occurs at `a`. */
  lemma HasPrefixAtMeaning(t: seq<char>, a: nat, p: seq<char>)
    requires a <= |t|
    ensures HasPrefixAt(t, a, p) <==> a + |p| <= |t| && t[a..a + |p|] == p
  {
    if a + |p| <= |t| && p != [] {
      assert Slice(t, a, a + |p|) == t[a..a + |p|];
    }
  }

  /** One range of a prefix edit: removing `p` where it occurs, or inserting it. */
  predicate PrefixEdit(t: seq<char>, p: seq<char>, remove: bool, r: ReplaceRange)
  {
    if remove then
      r.inserted == [] && r.endChar == r.startChar + |p| <= |t| && t[r.startChar..r.endChar] == p
    else
      r.startChar == r.endChar && r.inserted == p
  }

  /** The range `apply_line_prefix_edit` collects for the line starting at `a`, if any. */
  function PrefixRangeAt(t: seq<char>, p: seq<char>, a: nat, remove: bool): (r: seq<ReplaceRange>)
    requires a <= |t|
    ensures |r| <= 1 && (!remove ==> |r| == 1)
    ensures remove ==> (|r| == 1 <==> HasPrefixAt(t, a, p))
    ensures forall i :: 0 <= i < |r| ==> r[i].startChar == a
    ensures PrefixEdits(t, p, remove, r)
  {
    HasPrefixAtMeaning(t, a, p);
    if !remove then [ReplaceRange(a, a, p)]
    else if HasPrefixAt(t, a, p) then [ReplaceRange(a, a + |p|, [])]
    else []
  }

  /** The ranges `apply_line_prefix_edit` collects, from the last line down: in remove
      mode the prefix of each line that has it, otherwise an insertion of the prefix at
      every line start. */
  function PrefixRanges(t: seq<char>, p: seq<char>, lines: seq<nat>, remove: bool): (rs: seq<ReplaceRange>)
    ensures |rs| <= |lines|
    ensures !remove ==> |rs| == |lines|
    ensures PrefixEdits(t, p, remove, rs)
  {
    if lines == [] then []
    else
      var r := PrefixRangeAt(t, p, LineStartChar(t, lines[|lines| - 1]), remove);
      var rest := PrefixRanges(t, p, lines[..|lines| - 1], remove);
      PrefixEditsAppend(t, p, remove, r, rest);
      r + rest
  }

  /** Every range lies in the text and is a prefix edit. */
  predicate PrefixEdits(t: seq<char>, p: seq<char>, remove: bool, rs: seq<ReplaceRange>)
  {
    forall i :: 0 <= i < |rs| ==> rs[i].startChar <= |t| && rs[i].endChar <= |t| && PrefixEdit(t, p, remove, rs[i])
  }

  lemma PrefixEditsAppend(t: seq<char>, p: seq<char>, remove: bool, a: seq<ReplaceRange>, b: seq<ReplaceRange>)
    requires PrefixEdits(t, p, remove, a) && PrefixEdits(t, p, remove, b)
    ensures PrefixEdits(t, p, remove, a + b)
  {
    forall i | 0 <= i < |a + b|
      ensures (a + b)[i].startChar <= |t| && (a + b)[i].endChar <= |t| && PrefixEdit(t, p, remove, (a + b)[i])
    {
      if i < |a| {
        assert (a + b)[i] == a[i];
      } else {
        assert (a + b)[i] == b[i - |a|];
      }
    }
  }

  /** The state `apply_line_prefix_edit(prefix, remove)` leaves: the prefix edited on every
      line a selection starts or ends on, one caret where the primary head was; nothing at
      all when there is no range. */
  function LinePrefixEdited(st: BufferState, p: seq<char>, remove: bool): BufferState
    requires SelectionsInText(st)
  {
    var lines := SortedUnique(TouchedLines(st.text, st.selections.AllIncludingPrimary()));
    RangesReplaced(st, PrefixRanges(st.text, p, lines, remove), TransactionKind.Other,
      SingleCaretSet(st.selections.primary.head))
  }

  /** Every one of the lines starts with `p`. */
  predicate AllHavePrefix(t: seq<char>, p: seq<char>, lines: seq<nat>)
  {
    forall i :: 0 <= i < |lines| ==> HasPrefixAt(t, LineStartChar(t, lines[i]), p)
  }

  /** The state `toggle_line_prefix(prefix)` leaves: the prefix removed when every touched
      line has it, added otherwise. */
  function ToggledLinePrefix(st: BufferState, p: seq<char>): BufferState
    requires SelectionsInText(st)
  {
    var lines := SortedUnique(TouchedLines(st.text, st.selections.AllIncludingPrimary()));
    if lines == [] then st else LinePrefixEdited(st, p, AllHavePrefix(st.text, p, lines))
  }

  /** When every line has the prefix, remove mode edits every line. */
  lemma {:induction false} PrefixRangesRemoveAll(t: seq<char>, p: seq<char>, lines: seq<nat>)
    requires AllHavePrefix(t, p, lines)
    ensures |PrefixRanges(t, p, lines, true)| == |lines|
  {
    if lines != [] {
      var init := lines[..|lines| - 1];
      assert AllHavePrefix(t, p, init) by {
        forall i | 0 <= i < |init| ensures HasPrefixAt(t, LineStartChar(t, init[i]), p) {
          assert init[i] == lines[i];
        }
      }
      PrefixRangesRemoveAll(t, p, init);
    }
  }

  /** When no line has the prefix, remove mode collects nothing. */
  lemma {:induction false} PrefixRangesRemoveNone(t: seq<char>, p: seq<char>, lines: seq<nat>)
    requires NoneHavePrefix(t, p, lines)
    ensures PrefixRanges(t, p, lines, true) == []
  {
    if lines != [] {
      var init := lines[..|lines| - 1];
      assert forall i :: 0 <= i < |init| ==> init[i] == lines[i];
      PrefixRangesRemoveNone(t, p, init);
    }
  }

  /** None of the lines starts with `p`. */
  predicate NoneHavePrefix(t: seq<char>, p: seq<char>, lines: seq<nat>)
  {
    forall i :: 0 <= i < |lines| ==> !HasPrefixAt(t, LineStartChar(t, lines[i]), p)
  }

  /** Every range deletes. */
  predicate AllDeletions(rs: seq<ReplaceRange>)
  {
    forall i :: 0 <= i < |rs| ==> rs[i].inserted == []
  }

  /** `toggle_line_prefix` edits every touched line, and it removes the prefix (every range
      deletes) exactly when every touched line starts with it. */
  lemma ToggleRemovesIffAllHavePrefix(t: seq<char>, p: seq<char>, lines: seq<nat>)
    requires lines != [] && p != []
    ensures var rs := PrefixRanges(t, p, lines, AllHavePrefix(t, p, lines));
      |rs| == |lines| && (AllDeletions(rs) <==> AllHavePrefix(t, p, lines))
  {
    var all := AllHavePrefix(t, p, lines);
    var rs := PrefixRanges(t, p, lines, all);
    if all {
      PrefixRangesRemoveAll(t, p, lines);
      assert AllDeletions(rs) by {
        forall i | 0 <= i < |rs| ensures rs[i].inserted == [] {
          assert PrefixEdit(t, p, true, rs[i]);
        }
      }
    } else {
      assert PrefixEdit(t, p, false, rs[0]);
    }
  }

  /** Remove mode with no prefixed line changes nothing. */
  lemma RemoveWithoutPrefixNoOp(st: BufferState, p: seq<char>)
    requires SelectionsInText(st)
    requires NoneHavePrefix(st.text, p, SortedUnique(TouchedLines(st.text, st.selections.AllIncludingPrimary())))
    ensures LinePrefixEdited(st, p, true) == st
  {
    var lines := SortedUnique(TouchedLines(st.text, st.selections.AllIncludingPrimary()));
    PrefixRangesRemoveNone(st.text, p, lines);
  }

  // ----- move_cursors -----

  /** The movements that start from a selection's start rather than its end. */
  predicate MovesBack(m: Movement)
  {
    m.Left? || m.Up? || m.WordLeft? || m.LineStart?
  }

  /** The movements that ask the document for lines (ropey panics past the end). */
  predicate UsesLines(m: Movement)
  {
    m.LineStart? || m.LineEnd? || m.Up? || m.Down?
  }

  /** Where a selection's move starts: its head when extending, otherwise the end of its
      range the move goes towards. */
  function MoveBase(s: Selection, m: Movement, extend: bool): nat
  {
    if extend then s.head else if MovesBack(m) then s.Start() else s.End()
  }

  /** Every move that asks for lines starts inside the text. */
  predicate BasesInText(t: seq<char>, sels: seq<Selection>, m: Movement, extend: bool)
  {
    UsesLines(m) ==> forall i :: 0 <= i < |sels| ==> MoveBase(sels[i], m, extend) <= |t|
  }

  /** The index at column `col` of line `line`, the column clamped to the line's text. */
  function ColumnOnLine(t: seq<char>, line: nat, col: nat): (c: nat)
    requires line < LenLines(t)
    ensures c <= |t| && CharToLine(t, c) == line
    ensures c - LineToChar(t, line) == Min(col, |LineText(t, line)|)
  {
    var k := Min(col, |LineText(t, line)|);
    ColumnInLine(t, line, k);
    SameLineWithin(t, line, LineToChar(t, line) + k);
    LineToChar(t, line) + k
  }

  /** `Movement::Up` / `Movement::Down` as written: `line_col_to_char` on the line above or
      below, which clamps the column to the start of the line after that one. */
  function VerticalMoveAsWritten(t: seq<char>, base: nat, up: bool): nat
    requires base <= |t|
  {
    var lc := CharToLineCol(t, base);
    if up then (if lc.line == 0 then base else LineColToChar(t, lc.line - 1, lc.col))
    else if lc.line + 1 >= LenLines(t) then base
    else LineColToChar(t, lc.line + 1, lc.col)
  }

  /** The up or down move, with the column clamped to the end of the target line's text:
      it lands on the adjacent line (stays put on the first or last line). */
  function VerticalMove(t: seq<char>, base: nat, up: bool): (c: nat)
    requires base <= |t|
    ensures c <= |t|
    ensures up ==> CharToLine(t, c) == SaturatingSub(CharToLine(t, base), 1)
    ensures !up ==> CharToLine(t, c) == Min(CharToLine(t, base) + 1, LenLines(t) - 1)
  {
    var lc := CharToLineCol(t, base);
    if up then (if lc.line == 0 then base else ColumnOnLine(t, lc.line - 1, lc.col))
    else if lc.line + 1 >= LenLines(t) then base
    else ColumnOnLine(t, lc.line + 1, lc.col)
  }

  /** A vertical move keeps the column when the target line is long enough. */
  lemma VerticalMoveKeepsColumn(t: seq<char>, base: nat, up: bool)
    requires base <= |t|
    ensures var lc := CharToLineCol(t, base);
      var target := if up then lc.line - 1 else lc.line + 1;
      (if up then lc.line > 0 else lc.line + 1 < LenLines(t)) ==>
        VerticalMove(t, base, up) == LineToChar(t, target) + Min(lc.col, |LineText(t, target)|)
  {
  }

  /** The newline counts in "ab\nabcdef" that the up example needs. */
  lemma UpExampleCounts()
    ensures CountNewlines("ab\nabcdef") == 1
    ensures CountNewlines("ab\nabcdef"[..7]) == 1 && CountNewlines("ab\nabcdef"[..3]) == 1
  {
    assert "ab\n" == "ab" + "\n";
    CountNewlinesAppend("ab", "\n");
    CountNewlinesZero("ab");
    assert "ab\nabcdef" == "ab\n" + "abcdef";
    CountNewlinesAppend("ab\n", "abcdef");
    CountNewlinesZero("abcdef");
    assert "ab\nabcdef"[..7] == "ab\n" + "abcd";
    CountNewlinesAppend("ab\n", "abcd");
    CountNewlinesZero("abcd");
    assert "ab\nabcdef"[..3] == "ab\n";
  }

  /** Line 1 of "ab\nabcdef" starts at 3. */
  lemma UpExampleStart()
    ensures LenLines("ab\nabcdef") == 2 && LineToChar("ab\nabcdef", 1) == 3
  {
    UpExampleCounts();
    assert "ab\nabcdef"[0..] == "ab\nabcdef";
    assert IndexOf("ab\nabcdef", '\n') == 2;
  }

  /** Line 0 of "ab\nabcdef" holds "ab". */
  lemma UpExampleLineText()
    ensures LineText("ab\nabcdef", 0) == "ab"
  {
    UpExampleStart();
    var chunk := "ab\nabcdef"[0..3];
    assert chunk == "ab\n";
    assert LineText("ab\nabcdef", 0) == chunk[..2];
  }

  /** Up from column 4 of "abcdef" under "ab": as written the caret lands at the start of
      its own line; the corrected move lands at the end of "ab". */
  lemma UpAsWrittenStaysOnLine()
    ensures var t := "ab\nabcdef";
      CharToLine(t, 7) == 1 && VerticalMoveAsWritten(t, 7, true) == 3 &&
      CharToLine(t, 3) == 1 && VerticalMove(t, 7, true) == 2
  {
    UpExampleCounts();
    UpExampleStart();
    UpExampleLineText();
  }

  /** The newline counts in "abcdef\nab\nxyz" that the down example needs. */
  lemma DownExampleCounts()
    ensures CountNewlines("abcdef\nab\nxyz") == 2
    ensures CountNewlines("abcdef\nab\nxyz"[..4]) == 0 && CountNewlines("abcdef\nab\nxyz"[..10]) == 2
  {
    var t := "abcdef\nab\nxyz";
    assert "abcdef\n" == "abcdef" + "\n";
    CountNewlinesAppend("abcdef", "\n");
    CountNewlinesZero("abcdef");
    assert "ab\n" == "ab" + "\n";
    CountNewlinesAppend("ab", "\n");
    CountNewlinesZero("ab");
    assert t[..10] == "abcdef\n" + "ab\n";
    CountNewlinesAppend("abcdef\n", "ab\n");
    assert t == t[..10] + "xyz";
    CountNewlinesAppend(t[..10], "xyz");
    CountNewlinesZero("xyz");
    assert t[..4] == "abcd";
    CountNewlinesZero("abcd");
  }

  /** The first '\n' of "abcdef\nab\nxyz" is at 6, and the next one 2 chars after it. */
  lemma DownExampleBreaks()
    ensures IndexOf("abcdef\nab\nxyz", '\n') == 6 && IndexOf("ab\nxyz", '\n') == 2
  {
    assert "abcdef\nab\nxyz"[6] == '\n';
    assert "ab\nxyz"[2] == '\n';
  }

  /** Line 1 of "abcdef\nab\nxyz" starts at 7. */
  lemma DownExampleStart()
    ensures LenLines("abcdef\nab\nxyz") == 3 && LineToChar("abcdef\nab\nxyz", 1) == 7
  {
    var t := "abcdef\nab\nxyz";
    DownExampleCounts();
    DownExampleBreaks();
    assert t[0..] == t;
    assert LineToChar(t, 1) == NextLineStart(t, 0);
  }

  /** Lines 1 and 2 of "abcdef\nab\nxyz" start at 7 and 10. */
  lemma DownExampleStarts()
    ensures LenLines("abcdef\nab\nxyz") == 3
    ensures LineToChar("abcdef\nab\nxyz", 1) == 7 && LineToChar("abcdef\nab\nxyz", 2) == 10
  {
    var t := "abcdef\nab\nxyz";
    DownExampleStart();
    DownExampleBreaks();
    assert t[7..] == "ab\nxyz";
    assert LineToChar(t, 2) == NextLineStart(t, 7);
  }

  /** Line 1 of "abcdef\nab\nxyz" holds "ab". */
  lemma DownExampleLineText()
    ensures LineText("abcdef\nab\nxyz", 1) == "ab"
  {
    DownExampleStarts();
    var chunk := "abcdef\nab\nxyz"[7..10];
    assert chunk == "ab\n";
    assert LineText("abcdef\nab\nxyz", 1) == chunk[..2];
  }

  /** Down from column 4 of "abcdef" over "ab": as written the caret lands at the start of
      the line after the target line; the corrected move lands at the end of "ab". */
  lemma DownAsWrittenSkipsLine()
    ensures var t := "abcdef\nab\nxyz";
      CharToLine(t, 4) == 0 && VerticalMoveAsWritten(t, 4, false) == 10 &&
      CharToLine(t, 10) == 2 && VerticalMove(t, 4, false) == 9 && CharToLine(t, 9) == 1
  {
    DownExampleCounts();
    DownExampleStarts();
    DownExampleLineText();
  }

  /** An index's column never passes the end of its line's text. */
  lemma ColumnWithinLine(t: seq<char>, c: nat)
    requires c <= |t|
    ensures var l := CharToLine(t, c);
      LineToChar(t, l) <= c <= LineToChar(t, l) + |LineText(t, l)|
  {
    var l := CharToLine(t, c);
    LineContains(t, c);
    assert t[..|t|] == t;
  }

  /** `Movement::LineEnd` as written: `line_end_char`, the start of the next line. */
  function LineEndMoveAsWritten(t: seq<char>, base: nat): nat
    requires base <= |t|
  {
    LineEndChar(t, CharToLine(t, base))
  }

  /** The line-end move, landing just after the line's text, before its '\n'. */
  function LineEndMove(t: seq<char>, base: nat): (c: nat)
    requires base <= |t|
    ensures base <= c <= |t| && CharToLine(t, c) == CharToLine(t, base)
    ensures c == |t| || t[c] == '\n'
  {
    var l := CharToLine(t, base);
    ColumnWithinLine(t, base);
    var c := ColumnOnLine(t, l, |LineText(t, l)|);
    if l < CountNewlines(t) then
      assert t[LineToChar(t, l)..LineToChar(t, l + 1)] == LineText(t, l) + ['\n'];
      c
    else c
  }

  /** End on "ab" above "abcdef": as written the caret goes to the start of the next
      line. */
  lemma LineEndAsWrittenLeavesLine()
    ensures LineEndMoveAsWritten("ab\nabcdef", 0) == 3 && CharToLine("ab\nabcdef", 3) == 1
  {
    UpExampleCounts();
    UpExampleStart();
    assert "ab\nabcdef"[..0] == [];
  }

  /** The corrected move stops after "ab", on the same line. */
  lemma LineEndExample()
    ensures LineEndMove("ab\nabcdef", 0) == 2
  {
    UpExampleLineText();
    assert "ab\nabcdef"[..0] == [];
  }

  /** Where `move_cursors` puts a head whose move starts at `base`, with the corrected
      vertical and line-end moves. No move leaves the text unless it started past it. */
  function MovedHead(t: seq<char>, m: Movement, base: nat): (h: nat)
    requires UsesLines(m) ==> base <= |t|
    ensures h <= Max(base, |t|)
    ensures base <= |t| ==> h <= |t|
    ensures m.LineEnd? ==> CharToLine(t, h) == CharToLine(t, base)
    ensures m.Up? ==> CharToLine(t, h) == SaturatingSub(CharToLine(t, base), 1)
    ensures m.Down? ==> CharToLine(t, h) == Min(CharToLine(t, base) + 1, LenLines(t) - 1)
  {
    match m
    case Left => SaturatingSub(base, 1)
    case Right => Min(base + 1, |t|)
    case LineStart => LineStartChar(t, CharToLine(t, base))
    case LineEnd => LineEndMove(t, base)
    case WordLeft => WordLeft(t, base)
    case WordRight => WordRight(t, base)
    case Up => VerticalMove(t, base, true)
    case Down => VerticalMove(t, base, false)
  }

  /** Left stops at 0, Right at the end of the text, and each otherwise moves one char. */
  lemma MovedHeadSaturates(t: seq<char>, base: nat)
    ensures base == 0 ==> MovedHead(t, Movement.Left, base) == 0
    ensures base > 0 ==> MovedHead(t, Movement.Left, base) == base - 1
    ensures base >= |t| ==> MovedHead(t, Movement.Right, base) == |t|
    ensures base < |t| ==> MovedHead(t, Movement.Right, base) == base + 1
  {
  }

  /** Line start lands at the start of the line holding the base, on that same line. */
  lemma LineStartMove(t: seq<char>, base: nat)
    requires base <= |t|
    ensures var h := MovedHead(t, LineStart, base);
      h <= base && CharToLine(t, h) == CharToLine(t, base) && (h == 0 || t[h - 1] == '\n')
  {
    var l := CharToLine(t, base);
    LineContains(t, base);
    LineToCharCounts(t, l);
  }

  /** The selection a move makes of `s`: the anchor kept when extending, else a caret. */
  function MovedSelection(t: seq<char>, s: Selection, m: Movement, extend: bool): (r: Selection)
    requires UsesLines(m) ==> MoveBase(s, m, extend) <= |t|
    ensures extend ==> r.anchor == s.anchor
    ensures !extend ==> r.IsCaret()
    ensures r.head == MovedHead(t, m, MoveBase(s, m, extend))
  {
    var h := MovedHead(t, m, MoveBase(s, m, extend));
    if extend then Selection(s.anchor, h) else Caret(h)
  }

  function MovedSelections(t: seq<char>, sels: seq<Selection>, m: Movement, extend: bool): (r: seq<Selection>)
    requires BasesInText(t, sels, m, extend)
    ensures |r| == |sels|
    ensures forall i :: 0 <= i < |sels| ==> r[i] == MovedSelection(t, sels[i], m, extend)
  {
    seq(|sels|, i requires 0 <= i < |sels| && BasesInText(t, sels, m, extend) =>
      MovedSelection(t, sels[i], m, extend))
  }

  /** The state `move_cursors(movement, extend)` leaves: every selection moved, in order;
      nothing else changes. */
  function Moved(st: BufferState, m: Movement, extend: bool): BufferState
    requires BasesInText(st.text, st.selections.AllIncludingPrimary(), m, extend)
  {
    st.(selections := FromList(MovedSelections(st.text, st.selections.AllIncludingPrimary(), m, extend)))
  }

  /** A move keeps the number and order of the selections; without extend each becomes a
      caret, with extend each keeps its anchor; text and history are untouched. */
  lemma MovedShape(st: BufferState, m: Movement, extend: bool)
    requires BasesInText(st.text, st.selections.AllIncludingPrimary(), m, extend)
    ensures var before, after := st.selections.AllIncludingPrimary(), Moved(st, m, extend).selections.AllIncludingPrimary();
      |after| == |before| &&
      (forall i :: 0 <= i < |before| ==> after[i] == MovedSelection(st.text, before[i], m, extend)) &&
      (!extend ==> AllCarets(after)) &&
      (extend ==> forall i :: 0 <= i < |before| ==> after[i].anchor == before[i].anchor)
    ensures Moved(st, m, extend).(selections := st.selections) == st
  {
  }

  /** Selections inside the text stay inside it after any move. */
  lemma MovedStaysInText(st: BufferState, m: Movement, extend: bool)
    requires SelectionsInText(st)
    ensures BasesInText(st.text, st.selections.AllIncludingPrimary(), m, extend)
    ensures SelectionsInText(Moved(st, m, extend))
  {
    var sels := st.selections.AllIncludingPrimary();
    assert BasesInText(st.text, sels, m, extend) by {
      forall i | 0 <= i < |sels| ensures MoveBase(sels[i], m, extend) <= |st.text| {
        assert sels[i].End() <= |st.text|;
      }
    }
    var after := MovedSelections(st.text, sels, m, extend);
    forall i | 0 <= i < |after| ensures after[i].End() <= |st.text| {
      assert sels[i].End() <= |st.text|;
    }
  }

  // ----- replace_range and replace_all -----

  /** The state `replace_range(range, replacement)` leaves: the range replaced, one caret
      after the replacement. */
  function RangeReplacedBy(st: BufferState, range: SearchMatch, repl: seq<char>): BufferState
    requires range.startChar <= |st.text| && range.endChar <= |st.text|
  {
    RangesReplaced(st, [ReplaceRange(range.startChar, range.endChar, repl)], TransactionKind.Replace,
      SingleCaretSet(range.startChar + |repl|))
  }

  /** Replacing a range inside the text puts the replacement in place of exactly those
      chars. */
  lemma ReplaceRangeOne(st: BufferState, range: SearchMatch, repl: seq<char>)
    requires range.startChar <= range.endChar <= |st.text|
    ensures RangeReplacedBy(st, range, repl).text ==
      st.text[..range.startChar] + repl + st.text[range.endChar..]
  {
    var r := ReplaceRange(range.startChar, range.endChar, repl);
    RangesReplacedOne(st, r, TransactionKind.Replace, SingleCaretSet(range.startChar + |repl|));
  }

  /** It leaves one caret right after the replacement. */
  lemma ReplaceRangeCaret(st: BufferState, range: SearchMatch, repl: seq<char>)
    requires range.startChar <= |st.text| && range.endChar <= |st.text|
    ensures RangeReplacedBy(st, range, repl).selections.AllIncludingPrimary() ==
      [Caret(range.startChar + |repl|)]
  {
  }

  /** The matches `replace_all` collects: none for an empty needle, otherwise the greedy
      forward matches from the start of the (lowered) text. They are occurrences, in
      increasing order and apart. */
  function ReplaceAllMatches(text: seq<char>, q: SearchQuery): (ms: seq<SearchMatch>)
    ensures q.needle == [] ==> ms == []
    ensures OccurrencesFrom(Haystack(text, q), Needle(q), 0, ms)
    ensures NonOverlapping(ms)
  {
    if q.needle == [] then []
    else
      var h, n := Haystack(text, q), Needle(q);
      GreedyMatchesOccur(h, n, 0);
      GreedyMatchesOrdered(h, n, 0);
      GreedyMatches(h, n, 0)
  }

  /** `replace_all` finds something exactly when the needle is not empty and occurs. */
  lemma ReplaceAllFindsIffOccurs(text: seq<char>, q: SearchQuery)
    ensures ReplaceAllMatches(text, q) != [] <==>
      q.needle != [] && exists x :: OccursAt(Haystack(text, q), Needle(q), x)
  {
    var ms := ReplaceAllMatches(text, q);
    if q.needle != [] {
      if x :| OccursAt(Haystack(text, q), Needle(q), x) {
        GreedyMatchesCover(Haystack(text, q), Needle(q), 0, x);
      }
      if ms != [] {
        assert OccursAt(Haystack(text, q), Needle(q), ms[0].startChar);
      }
    }
  }

  /** Every occurrence of the needle overlaps a match `replace_all` collects. */
  lemma ReplaceAllCovers(text: seq<char>, q: SearchQuery, x: nat)
    requires q.needle != [] && OccursAt(Haystack(text, q), Needle(q), x)
    ensures Covers(ReplaceAllMatches(text, q), x)
  {
    GreedyMatchesCover(Haystack(text, q), Needle(q), 0, x);
  }

  /** One replacement range per match. */
  function ReplacementRanges(ms: seq<SearchMatch>, repl: seq<char>): (rs: seq<ReplaceRange>)
    ensures |rs| == |ms|
    ensures forall i :: 0 <= i < |ms| ==> rs[i] == ReplaceRange(ms[i].startChar, ms[i].endChar, repl)
  {
    seq(|ms|, i requires 0 <= i < |ms| => ReplaceRange(ms[i].startChar, ms[i].endChar, repl))
  }

  /** The ranges `replace_all` replaces lie inside the text. */
  lemma ReplacementRangesInText(t: seq<char>, q: SearchQuery, repl: seq<char>)
    ensures RangesInText(t, ReplacementRanges(ReplaceAllMatches(t, q), repl))
  {
    var ms := ReplaceAllMatches(t, q);
    var rs := ReplacementRanges(ms, repl);
    forall i | 0 <= i < |rs| ensures rs[i].startChar <= |t| && rs[i].endChar <= |t| {
      assert ms[i].endChar <= |t|;
    }
  }

  /** When something matches, `replace_all` is one multi-range replacement ending with a
      caret after the last replacement. */
  lemma ReplacedAllRanges(st: BufferState, q: SearchQuery, repl: seq<char>)
    requires ReplaceAllMatches(st.text, q) != []
    ensures var ms := ReplaceAllMatches(st.text, q);
      RangesInText(st.text, ReplacementRanges(ms, repl)) &&
      ReplacedAll(st, q, repl) ==
        RangesReplaced(st, ReplacementRanges(ms, repl), TransactionKind.Replace,
          SingleCaretSet(ms[|ms| - 1].startChar + |repl|))
  {
    var ms := ReplaceAllMatches(st.text, q);
    ReplacementRangesInText(st.text, q, repl);
    assert ReplacedAll(st, q, repl) == MatchesReplaced(st, ms, repl);
  }

  /** With the matches `ms`, replace-all is `MatchesReplaced` of them. */
  lemma ReplacedAllMatchesReplaced(st: BufferState, q: SearchQuery, repl: seq<char>, ms: seq<SearchMatch>)
    requires ms == ReplaceAllMatches(st.text, q) && ms != []
    ensures RangesInText(st.text, ReplacementRanges(ms, repl))
    ensures ReplacedAll(st, q, repl) == MatchesReplaced(st, ms, repl)
  {
    ReplacementRangesInText(st.text, q, repl);
  }

  /** The state `replace_all(query, replacement)` leaves: nothing when nothing matches;
      otherwise every match replaced, one caret after the last replacement. */
  function ReplacedAll(st: BufferState, q: SearchQuery, repl: seq<char>): BufferState
  {
    var ms := ReplaceAllMatches(st.text, q);
    if ms == [] then st
    else
      ReplacementRangesInText(st.text, q, repl);
      MatchesReplaced(st, ms, repl)
  }

  /** Every one of the (non-empty) matches replaced in one transaction, one caret after the
      last replacement. */
  function MatchesReplaced(st: BufferState, ms: seq<SearchMatch>, repl: seq<char>): BufferState
    requires ms != [] && RangesInText(st.text, ReplacementRanges(ms, repl))
  {
    RangesReplaced(st, ReplacementRanges(ms, repl), TransactionKind.Replace,
      SingleCaretSet(ms[|ms| - 1].startChar + |repl|))
  }
}
