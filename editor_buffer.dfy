/** The editing buffer (crates/editor/src/buffer.rs): a document, its selections, its
    history and the line range the last edit touched. Every change goes through a
    transaction of edits that are applied from the highest start down. */
module EditorBuffer {
  import opened Wrappers
  import opened RustStr
  import opened EditorDocument
  import opened EditorSelection
  import opened EditorHistory

  /** The lines an edit may have changed, for the engine's line cache. */
  datatype EditImpact = EditImpact(startLine: nat, endLineInclusive: nat)

  /** A range to replace, as the engine hands it to `apply_replace_ranges`. */
  datatype ReplaceRange = ReplaceRange(startChar: nat, endChar: nat, inserted: seq<char>)

  // ----- ordering of edits: `sort_by(|a, b| b.start_char.cmp(&a.start_char))` -----

  predicate SortedDesc(es: seq<Edit>)
  {
    forall i, j :: 0 <= i < j < |es| ==> es[i].startChar >= es[j].startChar
  }

  /** Insert `e` before the first edit that does not start after it. */
  function InsertDesc(e: Edit, es: seq<Edit>): (r: seq<Edit>)
    ensures |r| == |es| + 1
    ensures multiset(r) == multiset(es) + multiset{e}
  {
    if es == [] || e.startChar >= es[0].startChar then [e] + es
    else
      assert es == [es[0]] + es[1..];
      [es[0]] + InsertDesc(e, es[1..])
  }

  lemma {:induction false} InsertDescSorted(e: Edit, es: seq<Edit>)
    requires SortedDesc(es)
    ensures SortedDesc(InsertDesc(e, es))
  {
    if es == [] || e.startChar >= es[0].startChar {
    } else {
      var t := es[1..];
      assert SortedDesc(t);
      InsertDescSorted(e, t);
      var rest := InsertDesc(e, t);
      InsertDescElems(e, t);
      forall k | 0 <= k < |rest| ensures rest[k].startChar <= es[0].startChar {
        assert rest[k] in rest;
        if rest[k] != e {
          var j :| 0 <= j < |t| && t[j] == rest[k];
          assert es[j + 1] == t[j];
        }
      }
      assert InsertDesc(e, es) == [es[0]] + rest;
    }
  }

  /** The stable descending sort the buffer applies to a transaction's edits
      (an insertion sort; equal starts keep their order). */
  function SortDesc(es: seq<Edit>): (r: seq<Edit>)
    ensures |r| == |es|
    ensures SortedDesc(r)
    ensures multiset(r) == multiset(es)
  {
    if es == [] then []
    else
      assert es == [es[0]] + es[1..];
      InsertDescSorted(es[0], SortDesc(es[1..]));
      InsertDesc(es[0], SortDesc(es[1..]))
  }

  /** Already descending edits are left as they are (the sort is stable). */
  lemma {:induction false} SortDescOfSorted(es: seq<Edit>)
    requires SortedDesc(es)
    ensures SortDesc(es) == es
  {
    if es != [] {
      assert SortedDesc(es[1..]);
      SortDescOfSorted(es[1..]);
      assert es == [es[0]] + es[1..];
      if es[1..] != [] {
        assert es[0].startChar >= es[1..][0].startChar;
      }
    }
  }

  // ----- replaying edits -----

  /** The text after applying `es` one after the other, each at its recorded start. */
  function ApplyAll(s: seq<char>, es: seq<Edit>): seq<char>
  {
    if es == [] then s else ApplyEdit(ApplyAll(s, es[..|es| - 1]), es[|es| - 1])
  }

  /** Replaying one more edit of a list applies that edit to the replay so far. */
  /** One more edit replayed: its replacement on the text so far, one more version. */
  lemma ReplayStep(s: seq<char>, v: u64, es: seq<Edit>, i: nat)
    requires i < |es|
    ensures ApplyAll(s, es[..i + 1]) ==
      Replaced(ApplyAll(s, es[..i]), es[i].startChar, es[i].startChar + es[i].DeletedLen(), es[i].inserted)
    ensures BumpN(v, i + 1) == WrappingInc(BumpN(v, i))
  {
    ApplyAllStep(s, es, i);
  }

  lemma ApplyAllStep(s: seq<char>, es: seq<Edit>, i: nat)
    requires i < |es|
    ensures ApplyAll(s, es[..i + 1]) == ApplyEdit(ApplyAll(s, es[..i]), es[i])
  {
    assert es[..i + 1][..i] == es[..i];
  }

  lemma {:induction false} ApplyAllAppend(s: seq<char>, a: seq<Edit>, b: seq<Edit>)
    ensures ApplyAll(s, a + b) == ApplyAll(ApplyAll(s, a), b)
    decreases |b|
  {
    if b == [] {
      assert a + b == a;
    } else {
      assert (a + b)[..|a + b| - 1] == a + b[..|b| - 1];
      ApplyAllAppend(s, a, b[..|b| - 1]);
    }
  }

  /** The inverses of `es`, last edit first: the order that undoes a replay. */
  function InversesReversed(es: seq<Edit>): (r: seq<Edit>)
    ensures |r| == |es|
  {
    if es == [] then [] else [Inverse(es[|es| - 1])] + InversesReversed(es[..|es| - 1])
  }

  /** The inverses in order, as `undo` forms them before sorting. */
  function Inverses(es: seq<Edit>): (r: seq<Edit>)
    ensures |r| == |es|
    ensures forall i :: 0 <= i < |es| ==> r[i] == Inverse(es[i])
  {
    if es == [] then [] else [Inverse(es[0])] + Inverses(es[1..])
  }

  /** Every edit of `es`, when its turn comes, finds its deleted text at its start. */
  predicate ReplaysExactly(s: seq<char>, es: seq<Edit>)
  {
    es == [] ||
    (ReplaysExactly(s, es[..|es| - 1]) &&
     var t, e := ApplyAll(s, es[..|es| - 1]), es[|es| - 1];
     e.startChar + |e.deleted| <= |t| && t[e.startChar..e.startChar + |e.deleted|] == e.deleted)
  }

  /** Replaying the inverses in reverse order restores the text of an exact replay. */
  lemma {:induction false} UndoAfterReplay(s: seq<char>, es: seq<Edit>)
    requires ReplaysExactly(s, es)
    ensures ApplyAll(ApplyAll(s, es), InversesReversed(es)) == s
  {
    if es != [] {
      var p, e := es[..|es| - 1], es[|es| - 1];
      var t := ApplyAll(s, p);
      ApplyInverse(t, e);
      assert [Inverse(e)][..0] == [];
      ApplyAllAppend(ApplyAll(s, es), [Inverse(e)], InversesReversed(p));
      UndoAfterReplay(s, p);
    }
  }

  /** `es[i]` fits in `s` and records the text `s` holds there. */
  predicate Records(s: seq<char>, e: Edit)
  {
    e.startChar + |e.deleted| <= |s| && s[e.startChar..e.startChar + |e.deleted|] == e.deleted
  }

  /** Descending edits each of which ends at or before the start of every earlier one. */
  predicate Stacked(es: seq<Edit>)
  {
    forall i, j :: 0 <= i < j < |es| ==> es[j].startChar + |es[j].deleted| <= es[i].startChar
  }

  /** Edits that all start at or after `m` leave the first `m` chars alone. */
  lemma {:induction false} ReplayKeepsPrefix(s: seq<char>, es: seq<Edit>, m: nat)
    requires m <= |s|
    requires forall i :: 0 <= i < |es| ==> m <= es[i].startChar
    ensures m <= |ApplyAll(s, es)| && ApplyAll(s, es)[..m] == s[..m]
  {
    if es != [] {
      var p := es[..|es| - 1];
      ReplayKeepsPrefix(s, p, m);
      var t := ApplyAll(s, p);
      var e := es[|es| - 1];
      var r := ApplyEdit(t, e);
      var a := Min(e.startChar, |t|);
      assert r[..a] == t[..a];
      assert r[..m] == r[..a][..m];
      assert t[..m] == t[..a][..m];
    }
  }

  /** Stacked edits recorded against one text replay exactly from that text. */
  lemma {:induction false} StackedReplaysExactly(s: seq<char>, es: seq<Edit>)
    requires Stacked(es)
    requires forall i :: 0 <= i < |es| ==> Records(s, es[i])
    ensures ReplaysExactly(s, es)
  {
    if es != [] {
      var p, e := es[..|es| - 1], es[|es| - 1];
      StackedInit(s, es);
      StackedReplaysExactly(s, p);
      LastRecorded(s, p, e);
    }
  }

  /** Without its last edit a stack is still a stack of edits recorded against `s`, all
      of them starting at or after the end of the last one. */
  lemma StackedInit(s: seq<char>, es: seq<Edit>)
    requires es != [] && Stacked(es)
    requires forall i :: 0 <= i < |es| ==> Records(s, es[i])
    ensures var p, e := es[..|es| - 1], es[|es| - 1];
      Stacked(p) && Records(s, e) &&
      (forall i :: 0 <= i < |p| ==> Records(s, p[i])) &&
      (forall i :: 0 <= i < |p| ==> e.startChar + |e.deleted| <= p[i].startChar)
  {
    var p, e := es[..|es| - 1], es[|es| - 1];
    forall i | 0 <= i < |p| ensures Records(s, p[i]) && e.startChar + |e.deleted| <= p[i].startChar {
      assert p[i] == es[i];
    }
  }

  /** An edit recorded against `s` that ends before every edit of `p` is recorded against
      the text `p` leaves. */
  lemma LastRecorded(s: seq<char>, p: seq<Edit>, e: Edit)
    requires Records(s, e)
    requires forall i :: 0 <= i < |p| ==> e.startChar + |e.deleted| <= p[i].startChar
    ensures Records(ApplyAll(s, p), e)
  {
    ReplayKeepsPrefix(s, p, e.startChar + |e.deleted|);
    RecordsSamePrefix(s, ApplyAll(s, p), e);
  }

  /** An edit recorded against `s` is recorded against any text with the same chars up
      to the edit's end. */
  lemma RecordsSamePrefix(s: seq<char>, t: seq<char>, e: Edit)
    requires Records(s, e)
    requires e.startChar + |e.deleted| <= |t| && t[..e.startChar + |e.deleted|] == s[..e.startChar + |e.deleted|]
    ensures Records(t, e)
  {
    var m := e.startChar + |e.deleted|;
    assert t[e.startChar..m] == t[..m][e.startChar..];
    assert s[e.startChar..m] == s[..m][e.startChar..];
  }

  // ----- building a transaction -----

  /** The edit recorded for replacing `[start, end)` of `s` by `ins`. */
  function EditOf(s: seq<char>, start: nat, end: nat, ins: seq<char>): (e: Edit)
    ensures e.startChar == start && e.inserted == ins
    ensures start <= end <= |s| ==> e.deleted == s[start..end]
  {
    Edit(start, Slice(s, start, end), ins)
  }

  /** The edits `apply_text_to_selections` records, one per selection and in order. */
  function EditsOf(s: seq<char>, sels: seq<Selection>, ins: seq<char>): (r: seq<Edit>)
    ensures |r| == |sels|
    ensures forall i :: 0 <= i < |sels| ==> r[i] == EditOf(s, sels[i].Start(), sels[i].End(), ins)
  {
    if sels == [] then []
    else
      var l := sels[|sels| - 1];
      EditsOf(s, sels[..|sels| - 1], ins) + [EditOf(s, l.Start(), l.End(), ins)]
  }

  /** The edits `apply_replace_ranges` records, one per range and in order. */
  function EditsOfRanges(s: seq<char>, rs: seq<ReplaceRange>): (r: seq<Edit>)
    ensures |r| == |rs|
    ensures forall i :: 0 <= i < |rs| ==> r[i] == EditOf(s, rs[i].startChar, rs[i].endChar, rs[i].inserted)
  {
    if rs == [] then []
    else
      var l := rs[|rs| - 1];
      EditsOfRanges(s, rs[..|rs| - 1]) + [EditOf(s, l.startChar, l.endChar, l.inserted)]
  }

  /** Every selection lies inside the text (ropey's `char_to_line` panics otherwise). */
  predicate InText(s: seq<char>, sels: seq<Selection>)
  {
    forall i :: 0 <= i < |sels| ==> sels[i].End() <= |s|
  }

  predicate RangesInText(s: seq<char>, rs: seq<ReplaceRange>)
  {
    forall i :: 0 <= i < |rs| ==> rs[i].startChar <= |s| && rs[i].endChar <= |s|
  }

  /** The smallest start line of the selections, `usize::MAX` for none. */
  function MinStartLine(s: seq<char>, sels: seq<Selection>): (r: nat)
    requires InText(s, sels)
    ensures forall i :: 0 <= i < |sels| ==> r <= CharToLine(s, sels[i].Start())
  {
    if sels == [] then USIZE_MAX
    else
      var p := sels[..|sels| - 1];
      assert InText(s, p);
      var l := sels[|sels| - 1];
      var m := MinStartLine(s, p);
      assert forall i :: 0 <= i < |p| ==> p[i] == sels[i];
      Min(m, CharToLine(s, l.Start()))
  }

  /** The largest end line of the selections, 0 for none. */
  function MaxEndLine(s: seq<char>, sels: seq<Selection>): (r: nat)
    requires InText(s, sels)
    ensures forall i :: 0 <= i < |sels| ==> CharToLine(s, sels[i].End()) <= r
  {
    if sels == [] then 0
    else
      var p := sels[..|sels| - 1];
      assert InText(s, p);
      var l := sels[|sels| - 1];
      var m := MaxEndLine(s, p);
      assert forall i :: 0 <= i < |p| ==> p[i] == sels[i];
      Max(m, CharToLine(s, l.End()))
  }

  /** Both bounds are attained: by some selection, or the bound is the initial value. */
  lemma {:induction false} LineBoundsAttained(s: seq<char>, sels: seq<Selection>)
    requires InText(s, sels)
    ensures MinStartLine(s, sels) == USIZE_MAX ||
      exists i :: 0 <= i < |sels| && MinStartLine(s, sels) == CharToLine(s, sels[i].Start())
    ensures MaxEndLine(s, sels) == 0 ||
      exists i :: 0 <= i < |sels| && MaxEndLine(s, sels) == CharToLine(s, sels[i].End())
  {
    if sels != [] {
      var p := sels[..|sels| - 1];
      assert InText(s, p);
      LineBoundsAttained(s, p);
      var n := |sels| - 1;
      if MinStartLine(s, sels) != CharToLine(s, sels[n].Start()) && MinStartLine(s, sels) != USIZE_MAX {
        var i :| 0 <= i < |p| && MinStartLine(s, p) == CharToLine(s, p[i].Start());
        assert p[i] == sels[i];
      }
      if MaxEndLine(s, sels) != CharToLine(s, sels[n].End()) && MaxEndLine(s, sels) != 0 {
        var i :| 0 <= i < |p| && MaxEndLine(s, p) == CharToLine(s, p[i].End());
        assert p[i] == sels[i];
      }
    }
  }

  function MinRangeStartLine(s: seq<char>, rs: seq<ReplaceRange>): (r: nat)
    requires RangesInText(s, rs)
    ensures forall i :: 0 <= i < |rs| ==> r <= CharToLine(s, rs[i].startChar)
  {
    if rs == [] then USIZE_MAX
    else
      var p := rs[..|rs| - 1];
      assert RangesInText(s, p);
      var l := rs[|rs| - 1];
      var m := MinRangeStartLine(s, p);
      assert forall i :: 0 <= i < |p| ==> p[i] == rs[i];
      Min(m, CharToLine(s, l.startChar))
  }

  function MaxRangeEndLine(s: seq<char>, rs: seq<ReplaceRange>): (r: nat)
    requires RangesInText(s, rs)
    ensures forall i :: 0 <= i < |rs| ==> CharToLine(s, rs[i].endChar) <= r
  {
    if rs == [] then 0
    else
      var p := rs[..|rs| - 1];
      assert RangesInText(s, p);
      var l := rs[|rs| - 1];
      var m := MaxRangeEndLine(s, p);
      assert forall i :: 0 <= i < |p| ==> p[i] == rs[i];
      Max(m, CharToLine(s, l.endChar))
  }

  /** The impact the buffer records: none when no start line was seen. */
  function ImpactOf(startLine: nat, endLine: nat, extra: nat): (r: Option<EditImpact>)
    ensures startLine == USIZE_MAX <==> r == None
    ensures r.Some? ==> r.value.startLine == startLine && r.value.endLineInclusive == SaturatingAdd(endLine, extra)
  {
    if startLine == USIZE_MAX then None else Some(EditImpact(startLine, SaturatingAdd(endLine, extra)))
  }

  /** The carets left after typing: each at its selection's start plus the inserted length. */
  function Collapsed(sels: seq<Selection>, n: nat): (r: seq<Selection>)
    ensures |r| == |sels|
    ensures forall i :: 0 <= i < |sels| ==> r[i] == Caret(sels[i].Start() + n)
  {
    seq(|sels|, i requires 0 <= i < |sels| => Caret(sels[i].Start() + n))
  }

  predicate AllCarets(sels: seq<Selection>)
  {
    forall i :: 0 <= i < |sels| ==> sels[i].IsCaret()
  }

  /** The transaction kind of `apply_text_to_selections`. */
  function KindOf(ins: seq<char>, sels: seq<Selection>): (k: TransactionKind)
    ensures k == Delete <==> ins == []
    ensures k == Insert <==> ins != [] && AllCarets(sels)
    ensures k == Replace <==> ins != [] && !AllCarets(sels)
  {
    if ins == [] then Delete else if AllCarets(sels) then Insert else Replace
  }

  /** Both texts of every edit are empty: applying them would change nothing. */
  predicate AllEmpty(es: seq<Edit>)
  {
    forall i :: 0 <= i < |es| ==> es[i].deleted == [] && es[i].inserted == []
  }

  /** For selections inside the text, the no-op test of `apply_text_to_selections` holds
      exactly when nothing is inserted and every selection is a caret. */
  lemma NoOpIffCarets(s: seq<char>, sels: seq<Selection>, ins: seq<char>)
    requires InText(s, sels) && sels != []
    ensures AllEmpty(EditsOf(s, sels, ins)) <==> ins == [] && AllCarets(sels)
  {
    var es := EditsOf(s, sels, ins);
    if AllEmpty(es) {
      assert es[0].inserted == [];
      forall i | 0 <= i < |sels| ensures sels[i].IsCaret() {
        assert es[i].deleted == s[sels[i].Start()..sels[i].End()];
      }
    }
  }

  /** The version after `n` bumps. */
  function BumpN(v: u64, n: nat): (r: u64)
    ensures v as int + n <= U64_MAX as int ==> r as int == v as int + n
  {
    if n == 0 then v else WrappingInc(BumpN(v, n - 1))
  }

  // ----- undo as the source writes it, and as it is meant -----

  /** The text `Buffer::undo` as written produces: the inverses sorted by descending
      start, applied at their recorded (pre-edit) starts. */
  function UndoTextAsWritten(s: seq<char>, tx: Transaction): seq<char>
  {
    ApplyAll(s, SortDesc(Inverses(tx.edits)))
  }

  /** The text a correct undo produces: the inverses in the reverse of the replay order. */
  function UndoText(s: seq<char>, tx: Transaction): seq<char>
  {
    ApplyAll(s, InversesReversed(tx.edits))
  }

  /** The text `Buffer::redo` produces: the edits re-sorted and applied forward. */
  function RedoText(s: seq<char>, tx: Transaction): seq<char>
  {
    ApplyAll(s, SortDesc(tx.edits))
  }

  /** Replaying two edits is applying one, then the other. */
  lemma ApplyAllTwo(s: seq<char>, a: Edit, b: Edit)
    ensures ApplyAll(s, [a, b]) == ApplyEdit(ApplyEdit(s, a), b)
  {
    assert [a, b][..1] == [a];
    assert [a][..0] == [];
    assert ApplyAll(s, [a]) == ApplyEdit(s, a);
  }

  /** The transaction two carets at 0 and 1 record when typing "X" into "ab". */
  lemma TwoCaretEdits()
    ensures SortDesc(EditsOf("ab", [Caret(0), Caret(1)], "X")) == [Edit(1, [], "X"), Edit(0, [], "X")]
  {
    var e0, e1 := Edit(0, [], "X"), Edit(1, [], "X");
    var sels := [Caret(0), Caret(1)];
    assert sels[..1] == [Caret(0)];
    assert EditsOf("ab", sels, "X") == [e0, e1];
    assert [e0, e1][1..] == [e1];
  }

  /** Replaying the two caret edits gives "XaXb". */
  lemma TwoCaretReplay()
    ensures ApplyAll("ab", [Edit(1, [], "X"), Edit(0, [], "X")]) == "XaXb"
  {
    ApplyAllTwo("ab", Edit(1, [], "X"), Edit(0, [], "X"));
    var t := ApplyEdit("ab", Edit(1, [], "X"));
    assert t == "ab"[..1] + "X" + "ab"[1..];
    assert t == "aXb";
    assert ApplyEdit(t, Edit(0, [], "X")) == "X" + t;
  }

  /** The as-written undo of that transaction: both deletions at pre-edit offsets. */
  lemma TwoCaretUndoAsWritten()
    ensures UndoTextAsWritten("XaXb", Transaction(Insert, [Edit(1, [], "X"), Edit(0, [], "X")])) == "Xb"
  {
    var es := [Edit(1, [], "X"), Edit(0, [], "X")];
    var i1, i0 := Edit(1, "X", []), Edit(0, "X", []);
    assert es[1..] == [es[1]];
    assert Inverses(es) == [i1, i0];
    assert [i1, i0][1..] == [i0];
    assert SortDesc([i1, i0]) == [i1, i0];
    ApplyAllTwo("XaXb", i1, i0);
    ApplyEditEval("XaXb", i1);
    assert "XaXb"[..1] + [] + "XaXb"[2..] == "XXb";
    ApplyEditEval("XXb", i0);
    assert "XXb"[..0] + [] + "XXb"[1..] == "Xb";
  }

  /** An edit that fits in the text splices its inserted text over its deleted length. */
  lemma ApplyEditEval(s: seq<char>, e: Edit)
    requires e.startChar + |e.deleted| <= |s|
    ensures ApplyEdit(s, e) == s[..e.startChar] + e.inserted + s[e.startChar + |e.deleted|..]
  {
  }

  /** The corrected undo of that transaction: last edit first. */
  lemma TwoCaretUndo()
    ensures UndoText("XaXb", Transaction(Insert, [Edit(1, [], "X"), Edit(0, [], "X")])) == "ab"
  {
    var es := [Edit(1, [], "X"), Edit(0, [], "X")];
    var i1, i0 := Edit(1, "X", []), Edit(0, "X", []);
    assert es[..1] == [es[0]];
    assert InversesReversed(es) == [i0, i1];
    ApplyAllTwo("XaXb", i0, i1);
    var t := ApplyEdit("XaXb", i0);
    assert t == "XaXb"[1..];
    assert t == "aXb";
    assert ApplyEdit(t, i1) == t[..1] + t[2..];
  }

  /** Two carets typing "X" into "ab": the as-written undo deletes the "a" and keeps an
      "X", while the corrected undo restores "ab". */
  lemma UndoAsWrittenCorrupts()
    ensures var es := SortDesc(EditsOf("ab", [Caret(0), Caret(1)], "X"));
      var after := ApplyAll("ab", es);
      after == "XaXb" &&
      UndoTextAsWritten(after, Transaction(Insert, es)) == "Xb" &&
      UndoText(after, Transaction(Insert, es)) == "ab"
  {
    TwoCaretEdits();
    TwoCaretReplay();
    TwoCaretUndoAsWritten();
    TwoCaretUndo();
  }

  /** The two undos agree on single-edit transactions. */
  lemma UndoAsWrittenSingleEdit(s: seq<char>, tx: Transaction)
    requires |tx.edits| == 1
    ensures UndoTextAsWritten(s, tx) == UndoText(s, tx)
  {
    var e := tx.edits[0];
    assert tx.edits[..0] == [];
    assert Inverses(tx.edits) == [Inverse(e)];
    assert Inverses(tx.edits)[1..] == [];
    assert SortDesc([Inverse(e)]) == [Inverse(e)];
  }

  /** `Edit`s of pairwise disjoint ranges with distinct starts. */
  predicate Apart(a: Edit, b: Edit)
  {
    a.startChar != b.startChar &&
    (a.startChar + |a.deleted| <= b.startChar || b.startChar + |b.deleted| <= a.startChar)
  }

  predicate PairwiseApart(es: seq<Edit>)
  {
    forall i, j :: 0 <= i < |es| && 0 <= j < |es| && i != j ==> Apart(es[i], es[j])
  }

  /** Selections over pairwise disjoint ranges, no two starting at the same char. */
  predicate SelectionsApart(sels: seq<Selection>)
  {
    forall i, j :: 0 <= i < |sels| && 0 <= j < |sels| && i != j ==>
      sels[i].Start() != sels[j].Start() &&
      (sels[i].End() <= sels[j].Start() || sels[j].End() <= sels[i].Start())
  }

  /** Every edit after an `InsertDesc` is the inserted one or one already there. */
  lemma InsertDescElems(e: Edit, es: seq<Edit>)
    ensures forall x :: x in InsertDesc(e, es) ==> x == e || x in es
  {
    var r := InsertDesc(e, es);
    forall x | x in r ensures x == e || x in es {
      assert x in multiset(r);
    }
  }

  lemma PairwiseApartCons(x: Edit, rest: seq<Edit>)
    requires PairwiseApart(rest)
    requires forall y :: y in rest ==> Apart(x, y)
    ensures PairwiseApart([x] + rest)
  {
    var r := [x] + rest;
    forall i, j | 0 <= i < |r| && 0 <= j < |r| && i != j ensures Apart(r[i], r[j]) {
      if i == 0 { assert r[j] in rest; }
      else if j == 0 { assert r[i] in rest; }
      else { assert r[i] == rest[i - 1] && r[j] == rest[j - 1]; }
    }
  }

  lemma PairwiseApartTail(es: seq<Edit>)
    requires PairwiseApart(es) && es != []
    ensures PairwiseApart(es[1..])
    ensures forall y :: y in es[1..] ==> Apart(es[0], y)
  {
    var t := es[1..];
    forall i, j | 0 <= i < |t| && 0 <= j < |t| && i != j ensures Apart(t[i], t[j]) {
      assert t[i] == es[i + 1] && t[j] == es[j + 1];
    }
    forall y | y in t ensures Apart(es[0], y) {
      var j :| 0 <= j < |t| && t[j] == y;
      assert es[j + 1] == y;
    }
  }

  lemma {:induction false} InsertDescApart(e: Edit, es: seq<Edit>)
    requires PairwiseApart(es)
    requires forall x :: x in es ==> Apart(e, x)
    ensures PairwiseApart(InsertDesc(e, es))
  {
    if es == [] || e.startChar >= es[0].startChar {
      PairwiseApartCons(e, es);
    } else {
      var t := es[1..];
      PairwiseApartTail(es);
      assert es[0] in es;
      InsertDescApart(e, t);
      InsertDescElems(e, t);
      PairwiseApartCons(es[0], InsertDesc(e, t));
    }
  }

  lemma {:induction false} SortDescApart(es: seq<Edit>)
    requires PairwiseApart(es)
    ensures PairwiseApart(SortDesc(es))
  {
    if es != [] {
      var t := es[1..];
      PairwiseApartTail(es);
      SortDescApart(t);
      forall x | x in SortDesc(t) ensures Apart(es[0], x) {
        assert x in multiset(SortDesc(t));
      }
      InsertDescApart(es[0], SortDesc(t));
    }
  }

  /** Sorted edits over disjoint ranges are stacked. */
  lemma SortedApartStacked(es: seq<Edit>)
    requires SortedDesc(es) && PairwiseApart(es)
    ensures Stacked(es)
  {
    forall i, j | 0 <= i < j < |es| ensures es[j].startChar + |es[j].deleted| <= es[i].startChar {
      assert Apart(es[i], es[j]);
    }
  }

  /** The edits recorded for selections inside the text delete exactly the selected text. */
  lemma EditsOfRecord(s: seq<char>, sels: seq<Selection>, ins: seq<char>)
    requires InText(s, sels)
    ensures forall i :: 0 <= i < |sels| ==>
      EditsOf(s, sels, ins)[i].deleted == s[sels[i].Start()..sels[i].End()]
    ensures forall i :: 0 <= i < |sels| ==> Records(s, EditsOf(s, sels, ins)[i])
  {
  }

  /** ... and, for disjoint selections, are apart. */
  lemma EditsOfApart(s: seq<char>, sels: seq<Selection>, ins: seq<char>)
    requires InText(s, sels) && SelectionsApart(sels)
    ensures PairwiseApart(EditsOf(s, sels, ins))
  {
    EditsOfRecord(s, sels, ins);
    var raw := EditsOf(s, sels, ins);
    forall i, j | 0 <= i < |raw| && 0 <= j < |raw| && i != j ensures Apart(raw[i], raw[j]) {
      assert |raw[i].deleted| == sels[i].End() - sels[i].Start();
      assert |raw[j].deleted| == sels[j].End() - sels[j].Start();
    }
  }

  /** Sorting keeps a property every edit has. */
  lemma SortDescRecords(s: seq<char>, es: seq<Edit>)
    requires forall i :: 0 <= i < |es| ==> Records(s, es[i])
    ensures forall i :: 0 <= i < |es| ==> Records(s, SortDesc(es)[i])
  {
    var r := SortDesc(es);
    forall i | 0 <= i < |r| ensures Records(s, r[i]) {
      assert r[i] in multiset(es);
    }
  }

  /** With disjoint selections, the corrected undo of the transaction that
      `apply_text_to_selections` records restores the text it started from. */
  lemma UndoRestoresText(s: seq<char>, sels: seq<Selection>, ins: seq<char>, kind: TransactionKind)
    requires InText(s, sels) && SelectionsApart(sels)
    ensures var es := SortDesc(EditsOf(s, sels, ins));
      UndoText(ApplyAll(s, es), Transaction(kind, es)) == s
  {
    var raw := EditsOf(s, sels, ins);
    EditsOfRecord(s, sels, ins);
    EditsOfApart(s, sels, ins);
    SortDescApart(raw);
    SortDescRecords(s, raw);
    var es := SortDesc(raw);
    SortedApartStacked(es);
    StackedReplaysExactly(s, es);
    UndoAfterReplay(s, es);
  }

  /** For one edit recorded against the text, apply then undo restores it, redo then
      re-applies it, and the length moves by inserted minus deleted. */
  lemma SingleEditUndoRedo(s: seq<char>, e: Edit, kind: TransactionKind)
    requires Records(s, e)
    ensures var tx := Transaction(kind, [e]);
      |RedoText(s, tx)| == |s| - |e.deleted| + |e.inserted| &&
      UndoText(RedoText(s, tx), tx) == s &&
      RedoText(UndoText(RedoText(s, tx), tx), tx) == RedoText(s, tx)
  {
    assert [e][..0] == [];
    assert [e][1..] == [];
    assert SortDesc([e]) == [e];
    var t := ApplyEdit(s, e);
    assert ApplyAll(s, [e]) == t;
    assert InversesReversed([e]) == [Inverse(e)];
    assert [Inverse(e)][..0] == [];
    assert ApplyAll(t, [Inverse(e)]) == ApplyEdit(t, Inverse(e));
    ApplyInverse(s, e);
  }

  // ----- the buffer's state, and what each operation makes of it -----

  /** Everything a `Buffer` holds: the document's text and version, the selections, both
      history stacks and the last edit impact. */
  datatype BufferState = BufferState(
    text: seq<char>, version: u64, selections: SelectionSet,
    undo: seq<Transaction>, redo: seq<Transaction>, impact: Option<EditImpact>)

  /** Every selection of the state lies inside its text. */
  predicate SelectionsInText(st: BufferState)
  {
    InText(st.text, st.selections.AllIncludingPrimary())
  }

  /** The state `apply_text_to_selections(ins)` leaves. */
  function Typed(st: BufferState, ins: seq<char>): BufferState
    requires SelectionsInText(st)
  {
    var sels := st.selections.AllIncludingPrimary();
    var es := EditsOf(st.text, sels, ins);
    if AllEmpty(es) then st
    else
      var collapsed := FromList(Collapsed(sels, |ins|));
      var kind := KindOf(ins, sels);
      var allow := kind == Insert && |ins| == 1 && collapsed.IsSingleCaret();
      BufferState(ApplyAll(st.text, SortDesc(es)), BumpN(st.version, |es|), collapsed,
        PushedUndo(st.undo, Transaction(kind, SortDesc(es)), allow), [],
        ImpactOf(MinStartLine(st.text, sels), MaxEndLine(st.text, sels), ExtraLines(ins)))
  }

  /** The lines an insertion adds past the last end line: its '\n' count plus one. */
  function ExtraLines(ins: seq<char>): nat
  {
    CountNewlines(ins) + 1
  }

  /** `Typed` once the edits and the line bounds are known and some edit does something. */
  lemma TypedIs(st: BufferState, ins: seq<char>, es: seq<Edit>, startLine: nat, endLine: nat)
    requires SelectionsInText(st)
    requires es == EditsOf(st.text, st.selections.AllIncludingPrimary(), ins) && !AllEmpty(es)
    requires startLine == MinStartLine(st.text, st.selections.AllIncludingPrimary())
    requires endLine == MaxEndLine(st.text, st.selections.AllIncludingPrimary())
    ensures var sels := st.selections.AllIncludingPrimary();
      var collapsed := FromList(Collapsed(sels, |ins|));
      var kind := KindOf(ins, sels);
      Typed(st, ins) == BufferState(ApplyAll(st.text, SortDesc(es)), BumpN(st.version, |es|), collapsed,
        PushedUndo(st.undo, Transaction(kind, SortDesc(es)),
          kind == Insert && |ins| == 1 && collapsed.IsSingleCaret()), [],
        ImpactOf(startLine, endLine, ExtraLines(ins)))
  {
  }

  /** The state `apply_replace_ranges(ranges, kind, newSelections)` leaves. */
  function RangesReplaced(st: BufferState, ranges: seq<ReplaceRange>, kind: TransactionKind,
                          newSelections: SelectionSet): BufferState
    requires RangesInText(st.text, ranges)
  {
    if ranges == [] then st
    else
      var es := SortDesc(EditsOfRanges(st.text, ranges));
      BufferState(ApplyAll(st.text, es), BumpN(st.version, |ranges|), newSelections,
        PushedUndo(st.undo, Transaction(kind, es), false), [],
        ImpactOf(MinRangeStartLine(st.text, ranges), MaxRangeEndLine(st.text, ranges), 1))
  }

  /** The state `undo` leaves (with the corrected order of the inverses, see `UndoText`). */
  function Undone(st: BufferState): BufferState
  {
    if st.undo == [] then st
    else
      var tx := st.undo[|st.undo| - 1];
      st.(text := UndoText(st.text, tx), version := BumpN(st.version, |tx.edits|),
          undo := st.undo[..|st.undo| - 1], redo := st.redo + [tx], impact := None)
  }

  /** The state `redo` leaves. */
  function Redone(st: BufferState): BufferState
  {
    if st.redo == [] then st
    else
      var tx := st.redo[|st.redo| - 1];
      st.(text := RedoText(st.text, tx), version := BumpN(st.version, |tx.edits|),
          redo := st.redo[..|st.redo| - 1], undo := st.undo + [tx], impact := None)
  }

  /** The state `restore(snap)` leaves. */
  function Restored(st: BufferState, snap: DocumentSnapshot): BufferState
  {
    BufferState(snap.text, snap.version, st.selections.SetSingleCaret(0), [], [], None)
  }

  /** `apply_text_to_selections` is a complete no-op (text, version, selections, history
      and impact) exactly when nothing is inserted and every selection is a caret. */
  lemma TypedNoOp(st: BufferState, ins: seq<char>)
    requires SelectionsInText(st)
    ensures Typed(st, ins) == st <==> ins == [] && AllCarets(st.selections.AllIncludingPrimary())
  {
    var sels := st.selections.AllIncludingPrimary();
    NoOpIffCarets(st.text, sels, ins);
    if !(ins == [] && AllCarets(sels)) {
      assert Typed(st, ins).redo == [];
      if st.redo == [] {
        assert |Typed(st, ins).undo| != |st.undo| || Typed(st, ins).undo != st.undo;
      }
    }
  }

  /** Otherwise the selections keep their count and order, each becoming a caret at its
      start plus the inserted length, and the redo stack is cleared. */
  lemma TypedCarets(st: BufferState, ins: seq<char>)
    requires SelectionsInText(st)
    requires !(ins == [] && AllCarets(st.selections.AllIncludingPrimary()))
    ensures var sels, r := st.selections.AllIncludingPrimary(), Typed(st, ins);
      |r.selections.AllIncludingPrimary()| == |sels| &&
      (forall i :: 0 <= i < |sels| ==> r.selections.AllIncludingPrimary()[i] == Caret(sels[i].Start() + |ins|)) &&
      r.redo == []
  {
    var sels := st.selections.AllIncludingPrimary();
    NoOpIffCarets(st.text, sels, ins);
    TypedSelections(st, ins);
    CollapsedCarets(sels, |ins|);
  }

  /** The collapsed selections, as a set, list a caret per selection, in order. */
  lemma CollapsedCarets(sels: seq<Selection>, n: nat)
    requires sels != []
    ensures var r := FromList(Collapsed(sels, n)).AllIncludingPrimary();
      |r| == |sels| && forall i :: 0 <= i < |sels| ==> r[i] == Caret(sels[i].Start() + n)
  {
  }

  /** When some edit does something, typing collapses the selections and clears redo. */
  lemma TypedSelections(st: BufferState, ins: seq<char>)
    requires SelectionsInText(st)
    requires !AllEmpty(EditsOf(st.text, st.selections.AllIncludingPrimary(), ins))
    ensures Typed(st, ins).selections == FromList(Collapsed(st.selections.AllIncludingPrimary(), |ins|))
    ensures Typed(st, ins).redo == []
  {
  }

  /** With one selection, the text length moves by the inserted minus the selected length. */
  lemma TypedSingleLength(st: BufferState, ins: seq<char>)
    requires SelectionsInText(st) && st.selections.secondary == []
    ensures var p := st.selections.primary;
      |Typed(st, ins).text| == |st.text| - (p.End() - p.Start()) + |ins|
  {
    var p := st.selections.primary;
    var sels := st.selections.AllIncludingPrimary();
    assert sels == [p];
    var e := EditOf(st.text, p.Start(), p.End(), ins);
    assert EditsOf(st.text, sels, ins) == [e];
    if !AllEmpty([e]) {
      ReplayOne(st.text, e);
      EditOfLength(st.text, p.Start(), p.End(), ins);
    } else {
      assert |e.deleted| == 0 && ins == [];
    }
  }

  /** Replaying a single edit is applying it. */
  lemma ReplayOne(s: seq<char>, e: Edit)
    ensures ApplyAll(s, SortDesc([e])) == ApplyEdit(s, e)
  {
    assert [e][1..] == [];
    assert SortDesc([e]) == [e];
    assert [e][..0] == [];
  }

  /** The edit recorded for replacing `a..b` by `ins` changes the length by the inserted
      minus the replaced chars. */
  lemma EditOfLength(s: seq<char>, a: nat, b: nat, ins: seq<char>)
    requires a <= b <= |s|
    ensures |ApplyEdit(s, EditOf(s, a, b, ins))| == |s| - (b - a) + |ins|
  {
    var e := EditOf(s, a, b, ins);
    assert e.startChar + e.DeletedLen() == b;
  }

  /** With disjoint selections and no coalescing, undo right after typing gives back the
      text and the undo stack from before, and leaves the typing on the redo stack. */
  lemma TypedThenUndone(st: BufferState, ins: seq<char>)
    requires SelectionsInText(st) && SelectionsApart(st.selections.AllIncludingPrimary())
    requires !(ins == [] && AllCarets(st.selections.AllIncludingPrimary()))
    requires |Typed(st, ins).undo| == |st.undo| + 1
    ensures var t := Typed(st, ins);
      Undone(t).text == st.text && Undone(t).undo == st.undo && Undone(t).redo == [t.undo[|st.undo|]]
  {
    var sels := st.selections.AllIncludingPrimary();
    NoOpIffCarets(st.text, sels, ins);
    var es := SortDesc(EditsOf(st.text, sels, ins));
    UndoRestoresText(st.text, sels, ins, KindOf(ins, sels));
    UndoneTop(Typed(st, ins), st.undo, Transaction(KindOf(ins, sels), es));
  }

  /** Undo pops the top transaction and applies its inverses. */
  lemma UndoneTop(t: BufferState, u: seq<Transaction>, tx: Transaction)
    requires t.undo == u + [tx]
    ensures Undone(t).text == UndoText(t.text, tx) && Undone(t).undo == u && Undone(t).redo == t.redo + [tx]
  {
    assert t.undo[..|u|] == u;
  }

  /** `apply_replace_ranges` with ranges sets the given selections, pushes the transaction
      as the new top without coalescing, clears redo and bumps the version once per range. */
  lemma RangesReplacedEffect(st: BufferState, ranges: seq<ReplaceRange>, kind: TransactionKind,
                             newSelections: SelectionSet)
    requires RangesInText(st.text, ranges) && ranges != []
    ensures var r := RangesReplaced(st, ranges, kind, newSelections);
      r.selections == newSelections && r.redo == [] &&
      |r.undo| == |st.undo| + 1 && r.undo[..|st.undo|] == st.undo &&
      r.undo[|st.undo|] == Transaction(kind, SortDesc(EditsOfRanges(st.text, ranges))) &&
      r.version == BumpN(st.version, |ranges|)
  {
    assert !Coalesces(st.undo, Transaction(kind, SortDesc(EditsOfRanges(st.text, ranges))), false);
  }

  /** Undo followed by redo gives the stacks back. */
  lemma UndoneRedoneStacks(st: BufferState)
    requires st.undo != []
    ensures Redone(Undone(st)).undo == st.undo && Redone(Undone(st)).redo == st.redo
  {
    var n := |st.undo|;
    assert st.undo[..n - 1] + [st.undo[n - 1]] == st.undo;
    var u := Undone(st);
    assert u.redo[..|u.redo| - 1] == st.redo;
  }

  /** The closure of `apply_text_to_selections` that records one edit per selection and
      tracks the smallest start line and the largest end line. */
  method CollectEdits(s: seq<char>, sels: seq<Selection>, ins: seq<char>)
    returns (edits: seq<Edit>, startLine: nat, endLine: nat)
    requires InText(s, sels)
    ensures edits == EditsOf(s, sels, ins)
    ensures startLine == MinStartLine(s, sels) && endLine == MaxEndLine(s, sels)
  {
    startLine, endLine, edits := USIZE_MAX, 0, [];
    var i := 0;
    while i < |sels|
      invariant 0 <= i <= |sels|
      invariant InText(s, sels[..i])
      invariant edits == EditsOf(s, sels[..i], ins)
      invariant startLine == MinStartLine(s, sels[..i])
      invariant endLine == MaxEndLine(s, sels[..i])
    {
      var (start, end) := sels[i].Range();
      CollectStep(s, sels, ins, i);
      startLine := Min(startLine, CharToLine(s, start));
      endLine := Max(endLine, CharToLine(s, end));
      edits := edits + [EditOf(s, start, end, ins)];
      i := i + 1;
    }
    assert sels[..|sels|] == sels;
  }

  /** Taking one more selection extends the edits by its edit and the line bounds by its
      lines. */
  lemma CollectStep(s: seq<char>, sels: seq<Selection>, ins: seq<char>, i: nat)
    requires InText(s, sels) && i < |sels|
    ensures InText(s, sels[..i]) && InText(s, sels[..i + 1])
    ensures EditsOf(s, sels[..i + 1], ins) == EditsOf(s, sels[..i], ins) + [EditOf(s, sels[i].Start(), sels[i].End(), ins)]
    ensures MinStartLine(s, sels[..i + 1]) == Min(MinStartLine(s, sels[..i]), CharToLine(s, sels[i].Start()))
    ensures MaxEndLine(s, sels[..i + 1]) == Max(MaxEndLine(s, sels[..i]), CharToLine(s, sels[i].End()))
  {
    assert sels[..i + 1][..i] == sels[..i];
  }

  /** The closure of `apply_replace_ranges` that records one edit per range and tracks
      the smallest start line and the largest end line. */
  method CollectRangeEdits(s: seq<char>, ranges: seq<ReplaceRange>)
    returns (edits: seq<Edit>, startLine: nat, endLine: nat)
    requires RangesInText(s, ranges)
    ensures edits == EditsOfRanges(s, ranges)
    ensures startLine == MinRangeStartLine(s, ranges) && endLine == MaxRangeEndLine(s, ranges)
  {
    startLine, endLine, edits := USIZE_MAX, 0, [];
    var i := 0;
    while i < |ranges|
      invariant 0 <= i <= |ranges|
      invariant RangesInText(s, ranges[..i])
      invariant edits == EditsOfRanges(s, ranges[..i])
      invariant startLine == MinRangeStartLine(s, ranges[..i])
      invariant endLine == MaxRangeEndLine(s, ranges[..i])
    {
      var r := ranges[i];
      CollectRangeStep(s, ranges, i);
      startLine := Min(startLine, CharToLine(s, r.startChar));
      endLine := Max(endLine, CharToLine(s, r.endChar));
      edits := edits + [EditOf(s, r.startChar, r.endChar, r.inserted)];
      i := i + 1;
    }
    assert ranges[..|ranges|] == ranges;
  }

  /** Taking one more range extends the edits by its edit and the line bounds by its
      lines. */
  lemma CollectRangeStep(s: seq<char>, ranges: seq<ReplaceRange>, i: nat)
    requires RangesInText(s, ranges) && i < |ranges|
    ensures RangesInText(s, ranges[..i]) && RangesInText(s, ranges[..i + 1])
    ensures var r := ranges[i];
      EditsOfRanges(s, ranges[..i + 1]) == EditsOfRanges(s, ranges[..i]) + [EditOf(s, r.startChar, r.endChar, r.inserted)]
    ensures MinRangeStartLine(s, ranges[..i + 1]) == Min(MinRangeStartLine(s, ranges[..i]), CharToLine(s, ranges[i].startChar))
    ensures MaxRangeEndLine(s, ranges[..i + 1]) == Max(MaxRangeEndLine(s, ranges[..i]), CharToLine(s, ranges[i].endChar))
  {
    assert ranges[..i + 1][..i] == ranges[..i];
  }

  /** The buffer (`Buffer`): a document, its selections, its history and the lines the
      last edit touched. */
  class Buffer {
    const doc: Document
    const history: History
    var selections: SelectionSet
    var lastEditImpact: Option<EditImpact>

    /** `Buffer::new`: the text at version 0, one caret at 0, empty history, no impact. */
    constructor (text: seq<char>)
      ensures fresh(doc) && fresh(history)
      ensures State() == BufferState(text, 0, DefaultSet(), [], [], None)
    {
      doc := new Document(text);
      history := new History();
      selections := DefaultSet();
      lastEditImpact := None;
    }

    /** The whole state of the buffer as a value. */
    function State(): BufferState
      reads this, doc, history
    {
      BufferState(doc.text, doc.version, selections, history.undo, history.redo, lastEditImpact)
    }

    /** `Buffer::snapshot`. */
    function Snapshot(): (snap: DocumentSnapshot)
      reads this, doc
      ensures snap.text == doc.text && snap.version == doc.version
    {
      doc.Snapshot()
    }

    /** `Buffer::restore`: the snapshot's text and version, a fresh history, one caret at 0
        and no impact. */
    method Restore(snap: DocumentSnapshot)
      modifies this, doc, history
      ensures State() == Restored(old(State()), snap)
    {
      doc.Restore(snap);
      history.undo := [];
      history.redo := [];
      selections := selections.SetSingleCaret(0);
      lastEditImpact := None;
    }

    /** The replay loop shared by every operation: each edit replaces its deleted length
        at its start by its inserted text, in the order given. */
    method Replay(es: seq<Edit>)
      modifies doc
      ensures doc.text == ApplyAll(old(doc.text), es)
      ensures doc.version == BumpN(old(doc.version), |es|)
    {
      ghost var t0, v0 := doc.text, doc.version;
      var i := 0;
      while i < |es|
        invariant 0 <= i <= |es|
        invariant doc.text == ApplyAll(t0, es[..i])
        invariant doc.version == BumpN(v0, i)
      {
        var e := es[i];
        ReplayStep(t0, v0, es, i);
        doc.ReplaceRange(e.startChar, e.startChar + e.DeletedLen(), e.inserted);
        i := i + 1;
      }
      assert es[..|es|] == es;
    }

    /** `Buffer::apply_text_to_selections`: replace every selection by `ins`. */
    method ApplyTextToSelections(ins: seq<char>)
      requires SelectionsInText(State())
      modifies this, doc, history
      ensures State() == Typed(old(State()), ins)
    {
      ghost var st := State();
      var sels := selections.AllIncludingPrimary();
      var s := doc.text;
      var edits, startLine, endLine := CollectEdits(s, sels, ins);
      if AllEmpty(edits) {
        return;
      }
      CommitTyping(sels, ins, edits, startLine, endLine, ExtraLines(ins));
      TypedIs(st, ins, edits, startLine, endLine);
    }

    /** The part of `apply_text_to_selections` after the edits are recorded: replay them
        from the highest start down, collapse the selections, push the transaction and
        record the impact, `extra` lines past the last end line. */
    method CommitTyping(sels: seq<Selection>, ins: seq<char>, edits: seq<Edit>, startLine: nat, endLine: nat,
      extra: nat)
      modifies this, doc, history
      ensures doc.text == ApplyAll(old(doc.text), SortDesc(edits))
      ensures doc.version == BumpN(old(doc.version), |edits|)
      ensures selections == FromList(Collapsed(sels, |ins|))
      ensures history.undo == PushedUndo(old(history.undo), Transaction(KindOf(ins, sels), SortDesc(edits)),
        KindOf(ins, sels) == Insert && |ins| == 1 && FromList(Collapsed(sels, |ins|)).IsSingleCaret())
      ensures history.redo == []
      ensures lastEditImpact == ImpactOf(startLine, endLine, extra)
    {
      var sorted := SortDesc(edits);
      Replay(sorted);
      selections := FromList(Collapsed(sels, |ins|));
      var kind := KindOf(ins, sels);
      var allow := kind == Insert && |ins| == 1 && selections.IsSingleCaret();
      history.Push(Transaction(kind, sorted), allow);
      lastEditImpact := ImpactOf(startLine, endLine, extra);
    }

    /** `Buffer::apply_replace_ranges`: nothing for no ranges; otherwise replace each range,
        take the given selections and push the transaction without coalescing. */
    method ApplyReplaceRanges(ranges: seq<ReplaceRange>, kind: TransactionKind, newSelections: SelectionSet)
      requires RangesInText(doc.text, ranges)
      modifies this, doc, history
      ensures State() == RangesReplaced(old(State()), ranges, kind, newSelections)
    {
      if ranges == [] {
        return;
      }
      var s := doc.text;
      var edits, startLine, endLine := CollectRangeEdits(s, ranges);
      edits := SortDesc(edits);
      Replay(edits);
      selections := newSelections;
      history.Push(Transaction(kind, edits), false);
      lastEditImpact := ImpactOf(startLine, endLine, 1);
    }

    /** `Buffer::undo`, with the inverses applied last edit first (see `UndoText`); false
        and no change when there is nothing to undo. Selections are not touched. */
    method Undo() returns (done: bool)
      modifies this, doc, history
      ensures done <==> old(history.undo) != []
      ensures State() == Undone(old(State()))
    {
      if history.undo == [] {
        return false;
      }
      var tx := history.undo[|history.undo| - 1];
      history.undo := history.undo[..|history.undo| - 1];
      Replay(InversesReversed(tx.edits));
      history.redo := history.redo + [tx];
      lastEditImpact := None;
      return true;
    }

    /** `Buffer::redo`: the top redo transaction is re-sorted and replayed forward and moves
        back to the undo stack; false and no change when there is nothing to redo. */
    method Redo() returns (done: bool)
      modifies this, doc, history
      ensures done <==> old(history.redo) != []
      ensures State() == Redone(old(State()))
    {
      if history.redo == [] {
        return false;
      }
      var tx := history.redo[|history.redo| - 1];
      history.redo := history.redo[..|history.redo| - 1];
      Replay(SortDesc(tx.edits));
      history.undo := history.undo + [tx];
      lastEditImpact := None;
      return true;
    }
  }
}
