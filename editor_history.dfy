/** Undo/redo history (crates/editor/src/history.rs): transactions of edits on two
    stacks, with typing coalesced into the previous insert. */
module EditorHistory {
  import opened EditorDocument

  /** One recorded edit: at `startChar`, `deleted` was replaced by `inserted`. */
  datatype Edit = Edit(startChar: nat, deleted: seq<char>, inserted: seq<char>)
  {
    /** `Edit::inserted_len_chars`. */
    function InsertedLen(): (n: nat)
      ensures n == |inserted|
    {
      |inserted|
    }

    /** `Edit::deleted_len_chars`. */
    function DeletedLen(): (n: nat)
      ensures n == |deleted|
    {
      |deleted|
    }
  }

  /** What applying an edit forward does: replace `deleted.len()` chars at the start by
      the inserted text (buffer.rs replays edits this way). */
  function ApplyEdit(s: seq<char>, e: Edit): seq<char>
  {
    Replaced(s, e.startChar, e.startChar + e.DeletedLen(), e.inserted)
  }

  /** The inverse an undo applies for an edit: the inserted text goes back to the deleted. */
  function Inverse(e: Edit): (inv: Edit)
    ensures inv.startChar == e.startChar
    ensures inv.deleted == e.inserted && inv.inserted == e.deleted
  {
    Edit(e.startChar, e.inserted, e.deleted)
  }

  /** An edit whose deleted text is what the text holds at its start undoes exactly. */
  lemma ApplyInverse(s: seq<char>, e: Edit)
    requires e.startChar + |e.deleted| <= |s|
    requires s[e.startChar..e.startChar + |e.deleted|] == e.deleted
    ensures ApplyEdit(ApplyEdit(s, e), Inverse(e)) == s
  {
    ReplacedInverse(s, e.startChar, e.startChar + |e.deleted|, e.inserted);
  }

  datatype TransactionKind = Insert | Delete | Replace | Other

  datatype Transaction = Transaction(kind: TransactionKind, edits: seq<Edit>)

  /** The merge condition of `History::push`: coalescing is allowed, both transactions
      are single pure insertions, and the new one starts where the previous one ended. */
  predicate Coalesces(undo: seq<Transaction>, tx: Transaction, allow: bool)
  {
    allow && tx.kind == Insert && |undo| > 0 &&
    var prev := undo[|undo| - 1];
    prev.kind == Insert && |prev.edits| == 1 && |tx.edits| == 1 &&
    prev.edits[0].deleted == [] && tx.edits[0].deleted == [] &&
    prev.edits[0].startChar + prev.edits[0].InsertedLen() == tx.edits[0].startChar
  }

  /** The previous top edit with the new edit's text appended to its insertion. */
  function Merged(prev: Edit, next: Edit): (m: Edit)
    ensures m.startChar == prev.startChar && m.deleted == prev.deleted
    ensures m.inserted == prev.inserted + next.inserted
  {
    Edit(prev.startChar, prev.deleted, prev.inserted + next.inserted)
  }

  /** The undo stack after `History::push(tx, allow)`. */
  function PushedUndo(undo: seq<Transaction>, tx: Transaction, allow: bool): (r: seq<Transaction>)
    ensures !Coalesces(undo, tx, allow) ==> |r| == |undo| + 1 && r[..|undo|] == undo && r[|undo|] == tx
    ensures Coalesces(undo, tx, allow) ==>
      |r| == |undo| && r[..|undo| - 1] == undo[..|undo| - 1] &&
      r[|undo| - 1] == Transaction(Insert, [Merged(undo[|undo| - 1].edits[0], tx.edits[0])])
    ensures |r| == |undo| ==> Coalesces(undo, tx, allow)
  {
    if Coalesces(undo, tx, allow) then
      var prev := undo[|undo| - 1];
      undo[..|undo| - 1] + [Transaction(prev.kind, [Merged(prev.edits[0], tx.edits[0])])]
    else
      undo + [tx]
  }

  /** Pushing never touches the entries below the current top. */
  lemma PushKeepsBelowTop(undo: seq<Transaction>, tx: Transaction, allow: bool)
    requires |undo| > 0
    ensures PushedUndo(undo, tx, allow)[..|undo| - 1] == undo[..|undo| - 1]
  {
    var r := PushedUndo(undo, tx, allow);
    if !Coalesces(undo, tx, allow) {
      assert r[..|undo| - 1] == r[..|undo|][..|undo| - 1];
    }
  }

  /** The merged edit does in one step what the two insertions did one after the other,
      so undoing it undoes both. */
  lemma MergedEditAgrees(s: seq<char>, prev: Edit, next: Edit)
    requires prev.deleted == [] && next.deleted == []
    requires prev.startChar <= |s|
    requires prev.startChar + |prev.inserted| == next.startChar
    ensures ApplyEdit(s, Merged(prev, next)) == ApplyEdit(ApplyEdit(s, prev), next)
  {
    var a := prev.startChar;
    var x, y := prev.inserted, next.inserted;
    var t := s[..a] + x + s[a..];
    InsertionApplied(s, prev);
    InsertionApplied(t, next);
    InsertionApplied(s, Merged(prev, next));
    InsertedTwice(s[..a], x, y, s[a..]);
  }

  /** Putting `x` in between `p` and `q`, then `y` right after it, puts in `x + y`. */
  lemma InsertedTwice(p: seq<char>, x: seq<char>, y: seq<char>, q: seq<char>)
    ensures var t := p + x + q;
      t[..|p| + |x|] + y + t[|p| + |x|..] == p + (x + y) + q
  {
    var t := p + x + q;
    assert t[..|p| + |x|] == p + x;
    assert t[|p| + |x|..] == q;
  }

  /** An edit that deletes nothing puts its text in at its start. */
  lemma InsertionApplied(s: seq<char>, e: Edit)
    requires e.deleted == [] && e.startChar <= |s|
    ensures ApplyEdit(s, e) == s[..e.startChar] + e.inserted + s[e.startChar..]
  {
    assert e.DeletedLen() == 0;
  }

  /** The two stacks (`History`). */
  class History {
    var undo: seq<Transaction>
    var redo: seq<Transaction>

    /** `History::default`: both stacks empty. */
    constructor ()
      ensures undo == [] && redo == []
    {
      undo := [];
      redo := [];
    }

    /** `History::can_undo`. */
    function CanUndo(): (b: bool)
      reads this
      ensures b <==> |undo| > 0
    {
      undo != []
    }

    /** `History::can_redo`. */
    function CanRedo(): (b: bool)
      reads this
      ensures b <==> |redo| > 0
    {
      redo != []
    }

    /** `History::clear_redo`: only the redo stack is emptied. */
    method ClearRedo()
      modifies this
      ensures redo == [] && undo == old(undo)
    {
      redo := [];
    }

    /** `History::push`: merge into the top insertion when `Coalesces` holds, else push;
        the redo stack is emptied either way. */
    method Push(tx: Transaction, allow: bool)
      modifies this
      ensures undo == PushedUndo(old(undo), tx, allow)
      ensures redo == []
    {
      if allow && tx.kind == Insert && |undo| > 0 {
        var prev := undo[|undo| - 1];
        if prev.kind == Insert && |prev.edits| == 1 && |tx.edits| == 1 {
          var prevEdit := prev.edits[0];
          var newEdit := tx.edits[0];
          if prevEdit.deleted == [] && newEdit.deleted == []
            && prevEdit.startChar + prevEdit.InsertedLen() == newEdit.startChar
          {
            var merged := Edit(prevEdit.startChar, prevEdit.deleted, prevEdit.inserted + newEdit.inserted);
            undo := undo[..|undo| - 1] + [Transaction(prev.kind, [merged])];
            redo := [];
            return;
          }
        }
      }
      undo := undo + [tx];
      redo := [];
    }
  }
}
