/** Carets and selections (crates/editor/src/selection.rs). Both are plain values:
    the buffer holds its selection set by value and replaces it as a whole. */
module EditorSelection {
  import opened RustStr

  /** A selection from `anchor` to `head`, both char indices; a caret when they meet. */
  datatype Selection = Selection(anchor: nat, head: nat)
  {
    /** `Selection::is_caret`. */
    predicate IsCaret()
    {
      anchor == head
    }

    /** `Selection::range`: the two ends in increasing order. */
    function Range(): (r: (nat, nat))
      ensures r.0 <= r.1
      ensures (r.0 == anchor && r.1 == head) || (r.0 == head && r.1 == anchor)
      ensures r.0 == r.1 <==> IsCaret()
    {
      if anchor <= head then (anchor, head) else (head, anchor)
    }

    /** The start of the range. */
    function Start(): (a: nat)
      ensures a == Min(anchor, head)
    {
      Range().0
    }

    /** The end of the range. */
    function End(): (b: nat)
      ensures b == Max(anchor, head)
    {
      Range().1
    }
  }

  /** A caret at `i`. */
  function Caret(i: nat): (s: Selection)
    ensures s.IsCaret() && s.head == i
  {
    Selection(i, i)
  }

  /** The primary selection and the secondary ones, in order. */
  datatype SelectionSet = SelectionSet(primary: Selection, secondary: seq<Selection>)
  {
    /** `SelectionSet::is_single_caret`. */
    predicate IsSingleCaret()
    {
      secondary == [] && primary.IsCaret()
    }

    /** `SelectionSet::all_including_primary`: the primary first, then the secondaries. */
    function AllIncludingPrimary(): (r: seq<Selection>)
      ensures |r| == 1 + |secondary|
      ensures r[0] == primary && r[1..] == secondary
    {
      [primary] + secondary
    }

    /** `SelectionSet::set_single_caret`: one caret at `i`, nothing else. */
    function SetSingleCaret(i: nat): (r: SelectionSet)
      ensures r.IsSingleCaret() && r.primary == Caret(i)
      ensures r.AllIncludingPrimary() == [Caret(i)]
    {
      SelectionSet(Caret(i), [])
    }
  }

  /** `SelectionSet::default`: a single caret at 0. */
  function DefaultSet(): (d: SelectionSet)
    ensures d.IsSingleCaret() && d.primary == Caret(0)
    ensures d.AllIncludingPrimary() == [Caret(0)]
  {
    SelectionSet(Caret(0), [])
  }

  /** The set the engine builds from a list of selections: the default set when the list
      is empty, else its first element as primary and the others as secondaries. */
  function FromList(l: seq<Selection>): (r: SelectionSet)
    ensures l != [] ==> r.AllIncludingPrimary() == l
    ensures l == [] ==> r == DefaultSet()
  {
    if l == [] then DefaultSet() else SelectionSet(l[0], l[1..])
  }
}
