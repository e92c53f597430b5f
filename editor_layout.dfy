/** Soft-wrap splitting (crates/editor/src/layout.rs) and the view-model records the
    engine fills in; the pixel metrics are not part of this model. */
module EditorLayout {

  datatype Viewport = Viewport(firstLine: nat, maxLines: nat, widthCols: nat)

  datatype SelectionSpan = SelectionSpan(startCol: nat, endCol: nat)

  /** One displayed row: a segment of a document line with its selection spans and
      caret columns relative to the segment. */
  datatype VisualLine = VisualLine(
    lineIdx: nat, wrapColOffset: nat, text: seq<char>,
    selections: seq<SelectionSpan>, cursors: seq<nat>, isCurrentLine: bool)

  datatype EditorViewModel = EditorViewModel(lines: seq<VisualLine>, gutterWidthCols: nat)

  /** The pieces put back together. */
  function Concat(pieces: seq<seq<char>>): seq<char>
  {
    if pieces == [] then [] else pieces[0] + Concat(pieces[1..])
  }

  /** The text cut into consecutive pieces of `width` chars, the last one holding the
      rest (the text itself when it fits). */
  function Pieces(text: seq<char>, width: nat): (ps: seq<seq<char>>)
    requires width > 0
    ensures ps != []
    decreases |text|
  {
    if |text| <= width then [text] else [text[..width]] + Pieces(text[width..], width)
  }

  /** The pieces put back together give the text. */
  lemma {:induction false} PiecesConcat(text: seq<char>, width: nat)
    requires width > 0
    ensures Concat(Pieces(text, width)) == text
    decreases |text|
  {
    if |text| > width {
      var ps := Pieces(text, width);
      assert ps[1..] == Pieces(text[width..], width);
      PiecesConcat(text[width..], width);
    }
  }

  /** Piece `i` is the text from column `Column(i, width)` (that is `i * width`) on: every
      piece but the last is full, the last is not empty unless the text is, and there are
      `ceil(|text| / width)` of them for a non-empty text. */
  lemma PiecesAt(text: seq<char>, width: nat)
    requires width > 0
    ensures var ps := Pieces(text, width);
      (forall i :: 0 <= i < |ps| ==>
        Column(i, width) + |ps[i]| <= |text| && ps[i] == text[Column(i, width)..Column(i, width) + |ps[i]|]) &&
      (forall i :: 0 <= i < |ps| - 1 ==> |ps[i]| == width) &&
      |ps[|ps| - 1]| <= width && (text != [] ==> 1 <= |ps[|ps| - 1]|) &&
      Column(|ps| - 1, width) + |ps[|ps| - 1]| == |text|
  {
    var ps := Pieces(text, width);
    forall i | 0 <= i < |ps|
      ensures Column(i, width) + |ps[i]| <= |text| && ps[i] == text[Column(i, width)..Column(i, width) + |ps[i]|]
    {
      PieceAt(text, width, i);
    }
    forall i | 0 <= i < |ps| - 1 ensures |ps[i]| == width {
      PieceFull(text, width, i);
    }
    LastPiece(text, width);
  }

  /** The column piece `i` starts at: `i` widths, counted one at a time. */
  function Column(i: nat, width: nat): nat
  {
    if i == 0 then 0 else Column(i - 1, width) + width
  }

  /** Counted one at a time, `i` widths make `i * width`. */
  lemma {:induction false} ColumnIsProduct(i: nat, width: nat)
    ensures Column(i, width) == i * width
  {
    if i > 0 {
      ColumnIsProduct(i - 1, width);
    }
  }

  /** Past the first full piece, the pieces are those of the rest. */
  lemma PiecesStep(text: seq<char>, width: nat)
    requires 0 < width < |text|
    ensures Pieces(text, width) == [text[..width]] + Pieces(text[width..], width)
  {
  }

  /** More than one piece means the text is longer than the width. */
  lemma PiecesOne(text: seq<char>, width: nat)
    requires 0 < width && |text| <= width
    ensures Pieces(text, width) == [text]
  {
  }

  /** Piece `i` is the text at column `Column(i, width)`. */
  lemma {:induction false} PieceAt(text: seq<char>, width: nat, i: nat)
    requires width > 0 && i < |Pieces(text, width)|
    ensures var p := Pieces(text, width)[i];
      Column(i, width) + |p| <= |text| && p == text[Column(i, width)..Column(i, width) + |p|]
    decreases i
  {
    if |text| <= width {
      PiecesOne(text, width);
      assert text[0..|text|] == text;
    } else {
      var rest := text[width..];
      PiecesStep(text, width);
      var qs := Pieces(rest, width);
      if i == 0 {
        assert Pieces(text, width)[0] == text[..width];
      } else {
        assert Pieces(text, width)[i] == qs[i - 1];
        PieceAt(rest, width, i - 1);
        PieceShift(text, width, rest, qs[i - 1], Column(i - 1, width));
      }
    }
  }

  /** Every piece but the last is `width` long. */
  lemma {:induction false} PieceFull(text: seq<char>, width: nat, i: nat)
    requires width > 0 && i + 1 < |Pieces(text, width)|
    ensures |Pieces(text, width)[i]| == width
    decreases i
  {
    if |text| <= width {
      PiecesOne(text, width);
    } else {
      PiecesStep(text, width);
      if i > 0 {
        assert Pieces(text, width)[i] == Pieces(text[width..], width)[i - 1];
        PieceFull(text[width..], width, i - 1);
      }
    }
  }

  /** The last piece holds what is left: at most `width` chars, at least one of a
      non-empty text, ending the text. */
  lemma {:induction false} LastPiece(text: seq<char>, width: nat)
    requires width > 0
    ensures var ps := Pieces(text, width);
      |ps[|ps| - 1]| <= width && (text != [] ==> 1 <= |ps[|ps| - 1]|) &&
      Column(|ps| - 1, width) + |ps[|ps| - 1]| == |text|
    decreases |text|
  {
    if |text| <= width {
      PiecesOne(text, width);
    } else {
      var rest := text[width..];
      PiecesStep(text, width);
      var ps, qs := Pieces(text, width), Pieces(rest, width);
      LastPiece(rest, width);
      assert |ps| == |qs| + 1 && ps[|ps| - 1] == qs[|qs| - 1];
    }
  }

  /** A piece found at `o` in the text after the first `width` chars is found at
      `width + o` in the text. */
  lemma PieceShift(text: seq<char>, width: nat, rest: seq<char>, p: seq<char>, o: nat)
    requires width <= |text| && rest == text[width..] && o + |p| <= |rest| && p == rest[o..o + |p|]
    ensures width + o + |p| <= |text| && p == text[width + o..width + o + |p|]
  {
  }

  /** `split_by_cols`: the text itself for a zero width, otherwise its `Pieces`. */
  method SplitByCols(text: seq<char>, maxCols: nat) returns (out: seq<seq<char>>)
    ensures maxCols == 0 ==> out == [text]
    ensures maxCols > 0 ==> out == Pieces(text, maxCols)
  {
    if maxCols == 0 || |text| <= maxCols {
      return [text];
    }
    out := [];
    var i := 0;
    while i < |text|
      invariant i <= |text|
      invariant i < |text| ==> out + Pieces(text[i..], maxCols) == Pieces(text, maxCols)
      invariant i == |text| ==> out == Pieces(text, maxCols)
      decreases |text| - i
    {
      var end := if i + maxCols < |text| then i + maxCols else |text|;
      var piece := text[i..end];
      if end < |text| {
        assert text[i..][..maxCols] == piece && text[i..][maxCols..] == text[end..];
      } else {
        assert text[i..] == piece;
      }
      out := out + [piece];
      i := end;
    }
  }
}
