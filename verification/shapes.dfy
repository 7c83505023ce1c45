/** Shape matrices of tetris.js pieces and the quarter turn `Piece.rotate`
    applies to them. A shape is a rectangular matrix of 0 (empty) and 1
    (occupied); row 0 is the top row. */
module Shapes {

  type Shape = seq<seq<int>>

  /** All rows have the length of the first one (what `rotate` needs). */
  predicate Rectangular(s: Shape)
  {
    |s| > 0 && forall i :: 0 <= i < |s| ==> |s[i]| == |s[0]|
  }

  /** A non-degenerate rectangular matrix. */
  predicate IsShape(s: Shape)
  {
    Rectangular(s) && |s[0]| > 0
  }

  function Height(s: Shape): nat
  {
    |s|
  }

  function Width(s: Shape): nat
    requires |s| > 0
  {
    |s[0]|
  }

  /** Cell `(i, j)` (row `i`, column `j`) of the shape is occupied. */
  predicate Occupies(s: Shape, i: int, j: int)
  {
    0 <= i < |s| && 0 <= j < |s[i]| && s[i][j] != 0
  }

  predicate RowOccupied(s: Shape, i: int)
    requires 0 <= i < |s|
  {
    exists j :: 0 <= j < |s[i]| && s[i][j] != 0
  }

  predicate ColOccupied(s: Shape, j: int)
  {
    exists i :: 0 <= i < |s| && 0 <= j < |s[i]| && s[i][j] != 0
  }

  /** Every row and every column of the bounding box holds an occupied cell,
      so the occupied cells reach all four sides of the box. */
  predicate Spans(s: Shape)
  {
    && IsShape(s)
    && (forall i :: 0 <= i < |s| ==> RowOccupied(s, i))
    && (forall j :: 0 <= j < Width(s) ==> ColOccupied(s, j))
  }

  /** The occupied cells, as (row, column) pairs. */
  function Cells(s: Shape): set<(int, int)>
  {
    set i, j | 0 <= i < |s| && 0 <= j < |s[i]| && s[i][j] != 0 :: (i, j)
  }

  /** A spanning shape occupies at least one cell. */
  lemma SpansHasCell(s: Shape)
    requires Spans(s)
    ensures Cells(s) != {}
  {
    assert RowOccupied(s, 0);
    var j :| 0 <= j < |s[0]| && s[0][j] != 0;
    assert (0, j) in Cells(s);
  }

  /** Column `i` of the matrix becomes row `i` (the `map` over `shape[0]`). */
  function Transpose(s: Shape): Shape
    requires Rectangular(s)
  {
    seq(|s[0]|, i requires 0 <= i < |s[0]| => seq(|s|, j requires 0 <= j < |s| => s[j][i]))
  }

  function Reverse<T>(s: seq<T>): seq<T>
  {
    seq(|s|, i requires 0 <= i < |s| => s[|s| - 1 - i])
  }

  /** `Piece.rotate`: transpose, then reverse the row order. An h x w matrix
      becomes a w x h matrix whose row `i` is column `w - 1 - i` read top down.
      With row 0 drawn at the top, this is a counter-clockwise quarter turn. */
  function Rotate(s: Shape): (r: Shape)
    requires Rectangular(s)
    ensures |r| == Width(s)
    ensures forall i :: 0 <= i < |r| ==> |r[i]| == Height(s)
    ensures forall i, j :: 0 <= i < Width(s) && 0 <= j < Height(s) ==> r[i][j] == s[j][Width(s) - 1 - i]
    ensures IsShape(s) ==> IsShape(r) && Width(r) == Height(s)
  {
    Reverse(Transpose(s))
  }

  /** Two quarter turns are a half turn: same dimensions, every cell mirrored
      through the centre. */
  lemma RotateTwice(s: Shape)
    requires IsShape(s)
    ensures var r := Rotate(Rotate(s));
      && IsShape(r) && Height(r) == Height(s) && Width(r) == Width(s)
      && forall i, j :: 0 <= i < Height(s) && 0 <= j < Width(s) ==>
           r[i][j] == s[Height(s) - 1 - i][Width(s) - 1 - j]
  {
  }

  /** Four quarter turns give back exactly the original matrix. */
  lemma RotateFour(s: Shape)
    requires IsShape(s)
    ensures Rotate(Rotate(Rotate(Rotate(s)))) == s
  {
    var h := Rotate(Rotate(s));
    RotateTwice(s);
    RotateTwice(h);
    var r := Rotate(Rotate(h));
    assert |r| == |s|;
    forall i | 0 <= i < |s|
      ensures r[i] == s[i]
    {
      assert |r[i]| == |s[i]|;
    }
  }

  /** A quarter turn keeps every row and column of the box occupied. */
  lemma RotateSpans(s: Shape)
    requires Spans(s)
    ensures Spans(Rotate(s))
  {
    var r := Rotate(s);
    var w := Width(s);
    forall i | 0 <= i < |r|
      ensures RowOccupied(r, i)
    {
      assert ColOccupied(s, w - 1 - i);
      var k :| 0 <= k < |s| && 0 <= w - 1 - i < |s[k]| && s[k][w - 1 - i] != 0;
      assert r[i][k] != 0;
    }
    forall j | 0 <= j < Width(r)
      ensures ColOccupied(r, j)
    {
      assert RowOccupied(s, j);
      var k :| 0 <= k < |s[j]| && s[j][k] != 0;
      assert r[w - 1 - k][j] == s[j][k];
    }
  }

  /** Where a quarter turn of a `w`-wide matrix sends cell `p`. */
  function QuarterTurn(w: int, p: (int, int)): (int, int)
  {
    (w - 1 - p.1, p.0)
  }

  /** A quarter turn moves each occupied cell to its turned position and
      nowhere else. */
  lemma RotateCells(s: Shape)
    requires Rectangular(s)
    ensures Cells(Rotate(s)) == set p | p in Cells(s) :: QuarterTurn(Width(s), p)
  {
    var r := Rotate(s);
    var w := Width(s);
    var img := set p | p in Cells(s) :: QuarterTurn(w, p);
    forall q | q in Cells(r)
      ensures q in img
    {
      var p := (q.1, w - 1 - q.0);
      assert p in Cells(s);
      assert QuarterTurn(w, p) == q;
    }
    forall q | q in img
      ensures q in Cells(r)
    {
      var p :| p in Cells(s) && QuarterTurn(w, p) == q;
      assert r[q.0][q.1] == s[p.0][p.1];
    }
  }

  /** Turning a set of cells does not merge any two of them. */
  lemma {:induction false} QuarterTurnCard(S: set<(int, int)>, w: int)
    ensures |set p | p in S :: QuarterTurn(w, p)| == |S|
    decreases |S|
  {
    var img := set p | p in S :: QuarterTurn(w, p);
    if S == {} {
      assert img == {};
    } else {
      var p :| p in S;
      var S' := S - {p};
      var img' := set q | q in S' :: QuarterTurn(w, q);
      QuarterTurnCard(S', w);
      assert img == img' + {QuarterTurn(w, p)};
      assert QuarterTurn(w, p) !in img';
    }
  }

  /** A quarter turn keeps the number of occupied cells. */
  lemma RotateKeepsCount(s: Shape)
    requires Rectangular(s)
    ensures |Cells(Rotate(s))| == |Cells(s)|
  {
    RotateCells(s);
    QuarterTurnCard(Cells(s), Width(s));
  }
}
