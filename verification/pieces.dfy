/** The `Piece` class of tetris.js: a kind from "ILJOTSZ", the current shape
    matrix and the board offset (x, y) of the matrix's top-left cell, with the
    unchecked `move`, the quarter-turn `rotate`, the collision query and
    `drop`. The board a piece consults is passed explicitly. */
module Pieces {
  import opened Grid
  import opened Shapes

  datatype Kind = I | L | J | O | T | S | Z

  datatype Option<T> = None | Some(value: T)

  /** `Tetris.pieces`: the kinds in sampling order. */
  const Letters: string := "ILJOTSZ"

  /** `Tetris.colors`: slot 0 is `null`, slot `n` the colour of the n-th kind. */
  const Palette: seq<Option<string>> :=
    [None, Some("cyan"), Some("blue"), Some("orange"), Some("yellow"),
     Some("green"), Some("purple"), Some("red")]

  function Letter(k: Kind): char
  {
    match k
    case I => 'I'
    case L => 'L'
    case J => 'J'
    case O => 'O'
    case T => 'T'
    case S => 'S'
    case Z => 'Z'
  }

  /** JavaScript's `indexOf`: the first position holding `v`, or -1. */
  function IndexOf<V(==)>(s: seq<V>, v: V): (r: int)
    ensures r == -1 <==> v !in s
    ensures r != -1 ==> 0 <= r < |s| && s[r] == v && forall k :: 0 <= k < r ==> s[k] != v
    decreases |s|
  {
    if |s| == 0 then -1
    else if s[0] == v then 0
    else
      var r := IndexOf(s[1..], v);
      if r == -1 then -1 else r + 1
  }

  /** The colour `randomPiece` gives a piece of kind `k`. */
  function Colour(k: Kind): Option<string>
  {
    Palette[IndexOf(Letters, Letter(k)) + 1]
  }

  /** The value `mergePiece` writes into the board for kind `k`: slot 1..7
      of the palette, the one whose letter in "ILJOTSZ" is the kind's. */
  function ColourIndex(k: Kind): (r: int)
    ensures 1 <= r < PaletteSize
    ensures Letters[r - 1] == Letter(k)
  {
    match k
    case I => 1
    case L => 2
    case J => 3
    case O => 4
    case T => 5
    case S => 6
    case Z => 7
  }

  /** The slot is what tetris.js computes: `colors.indexOf(color)` for the
      colour `colors[pieces.indexOf(type) + 1]` the piece was created with. */
  lemma ColourIndexIsLookup(k: Kind)
    ensures ColourIndex(k) == IndexOf(Palette, Colour(k))
    ensures ColourIndex(k) == IndexOf(Letters, Letter(k)) + 1
  {
    LetterSlot(k);
    var c := ColourIndex(k);
    assert Colour(k) == Palette[c];
    PaletteDistinct(c);
  }

  /** The position of a kind's letter in "ILJOTSZ" is its slot minus one. */
  lemma LetterSlot(k: Kind)
    ensures IndexOf(Letters, Letter(k)) == ColourIndex(k) - 1
  {
    match k
    case I => IndexOfFirst(Letters, 'I', 0);
    case L => IndexOfFirst(Letters, 'L', 1);
    case J => IndexOfFirst(Letters, 'J', 2);
    case O => IndexOfFirst(Letters, 'O', 3);
    case T => IndexOfFirst(Letters, 'T', 4);
    case S => IndexOfFirst(Letters, 'S', 5);
    case Z => IndexOfFirst(Letters, 'Z', 6);
  }

  /** The colours are pairwise distinct, so looking a colour up in the
      palette gives back its slot. */
  lemma PaletteDistinct(n: nat)
    requires 1 <= n < |Palette|
    ensures IndexOf(Palette, Palette[n]) == n
  {
    assert Palette[0] == None;
    assert Palette[1].value[0] == 'c';
    assert Palette[2].value[0] == 'b';
    assert Palette[3].value[0] == 'o';
    assert Palette[4].value[0] == 'y';
    assert Palette[5].value[0] == 'g';
    assert Palette[6].value[0] == 'p';
    assert Palette[7].value[0] == 'r';
    IndexOfFirst(Palette, Palette[n], n);
  }

  /** `IndexOf` finds the first occurrence. */
  lemma IndexOfFirst<V>(s: seq<V>, v: V, n: nat)
    requires n < |s| && s[n] == v
    requires forall k :: 0 <= k < n ==> s[k] != v
    ensures IndexOf(s, v) == n
  {
  }

  /** `Piece.getShape`: the spawn orientation of each kind, a matrix of at
      most 2 rows and 4 columns with an occupied cell in every row and column. */
  function GetShape(k: Kind): (s: Shape)
    ensures Spans(s) && Height(s) <= 2 && Width(s) <= 4
  {
    match k
    case I => var s := [[1, 1, 1, 1]];
      assert s[0][0] != 0 && s[0][1] != 0 && s[0][2] != 0 && s[0][3] != 0; s
    case J => var s := [[1, 0, 0], [1, 1, 1]];
      assert s[0][0] != 0 && s[1][0] != 0 && s[1][1] != 0 && s[1][2] != 0; s
    case L => var s := [[0, 0, 1], [1, 1, 1]];
      assert s[0][2] != 0 && s[1][0] != 0 && s[1][1] != 0 && s[1][2] != 0; s
    case O => var s := [[1, 1], [1, 1]];
      assert s[0][0] != 0 && s[0][1] != 0 && s[1][0] != 0 && s[1][1] != 0; s
    case S => var s := [[0, 1, 1], [1, 1, 0]];
      assert s[0][1] != 0 && s[0][2] != 0 && s[1][0] != 0 && s[1][1] != 0; s
    case T => var s := [[0, 1, 0], [1, 1, 1]];
      assert s[0][1] != 0 && s[1][0] != 0 && s[1][1] != 0 && s[1][2] != 0; s
    case Z => var s := [[1, 1, 0], [0, 1, 1]];
      assert s[0][0] != 0 && s[0][1] != 0 && s[1][1] != 0 && s[1][2] != 0; s
  }

  datatype Piece = Piece(kind: Kind, shape: Shape, x: int, y: int)

  /** `new Piece(type, ...)`: the spawn shape at x = 3, y = 0, which lies
      inside the grid for every kind. */
  function Spawn(k: Kind): (p: Piece)
    ensures p.kind == k && p.shape == GetShape(k) && p.x == 3 && p.y == 0
    ensures InGrid(p)
  {
    Piece(k, GetShape(k), 3, 0)
  }

  /** Every spawn shape is a tetromino: a rectangle of at most 2 x 4 cells
      with four occupied cells reaching every row and column. */
  lemma GetShapeIsTetromino(k: Kind)
    ensures var s := GetShape(k);
      Spans(s) && Height(s) <= 2 && Width(s) <= 4 && |Cells(s)| == 4
  {
    var s := GetShape(k);
    match k
    case I =>
      assert Cells(s) == {(0, 0), (0, 1), (0, 2), (0, 3)};
    case J =>
      assert Cells(s) == {(0, 0), (1, 0), (1, 1), (1, 2)};
    case L =>
      assert Cells(s) == {(0, 2), (1, 0), (1, 1), (1, 2)};
    case O =>
      assert Cells(s) == {(0, 0), (0, 1), (1, 0), (1, 1)};
    case S =>
      assert Cells(s) == {(0, 1), (0, 2), (1, 0), (1, 1)};
    case T =>
      assert Cells(s) == {(0, 1), (1, 0), (1, 1), (1, 2)};
    case Z =>
      assert Cells(s) == {(0, 0), (0, 1), (1, 1), (1, 2)};
  }

  /** `Piece.move`: translation without any check. */
  function Move(p: Piece, dx: int, dy: int): (q: Piece)
    ensures q.kind == p.kind && q.shape == p.shape
  {
    p.(x := p.x + dx, y := p.y + dy)
  }

  /** The reverse move undoes a move exactly, which is what every rejected
      translation relies on. */
  lemma MoveUndo(p: Piece, dx: int, dy: int)
    ensures Move(Move(p, dx, dy), -dx, -dy) == p
  {
  }

  /** A board cell `(cx, cy)` a piece may not occupy: left of column 0, right
      of the last column, below the last row, or already settled. Rows above
      the top are not guarded, so callers keep `cy >= 0`. */
  predicate Blocked(b: Board, cx: int, cy: int)
    requires IsBoard(b) && cy >= 0
  {
    cx < 0 || cx >= Cols || cy >= Rows || b[cy][cx] != 0
  }

  /** `Piece.collision(dx, dy)`: some occupied cell of the shape, shifted by
      (dx, dy), lands on a blocked cell. */
  predicate Collision(b: Board, p: Piece, dx: int, dy: int)
    requires IsBoard(b) && p.y + dy >= 0
  {
    exists i, j | 0 <= i < |p.shape| && 0 <= j < |p.shape[i]| ::
      p.shape[i][j] != 0 && Blocked(b, p.x + j + dx, p.y + i + dy)
  }

  /** A shifted piece is free exactly when every occupied cell lands inside
      the columns, above the floor, and on an empty board cell. */
  lemma NoCollisionIff(b: Board, p: Piece, dx: int, dy: int)
    requires IsBoard(b) && p.y + dy >= 0
    ensures !Collision(b, p, dx, dy) <==> forall i, j :: Occupies(p.shape, i, j) ==>
      0 <= p.x + j + dx < Cols && p.y + i + dy < Rows && b[p.y + i + dy][p.x + j + dx] == 0
  {
    if !Collision(b, p, dx, dy) {
      forall i, j | Occupies(p.shape, i, j)
        ensures 0 <= p.x + j + dx < Cols && p.y + i + dy < Rows && b[p.y + i + dy][p.x + j + dx] == 0
      {
        assert !Blocked(b, p.x + j + dx, p.y + i + dy);
      }
    } else {
      var i, j :| 0 <= i < |p.shape| && 0 <= j < |p.shape[i]| &&
        p.shape[i][j] != 0 && Blocked(b, p.x + j + dx, p.y + i + dy);
      assert Occupies(p.shape, i, j);
    }
  }

  /** `Piece.collision` as written: scan the shape row by row and return at
      the first occupied cell whose shifted position is blocked. */
  method CollisionScan(b: Board, p: Piece, dx: int, dy: int) returns (hit: bool)
    requires IsBoard(b) && p.y + dy >= 0
    ensures hit <==> exists i, j :: Occupies(p.shape, i, j) && Blocked(b, p.x + j + dx, p.y + i + dy)
    ensures hit == Collision(b, p, dx, dy)
  {
    var s := p.shape;
    var i := 0;
    while i < |s|
      invariant 0 <= i <= |s|
      invariant forall i', j' :: 0 <= i' < i && Occupies(s, i', j') ==> !Blocked(b, p.x + j' + dx, p.y + i' + dy)
    {
      var j := 0;
      while j < |s[i]|
        invariant 0 <= j <= |s[i]|
        invariant forall i', j' :: 0 <= i' < i && Occupies(s, i', j') ==> !Blocked(b, p.x + j' + dx, p.y + i' + dy)
        invariant forall j' :: 0 <= j' < j && Occupies(s, i, j') ==> !Blocked(b, p.x + j' + dx, p.y + i + dy)
      {
        if s[i][j] != 0 {
          var nx := p.x + j + dx;
          var ny := p.y + i + dy;
          if nx < 0 || nx >= |b[0]| || ny >= |b| || b[ny][nx] != 0 {
            assert Occupies(s, i, j);
            return true;
          }
        }
        j := j + 1;
      }
      i := i + 1;
    }
    forall i', j' | 0 <= i' < |s| && 0 <= j' < |s[i']| && s[i'][j'] != 0
      ensures !Blocked(b, p.x + j' + dx, p.y + i' + dy)
    {
      assert Occupies(s, i', j');
    }
    return false;
  }

  /** The current piece lies in the grid: its shape spans its bounding box and
      the box sits inside the 20 x 10 board. */
  predicate InGrid(p: Piece)
  {
    && Spans(p.shape)
    && 0 <= p.x && p.x + Width(p.shape) <= Cols
    && 0 <= p.y && p.y + Height(p.shape) <= Rows
  }

  /** A piece in the grid has every occupied cell on the board, so the writes
      of `mergePiece` stay in range. */
  lemma InGridCells(p: Piece)
    requires InGrid(p)
    ensures forall i, j :: Occupies(p.shape, i, j) ==> 0 <= p.y + i < Rows && 0 <= p.x + j < Cols
  {
  }

  /** Without a collision at its own position a spanning piece is in the grid
      and covers only empty cells: the extreme rows and columns of its box
      hold occupied cells, and none of those is blocked. */
  lemma FitsWhenClear(b: Board, p: Piece)
    requires IsBoard(b) && Spans(p.shape) && p.y >= 0
    requires !Collision(b, p, 0, 0)
    ensures InGrid(p)
    ensures forall i, j :: Occupies(p.shape, i, j) ==> b[p.y + i][p.x + j] == 0
  {
    var s := p.shape;
    var w := Width(s);
    assert ColOccupied(s, 0);
    var i0 :| 0 <= i0 < |s| && 0 <= 0 < |s[i0]| && s[i0][0] != 0;
    assert !Blocked(b, p.x + 0 + 0, p.y + i0 + 0);
    assert ColOccupied(s, w - 1);
    var i1 :| 0 <= i1 < |s| && 0 <= w - 1 < |s[i1]| && s[i1][w - 1] != 0;
    assert !Blocked(b, p.x + (w - 1) + 0, p.y + i1 + 0);
    assert RowOccupied(s, |s| - 1);
    var j2 :| 0 <= j2 < |s[|s| - 1]| && s[|s| - 1][j2] != 0;
    assert !Blocked(b, p.x + j2 + 0, p.y + (|s| - 1) + 0);
    forall i, j | Occupies(s, i, j)
      ensures b[p.y + i][p.x + j] == 0
    {
      assert !Blocked(b, p.x + j + 0, p.y + i + 0);
    }
  }

  /** A half turn keeps the bounding box, so it keeps a piece in the grid. */
  lemma HalfTurnInGrid(p: Piece)
    requires InGrid(p)
    ensures InGrid(p.(shape := Rotate(Rotate(p.shape))))
  {
    RotateSpans(p.shape);
    RotateSpans(Rotate(p.shape));
    RotateTwice(p.shape);
  }

  /** A piece with an occupied cell that can still fall one row is above the
      last row, so repeated falling ends. */
  lemma FloorBelow(b: Board, p: Piece)
    requires IsBoard(b) && p.y >= 0 && Cells(p.shape) != {}
    requires !Collision(b, p, 0, 1)
    ensures p.y + 1 < Rows
  {
    var c :| c in Cells(p.shape);
    assert !Blocked(b, p.x + c.1 + 0, p.y + c.0 + 1);
  }

  /** The hard-drop loop of `handleKeyPress` (and `Piece.drop`): the piece
      falls row by row and stops at the first row from which it cannot fall
      further. Only `y` changes. */
  function Dropped(b: Board, p: Piece): (q: Piece)
    requires IsBoard(b) && p.y >= 0 && Cells(p.shape) != {}
    ensures q == p.(y := q.y) && q.y >= p.y
    ensures Collision(b, q, 0, 1)
    ensures forall k :: p.y <= k < q.y ==> !Collision(b, p.(y := k), 0, 1)
    ensures q.y > p.y ==> !Collision(b, q, 0, 0)
    ensures InGrid(p) ==> InGrid(q)
    decreases Rows - p.y
  {
    if Collision(b, p, 0, 1) then p
    else
      FloorBelow(b, p);
      var q := Dropped(b, p.(y := p.y + 1));
      assert q.y > p.y ==> q == p.(y := q.y - 1).(y := q.y);
      if InGrid(p) then FitsWhenClear(b, q); q else q
  }

  /** `Piece.drop` as written: a loop raising `y` while the row below is free. */
  method Drop(b: Board, p: Piece) returns (q: Piece)
    requires IsBoard(b) && p.y >= 0 && Cells(p.shape) != {}
    ensures q == Dropped(b, p)
  {
    q := p;
    while !Collision(b, q, 0, 1)
      invariant q == p.(y := q.y) && q.y >= p.y
      invariant Dropped(b, q) == Dropped(b, p)
      decreases Rows - q.y
    {
      FloorBelow(b, q);
      q := q.(y := q.y + 1);
    }
  }

  /** On the empty board an O dropped from its spawn position comes to rest
      with its top row at 18, its bottom row on the last board row. */
  lemma DropOOnEmptyBoard()
    ensures var b := CreateBoard();
      var p := Spawn(O);
      Cells(p.shape) != {} && Dropped(b, p).y == 18
  {
    var b := CreateBoard();
    var p := Spawn(O);
    assert (0, 0) in Cells(p.shape);
    var s := p.shape;
    assert s[1][0] != 0 && Blocked(b, p.x + 0 + 0, 18 + 1 + 1);
    assert Collision(b, p.(y := 18), 0, 1);
    forall k | 0 <= k < 18
      ensures !Collision(b, p.(y := k), 0, 1)
    {
      forall i, j | 0 <= i < |s| && 0 <= j < |s[i]| && s[i][j] != 0
        ensures !Blocked(b, p.x + j + 0, k + i + 1)
      {
      }
    }
  }

  /** The I piece turns from 1 x 4 to 4 x 1, and a second turn restores the
      spawn matrix. */
  lemma RotateIPiece()
    ensures Rotate(GetShape(I)) == [[1], [1], [1], [1]]
    ensures Rotate(Rotate(GetShape(I))) == GetShape(I)
  {
    var r := Rotate(GetShape(I));
    forall i | 0 <= i < 4
      ensures r[i] == [1]
    {
      assert |r[i]| == 1;
    }
    var r2 := Rotate(r);
    assert |r2| == 1 && |r2[0]| == 4;
    assert r2[0] == [1, 1, 1, 1];
  }

  /** The turn is counter-clockwise on screen: the L, whose nub is at the top
      right, turns so that the nub column becomes the top row, reaching left. */
  lemma RotateLPiece()
    ensures Rotate(GetShape(L)) == [[1, 1], [0, 1], [0, 1]]
  {
    var r := Rotate(GetShape(L));
    assert |r| == 3 && |r[0]| == 2 && |r[1]| == 2 && |r[2]| == 2;
    assert r[0] == [1, 1];
    assert r[1] == [0, 1];
    assert r[2] == [0, 1];
  }
}
