/** The `Tetris` class of tetris.js without its canvas work: the game state,
    `mergePiece`, the key commands of `handleKeyPress` and the gravity step of
    `update`. Every transition is a pure function of the state; the kind that
    `randomPiece` would draw next is an input (`drawn`). */
module Engine {
  import opened Grid
  import opened Shapes
  import opened Pieces

  datatype Game = Game(board: Board, current: Piece, next: Piece, score: nat, playing: bool)

  /** The values of `event.key` that `handleKeyPress` distinguishes. */
  datatype Key = ArrowLeft | ArrowRight | ArrowDown | ArrowUp | Space | OtherKey

  /** What drives the engine: a key press, or a gravity step of `update` once
      the drop counter has passed the drop interval. Either may merge the
      current piece, and then `drawn` is the kind drawn for the new next piece. */
  datatype Event = KeyPress(key: Key, drawn: Kind) | GravityStep(drawn: Kind)

  /** What every reachable state satisfies: a 20 x 10 board holding palette
      indices, a current piece inside the grid, and a next piece still at its
      spawn position in its spawn shape. */
  predicate Inv(g: Game)
  {
    && IsBoard(g.board) && ValidCells(g.board)
    && InGrid(g.current)
    && g.next == Spawn(g.next.kind)
  }

  /** The `Tetris` constructor: an empty board, two sampled pieces, score 0,
      playing. */
  function NewGame(first: Kind, second: Kind): (g: Game)
    ensures Inv(g) && g.playing && g.score == 0
    ensures !Collision(g.board, g.current, 0, 0)
  {
    Game(CreateBoard(), Spawn(first), Spawn(second), 0, true)
  }

  /** The board with `colour` written under each occupied cell of shape `s`
      placed with its top-left cell at column `x`, row `y`. */
  function Paint(b: Board, s: Shape, x: int, y: int, colour: int): Board
    requires IsBoard(b)
  {
    seq(Rows, r requires 0 <= r < Rows =>
      seq(Cols, c requires 0 <= c < Cols =>
        if Occupies(s, r - y, c - x) then colour else b[r][c]))
  }

  /** The first half of `mergePiece`: the piece's colour index written under
      each of its occupied cells. */
  function Place(b: Board, p: Piece): (w: Board)
    requires IsBoard(b) && InGrid(p)
    ensures IsBoard(w) && (ValidCells(b) ==> ValidCells(w))
    ensures forall i, j :: Occupies(p.shape, i, j) ==>
      0 <= p.y + i < Rows && 0 <= p.x + j < Cols && w[p.y + i][p.x + j] == ColourIndex(p.kind)
    ensures forall r, c :: 0 <= r < Rows && 0 <= c < Cols && !Occupies(p.shape, r - p.y, c - p.x) ==>
      w[r][c] == b[r][c]
  {
    var colour := ColourIndex(p.kind);
    InGridCells(p);
    PaintAt(b, p.shape, p.x, p.y, colour);
    PaintValid(b, p.shape, p.x, p.y, colour);
    Paint(b, p.shape, p.x, p.y, colour)
  }

  /** Painting as seen from the shape: each occupied shape cell's board
      cell holds the colour, and a board cell under no occupied cell keeps
      its value. */
  lemma PaintAt(b: Board, s: Shape, x: int, y: int, colour: int)
    requires IsBoard(b)
    requires forall i, j :: Occupies(s, i, j) ==> 0 <= y + i < Rows && 0 <= x + j < Cols
    ensures forall i, j :: Occupies(s, i, j) ==> Paint(b, s, x, y, colour)[y + i][x + j] == colour
    ensures forall r, c :: 0 <= r < Rows && 0 <= c < Cols && !Occupies(s, r - y, c - x) ==>
      Paint(b, s, x, y, colour)[r][c] == b[r][c]
  {
    var w := Paint(b, s, x, y, colour);
    forall i, j | Occupies(s, i, j)
      ensures w[y + i][x + j] == colour
    {
      assert Occupies(s, (y + i) - y, (x + j) - x);
    }
  }

  /** The cell `(r, c)` lies under an occupied cell of `s` (placed at `x`,
      `y`) in a shape row before `i`, or in shape row `i` before column `j`. */
  predicate WrittenBefore(s: Shape, x: int, y: int, r: int, c: int, i: int, j: int)
  {
    Occupies(s, r - y, c - x) && (r - y < i || (r - y == i && c - x < j))
  }

  /** `w` is `b` with `colour` written under the shape cells before shape
      row `i`, column `j`. */
  predicate PartlyPainted(b: Board, w: Board, s: Shape, x: int, y: int, colour: int, i: int, j: int)
    requires IsBoard(b)
  {
    && IsBoard(w)
    && forall r, c :: 0 <= r < Rows && 0 <= c < Cols ==>
         w[r][c] == (if WrittenBefore(s, x, y, r, c, i, j) then colour else b[r][c])
  }

  /** One iteration of the inner writing loop at an occupied cell. */
  lemma PaintStep(b: Board, w: Board, s: Shape, x: int, y: int, colour: int, i: int, j: int)
    requires IsBoard(b) && 0 <= i < |s| && 0 <= j < |s[i]| && s[i][j] != 0
    requires 0 <= y + i < Rows && 0 <= x + j < Cols
    requires PartlyPainted(b, w, s, x, y, colour, i, j)
    ensures PartlyPainted(b, w[y + i := w[y + i][x + j := colour]], s, x, y, colour, i, j + 1)
  {
    var w' := w[y + i := w[y + i][x + j := colour]];
    forall r, c | 0 <= r < Rows && 0 <= c < Cols
      ensures w'[r][c] == (if WrittenBefore(s, x, y, r, c, i, j + 1) then colour else b[r][c])
    {
      if r == y + i && c == x + j {
        assert WrittenBefore(s, x, y, r, c, i, j + 1);
      } else {
        assert w'[r][c] == w[r][c];
      }
    }
  }

  /** One iteration of the inner writing loop at an empty cell. */
  lemma PaintSkip(b: Board, w: Board, s: Shape, x: int, y: int, colour: int, i: int, j: int)
    requires IsBoard(b) && 0 <= i < |s| && 0 <= j < |s[i]| && s[i][j] == 0
    requires PartlyPainted(b, w, s, x, y, colour, i, j)
    ensures PartlyPainted(b, w, s, x, y, colour, i, j + 1)
  {
    forall r, c | 0 <= r < Rows && 0 <= c < Cols
      ensures WrittenBefore(s, x, y, r, c, i, j) == WrittenBefore(s, x, y, r, c, i, j + 1)
    {
    }
  }

  /** The end of a shape row is the start of the next one. */
  lemma PaintRowDone(b: Board, w: Board, s: Shape, x: int, y: int, colour: int, i: int)
    requires IsBoard(b) && 0 <= i < |s|
    requires PartlyPainted(b, w, s, x, y, colour, i, |s[i]|)
    ensures PartlyPainted(b, w, s, x, y, colour, i + 1, 0)
  {
    forall r, c | 0 <= r < Rows && 0 <= c < Cols
      ensures WrittenBefore(s, x, y, r, c, i, |s[i]|) == WrittenBefore(s, x, y, r, c, i + 1, 0)
    {
    }
  }

  /** The writing loops of `mergePiece` as written: one assignment per
      occupied shape cell, for a shape whose occupied cells all lie on the
      board. The colour lands in exactly the cells under occupied cells;
      every other cell keeps its value. */
  method PaintCells(b: Board, s: Shape, x: int, y: int, colour: int) returns (w: Board)
    requires IsBoard(b)
    requires forall i, j :: Occupies(s, i, j) ==> 0 <= y + i < Rows && 0 <= x + j < Cols
    ensures IsBoard(w)
    ensures forall r, c :: 0 <= r < Rows && 0 <= c < Cols ==>
      w[r][c] == (if Occupies(s, r - y, c - x) then colour else b[r][c])
    ensures w == Paint(b, s, x, y, colour)
  {
    w := b;
    var i := 0;
    while i < |s|
      invariant 0 <= i <= |s|
      invariant PartlyPainted(b, w, s, x, y, colour, i, 0)
    {
      var j := 0;
      while j < |s[i]|
        invariant 0 <= j <= |s[i]|
        invariant PartlyPainted(b, w, s, x, y, colour, i, j)
      {
        if s[i][j] != 0 {
          assert Occupies(s, i, j);
          PaintStep(b, w, s, x, y, colour, i, j);
          w := w[y + i := w[y + i][x + j := colour]];
        } else {
          PaintSkip(b, w, s, x, y, colour, i, j);
        }
        j := j + 1;
      }
      PaintRowDone(b, w, s, x, y, colour, i);
      i := i + 1;
    }
    PaintedAll(b, w, s, x, y, colour);
  }

  /** After the last shape row the partly painted board is the painted one. */
  lemma PaintedAll(b: Board, w: Board, s: Shape, x: int, y: int, colour: int)
    requires IsBoard(b) && PartlyPainted(b, w, s, x, y, colour, |s|, 0)
    ensures forall r, c :: 0 <= r < Rows && 0 <= c < Cols ==>
      w[r][c] == (if Occupies(s, r - y, c - x) then colour else b[r][c])
    ensures w == Paint(b, s, x, y, colour)
  {
    var q := Paint(b, s, x, y, colour);
    forall r, c | 0 <= r < Rows && 0 <= c < Cols
      ensures w[r][c] == q[r][c]
    {
      assert WrittenBefore(s, x, y, r, c, |s|, 0) == Occupies(s, r - y, c - x);
    }
    forall r | 0 <= r < Rows
      ensures w[r] == q[r]
    {
      assert |w[r]| == |q[r]|;
    }
  }

  /** Writing a piece keeps the board's shape and its cells in the palette. */
  lemma PaintValid(b: Board, s: Shape, x: int, y: int, colour: int)
    requires IsBoard(b) && 0 <= colour < PaletteSize
    ensures IsBoard(Paint(b, s, x, y, colour))
    ensures ValidCells(b) ==> ValidCells(Paint(b, s, x, y, colour))
  {
  }

  /** `mergePiece`: write the piece, clear lines (adding 10 per cleared row
      to the score), promote the next piece, spawn a new next piece of kind
      `drawn`, and stop playing if the promoted piece collides where it
      stands. */
  function Merge(g: Game, drawn: Kind): (r: Game)
    requires Inv(g)
    ensures Inv(r)
    ensures r.board == ClearLines(Place(g.board, g.current)).0
    ensures forall i :: 0 <= i < Rows ==> !Full(r.board[i])
    ensures r.score == g.score + 10 * FullCount(Place(g.board, g.current))
    ensures r.current == g.next && r.next == Spawn(drawn)
    ensures r.playing <==> g.playing && !Collision(r.board, g.next, 0, 0)
  {
    var placed := Place(g.board, g.current);
    PaintValid(g.board, g.current.shape, g.current.x, g.current.y, ColourIndex(g.current.kind));
    ClearLinesSpec(placed);
    var (cleared, lines) := ClearLines(placed);
    var over := Collision(cleared, g.next, 0, 0);
    Game(cleared, g.next, Spawn(drawn), g.score + lines * 10, if over then false else g.playing)
  }

  /** Attempt-then-revert for the Left and Right translations: the piece moves to a position without a collision, or ends
      exactly where it was. Its shape never changes, and it stays in the grid. */
  function TryMove(b: Board, p: Piece, dx: int, dy: int): (q: Piece)
    requires IsBoard(b) && p.y + dy >= 0
    ensures q.kind == p.kind && q.shape == p.shape
    ensures Collision(b, Move(p, dx, dy), 0, 0) ==> q == p
    ensures !Collision(b, Move(p, dx, dy), 0, 0) ==>
      q.x == p.x + dx && q.y == p.y + dy && !Collision(b, q, 0, 0)
    ensures InGrid(p) ==> InGrid(q)
  {
    var q := Move(p, dx, dy);
    if Collision(b, q, 0, 0) then
      Move(q, -dx, -dy)
    else
      if InGrid(p) then FitsWhenClear(b, q); q else q
  }

  /** `rotate()` and, on a collision, the second `rotate(-1)`, whose argument
      is ignored: an accepted turn is a counter-clockwise quarter turn without a
      collision; a rejected one leaves the piece at the same position turned
      by half, in the same bounding box. Either way it stays in the grid. */
  function RotateOrRevert(b: Board, p: Piece): (r: Piece)
    requires IsBoard(b) && InGrid(p)
    ensures r.kind == p.kind && r.x == p.x && r.y == p.y && InGrid(r)
    ensures !Collision(b, p.(shape := Rotate(p.shape)), 0, 0) ==>
      r.shape == Rotate(p.shape) && !Collision(b, r, 0, 0)
    ensures Collision(b, p.(shape := Rotate(p.shape)), 0, 0) ==>
      && r.shape == Rotate(Rotate(p.shape))
      && Height(r.shape) == Height(p.shape) && Width(r.shape) == Width(p.shape)
      && forall i, j :: 0 <= i < Height(p.shape) && 0 <= j < Width(p.shape) ==>
           r.shape[i][j] == p.shape[Height(p.shape) - 1 - i][Width(p.shape) - 1 - j]
  {
    var q := p.(shape := Rotate(p.shape));
    if Collision(b, q, 0, 0) then
      HalfTurnInGrid(p);
      RotateTwice(p.shape);
      q.(shape := Rotate(q.shape))
    else
      RotateSpans(p.shape);
      FitsWhenClear(b, q);
      q
  }

  /** The board and piece of the rejected-rotation counterexample: a T at
      its spawn position, with settled cells at row 2, column 4 (where the
      quarter turn would reach) and at row 0, column 3 (where the half turn
      reaches). */
  function OverlapBoard(): Board
  {
    CreateBoard()[0 := ZeroRow[3 := 1]][2 := ZeroRow[4 := 1]]
  }

  /** On the counterexample board the T at its spawn position is clear. */
  lemma OverlapSpawnClear()
    ensures IsBoard(OverlapBoard()) && !Collision(OverlapBoard(), Spawn(T), 0, 0)
  {
    var b := OverlapBoard();
    var p := Spawn(T);
    forall i, j | 0 <= i < |p.shape| && 0 <= j < |p.shape[i]| && p.shape[i][j] != 0
      ensures !Blocked(b, p.x + j + 0, p.y + i + 0)
    {
    }
  }

  /** On the counterexample board the quarter-turned T reaches row 2, column 4. */
  lemma OverlapQuarterCollides()
    ensures IsBoard(OverlapBoard())
    ensures Collision(OverlapBoard(), Spawn(T).(shape := Rotate(Spawn(T).shape)), 0, 0)
  {
    var b := OverlapBoard();
    var q := Spawn(T).(shape := Rotate(Spawn(T).shape));
    assert q.shape[2][1] != 0 && Blocked(b, q.x + 1 + 0, q.y + 2 + 0);
  }

  /** As written, a rejected rotation can leave the piece overlapping a
      settled cell: the T does not collide where it stands, its quarter turn
      does, and the half-turned shape it is left with does too. */
  lemma RejectedRotationOverlaps()
    ensures var b := OverlapBoard();
      var p := Spawn(T);
      && IsBoard(b) && InGrid(p)
      && !Collision(b, p, 0, 0)
      && Collision(b, p.(shape := Rotate(p.shape)), 0, 0)
      && RotateOrRevert(b, p).shape != p.shape
      && Collision(b, RotateOrRevert(b, p), 0, 0)
  {
    OverlapSpawnClear();
    OverlapQuarterCollides();
    var b := OverlapBoard();
    var p := Spawn(T);
    var r := RotateOrRevert(b, p);
    assert r.shape == Rotate(Rotate(p.shape));
    assert r.shape[0][0] != 0 && Blocked(b, r.x + 0 + 0, r.y + 0 + 0);
    assert r.shape[0][0] != p.shape[0][0];
  }

  /** The rotation command with the literal inverse as its undo: a rejected
      quarter turn is followed by three more, which restore the original
      matrix exactly. The piece then never ends on a colliding position it
      did not start from. */
  function RotateOrUndo(b: Board, p: Piece): (r: Piece)
    requires IsBoard(b) && InGrid(p)
    ensures InGrid(r)
    ensures Collision(b, p.(shape := Rotate(p.shape)), 0, 0) ==> r == p
    ensures !Collision(b, p.(shape := Rotate(p.shape)), 0, 0) ==>
      r.shape == Rotate(p.shape) && r == p.(shape := r.shape)
    ensures !Collision(b, p, 0, 0) ==> !Collision(b, r, 0, 0)
  {
    var q := p.(shape := Rotate(p.shape));
    if Collision(b, q, 0, 0) then
      RotateFour(p.shape);
      q.(shape := Rotate(Rotate(Rotate(q.shape))))
    else
      RotateSpans(p.shape);
      FitsWhenClear(b, q);
      q
  }

  /** On the counterexample board the corrected command leaves the T exactly
      as it was, clear of the settled cells. */
  lemma RejectedRotationUndone()
    ensures var b := OverlapBoard();
      var p := Spawn(T);
      && IsBoard(b) && InGrid(p)
      && RotateOrUndo(b, p) == p
      && !Collision(b, RotateOrUndo(b, p), 0, 0)
  {
    RejectedRotationOverlaps();
  }

  /** The Down step shared by the ArrowDown key and gravity: move one row
      down, or, if that collides, put the piece back and merge it. */
  function DownOrMerge(g: Game, drawn: Kind): (r: Game)
    requires Inv(g)
    ensures Inv(r)
    ensures !Collision(g.board, Move(g.current, 0, 1), 0, 0) ==>
      r == g.(current := Move(g.current, 0, 1))
    ensures Collision(g.board, Move(g.current, 0, 1), 0, 0) ==> r == Merge(g, drawn)
  {
    var q := Move(g.current, 0, 1);
    if Collision(g.board, q, 0, 0) then
      Merge(g.(current := Move(q, 0, -1)), drawn)
    else
      FitsWhenClear(g.board, q);
      g.(current := q)
  }

  /** The space key: fall until the next row is blocked, then merge the
      piece where it stopped. */
  function HardDrop(g: Game, drawn: Kind): (r: Game)
    requires Inv(g)
    ensures Inv(r)
    ensures r.current == g.next && r.next == Spawn(drawn)
    ensures Cells(g.current.shape) != {} &&
      r == Merge(g.(current := Dropped(g.board, g.current)), drawn)
  {
    SpansHasCell(g.current.shape);
    var q := Dropped(g.board, g.current);
    if q.y > g.current.y then FitsWhenClear(g.board, q); Merge(g.(current := q), drawn)
    else Merge(g.(current := q), drawn)
  }

  /** `handleKeyPress`: while playing, dispatch on the key; otherwise ignore
      it. Every command keeps the invariant, so the current piece never leaves
      the grid, and the score never decreases. */
  function Step(g: Game, key: Key, drawn: Kind): (r: Game)
    requires Inv(g)
    ensures Inv(r)
    ensures !g.playing ==> r == g
    ensures r.score >= g.score
  {
    if !g.playing then g
    else
      match key
      case ArrowLeft => g.(current := TryMove(g.board, g.current, -1, 0))
      case ArrowRight => g.(current := TryMove(g.board, g.current, 1, 0))
      case ArrowDown => DownOrMerge(g, drawn)
      case ArrowUp => g.(current := RotateOrRevert(g.board, g.current))
      case Space => HardDrop(g, drawn)
      case OtherKey => g
  }

  /** The gravity step of `update`. No animation frame is requested once
      `isPlaying` is false, so gravity only acts on a running game. */
  function Gravity(g: Game, drawn: Kind): (r: Game)
    requires Inv(g)
    ensures Inv(r)
    ensures !g.playing ==> r == g
    ensures r.score >= g.score
  {
    if g.playing then DownOrMerge(g, drawn) else g
  }

  function Apply(g: Game, e: Event): (r: Game)
    requires Inv(g)
    ensures Inv(r)
    ensures !g.playing ==> r == g
    ensures r.score >= g.score
  {
    match e
    case KeyPress(key, drawn) => Step(g, key, drawn)
    case GravityStep(drawn) => Gravity(g, drawn)
  }

  /** A run of events: the invariant holds throughout, the score never
      decreases, and a game that is over stays exactly as it is. */
  function Run(g: Game, events: seq<Event>): (r: Game)
    requires Inv(g)
    ensures Inv(r)
    ensures r.score >= g.score
    ensures !g.playing ==> r == g
    decreases |events|
  {
    if |events| == 0 then g
    else Run(Apply(g, events[0]), events[1..])
  }

  /** Whatever keys are pressed and whatever kinds are drawn, every occupied
      cell of the current piece lies on the 20 x 10 board, so the writes of
      `mergePiece` are always in range. */
  lemma ReachableInGrid(first: Kind, second: Kind, events: seq<Event>)
    ensures var g := Run(NewGame(first, second), events);
      && IsBoard(g.board) && ValidCells(g.board)
      && forall i, j :: Occupies(g.current.shape, i, j) ==>
           0 <= g.current.y + i < Rows && 0 <= g.current.x + j < Cols
  {
    var g := Run(NewGame(first, second), events);
    InGridCells(g.current);
  }
}
