# Falling-block game engine of tetris.js, modelled in Dafny

This project models the game-state engine of `tetris.js`. The board is a
20 x 10 grid of integers. A cell holds 0 when it is empty, or the colour index
1..7 of a settled cell. The current piece has a kind from "ILJOTSZ", a shape
matrix and the board offset of the matrix's top-left cell. The game also keeps
a next piece waiting at its spawn position, a score and an `isPlaying` flag.

The model has four modules:

- `Grid` (grid.dfy): the board, `createBoard`, and `clearLines`. `clearLines`
  appears twice. The reference definition drops the full rows and puts as many
  empty rows on top. The bottom-up index loop of the source, which re-examines
  the same row after a splice, is proved equal to it.
- `Shapes` (shapes.dfy): shape matrices and `rotate`, which is transpose and
  then row reversal.
- `Pieces` (pieces.dfy): kinds, colours, `getShape`, the spawn position,
  `move`, `collision` and `drop`.
- `Engine` (engine.dfy): the state, `mergePiece`, the key commands of
  `handleKeyPress`, the gravity step of `update`, and runs of events.

All state is immutable. A command is a function from one state to the next.
The kind that `Math.random` would pick for a new next piece is an input to
each event.

The main invariant is `Engine.Inv`. It holds in the initial state and after
every key command and gravity step. It says the board stays 20 x 10 with cells
in 0..7, and the current piece's bounding box stays inside the grid. The box
of every tetromino has an occupied cell in each of its rows and columns, so
every occupied cell of the piece is on the board. This is why the writes of
`mergePiece` never go out of range.

Where the code behaves in a way that looks unintended, the model follows the code.

- A rejected rotation is undone with `rotate(-1)`. But `rotate` takes no
  argument, so this call makes a second quarter turn instead of undoing the
  first. The piece is left turned by half (see Findings).
- The gravity step in `update` does not test `isPlaying` itself. But no
  animation frame is requested once `isPlaying` is false. So in the model,
  gravity only acts on a running game.

## Model

| member | source | states |
|---|---|---|
| Grid.CreateBoard | tetris.js:27-29 | the new board is 20 x 10, with every cell 0 and inside the palette |
| Grid.ClearLines | tetris.js:157-172 | the reference meaning of `clearLines` keeps the number of rows, removes at most that many, and leaves no full row |
| Grid.RowFull | tetris.js:159-163 | the left-to-right cell scan, which stops at the first 0, says a row is full if and only if none of its cells is 0 |
| Grid.ClearLinesScan | tetris.js:157-170 | the bottom-up scan (splice the full row, put an emptied row on top, look at the same index again) ends with exactly the full rows removed, the other rows in order, that many empty rows on top, and their number as the count |
| Grid.ClearLinesSpec | tetris.js:159-169 | clearing keeps the board 20 x 10 and inside the palette, leaves no full row, counts the full rows it removed, and puts exactly that many empty rows above the kept rows |
| Grid.KeptMembers | tetris.js:159-166 | a row survives clearing if and only if it was on the board and has an empty cell |
| Grid.KeptConcat | tetris.js:166-167 | the kept rows of two stacked parts are the kept rows of each part, in order, so rows keep their relative order |
| Grid.KeptLength | tetris.js:166-168 | kept rows plus removed rows add up to the rows scanned, so the board keeps its height |
| Grid.ClearLinesIdempotent | tetris.js:157-172 | calling it again at once removes no row and adds 0 to the score, leaving the board unchanged |
| Shapes.Rotate | tetris.js:203-205 | an h x w matrix becomes a w x h matrix with `new[i][j] = old[j][w-1-i]` |
| Shapes.RotateFour | tetris.js:203-205 | four quarter turns give back exactly the original matrix |
| Shapes.RotateTwice | tetris.js:57-61 | two quarter turns keep the dimensions and mirror every cell through the centre |
| Shapes.RotateCells | tetris.js:204 | the occupied cells of the turned matrix are exactly the turned positions of the original occupied cells |
| Shapes.RotateKeepsCount | tetris.js:204 | a quarter turn keeps the number of occupied cells |
| Shapes.RotateSpans | tetris.js:204 | a quarter turn keeps an occupied cell in every row and column of the box |
| Shapes.QuarterTurnCard | tetris.js:204 | turning a set of cells is injective, so the set keeps its size |
| Shapes.SpansHasCell | tetris.js:207-211 | a shape with every row occupied has an occupied cell, which the drop loop needs in order to end |
| Pieces.IndexOf | tetris.js:33 | JavaScript `indexOf`: -1 exactly when the value is absent, otherwise the first position that holds it |
| Pieces.ColourIndex | tetris.js:144 | the value written for a kind is a palette slot in 1..7 whose letter in "ILJOTSZ" is the kind's |
| Pieces.ColourIndexIsLookup | tetris.js:33 | that slot is what the source computes: `colors.indexOf` of the colour `colors[pieces.indexOf(type) + 1]` the piece was created with |
| Pieces.PaletteDistinct | tetris.js:9-11 | the colours are distinct, so looking one up gives back its slot |
| Pieces.GetShape | tetris.js:186-196 | every spawn matrix has at most 2 rows and 4 columns and an occupied cell in every row and column |
| Pieces.GetShapeIsTetromino | tetris.js:186-196 | every spawn shape has at most 2 rows and 4 columns, exactly four occupied cells, and an occupied cell in every row and column |
| Pieces.Spawn | tetris.js:177-184 | a new piece has the requested kind and its spawn matrix, and at x = 3, y = 0 it lies inside the grid for every kind |
| Pieces.Move | tetris.js:198-201 | moving changes neither kind nor shape |
| Pieces.MoveUndo | tetris.js:41-53 | the reverse move puts the piece back exactly where it was |
| Pieces.NoCollisionIff | tetris.js:213-225 | `Pieces.Collision`, the query the engine uses, reports no collision exactly when every occupied cell, shifted by (dx, dy), lands in a column 0..9 and a row up to 19, on a board cell holding 0 |
| Pieces.CollisionScan | tetris.js:213-225 | the loop's answer equals `Pieces.Collision`; it is true if and only if some occupied cell, shifted by (dx, dy), is left of column 0, right of column 9, below row 19, or on a nonzero board cell. Rows above the top are never checked, so the caller must keep `y + dy >= 0` |
| Pieces.FitsWhenClear | tetris.js:213-225 | with no collision at (0, 0), a piece whose rows and columns are all occupied lies in the grid, and every occupied cell is over an empty board cell |
| Pieces.InGridCells | tetris.js:144 | a piece inside the grid has all its occupied cells on the 20 x 10 board |
| Pieces.HalfTurnInGrid | tetris.js:57-61 | a half turn keeps the bounding box, so it keeps an in-grid piece in the grid |
| Pieces.FloorBelow | tetris.js:207-211 | a piece that can still fall one row is above the last row, so falling ends (row 20 is a floor) |
| Pieces.Dropped | tetris.js:62-66 | a hard drop changes only y, never decreases it, and stops at the first row where `collision(0, 1)` holds. Every row passed on the way was free, the final position does not collide, and a piece in the grid stays in the grid |
| Pieces.Drop | tetris.js:207-211 | the `drop` loop ends at the same position as the hard drop |
| Pieces.DropOOnEmptyBoard | tetris.js:63-65 | on the empty board an O spawned at (3, 0) comes to rest at y = 18 |
| Pieces.RotateLPiece | tetris.js:203-205 | the L spawn matrix turns into `[[1, 1], [0, 1], [0, 1]]`, so with row 0 at the top of the screen the turn is counter-clockwise |
| Pieces.RotateIPiece | tetris.js:188 | the I piece turns into a 4 x 1 matrix, and a second turn restores the 1 x 4 spawn matrix |
| Engine.NewGame | tetris.js:7-18 | the initial game satisfies the invariant, is playing, has score 0, and its first piece does not collide |
| Engine.Place | tetris.js:141-147 | the piece's colour index is written under every occupied cell of its shape, every other cell keeps its value, and the board stays 20 x 10 inside the palette |
| Engine.PaintCells | tetris.js:141-147 | the writing loops put the colour index into exactly the cells under occupied cells, and every other cell keeps its value |
| Engine.PaintedAll | tetris.js:141-147 | after the last shape row, the written board is the painted board |
| Engine.PaintValid | tetris.js:141-147 | writing a colour in 0..7 keeps the board 20 x 10 and inside the palette |
| Engine.Merge | tetris.js:140-155 | after a merge: the board is the written board (`Engine.Place`) with its full rows cleared (`Grid.ClearLines`), the invariant holds, no row is full, the score rises by exactly 10 per full row of the written board, the former next piece is current, a newly drawn piece is next, and play stops exactly when the promoted piece collides at (0, 0) |
| Engine.TryMove | tetris.js:40-49 | Left and Right either move one column to a position without a collision, or leave the piece exactly as it was. The shape never changes and the piece stays in the grid |
| Engine.RotateOrRevert | tetris.js:57-61 | an accepted rotation is a quarter turn without a collision. A rejected one leaves the piece half-turned at the same position, with the same dimensions. In both cases the piece stays in the grid |
| Engine.DownOrMerge | tetris.js:50-56 | Down moves one row to a position without a collision and leaves the board and score alone. If that row collides, the piece is merged where it was |
| Engine.HardDrop | tetris.js:62-67 | the space key always merges, and merges the piece at the row where the drop loop stops (`Pieces.Dropped`): the next piece becomes current and the invariant holds |
| Engine.Step | tetris.js:38-71 | every key command keeps the invariant and never lowers the score. While not playing, a key changes nothing |
| Engine.Gravity | tetris.js:82-89 | the gravity step keeps the invariant, never lowers the score, and does nothing to a game that is over |
| Engine.Apply | tetris.js:22-25 | one key press or gravity step keeps the invariant and never lowers the score |
| Engine.Run | tetris.js:97-99 | over any sequence of events the invariant holds, the score never decreases, and a game that is over stays exactly as it is |
| Engine.ReachableInGrid | tetris.js:144 | in every state reached from a new game, the board is 20 x 10 inside the palette and every occupied cell of the current piece is on the board |
| Engine.RejectedRotationOverlaps | tetris.js:60 | as written, a rejected rotation can leave the piece on a settled cell (a concrete board and T piece) |
| Engine.RotateOrUndo | tetris.js:57-61 | with the literal inverse as the undo, a rejected rotation restores the piece exactly, and a piece that did not collide still does not |
| Engine.RejectedRotationUndone | tetris.js:57-61 | on the counterexample board, the corrected command leaves the T unchanged and without a collision |

## Left out

- Drawing and DOM work are not modelled, because they are rendering only: the canvases, `drawBoard`, `drawPiece`, `drawNextPiece`, `drawScore`, the score text, the key listener registration and the game-over `alert`.
- `Math.random` is not modelled. Each event carries the kind that `randomPiece` would draw (`drawn`).
- Time is not modelled, because timestamps are floating point: `requestAnimationFrame`, `lastTime`, `dropCounter` and `dropInterval`. Gravity is a discrete event equal to the down-or-merge step of `update`. The `update()` call after each key press, with a time of 0 that makes `deltaTime` negative, is part of this timing and is not modelled either.
- Engine.Step: does not model that Down and the space key reset `dropCounter`, because the drop counter is timing state.
- `togglePause` and `isPaused` are not modelled, because nothing ever reads them.
- The Play button handler and the second game instance on `DOMContentLoaded` are not modelled, because they are UI wiring.
- Piece objects hold a reference to the board. The model passes the board explicitly instead. `clearLines` changes the board array in place, so every piece always sees the current board, which is what passing it explicitly gives.
- Pieces.Collision: requires `y + dy >= 0`, for the reason given on the next line.
- Pieces.CollisionScan: requires `y + dy >= 0`. Above the top, the source would read `board[-1]` and throw. The invariant keeps `y >= 0`, and the source only calls `collision` with `dy` of 0 or 1, so this never happens.
- Engine.PaintCells: requires every occupied cell to lie on the board. Otherwise the source would throw (a row below the last), grow a row past 10 cells (a column right of the last), or set a non-index property of the row array (a negative column), none of which the model represents. `Engine.ReachableInGrid` shows this never happens.
- The model does not prove that the current piece never overlaps settled cells, because that property is false: see `Engine.RejectedRotationOverlaps`.
- Shapes and cells are integers. The source only ever stores integers there.

## Findings

| source | as written | input that shows it | evidently intended | confidence | as-written member | corrected member |
|---|---|---|---|---|---|---|
| tetris.js:60 | `rotate(-1)` ignores its argument, so it turns the shape a second quarter turn | a T at spawn (3, 0) with settled cells at row 2, column 4 and at row 0, column 3. The quarter turn collides, and the piece is left half-turned on the settled cell at row 0, column 3 | a rejected rotation restores the original shape, and the piece never rests on a settled cell | not executed | Engine.RejectedRotationOverlaps | Engine.RotateOrUndo |

`Engine.Step` uses the rotation command as written (`Engine.RotateOrRevert`), because the model describes what the program does. The in-grid invariant holds under either command. `Engine.RotateOrUndo` is the corrected command, with the intended property proved.
