# Game rules of three pygame games, modelled and verified in Dafny

This project models the game logic of three small games from *Making Games with
Python & Pygame*, without their drawing, sound and event handling:

- **Tetromino**. The board is a column-major grid of cells, each blank or a
  colour index. The model covers:
  - the falling piece, which is a 5x5 template at a position, a rotation and a
    colour;
  - collision checking;
  - committing a piece to the board;
  - line clearing;
  - the turn rules of the game loop: spawn and game over, sideways moves and
    their key repeat, rotation with revert, soft drop, hard drop, and gravity
    with locking and scoring;
  - the level formula.

  Files: `pieces.dfy`, `board.dfy` and `tetromino_game.dfy`.
- **Memory Puzzle**. A 10x7 board of icons (shape and colour) dealt in pairs.
  Each box is covered or revealed. The click-to-match state machine reveals
  boxes, covers a pair that does not match again, and deals a new board once
  every box is revealed. File: `memory_puzzle.dfy`.
- **Simulate** (a Simon game). The pattern grows by one button per round. The
  player repeats it step by step. A wrong button or a timeout restarts the
  game. File: `simulate.dfy`.

`options.dfy` holds the `Option` type the other files share.

The board's line clear is modelled the way the source does it: an in-place
bottom-up scan over a 2-D array. It is proved against a specification on row
sequences: `Compacted(rows)` is one blank row for every complete row, followed
by the incomplete rows in their original order. The returned count is the
number of rows that were complete before the call.

Random draws are parameters of the operations that make them: the piece's
shape, rotation and colour, the two shuffles that deal the Memory Puzzle board,
and the button Simulate appends. The elapsed-time tests of the game loops are
boolean parameters.

Two behaviours of the code are modelled as written, although one might expect otherwise:

- **Committing a piece above the board.** One might expect the commit to skip
  template cells above the board. `add_piece` (tetromino/tetromino/board.py:17-22)
  writes them anyway.
  - Python reads a negative index from the end of a list. So a cell at row -1
    is written into the bottom row, and likewise for columns.
  - `Boards.Board.AddPiece` models this with `PyIndex`.
  - An index below `-len` raises IndexError in the source, so the model
    requires `CommitInRange`.
  - When every filled cell is on the board proper, `Boards.Board.CoversOnBoard`
    shows that the commit writes exactly the template's cells.
- **Hard drop.** One might expect the hard drop to move the piece to the lowest
  position that fits. The code (tetromino/tetromino/game.py:132-135) probes only
  `1 .. height - 1` rows down and then moves the piece one row less than the
  last probe. When no probe collides, the piece therefore moves `height - 2`
  rows. This can leave it one row above its resting place, for example a piece
  whose lowest filled template row is 2, dropped from the spawn row onto an
  empty column. `Tetromino.Game.DropDistance` states this behaviour exactly.
  Short of that limit, `Tetromino.Game.HardDrop` proves that the piece comes to
  rest on something.

## Model

| member | source | states |
|---|---|---|
| `Pieces.CreateRandom` | tetromino/tetromino/piece.py:6-27 | A piece is a shape, a rotation, a position and a colour, over a 5x5 template. The piece has the drawn shape (a key of the table), rotation and colour, with colour in `[0, 4)`. Its template's middle column is the board's middle column. It starts above the board, with the template's middle row on row 0. |
| `Boards.PyIndex` | tetromino/tetromino/board.py:22 | A Python index `i` in `[-n, n)` picks element `i mod n` of a list of length `n`: negative indices count from the end. |
| `Boards.Board.constructor` | tetromino/tetromino/board.py:8-15 | A new board has `width` columns of `height` cells, all blank; read row by row it is `height` blank rows. |
| `Boards.Board.IsOnBoard` | tetromino/tetromino/board.py:24-25 | `(x, y)` is on the board iff `0 <= x < width` and `y < height`; rows above the top are not excluded. |
| `Boards.Board.IsValidPosition` | tetromino/tetromino/board.py:27-38 | True iff no filled template cell whose row is not above the board is off the board or on a non-blank cell. A cell above the board is skipped, whatever its column. |
| `Boards.Board.AddPiece` | tetromino/tetromino/board.py:17-22 | Exactly the cells written by a filled template cell take the piece's colour, including through Python's negative-index wrap; every other cell keeps its old value. The new rows are `Committed(piece)`. |
| `Boards.Board.CoversStep` | tetromino/tetromino/board.py:19-22 | Scanning one template cell adds exactly the one grid cell it writes to the cells written so far. |
| `Boards.Board.CoversOnBoard` | tetromino/tetromino/board.py:17-22 | If every filled cell lies on the board with row >= 0, the commit writes grid cell `(i, j)` iff template cell `(i - x, j - y)` is filled. |
| `Boards.Board.IsCompleteLine` | tetromino/tetromino/board.py:40-45 | True iff no cell of row `y` is blank. |
| `Boards.Board.PullDown` | tetromino/tetromino/board.py:55-60 | Removes row `y`: the rows above move down one row, and a blank row comes in on top. |
| `Boards.Board.RemoveCompleteLines` | tetromino/tetromino/board.py:47-67 | The board becomes `Compacted(old rows)`: one blank row per complete row, then the incomplete rows in order. The result is the number of complete rows before the call. |
| `Boards.KeptSize` | tetromino/tetromino/board.py:47-67 | Kept rows plus complete rows make up all rows, so clearing keeps the board's height. |
| `Boards.KeptRowsAreIncomplete` | tetromino/tetromino/board.py:47-67 | Every row kept by a clear is one of the old rows and is not complete. |
| `Boards.PrependBlankRow` | tetromino/tetromino/board.py:58-60 | On a board with at least one column, a blank row entering on top is not complete and is kept as it is. |
| `Boards.CompactedShape` | tetromino/tetromino/board.py:47-67 | After a clear the board has the same dimensions and no complete row. |
| `Boards.CompactedNoComplete` | tetromino/tetromino/board.py:47-67 | A board with no complete row is left unchanged by a clear, so clearing is idempotent. |
| `Boards.ClearStep` | tetromino/tetromino/board.py:53-64 | Removing a complete row while the scan stays on the same index keeps the target board the same and takes one off the complete rows still to find. |
| `Boards.SkipStep` | tetromino/tetromino/board.py:65-66 | Moving the scan up past an incomplete row keeps the target board and the count the same. |
| `Tetromino.Level` | tetromino/tetromino/game.py:238-241 | The level is at least 1 and is the `l` with `10(l - 1) <= score < 10l`, that is `score div 10 + 1`. |
| `Tetromino.LevelMonotone` | tetromino/tetromino/game.py:241 | A higher score never gives a lower level. |
| `Tetromino.FallIntervalCentis` | tetromino/tetromino/game.py:242 | The fall interval drops by 2 hundredths of a second per level and is not positive from level 14 on. |
| `Tetromino.FallIntervalShrinks` | tetromino/tetromino/game.py:241-242 | A higher score never gives a longer fall interval. |
| `Tetromino.RotationRoundTrip` | tetromino/tetromino/game.py:109-118 | For `0 <= r < n`, both `(r + 1) mod n` and `(r - 1) mod n` lie in `[0, n)`, and turning back restores exactly `r`. |
| `Tetromino.FullTurn` | tetromino/tetromino/game.py:109-118 | Turning a shape with `n` rotation states `n` times, clockwise or counter-clockwise, gives back the starting state, and fewer than `n` turns never do. |
| `Tetromino.Game.constructor` | tetromino/tetromino/game.py:35-42 | A new game has a blank board of the given size, score 0, no held keys and no pieces yet. |
| `Tetromino.Game.Reset` | tetromino/tetromino/game.py:44-52 | A fresh blank board of the same size, score 0 and no held keys; the pieces are untouched. |
| `Tetromino.Game.Start` | tetromino/tetromino/game.py:60-63 | Two spawned pieces: the first in play, the second next. |
| `Tetromino.Game.Spawn` | tetromino/tetromino/game.py:66-73 | With no piece in play, the next piece comes into play, the drawn piece becomes next, and the game is over iff the new piece does not fit. With a piece in play nothing changes. |
| `Tetromino.Game.KeyUp` | tetromino/tetromino/game.py:77-92 | Releasing left, right or down clears exactly that key's held flag; other keys, pause included, change no state. |
| `Tetromino.Game.MoveLeft` | tetromino/tetromino/game.py:96-100 | If the piece fits one column left, its `x` drops by 1, left is held and right released; otherwise nothing changes. A piece that fitted still fits. |
| `Tetromino.Game.MoveRight` | tetromino/tetromino/game.py:102-106 | The mirror image of MoveLeft. |
| `Tetromino.Game.RotateClockwise` | tetromino/tetromino/game.py:109-113 | The rotation becomes `(r + 1) mod n` if the piece fits that way; otherwise the piece is exactly as before. The rotation stays a valid index. |
| `Tetromino.Game.RotateCounterClockwise` | tetromino/tetromino/game.py:114-118 | The same with `(r - 1) mod n`. |
| `Tetromino.Game.SoftDrop` | tetromino/tetromino/game.py:121-125 | Down becomes held; the piece moves down one row iff it fits there. |
| `Tetromino.Game.DropDistance` | tetromino/tetromino/game.py:132-134 | The distance `d` lies in `[0, height - 2]`. The piece fits at every offset `1..d`. If `d < height - 2`, it collides at `d + 1`. This is the last probed offset minus one. |
| `Tetromino.Game.HardDrop` | tetromino/tetromino/game.py:128-135 | Releases all held keys and moves the piece down by DropDistance and nothing else. Short of the probe limit the piece rests on something; a fitting piece still fits. |
| `Tetromino.Game.RepeatSideways` | tetromino/tetromino/game.py:138-143 | When the repeat timer fires with left or right held, the piece moves left if left is held and it fits there, else right under the same conditions; otherwise it stays. |
| `Tetromino.Game.RepeatSoftDrop` | tetromino/tetromino/game.py:145-147 | When down is held and its timer fires, the piece moves down one row iff it fits there. |
| `Tetromino.Game.GravityTick` | tetromino/tetromino/game.py:150-161 | The piece lands iff the timer fired and it does not fit one row down. Otherwise it moves down one row if the timer fired, and the board and score are unchanged. On landing, the board is the commit followed by the line clear, the score grows by the number of complete rows, no piece is in play, and no row is complete. The score never decreases. |
| `MemoryPuzzle.HasWon` | memorypuzzle/memorypuzzle/game.py:251-257 | True iff every box of every column is revealed. |
| `MemoryPuzzle.GenerateRevealedBoxesData` | memorypuzzle/memorypuzzle/game.py:106-110 | `BOARDWIDTH` columns of `BOARDHEIGHT` copies of `val`; the player has won on it iff `val`. |
| `MemoryPuzzle.IconsInMembers` | memorypuzzle/memorypuzzle/game.py:116-117 | One colour's icons are exactly that colour in each shape. |
| `MemoryPuzzle.IconProduct` | memorypuzzle/memorypuzzle/game.py:114-117 | The icon list has `|colors| * |shapes|` entries, and an icon is in it iff its colour and its shape are. |
| `MemoryPuzzle.AllIcons` | memorypuzzle/memorypuzzle/game.py:114-117 | The loops build every shape in every colour, colour by colour. |
| `MemoryPuzzle.FillBoard` | memorypuzzle/memorypuzzle/game.py:124-132 | A 10x7 board with `board[x][y] = icons[x*7 + y]`; its columns concatenated are the first 70 icons. |
| `MemoryPuzzle.GetRandomizedBoard` | memorypuzzle/memorypuzzle/game.py:112-132 | A 10x7 board dealt from the second shuffle, column-major. Each icon appears on it twice as often as among the first 35 icons of the first shuffle. |
| `MemoryPuzzle.IconProductCounts` | memorypuzzle/memorypuzzle/game.py:114-117 | With no repeated colour or shape, no icon is built twice. |
| `MemoryPuzzle.EachIconTwice` | memorypuzzle/memorypuzzle/game.py:119-132 | With no repeated colour or shape, every icon on a dealt board occurs exactly twice. |
| `MemoryPuzzle.SplitIntoGroupsOf` | memorypuzzle/memorypuzzle/game.py:134-140 | For `g > 0` the groups concatenate back to the list. Every group has 1 to `g` items, every group but the last has exactly `g`, and there are `ceil(|L| / g)` groups. A negative `g` gives no groups. |
| `MemoryPuzzle.AppendGroup` | memorypuzzle/memorypuzzle/game.py:138-139 | Appending the next slice extends the concatenation of the groups by that slice. |
| `MemoryPuzzle.LeftTopCoordsOfBox` | memorypuzzle/memorypuzzle/game.py:142-146 | Every box of the board is drawn entirely inside the 640x480 window. |
| `MemoryPuzzle.BoxesApart` | memorypuzzle/memorypuzzle/game.py:142-146 | Two different boxes are at least one box and one gap apart, horizontally or vertically, so they never overlap. |
| `MemoryPuzzle.GetShapeAndColor` | memorypuzzle/memorypuzzle/game.py:178-181 | The shape and the colour of the icon in the box. |
| `MemoryPuzzle.SameShapeAndColor` | memorypuzzle/memorypuzzle/game.py:76-79 | Two boxes have the same shape and colour iff they hold the same icon. |
| `MemoryPuzzle.CoverPair` | memorypuzzle/memorypuzzle/game.py:71-84 | Revealing a covered box and then covering it and the first selection again leaves only the first selection covered; nothing else changes. |
| `MemoryPuzzle.Game.constructor` | memorypuzzle/memorypuzzle/game.py:12-42 | A dealt board with every box covered and no selection. The board/icon-count assertion is a precondition. |
| `MemoryPuzzle.Game.Click` | memorypuzzle/memorypuzzle/game.py:64-100 | A revealed box ignores the click. A covered box is revealed and becomes the first selection if none is pending. Otherwise the pair is resolved: a mismatch covers the first box again and leaves the clicked one covered; a match keeps both revealed, or deals a new all-covered board when that wins. The selection is cleared. The selection is always a revealed box. |
| `Simulate.Game.constructor` | simulate/simulate/game.py:12-19 | An empty pattern, step 0, score 0, not waiting. |
| `Simulate.Game.Step` | simulate/simulate/game.py:85-117 | One frame, equal to `Next`. Not waiting: the drawn button is appended and the game waits. The right button advances one step, and the last step scores, resets the step and stops waiting. A wrong button, or a timeout after the first step, restarts the game. Anything else changes nothing. `|pattern| = score + (waiting ? 1 : 0)` holds throughout, with the step inside the pattern. |
| `Simulate.Next` | simulate/simulate/game.py:85-117 | The same frame on values; it keeps the invariant. |
| `Simulate.Replay` | simulate/simulate/game.py:96-107 | A run of correct or wrong presses with no timeout keeps the invariant. |
| `Simulate.FinishRound` | simulate/simulate/game.py:96-107 | Pressing the rest of the pattern correctly ends the round: same pattern, step 0, score plus one, and the next frame plays the pattern again. |
| `Simulate.PartialRoundDoesNotScore` | simulate/simulate/game.py:96-100 | From the start of a round, pressing the first `k < |pattern|` buttons correctly only advances the step to `k`. |
| `Simulate.ReplaySnoc` | simulate/simulate/game.py:96-107 | Replaying one more press is one more frame. |

## Left out

- Drawing, fonts, the display, the animations, sound and music, and pygame's event queue and clock are not modelled. Each key or click reaches the model as a call of the matching operation.
- Wall-clock timing is not modelled: the sideways, soft-drop and fall timers of Tetromino and the input timeout of Simulate are boolean inputs. So are the pause screen and its timer restarts, which is why the pause key changes no modelled state.
- Randomness is not modelled. The piece's shape, rotation and colour are parameters restricted to their ranges. The Memory Puzzle shuffles are parameters constrained to be reorderings (equal multisets) of the lists the source shuffles. Simulate's appended button is a parameter. The random background colour of Simulate is left out, since it is drawing only.
- The piece template table `piece_templates.py` is not part of this model. It is a parameter: each shape maps to a non-empty list of 5x5 templates, with '.' for blank.
- The Memory Puzzle palette and shape lists (`colors.py`, `shapes.py`) are not part of this model. They are parameters. `MemoryPuzzle.EachIconTwice` assumes that neither list repeats an entry.
- The fall interval `0.27 - 0.02 * level` is a float in the source. It is modelled in whole hundredths of a second, which ignores floating-point rounding.
- Pixel hit-testing (`getBoxAtPixel`, `getButtonClicked`) uses `pygame.Rect.collidepoint` and is not modelled. The clicked box or button is an input. A click outside every box, which changes nothing, is not modelled either.
- Several presses in one frame are not modelled separately in Simulate. The source's event loop (simulate/simulate/game.py:71-83, 218-227) keeps only the outcome of the frame's last click or q/w/a/s key. A click that misses every button leaves no button, even after a key press earlier in the frame. So `Simulate.Game.Step` takes at most one button (`None` for no button), and the earlier presses of that frame are lost, as in the source.
- In Memory Puzzle the event loop likewise keeps only the last mouse position of a frame, a later motion included, and a flag saying that some click happened (memorypuzzle/memorypuzzle/game.py:53-64). So several clicks in one frame act as one click on the box under the last position; `MemoryPuzzle.Game.Click` is that one click.
- The entry scripts (`tetromino.py`, `memorypuzzle.py`, `simulate.py`) and the quit and escape handling are glue.
- Tetromino's window and margin computations (`x_margin`, `top_margin`) only position the drawing and are not modelled.
- Boards.Board.AddPiece: requires every filled cell's indices to lie in Python's range `[-len, len)`. Outside it the source raises IndexError.
- Boards.Board.RemoveCompleteLines: requires at least one column (or no rows). On a board with no columns every row is complete and the source's scan never ends.
- Tetromino.Game.GravityTick: inherits both requirements above, and requires them only when the tick lands the piece.
- Tetromino.Game.HardDrop: requires a board at least two rows high. With fewer rows the source's probe loop is empty and its counter is never bound (NameError).
- The falling piece is modelled as a value that each operation replaces. The source mutates the Piece object in place, but nothing else refers to it, so the model loses no aliasing.
- MemoryPuzzle.SplitIntoGroupsOf: requires a non-zero group size. With a size of 0 the source's `range` raises ValueError; the game itself only passes 8.
