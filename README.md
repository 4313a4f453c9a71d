# bevy_chess rules and turn flow in Dafny

This project models the game logic of bevy_chess, a two-player chess game built on the Bevy engine.

- `pieces.dfy` (module `Pieces`) models the chess pieces, the signed square delta `Manhatan`, the square-colour lookup, the path check, the move-legality rules of `is_move_valid`, and the 32-piece starting layout. This part of the source is pure, so it is modelled with datatypes, functions and lemmas.
- `board.dfy` (module `Board`) models the board plugin's systems. These update resources and components step by step, so they are modelled as a class `Game` with methods:
  - `select_squares` is `ApplyEvents`;
  - `select_piece` is `SelectPiece`;
  - `move_piece` is `MovePiece`;
  - `remove_taken_pieces` is `Sweep`;
  - the command buffer that lands at the end of a frame is `ApplyCommands`;
  - one frame of the four systems in their declared order is `Tick`.

The `Piece` components live in an `array<Piece>`, and the entity id of a piece is its index. Despawning removes the index from the `live` set. The piece query yields entities in index order.

A square is an `(x, y)` pair of coordinates in `0..7`. White starts on rows `x = 0, 1` and Black on rows `x = 6, 7`.

## Behaviour the model follows

- **Diagonal path check.** `is_path_empty` (src/pieces.rs:208-245) is documented as checking the path between two squares. Its row and column scans do check the squares strictly between. Its diagonal scan steps by `signum(x1 - x2)` and `signum(y1 - y2)`, which walks away from the target. The `as u8` casts wrap the negative coordinates it reaches.
  - The model keeps this behaviour (`Pieces.DiagonalClear`, `Pieces.AsU8`).
  - The contract of `Pieces.IsPathEmpty` states exactly which squares the scan does look at.
  - `Pieces.DiagonalBlockerIgnored` proves that a piece strictly between the two squares never blocks a bishop or queen move.
  - `Pieces.OpeningBishopPassesOwnPawn` shows a concrete case: from the opening position, White's bishop on (0, 2) may move to (2, 4) through White's own pawn on (1, 3).
- **Change flags.**
  - `squareChanged` records that `select_squares` wrote the selected square during this frame: a `JustSelected` event, or a `JustDeselected` for the selected square.
  - `pieceChanged` records that `select_piece` wrote the selected piece during this frame.
  - `move_piece` acts only when the square changed, the piece did not, and both are set (`Game.Attempting`). So a piece picked in one frame moves when a square is picked in a later frame.
- **Deferred removal.**
  - A `Taken` marker inserted by `move_piece` lands at the end of its frame (`queuedTaken` becomes part of `taken`).
  - `remove_taken_pieces` despawns the marked piece in the next frame, after that frame's `select_piece` and `move_piece` have run.
  - Between a capture and its removal, the capturer and the captured piece share a square. So `Game.SquaresDistinct` states unique positions for the live pieces not marked or queued for removal.
- **A selected piece can be despawned.** In the frame right after a capture, the captured piece has the colour now to move. If the picking layer delivers a `JustSelected` for that square in that frame, `select_piece` selects the captured piece. The same frame's removal then despawns it while it is still selected. In the next frame where a destination is picked, `move_piece` unwraps the lookup of a missing entity, which panics.
  - The model records this as the outcome `Panicked`.
  - `Board.CaptureThenPanic` proves that every capturing frame can be followed by two frames that end this way, given those selection events.
  - When the captured piece is a King, the removal frame also sends `AppExit`, and the application exits instead of running the frame that would panic. The model sets `gameOver` there and runs on, so the panic is reachable only after captures of other pieces.
  - The square was already picked by the capturing click. Whether `bevy_mod_picking` emits a `JustSelected` for an already-selected square is outside this model. So the panic is shown reachable from the systems' inputs, not from mouse clicks.

## Model

| member | source | states |
|---|---|---|
| Pieces.AsU8 | src/pieces.rs:234-237 | the `as u8` cast of an i8: non-negative values are kept, negative values wrap to value + 256 |
| Pieces.AsU8OffBoard | src/pieces.rs:234-237 | a wrapped coordinate that started off the board never names a square of the board |
| Pieces.Manhatan.From | src/pieces.rs:160-164 | the delta (x1 - x2, y1 - y2) of two board squares; adding it to the second square gives the first; both components lie in -7..7, so the i8 never overflows |
| Pieces.Manhatan.Abs | src/pieces.rs:166-170 | both components non-negative, each equal to the original component or its negation |
| Pieces.Manhatan.Max | src/pieces.rs:172-176 | the larger component: at least both, and equal to one of them |
| Pieces.Manhatan.Min | src/pieces.rs:178-182 | the smaller component: at most both, and equal to one of them |
| Pieces.Manhatan.Straight | src/pieces.rs:184-188 | true exactly when one component is zero |
| Pieces.Manhatan.Diagonal | src/pieces.rs:190-195 | true exactly when the components have equal magnitude (the zero delta included) |
| Pieces.ColorOfSquare | src/pieces.rs:198-206 | None exactly when no piece stands on the square; otherwise the colour of the first piece there in query order |
| Pieces.ColorOfSquareConcat | src/pieces.rs:198-206 | on a concatenation, the lookup finds the occupant of the front part if there is one, else the occupant of the back part |
| Pieces.OccupantColor | src/pieces.rs:198-206 | when no two pieces share a square, the colour found is the colour of the piece on it |
| Pieces.FixedXClear | src/pieces.rs:211-218 | true exactly when no piece with the given x lies strictly between the two y values (the case the source's comment calls same column) |
| Pieces.FixedYClear | src/pieces.rs:220-227 | true exactly when no piece with the given y lies strictly between the two x values (the case the source's comment calls same row) |
| Pieces.DiagonalClear | src/pieces.rs:229-242 | true exactly when none of the scanned steps, after the `as u8` casts, holds a piece |
| Pieces.IsPathEmpty | src/pieces.rs:208-245 | for squares sharing a row or a column: passes exactly when no piece lies strictly between them; for squares on a diagonal: passes exactly when no piece stands 1 to d - 1 steps (d the row distance) from the first square, in the direction away from the second |
| Pieces.DiagonalScanClear | src/pieces.rs:229-242 | the diagonal scan finds nothing exactly when no piece stands on a square it visits, whatever the `as u8` casts wrap |
| Pieces.DiagonalScanMissesBetween | src/pieces.rs:229-242 | no square the diagonal scan visits lies strictly between the two squares |
| Pieces.DiagonalBlockerIgnored | src/pieces.rs:229-242 | adding a piece strictly between two diagonal squares never changes the path check |
| Pieces.IsMoveValid | src/pieces.rs:79-152 | a valid move never targets a square whose first occupant has the mover's colour |
| Pieces.OwnColorTargetInvalid | src/pieces.rs:80-84 | for every kind: when no two pieces share a square, a target holding a piece of the mover's colour is invalid |
| Pieces.CannotStayInPlace | src/pieces.rs:80-84 | for every kind: a piece on the board can never move onto its own square |
| Pieces.KingMoves | src/pieces.rs:89-92 | a king's move is valid exactly when the target is not own-coloured and is one square away in any direction |
| Pieces.QueenMoves | src/pieces.rs:93-97 | a queen's move is valid exactly when the target is not own-coloured and either it is along a row or column with nothing strictly between, or it is along a diagonal with nothing on the scanned squares |
| Pieces.BishopMoves | src/pieces.rs:98-101 | a bishop's move is valid exactly when the target is not own-coloured and is on a diagonal whose scanned squares are empty |
| Pieces.KnightMoves | src/pieces.rs:102-106 | a knight's move is valid exactly when the target is not own-coloured and the delta is (±2, ±1) or (±1, ±2); other pieces matter only through the target's colour |
| Pieces.RookMoves | src/pieces.rs:107-110 | a rook's move is valid exactly when the target is not own-coloured and is along a row or column with nothing strictly between |
| Pieces.PawnMoves | src/pieces.rs:111-150 | a pawn's move is valid exactly in three cases (the target is never own-coloured): one row forward onto an empty square; two rows forward from the starting row (1 for White, 6 for Black) with both squares empty; or one row forward and one column sideways onto an occupied square |
| Pieces.PawnCapturesOpponent | src/pieces.rs:140-147 | a valid sideways pawn move lands on a square whose first occupant has the other colour |
| Pieces.StartingPiece | src/pieces.rs:272-478 | the i-th piece spawned: the first 16 are White on rows 0 and 1, the rest Black on rows 6 and 7; column i mod 8; pawns exactly on rows 1 and 6; every other piece has the back-row kind of its column (Rook, Knight, Bishop, Queen, King, Bishop, Knight, Rook) |
| Pieces.StartingLayout | src/pieces.rs:247-478 | 32 pieces on distinct squares: the first 16 White on rows 0 and 1, the last 16 Black on rows 6 and 7; the only kings are White's on (0, 4) and Black's on (7, 4) |
| Pieces.OpeningPawnDoubleStep | src/pieces.rs:128-138 | in the starting position, White's pawn on (1, 0) may advance to (3, 0) |
| Pieces.OpeningRookBlocked | src/pieces.rs:107-110 | in the starting position, White's rook on (0, 0) may not move to the empty square (3, 0), because White's pawn on (1, 0) lies strictly between |
| Pieces.OpeningBishopPassesOwnPawn | src/pieces.rs:229-242 | in the starting position, White's bishop on (0, 2) may move to (2, 4), although White's pawn on (1, 3) lies strictly between |
| Board.Toggled | src/board.rs:28-35 | toggling always changes the player to move |
| Board.ToggleInvolution | src/board.rs:28-35 | toggling twice gives back the player to move |
| Board.TurnName | src/board.rs:43-54 | the turn is displayed as "White" exactly for White and as "Black" exactly for Black |
| Board.SquareChangedWrites | src/board.rs:132-146 | the selected square is marked changed exactly when some event wrote the selection as it stood when that event arrived |
| Board.WritesSetsChanged | src/board.rs:132-146 | an event that wrote the selection as it stood when it arrived marks the square changed |
| Board.ChangedHasWriter | src/board.rs:132-146 | a square marked changed names the event that wrote it |
| Board.SelectionFromEvents | src/board.rs:132-146 | after the events, the selected square is the one before, None, or a square some JustSelected event named |
| Board.DeselectOtherIgnored | src/board.rs:139-144 | a JustDeselected for a square other than the selected one changes neither the selection nor its change flag |
| Board.Step | src/board.rs:132-146 | one event: a JustSelected selects its square; after a JustDeselected its square is not selected, and the selection is either kept or cleared; the selection changes only when the event writes it |
| Board.SelectSquares | src/board.rs:132-146 | the events in order: after a final JustSelected its square is selected; after a final JustDeselected its square is not |
| Board.SquareChanged | src/board.rs:132-146 | the selected square counts as changed whenever an event selected a square or the selection ends different from where it began |
| Board.DeselectTwice | src/board.rs:139-144 | a repeated JustDeselected has the same effect as a single one |
| Board.LiveColorOfSquare | src/board.rs:202-216 | on the snapshot `move_piece` collects, the square's colour is the colour of the first live entity there (the one it marks as taken), and None when there is no such entity |
| Board.UniqueMatch | src/board.rs:160-166 | when the live pieces stand on distinct squares, the lookup of a square can find only its one occupant |
| Board.LivePieces | src/board.rs:202 | the snapshot holds exactly the pieces of the live entities, and holds no more pieces than there are entities |
| Board.AllLive | src/board.rs:202 | with every entity live, the snapshot is the whole component table |
| Board.MovePreservesDistinct | src/board.rs:214-223 | moving a piece onto a square whose occupant (if any) is then removed keeps the live pieces on distinct squares |
| Board.Game.constructor | src/board.rs:14-41 | a new game has the starting layout, all 32 entities live, nothing selected or marked, and White to move |
| Board.Game.ApplyEvents | src/board.rs:122-147 | the selected square and its change flag after the events are those the selection function gives for the events in order |
| Board.Game.Snapshot | src/board.rs:202 | the snapshot `move_piece` collects holds exactly the pieces of the live entities, and holds no more pieces than there are entities |
| Board.Game.Attempting | src/board.rs:183-199 | `move_piece` gets past its four early returns only when both a square and a piece are selected |
| Board.Game.FindPiece | src/board.rs:160-166 | returns the first live entity on the square with the given colour (any colour when None), or None when there is none |
| Board.Game.SelectPiece | src/board.rs:149-173 | when the selected square changed: with a square and no piece yet, it selects the first piece of the player to move there (if any); with no square, it clears the piece; otherwise nothing changes; the selected piece always has the turn's colour |
| Board.Game.MovePiece | src/board.rs:175-233 | it does nothing unless the square changed this frame, the piece did not, and both are set; a despawned selected piece panics; otherwise the piece moves exactly when the move is valid on the live snapshot, and then the first live occupant of the target (of the other colour) is queued as taken and the turn passes; both selections are cleared whatever the verdict; distinct squares are preserved |
| Board.Game.Sweep | src/board.rs:235-248 | every marked entity is despawned and no marker remains; the game ends exactly when a king was among them |
| Board.Game.ApplyCommands | src/board.rs:217-219 | the Taken markers inserted during the frame land on their entities |
| Board.Game.Tick | src/board.rs:58-84 | one frame of the four systems in order keeps the game's invariants. A move is attempted exactly when the frame's events changed the selected square, left a square selected, and a piece was already selected before the frame. The attempt is made by that piece towards that square, and it moves exactly when the move is valid on the live snapshot. A move passes the turn and marks at most one opponent piece. A frame without an attempt leaves the selected square as the events set it, and the selected piece as it was unless the events changed the square: cleared when they left it empty, else the first live piece of the colour to move on that square when none was selected. The attempt panics exactly when the selected piece was despawned. A frame without a move changes no piece and no turn |
| Board.EndQuietTick | src/board.rs:235-248 | at the end of a frame with no marked piece, nothing is despawned and the game does not end |
| Board.StartingPawnLookup | src/board.rs:160-166 | in the starting position, the only White piece on (1, 0) is entity 8 |
| Board.StartingSnapshot | src/board.rs:202 | in the starting position, the snapshot is the starting layout |
| Board.SelectOpeningPawn | src/board.rs:122-173 | from the starting position, picking (1, 0) makes it the selected square and selects White's pawn there |
| Board.SelectOpeningTarget | src/board.rs:122-173 | with that pawn selected, dropping (1, 0) and picking (3, 0) selects the square and keeps the pawn selected |
| Board.PickOpeningPawn | src/board.rs:149-173 | from the starting position, picking (1, 0) selects White's pawn there and moves nothing |
| Board.AdvanceOpeningPawn | src/board.rs:175-233 | with that pawn selected, picking (3, 0) moves it there and passes the turn to Black |
| Board.OpeningPawnMove | src/board.rs:58-84 | a new game followed by those two frames leaves the pawn on (3, 0), Black to move and nothing selected |
| Board.ReselectTaken | src/board.rs:149-173 | right after a capture, a JustSelected for the capturer's square selects the captured piece, and that frame despawns it while it stays selected |
| Board.PickForDespawned | src/board.rs:214 | with a despawned piece selected, picking any square makes `move_piece` panic |
| Board.PanicAfterCapture | src/board.rs:214 | from the state right after a capture, those two frames end in a panic |
| Board.CaptureThenPanic | src/board.rs:214-218 | every frame that captures a piece can be followed by two frames ending in a panic, when the first of them delivers a JustSelected for the capturer's square (a captured King ends the application first) |

## Left out

- Rendering is not modelled: meshes, materials, the square highlighting of `create_board`, the `spawn_piece!` transforms, and the `move_pieces` animation.
- The turn text of `ui.rs` is not modelled; only the `Display` string it shows is (`Board.TurnName`).
- The window and plugin setup in `main.rs` is not modelled.
- `_select_squares` is not modelled, because nothing registers it.
- How `bevy_mod_picking` produces selection events is not modelled. A frame's `JustSelected` and `JustDeselected` events are an input sequence to `Tick`.
- Bevy's scheduler, queries and change detection are not modelled as such. The model uses the declared system order, index order for queries, and the two change flags described above.
- `AppExit` is modelled as the `gameOver` flag. The model does not stop at it: `Game.Tick` keeps running frames after `gameOver` is set, while the application exits.
- `despawn_recursive` also despawns a piece's child mesh entities. The children are meshes only, so despawning is modelled as removal from `live`.
- Coordinates are `0..7`. The source's `u8` fields can hold larger values, but no piece or square outside `0..7` is ever created.
- The `squares_query.get_mut(...).unwrap()` calls cannot fail, because a selected square is always one of the 64 squares. They are modelled as the `Square` value itself.
- Board.Game.SelectPiece: in the frame after a move attempt, `select_piece` also sees `selected_square.is_changed()` (src/board.rs:156). The cause is the clearing written by the previous frame's `move_piece` (src/board.rs:230). The model's `squareChanged` counts only this frame's events. If those events select a square, the source and the model take the same branch. If they leave the square None, `select_piece` runs `take()` (src/board.rs:170) on a piece selection that is already None. That marks `SelectedPiece` as changed, which the model's `pieceChanged` does not record. Both selections stay None either way, and that frame's `move_piece` returns early in both, because the selected square is None.
