# Tic-tac-toe negamax solver, modelled in Dafny

The modelled program solves tic-tac-toe positions by exhaustive negamax
search. A position is a 3×3 board of markers (0 empty, 1 noughts, 2 crosses),
the player to move, the number of moves played and a cached game state:
in progress, drawn, or lost for the player to move with a score that
depends on how early the loss came. Positions are built from a move
notation ("TPGN"): a string of row/column digit pairs such as `"001122"`,
replayed from the empty board; `position.rs` also accepts `"R"` for the
empty board. The solver returns the negamax value of the position in
the range -3..3 (a win, a draw or a loss, scored by how soon the loss
falls), and `position.rs` counts the positions the search visits.

The repository holds the same engine twice. `src/position.rs` (used by
`src/lib.rs`) computes the loss score as `(moves + 2) / 2 - 6`;
`src/main.rs` computes it as `(moves + 1) / 2 - 6` and has no `"R"`
notation. The model keeps both formulas, as the datatype `ScoreFormula`
(`HalfPlusOne` for `position.rs`, `HalfRoundedUp` for `main.rs`), and
proves how they relate instead of merging them. A line takes at least five
moves, so a loss scores -3..-1 under both formulas
(`Game.LostScoreRange`).

Modules:

- `players.dfy` — `Players`: the player and its board marker (`src/player.rs`).
- `boards.dfy` — `Boards`: the board, marker counts, the board update and
  the winning lines.
- `game.dfy` — `Game`: the shared specification: loss scores, the state
  of a board (`Classify`/`StateOf`) and the imperative line scan that
  computes it, well-formed positions, moves (`Next`), notation replay
  (`Replay`), and the negamax value and node count of a position with
  the lemma that the value is the best reply.
- `positions.dfy` — `Positions`: the `position.rs` operations as methods
  proved against `Game`.
- `standalone.dfy` — `Standalone`: the `main.rs` operations.
- `solver.dfy` — `Solver`: `solve` and `negamax` of `lib.rs`.
- `position_tests.dfy` — `PositionTests`: the unit tests of `position.rs`
  stated as lemmas about the model, including the negamax test's value
  and node count.

A position is `Valid` when its board holds only markers, the noughts count
is `(moves + 1) / 2`, the crosses count is `moves / 2`, the player to move
follows the parity of the move count, and the cached state equals the
state computed from the board. The fields of the Rust `Position` are
private, so every position the program can hold is built by `new`,
`from_tpgn` and `play`; `New`, `Next` and `FromNotation` are proved to
yield valid positions, and the search operations require validity.

## Model

| member | source | states |
|---|---|---|
| Players.AsInt | src/player.rs:7-12 | the marker of a player is 1 or 2, never the empty marker 0 |
| Players.AsIntInjective | src/position.rs:10-15 | the two players have different markers |
| Boards.UpdateBoard | src/position.rs:103-108 | the chosen cell holds the mover's marker and every other cell is unchanged |
| Boards.CountAfterUpdate | src/position.rs:103-108 | filling an empty cell lowers the empty count by one and raises the mover's count by one, other counts unchanged |
| Boards.CountsPartition | src/position.rs:25-30 | on a board of markers the empty, nought and cross counts add up to nine |
| Boards.LineNeedsThree | src/position.rs:121-179 | a board with a completed line holds at least three of that marker |
| Game.LossScore | src/position.rs:118 | for 1 to 9 moves played the loss score lies in -5..-1 |
| Game.LossScoreMonotone | src/position.rs:118 | a loss after fewer moves never scores higher than a later one, under both formulas |
| Game.FormulasDifferOnEvenMoves | src/main.rs:90 | the main.rs formula equals the position.rs one except that it is one lower after an even number of moves |
| Game.FormulasAgreeUnlessEvenLoss | src/main.rs:89-159 | the two files classify a board the same, except exactly when the board is lost after an even number of moves |
| Game.ScanLines | src/position.rs:121-186 | the column, row and diagonal scans return Lost with the given score iff the opponent holds a full line, else Drawn at nine moves, else InProgress |
| Game.MovesCountOccupiedCells | src/position.rs:25-30 | in a well-formed position the move counter equals the number of occupied cells |
| Game.New | src/position.rs:33-40 | the empty board, noughts to move, no moves, in progress, and valid under both formulas |
| Game.SwitchPlayer | src/position.rs:110-115 | the result is the other player |
| Game.CanPlay | src/position.rs:77-83 | defined for on-board cells only (x < 3 and y < 3); a move is legal only in a game in progress and, in a well-formed position, only while fewer than nine moves have been played |
| Game.TryPlay | src/position.rs:85-101 | `play` succeeds exactly on an on-board playable cell; a success adds one move, passes the turn, and keeps a well-formed position valid |
| Game.Next | src/position.rs:85-101 | the cell gets the mover's marker, no other cell changes, the turn passes, the count rises by one, the state is recomputed from the new board for the mover, and validity is kept |
| Game.PlayKeepsWellFormed | src/position.rs:85-101 | a legal move keeps the board made of markers and the marker counts matching the move count |
| Game.TurnAlternates | src/position.rs:110-115 | switching the player keeps noughts on even move counts and crosses on odd ones |
| Game.InProgressHasMove | src/position.rs:200-213 | a valid position in progress has fewer than nine moves and at least one playable cell |
| Game.LostScoreRange | src/position.rs:117-118 | a valid lost position has at least five moves and a score in -3..-1 |
| Game.Replay | src/position.rs:61-72 | replays the digit pairs one move at a time; a replay that succeeds consumed an even number of characters and added one move per pair |
| Game.ReplayKeepsValid | src/position.rs:59-74 | a replay that succeeds from a valid position ends in a valid position |
| Game.ReplayStep | src/position.rs:61-72 | replaying a digit pair that names a playable cell is playing that cell and replaying the rest |
| Game.NonDigitRejected | src/position.rs:64-69 | any non-digit character makes the replay fail |
| Game.NegamaxValue | src/position.rs:190-216 | the negamax value of a valid position lies in -3..3 |
| Game.NodeCount | src/position.rs:190-191 | the search visits at least the position itself, and only it when the game is over |
| Game.BestFromBounds | src/position.rs:203-213 | the running best score from cell (x, y) on is at least minus the value of every legal reply at or after that cell |
| Game.BestFromAttained | src/position.rs:203-213 | the running best score is either its starting value or minus the value of some legal reply at or after the cell |
| Game.NegamaxIsBestReply | src/position.rs:201-215 | the value of a position in progress is at least minus the value of every legal reply and equals it for some reply |
| Positions.GetState | src/position.rs:117-187 | the state is the classification of the board against the opponent's marker with the loss score (moves + 2) / 2 - 6 |
| Positions.Play | src/position.rs:85-101 | play succeeds iff the cell is on the board and playable, and then yields the next position under the position.rs formula |
| Positions.FromNotation | src/position.rs:42-75 | "R" gives the new position; other odd or over-long notations fail; a successful result is valid with one move per digit pair |
| Positions.FromTpgn | src/position.rs:42-75 | the loop over digit pairs computes exactly the replay of the notation, failing exactly where `from_tpgn` panics |
| Positions.Negamax | src/position.rs:190-216 | returns the negamax value of the position and advances the counter by the number of positions searched; 0 when drawn, the loss score when lost |
| Standalone.GetState | src/main.rs:89-159 | the state is the classification of the board with the loss score (moves + 1) / 2 - 6 |
| Standalone.Play | src/main.rs:57-73 | play succeeds iff the cell is on the board and playable, and then yields the next position under the main.rs formula |
| Standalone.FromNotation | src/main.rs:20-47 | odd or over-long notations fail; a successful result is valid with one move per digit pair |
| Standalone.FromTpgn | src/main.rs:20-47 | the loop computes exactly the replay of the notation from the empty board |
| Standalone.Solve | src/main.rs:195-219 | returns the negamax value under the main.rs formula; 0 when drawn, the loss score when lost |
| Solver.Negamax | src/lib.rs:17-41 | returns the negamax value under the position.rs formula; 0 when drawn, the loss score when lost |
| Solver.Solve | src/lib.rs:11-15 | fails exactly when the notation is rejected, otherwise returns the negamax value of the parsed position, in -3..3 |
| PositionTests.ReplaysAlong | src/position.rs:61-72 | replaying a notation whose pairs walk a given line of positions lands where the line does |
| PositionTests.NotationFixture | src/position.rs:247-270 | the new position is the empty board with noughts to move, and "001122" yields exactly the board with that diagonal filled, crosses to move, three moves, in progress |
| PositionTests.BadNotationFixture | src/position.rs:272-276 | "0" is rejected |
| PositionTests.PlayFixture | src/position.rs:278-307 | playing a free cell gives the expected board and turn, and an occupied cell is refused |
| PositionTests.LossFixture | src/position.rs:309-314 | "0001110222" is lost for the player to move, with score -3 |
| PositionTests.DrawFixture | src/position.rs:316-321 | "001122012120021210" is drawn |
| PositionTests.NegamaxFixture | src/position.rs:323-332 | "00112201212002" has negamax value 0 and the search visits 5 positions |
| PositionTests.FormulaContrast | src/main.rs:90 | the same board lost after six moves scores -2 under position.rs and -3 under main.rs |

## Left out

- `explore_and_print` (src/position.rs:218-241), `main` (src/main.rs:183-193)
  and the `println!` of src/main.rs:45: console output only.
- Panics: a malformed notation, a non-digit, a digit above 2 (an index out
  of bounds in the source) and a move on an occupied or finished position
  all panic in the source; the model returns `None` instead and does not
  keep the panic message.
- Integer widths: the `u8` board cells and move counter, the `i8` scores and
  the `u32` node counter are modelled as unbounded integers. Moves stay at
  most 9 and scores within -6..3, so the first two cannot overflow; the
  wrap-around of the `u32` counter is not modelled.
- Game.CanPlay: defined for on-board cells only. On a lost or drawn
  position `can_play` returns false for any coordinate without reading
  the board; the model does not cover off-board coordinates there.
  `play` panics either way, and `TryPlay` checks the bounds first, so
  the modelled `play` is unaffected.
- Boards.UpdateBoard: the source copies the fixed-size board array and
  stores into the copy; the model builds the new board as a value, which
  is what the copy amounts to since the old board is never shared.
- `mod gamestate` of src/lib.rs:1: src/gamestate.rs is not part of this
  model; `Solver` uses the `GameState` declared in src/position.rs, which
  has the same three cases.
- The duplicate `Player` and `GameState` declarations of src/position.rs:3-23
  and src/main.rs:162-181 are modelled once, in `Players` and `Game`; the
  derived `Debug` and `PartialEq` (src/position.rs:3, src/position.rs:18,
  src/main.rs:176) are not modelled.
