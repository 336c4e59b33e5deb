/**
 * What src/position.rs and src/main.rs share line for line: the game state, the position value,
 * legality of a move, the scan for a completed line, and the reference definitions that the
 * per-file operations are proved against. The two files differ only in the loss score formula,
 * which is the `ScoreFormula` parameter here.
 */
module Game {
  import opened Players
  import opened Boards

  datatype Option<T> = None | Some(value: T)

  datatype GameState = InProgress | Lost(score: int) | Drawn

  /** The two loss score formulas found in the repository. */
  datatype ScoreFormula =
    | HalfPlusOne    // (moves_played + 2) / 2 - 6, in src/position.rs
    | HalfRoundedUp  // (moves_played + 1) / 2 - 6, in src/main.rs

  /** The score of the player who has just been beaten after `moves` moves. */
  function LossScore(f: ScoreFormula, moves: nat): (s: int)
    ensures 1 <= moves <= 9 ==> -5 <= s <= -1
  {
    match f
    case HalfPlusOne => (moves + 2) / 2 - 6
    case HalfRoundedUp => (moves + 1) / 2 - 6
  }

  /** A later loss never scores worse than an earlier one, so the search prefers to delay a loss. */
  lemma LossScoreMonotone(f: ScoreFormula, m: nat, n: nat)
    requires m <= n
    ensures LossScore(f, m) <= LossScore(f, n)
  {
  }

  /** The two formulas agree after an odd number of moves and differ by one after an even number. */
  lemma FormulasDifferOnEvenMoves(m: nat)
    ensures LossScore(HalfPlusOne, m) == LossScore(HalfRoundedUp, m) + (if m % 2 == 0 then 1 else 0)
  {
  }

  /** A position: board, player to move, moves played so far, and the state cached when it was made. */
  datatype Position = Position(board: Board, player: Player, movesPlayed: nat, state: GameState)

  /** The classification of `get_state`, once the loss score has been computed. */
  function Classify(b: Board, opponentVal: int, movesPlayed: nat, lossScore: int): GameState {
    if HasLine(b, opponentVal) then Lost(lossScore)
    else if movesPlayed == 9 then Drawn
    else InProgress
  }

  /** The state `get_state` assigns when `opponent` has just moved and `movesPlayed` moves are on the board. */
  function StateOf(f: ScoreFormula, b: Board, opponent: Player, movesPlayed: nat): GameState {
    Classify(b, AsInt(opponent), movesPlayed, LossScore(f, movesPlayed))
  }

  /** Only the marker of the player who has just moved is checked: the states under the two formulas
      agree exactly when that player has no line or an odd number of moves has been played. */
  lemma FormulasAgreeUnlessEvenLoss(b: Board, opponent: Player, m: nat)
    ensures StateOf(HalfPlusOne, b, opponent, m) == StateOf(HalfRoundedUp, b, opponent, m)
        <==> !HasLine(b, AsInt(opponent)) || m % 2 == 1
  {
    FormulasDifferOnEvenMoves(m);
  }

  /**
   * The loops of `get_state` after the loss score is computed: rows, then columns, then the two
   * diagonals, each counting the opponent's markers until the first other cell; then the draw test.
   */
  method ScanLines(board: Board, opponentVal: int, movesPlayed: nat, potentialLossScore: int)
    returns (s: GameState)
    ensures s == Classify(board, opponentVal, movesPlayed, potentialLossScore)
  {
    for x := 0 to 3
      invariant forall i | 0 <= i < x :: !RowFilled(board, opponentVal, i)
    {
      var count := 0;
      for y := 0 to 3
        invariant count == y
        invariant forall j | 0 <= j < y :: board[x][j] == opponentVal
      {
        if board[x][y] != opponentVal {
          break;
        }
        count := count + 1;
      }
      if count == 3 {
        return Lost(potentialLossScore);
      }
    }

    for y := 0 to 3
      invariant forall j | 0 <= j < y :: !ColumnFilled(board, opponentVal, j)
    {
      var count := 0;
      for x := 0 to 3
        invariant count == x
        invariant forall i | 0 <= i < x :: board[i][y] == opponentVal
      {
        if board[x][y] != opponentVal {
          break;
        }
        count := count + 1;
      }
      if count == 3 {
        return Lost(potentialLossScore);
      }
    }

    var countDiagonal := 0;
    for x := 0 to 3
      invariant countDiagonal == x
      invariant forall i | 0 <= i < x :: board[i][i] == opponentVal
    {
      if board[x][x] != opponentVal {
        break;
      }
      countDiagonal := countDiagonal + 1;
    }
    if countDiagonal == 3 {
      return Lost(potentialLossScore);
    }

    var countAntiDiagonal := 0;
    for x := 0 to 3
      invariant countAntiDiagonal == x
      invariant forall i | 0 <= i < x :: board[i][2 - i] == opponentVal
    {
      if board[x][2 - x] != opponentVal {
        break;
      }
      countAntiDiagonal := countAntiDiagonal + 1;
    }
    if countAntiDiagonal == 3 {
      return Lost(potentialLossScore);
    }

    if movesPlayed == 9 {
      return Drawn;
    }
    return InProgress;
  }

  function SwitchPlayer(p: Player): (q: Player)
    ensures q != p
  {
    match p
    case Noughts => Crosses
    case Crosses => Noughts
  }

  /**
   * The invariant every position reached from `New` keeps: cells are empty, noughts or crosses;
   * noughts have made ceil(m/2) moves and crosses floor(m/2); noughts move when m is even.
   */
  predicate WellFormed(p: Position) {
    && CellsInRange(p.board)
    && p.movesPlayed <= 9
    && Count(p.board, 1) == (p.movesPlayed + 1) / 2
    && Count(p.board, 2) == p.movesPlayed / 2
    && p.player == (if p.movesPlayed % 2 == 0 then Noughts else Crosses)
  }

  /** WellFormed, and the cached state is the one `get_state` gives for the last mover. */
  predicate Valid(f: ScoreFormula, p: Position) {
    WellFormed(p) && p.state == StateOf(f, p.board, SwitchPlayer(p.player), p.movesPlayed)
  }

  /** `moves_played` counts the non-empty cells. */
  lemma MovesCountOccupiedCells(p: Position)
    requires WellFormed(p)
    ensures p.movesPlayed == 9 - Count(p.board, 0)
  {
    CountsPartition(p.board);
  }

  /** The starting position: empty board, noughts to move, no moves, in progress. */
  function New(): (p: Position)
    ensures forall i, j | 0 <= i < 3 && 0 <= j < 3 :: p.board[i][j] == 0
    ensures p.player == Noughts && p.movesPlayed == 0 && p.state == InProgress
    ensures Valid(HalfPlusOne, p) && Valid(HalfRoundedUp, p)
  {
    Position(EmptyBoard, Noughts, 0, InProgress)
  }

  /** A move is legal only while the game is in progress, and then exactly on an empty cell;
      in a well-formed position that leaves room, so fewer than nine moves have been played. */
  function CanPlay(p: Position, x: nat, y: nat): (legal: bool)
    requires x < 3 && y < 3
    ensures legal ==> p.state == InProgress
    ensures legal && WellFormed(p) ==> p.movesPlayed < 9
  {
    var legal := match p.state
      case InProgress => p.board[x][y] == 0
      case Lost(_) => false
      case Drawn => false;
    if legal && WellFormed(p) then EmptyCellLeavesRoom(p, x, y); legal else legal
  }

  /** An empty cell in a well-formed position means the board is not yet full. */
  lemma EmptyCellLeavesRoom(p: Position, x: nat, y: nat)
    requires x < 3 && y < 3 && p.board[x][y] == 0 && WellFormed(p)
    ensures p.movesPlayed < 9
  {
    MovesCountOccupiedCells(p);
    CountAfterUpdate(p.board, x, y, p.player, 0);
  }

  /** The position after the player to move takes cell (x, y). */
  function Next(f: ScoreFormula, p: Position, x: nat, y: nat): (q: Position)
    requires x < 3 && y < 3 && CanPlay(p, x, y)
    ensures q.board[x][y] == AsInt(p.player)
    ensures forall i, j | 0 <= i < 3 && 0 <= j < 3 && (i != x || j != y) :: q.board[i][j] == p.board[i][j]
    ensures q.player != p.player
    ensures q.movesPlayed == p.movesPlayed + 1
    ensures q.state == StateOf(f, q.board, p.player, q.movesPlayed)
    ensures WellFormed(p) ==> Valid(f, q)
  {
    var board := UpdateBoard(p.board, x, y, p.player);
    var moves := p.movesPlayed + 1;
    var q := Position(board, SwitchPlayer(p.player), moves, StateOf(f, board, p.player, moves));
    assert WellFormed(p) ==> WellFormed(q) by {
      if WellFormed(p) {
        PlayKeepsWellFormed(p, x, y);
      }
    }
    q
  }

  lemma PlayKeepsWellFormed(p: Position, x: nat, y: nat)
    requires x < 3 && y < 3 && CanPlay(p, x, y) && WellFormed(p)
    ensures var b := UpdateBoard(p.board, x, y, p.player);
      WellFormed(Position(b, SwitchPlayer(p.player), p.movesPlayed + 1, InProgress))
  {
    var b := UpdateBoard(p.board, x, y, p.player);
    MovesCountOccupiedCells(p);
    CountAfterUpdate(p.board, x, y, p.player, 0);
    assert p.movesPlayed < 9;
    CountsAfterMove(p.board, x, y, p.player, p.movesPlayed);
    UpdateKeepsCellsInRange(p.board, x, y, p.player);
    TurnAlternates(p.player, p.movesPlayed);
  }

  /** The player to move alternates with the parity of the move count. */
  lemma TurnAlternates(player: Player, m: nat)
    requires player == (if m % 2 == 0 then Noughts else Crosses)
    ensures SwitchPlayer(player) == (if (m + 1) % 2 == 0 then Noughts else Crosses)
  {
    if m % 2 == 0 {
      assert (m + 1) % 2 == 1;
    } else {
      assert (m + 1) % 2 == 0;
    }
  }

  /** Marking an empty cell for the player whose turn it is after `m` moves gives the counts
      of `m + 1` moves. */
  lemma CountsAfterMove(b: Board, x: nat, y: nat, player: Player, m: nat)
    requires x < 3 && y < 3 && b[x][y] == 0
    requires Count(b, 1) == (m + 1) / 2 && Count(b, 2) == m / 2
    requires player == (if m % 2 == 0 then Noughts else Crosses)
    ensures Count(UpdateBoard(b, x, y, player), 1) == (m + 2) / 2
    ensures Count(UpdateBoard(b, x, y, player), 2) == (m + 1) / 2
  {
    CountAfterUpdate(b, x, y, player, 1);
    CountAfterUpdate(b, x, y, player, 2);
  }

  /** `play`: None where `play` panics (a coordinate off the board or an illegal move); a move
      that succeeds adds one move and keeps a well-formed position valid. */
  function TryPlay(f: ScoreFormula, p: Position, x: nat, y: nat): (r: Option<Position>)
    ensures r.Some? <==> x < 3 && y < 3 && CanPlay(p, x, y)
    ensures r.Some? ==> r.value.movesPlayed == p.movesPlayed + 1 && r.value.player != p.player
    ensures r.Some? && WellFormed(p) ==> Valid(f, r.value)
  {
    if x < 3 && y < 3 && CanPlay(p, x, y) then Some(Next(f, p, x, y)) else None
  }

  /** A valid position still in progress has an empty cell, so at least one legal move. */
  lemma InProgressHasMove(f: ScoreFormula, p: Position)
    requires Valid(f, p) && p.state == InProgress
    ensures p.movesPlayed < 9
    ensures exists x: nat, y: nat :: x < 3 && y < 3 && CanPlay(p, x, y)
  {
    MovesCountOccupiedCells(p);
    CountPositiveHasCell(p.board, 0);
    var x: nat, y: nat :| x < 3 && y < 3 && p.board[x][y] == 0;
    assert CanPlay(p, x, y);
  }

  /** A loss needs five moves at least, so in a valid position a loss scores -3, -2 or -1. */
  lemma LostScoreRange(f: ScoreFormula, p: Position)
    requires Valid(f, p) && p.state.Lost?
    ensures p.movesPlayed >= 5
    ensures -3 <= p.state.score <= -1
  {
    LineNeedsThree(p.board, AsInt(SwitchPlayer(p.player)));
  }

  // ----- Move notation -----

  predicate IsDigit(c: char) {
    '0' <= c <= '9'
  }

  function DigitValue(c: char): nat
    requires IsDigit(c)
  {
    (c as int) - ('0' as int)
  }

  /** Replays the digit pairs of `s` left to right from `p`; None where `from_tpgn` panics. A
      replay that succeeds consumed whole pairs and made one move per pair. */
  function Replay(f: ScoreFormula, p: Position, s: string): (r: Option<Position>)
    ensures r.Some? ==> |s| % 2 == 0 && r.value.movesPlayed == p.movesPlayed + |s| / 2
    decreases |s|
  {
    if s == [] then Some(p)
    else if |s| == 1 then None
    else if !IsDigit(s[0]) || !IsDigit(s[1]) then None
    else match TryPlay(f, p, DigitValue(s[0]), DigitValue(s[1]))
      case None => None
      case Some(q) => Replay(f, q, s[2..])
  }

  /** A replay that succeeds keeps the position valid. */
  lemma {:induction false} ReplayKeepsValid(f: ScoreFormula, p: Position, s: string)
    ensures Replay(f, p, s).Some? && Valid(f, p) ==> Valid(f, Replay(f, p, s).value)
    decreases |s|
  {
    if |s| >= 2 && IsDigit(s[0]) && IsDigit(s[1]) {
      match TryPlay(f, p, DigitValue(s[0]), DigitValue(s[1]))
      case None =>
      case Some(q) =>
        ReplayKeepsValid(f, q, s[2..]);
    }
  }

  /** Replaying from the pair at index i: its two characters, then the rest. */
  lemma ReplayStep(f: ScoreFormula, p: Position, s: string, i: nat)
    requires i + 2 <= |s|
    ensures Replay(f, p, s[i..]) ==
      if !IsDigit(s[i]) || !IsDigit(s[i + 1]) then None
      else match TryPlay(f, p, DigitValue(s[i]), DigitValue(s[i + 1]))
        case None => None
        case Some(q) => Replay(f, q, s[i + 2..])
  {
    assert s[i..][2..] == s[i + 2..];
  }

  /** A character that is not a decimal digit anywhere in the notation makes the replay fail. */
  lemma {:induction false} NonDigitRejected(f: ScoreFormula, p: Position, s: string, i: nat)
    requires i < |s| && !IsDigit(s[i])
    ensures Replay(f, p, s).None?
    decreases |s|
  {
    if |s| >= 2 && IsDigit(s[0]) && IsDigit(s[1]) {
      match TryPlay(f, p, DigitValue(s[0]), DigitValue(s[1]))
      case None =>
      case Some(q) =>
        NonDigitRejected(f, q, s[2..], i - 2);
    }
  }

  // ----- Negamax -----

  /** Cell (i, j) comes at or after cell (x, y) in row-major order. */
  predicate AtOrAfter(i: nat, j: nat, x: nat, y: nat) {
    i > x || (i == x && j >= y)
  }

  /**
   * The score of `p` for the player to move: 0 when drawn, the cached score when lost, and
   * otherwise the running best, started at -3, over the legal cells in row-major order of the
   * negated score of the position after that move.
   */
  function NegamaxValue(f: ScoreFormula, p: Position): (v: int)
    requires Valid(f, p)
    ensures -3 <= v <= 3
    decreases 9 - p.movesPlayed, 1, 0, 0
  {
    match p.state
    case Drawn => 0
    case Lost(s) => LostScoreRange(f, p); s
    case InProgress => BestFrom(f, p, 0, 0, -3)
  }

  /** The running best after visiting the cells from (x, y) on, starting from `best`. */
  function BestFrom(f: ScoreFormula, p: Position, x: nat, y: nat, best: int): (r: int)
    requires Valid(f, p) && p.state == InProgress && x <= 3 && y <= 3
    requires -3 <= best <= 3
    ensures best <= r <= 3
    decreases 9 - p.movesPlayed, 0, 3 - x, 3 - y
  {
    if x == 3 then best
    else if y == 3 then BestFrom(f, p, x + 1, 0, best)
    else if CanPlay(p, x, y) then
      InProgressHasMove(f, p);
      var score := -NegamaxValue(f, Next(f, p, x, y));
      BestFrom(f, p, x, y + 1, if score > best then score else best)
    else
      BestFrom(f, p, x, y + 1, best)
  }

  /** The number of positions the search enters from `p`, `p` included. */
  function NodeCount(f: ScoreFormula, p: Position): (n: nat)
    requires Valid(f, p)
    ensures n >= 1
    ensures p.state != InProgress ==> n == 1
    decreases 9 - p.movesPlayed, 1, 0, 0
  {
    1 + if p.state == InProgress then ChildNodesFrom(f, p, 0, 0) else 0
  }

  /** The positions entered below the legal cells from (x, y) on. */
  function ChildNodesFrom(f: ScoreFormula, p: Position, x: nat, y: nat): nat
    requires Valid(f, p) && p.state == InProgress && x <= 3 && y <= 3
    decreases 9 - p.movesPlayed, 0, 3 - x, 3 - y
  {
    if x == 3 then 0
    else if y == 3 then ChildNodesFrom(f, p, x + 1, 0)
    else if CanPlay(p, x, y) then
      InProgressHasMove(f, p);
      NodeCount(f, Next(f, p, x, y)) + ChildNodesFrom(f, p, x, y + 1)
    else
      ChildNodesFrom(f, p, x, y + 1)
  }

  /** `r` is at least every negated reply value over the legal cells from (x, y) on. */
  ghost predicate BoundsReplies(f: ScoreFormula, p: Position, x: nat, y: nat, r: int)
    requires Valid(f, p)
  {
    forall i: nat, j: nat | i < 3 && j < 3 && AtOrAfter(i, j, x, y) && CanPlay(p, i, j) ::
      r >= -NegamaxValue(f, Next(f, p, i, j))
  }

  /** `r` is the negated value of a reply at a legal cell from (x, y) on. */
  ghost predicate AttainedByReply(f: ScoreFormula, p: Position, x: nat, y: nat, r: int)
    requires Valid(f, p)
  {
    exists i: nat, j: nat | i < 3 && j < 3 && AtOrAfter(i, j, x, y) && CanPlay(p, i, j) ::
      r == -NegamaxValue(f, Next(f, p, i, j))
  }

  lemma BoundsNextRow(f: ScoreFormula, p: Position, x: nat, r: int)
    requires Valid(f, p) && x < 3 && BoundsReplies(f, p, x + 1, 0, r)
    ensures BoundsReplies(f, p, x, 3, r)
  {
  }

  lemma BoundsNextCell(f: ScoreFormula, p: Position, x: nat, y: nat, r: int)
    requires Valid(f, p) && x < 3 && y < 3 && BoundsReplies(f, p, x, y + 1, r)
    requires CanPlay(p, x, y) ==> r >= -NegamaxValue(f, Next(f, p, x, y))
    ensures BoundsReplies(f, p, x, y, r)
  {
  }

  lemma AttainedNextRow(f: ScoreFormula, p: Position, x: nat, r: int)
    requires Valid(f, p) && x < 3 && AttainedByReply(f, p, x + 1, 0, r)
    ensures AttainedByReply(f, p, x, 3, r)
  {
    var i: nat, j: nat :| i < 3 && j < 3 && AtOrAfter(i, j, x + 1, 0) && CanPlay(p, i, j) &&
      r == -NegamaxValue(f, Next(f, p, i, j));
    assert AtOrAfter(i, j, x, 3);
  }

  lemma AttainedNextCell(f: ScoreFormula, p: Position, x: nat, y: nat, r: int)
    requires Valid(f, p) && x < 3 && y < 3
    requires AttainedByReply(f, p, x, y + 1, r) || (CanPlay(p, x, y) && r == -NegamaxValue(f, Next(f, p, x, y)))
    ensures AttainedByReply(f, p, x, y, r)
  {
    if CanPlay(p, x, y) && r == -NegamaxValue(f, Next(f, p, x, y)) {
      assert AtOrAfter(x, y, x, y);
    } else {
      var i: nat, j: nat :| i < 3 && j < 3 && AtOrAfter(i, j, x, y + 1) && CanPlay(p, i, j) &&
        r == -NegamaxValue(f, Next(f, p, i, j));
      assert AtOrAfter(i, j, x, y);
    }
  }

  /** The running best is at least every reply visited from (x, y) on ... */
  lemma {:induction false} BestFromBounds(f: ScoreFormula, p: Position, x: nat, y: nat, best: int)
    requires Valid(f, p) && p.state == InProgress && x <= 3 && y <= 3 && -3 <= best <= 3
    ensures BoundsReplies(f, p, x, y, BestFrom(f, p, x, y, best))
    decreases 3 - x, 3 - y, 1
  {
    if x == 3 {
    } else if y == 3 {
      BoundsAtRowEnd(f, p, x, best);
    } else {
      BoundsAtCell(f, p, x, y, best);
    }
  }

  lemma {:induction false} BoundsAtRowEnd(f: ScoreFormula, p: Position, x: nat, best: int)
    requires Valid(f, p) && p.state == InProgress && x < 3 && -3 <= best <= 3
    ensures BoundsReplies(f, p, x, 3, BestFrom(f, p, x, 3, best))
    decreases 3 - x, 0, 0
  {
    BestFromBounds(f, p, x + 1, 0, best);
    BoundsNextRow(f, p, x, BestFrom(f, p, x, 3, best));
  }

  lemma {:induction false} BoundsAtCell(f: ScoreFormula, p: Position, x: nat, y: nat, best: int)
    requires Valid(f, p) && p.state == InProgress && x < 3 && y < 3 && -3 <= best <= 3
    ensures BoundsReplies(f, p, x, y, BestFrom(f, p, x, y, best))
    decreases 3 - x, 3 - y, 0
  {
    var best' := best;
    if CanPlay(p, x, y) {
      var score := -NegamaxValue(f, Next(f, p, x, y));
      best' := if score > best then score else best;
    }
    assert BestFrom(f, p, x, y, best) == BestFrom(f, p, x, y + 1, best');
    BestFromBounds(f, p, x, y + 1, best');
    BoundsNextCell(f, p, x, y, BestFrom(f, p, x, y, best));
  }

  /** ... and is either where it started or one of those replies. */
  lemma {:induction false} BestFromAttained(f: ScoreFormula, p: Position, x: nat, y: nat, best: int)
    requires Valid(f, p) && p.state == InProgress && x <= 3 && y <= 3 && -3 <= best <= 3
    ensures BestFrom(f, p, x, y, best) == best || AttainedByReply(f, p, x, y, BestFrom(f, p, x, y, best))
    decreases 3 - x, 3 - y, 1
  {
    if x == 3 {
    } else if y == 3 {
      AttainedAtRowEnd(f, p, x, best);
    } else {
      AttainedAtCell(f, p, x, y, best);
    }
  }

  lemma {:induction false} AttainedAtRowEnd(f: ScoreFormula, p: Position, x: nat, best: int)
    requires Valid(f, p) && p.state == InProgress && x < 3 && -3 <= best <= 3
    ensures BestFrom(f, p, x, 3, best) == best || AttainedByReply(f, p, x, 3, BestFrom(f, p, x, 3, best))
    decreases 3 - x, 0, 0
  {
    var r := BestFrom(f, p, x, 3, best);
    BestFromAttained(f, p, x + 1, 0, best);
    assert r == BestFrom(f, p, x + 1, 0, best);
    if r != best {
      AttainedNextRow(f, p, x, r);
    }
  }

  lemma {:induction false} AttainedAtCell(f: ScoreFormula, p: Position, x: nat, y: nat, best: int)
    requires Valid(f, p) && p.state == InProgress && x < 3 && y < 3 && -3 <= best <= 3
    ensures BestFrom(f, p, x, y, best) == best || AttainedByReply(f, p, x, y, BestFrom(f, p, x, y, best))
    decreases 3 - x, 3 - y, 0
  {
    var r := BestFrom(f, p, x, y, best);
    var best' := best;
    if CanPlay(p, x, y) {
      var score := -NegamaxValue(f, Next(f, p, x, y));
      best' := if score > best then score else best;
    }
    assert r == BestFrom(f, p, x, y + 1, best');
    BestFromAttained(f, p, x, y + 1, best');
    if r != best {
      AttainedNextCell(f, p, x, y, r);
    }
  }

  /** Negamax in its textbook form: for a position in progress the value is the largest negated
      reply value over the legal moves, reached by one of them (the -3 start never decides). */
  lemma NegamaxIsBestReply(f: ScoreFormula, p: Position)
    requires Valid(f, p) && p.state == InProgress
    ensures forall x: nat, y: nat | x < 3 && y < 3 && CanPlay(p, x, y) ::
      NegamaxValue(f, p) >= -NegamaxValue(f, Next(f, p, x, y))
    ensures exists x: nat, y: nat | x < 3 && y < 3 && CanPlay(p, x, y) ::
      NegamaxValue(f, p) == -NegamaxValue(f, Next(f, p, x, y))
  {
    NegamaxBoundsReplies(f, p);
    NegamaxAttained(f, p);
  }

  lemma NegamaxBoundsReplies(f: ScoreFormula, p: Position)
    requires Valid(f, p) && p.state == InProgress
    ensures BoundsReplies(f, p, 0, 0, NegamaxValue(f, p))
  {
    BestFromBounds(f, p, 0, 0, -3);
  }

  lemma NegamaxAttained(f: ScoreFormula, p: Position)
    requires Valid(f, p) && p.state == InProgress
    ensures AttainedByReply(f, p, 0, 0, NegamaxValue(f, p))
  {
    var v := NegamaxValue(f, p);
    assert v == BestFrom(f, p, 0, 0, -3);
    BestFromAttained(f, p, 0, 0, -3);
    if v == -3 {
      NegamaxBoundsReplies(f, p);
      InProgressHasMove(f, p);
      var x: nat, y: nat :| x < 3 && y < 3 && CanPlay(p, x, y);
      assert AtOrAfter(x, y, 0, 0) && v >= -NegamaxValue(f, Next(f, p, x, y));
    }
  }
}
