/**
 * src/main.rs: the binary's own copy of the position operations, with the loss score
 * (moves_played + 1) / 2 - 6, a notation parser without the "R" root case, and `solve`,
 * which is negamax without a node counter.
 */
module Standalone {
  import opened Players
  import opened Boards
  import opened Game

  /** `get_state` as main.rs writes it. */
  method GetState(board: Board, opponent: Player, movesPlayed: nat) returns (s: GameState)
    ensures s == StateOf(HalfRoundedUp, board, opponent, movesPlayed)
  {
    var potentialLossScore := (movesPlayed + 1) / 2 - 6;
    s := ScanLines(board, AsInt(opponent), movesPlayed, potentialLossScore);
  }

  /** `play`: None where it panics, otherwise the position after the move. */
  method Play(p: Position, x: nat, y: nat) returns (r: Option<Position>)
    ensures r.Some? <==> x < 3 && y < 3 && CanPlay(p, x, y)
    ensures r.Some? ==> r.value == Next(HalfRoundedUp, p, x, y)
  {
    if x >= 3 || y >= 3 {
      return None;  // the board index panics
    }
    if !CanPlay(p, x, y) {
      return None;  // "can't play"
    }
    var newBoard := UpdateBoard(p.board, x, y, p.player);
    var newPlayer := SwitchPlayer(p.player);
    var newMovesPlayed := p.movesPlayed + 1;
    var newState := GetState(newBoard, p.player, newMovesPlayed);
    return Some(Position(newBoard, newPlayer, newMovesPlayed, newState));
  }

  /** What `from_tpgn` yields: a failure for an odd or over-long string (so "R" fails too),
      otherwise the replay of its digit pairs from the root. */
  function FromNotation(s: string): (r: Option<Position>)
    ensures |s| % 2 != 0 || |s| > 18 ==> r.None?
    ensures r.Some? ==> Valid(HalfRoundedUp, r.value) && r.value.movesPlayed == |s| / 2
  {
    if |s| % 2 != 0 || |s| > 18 then None
    else
      ReplayKeepsValid(HalfRoundedUp, New(), s);
      Replay(HalfRoundedUp, New(), s)
  }

  /** `from_tpgn`: the length checks before any move, then the pair-by-pair loop. */
  method FromTpgn(s: string) returns (r: Option<Position>)
    ensures r == FromNotation(s)
  {
    if |s| % 2 != 0 {
      return None;  // "Incomplete tpgn"
    }
    if |s| > 18 {
      return None;  // "tpgn too long"
    }
    var position := New();
    ghost var expected := Replay(HalfRoundedUp, position, s);
    assert expected == FromNotation(s);
    ghost var pairs := |s| / 2;
    assert |s| == 2 * pairs;
    var i := 0;
    ghost var k := 0;
    while i < |s|
      invariant 0 <= k <= pairs && i == 2 * k
      invariant Replay(HalfRoundedUp, position, s[i..]) == expected
      decreases |s| - i
    {
      assert k < pairs;
      var char1, char2 := s[i], s[i + 1];
      ReplayStep(HalfRoundedUp, position, s, i);
      if !IsDigit(char1) || !IsDigit(char2) {
        return None;  // "Invalid char in tpgn"
      }
      var next := Play(position, DigitValue(char1), DigitValue(char2));
      if next.None? {
        return None;
      }
      position := next.value;
      i, k := i + 2, k + 1;
    }
    return Some(position);
  }

  /** `solve`: the negamax score of the position for the player to move. */
  method Solve(p: Position) returns (score: int)
    requires Valid(HalfRoundedUp, p)
    ensures score == NegamaxValue(HalfRoundedUp, p)
    ensures p.state == Drawn ==> score == 0
    ensures p.state.Lost? ==> score == p.state.score
    decreases 9 - p.movesPlayed
  {
    match p.state {
      case Drawn => return 0;
      case Lost(s) => return s;
      case InProgress =>
    }
    var bestScore := -3;
    for x := 0 to 3
      invariant -3 <= bestScore <= 3
      invariant BestFrom(HalfRoundedUp, p, x, 0, bestScore) == NegamaxValue(HalfRoundedUp, p)
    {
      for y := 0 to 3
        invariant -3 <= bestScore <= 3
        invariant BestFrom(HalfRoundedUp, p, x, y, bestScore) == NegamaxValue(HalfRoundedUp, p)
      {
        if CanPlay(p, x, y) {
          var next := Play(p, x, y);
          var childScore := Solve(next.value);
          var score := -childScore;
          if score > bestScore {
            bestScore := score;
          }
        }
      }
    }
    return bestScore;
  }
}
