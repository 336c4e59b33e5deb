/**
 * src/position.rs: the position operations with the loss score (moves_played + 2) / 2 - 6,
 * the notation parser that also accepts "R" for the root, and negamax with a node counter.
 */
module Positions {
  import opened Players
  import opened Boards
  import opened Game

  /** `get_state` as position.rs writes it. */
  method GetState(board: Board, opponent: Player, movesPlayed: nat) returns (s: GameState)
    ensures s == StateOf(HalfPlusOne, board, opponent, movesPlayed)
  {
    var potentialLossScore := (movesPlayed + 2) / 2 - 6;
    s := ScanLines(board, AsInt(opponent), movesPlayed, potentialLossScore);
  }

  /** `play`: None where it panics, otherwise the position after the move. */
  method Play(p: Position, x: nat, y: nat) returns (r: Option<Position>)
    ensures r.Some? <==> x < 3 && y < 3 && CanPlay(p, x, y)
    ensures r.Some? ==> r.value == Next(HalfPlusOne, p, x, y)
  {
    if x >= 3 || y >= 3 {
      return None;  // the board index panics
    }
    if !CanPlay(p, x, y) {
      return None;  // "can't play"
    }
    var newBoard := UpdateBoard(p.board, x, y, p.player);
    var newPlayer := SwitchPlayer(p.player);
    var newMovesPlayed := p.movesPlayed + 1;
    var newState := GetState(newBoard, p.player, newMovesPlayed);
    return Some(Position(newBoard, newPlayer, newMovesPlayed, newState));
  }

  /** What `from_tpgn` yields: the root for "R", a failure for an odd or over-long string,
      otherwise the replay of its digit pairs from the root. */
  function FromNotation(s: string): (r: Option<Position>)
    ensures s == "R" ==> r == Some(New())
    ensures s != "R" && (|s| % 2 != 0 || |s| > 18) ==> r.None?
    ensures r.Some? ==> Valid(HalfPlusOne, r.value)
    ensures r.Some? && s != "R" ==> r.value.movesPlayed == |s| / 2
  {
    if s == "R" then Some(New())
    else if |s| % 2 != 0 || |s| > 18 then None
    else
      ReplayKeepsValid(HalfPlusOne, New(), s);
      Replay(HalfPlusOne, New(), s)
  }

  /** `from_tpgn`: the checks, then the pair-by-pair loop. */
  method FromTpgn(s: string) returns (r: Option<Position>)
    ensures r == FromNotation(s)
  {
    var position := New();
    if |s| == 1 && s[0] == 'R' {
      return Some(position);
    }
    if |s| % 2 != 0 {
      return None;  // "Incomplete tpgn"
    }
    if |s| > 18 {
      return None;  // "tpgn too long"
    }
    ghost var expected := Replay(HalfPlusOne, position, s);
    assert expected == FromNotation(s);
    ghost var pairs := |s| / 2;
    assert |s| == 2 * pairs;
    var i := 0;
    ghost var k := 0;
    while i < |s|
      invariant 0 <= k <= pairs && i == 2 * k
      invariant Replay(HalfPlusOne, position, s[i..]) == expected
      decreases |s| - i
    {
      assert k < pairs;
      var char1, char2 := s[i], s[i + 1];
      ReplayStep(HalfPlusOne, position, s, i);
      if !IsDigit(char1) || !IsDigit(char2) {
        return None;  // "Invalid char in tpgn"
      }
      var next := Play(position, DigitValue(char1), DigitValue(char2));
      if next.None? {
        return None;
      }
      position := next.value;
      i, k := i + 2, k + 1;
    }
    return Some(position);
  }

  /** `negamax` with its counter: the counter grows by one for every position entered. */
  method Negamax(p: Position, counter: nat) returns (score: int, counter': nat)
    requires Valid(HalfPlusOne, p)
    ensures score == NegamaxValue(HalfPlusOne, p)
    ensures counter' == counter + NodeCount(HalfPlusOne, p)
    ensures p.state == Drawn ==> score == 0
    ensures p.state.Lost? ==> score == p.state.score
    decreases 9 - p.movesPlayed
  {
    counter' := counter + 1;
    match p.state {
      case Drawn => return 0, counter';
      case Lost(s) => return s, counter';
      case InProgress =>
    }
    var bestScore := -3;
    for x := 0 to 3
      invariant -3 <= bestScore <= 3
      invariant BestFrom(HalfPlusOne, p, x, 0, bestScore) == NegamaxValue(HalfPlusOne, p)
      invariant counter' + ChildNodesFrom(HalfPlusOne, p, x, 0) == counter + NodeCount(HalfPlusOne, p)
    {
      for y := 0 to 3
        invariant -3 <= bestScore <= 3
        invariant BestFrom(HalfPlusOne, p, x, y, bestScore) == NegamaxValue(HalfPlusOne, p)
        invariant counter' + ChildNodesFrom(HalfPlusOne, p, x, y) == counter + NodeCount(HalfPlusOne, p)
      {
        ghost var best0, counter0 := bestScore, counter';
        if CanPlay(p, x, y) {
          var next := Play(p, x, y);
          assert next.value == Next(HalfPlusOne, p, x, y);
          var childScore, c := Negamax(next.value, counter');
          counter' := c;
          var score := -childScore;
          if score > bestScore {
            bestScore := score;
          }
        }
        assert BestFrom(HalfPlusOne, p, x, y, best0) == BestFrom(HalfPlusOne, p, x, y + 1, bestScore);
        assert counter0 + ChildNodesFrom(HalfPlusOne, p, x, y) == counter' + ChildNodesFrom(HalfPlusOne, p, x, y + 1);
      }
    }
    return bestScore, counter';
  }
}
