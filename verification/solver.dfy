/** src/lib.rs: the library entry point, negamax without a counter over the position.rs positions. */
module Solver {
  import opened Game
  import Positions

  /** `negamax` of lib.rs; it calls `play` only on cells `can_play` admits, so it never fails. */
  method Negamax(p: Position) returns (score: int)
    requires Valid(HalfPlusOne, p)
    ensures score == NegamaxValue(HalfPlusOne, p)
    ensures p.state == Drawn ==> score == 0
    ensures p.state.Lost? ==> score == p.state.score
    decreases 9 - p.movesPlayed
  {
    match p.state {
      case Drawn => return 0;
      case Lost(s) => return s;
      case InProgress =>
    }
    var bestScore := -3;
    for x := 0 to 3
      invariant -3 <= bestScore <= 3
      invariant BestFrom(HalfPlusOne, p, x, 0, bestScore) == NegamaxValue(HalfPlusOne, p)
    {
      for y := 0 to 3
        invariant -3 <= bestScore <= 3
        invariant BestFrom(HalfPlusOne, p, x, y, bestScore) == NegamaxValue(HalfPlusOne, p)
      {
        if CanPlay(p, x, y) {
          var next := Positions.Play(p, x, y);
          var childScore := Negamax(next.value);
          var score := -childScore;
          if score > bestScore {
            bestScore := score;
          }
        }
      }
    }
    return bestScore;
  }

  /** `solve(tpgn)`: parse, then search; it fails exactly when parsing fails. */
  method Solve(tpgn: string) returns (r: Option<int>)
    ensures r.None? <==> Positions.FromNotation(tpgn).None?
    ensures r.Some? ==> r.value == NegamaxValue(HalfPlusOne, Positions.FromNotation(tpgn).value)
    ensures r.Some? ==> -3 <= r.value <= 3
  {
    var rootPosition := Positions.FromTpgn(tpgn);
    if rootPosition.None? {
      return None;
    }
    var score := Negamax(rootPosition.value);
    return Some(score);
  }
}
