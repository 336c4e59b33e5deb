/** The 3×3 grid of cell codes: counting markers, the eight lines, and copying with one cell set. */
module Boards {
  import opened Players

  /** The fixed-size array `[[u8; 3]; 3]`: three rows of three cell codes. */
  type Board = b: seq<seq<int>> | |b| == 3 && forall i | 0 <= i < 3 :: |b[i]| == 3
    witness [[0, 0, 0], [0, 0, 0], [0, 0, 0]]

  const EmptyBoard: Board := [[0, 0, 0], [0, 0, 0], [0, 0, 0]]

  /** Every cell holds 0 (empty), 1 (noughts) or 2 (crosses). */
  predicate CellsInRange(b: Board) {
    forall i, j | 0 <= i < 3 && 0 <= j < 3 :: 0 <= b[i][j] <= 2
  }

  function RowCount(r: seq<int>, v: int): nat
    requires |r| == 3
  {
    (if r[0] == v then 1 else 0) + (if r[1] == v then 1 else 0) + (if r[2] == v then 1 else 0)
  }

  /** Two boards agreeing on all nine cells are the same board. */
  lemma CellwiseEqual(a: Board, b: Board)
    requires forall i, j | 0 <= i < 3 && 0 <= j < 3 :: a[i][j] == b[i][j]
    ensures a == b
  {
    forall i | 0 <= i < 3
      ensures a[i] == b[i]
    {
      assert a[i][0] == b[i][0] && a[i][1] == b[i][1] && a[i][2] == b[i][2];
    }
  }

  /** The number of cells holding `v`. */
  function Count(b: Board, v: int): nat {
    RowCount(b[0], v) + RowCount(b[1], v) + RowCount(b[2], v)
  }

  /** The board with cell (x, y) set to the player's marker; the argument is left as it was. */
  function UpdateBoard(b: Board, x: nat, y: nat, player: Player): (r: Board)
    requires x < 3 && y < 3
    ensures r[x][y] == AsInt(player)
    ensures forall i, j | 0 <= i < 3 && 0 <= j < 3 && (i != x || j != y) :: r[i][j] == b[i][j]
  {
    b[x := b[x][y := AsInt(player)]]
  }

  /** Setting one cell moves exactly that cell from its old value's count to the new marker's. */
  lemma CountAfterUpdate(b: Board, x: nat, y: nat, player: Player, v: int)
    requires x < 3 && y < 3
    ensures Count(UpdateBoard(b, x, y, player), v)
         == Count(b, v) - (if b[x][y] == v then 1 else 0) + (if AsInt(player) == v then 1 else 0)
  {
    var r := UpdateBoard(b, x, y, player);
    assert r[x] == b[x][y := AsInt(player)];
    forall i | 0 <= i < 3 && i != x
      ensures RowCount(r[i], v) == RowCount(b[i], v)
    {
      assert r[i] == b[i];
    }
  }

  /** Writing a player's marker keeps every cell empty, noughts or crosses. */
  lemma UpdateKeepsCellsInRange(b: Board, x: nat, y: nat, player: Player)
    requires x < 3 && y < 3 && CellsInRange(b)
    ensures CellsInRange(UpdateBoard(b, x, y, player))
  {
    var r := UpdateBoard(b, x, y, player);
    forall i, j | 0 <= i < 3 && 0 <= j < 3
      ensures 0 <= r[i][j] <= 2
    {
      if i != x || j != y {
        assert r[i][j] == b[i][j];
      }
    }
  }

  /** With every cell in range, the empty, noughts and crosses counts cover the nine cells. */
  lemma CountsPartition(b: Board)
    requires CellsInRange(b)
    ensures Count(b, 0) + Count(b, 1) + Count(b, 2) == 9
  {
    forall i | 0 <= i < 3
      ensures RowCount(b[i], 0) + RowCount(b[i], 1) + RowCount(b[i], 2) == 3
    {
      assert 0 <= b[i][0] <= 2 && 0 <= b[i][1] <= 2 && 0 <= b[i][2] <= 2;
    }
  }

  /** A board that counts some `v` has a cell holding `v`. */
  lemma CountPositiveHasCell(b: Board, v: int)
    requires Count(b, v) > 0
    ensures exists x: nat, y: nat :: x < 3 && y < 3 && b[x][y] == v
  {
    if RowCount(b[0], v) > 0 {
      assert b[0][0] == v || b[0][1] == v || b[0][2] == v;
    } else if RowCount(b[1], v) > 0 {
      assert b[1][0] == v || b[1][1] == v || b[1][2] == v;
    } else {
      assert b[2][0] == v || b[2][1] == v || b[2][2] == v;
    }
  }

  // The eight lines. `get_state` calls the first family "vertical" (cells board[x][0..3])
  // and the second "horizontal" (cells board[0..3][y]).

  predicate RowFilled(b: Board, v: int, x: nat)
    requires x < 3
  {
    b[x][0] == v && b[x][1] == v && b[x][2] == v
  }

  predicate ColumnFilled(b: Board, v: int, y: nat)
    requires y < 3
  {
    b[0][y] == v && b[1][y] == v && b[2][y] == v
  }

  predicate DiagonalFilled(b: Board, v: int) {
    b[0][0] == v && b[1][1] == v && b[2][2] == v
  }

  predicate AntiDiagonalFilled(b: Board, v: int) {
    b[0][2] == v && b[1][1] == v && b[2][0] == v
  }

  /** `v` fills one of the three rows, three columns or two diagonals. */
  predicate HasLine(b: Board, v: int) {
    RowFilled(b, v, 0) || RowFilled(b, v, 1) || RowFilled(b, v, 2) ||
    ColumnFilled(b, v, 0) || ColumnFilled(b, v, 1) || ColumnFilled(b, v, 2) ||
    DiagonalFilled(b, v) || AntiDiagonalFilled(b, v)
  }

  /** A completed line takes three cells of the same marker. */
  lemma LineNeedsThree(b: Board, v: int)
    requires HasLine(b, v)
    ensures Count(b, v) >= 3
  {
  }
}
