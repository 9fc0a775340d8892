/** The hex-grid move rules of the client (client/src/game.rs, `check_move`
    and `check_any_left_move`). The board is an 11 x 11 grid of bytes:
    0 is an empty cell, 1 the mouse, 2 a wall. Odd rows are drawn half a
    cell to the right (client/src/main.rs), so a cell has six neighbours
    whose columns depend on the parity of its row. */
module Moves {
  import opened Common

  const Side: int := 11

  const Empty: Byte := 0
  const MouseMark: Byte := 1
  const WallMark: Byte := 2

  predicate IsBoard(board: array2<Byte>) {
    board.Length0 == Side && board.Length1 == Side
  }

  predicate OnBoard(p: (int, int)) {
    0 <= p.0 < Side && 0 <= p.1 < Side
  }

  function Coord(m: Position): (int, int) {
    (m.x, m.y)
  }

  /** The six candidate cells around the mouse, from the parity table. */
  function Neighbours(m: Position): (cs: seq<(int, int)>)
    ensures |cs| == 6
    ensures forall j, k | 0 <= j < k < 6 :: cs[j] != cs[k]
    ensures Coord(m) !in cs
  {
    var x, y := m.x, m.y;
    if x % 2 == 0 then
      [(x - 1, y - 1), (x - 1, y), (x, y - 1), (x, y + 1), (x + 1, y - 1), (x + 1, y)]
    else
      [(x - 1, y), (x - 1, y + 1), (x, y - 1), (x, y + 1), (x + 1, y), (x + 1, y + 1)]
  }

  // ---------------------------------------------------------------------
  // An independent description of the grid: axial hex coordinates

  function Abs(n: int): nat {
    if n < 0 then -n else n
  }

  /** Axial coordinates (q, r) of a cell of a grid whose odd rows are shifted
      right by half a cell ("odd-r" layout). `/` rounds down here. */
  function Axial(p: (int, int)): (int, int) {
    (p.1 - p.0 / 2, p.0)
  }

  /** The number of steps between two cells of the hexagonal grid. */
  function HexDistance(a: (int, int), b: (int, int)): nat {
    var dq := Axial(b).0 - Axial(a).0;
    var dr := Axial(b).1 - Axial(a).1;
    (Abs(dq) + Abs(dr) + Abs(dq + dr)) / 2
  }

  /** The parity table lists exactly the cells at hex distance one. */
  lemma NeighboursAreAdjacent(m: Position, t: (int, int))
    ensures t in Neighbours(m) <==> HexDistance(Coord(m), t) == 1
  {
    var x, y := m.x as int, m.y as int;
    var dr := t.0 - x;
    var dq := (t.1 - t.0 / 2) - (y - x / 2);
    if x % 2 == 0 {
      assert (x + 1) / 2 == x / 2 && (x - 1) / 2 == x / 2 - 1;
    } else {
      assert (x + 1) / 2 == x / 2 + 1 && (x - 1) / 2 == x / 2;
    }
    if HexDistance(Coord(m), t) == 1 {
      assert dr == -1 || dr == 0 || dr == 1;
      if dr == 0 {
        assert t == (x, y - 1) || t == (x, y + 1);
      } else if dr == 1 {
        assert t.0 / 2 == (x + 1) / 2;
        assert dq == -1 || dq == 0;
      } else {
        assert t.0 / 2 == (x - 1) / 2;
        assert dq == 0 || dq == 1;
      }
    }
  }

  /** Hex distance is symmetric, so neighbourhood is too. */
  lemma NeighbourhoodIsSymmetric(m: Position, n: Position)
    ensures Coord(n) in Neighbours(m) <==> Coord(m) in Neighbours(n)
  {
    NeighboursAreAdjacent(m, Coord(n));
    NeighboursAreAdjacent(n, Coord(m));
  }

  /** `check_move(row, col, mouse, player, board)`: may the local player
      click cell (row, col)? The wall builder (player 2) may click any empty
      cell; every other player value moves the mouse, which may only step
      onto an empty cell adjacent to it. */
  function CheckMove(row: int, col: int, mouse: Position, player: Byte, board: array2<Byte>): (ok: bool)
    reads board
    requires IsBoard(board) && OnBoard((row, col))
    ensures player == 2 ==> (ok <==> board[row, col] == Empty)
    ensures player != 2 ==> (ok <==> board[row, col] == Empty && HexDistance(Coord(mouse), (row, col)) == 1)
    ensures ok && player != 2 ==> (row, col) != Coord(mouse)
  {
    NeighboursAreAdjacent(mouse, (row, col));
    if player == 2 then board[row, col] == Empty
    else if board[row, col] != Empty then false
    else (row, col) in Neighbours(mouse)
  }

  /** Cell `p` exists on the board and is empty. */
  predicate FreeAt(board: array2<Byte>, p: (int, int))
    reads board
    requires IsBoard(board)
  {
    OnBoard(p) && board[p.0, p.1] == Empty
  }

  /** Some neighbour of the mouse exists on the board and is empty. */
  predicate HasFreeNeighbour(board: array2<Byte>, m: Position)
    reads board
    requires IsBoard(board)
  {
    exists k | 0 <= k < 6 :: FreeAt(board, Neighbours(m)[k])
  }

  /** The mouse has a free neighbour exactly when it has a legal move. */
  lemma FreeNeighbourIffLegalMove(board: array2<Byte>, m: Position)
    requires IsBoard(board)
    ensures HasFreeNeighbour(board, m) <==>
            exists r, c | 0 <= r < Side && 0 <= c < Side :: CheckMove(r, c, m, MouseMark, board)
  {
    if HasFreeNeighbour(board, m) {
      var k :| 0 <= k < 6 && FreeAt(board, Neighbours(m)[k]);
      var p := Neighbours(m)[k];
      assert CheckMove(p.0, p.1, m, MouseMark, board);
    }
    if exists r, c | 0 <= r < Side && 0 <= c < Side :: CheckMove(r, c, m, MouseMark, board) {
      var r, c :| 0 <= r < Side && 0 <= c < Side && CheckMove(r, c, m, MouseMark, board);
      NeighboursAreAdjacent(m, (r, c));
      var k :| 0 <= k < 6 && Neighbours(m)[k] == (r, c);
      assert FreeAt(board, Neighbours(m)[k]);
    }
  }

  // ---------------------------------------------------------------------
  // check_any_left_move as written

  /** The guard of the scan, which tests only two of the four bounds. */
  predicate ScanGuard(p: (int, int)) {
    p.0 >= 0 && p.1 <= 10
  }

  /** A candidate the guard lets through although it is off the board: the
      index `board[p.0 as usize][p.1 as usize]` then panics. */
  predicate Unsafe(p: (int, int)) {
    ScanGuard(p) && !OnBoard(p)
  }

  /** The scan of the mouse's candidates stops at candidate `k` with a panic:
      every earlier candidate was skipped, and candidate `k` is unsafe. */
  predicate PanicsAt(board: array2<Byte>, m: Position, k: int)
    reads board
    requires IsBoard(board)
  {
    0 <= k < 6 && Unsafe(Neighbours(m)[k]) &&
    forall j | 0 <= j < k :: !FreeAt(board, Neighbours(m)[j]) && !Unsafe(Neighbours(m)[j])
  }

  /** The outcome of the scan: it completes with a verdict, or it indexes
      outside the board while looking at candidate `at`. */
  datatype Scan = Completed(anyLeft: bool) | IndexOutOfBounds(at: nat)

  /** `check_any_left_move(board, mouse)` as written: walk the six candidates
      in table order, and stop at the first one that passes the guard and
      holds 0. */
  method CheckAnyLeftMove(board: array2<Byte>, mouse: Position) returns (r: Scan)
    requires IsBoard(board)
    ensures r.Completed? <==> forall k | 0 <= k < 6 :: !PanicsAt(board, mouse, k)
    ensures r.Completed? ==> (r.anyLeft <==> HasFreeNeighbour(board, mouse))
    ensures r.IndexOutOfBounds? ==> PanicsAt(board, mouse, r.at)
  {
    var validMoves := Neighbours(mouse);
    var ok := false;
    var i := 0;
    while i < 6
      invariant 0 <= i <= 6
      invariant !ok
      invariant forall j | 0 <= j < i :: !FreeAt(board, validMoves[j]) && !Unsafe(validMoves[j])
    {
      var pos := validMoves[i];
      if pos.0 >= 0 && pos.1 <= 10 {
        if !(pos.0 < Side && pos.1 >= 0) {
          assert PanicsAt(board, mouse, i);
          return IndexOutOfBounds(i);
        }
        if board[pos.0, pos.1] == Empty {
          ok := true;
          assert FreeAt(board, validMoves[i]);
          break;
        }
      }
      i := i + 1;
    }
    r := Completed(ok);
    if !ok {
      assert forall k | 0 <= k < 6 :: !PanicsAt(board, mouse, k) by {
        forall k | 0 <= k < 6 ensures !PanicsAt(board, mouse, k) {
          assert !Unsafe(validMoves[k]);
        }
      }
    } else {
      assert forall k | 0 <= k < 6 :: !PanicsAt(board, mouse, k) by {
        forall k | 0 <= k < 6 ensures !PanicsAt(board, mouse, k) {
          if k > i {
            assert !(!FreeAt(board, validMoves[i]));
          } else if k < i {
            assert !Unsafe(validMoves[k]);
          }
        }
      }
    }
  }

  /** A mouse in rows 0 to 9 and columns 1 to 10 never makes the scan index
      outside the board: every candidate the guard lets through is on it. */
  lemma ScanIsSafeInside(board: array2<Byte>, m: Position)
    requires IsBoard(board)
    requires m.x <= 9 && 1 <= m.y <= 10
    ensures forall k | 0 <= k < 6 :: !PanicsAt(board, m, k)
  {
  }

  /** The guard lets column -1 through: for a mouse on column 0 of an even
      row other than row 0, the very first candidate is off the board. */
  lemma ScanPanicsOnLeftEdge(board: array2<Byte>, m: Position)
    requires IsBoard(board)
    requires m.y == 0 && m.x % 2 == 0 && 1 <= m.x <= 10
    ensures PanicsAt(board, m, 0)
  {
  }

  /** The mouse can step legally onto such a cell, e.g. from (4,1) to (4,0). */
  lemma LeftEdgeIsReachable(board: array2<Byte>)
    requires IsBoard(board) && board[4, 0] == Empty
    ensures CheckMove(4, 0, Position(4, 1), MouseMark, board)
    ensures PanicsAt(board, Position(4, 0), 0)
  {
  }

  /** The scan with all four bounds in its guard: for every mouse it answers
      whether some neighbour is free. */
  method CheckAnyLeftMoveBounded(board: array2<Byte>, mouse: Position) returns (ok: bool)
    requires IsBoard(board)
    ensures ok <==> HasFreeNeighbour(board, mouse)
  {
    var validMoves := Neighbours(mouse);
    ok := false;
    var i := 0;
    while i < 6
      invariant 0 <= i <= 6
      invariant !ok
      invariant forall j | 0 <= j < i :: !FreeAt(board, validMoves[j])
    {
      var pos := validMoves[i];
      if 0 <= pos.0 <= 10 && 0 <= pos.1 <= 10 && board[pos.0, pos.1] == Empty {
        ok := true;
        assert FreeAt(board, validMoves[i]);
        return;
      }
      i := i + 1;
    }
  }
}
