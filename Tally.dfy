/** The board scans of src/Minesweeper.ts: `getGameState` counts opened cells
    and `getFlaggedMineCount` counts flagged ones. A count is taken row by row,
    cell by cell, in the order of the source's nested `forEach`. */
module Tally {
  import opened Utils
  import opened Cells
  import opened Grid

  predicate IsOpened(c: CellState) { c.isOpened }
  predicate IsClosed(c: CellState) { !c.isOpened }
  predicate IsFlagged(c: CellState) { c.isFlagged }
  predicate IsMine(c: CellState) { c.mine }
  predicate OpenedMine(c: CellState) { c.isOpened && c.mine }
  predicate ClosedMine(c: CellState) { !c.isOpened && c.mine }
  predicate ClosedSafe(c: CellState) { !c.isOpened && !c.mine }

  /** The cells of one row that satisfy `f`. */
  function CountRow(s: seq<CellState>, f: CellState -> bool): (n: nat)
    ensures n <= |s|
  {
    if s == [] then 0 else CountRow(s[..|s| - 1], f) + (if f(s[|s| - 1]) then 1 else 0)
  }

  /** The cells of the board that satisfy `f`. */
  function CountBoard(g: Board, f: CellState -> bool): nat {
    if g == [] then 0 else CountBoard(g[..|g| - 1], f) + CountRow(g[|g| - 1], f)
  }

  // ---------------------------------------------------------------------------
  // Counting facts

  lemma {:induction false} CountRowZero(s: seq<CellState>, f: CellState -> bool)
    ensures CountRow(s, f) == 0 <==> forall i :: 0 <= i < |s| ==> !f(s[i])
  {
    if s != [] {
      CountRowZero(s[..|s| - 1], f);
      assert forall i :: 0 <= i < |s| - 1 ==> s[..|s| - 1][i] == s[i];
    }
  }

  lemma {:induction false} CountRowSplit(s: seq<CellState>, f: CellState -> bool, a: CellState -> bool, b: CellState -> bool)
    requires forall c :: f(c) == (a(c) || b(c)) && !(a(c) && b(c))
    ensures CountRow(s, f) == CountRow(s, a) + CountRow(s, b)
  {
    if s != [] {
      CountRowSplit(s[..|s| - 1], f, a, b);
    }
  }

  lemma {:induction false} CountRowMonotone(s: seq<CellState>, a: CellState -> bool, b: CellState -> bool)
    requires forall c :: a(c) ==> b(c)
    ensures CountRow(s, a) <= CountRow(s, b)
  {
    if s != [] {
      CountRowMonotone(s[..|s| - 1], a, b);
    }
  }

  /** The count of a predicate and of its negation make up the whole row. */
  lemma {:induction false} CountRowComplement(s: seq<CellState>, f: CellState -> bool, n: CellState -> bool)
    requires forall c :: n(c) == !f(c)
    ensures CountRow(s, f) + CountRow(s, n) == |s|
  {
    if s != [] {
      CountRowComplement(s[..|s| - 1], f, n);
    }
  }

  /** Replacing the cell at column `x` changes the row's count by the
      difference it makes to `f`. */
  lemma {:induction false} CountRowPut(s: seq<CellState>, f: CellState -> bool, x: nat, c: CellState)
    requires x < |s|
    ensures CountRow(s[x := c], f) + (if f(s[x]) then 1 else 0) ==
            CountRow(s, f) + (if f(c) then 1 else 0)
  {
    var t := s[x := c];
    if x < |s| - 1 {
      assert t[..|t| - 1] == s[..|s| - 1][x := c];
      CountRowPut(s[..|s| - 1], f, x, c);
    } else {
      assert t[..|t| - 1] == s[..|s| - 1];
    }
  }

  lemma {:induction false} CountBoardZero(g: Board, rows: nat, cols: nat, f: CellState -> bool)
    requires WellFormed(g, rows, cols)
    ensures CountBoard(g, f) == 0 <==> forall p :: InBounds(rows, cols, p) ==> !f(At(g, p))
  {
    if g != [] {
      var front := g[..|g| - 1];
      CountBoardZero(front, rows - 1, cols, f);
      CountRowZero(g[|g| - 1], f);
      if CountBoard(g, f) != 0 {
        if CountRow(g[|g| - 1], f) != 0 {
          var x :| 0 <= x < cols && f(g[|g| - 1][x]);
          assert f(At(g, Coords(x, rows - 1)));
        } else {
          var p :| InBounds(rows - 1, cols, p) && f(At(front, p));
          assert At(g, p) == At(front, p);
        }
      } else {
        forall p | InBounds(rows, cols, p) ensures !f(At(g, p)) {
          if p.y < rows - 1 {
            assert At(g, p) == At(front, p);
          }
        }
      }
    }
  }

  lemma {:induction false} CountBoardSplit(g: Board, f: CellState -> bool, a: CellState -> bool, b: CellState -> bool)
    requires forall c :: f(c) == (a(c) || b(c)) && !(a(c) && b(c))
    ensures CountBoard(g, f) == CountBoard(g, a) + CountBoard(g, b)
  {
    if g != [] {
      CountBoardSplit(g[..|g| - 1], f, a, b);
      CountRowSplit(g[|g| - 1], f, a, b);
    }
  }

  lemma {:induction false} CountBoardMonotone(g: Board, a: CellState -> bool, b: CellState -> bool)
    requires forall c :: a(c) ==> b(c)
    ensures CountBoard(g, a) <= CountBoard(g, b)
  {
    if g != [] {
      CountBoardMonotone(g[..|g| - 1], a, b);
      CountRowMonotone(g[|g| - 1], a, b);
    }
  }

  /** A count and the count of the negation add up to the number of cells. */
  lemma {:induction false} CountBoardComplement(g: Board, rows: nat, cols: nat, f: CellState -> bool, n: CellState -> bool)
    requires WellFormed(g, rows, cols)
    requires forall c :: n(c) == !f(c)
    ensures CountBoard(g, f) + CountBoard(g, n) == rows * cols
  {
    if g != [] {
      CountBoardComplement(g[..|g| - 1], rows - 1, cols, f, n);
      CountRowComplement(g[|g| - 1], f, n);
      assert (rows - 1) * cols + cols == rows * cols;
    }
  }

  /** Every count is at most the number of cells. */
  lemma CountBoardBound(g: Board, rows: nat, cols: nat, f: CellState -> bool)
    requires WellFormed(g, rows, cols)
    ensures CountBoard(g, f) <= rows * cols
  {
    CountBoardComplement(g, rows, cols, f, c => !f(c));
  }

  /** Replacing one cell changes a count by the difference that cell makes. */
  lemma {:induction false} CountBoardPut(g: Board, rows: nat, cols: nat, f: CellState -> bool, p: Coords, c: CellState)
    requires WellFormed(g, rows, cols) && InBounds(rows, cols, p)
    ensures CountBoard(Put(g, p, c), f) + (if f(At(g, p)) then 1 else 0) ==
            CountBoard(g, f) + (if f(c) then 1 else 0)
  {
    var r := Put(g, p, c);
    var front, rfront := g[..|g| - 1], r[..|r| - 1];
    if p.y < rows - 1 {
      assert rfront == Put(front, p, c);
      CountBoardPut(front, rows - 1, cols, f, p, c);
    } else {
      assert rfront == front;
      CountRowPut(g[|g| - 1], f, p.x, c);
    }
  }

  lemma {:induction false} CountRowAgree(s: seq<CellState>, t: seq<CellState>, f: CellState -> bool)
    requires |s| == |t| && forall i :: 0 <= i < |s| ==> f(s[i]) == f(t[i])
    ensures CountRow(s, f) == CountRow(t, f)
  {
    if s != [] {
      CountRowAgree(s[..|s| - 1], t[..|t| - 1], f);
    }
  }

  /** Two boards whose cells agree on `f` cell by cell have the same count. */
  lemma {:induction false} CountBoardAgree(g: Board, h: Board, rows: nat, cols: nat, f: CellState -> bool)
    requires WellFormed(g, rows, cols) && WellFormed(h, rows, cols)
    requires forall p :: InBounds(rows, cols, p) ==> f(At(g, p)) == f(At(h, p))
    ensures CountBoard(g, f) == CountBoard(h, f)
  {
    if g != [] {
      var last := rows - 1;
      forall p | InBounds(last, cols, p) ensures f(At(g[..last], p)) == f(At(h[..last], p)) {
        assert At(g[..last], p) == At(g, p) && At(h[..last], p) == At(h, p);
      }
      CountBoardAgree(g[..last], h[..last], last, cols, f);
      forall x | 0 <= x < cols ensures f(g[last][x]) == f(h[last][x]) {
        assert At(g, Coords(x, last)) == g[last][x];
      }
      CountRowAgree(g[last], h[last], f);
    }
  }

  // ---------------------------------------------------------------------------
  // getGameState

  datatype Outcome = Win | Playable

  /** `getGameState()`: "win" when the cells still closed are as many as the
      configured number of mines. */
  function GameState(g: Board, rows: nat, cols: nat, mines: int): Outcome {
    if rows * cols - CountBoard(g, IsOpened) == mines then Win else Playable
  }

  /** The closed cells split into the safe ones and the mined ones; with no
      mine opened the mined ones are all the mines. */
  lemma ClosedCells(g: Board, rows: nat, cols: nat)
    requires WellFormed(g, rows, cols)
    ensures rows * cols - CountBoard(g, IsOpened) == CountBoard(g, ClosedSafe) + CountBoard(g, ClosedMine)
    ensures CountBoard(g, IsMine) == CountBoard(g, OpenedMine) + CountBoard(g, ClosedMine)
  {
    CountBoardComplement(g, rows, cols, IsOpened, IsClosed);
    CountBoardSplit(g, IsClosed, ClosedSafe, ClosedMine);
    CountBoardSplit(g, IsMine, OpenedMine, ClosedMine);
  }

  /** With exactly `mines` mines on the board and none of them opened,
      `getGameState` reports a win exactly when every mine-free cell is
      opened. */
  lemma WinIffCleared(g: Board, rows: nat, cols: nat, mines: int)
    requires WellFormed(g, rows, cols)
    requires CountBoard(g, IsMine) == mines
    requires forall p :: InBounds(rows, cols, p) ==> !OpenedMine(At(g, p))
    ensures GameState(g, rows, cols, mines) == Win <==>
              forall p :: InBounds(rows, cols, p) && !At(g, p).mine ==> At(g, p).isOpened
  {
    ClosedCells(g, rows, cols);
    CountBoardZero(g, rows, cols, OpenedMine);
    CountBoardZero(g, rows, cols, ClosedSafe);
  }

  /** With fewer mines on the board than the configured number and none of
      them opened, a reported win leaves a mine-free cell closed. */
  lemma WinWithMissingMines(g: Board, rows: nat, cols: nat, mines: int)
    requires WellFormed(g, rows, cols)
    requires CountBoard(g, IsMine) < mines
    requires forall p :: InBounds(rows, cols, p) ==> !OpenedMine(At(g, p))
    requires GameState(g, rows, cols, mines) == Win
    ensures exists p :: InBounds(rows, cols, p) && !At(g, p).mine && !At(g, p).isOpened
  {
    ClosedCells(g, rows, cols);
    CountBoardZero(g, rows, cols, OpenedMine);
    CountBoardZero(g, rows, cols, ClosedSafe);
    var p :| InBounds(rows, cols, p) && ClosedSafe(At(g, p));
  }
}
