/** The board engine of src/Minesweeper.ts: a `rows` by `cols` grid of `Cell`
    objects that the operations update in place. Each method is proved to
    leave the cells as the matching function on board values (modules Grid,
    FloodFill, MineDraw, Tally) says. */
module Engine {
  import opened Wrappers
  import opened Utils
  import opened Cells
  import opened Grid
  import opened FloodFill
  import opened Tally
  import opened MineDraw

  class Minesweeper {
    var board: seq<seq<Cell>>
    var omitIdx: int
    var rows: nat
    var cols: nat
    var mines: nat
    /** The cells of `board`. */
    ghost var Repr: set<Cell>

    /** `board[y][x]` is the cell at column `x` of row `y`, with id
        `x + y * cols`, and `Repr` holds exactly the cells of the board. */
    ghost predicate Valid()
      reads this
    {
      && |board| == rows
      && (forall y :: 0 <= y < rows ==> |board[y]| == cols)
      && (forall y, x :: 0 <= y < rows && 0 <= x < cols ==>
            && board[y][x] in Repr
            && board[y][x].x == x && board[y][x].y == y && board[y][x].id == x + y * cols)
      && (forall c :: c in Repr ==>
            0 <= c.y < rows && 0 <= c.x < cols && board[c.y][c.x] == c && c.id == c.x + c.y * cols)
    }

    /** The states of the cells, as a board value. */
    ghost function Snapshot(): (g: Board)
      reads this, Repr
      requires Valid()
      ensures WellFormed(g, rows, cols)
      ensures forall p :: InBounds(rows, cols, p) ==> At(g, p) == board[p.y][p.x].State()
    {
      var b, n, m, cells := board, rows, cols, Repr;
      seq(n, y requires 0 <= y < n reads cells =>
        seq(m, x requires 0 <= x < m reads cells => b[y][x].State()))
    }

    /** The cells hold the states of `g`. */
    ghost predicate Shows(g: Board)
      reads this, Repr
      requires Valid()
    {
      WellFormed(g, rows, cols) &&
      forall p :: InBounds(rows, cols, p) ==> board[p.y][p.x].State() == At(g, p)
    }

    lemma ShowsSnapshot(g: Board)
      requires Valid() && Shows(g)
      ensures Snapshot() == g
    {
      var s := Snapshot();
      forall y | 0 <= y < rows ensures s[y] == g[y] {
        forall x | 0 <= x < cols ensures s[y][x] == g[y][x] {
          assert At(s, Coords(x, y)) == At(g, Coords(x, y));
        }
      }
    }

    /** The cells show `g` but at `p`, which holds `c`. */
    lemma ShowsPut(g: Board, p: Coords, c: CellState)
      requires Valid() && WellFormed(g, rows, cols) && InBounds(rows, cols, p)
      requires board[p.y][p.x].State() == c
      requires forall q :: InBounds(rows, cols, q) && q != p ==> board[q.y][q.x].State() == At(g, q)
      ensures Snapshot() == Put(g, p, c)
    {
      ShowsSnapshot(Put(g, p, c));
    }

    constructor (rows: nat, cols: nat, mines: nat)
      ensures Valid() && fresh(Repr)
      ensures this.rows == rows && this.cols == cols && this.mines == mines && omitIdx == -1
      ensures Snapshot() == FreshBoard(rows, cols)
    {
      this.rows, this.cols, this.mines := rows, cols, mines;
      omitIdx := -1;
      board, Repr := [], {};
      new;
      InitBoard();
    }

    /** `initBoard()`: a new grid of fresh cells. */
    method InitBoard()
      modifies this
      ensures Valid() && fresh(Repr)
      ensures rows == old(rows) && cols == old(cols) && mines == old(mines) && omitIdx == old(omitIdx)
      ensures Snapshot() == FreshBoard(rows, cols)
    {
      var b: seq<seq<Cell>> := [];
      ghost var R: set<Cell> := {};
      var y := 0;
      while y < rows
        modifies {}
        invariant 0 <= y <= rows && |b| == y && fresh(R)
        invariant forall i :: 0 <= i < y ==> |b[i]| == cols
        invariant forall i, x :: 0 <= i < y && 0 <= x < cols ==>
                    && b[i][x] in R && b[i][x].State() == Initial
                    && b[i][x].x == x && b[i][x].y == i && b[i][x].id == x + i * cols
        invariant forall c :: c in R ==> 0 <= c.y < y && 0 <= c.x < cols && b[c.y][c.x] == c
      {
        var row: seq<Cell> := [];
        ghost var S: set<Cell> := {};
        var x := 0;
        while x < cols
          modifies {}
          invariant 0 <= x <= cols && |row| == x && fresh(S) && R !! S
          invariant forall j :: 0 <= j < x ==>
                      && row[j] in S && row[j].State() == Initial
                      && row[j].x == j && row[j].y == y && row[j].id == j + y * cols
          invariant forall c :: c in S ==> c.y == y && 0 <= c.x < x && row[c.x] == c
          invariant forall i, x :: 0 <= i < y && 0 <= x < cols ==> b[i][x].State() == Initial
        {
          var c := new Cell(x + y * cols, x, y);
          row, S := row + [c], S + {c};
          x := x + 1;
        }
        b, R := b + [row], R + S;
        y := y + 1;
      }
      board, Repr := b, R;
      ShowsSnapshot(FreshBoard(rows, cols));
    }

    /** `resetBoard(rows, cols)`: the old cells are reset, then a new grid of
        the new size replaces them and the first reveal is forgotten. */
    method ResetBoard(rows: nat, cols: nat)
      requires Valid()
      modifies this, Repr
      ensures Valid() && fresh(Repr)
      ensures this.rows == rows && this.cols == cols && mines == old(mines) && omitIdx == -1
      ensures Snapshot() == FreshBoard(rows, cols)
      ensures forall c :: c in old(Repr) ==> c.State() == Initial
    {
      var b: seq<seq<Cell>> := board;
      ghost var cells := Repr;
      assert forall y, x :: 0 <= y < |b| && 0 <= x < |b[y]| ==> b[y][x] in cells;
      omitIdx := -1;
      this.rows := rows;
      this.cols := cols;
      var i := 0;
      while i < |b|
        modifies cells
        invariant 0 <= i <= |b|
        invariant forall y, x :: 0 <= y < i && 0 <= x < |b[y]| ==> b[y][x].State() == Initial
      {
        var j := 0;
        while j < |b[i]|
          modifies cells
          invariant 0 <= j <= |b[i]|
          invariant forall y, x :: 0 <= y < i && 0 <= x < |b[y]| ==> b[y][x].State() == Initial
          invariant forall x :: 0 <= x < j ==> b[i][x].State() == Initial
        {
          b[i][j].Reset();
          j := j + 1;
        }
        i := i + 1;
      }
      InitBoard();
    }

    /** `getCellById(id)`: the cell in row `Math.floor(id / cols)`, column
        `id % cols`; `None` where that lies off the grid, which the source
        leaves to fail on `undefined`. */
    function GetCellById(id: int): (r: Option<Cell>)
      reads this
      requires Valid()
      ensures r.Some? <==> cols > 0 && 0 <= id < rows * cols
      ensures r.Some? ==> r.value in Repr && r.value.id == id
      ensures r.Some? ==> Coords(r.value.x, r.value.y) == IndexToCoords(id, cols)
    {
      if cols == 0 then None
      else
        IndexOnBoard(id, rows, cols);
        var c := IndexToCoords(id, cols);
        if 0 <= c.y < rows && 0 <= c.x < cols then Some(board[c.y][c.x]) else None
    }

    /** `getNeighbors(x, y)`: the cell in each of the eight slots, or `None`
        where the slot falls off the grid. */
    function GetNeighbors(x: int, y: int): (s: seq<Option<Cell>>)
      reads this
      requires Valid() && InBounds(rows, cols, Coords(x, y))
      ensures |s| == 8
      ensures forall k :: 0 <= k < 8 ==>
                (s[k].Some? <==> NeighborSlots(rows, cols, Coords(x, y))[k].Some?)
      ensures forall k :: 0 <= k < 8 && s[k].Some? ==>
                && s[k].value in Repr
                && NeighborSlots(rows, cols, Coords(x, y))[k] == Some(Coords(s[k].value.x, s[k].value.y))
                && s[k].value.id == Id(NeighborSlots(rows, cols, Coords(x, y))[k].value, cols)
    {
      var slots, b := NeighborSlots(rows, cols, Coords(x, y)), board;
      seq(8, k requires 0 <= k < 8 =>
        if slots[k].Some? then Some(b[slots[k].value.y][slots[k].value.x]) else None)
    }

    /** `generateMines()`: `fillMines`, then `genInfo` when the mines are
        laid; `ok` is false where the source throws instead. */
    method GenerateMines(pick: (nat, nat) -> nat) returns (ok: bool)
      requires Valid() && ValidPicker(pick)
      modifies Repr
      ensures !(cols > 0 && 0 <= omitIdx < rows * cols) ==> !ok && Snapshot() == old(Snapshot())
      ensures cols > 0 && 0 <= omitIdx < rows * cols ==>
                var filled := MineDraw.FillMines(old(Snapshot()), rows, cols, omitIdx, mines, pick);
                && ok == !FillDraw(rows, cols, omitIdx, mines, pick).exhausted
                && Snapshot() == if ok then Grid.GenInfo(filled, rows, cols) else filled
    {
      ok := FillMines(pick);
      if ok {
        GenInfo();
      }
    }

    /** `fillMines()`: the ids of the first revealed cell and its neighbours
        are omitted from the candidate ids, and the draw loop lays the mines;
        `ok` is false where the source fails, on an off-grid `omitIdx` or an
        exhausted draw. */
    method FillMines(pick: (nat, nat) -> nat) returns (ok: bool)
      requires Valid() && ValidPicker(pick)
      modifies Repr
      ensures !(cols > 0 && 0 <= omitIdx < rows * cols) ==> !ok && Snapshot() == old(Snapshot())
      ensures cols > 0 && 0 <= omitIdx < rows * cols ==>
                && Snapshot() == MineDraw.FillMines(old(Snapshot()), rows, cols, omitIdx, mines, pick)
                && ok == !FillDraw(rows, cols, omitIdx, mines, pick).exhausted
    {
      ghost var g := Snapshot();
      var clicked := GetCellById(omitIdx);
      if clicked.None? {
        return false;
      }
      var clickedCell := clicked.value;
      var neighbors := GetNeighbors(clickedCell.x, clickedCell.y);
      var around := NeighbourIds(neighbors, NeighborSlots(rows, cols, Coords(clickedCell.x, clickedCell.y)));
      var omit := [omitIdx] + around;
      assert omit == OmitIds(rows, cols, omitIdx);
      var idx := Candidates(rows * cols, omit);
      CandidatesSound(rows * cols, omit);
      ok := LayMines(idx, pick, g);
      ShowsSnapshot(MineDraw.FillMines(g, rows, cols, omitIdx, mines, pick));
    }

    /** The `omitIdx.push(neighbor.id)` loop of `fillMines`: the ids of the
        cells in the filled slots, in slot order. */
    method NeighbourIds(neighbors: seq<Option<Cell>>, ghost slots: seq<Option<Coords>>) returns (ids: seq<int>)
      requires |neighbors| == |slots|
      requires forall k :: 0 <= k < |slots| ==> (neighbors[k].Some? <==> slots[k].Some?)
      requires forall k :: 0 <= k < |slots| && neighbors[k].Some? ==> neighbors[k].value.id == Id(slots[k].value, cols)
      ensures ids == SlotIds(slots, cols)
    {
      ids := [];
      for k := 0 to |neighbors|
        invariant ids == SlotIds(slots[..k], cols)
      {
        assert slots[..k + 1][..k] == slots[..k];
        if neighbors[k].Some? {
          ids := ids + [neighbors[k].value.id];
        }
      }
      assert slots[..|slots|] == slots;
    }

    /** The `while (count--)` loop of `fillMines`: `mines` rounds each take the
        id at a random position of `idx` (`pick(round, idx.length)` stands for
        `randomInt`), store the popped last id at that position, and lay a
        mine at the drawn id. */
    method LayMines(candidates: seq<int>, pick: (nat, nat) -> nat, ghost g: Board) returns (ok: bool)
      requires Valid() && ValidPicker(pick) && cols > 0 && Shows(g)
      requires IdsOnBoard(candidates, rows, cols)
      modifies Repr
      ensures var d := DrawMines(candidates, mines, pick);
        && IdsOnBoard(d.ids, rows, cols)
        && Shows(MarkMines(g, rows, cols, d.ids))
        && ok == !d.exhausted
    {
      var idx := candidates;
      var count := mines;
      var round := 0;
      ghost var drawn: seq<int> := [];
      while count > 0 && idx != []
        invariant Valid() && round + count == mines
        invariant Laid(candidates, pick, g, round, idx, drawn)
      {
        count := count - 1;
        var id;
        idx, id := LayRound(candidates, idx, round, pick, g, drawn);
        drawn := drawn + [id];
        round := round + 1;
      }
      DrawStops(candidates, round, mines, pick, idx, drawn);
      // A round that finds `idx` empty reads an undefined id and throws on
      // `board[NaN]`, ending `fillMines`; as written that happens only in the
      // first round, when there was no candidate, so no mine is laid.
      ok := count == 0;
    }

    /** After `round` rounds of the draw over `candidates`, `idx` is the list
        left and `drawn` the ids drawn, and the cells show `g` with those ids
        mined. */
    ghost predicate Laid(candidates: seq<int>, pick: (nat, nat) -> nat, g: Board, round: nat, idx: seq<int>, drawn: seq<int>)
      reads this, Repr
      requires Valid() && ValidPicker(pick) && cols > 0 && WellFormed(g, rows, cols)
    {
      && DrawMines(candidates, round, pick) == Draw(idx, drawn, false)
      && IdsOnBoard(idx, rows, cols) && IdsOnBoard(drawn, rows, cols)
      && Shows(MarkMines(g, rows, cols, drawn))
    }

    /** One round of the `while (count--)` loop, `idx[randId] = idx.pop()`:
        the id at position `randId = pick(round, idx.length)` is drawn, the
        last id is popped and stored at `randId`. When `randId` was the last
        position the store appends the popped id again, so the id just drawn
        stays in the list (see `DrawRepeats`). */
    method LayRound(ghost candidates: seq<int>, idx: seq<int>, round: nat, pick: (nat, nat) -> nat,
                    ghost g: Board, ghost drawn: seq<int>) returns (rest: seq<int>, id: int)
      requires Valid() && ValidPicker(pick) && cols > 0 && WellFormed(g, rows, cols) && idx != []
      requires Laid(candidates, pick, g, round, idx, drawn)
      modifies Repr
      ensures Laid(candidates, pick, g, round + 1, rest, drawn + [id])
    {
      var randId := pick(round, |idx|);
      id := idx[randId];
      var last := idx[|idx| - 1];
      rest := idx[..|idx| - 1];
      if randId < |rest| {
        rest := rest[randId := last];
      } else {
        rest := rest + [last];
      }
      assert rest == DrawStep(idx, randId);
      DrawStepOnBoard(idx, randId, rows, cols);
      LayMine(id, g, drawn);
    }

    /** `this.board[y][x].mine = true` at the coordinates of `id`: one more
        mine on the board the cells hold. */
    method LayMine(id: int, ghost g: Board, ghost drawn: seq<int>)
      requires Valid() && cols > 0 && WellFormed(g, rows, cols) && 0 <= id < rows * cols
      requires IdsOnBoard(drawn, rows, cols) && Shows(MarkMines(g, rows, cols, drawn))
      modifies Repr
      ensures IdsOnBoard(drawn + [id], rows, cols) && Shows(MarkMines(g, rows, cols, drawn + [id]))
    {
      var c := IndexToCoords(id, cols);
      ghost var h := MarkMines(g, rows, cols, drawn);
      MarkOneMore(g, rows, cols, drawn, id);
      board[c.y][c.x].mine := true;
      forall p | InBounds(rows, cols, p) ensures board[p.y][p.x].State() == At(Put(h, c, At(h, c).(mine := true)), p) {
        if p != c {
          assert board[p.y][p.x] != board[c.y][c.x];
        }
      }
    }

    /** `genInfo()`: every cell still marked empty gets the number of mined
        cells around it, is marked empty only when that number is zero, and
        takes the palette colour for it. */
    method GenInfo()
      requires Valid()
      modifies Repr
      ensures Snapshot() == Grid.GenInfo(old(Snapshot()), rows, cols)
    {
      ghost var g := Snapshot();
      ghost var r := Grid.GenInfo(g, rows, cols);
      var i := 0;
      while i < rows
        invariant 0 <= i <= rows
        invariant forall p :: InBounds(rows, cols, p) ==>
                    board[p.y][p.x].State() == if p.y < i then At(r, p) else At(g, p)
      {
        GenInfoRow(i, g);
        i := i + 1;
      }
      ShowsSnapshot(r);
    }

    /** The outer `genInfo` callback, for row `y`, on a grid whose mines are
        those of `g`. */
    method GenInfoRow(y: nat, ghost g: Board)
      requires Valid() && y < rows && WellFormed(g, rows, cols)
      requires forall p :: InBounds(rows, cols, p) ==> board[p.y][p.x].mine == At(g, p).mine
      modifies board[y]
      ensures forall x :: 0 <= x < cols ==>
                board[y][x].State() == WithCount(old(board[y][x].State()), MinedNeighbors(g, rows, cols, Coords(x, y)))
      ensures forall p :: InBounds(rows, cols, p) && p.y != y ==> board[p.y][p.x].State() == old(board[p.y][p.x].State())
    {
      var j := 0;
      while j < cols
        invariant 0 <= j <= cols
        invariant forall x :: 0 <= x < cols ==>
                    board[y][x].State() == if x < j then WithCount(old(board[y][x].State()), MinedNeighbors(g, rows, cols, Coords(x, y)))
                                           else old(board[y][x].State())
        invariant forall p :: InBounds(rows, cols, p) && p.y != y ==> board[p.y][p.x].State() == old(board[p.y][p.x].State())
        invariant forall p :: InBounds(rows, cols, p) ==> board[p.y][p.x].mine == At(g, p).mine
      {
        assert forall x :: 0 <= x < cols && x != j ==> board[y][x] != board[y][j];
        GenInfoAt(j, y, g);
        j := j + 1;
      }
    }

    /** The `genInfo` callback for the cell at column `x` of row `y`, on a
        grid whose mines are those of `g`. */
    method GenInfoAt(x: int, y: int, ghost g: Board)
      requires Valid() && InBounds(rows, cols, Coords(x, y)) && WellFormed(g, rows, cols)
      requires forall p :: InBounds(rows, cols, p) ==> board[p.y][p.x].mine == At(g, p).mine
      modifies board[y][x]
      ensures board[y][x].State() == WithCount(old(board[y][x].State()), MinedNeighbors(g, rows, cols, Coords(x, y)))
    {
      var cell := board[y][x];
      if !cell.isEmpty {
        return;
      }
      var neighbors := GetNeighbors(x, y);
      var countMine := CountMinedCells(neighbors, g, NeighborSlots(rows, cols, Coords(x, y)));
      cell.neighborsMineCount := countMine;
      cell.isEmpty := countMine == 0;
      cell.color := if countMine == 0 then NoColour else Palette(countMine - 1);
    }

    /** The eight `if (neighbors.k && neighbors.k.mine) countMine++` tests of
        `genInfo`, on a grid whose mines are those of `g`. */
    method CountMinedCells(neighbors: seq<Option<Cell>>, ghost g: Board, ghost slots: seq<Option<Coords>>)
      returns (countMine: nat)
      requires Valid() && WellFormed(g, rows, cols) && CellsAt(neighbors, slots) && InSlots(rows, cols, slots)
      requires forall p :: InBounds(rows, cols, p) ==> board[p.y][p.x].mine == At(g, p).mine
      ensures countMine == CountMined(g, slots)
    {
      countMine := 0;
      for k := 0 to |neighbors|
        invariant countMine + CountMined(g, slots[k..]) == CountMined(g, slots)
      {
        assert slots[k..][1..] == slots[k + 1..];
        if neighbors[k].Some? && neighbors[k].value.mine {
          countMine := countMine + 1;
        }
      }
    }

    /** `clickAt(x, y)`: a flagged cell ignores the click, a mined cell is
        opened and reported, any other cell starts `openCells`. */
    method ClickAt(x: int, y: int) returns (hitMine: bool)
      requires Valid() && InBounds(rows, cols, Coords(x, y))
      modifies Repr
      ensures var r := FloodFill.ClickAt(old(Snapshot()), rows, cols, Coords(x, y));
        Snapshot() == r.board && hitMine == r.hitMine
    {
      ghost var g := Snapshot();
      var cell := board[y][x];
      if cell.isFlagged {
        return false;
      }
      if cell.mine {
        cell.Open();
        forall q | InBounds(rows, cols, q) && q != Coords(x, y) ensures board[q.y][q.x].State() == At(g, q) {
          assert board[q.y][q.x] != cell;
        }
        ShowsPut(g, Coords(x, y), OpenState(At(g, Coords(x, y))));
        return true;
      }
      OpenCells(cell);
      return false;
    }

    /** `openCells(cell)`: the recursive reveal. A mined or opened cell stops
        it, a cell with mined neighbours is opened alone, and an empty cell is
        opened and the reveal goes on into each openable neighbour, in the
        order left, right, top, bottom, top-left, top-right, bottom-left,
        bottom-right. */
    method OpenCells(cell: Cell)
      requires Valid() && cell in Repr
      modifies Repr
      ensures Snapshot() == OpenFrom(old(Snapshot()), rows, cols, Coords(cell.x, cell.y))
      decreases Unopened(Snapshot(), rows, cols), if cell.isFlagged then 1 else 0, 0
    {
      ghost var g := Snapshot();
      ghost var p := Coords(cell.x, cell.y);
      assert board[p.y][p.x] == cell;
      if cell.mine || cell.isOpened {
        return;
      }
      cell.Open();
      forall q | InBounds(rows, cols, q) && q != p ensures board[q.y][q.x].State() == At(g, q) {
        assert board[q.y][q.x] != cell;
      }
      ghost var h := Put(g, p, OpenState(At(g, p)));
      ShowsPut(g, p, OpenState(At(g, p)));
      OpenOne(g, rows, cols, p);
      if !cell.isEmpty {
        return;
      }
      var neighbors := GetNeighbors(cell.x, cell.y);
      OpenNeighbours(neighbors, NeighborSlots(rows, cols, p));
    }

    /** The cells `neighbors` are those at the squares `slots`, slot by slot. */
    ghost predicate CellsAt(neighbors: seq<Option<Cell>>, slots: seq<Option<Coords>>)
      reads this
    {
      && |neighbors| == |slots|
      && forall k :: 0 <= k < |slots| ==>
           && (neighbors[k].Some? <==> slots[k].Some?)
           && (neighbors[k].Some? ==>
                 neighbors[k].value in Repr && slots[k] == Some(Coords(neighbors[k].value.x, neighbors[k].value.y)))
    }

    lemma CellsAtTail(neighbors: seq<Option<Cell>>, slots: seq<Option<Coords>>)
      requires CellsAt(neighbors, slots) && InSlots(rows, cols, slots) && neighbors != []
      ensures CellsAt(neighbors[1..], slots[1..]) && InSlots(rows, cols, slots[1..])
    {
    }

    /** The `if (neighbors.k && neighbors.k.isOpenable) this.openCells(neighbors.k)`
        statements of `openCells` for the given neighbours, in order. */
    method OpenNeighbours(neighbors: seq<Option<Cell>>, ghost slots: seq<Option<Coords>>)
      requires Valid() && CellsAt(neighbors, slots) && InSlots(rows, cols, slots)
      modifies Repr
      ensures Snapshot() == OpenEach(old(Snapshot()), rows, cols, slots)
      decreases Unopened(Snapshot(), rows, cols), 0, |neighbors|
    {
      if neighbors == [] {
        return;
      }
      ghost var g := Snapshot();
      if neighbors[0].Some? && neighbors[0].value.IsOpenable() {
        OpenCells(neighbors[0].value);
        OnlyOpensShrinks(g, Snapshot(), rows, cols);
      }
      CellsAtTail(neighbors, slots);
      OpenNeighbours(neighbors[1..], slots[1..]);
    }

    /** `getGameState()`: the opened cells counted row by row. */
    method GetGameState() returns (r: Outcome)
      requires Valid()
      ensures r == GameState(Snapshot(), rows, cols, mines)
    {
      ghost var g := Snapshot();
      var openedCellCount := 0;
      var totalCells := rows * cols;
      for i := 0 to rows
        invariant openedCellCount == CountBoard(g[..i], IsOpened)
      {
        var row := board[i];
        for j := 0 to cols
          invariant openedCellCount == CountBoard(g[..i], IsOpened) + CountRow(g[i][..j], IsOpened)
        {
          assert g[i][..j + 1][..j] == g[i][..j];
          if row[j].isOpened {
            openedCellCount := openedCellCount + 1;
          }
        }
        assert g[i][..cols] == g[i];
        assert g[..i + 1][..i] == g[..i];
      }
      assert g[..rows] == g;
      r := if totalCells - openedCellCount == mines then Win else Playable;
    }

    /** `getFlaggedMineCount()`: the flagged cells counted row by row. */
    method GetFlaggedMineCount() returns (count: nat)
      requires Valid()
      ensures count == CountBoard(Snapshot(), IsFlagged)
    {
      ghost var g := Snapshot();
      count := 0;
      for i := 0 to rows
        invariant count == CountBoard(g[..i], IsFlagged)
      {
        var row := board[i];
        for j := 0 to cols
          invariant count == CountBoard(g[..i], IsFlagged) + CountRow(g[i][..j], IsFlagged)
        {
          assert g[i][..j + 1][..j] == g[i][..j];
          if row[j].isFlagged {
            count := count + 1;
          }
        }
        assert g[i][..cols] == g[i];
        assert g[..i + 1][..i] == g[..i];
      }
      assert g[..rows] == g;
    }

    /** `openAllMines()`: every closed mine is opened, row by row. */
    method OpenAllMines()
      requires Valid()
      modifies Repr
      ensures Snapshot() == OpenMines(old(Snapshot()), rows, cols)
    {
      ghost var g := Snapshot();
      ghost var r := OpenMines(g, rows, cols);
      for i := 0 to rows
        invariant forall p :: InBounds(rows, cols, p) ==>
                    board[p.y][p.x].State() == if p.y < i then At(r, p) else At(g, p)
      {
        OpenMinesRow(i, g);
      }
      ShowsSnapshot(r);
    }

    /** The callback of `openAllMines` over row `y`. */
    method OpenMinesRow(y: int, ghost g: Board)
      requires Valid() && 0 <= y < rows && WellFormed(g, rows, cols)
      modifies board[y]
      ensures forall x :: 0 <= x < cols ==>
                board[y][x].State() == if old(board[y][x].State()).mine && !old(board[y][x].State()).isOpened
                                       then OpenState(old(board[y][x].State())) else old(board[y][x].State())
    {
      var row := board[y];
      for j := 0 to cols
        invariant forall x :: 0 <= x < cols ==>
                    board[y][x].State() == if x < j && old(board[y][x].State()).mine && !old(board[y][x].State()).isOpened
                                           then OpenState(old(board[y][x].State())) else old(board[y][x].State())
      {
        assert forall x :: 0 <= x < cols && x != j ==> board[y][x] != board[y][j];
        var cell := row[j];
        if cell.mine && !cell.isOpened {
          cell.Open();
        }
      }
    }
  }
}
