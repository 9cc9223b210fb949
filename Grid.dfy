/** The board of src/Minesweeper.ts as a value: a `rows` by `cols` grid of
    cell states indexed `g[y][x]`, and, as functions on it, what the engine's
    operations compute (neighbourhoods, mine counts, flood fill, the mine draw,
    the scans for opened and flagged cells). The class in Engine.dfy is proved
    to act on its cells as these functions say. */
module Grid {
  import opened Wrappers
  import opened Utils
  import opened Cells

  type Board = seq<seq<CellState>>

  predicate WellFormed(g: Board, rows: nat, cols: nat) {
    |g| == rows && forall y :: 0 <= y < rows ==> |g[y]| == cols
  }

  predicate InBounds(rows: int, cols: int, p: Coords) {
    0 <= p.x < cols && 0 <= p.y < rows
  }

  /** `p` indexes a cell of `g`. */
  predicate On(g: Board, p: Coords) {
    0 <= p.y < |g| && 0 <= p.x < |g[p.y]|
  }

  function At(g: Board, p: Coords): CellState
    requires On(g, p)
  {
    g[p.y][p.x]
  }

  /** `g` with the cell at `p` replaced by `c`. */
  function Put(g: Board, p: Coords, c: CellState): (r: Board)
    requires On(g, p)
    ensures |r| == |g| && forall y :: 0 <= y < |g| ==> |r[y]| == |g[y]|
    ensures forall q :: On(g, q) ==> At(r, q) == if q == p then c else At(g, q)
  {
    g[p.y := g[p.y][p.x := c]]
  }

  /** The id `initBoard` gives the cell at `p`. */
  function Id(p: Coords, cols: int): int {
    p.x + p.y * cols
  }

  /** Every position of a `rows` by `cols` board. */
  function Positions(rows: nat, cols: nat): (s: set<Coords>)
    ensures forall p :: p in s <==> InBounds(rows, cols, p)
  {
    var s := set x, y | 0 <= x < cols && 0 <= y < rows :: Coords(x, y);
    assert forall p :: InBounds(rows, cols, p) ==> Coords(p.x, p.y) in s;
    s
  }

  /** The board `initBoard` builds: every cell in its initial state. */
  function FreshBoard(rows: nat, cols: nat): (g: Board)
    ensures WellFormed(g, rows, cols)
    ensures forall p :: InBounds(rows, cols, p) ==> At(g, p) == Initial
  {
    seq(rows, y => seq(cols, x => Initial))
  }

  /** `q` is one of the up to eight squares around `p`. */
  predicate Adjacent(p: Coords, q: Coords) {
    p != q && -1 <= p.x - q.x <= 1 && -1 <= p.y - q.y <= 1
  }

  // ---------------------------------------------------------------------------
  // getNeighbors

  /** The neighbourhood object of `getNeighbors(x, y)`, entry by entry in its
      key order (left, right, top, bottom, topLeft, topRight, bottomLeft,
      bottomRight); `None` stands for the `false` of an off-board entry. Each
      entry tests only the side of the board it moves towards. */
  function NeighborSlots(rows: int, cols: int, p: Coords): (s: seq<Option<Coords>>)
    requires InBounds(rows, cols, p)
    ensures |s| == 8
    ensures forall k :: 0 <= k < 8 ==> s[k] == Slot(rows, cols, p, k)
  {
    seq(8, k requires 0 <= k < 8 => Slot(rows, cols, p, k))
  }

  /** Entry `k` of the neighbourhood object. */
  function Slot(rows: int, cols: int, p: Coords, k: nat): (s: Option<Coords>)
    requires InBounds(rows, cols, p) && k < 8
    ensures s.Some? ==> InBounds(rows, cols, s.value) && Adjacent(p, s.value)
  {
    var l, r, t, d := p.x - 1, p.x + 1, p.y - 1, p.y + 1;
    match k
    case 0 => if l >= 0 then Some(Coords(l, p.y)) else None
    case 1 => if r < cols then Some(Coords(r, p.y)) else None
    case 2 => if t >= 0 then Some(Coords(p.x, t)) else None
    case 3 => if d < rows then Some(Coords(p.x, d)) else None
    case 4 => if t >= 0 && l >= 0 then Some(Coords(l, t)) else None
    case 5 => if t >= 0 && r < cols then Some(Coords(r, t)) else None
    case 6 => if d < rows && l >= 0 then Some(Coords(l, d)) else None
    case _ => if d < rows && r < cols then Some(Coords(r, d)) else None
  }

  /** The slot `getNeighbors` files an adjacent square under. */
  function SlotOf(p: Coords, q: Coords): (k: nat)
    requires Adjacent(p, q)
    ensures k < 8
  {
    if q.y == p.y then (if q.x < p.x then 0 else 1)
    else if q.x == p.x then (if q.y < p.y then 2 else 3)
    else if q.y < p.y then (if q.x < p.x then 4 else 5)
    else (if q.x < p.x then 6 else 7)
  }

  /** The slot an adjacent on-board square is filed under holds it. */
  lemma SlotHolds(rows: int, cols: int, p: Coords, q: Coords)
    requires InBounds(rows, cols, p) && InBounds(rows, cols, q) && Adjacent(p, q)
    ensures NeighborSlots(rows, cols, p)[SlotOf(p, q)] == Some(q)
  {
    assert Slot(rows, cols, p, SlotOf(p, q)) == Some(q);
  }

  /** Each filled slot holds the square filed under it. */
  lemma SlotFiled(rows: int, cols: int, p: Coords, k: nat)
    requires InBounds(rows, cols, p) && k < 8 && NeighborSlots(rows, cols, p)[k].Some?
    ensures SlotOf(p, NeighborSlots(rows, cols, p)[k].value) == k
  {
  }

  /** `getNeighbors` yields every on-board square around the cell, each in
      one slot only, never the cell itself, and all eight of them for a cell
      away from the edges. */
  lemma NeighborSlotsExact(rows: int, cols: int, p: Coords)
    requires InBounds(rows, cols, p)
    ensures forall q :: InBounds(rows, cols, q) && Adjacent(p, q) ==> Some(q) in NeighborSlots(rows, cols, p)
    ensures Some(p) !in NeighborSlots(rows, cols, p)
    ensures SlotsDistinct(NeighborSlots(rows, cols, p))
    ensures 0 < p.x < cols - 1 && 0 < p.y < rows - 1 ==>
              forall k :: 0 <= k < 8 ==> NeighborSlots(rows, cols, p)[k].Some?
  {
    var s := NeighborSlots(rows, cols, p);
    forall q | InBounds(rows, cols, q) && Adjacent(p, q)
      ensures Some(q) in s
    {
      SlotHolds(rows, cols, p, q);
    }
    forall i, j | 0 <= i < j < 8 && s[i].Some? && s[j].Some?
      ensures s[i].value != s[j].value
    {
      SlotFiled(rows, cols, p, i);
      SlotFiled(rows, cols, p, j);
    }
  }

  /** The slots of a neighbourhood list name cells of the board. */
  predicate SlotsOn(g: Board, slots: seq<Option<Coords>>) {
    forall k :: 0 <= k < |slots| && slots[k].Some? ==> On(g, slots[k].value)
  }

  /** No cell appears in two slots. */
  predicate SlotsDistinct(slots: seq<Option<Coords>>) {
    forall i, j :: 0 <= i < j < |slots| && slots[i].Some? && slots[j].Some? ==>
      slots[i].value != slots[j].value
  }

  // ---------------------------------------------------------------------------
  // genInfo

  /** How many slots hold a mined cell: the `countMine++` tests of `genInfo`. */
  function CountMined(g: Board, slots: seq<Option<Coords>>): nat
    requires SlotsOn(g, slots)
  {
    if slots == [] then 0
    else (if slots[0].Some? && At(g, slots[0].value).mine then 1 else 0) + CountMined(g, slots[1..])
  }

  function MinedNeighbors(g: Board, rows: nat, cols: nat, p: Coords): nat
    requires WellFormed(g, rows, cols) && InBounds(rows, cols, p)
  {
    CountMined(g, NeighborSlots(rows, cols, p))
  }

  /** The mined squares around `p`, counted directly over the whole board. */
  function AdjacentMines(g: Board, rows: nat, cols: nat, p: Coords): set<Coords>
    requires WellFormed(g, rows, cols)
  {
    set q | q in Positions(rows, cols) && Adjacent(p, q) && At(g, q).mine
  }

  /** The mined cells named by a list of slots. */
  function MinedInSlots(g: Board, slots: seq<Option<Coords>>): (m: set<Coords>)
    requires SlotsOn(g, slots)
    ensures forall q :: q in m <==> Some(q) in slots && On(g, q) && At(g, q).mine
  {
    if slots == [] then {}
    else
      assert forall q :: Some(q) in slots <==> slots[0] == Some(q) || Some(q) in slots[1..];
      (if slots[0].Some? && At(g, slots[0].value).mine then {slots[0].value} else {})
        + MinedInSlots(g, slots[1..])
  }

  lemma {:induction false} CountMinedIsCardinality(g: Board, slots: seq<Option<Coords>>)
    requires SlotsOn(g, slots) && SlotsDistinct(slots)
    ensures CountMined(g, slots) == |MinedInSlots(g, slots)|
  {
    if slots != [] {
      var rest := slots[1..];
      assert SlotsDistinct(rest) by {
        forall i, j | 0 <= i < j < |rest| && rest[i].Some? && rest[j].Some?
          ensures rest[i].value != rest[j].value
        {
          assert rest[i] == slots[i + 1] && rest[j] == slots[j + 1];
        }
      }
      CountMinedIsCardinality(g, rest);
    }
  }

  /** The count `genInfo` computes through the neighbourhood object is the
      number of mined squares around the cell, and so at most eight. */
  lemma MinedNeighborsCount(g: Board, rows: nat, cols: nat, p: Coords)
    requires WellFormed(g, rows, cols) && InBounds(rows, cols, p)
    ensures MinedNeighbors(g, rows, cols, p) == |AdjacentMines(g, rows, cols, p)|
    ensures MinedNeighbors(g, rows, cols, p) <= 8
  {
    var slots := NeighborSlots(rows, cols, p);
    NeighborSlotsExact(rows, cols, p);
    CountMinedIsCardinality(g, slots);
    SlottedMines(g, rows, cols, p);
    CountMinedAtMost(g, slots);
  }

  /** The mined squares the neighbourhood object names are the mined squares
      around the cell. */
  lemma SlottedMines(g: Board, rows: nat, cols: nat, p: Coords)
    requires WellFormed(g, rows, cols) && InBounds(rows, cols, p)
    ensures MinedInSlots(g, NeighborSlots(rows, cols, p)) == AdjacentMines(g, rows, cols, p)
  {
    var slots := NeighborSlots(rows, cols, p);
    var m, a := MinedInSlots(g, slots), AdjacentMines(g, rows, cols, p);
    forall q | q in a ensures q in m {
      SlotHolds(rows, cols, p, q);
    }
    forall q | q in m ensures q in a {
      var k :| 0 <= k < 8 && slots[k] == Some(q);
    }
  }

  lemma {:induction false} CountMinedAtMost(g: Board, slots: seq<Option<Coords>>)
    requires SlotsOn(g, slots)
    ensures CountMined(g, slots) <= |slots|
  {
    if slots != [] {
      CountMinedAtMost(g, slots[1..]);
    }
  }

  /** Two boards with the same mines give every cell the same count. */
  lemma {:induction false} CountMinedOnlyMines(g: Board, h: Board, slots: seq<Option<Coords>>)
    requires SlotsOn(g, slots) && SlotsOn(h, slots)
    requires forall k :: 0 <= k < |slots| && slots[k].Some? ==>
               At(g, slots[k].value).mine == At(h, slots[k].value).mine
    ensures CountMined(g, slots) == CountMined(h, slots)
  {
    if slots != [] {
      CountMinedOnlyMines(g, h, slots[1..]);
    }
  }

  /** What `genInfo` writes into one cell given its mined-neighbour count:
      a cell already marked non-empty is skipped. */
  function WithCount(c: CellState, n: nat): CellState {
    if !c.isEmpty then c
    else c.(count := n, isEmpty := n == 0, colour := if n == 0 then NoColour else Palette(n - 1))
  }

  /** `genInfo` over the whole board. */
  function GenInfo(g: Board, rows: nat, cols: nat): (r: Board)
    requires WellFormed(g, rows, cols)
    ensures WellFormed(r, rows, cols)
    ensures forall p :: InBounds(rows, cols, p) ==>
              At(r, p) == WithCount(At(g, p), MinedNeighbors(g, rows, cols, p))
  {
    seq(rows, y requires 0 <= y < rows =>
      seq(cols, x requires 0 <= x < cols =>
        WithCount(g[y][x], MinedNeighbors(g, rows, cols, Coords(x, y)))))
  }

  /** Every cell's count, emptiness and colour agree with the mines around it. */
  ghost predicate Informed(g: Board, rows: nat, cols: nat)
    requires WellFormed(g, rows, cols)
  {
    forall p :: InBounds(rows, cols, p) ==>
      var c := At(g, p);
      && c.count == |AdjacentMines(g, rows, cols, p)|
      && (c.isEmpty <==> c.count == 0)
      && c.colour == (if c.count == 0 then NoColour else Palette(c.count - 1))
      && (c.count > 0 ==> c.colour.index < 8)
  }

  /** On a board whose cells are all still empty (as `initBoard` and `reset`
      leave them), `genInfo` makes every count exact, marks exactly the cells
      with no mined neighbour empty, picks palette entry `count - 1` for the
      others, and moves no mine. */
  lemma GenInfoOnFreshBoard(g: Board, rows: nat, cols: nat)
    requires WellFormed(g, rows, cols)
    requires forall p :: InBounds(rows, cols, p) ==> At(g, p).isEmpty
    ensures Informed(GenInfo(g, rows, cols), rows, cols)
    ensures forall p :: InBounds(rows, cols, p) ==> At(GenInfo(g, rows, cols), p).mine == At(g, p).mine
  {
    var r := GenInfo(g, rows, cols);
    forall p | InBounds(rows, cols, p)
      ensures At(r, p).count == |AdjacentMines(r, rows, cols, p)|
      ensures (At(r, p).isEmpty <==> At(r, p).count == 0)
      ensures At(r, p).colour == (if At(r, p).count == 0 then NoColour else Palette(At(r, p).count - 1))
      ensures At(r, p).count > 0 ==> At(r, p).colour.index < 8
    {
      MinedNeighborsCount(g, rows, cols, p);
      assert AdjacentMines(r, rows, cols, p) == AdjacentMines(g, rows, cols, p);
    }
  }
}
