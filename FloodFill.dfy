/** `openCells` and `clickAt` of src/Minesweeper.ts on the board value: the
    recursive reveal from a clicked cell, and what it does and does not open. */
module FloodFill {
  import opened Wrappers
  import opened Utils
  import opened Cells
  import opened Grid

  /** The positions of `g` not yet opened: the measure the reveal shrinks. */
  function Unopened(g: Board, rows: nat, cols: nat): (u: set<Coords>)
    requires WellFormed(g, rows, cols)
    ensures forall p :: p in u <==> InBounds(rows, cols, p) && !At(g, p).isOpened
  {
    set p | p in Positions(rows, cols) && !At(g, p).isOpened
  }

  /** `r` differs from `g` only where the reveal may act: each cell keeps its
      state or goes from unopened, unflagged and mine-free to opened. */
  ghost predicate OnlyOpens(g: Board, r: Board, rows: nat, cols: nat) {
    && WellFormed(g, rows, cols)
    && WellFormed(r, rows, cols)
    && forall p :: InBounds(rows, cols, p) ==>
         || At(r, p) == At(g, p)
         || (Openable(At(g, p)) && !At(g, p).mine && At(r, p) == At(g, p).(isOpened := true))
  }

  /** Every filled slot names a square of the board. */
  predicate InSlots(rows: nat, cols: nat, slots: seq<Option<Coords>>) {
    forall k :: 0 <= k < |slots| && slots[k].Some? ==> InBounds(rows, cols, slots[k].value)
  }

  lemma OnlyOpensTransitive(g: Board, h: Board, r: Board, rows: nat, cols: nat)
    requires OnlyOpens(g, h, rows, cols) && OnlyOpens(h, r, rows, cols)
    ensures OnlyOpens(g, r, rows, cols)
  {
    forall p | InBounds(rows, cols, p)
      ensures || At(r, p) == At(g, p)
              || (Openable(At(g, p)) && !At(g, p).mine && At(r, p) == At(g, p).(isOpened := true))
    {
      if At(h, p) != At(g, p) {
        assert At(r, p) == At(h, p);
      }
    }
  }

  /** A reveal never closes a cell, so the unopened positions only shrink. */
  lemma OnlyOpensShrinks(g: Board, r: Board, rows: nat, cols: nat)
    requires OnlyOpens(g, r, rows, cols)
    ensures Unopened(r, rows, cols) <= Unopened(g, rows, cols)
  {
  }

  /** Opening one unopened, unflagged, mine-free cell. */
  lemma OpenOne(g: Board, rows: nat, cols: nat, p: Coords)
    requires WellFormed(g, rows, cols) && InBounds(rows, cols, p)
    requires !At(g, p).mine && !At(g, p).isOpened
    ensures OnlyOpens(g, Put(g, p, OpenState(At(g, p))), rows, cols)
    ensures !At(g, p).isFlagged ==>
              Unopened(Put(g, p, OpenState(At(g, p))), rows, cols) < Unopened(g, rows, cols)
    ensures At(g, p).isFlagged ==> Put(g, p, OpenState(At(g, p))) == g
  {
    var h := Put(g, p, OpenState(At(g, p)));
    if At(g, p).isFlagged {
      assert g[p.y][p.x := At(g, p)] == g[p.y];
    } else {
      assert p !in Unopened(h, rows, cols);
    }
  }

  // ---------------------------------------------------------------------------
  // openCells

  /** `openCells(cell)` at `p`: a mined or opened cell stops the reveal, a cell
      with mined neighbours is opened alone, and an empty one is opened and
      the reveal continues into each openable neighbour in slot order. */
  function OpenFrom(g: Board, rows: nat, cols: nat, p: Coords): (r: Board)
    requires WellFormed(g, rows, cols) && InBounds(rows, cols, p)
    ensures OnlyOpens(g, r, rows, cols)
    decreases Unopened(g, rows, cols), if At(g, p).isFlagged then 1 else 0, 0
  {
    var c := At(g, p);
    if c.mine || c.isOpened then g
    else if !c.isEmpty then OpenOne(g, rows, cols, p); Put(g, p, OpenState(c))
    else
      var h := Put(g, p, OpenState(c));
      OpenOne(g, rows, cols, p);
      var r := OpenEach(h, rows, cols, NeighborSlots(rows, cols, p));
      OnlyOpensTransitive(g, h, r, rows, cols);
      r
  }

  /** The `if (neighbors.k && neighbors.k.isOpenable) this.openCells(...)`
      statements for the slots `slots`, in order, each on the board the
      previous ones left. */
  function OpenEach(g: Board, rows: nat, cols: nat, slots: seq<Option<Coords>>): (r: Board)
    requires WellFormed(g, rows, cols) && InSlots(rows, cols, slots)
    ensures OnlyOpens(g, r, rows, cols)
    decreases Unopened(g, rows, cols), 0, |slots|
  {
    if slots == [] then g
    else
      var h := if slots[0].Some? && Openable(At(g, slots[0].value))
               then OpenFrom(g, rows, cols, slots[0].value) else g;
      OnlyOpensShrinks(g, h, rows, cols);
      var r := OpenEach(h, rows, cols, slots[1..]);
      OnlyOpensTransitive(g, h, r, rows, cols);
      r
  }

  // ---------------------------------------------------------------------------
  // What the reveal opens

  /** Every mine-free, unflagged square around `p` is opened in `r`. */
  ghost predicate NeighboursOpened(r: Board, rows: nat, cols: nat, p: Coords)
    requires WellFormed(r, rows, cols)
  {
    forall q :: InBounds(rows, cols, q) && Adjacent(p, q) && !At(r, q).mine && !At(r, q).isFlagged ==>
      At(r, q).isOpened
  }

  /** `p` was closed in `g` and is open in `r`. */
  predicate NewlyOpened(g: Board, r: Board, rows: nat, cols: nat, p: Coords)
    requires WellFormed(g, rows, cols) && WellFormed(r, rows, cols)
  {
    InBounds(rows, cols, p) && !At(g, p).isOpened && At(r, p).isOpened
  }

  /** Closure of the reveal: each cell it opened that has no mined neighbour
      has all its mine-free, unflagged neighbours opened too. */
  ghost predicate Closed(g: Board, r: Board, rows: nat, cols: nat)
    requires WellFormed(g, rows, cols) && WellFormed(r, rows, cols)
  {
    forall p :: NewlyOpened(g, r, rows, cols, p) && At(r, p).isEmpty ==>
      NeighboursOpened(r, rows, cols, p)
  }

  /** Each slot's cell, unless mined or flagged, is opened in `r`. */
  ghost predicate Covers(r: Board, rows: nat, cols: nat, slots: seq<Option<Coords>>)
    requires WellFormed(r, rows, cols) && InSlots(rows, cols, slots)
  {
    forall k ::
      0 <= k < |slots| && slots[k].Some? && !At(r, slots[k].value).mine && !At(r, slots[k].value).isFlagged
      ==> At(r, slots[k].value).isOpened
  }

  lemma NeighboursStayOpened(h: Board, r: Board, rows: nat, cols: nat, p: Coords)
    requires OnlyOpens(h, r, rows, cols) && NeighboursOpened(h, rows, cols, p)
    ensures NeighboursOpened(r, rows, cols, p)
  {
    forall q | InBounds(rows, cols, q) && Adjacent(p, q) && !At(r, q).mine && !At(r, q).isFlagged
      ensures At(r, q).isOpened
    {
      assert At(h, q).isOpened;
    }
  }

  lemma ClosedTransitive(g: Board, h: Board, r: Board, rows: nat, cols: nat)
    requires OnlyOpens(g, h, rows, cols) && OnlyOpens(h, r, rows, cols)
    requires Closed(g, h, rows, cols) && Closed(h, r, rows, cols)
    ensures Closed(g, r, rows, cols)
  {
    forall p | NewlyOpened(g, r, rows, cols, p) && At(r, p).isEmpty
      ensures NeighboursOpened(r, rows, cols, p)
    {
      if At(h, p).isOpened {
        assert NewlyOpened(g, h, rows, cols, p);
        NeighboursStayOpened(h, r, rows, cols, p);
      } else {
        assert NewlyOpened(h, r, rows, cols, p);
      }
    }
  }

  /** The reveal from `p` is closed, and it opens `p` itself unless `p` is a
      mine or flagged. */
  lemma {:induction false} OpenFromClosed(g: Board, rows: nat, cols: nat, p: Coords)
    requires WellFormed(g, rows, cols) && InBounds(rows, cols, p)
    ensures Closed(g, OpenFrom(g, rows, cols, p), rows, cols)
    ensures !At(g, p).mine && !At(g, p).isFlagged ==> At(OpenFrom(g, rows, cols, p), p).isOpened
    decreases Unopened(g, rows, cols), if At(g, p).isFlagged then 1 else 0, 0
  {
    var c := At(g, p);
    var r := OpenFrom(g, rows, cols, p);
    if c.mine || c.isOpened {
    } else if !c.isEmpty {
    } else {
      var h := Put(g, p, OpenState(c));
      var slots := NeighborSlots(rows, cols, p);
      OpenOne(g, rows, cols, p);
      OpenEachClosed(h, rows, cols, slots);
      assert r == OpenEach(h, rows, cols, slots);
      forall q | NewlyOpened(g, r, rows, cols, q) && At(r, q).isEmpty
        ensures NeighboursOpened(r, rows, cols, q)
      {
        if q == p {
          AroundCovered(r, rows, cols, p);
        } else {
          assert NewlyOpened(h, r, rows, cols, q);
        }
      }
    }
  }

  /** A reveal covering the neighbourhood slots of `p` opens every mine-free,
      unflagged square around `p`. */
  lemma AroundCovered(r: Board, rows: nat, cols: nat, p: Coords)
    requires WellFormed(r, rows, cols) && InBounds(rows, cols, p)
    requires Covers(r, rows, cols, NeighborSlots(rows, cols, p))
    ensures NeighboursOpened(r, rows, cols, p)
  {
    forall q | InBounds(rows, cols, q) && Adjacent(p, q) && !At(r, q).mine && !At(r, q).isFlagged
      ensures At(r, q).isOpened
    {
      SlotHolds(rows, cols, p, q);
    }
  }

  /** The reveals of a list of slots are closed together, and they cover the
      slots. */
  lemma {:induction false} OpenEachClosed(g: Board, rows: nat, cols: nat, slots: seq<Option<Coords>>)
    requires WellFormed(g, rows, cols) && InSlots(rows, cols, slots)
    ensures Closed(g, OpenEach(g, rows, cols, slots), rows, cols)
    ensures Covers(OpenEach(g, rows, cols, slots), rows, cols, slots)
    decreases Unopened(g, rows, cols), 0, |slots|
  {
    if slots != [] {
      var h := if slots[0].Some? && Openable(At(g, slots[0].value))
               then OpenFrom(g, rows, cols, slots[0].value) else g;
      if slots[0].Some? && Openable(At(g, slots[0].value)) {
        OpenFromClosed(g, rows, cols, slots[0].value);
      }
      OnlyOpensShrinks(g, h, rows, cols);
      var rest := slots[1..];
      OpenEachClosed(h, rows, cols, rest);
      var r := OpenEach(h, rows, cols, rest);
      assert r == OpenEach(g, rows, cols, slots);
      ClosedTransitive(g, h, r, rows, cols);
      forall k | 0 <= k < |slots| && slots[k].Some? && !At(r, slots[k].value).mine &&
        !At(r, slots[k].value).isFlagged
        ensures At(r, slots[k].value).isOpened
      {
        if k == 0 {
          assert At(h, slots[0].value).isOpened;
        } else {
          assert slots[k] == rest[k - 1];
        }
      }
    }
  }

  // ---------------------------------------------------------------------------
  // Only reachable cells are opened

  /** A chain of squares along which the reveal can travel on `g`: each is
      closed and mine-free, each after the first is unflagged and adjacent to
      the one before, and each but the last has no mined neighbour. */
  ghost predicate RevealPath(g: Board, rows: nat, cols: nat, path: seq<Coords>)
    requires WellFormed(g, rows, cols)
  {
    && |path| >= 1
    && (forall i :: 0 <= i < |path| ==>
          InBounds(rows, cols, path[i]) && !At(g, path[i]).isOpened && !At(g, path[i]).mine)
    && (forall i :: 1 <= i < |path| ==> !At(g, path[i]).isFlagged && Adjacent(path[i - 1], path[i]))
    && (forall i :: 0 <= i < |path| - 1 ==> At(g, path[i]).isEmpty)
  }

  /** A reveal path leads on `g` from `p` to `q`. */
  ghost predicate Reaches(g: Board, rows: nat, cols: nat, p: Coords, q: Coords)
    requires WellFormed(g, rows, cols)
  {
    exists path :: RevealPath(g, rows, cols, path) && path[0] == p && path[|path| - 1] == q
  }

  /** A reveal path on a later board is one on the earlier board too. */
  lemma PathEarlier(g: Board, h: Board, rows: nat, cols: nat, path: seq<Coords>)
    requires OnlyOpens(g, h, rows, cols) && RevealPath(h, rows, cols, path)
    ensures RevealPath(g, rows, cols, path)
  {
    forall i | 0 <= i < |path|
      ensures At(g, path[i]) == At(h, path[i])
    {
    }
  }

  /** The slot cells the reveal of `slots` may start from: `q` is reached on
      `g` from an openable slot. */
  ghost predicate FromSlots(g: Board, rows: nat, cols: nat, slots: seq<Option<Coords>>, q: Coords)
    requires WellFormed(g, rows, cols) && InSlots(rows, cols, slots)
  {
    exists k :: 0 <= k < |slots| && slots[k].Some? && Openable(At(g, slots[k].value)) &&
      Reaches(g, rows, cols, slots[k].value, q)
  }

  /** Soundness of the reveal from `p`: every cell it opens is reached from `p`
      along a reveal path. */
  lemma {:induction false} OpenFromSound(g: Board, rows: nat, cols: nat, p: Coords)
    requires WellFormed(g, rows, cols) && InBounds(rows, cols, p)
    ensures forall q :: NewlyOpened(g, OpenFrom(g, rows, cols, p), rows, cols, q) ==>
              Reaches(g, rows, cols, p, q)
    decreases Unopened(g, rows, cols), if At(g, p).isFlagged then 1 else 0, 0
  {
    var c := At(g, p);
    var r := OpenFrom(g, rows, cols, p);
    if c.mine || c.isOpened {
    } else if !c.isEmpty {
      assert RevealPath(g, rows, cols, [p]);
    } else {
      var h := Put(g, p, OpenState(c));
      var slots := NeighborSlots(rows, cols, p);
      OpenOne(g, rows, cols, p);
      OpenEachSound(h, rows, cols, slots);
      assert r == OpenEach(h, rows, cols, slots);
      assert RevealPath(g, rows, cols, [p]);
      forall q | NewlyOpened(h, r, rows, cols, q) ensures Reaches(g, rows, cols, p, q) {
        ThroughNeighbour(g, h, rows, cols, p, q);
      }
    }
  }

  /** A cell reached on `h` (the board with the empty cell `p` just opened)
      from an openable neighbourhood slot of `p` is reached from `p` on `g`. */
  lemma ThroughNeighbour(g: Board, h: Board, rows: nat, cols: nat, p: Coords, q: Coords)
    requires WellFormed(g, rows, cols) && InBounds(rows, cols, p)
    requires !At(g, p).isOpened && !At(g, p).mine && At(g, p).isEmpty
    requires OnlyOpens(g, h, rows, cols)
    requires FromSlots(h, rows, cols, NeighborSlots(rows, cols, p), q)
    ensures Reaches(g, rows, cols, p, q)
  {
    var slots := NeighborSlots(rows, cols, p);
    var k :| 0 <= k < |slots| && slots[k].Some? && Openable(At(h, slots[k].value)) &&
      Reaches(h, rows, cols, slots[k].value, q);
    var path :| RevealPath(h, rows, cols, path) && path[0] == slots[k].value &&
      path[|path| - 1] == q;
    PathEarlier(g, h, rows, cols, path);
    ExtendBack(g, rows, cols, p, path);
  }

  /** Prefixing an empty, closed, mine-free cell to a path that starts at an
      unflagged neighbour of it gives a reveal path. */
  lemma ExtendBack(g: Board, rows: nat, cols: nat, p: Coords, path: seq<Coords>)
    requires WellFormed(g, rows, cols) && InBounds(rows, cols, p) && RevealPath(g, rows, cols, path)
    requires !At(g, p).isOpened && !At(g, p).mine && At(g, p).isEmpty
    requires Adjacent(p, path[0]) && !At(g, path[0]).isFlagged
    ensures RevealPath(g, rows, cols, [p] + path)
    ensures Reaches(g, rows, cols, p, path[|path| - 1])
  {
    var full := [p] + path;
    assert forall i :: 1 <= i < |full| ==> full[i] == path[i - 1];
    assert full[|full| - 1] == path[|path| - 1];
  }

  /** Soundness of the reveals of a list of slots: every cell they open is
      reached from one of the openable slots. */
  lemma {:induction false} OpenEachSound(g: Board, rows: nat, cols: nat, slots: seq<Option<Coords>>)
    requires WellFormed(g, rows, cols) && InSlots(rows, cols, slots)
    ensures forall q :: NewlyOpened(g, OpenEach(g, rows, cols, slots), rows, cols, q) ==>
              FromSlots(g, rows, cols, slots, q)
    decreases Unopened(g, rows, cols), 0, |slots|
  {
    if slots != [] {
      var first := slots[0].Some? && Openable(At(g, slots[0].value));
      var h := if first then OpenFrom(g, rows, cols, slots[0].value) else g;
      if first {
        OpenFromSound(g, rows, cols, slots[0].value);
      }
      OnlyOpensShrinks(g, h, rows, cols);
      var rest := slots[1..];
      OpenEachSound(h, rows, cols, rest);
      var r := OpenEach(h, rows, cols, rest);
      assert r == OpenEach(g, rows, cols, slots);
      forall q | NewlyOpened(g, r, rows, cols, q) ensures FromSlots(g, rows, cols, slots, q) {
        if At(h, q).isOpened {
          assert NewlyOpened(g, h, rows, cols, q);
          assert Reaches(g, rows, cols, slots[0].value, q);
        } else {
          assert NewlyOpened(h, r, rows, cols, q);
          FromLaterSlots(g, h, rows, cols, slots, q);
        }
      }
    }
  }

  /** A cell reached on `h` from an openable slot after the first is reached
      on the earlier board `g` from the same slot. */
  lemma FromLaterSlots(g: Board, h: Board, rows: nat, cols: nat, slots: seq<Option<Coords>>, q: Coords)
    requires OnlyOpens(g, h, rows, cols) && InSlots(rows, cols, slots) && slots != []
    requires FromSlots(h, rows, cols, slots[1..], q)
    ensures FromSlots(g, rows, cols, slots, q)
  {
    var rest := slots[1..];
    var k :| 0 <= k < |rest| && rest[k].Some? && Openable(At(h, rest[k].value)) &&
      Reaches(h, rows, cols, rest[k].value, q);
    var path :| RevealPath(h, rows, cols, path) && path[0] == rest[k].value &&
      path[|path| - 1] == q;
    PathEarlier(g, h, rows, cols, path);
    assert slots[k + 1] == rest[k];
    assert At(g, rest[k].value) == At(h, rest[k].value);
  }

  // ---------------------------------------------------------------------------
  // Every reachable cell is opened

  /** Completeness: from an unflagged cell, the reveal opens every cell a
      reveal path leads to. */
  lemma OpenFromComplete(g: Board, rows: nat, cols: nat, p: Coords, path: seq<Coords>)
    requires WellFormed(g, rows, cols) && InBounds(rows, cols, p) && !At(g, p).isFlagged
    requires RevealPath(g, rows, cols, path) && path[0] == p
    ensures At(OpenFrom(g, rows, cols, p), path[|path| - 1]).isOpened
  {
    OpenFromClosed(g, rows, cols, p);
    PathOpened(g, OpenFrom(g, rows, cols, p), rows, cols, path, |path| - 1);
  }

  lemma {:induction false} PathOpened(g: Board, r: Board, rows: nat, cols: nat, path: seq<Coords>, i: nat)
    requires OnlyOpens(g, r, rows, cols) && Closed(g, r, rows, cols)
    requires RevealPath(g, rows, cols, path) && At(r, path[0]).isOpened && i < |path|
    ensures At(r, path[i]).isOpened
  {
    if i > 0 {
      PathOpened(g, r, rows, cols, path, i - 1);
      var a := path[i - 1];
      assert NewlyOpened(g, r, rows, cols, a) && At(r, a).isEmpty;
      assert NeighboursOpened(r, rows, cols, a);
      assert At(r, path[i]) == At(g, path[i]) || At(r, path[i]).isOpened;
    }
  }

  // ---------------------------------------------------------------------------
  // clickAt

  datatype Click = Click(board: Board, hitMine: bool)

  /** `clickAt(x, y)`: a flagged cell ignores the click; a mined cell is opened
      alone and reported; any other cell starts a reveal. */
  function ClickAt(g: Board, rows: nat, cols: nat, p: Coords): (r: Click)
    requires WellFormed(g, rows, cols) && InBounds(rows, cols, p)
    ensures OnlyOpens(g, r.board, rows, cols) || (r.hitMine && At(g, p).mine)
  {
    var c := At(g, p);
    if c.isFlagged then Click(g, false)
    else if c.mine then Click(Put(g, p, OpenState(c)), true)
    else Click(OpenFrom(g, rows, cols, p), false)
  }

  /** The cases of `clickAt`: a click on a flag changes nothing; a click on a
      mine opens exactly that cell and reports it; any other click reports no
      mine, opens the clicked cell and opens no mine anywhere. */
  lemma ClickAtCases(g: Board, rows: nat, cols: nat, p: Coords)
    requires WellFormed(g, rows, cols) && InBounds(rows, cols, p)
    ensures var r := ClickAt(g, rows, cols, p);
      && (At(g, p).isFlagged ==> r == Click(g, false))
      && (!At(g, p).isFlagged && At(g, p).mine ==>
            r.hitMine && WellFormed(r.board, rows, cols) && At(r.board, p).isOpened &&
            forall q :: InBounds(rows, cols, q) && q != p ==> At(r.board, q) == At(g, q))
      && (!At(g, p).mine ==>
            !r.hitMine && OnlyOpens(g, r.board, rows, cols) &&
            (!At(g, p).isFlagged ==> At(r.board, p).isOpened))
  {
    if !At(g, p).isFlagged && !At(g, p).mine {
      OpenFromClosed(g, rows, cols, p);
    }
  }

  /** A reveal from a cell with mined neighbours opens that cell and nothing
      else. */
  lemma OpenFromNumbered(g: Board, rows: nat, cols: nat, p: Coords)
    requires WellFormed(g, rows, cols) && InBounds(rows, cols, p)
    requires !At(g, p).isEmpty
    ensures forall q :: InBounds(rows, cols, q) && q != p ==>
              At(OpenFrom(g, rows, cols, p), q) == At(g, q)
    ensures !At(g, p).mine && !At(g, p).isFlagged ==> At(OpenFrom(g, rows, cols, p), p).isOpened
  {
  }

  // ---------------------------------------------------------------------------
  // openAllMines

  /** The mine-opening half of `openAllMines`: `open()` on every closed mine. */
  function OpenMines(g: Board, rows: nat, cols: nat): (r: Board)
    requires WellFormed(g, rows, cols)
    ensures WellFormed(r, rows, cols)
    ensures forall p :: InBounds(rows, cols, p) ==>
              At(r, p) == if At(g, p).mine && !At(g, p).isOpened then OpenState(At(g, p)) else At(g, p)
  {
    seq(rows, y requires 0 <= y < rows =>
      seq(cols, x requires 0 <= x < cols =>
        if g[y][x].mine && !g[y][x].isOpened then OpenState(g[y][x]) else g[y][x]))
  }

  /** After `openAllMines` every unflagged mine is open, a flagged cell and a
      mine-free cell are left as they were, and no cell changes but by being
      opened. */
  lemma OpenMinesEffect(g: Board, rows: nat, cols: nat)
    requires WellFormed(g, rows, cols)
    ensures var r := OpenMines(g, rows, cols);
      && (forall p :: InBounds(rows, cols, p) && At(r, p).mine && !At(r, p).isFlagged ==> At(r, p).isOpened)
      && (forall p :: InBounds(rows, cols, p) && (At(g, p).isFlagged || !At(g, p).mine) ==> At(r, p) == At(g, p))
      && (forall p :: InBounds(rows, cols, p) ==> At(r, p).(isOpened := At(g, p).isOpened) == At(g, p))
  {
  }
}
