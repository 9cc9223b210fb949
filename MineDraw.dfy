/** `fillMines` of src/Minesweeper.ts on values: the ids kept out of the draw
    (the first revealed cell and its neighbours), the candidate list, the
    draw loop with its `idx[randId] = idx.pop()` step as written, the
    swap-remove it evidently intends, and the mines each leaves on the board. */
module MineDraw {
  import opened Wrappers
  import opened Utils
  import opened Cells
  import opened Grid
  import opened Tally

  /** The random source: at the `k`-th draw from a list of length `n > 0`,
      `pick(k, n)` is what `randomInt(0, n - 1)` returns, a position of the
      list. */
  ghost predicate ValidPicker(pick: (nat, nat) -> nat) {
    forall k: nat, n: nat :: n > 0 ==> pick(k, n) < n
  }

  predicate Distinct(s: seq<int>) {
    forall i, j :: 0 <= i < j < |s| ==> s[i] != s[j]
  }

  // ---------------------------------------------------------------------------
  // The candidate ids

  /** The ids of the filled slots, in slot order (the `omitIdx.push` loop). */
  function SlotIds(slots: seq<Option<Coords>>, cols: int): (r: seq<int>)
    ensures |r| <= |slots|
    ensures forall q :: Some(q) in slots ==> Id(q, cols) in r
  {
    if slots == [] then []
    else
      var front, last := slots[..|slots| - 1], slots[|slots| - 1];
      assert slots == front + [last];
      SlotIds(front, cols) + if last.Some? then [Id(last.value, cols)] else []
  }

  /** The omitted ids: the first revealed cell's id, then its neighbours'. */
  function OmitIds(rows: nat, cols: nat, omitIdx: int): (r: seq<int>)
    requires cols > 0 && 0 <= omitIdx < rows * cols
    ensures |r| <= 9
    ensures omitIdx in r
  {
    IndexInBoard(omitIdx, rows, cols);
    [omitIdx] + SlotIds(NeighborSlots(rows, cols, IndexToCoords(omitIdx, cols)), cols)
  }

  /** The omitted ids are exactly the ids of the first revealed cell and of
      the squares around it. */
  lemma OmitIdsCover(rows: nat, cols: nat, omitIdx: int, q: Coords)
    requires cols > 0 && 0 <= omitIdx < rows * cols && InBounds(rows, cols, q)
    requires InOmitRegion(rows, cols, omitIdx, q)
    ensures Id(q, cols) in OmitIds(rows, cols, omitIdx)
  {
    IndexInBoard(omitIdx, rows, cols);
    var c := IndexToCoords(omitIdx, cols);
    if q != c {
      NeighborSlotsExact(rows, cols, c);
    }
  }

  /** `[...new Array(n)].map((_, i) => i).filter((i) => !omit.some((id) => id === i))`. */
  function Candidates(n: nat, omit: seq<int>): (r: seq<int>)
    ensures |r| <= n
  {
    if n == 0 then [] else Candidates(n - 1, omit) + (if n - 1 in omit then [] else [n - 1])
  }

  /** Every candidate is an id below `n` that is not omitted. */
  lemma {:induction false} CandidatesSound(n: nat, omit: seq<int>)
    ensures forall i :: 0 <= i < |Candidates(n, omit)| ==>
              0 <= Candidates(n, omit)[i] < n && Candidates(n, omit)[i] !in omit
  {
    if n > 0 {
      CandidatesSound(n - 1, omit);
      var front, r := Candidates(n - 1, omit), Candidates(n, omit);
      assert r == front + (if n - 1 in omit then [] else [n - 1]);
      forall i | 0 <= i < |r| ensures 0 <= r[i] < n && r[i] !in omit {
        if i < |front| {
          assert r[i] == front[i];
        } else {
          assert r[i] == n - 1 && n - 1 !in omit;
        }
      }
    }
  }

  /** Every id below `n` that is not omitted is a candidate. */
  lemma {:induction false} CandidatesComplete(n: nat, omit: seq<int>)
    ensures forall i :: 0 <= i < n && i !in omit ==> i in Candidates(n, omit)
  {
    if n > 0 {
      CandidatesComplete(n - 1, omit);
      var front, r := Candidates(n - 1, omit), Candidates(n, omit);
      forall i | 0 <= i < n && i !in omit ensures i in r {
        if i < n - 1 {
          var k :| 0 <= k < |front| && front[k] == i;
          assert r[k] == i;
        } else {
          assert r[|r| - 1] == i;
        }
      }
    }
  }

  /** The candidates come in increasing order, so none is repeated. */
  lemma {:induction false} CandidatesSorted(n: nat, omit: seq<int>)
    ensures forall i, j :: 0 <= i < j < |Candidates(n, omit)| ==> Candidates(n, omit)[i] < Candidates(n, omit)[j]
  {
    if n > 0 {
      CandidatesSorted(n - 1, omit);
      CandidatesSound(n - 1, omit);
      var front, r := Candidates(n - 1, omit), Candidates(n, omit);
      forall i, j | 0 <= i < j < |r| ensures r[i] < r[j] {
        assert r[i] == front[i];
        if j < |front| {
          assert r[j] == front[j];
        } else {
          assert r[j] == n - 1;
        }
      }
    }
  }

  /** The ids below `n` that are omitted. */
  function OmittedBelow(n: nat, omit: seq<int>): set<int> {
    set i | 0 <= i < n && i in omit
  }

  lemma {:induction false} CandidatesCount(n: nat, omit: seq<int>)
    ensures |Candidates(n, omit)| + |OmittedBelow(n, omit)| == n
  {
    if n > 0 {
      CandidatesCount(n - 1, omit);
      if n - 1 in omit {
        assert OmittedBelow(n, omit) == OmittedBelow(n - 1, omit) + {n - 1};
      } else {
        assert OmittedBelow(n, omit) == OmittedBelow(n - 1, omit);
      }
    }
  }

  function Elements(s: seq<int>): set<int> {
    set x | x in s
  }

  lemma {:induction false} ElementsAtMostLength(s: seq<int>)
    ensures |Elements(s)| <= |s|
  {
    if s != [] {
      ElementsAtMostLength(s[..|s| - 1]);
      assert s == s[..|s| - 1] + [s[|s| - 1]];
      assert Elements(s) == Elements(s[..|s| - 1]) + {s[|s| - 1]};
    }
  }

  lemma SubsetSize(a: set<int>, b: set<int>)
    requires a <= b
    ensures |a| <= |b|
  {
    assert b == a + (b - a);
    assert a * (b - a) == {};
  }

  /** At most `|omit|` ids are lost to the omit list. */
  lemma CandidatesAtLeast(n: nat, omit: seq<int>)
    ensures |Candidates(n, omit)| >= n - |omit|
  {
    CandidatesCount(n, omit);
    ElementsAtMostLength(omit);
    SubsetSize(OmittedBelow(n, omit), Elements(omit));
  }

  // ---------------------------------------------------------------------------
  // The draw loop

  /** `idx[randId] = idx.pop()` as written: the last id is popped and stored
      at `randId`. When `randId` was the last position the store puts the
      popped id back, so the list is unchanged and the id just drawn stays in
      it. */
  function DrawStep(idx: seq<int>, j: nat): (r: seq<int>)
    requires j < |idx|
    ensures j < |idx| - 1 ==> |r| == |idx| - 1
    ensures j == |idx| - 1 ==> r == idx
    ensures forall x :: x in r ==> x in idx
  {
    var last, popped := idx[|idx| - 1], idx[..|idx| - 1];
    if j < |popped| then popped[j := last] else popped + [last]
  }

  /** The state of the `while (count--)` loop: the list `left` still to draw
      from, the ids drawn so far, and whether a round found the list empty,
      where the source reads `idx[0]` of an empty list and fails on
      `board[NaN]`, ending the loop. */
  datatype Draw = Draw(left: seq<int>, ids: seq<int>, exhausted: bool)

  /** The state after `n` rounds over `candidates`; round `k` takes position
      `pick(k, |left|)`. Once exhausted, later rounds change nothing. */
  function DrawMines(candidates: seq<int>, n: nat, pick: (nat, nat) -> nat): (d: Draw)
    requires ValidPicker(pick)
    ensures |d.ids| <= n
    ensures !d.exhausted ==> |d.ids| == n && |d.left| >= |candidates| - n
    ensures d.exhausted <==> n > 0 && candidates == []
    ensures d.exhausted ==> d.ids == []
    ensures candidates != [] ==> d.left != []
  {
    if n == 0 then Draw(candidates, [], false)
    else
      var d := DrawMines(candidates, n - 1, pick);
      if d.exhausted || d.left == [] then Draw(d.left, d.ids, true)
      else
        var j := pick(n - 1, |d.left|);
        Draw(DrawStep(d.left, j), d.ids + [d.left[j]], false)
  }

  /** A draw that always picks the last position repeats the same id: two
      rounds over the candidates `[3, 7]` give `7` twice, so one mine is laid
      where two were asked for. */
  lemma DrawRepeats()
    ensures var pick := (k: nat, n: nat) => if n > 0 then n - 1 else 0;
      ValidPicker(pick) && DrawMines([3, 7], 2, pick).ids == [7, 7]
  {
    var pick := (k: nat, n: nat) => if n > 0 then n - 1 else 0;
    var d1 := DrawMines([3, 7], 1, pick);
    assert d1 == Draw([3, 7], [7], false) by {
      assert DrawMines([3, 7], 0, pick) == Draw([3, 7], [], false);
      assert pick(0, 2) == 1 && DrawStep([3, 7], 1) == [3, 7];
    }
    assert DrawMines([3, 7], 2, pick) == Draw([3, 7], [7, 7], false) by {
      assert pick(1, 2) == 1 && DrawStep([3, 7], 1) == [3, 7];
    }
  }

  /** Even as written, every id drawn, and every id left, comes from the
      candidates. */
  lemma {:induction false} DrawnFrom(candidates: seq<int>, n: nat, pick: (nat, nat) -> nat)
    requires ValidPicker(pick)
    ensures forall x :: x in DrawMines(candidates, n, pick).ids ==> x in candidates
    ensures forall x :: x in DrawMines(candidates, n, pick).left ==> x in candidates
  {
    if n > 0 {
      DrawnFrom(candidates, n - 1, pick);
      var d := DrawMines(candidates, n - 1, pick);
    }
  }

  /** What the draw as written still promises: at most `count` mines, all on
      the board and none of them omitted. */
  lemma DrawnOnBoardAsWritten(rows: nat, cols: nat, omit: seq<int>, count: nat, pick: (nat, nat) -> nat)
    requires ValidPicker(pick)
    ensures var d := DrawMines(Candidates(rows * cols, omit), count, pick);
      && IdsOnBoard(d.ids, rows, cols) && |d.ids| <= count
      && (forall x :: x in d.ids ==> x !in omit)
  {
    var idx := Candidates(rows * cols, omit);
    var d := DrawMines(idx, count, pick);
    CandidatesSound(rows * cols, omit);
    DrawnFrom(idx, count, pick);
    forall i | 0 <= i < |d.ids| ensures 0 <= d.ids[i] < rows * cols && d.ids[i] !in omit {
      var x := d.ids[i];
      assert x in d.ids;
      var k :| 0 <= k < |idx| && idx[k] == x;
    }
  }

  /** A round keeps the list's ids on the board. */
  lemma DrawStepOnBoard(idx: seq<int>, j: nat, rows: nat, cols: nat)
    requires j < |idx| && IdsOnBoard(idx, rows, cols)
    ensures IdsOnBoard(DrawStep(idx, j), rows, cols)
  {
    var r := DrawStep(idx, j);
    forall i | 0 <= i < |r| ensures 0 <= r[i] < rows * cols {
      assert r[i] in r;
    }
  }

  /** Once a round finds the list empty, the draw is over: later rounds
      neither draw nor refill. */
  lemma {:induction false} ExhaustedStays(candidates: seq<int>, n: nat, m: nat, pick: (nat, nat) -> nat)
    requires ValidPicker(pick) && n <= m && DrawMines(candidates, n, pick).exhausted
    ensures DrawMines(candidates, m, pick) == DrawMines(candidates, n, pick)
  {
    if n < m {
      ExhaustedStays(candidates, n, m - 1, pick);
    }
  }

  /** The loop stops after `mines` rounds, or early at a round that finds
      the list empty: either way the ids drawn so far are all the draw
      yields, and it is exhausted exactly when it stopped early. */
  lemma DrawStops(candidates: seq<int>, round: nat, mines: nat, pick: (nat, nat) -> nat, idx: seq<int>, drawn: seq<int>)
    requires ValidPicker(pick) && DrawMines(candidates, round, pick) == Draw(idx, drawn, false)
    requires round <= mines && (round == mines || idx == [])
    ensures DrawMines(candidates, mines, pick).ids == drawn
    ensures DrawMines(candidates, mines, pick).exhausted <==> round < mines
  {
    if round < mines {
      assert DrawMines(candidates, round + 1, pick) == Draw([], drawn, true);
      ExhaustedStays(candidates, round + 1, mines, pick);
    }
  }

  // ---------------------------------------------------------------------------
  // The swap-remove the draw evidently intends

  /** The swap-remove: the last id moves into position `j` unless `j` is the
      last position itself, and the list shrinks by one either way. */
  function DrawStepFixed(idx: seq<int>, j: nat): (r: seq<int>)
    requires j < |idx|
    ensures |r| == |idx| - 1
    ensures multiset(r) + multiset{idx[j]} == multiset(idx)
  {
    var last, popped := idx[|idx| - 1], idx[..|idx| - 1];
    assert idx == popped + [last];
    if j < |popped| then popped[j := last] else popped
  }

  /** Drawing from a list without repeats removes the drawn id and keeps the
      rest without repeats. */
  lemma DrawStepFixedDistinct(idx: seq<int>, j: nat)
    requires j < |idx| && Distinct(idx)
    ensures Distinct(DrawStepFixed(idx, j))
    ensures idx[j] !in DrawStepFixed(idx, j)
    ensures forall x :: x in DrawStepFixed(idx, j) ==> x in idx
  {
    var r := DrawStepFixed(idx, j);
    assert multiset(r) <= multiset(idx);
    forall x | x in r ensures x in idx {
      assert x in multiset(r);
    }
    assert multiset(idx)[idx[j]] == 1 by {
      DistinctOnce(idx, j);
    }
    assert idx[j] !in multiset(r);
    forall a, b | 0 <= a < b < |r| ensures r[a] != r[b] {
      if r[a] == r[b] {
        TwiceCounted(r, a, b);
        assert multiset(idx)[r[a]] >= 2;
        var i :| 0 <= i < |idx| && idx[i] == r[a];
        DistinctOnce(idx, i);
        assert false;
      }
    }
  }

  lemma {:induction false} DistinctOnce(s: seq<int>, i: nat)
    requires Distinct(s) && i < |s|
    ensures multiset(s)[s[i]] == 1
  {
    if i < |s| - 1 {
      DistinctOnce(s[..|s| - 1], i);
      assert s == s[..|s| - 1] + [s[|s| - 1]];
    } else {
      assert s == s[..|s| - 1] + [s[|s| - 1]];
      assert s[i] !in s[..|s| - 1];
    }
  }

  lemma {:induction false} TwiceCounted(s: seq<int>, a: nat, b: nat)
    requires a < b < |s| && s[a] == s[b]
    ensures multiset(s)[s[a]] >= 2
  {
    assert s == s[..b] + [s[b]] + s[b + 1..];
    assert s[a] in s[..b];
  }

  /** The draw loop with the swap-remove. */
  function DrawMinesFixed(candidates: seq<int>, n: nat, pick: (nat, nat) -> nat): (d: Draw)
    requires ValidPicker(pick)
    ensures n <= |candidates| <==> !d.exhausted
    ensures |d.ids| <= n
    ensures !d.exhausted ==> |d.ids| == n && |d.left| == |candidates| - n
  {
    if n == 0 then Draw(candidates, [], false)
    else
      var d := DrawMinesFixed(candidates, n - 1, pick);
      if d.exhausted || d.left == [] then Draw(d.left, d.ids, true)
      else
        var j := pick(n - 1, |d.left|);
        Draw(DrawStepFixed(d.left, j), d.ids + [d.left[j]], false)
  }

  /** From a list without repeats the swap-remove draw yields `n` different
      ids of the list whenever the list is long enough. */
  lemma {:induction false} DrawMinesFixedDistinct(candidates: seq<int>, n: nat, pick: (nat, nat) -> nat)
    requires ValidPicker(pick) && Distinct(candidates)
    ensures var d := DrawMinesFixed(candidates, n, pick);
      && Distinct(d.ids) && Distinct(d.left)
      && (forall x :: x in d.ids ==> x in candidates && x !in d.left)
      && (forall x :: x in d.left ==> x in candidates)
      && (n <= |candidates| ==> |d.ids| == n)
  {
    if n > 0 {
      DrawMinesFixedDistinct(candidates, n - 1, pick);
      var d := DrawMinesFixed(candidates, n - 1, pick);
      if !d.exhausted && d.left != [] {
        var j := pick(n - 1, |d.left|);
        var left := DrawStepFixed(d.left, j);
        DrawStepFixedDistinct(d.left, j);
        var x := d.left[j];
        assert x in d.left;
        assert x !in d.ids;
        AppendDistinct(d.ids, x);
        var ids := d.ids + [x];
        forall y | y in ids ensures y in candidates && y !in left {
          if y != x {
            assert y in d.ids;
          }
        }
        assert DrawMinesFixed(candidates, n, pick) == Draw(left, ids, false);
      }
    }
  }

  /** Appending an id not yet in a list without repeats keeps it so. */
  lemma AppendDistinct(s: seq<int>, x: int)
    requires Distinct(s) && x !in s
    ensures Distinct(s + [x])
  {
    var t := s + [x];
    forall a, b | 0 <= a < b < |t| ensures t[a] != t[b] {
      assert t[a] == s[a];
      if b == |s| {
        assert s[a] in s;
      }
    }
  }

  /** With the swap-remove the same picks over `[3, 7]` draw both ids. */
  lemma DrawFixedCovers()
    ensures var pick := (k: nat, n: nat) => if n > 0 then n - 1 else 0;
      ValidPicker(pick) && DrawMinesFixed([3, 7], 2, pick).ids == [7, 3]
  {
    var pick := (k: nat, n: nat) => if n > 0 then n - 1 else 0;
    assert DrawStepFixed([3, 7], 1) == [3] && DrawStepFixed([3], 0) == [];
    assert DrawMinesFixed([3, 7], 0, pick) == Draw([3, 7], [], false);
    assert pick(0, 2) == 1 && pick(1, 1) == 0;
    assert DrawMinesFixed([3, 7], 1, pick) == Draw([3], [7], false);
    assert DrawMinesFixed([3, 7], 2, pick) == Draw([], [7, 3], false);
  }


  /** The ids drawn from the candidates are different ids of the board, none
      of them omitted. */
  lemma DrawnOnBoard(rows: nat, cols: nat, omit: seq<int>, count: nat, pick: (nat, nat) -> nat)
    requires ValidPicker(pick)
    ensures var d := DrawMinesFixed(Candidates(rows * cols, omit), count, pick);
      && IdsOnBoard(d.ids, rows, cols) && Distinct(d.ids)
      && (forall x :: x in d.ids ==> x !in omit)
  {
    var idx := Candidates(rows * cols, omit);
    var d := DrawMinesFixed(idx, count, pick);
    CandidatesSound(rows * cols, omit);
    CandidatesSorted(rows * cols, omit);
    DrawMinesFixedDistinct(idx, count, pick);
    forall i | 0 <= i < |d.ids| ensures 0 <= d.ids[i] < rows * cols && d.ids[i] !in omit {
      var x := d.ids[i];
      assert x in d.ids;
      var k :| 0 <= k < |idx| && idx[k] == x;
    }
  }

  // ---------------------------------------------------------------------------
  // Laying the mines

  predicate IdsOnBoard(ids: seq<int>, rows: nat, cols: nat) {
    forall i :: 0 <= i < |ids| ==> 0 <= ids[i] < rows * cols
  }

  /** `indexToCoords(id)` names the square whose id is `id`. */
  lemma IdentifiesSquare(id: int, rows: nat, cols: nat)
    requires cols > 0 && 0 <= id < rows * cols
    ensures InBounds(rows, cols, IndexToCoords(id, cols))
    ensures forall p :: InBounds(rows, cols, p) ==> (p == IndexToCoords(id, cols) <==> Id(p, cols) == id)
  {
    IndexInBoard(id, rows, cols);
    forall p | InBounds(rows, cols, p) && Id(p, cols) == id
      ensures p == IndexToCoords(id, cols)
    {
      CoordsOfId(p.x, p.y, cols);
    }
  }

  /** `this.board[y][x].mine = true` for the drawn ids in turn. */
  function MarkMines(g: Board, rows: nat, cols: nat, ids: seq<int>): (r: Board)
    requires WellFormed(g, rows, cols) && cols > 0 && IdsOnBoard(ids, rows, cols)
    ensures WellFormed(r, rows, cols)
    ensures forall p :: InBounds(rows, cols, p) ==>
              At(r, p) == At(g, p).(mine := At(g, p).mine || Id(p, cols) in ids)
  {
    if ids == [] then g
    else
      var id, front := ids[|ids| - 1], ids[..|ids| - 1];
      IdentifiesSquare(id, rows, cols);
      assert ids == front + [id];
      var h := MarkMines(g, rows, cols, front);
      var c := IndexToCoords(id, cols);
      Put(h, c, At(h, c).(mine := true))
  }

  /** Laying one more mine at `id` is one more `Put` on the board. */
  lemma MarkOneMore(g: Board, rows: nat, cols: nat, ids: seq<int>, id: int)
    requires WellFormed(g, rows, cols) && cols > 0 && IdsOnBoard(ids, rows, cols) && 0 <= id < rows * cols
    ensures IdsOnBoard(ids + [id], rows, cols) && InBounds(rows, cols, IndexToCoords(id, cols))
    ensures var h, c := MarkMines(g, rows, cols, ids), IndexToCoords(id, cols);
      MarkMines(g, rows, cols, ids + [id]) == Put(h, c, At(h, c).(mine := true))
  {
    IdentifiesSquare(id, rows, cols);
    assert (ids + [id])[..|ids|] == ids;
  }

  /** Laying mines at `ids` adds at most `|ids|` mined cells, and exactly
      `|ids|` when the ids are different and none of their cells was mined. */
  lemma {:induction false} MarkMinesCount(g: Board, rows: nat, cols: nat, ids: seq<int>)
    requires WellFormed(g, rows, cols) && cols > 0 && IdsOnBoard(ids, rows, cols)
    ensures CountBoard(MarkMines(g, rows, cols, ids), IsMine) <= CountBoard(g, IsMine) + |ids|
    ensures Distinct(ids) && (forall p :: InBounds(rows, cols, p) && Id(p, cols) in ids ==> !At(g, p).mine) ==>
              CountBoard(MarkMines(g, rows, cols, ids), IsMine) == CountBoard(g, IsMine) + |ids|
  {
    if ids != [] {
      var id, front := ids[|ids| - 1], ids[..|ids| - 1];
      IdentifiesSquare(id, rows, cols);
      MarkMinesCount(g, rows, cols, front);
      var h := MarkMines(g, rows, cols, front);
      var c := IndexToCoords(id, cols);
      CountBoardPut(h, rows, cols, IsMine, c, At(h, c).(mine := true));
      assert ids == front + [id];
      if Distinct(ids) && (forall p :: InBounds(rows, cols, p) && Id(p, cols) in ids ==> !At(g, p).mine) {
        DistinctFront(ids);
        assert !At(h, c).mine;
      }
    }
  }

  /** Laying mines at a non-empty list of ids leaves at least one mine. */
  lemma MarkMinesSome(g: Board, rows: nat, cols: nat, ids: seq<int>)
    requires WellFormed(g, rows, cols) && cols > 0 && IdsOnBoard(ids, rows, cols) && ids != []
    ensures CountBoard(MarkMines(g, rows, cols, ids), IsMine) >= 1
  {
    var c := IndexToCoords(ids[0], cols);
    IdentifiesSquare(ids[0], rows, cols);
    var r := MarkMines(g, rows, cols, ids);
    CountBoardZero(r, rows, cols, IsMine);
    assert IsMine(At(r, c));
  }

  /** Dropping the last id of a list without repeats leaves a list without
      repeats that lacks that id. */
  lemma DistinctFront(ids: seq<int>)
    requires ids != [] && Distinct(ids)
    ensures Distinct(ids[..|ids| - 1]) && ids[|ids| - 1] !in ids[..|ids| - 1]
  {
    var front := ids[..|ids| - 1];
    forall a | 0 <= a < |front| ensures front[a] != ids[|ids| - 1] {
      assert front[a] == ids[a];
    }
  }

  /** The ids the draw loop of `fillMines` picks after the first reveal at
      `omitIdx`: ids of the board, none of them omitted, `mines` of them
      (repeats included) unless the draw ran dry. That happens only when no
      square is left to draw from, in the first round, so no id is drawn. */
  function FillDraw(rows: nat, cols: nat, omitIdx: int, mines: nat, pick: (nat, nat) -> nat): (d: Draw)
    requires cols > 0 && 0 <= omitIdx < rows * cols && ValidPicker(pick)
    ensures IdsOnBoard(d.ids, rows, cols)
    ensures forall x :: x in d.ids ==> x !in OmitIds(rows, cols, omitIdx)
    ensures |d.ids| <= mines && (!d.exhausted ==> |d.ids| == mines)
    ensures d.exhausted <==> mines > 0 && Candidates(rows * cols, OmitIds(rows, cols, omitIdx)) == []
    ensures d.exhausted ==> d.ids == []
    ensures mines + 9 <= rows * cols ==> !d.exhausted
  {
    var omit := OmitIds(rows, cols, omitIdx);
    DrawnOnBoardAsWritten(rows, cols, omit, mines, pick);
    CandidatesAtLeast(rows * cols, omit);
    DrawMines(Candidates(rows * cols, omit), mines, pick)
  }

  /** The board `fillMines` leaves after the first reveal at `omitIdx`: the
      drawn ids mined. When the draw runs dry (`FillDraw(...).exhausted`) the
      source fails in its first round, before any mine is laid. */
  function FillMines(g: Board, rows: nat, cols: nat, omitIdx: int, mines: nat, pick: (nat, nat) -> nat): (r: Board)
    requires WellFormed(g, rows, cols) && cols > 0 && 0 <= omitIdx < rows * cols && ValidPicker(pick)
    ensures WellFormed(r, rows, cols)
  {
    MarkMines(g, rows, cols, FillDraw(rows, cols, omitIdx, mines, pick).ids)
  }

  /** `fillMines` on a board: every cell keeps its state but for the mine bit,
      no mine is removed, and none lands on the first revealed cell or
      around it. */
  lemma FillMinesSafe(g: Board, rows: nat, cols: nat, omitIdx: int, mines: nat, pick: (nat, nat) -> nat)
    requires WellFormed(g, rows, cols) && cols > 0 && 0 <= omitIdx < rows * cols && ValidPicker(pick)
    ensures var r := FillMines(g, rows, cols, omitIdx, mines, pick);
      && (forall p :: InBounds(rows, cols, p) ==> At(r, p).(mine := At(g, p).mine) == At(g, p))
      && (forall p :: InBounds(rows, cols, p) && At(g, p).mine ==> At(r, p).mine)
      && (forall p :: InBounds(rows, cols, p) && InOmitRegion(rows, cols, omitIdx, p) ==>
            At(r, p).mine == At(g, p).mine)
  {
    var d := FillDraw(rows, cols, omitIdx, mines, pick);
    forall p | InBounds(rows, cols, p) && InOmitRegion(rows, cols, omitIdx, p)
      ensures Id(p, cols) !in d.ids
    {
      OmitIdsCover(rows, cols, omitIdx, p);
    }
  }

  /** `fillMines` as written adds at most `mines` mines, since a repeated id
      mines its square once; on a board with room it lays at least one. */
  lemma FillMinesCount(g: Board, rows: nat, cols: nat, omitIdx: int, mines: nat, pick: (nat, nat) -> nat)
    requires WellFormed(g, rows, cols) && cols > 0 && 0 <= omitIdx < rows * cols && ValidPicker(pick)
    ensures CountBoard(FillMines(g, rows, cols, omitIdx, mines, pick), IsMine) <= CountBoard(g, IsMine) + mines
    ensures 0 < mines && mines + 9 <= rows * cols ==> CountBoard(FillMines(g, rows, cols, omitIdx, mines, pick), IsMine) >= 1
  {
    var d := FillDraw(rows, cols, omitIdx, mines, pick);
    MarkMinesCount(g, rows, cols, d.ids);
    if 0 < mines && mines + 9 <= rows * cols {
      MarkMinesSome(g, rows, cols, d.ids);
    }
  }

  /** The ids the draw loop of `fillMines` would pick with the swap-remove:
      different ids of the board, none of them omitted, `mines` of them
      unless the draw ran dry. */
  function FillDrawFixed(rows: nat, cols: nat, omitIdx: int, mines: nat, pick: (nat, nat) -> nat): (d: Draw)
    requires cols > 0 && 0 <= omitIdx < rows * cols && ValidPicker(pick)
    ensures IdsOnBoard(d.ids, rows, cols) && Distinct(d.ids)
    ensures forall x :: x in d.ids ==> x !in OmitIds(rows, cols, omitIdx)
    ensures |d.ids| <= mines && (!d.exhausted ==> |d.ids| == mines)
    ensures mines + 9 <= rows * cols ==> !d.exhausted
  {
    var omit := OmitIds(rows, cols, omitIdx);
    DrawnOnBoard(rows, cols, omit, mines, pick);
    CandidatesAtLeast(rows * cols, omit);
    DrawMinesFixed(Candidates(rows * cols, omit), mines, pick)
  }

  /** The board `fillMines` would leave with the swap-remove. */
  function FillMinesFixed(g: Board, rows: nat, cols: nat, omitIdx: int, mines: nat, pick: (nat, nat) -> nat): (r: Board)
    requires WellFormed(g, rows, cols) && cols > 0 && 0 <= omitIdx < rows * cols && ValidPicker(pick)
    ensures WellFormed(r, rows, cols)
  {
    MarkMines(g, rows, cols, FillDrawFixed(rows, cols, omitIdx, mines, pick).ids)
  }

  /** With the swap-remove `fillMines` adds at most `mines` mines, and
      exactly `mines` to a board without mines that leaves room for them past
      the omitted squares. */
  lemma FillMinesFixedCount(g: Board, rows: nat, cols: nat, omitIdx: int, mines: nat, pick: (nat, nat) -> nat)
    requires WellFormed(g, rows, cols) && cols > 0 && 0 <= omitIdx < rows * cols && ValidPicker(pick)
    ensures var r := FillMinesFixed(g, rows, cols, omitIdx, mines, pick);
      && CountBoard(r, IsMine) <= CountBoard(g, IsMine) + mines
      && ((forall p :: InBounds(rows, cols, p) ==> !At(g, p).mine) && mines + 9 <= rows * cols ==>
            CountBoard(r, IsMine) == CountBoard(g, IsMine) + mines)
  {
    var d := FillDrawFixed(rows, cols, omitIdx, mines, pick);
    MarkMinesCount(g, rows, cols, d.ids);
    if (forall p :: InBounds(rows, cols, p) ==> !At(g, p).mine) && mines + 9 <= rows * cols {
      assert Distinct(d.ids) && |d.ids| == mines;
    }
  }

  /** `p` is the first revealed cell or one of the squares around it. */
  predicate InOmitRegion(rows: nat, cols: nat, omitIdx: int, p: Coords)
    requires cols > 0
  {
    var c := IndexToCoords(omitIdx, cols);
    p == c || Adjacent(c, p)
  }
}
