/** The controller of src/GameManager.ts without its DOM work: the level
    presets, the four-state game machine, the routing of a cell event to a
    flag or a reveal, mine generation on the first reveal, the
    mines-remaining counter and the timer's tick rule. The decisions are
    functions on values (a `Play`), and class `GameManager` is proved to act
    as they say. */
module Game {
  import opened Wrappers
  import opened Utils
  import opened Cells
  import opened Grid
  import opened FloodFill
  import opened Tally
  import opened MineDraw
  import opened Strings
  import opened Engine

  /** `_gameState`: "stop", "start", "win" and "lose". */
  datatype Phase = Stopped | Started | Won | Lost

  /** The keys of `GameManager.levels`. */
  datatype Level = Easy | Medium | Hard

  /** A board size and its number of mines. */
  datatype Config = Config(rows: nat, cols: nat, mines: nat)

  /** Room for the mines once the first revealed cell and the up to eight
      squares around it are kept clear. */
  predicate Roomy(c: Config) {
    c.cols > 0 && c.mines + 9 <= c.rows * c.cols
  }

  /** `GameManager.levels[level]`; every preset leaves room for its mines. */
  function Preset(level: Level): (c: Config)
    ensures Roomy(c)
  {
    match level
    case Easy => Config(8, 8, 10)
    case Medium => Config(16, 16, 40)
    case Hard => Config(16, 30, 99)
  }

  // ---------------------------------------------------------------------------
  // The top bar

  /** `renderMineCount()`: `mines` less the flagged cells; a negative number
      is shown as it is, any other padded with '0' to three characters. */
  function MineCountText(mines: int, flagged: int): (s: string) {
    var left := mines - flagged;
    if left < 0 then NumberToString(left) else PadStart(NumberToString(left), 3)
  }

  /** A counter that is not negative is all digits, at least three of them
      and exactly three below 1000; a negative one is a minus sign and
      digits. */
  lemma MineCountShape(mines: int, flagged: int)
    ensures var s := MineCountText(mines, flagged);
      && (mines - flagged >= 0 ==> |s| >= 3 && AllDigits(s))
      && (0 <= mines - flagged < 1000 ==> |s| == 3)
      && (mines - flagged < 0 ==> |s| >= 2 && s[0] == '-' && AllDigits(s[1..]))
  {
    var s := MineCountText(mines, flagged);
    if mines - flagged < 0 {
      assert s[1..] == DecimalString(flagged - mines);
    }
  }

  /** The number a counter shows: an optional minus sign, then digits. */
  function CounterValue(s: string): Option<int> {
    if |s| > 0 && s[0] == '-' && AllDigits(s[1..]) then
      var magnitude: int := DecimalValue(s[1..]);
      Some(-magnitude)
    else if AllDigits(s) then Some(DecimalValue(s))
    else None
  }

  /** The counter reads back as the number of mines not matched by a flag. */
  lemma MineCountReadsBack(mines: int, flagged: int)
    ensures CounterValue(MineCountText(mines, flagged)) == Some(mines - flagged)
  {
    var left := mines - flagged;
    var text := MineCountText(mines, flagged);
    if left < 0 {
      assert text == "-" + DecimalString(-left);
      NegativeReadsBack(-left);
    } else {
      assert text == PadStart(DecimalString(left), 3);
      PaddedReadsBack(left);
    }
    assert CounterValue(text) == Some(left);
  }

  lemma PaddedReadsBack(n: nat)
    ensures CounterValue(PadStart(DecimalString(n), 3)) == Some(n)
  {
    var s := PadStart(DecimalString(n), 3);
    PaddedValue(n, 3);
    assert IsDigit(s[0]);
  }

  lemma NegativeReadsBack(n: nat)
    ensures CounterValue("-" + DecimalString(n)) == Some(0 - n)
  {
    var s := "-" + DecimalString(n);
    DecimalRoundTrip(n);
    assert s[1..] == DecimalString(n);
  }

  /** One firing of the interval `initTimer` starts: from 999 on the interval
      is cleared (`None`), below it the time goes up by one. */
  function Tick(time: nat): (r: Option<nat>)
    ensures r.None? <==> time >= 999
    ensures r.Some? ==> r.value == time + 1 && r.value <= 999
  {
    if time >= 999 then None else Some(time + 1)
  }

  /** The time after the interval has fired `k` times; once cleared it stays
      cleared. */
  function Elapsed(time: nat, k: nat): nat
    decreases k
  {
    if k == 0 then time
    else match Tick(time)
      case None => time
      case Some(t) => Elapsed(t, k - 1)
  }

  /** The clock counts the firings and stops at 999. */
  lemma {:induction false} ElapsedStopsAt999(time: nat, k: nat)
    requires time <= 999
    ensures Elapsed(time, k) == if time + k <= 999 then time + k else 999
    decreases k
  {
    if k > 0 && time < 999 {
      ElapsedStopsAt999(time + 1, k - 1);
    }
  }

  /** `renderTimer()`: the time padded with '0' to three characters. */
  function TimerText(time: nat): (s: string)
    ensures |s| >= 3 && AllDigits(s) && DecimalValue(s) == time
    ensures time < 1000 ==> |s| == 3
  {
    PaddedValue(time, 3);
    PadStart(NumberToString(time), 3)
  }

  // ---------------------------------------------------------------------------
  // The decisions of onCellClicked, on values

  /** What the controller's decisions act on: the game state, the cells as a
      board value, and the engine's `omitIdx`. */
  datatype Play = Play(phase: Phase, board: Board, omitIdx: int)

  /** A cell as `initBoard` made it, save perhaps for its flag. */
  predicate Pristine(c: CellState) {
    c.(isFlagged := false) == Initial
  }

  /** What holds of every board the controller drives: before the first
      reveal (`omitIdx` still -1) every cell is pristine, and after it
      `omitIdx` is the id of a cell. */
  ghost predicate Prepared(g: Board, omitIdx: int, c: Config) {
    && WellFormed(g, c.rows, c.cols)
    && (omitIdx == -1 ==> forall p :: InBounds(c.rows, c.cols, p) ==> Pristine(At(g, p)))
    && (omitIdx != -1 ==> c.cols > 0 && 0 <= omitIdx < c.rows * c.cols)
  }

  /** A board `initBoard` just built. */
  lemma FreshPrepared(c: Config)
    ensures Prepared(FreshBoard(c.rows, c.cols), -1, c)
  {
  }

  ghost predicate Consistent(s: Play, c: Config) {
    Prepared(s.board, s.omitIdx, c)
  }

  /** `generateMines()` with `omitIdx` set, on a board with room for the
      mines: the draw never runs dry, so the mines are laid and counted. */
  function Generated(g: Board, c: Config, omitIdx: int, pick: (nat, nat) -> nat): (r: Board)
    requires Roomy(c) && WellFormed(g, c.rows, c.cols) && 0 <= omitIdx < c.rows * c.cols && ValidPicker(pick)
    ensures WellFormed(r, c.rows, c.cols)
  {
    GenInfo(MineDraw.FillMines(g, c.rows, c.cols, omitIdx, c.mines, pick), c.rows, c.cols)
  }

  /** `generateMines()` as it would be with the swap-remove draw. */
  function GeneratedFixed(g: Board, c: Config, omitIdx: int, pick: (nat, nat) -> nat): (r: Board)
    requires Roomy(c) && WellFormed(g, c.rows, c.cols) && 0 <= omitIdx < c.rows * c.cols && ValidPicker(pick)
    ensures WellFormed(r, c.rows, c.cols)
  {
    GenInfo(FillMinesFixed(g, c.rows, c.cols, omitIdx, c.mines, pick), c.rows, c.cols)
  }

  /** The board a reveal at `p` acts on: the first reveal sets `omitIdx` to
      the cell's id and generates the mines first. */
  function Armed(g: Board, omitIdx: int, c: Config, p: Coords, pick: (nat, nat) -> nat): (r: Board)
    requires Prepared(g, omitIdx, c) && Roomy(c) && InBounds(c.rows, c.cols, p) && ValidPicker(pick)
    ensures WellFormed(r, c.rows, c.cols)
  {
    if omitIdx == -1 then
      IdInRange(p.x, p.y, c.rows, c.cols);
      Generated(g, c, Id(p, c.cols), pick)
    else g
  }

  /** The end of `onCellClicked`: a revealed mine loses; otherwise the game is
      won when `getGameState()` says so, and goes on when it does not. */
  function Settle(k: Click, c: Config): Phase {
    if k.hitMine then Lost
    else if GameState(k.board, c.rows, c.cols, c.mines) == Win then Won
    else Started
  }

  /** The step `onCellClicked` takes on a closed cell at `p`: the cell's
      flag toggles when ctrl is held; otherwise the first reveal generates
      the mines and `clickAt` opens from `p`. */
  function Move(g: Board, omitIdx: int, c: Config, p: Coords, flag: bool, pick: (nat, nat) -> nat): (k: Click)
    requires Prepared(g, omitIdx, c) && Roomy(c) && InBounds(c.rows, c.cols, p) && ValidPicker(pick)
    ensures WellFormed(k.board, c.rows, c.cols)
  {
    if flag then Click(Put(g, p, FlagState(At(g, p))), false)
    else ClickAt(Armed(g, omitIdx, c, p, pick), c.rows, c.cols, p)
  }

  /** `omitIdx` after that step: the first reveal records the cell's id. */
  function MovedOmit(omitIdx: int, c: Config, p: Coords, flag: bool): int {
    if flag || omitIdx != -1 then omitIdx else Id(p, c.cols)
  }

  /** `onCellClicked(cell)` for the cell at `p`, `flag` being whether ctrl is
      held: an opened cell ignores the click; any other click starts the game,
      then flags the cell or reveals it. */
  function CellClicked(s: Play, c: Config, p: Coords, flag: bool, pick: (nat, nat) -> nat): (r: Play)
    requires Consistent(s, c) && Roomy(c) && InBounds(c.rows, c.cols, p) && ValidPicker(pick)
    ensures WellFormed(r.board, c.rows, c.cols)
    ensures At(s.board, p).isOpened ==> r == s
    ensures !At(s.board, p).isOpened ==> r.phase != Stopped
  {
    if At(s.board, p).isOpened then s
    else
      var k := Move(s.board, s.omitIdx, c, p, flag, pick);
      Play(Settle(k, c), k.board, MovedOmit(s.omitIdx, c, p, flag))
  }

  /** `clickAt` moves no mine. */
  lemma ClickKeepsMines(g: Board, rows: nat, cols: nat, p: Coords)
    requires WellFormed(g, rows, cols) && InBounds(rows, cols, p)
    ensures forall q :: InBounds(rows, cols, q) ==> At(ClickAt(g, rows, cols, p).board, q).mine == At(g, q).mine
  {
    ClickAtCases(g, rows, cols, p);
  }

  /** A ctrl or long-press click on a closed cell toggles its flag and
      nothing else: no mine is generated and no cell opened, the game is
      never lost, and whether it counts as won does not change. */
  lemma FlagClick(s: Play, c: Config, p: Coords, pick: (nat, nat) -> nat)
    requires Consistent(s, c) && Roomy(c) && InBounds(c.rows, c.cols, p) && ValidPicker(pick)
    requires !At(s.board, p).isOpened
    ensures var r := CellClicked(s, c, p, true, pick);
      && r.board == Put(s.board, p, FlagState(At(s.board, p)))
      && r.omitIdx == s.omitIdx
      && r.phase != Lost
      && (r.phase == Won <==> GameState(s.board, c.rows, c.cols, c.mines) == Win)
  {
    CountBoardPut(s.board, c.rows, c.cols, IsOpened, p, FlagState(At(s.board, p)));
  }

  /** The mines generated on the first reveal at `p` leave `p` and the
      squares around it clear, so `p` counts no mined neighbour; no cell is
      opened and no flag moves. */
  lemma GeneratedAround(g: Board, c: Config, p: Coords, pick: (nat, nat) -> nat)
    requires Roomy(c) && WellFormed(g, c.rows, c.cols) && InBounds(c.rows, c.cols, p) && ValidPicker(pick)
    requires forall q :: InBounds(c.rows, c.cols, q) ==> Pristine(At(g, q))
    ensures 0 <= Id(p, c.cols) < c.rows * c.cols
    ensures var r := Generated(g, c, Id(p, c.cols), pick);
      && !At(r, p).mine && At(r, p).isEmpty
      && (forall q :: InBounds(c.rows, c.cols, q) && Adjacent(p, q) ==> !At(r, q).mine)
      && (forall q :: InBounds(c.rows, c.cols, q) ==>
            !At(r, q).isOpened && At(r, q).isFlagged == At(g, q).isFlagged)
  {
    var rows, cols := c.rows, c.cols;
    var id := Id(p, cols);
    IdInRange(p.x, p.y, rows, cols);
    CoordsOfId(p.x, p.y, cols);
    var f := MineDraw.FillMines(g, rows, cols, id, c.mines, pick);
    FillMinesSafe(g, rows, cols, id, c.mines, pick);
    assert InOmitRegion(rows, cols, id, p);
    forall q | InBounds(rows, cols, q) && Adjacent(p, q) ensures !At(f, q).mine {
      assert InOmitRegion(rows, cols, id, q);
    }
    MinedNeighborsCount(f, rows, cols, p);
    assert AdjacentMines(f, rows, cols, p) == {};
  }

  /** The first reveal (`omitIdx` still -1) sets `omitIdx` to the revealed
      cell's id and lays the mines away from that cell and the squares
      around it, so it never loses; unless the cell is flagged, it is opened
      and so is every unflagged square around it. */
  lemma FirstReveal(s: Play, c: Config, p: Coords, pick: (nat, nat) -> nat)
    requires Consistent(s, c) && Roomy(c) && InBounds(c.rows, c.cols, p) && ValidPicker(pick)
    requires s.omitIdx == -1
    ensures var r := CellClicked(s, c, p, false, pick);
      && r.omitIdx == Id(p, c.cols)
      && r.phase != Lost
      && !At(r.board, p).mine
      && (forall q :: InBounds(c.rows, c.cols, q) && Adjacent(p, q) ==> !At(r.board, q).mine)
      && CountBoard(r.board, IsMine) <= c.mines
      && (!At(s.board, p).isFlagged ==> At(r.board, p).isOpened)
      && (!At(s.board, p).isFlagged ==>
            forall q :: InBounds(c.rows, c.cols, q) && Adjacent(p, q) && !At(r.board, q).isFlagged ==>
              At(r.board, q).isOpened)
  {
    var rows, cols := c.rows, c.cols;
    GeneratedAround(s.board, c, p, pick);
    var g := Generated(s.board, c, Id(p, cols), pick);
    assert Armed(s.board, s.omitIdx, c, p, pick) == g;
    ClickAtCases(g, rows, cols, p);
    ClickKeepsMines(g, rows, cols, p);
    FirstRevealMines(s.board, c, p, pick);
    CountBoardAgree(ClickAt(g, rows, cols, p).board, g, rows, cols, IsMine);
    if !At(s.board, p).isFlagged {
      OpenFromClosed(g, rows, cols, p);
      var r := OpenFrom(g, rows, cols, p);
      assert NewlyOpened(g, r, rows, cols, p);
    }
  }

  /** The mines generated on a pristine board are at most the configured
      number, and at least one when any is configured. */
  lemma FirstRevealMines(g: Board, c: Config, p: Coords, pick: (nat, nat) -> nat)
    requires Roomy(c) && WellFormed(g, c.rows, c.cols) && InBounds(c.rows, c.cols, p) && ValidPicker(pick)
    requires forall q :: InBounds(c.rows, c.cols, q) ==> Pristine(At(g, q))
    ensures 0 <= Id(p, c.cols) < c.rows * c.cols
    ensures CountBoard(Generated(g, c, Id(p, c.cols), pick), IsMine) <= c.mines
    ensures c.mines > 0 ==> CountBoard(Generated(g, c, Id(p, c.cols), pick), IsMine) >= 1
  {
    var rows, cols := c.rows, c.cols;
    var id := Id(p, cols);
    IdInRange(p.x, p.y, rows, cols);
    var f := MineDraw.FillMines(g, rows, cols, id, c.mines, pick);
    FillMinesSafe(g, rows, cols, id, c.mines, pick);
    FillMinesCount(g, rows, cols, id, c.mines, pick);
    CountBoardZero(g, rows, cols, IsMine);
    CountBoardAgree(Generated(g, c, id, pick), f, rows, cols, IsMine);
  }

  /** With the swap-remove draw the mines generated on a pristine board
      would be exactly the configured number. */
  lemma FirstRevealMinesFixed(g: Board, c: Config, p: Coords, pick: (nat, nat) -> nat)
    requires Roomy(c) && WellFormed(g, c.rows, c.cols) && InBounds(c.rows, c.cols, p) && ValidPicker(pick)
    requires forall q :: InBounds(c.rows, c.cols, q) ==> Pristine(At(g, q))
    ensures 0 <= Id(p, c.cols) < c.rows * c.cols
    ensures CountBoard(GeneratedFixed(g, c, Id(p, c.cols), pick), IsMine) == c.mines
  {
    var rows, cols := c.rows, c.cols;
    var id := Id(p, cols);
    IdInRange(p.x, p.y, rows, cols);
    var f := FillMinesFixed(g, rows, cols, id, c.mines, pick);
    FillMinesFixedCount(g, rows, cols, id, c.mines, pick);
    CountBoardZero(g, rows, cols, IsMine);
    CountBoardAgree(GeneratedFixed(g, c, id, pick), f, rows, cols, IsMine);
  }

  /** Once `omitIdx` is set a reveal generates nothing: `omitIdx` stays, no
      mine moves, and the game is lost exactly when the cell is an unflagged
      mine. */
  lemma LaterReveal(s: Play, c: Config, p: Coords, pick: (nat, nat) -> nat)
    requires Consistent(s, c) && Roomy(c) && InBounds(c.rows, c.cols, p) && ValidPicker(pick)
    requires s.omitIdx != -1 && !At(s.board, p).isOpened
    ensures var r := CellClicked(s, c, p, false, pick);
      && r.omitIdx == s.omitIdx
      && (forall q :: InBounds(c.rows, c.cols, q) ==> At(r.board, q).mine == At(s.board, q).mine)
      && (r.phase == Lost <==> At(s.board, p).mine && !At(s.board, p).isFlagged)
  {
    ClickAtCases(s.board, c.rows, c.cols, p);
    ClickKeepsMines(s.board, c.rows, c.cols, p);
  }

  /** Every click keeps the board consistent. */
  lemma CellClickedConsistent(s: Play, c: Config, p: Coords, flag: bool, pick: (nat, nat) -> nat)
    requires Consistent(s, c) && Roomy(c) && InBounds(c.rows, c.cols, p) && ValidPicker(pick)
    ensures Consistent(CellClicked(s, c, p, flag, pick), c)
  {
    if !At(s.board, p).isOpened && !flag {
      IdInRange(p.x, p.y, c.rows, c.cols);
    }
  }

  /** The step on a closed cell keeps the board prepared. */
  lemma MovePrepared(g: Board, omitIdx: int, c: Config, p: Coords, flag: bool, pick: (nat, nat) -> nat)
    requires Prepared(g, omitIdx, c) && Roomy(c) && InBounds(c.rows, c.cols, p) && ValidPicker(pick)
    ensures Prepared(Move(g, omitIdx, c, p, flag, pick).board, MovedOmit(omitIdx, c, p, flag), c)
  {
    if !flag {
      IdInRange(p.x, p.y, c.rows, c.cols);
    }
  }

  // ---------------------------------------------------------------------------
  // The cell handler of createCells

  /** The gestures `onClick` reports on a cell. */
  datatype CellEvent = KeyDown | KeyUp | LongPress

  /** The handler `createCells` gives every cell: nothing once the game is
      won or lost; a key-up clicks the cell (flagging it when ctrl is held),
      a long press clicks it with ctrl held, a key-down only changes the face
      on the start button. */
  function HandleEvent(s: Play, c: Config, p: Coords, ctrl: bool, e: CellEvent, pick: (nat, nat) -> nat): (r: Play)
    requires Consistent(s, c) && Roomy(c) && InBounds(c.rows, c.cols, p) && ValidPicker(pick)
  {
    if s.phase == Won || s.phase == Lost then s
    else match e
      case KeyUp => CellClicked(s, c, p, ctrl, pick)
      case LongPress => CellClicked(s, c, p, true, pick)
      case KeyDown => s
  }

  /** What the handler keeps across events: a consistent board, at most the
      configured number of mines once they are generated, no mine open
      unless the game is lost, and a game marked won one that has had its
      first reveal and that `getGameState()` reports as won. */
  ghost predicate Sound(s: Play, c: Config) {
    && Consistent(s, c)
    && (s.omitIdx != -1 ==> CountBoard(s.board, IsMine) <= c.mines)
    && (s.phase != Lost ==> forall p :: InBounds(c.rows, c.cols, p) ==> !OpenedMine(At(s.board, p)))
    && (s.phase == Won ==> s.omitIdx != -1 && GameState(s.board, c.rows, c.cols, c.mines) == Win)
  }

  /** The game `resetGameState` starts from is sound. */
  lemma FreshSound(c: Config)
    ensures Sound(Play(Stopped, FreshBoard(c.rows, c.cols), -1), c)
  {
    FreshPrepared(c);
  }

  /** Before the first reveal no cell is open, so `getGameState()` cannot
      report a win on a board with room for its mines. */
  lemma UnrevealedNotWon(g: Board, c: Config)
    requires Prepared(g, -1, c) && Roomy(c)
    ensures GameState(g, c.rows, c.cols, c.mines) == Playable
  {
    CountBoardZero(g, c.rows, c.cols, IsOpened);
  }

  /** No opened mine on the board a reveal acts on. */
  lemma ArmedSound(s: Play, c: Config, p: Coords, pick: (nat, nat) -> nat)
    requires Sound(s, c) && s.phase != Lost && Roomy(c) && InBounds(c.rows, c.cols, p) && ValidPicker(pick)
    ensures forall q :: InBounds(c.rows, c.cols, q) ==> !OpenedMine(At(Armed(s.board, s.omitIdx, c, p, pick), q))
  {
    if s.omitIdx == -1 {
      GeneratedAround(s.board, c, p, pick);
    }
  }

  /** Every handled event keeps the game sound. */
  lemma HandleEventSound(s: Play, c: Config, p: Coords, ctrl: bool, e: CellEvent, pick: (nat, nat) -> nat)
    requires Sound(s, c) && Roomy(c) && InBounds(c.rows, c.cols, p) && ValidPicker(pick)
    ensures Sound(HandleEvent(s, c, p, ctrl, e, pick), c)
  {
    var rows, cols := c.rows, c.cols;
    if s.phase != Won && s.phase != Lost && e != KeyDown {
      var flag := e == LongPress || ctrl;
      var r := CellClicked(s, c, p, flag, pick);
      assert HandleEvent(s, c, p, ctrl, e, pick) == r;
      CellClickedConsistent(s, c, p, flag, pick);
      if !At(s.board, p).isOpened {
        if flag {
          FlagClickSound(s, c, p, pick);
        } else {
          RevealSound(s, c, p, pick);
        }
      }
    }
  }

  /** A reveal keeps the game sound. */
  lemma RevealSound(s: Play, c: Config, p: Coords, pick: (nat, nat) -> nat)
    requires Sound(s, c) && s.phase != Won && s.phase != Lost && Roomy(c) && InBounds(c.rows, c.cols, p) && ValidPicker(pick)
    requires !At(s.board, p).isOpened
    ensures Sound(CellClicked(s, c, p, false, pick), c)
  {
    var rows, cols := c.rows, c.cols;
    var r := CellClicked(s, c, p, false, pick);
    CellClickedConsistent(s, c, p, false, pick);
    RevealMines(s, c, p, pick);
    if r.phase != Lost {
      var g := Armed(s.board, s.omitIdx, c, p, pick);
      ArmedSound(s, c, p, pick);
      ClickAtCases(g, rows, cols, p);
      forall q | InBounds(rows, cols, q) ensures !OpenedMine(At(r.board, q)) {
        assert !OpenedMine(At(g, q));
      }
    }
  }

  /** A flag click keeps the game sound. */
  lemma FlagClickSound(s: Play, c: Config, p: Coords, pick: (nat, nat) -> nat)
    requires Sound(s, c) && s.phase != Won && s.phase != Lost && Roomy(c) && InBounds(c.rows, c.cols, p) && ValidPicker(pick)
    requires !At(s.board, p).isOpened
    ensures Sound(CellClicked(s, c, p, true, pick), c)
  {
    var rows, cols := c.rows, c.cols;
    var r := CellClicked(s, c, p, true, pick);
    FlagClick(s, c, p, pick);
    CellClickedConsistent(s, c, p, true, pick);
    CountBoardPut(s.board, rows, cols, IsMine, p, FlagState(At(s.board, p)));
    forall q | InBounds(rows, cols, q) ensures !OpenedMine(At(r.board, q)) {
      if q != p {
        assert At(r.board, q) == At(s.board, q);
      }
    }
    if s.omitIdx == -1 {
      UnrevealedNotWon(s.board, c);
    }
  }

  /** A reveal leaves at most the configured number of mines and records
      the first revealed cell in `omitIdx`. */
  lemma RevealMines(s: Play, c: Config, p: Coords, pick: (nat, nat) -> nat)
    requires Sound(s, c) && Roomy(c) && InBounds(c.rows, c.cols, p) && ValidPicker(pick)
    requires !At(s.board, p).isOpened
    ensures var r := CellClicked(s, c, p, false, pick);
      r.omitIdx != -1 && CountBoard(r.board, IsMine) <= c.mines
  {
    var r := CellClicked(s, c, p, false, pick);
    CellClickedConsistent(s, c, p, false, pick);
    if s.omitIdx == -1 {
      FirstReveal(s, c, p, pick);
      IdInRange(p.x, p.y, c.rows, c.cols);
      assert r.omitIdx == Id(p, c.cols) >= 0;
    } else {
      LaterReveal(s, c, p, pick);
      assert r.omitIdx == s.omitIdx;
      CountBoardAgree(r.board, s.board, c.rows, c.cols, IsMine);
    }
  }

  /** A cell event: the cell's square, whether ctrl is held, and the gesture. */
  datatype Input = Input(p: Coords, ctrl: bool, e: CellEvent)

  ghost predicate OnBoard(inputs: seq<Input>, c: Config) {
    forall i :: 0 <= i < |inputs| ==> InBounds(c.rows, c.cols, inputs[i].p)
  }

  /** The game after a run of cell events; it stays sound throughout. */
  function Replay(s: Play, c: Config, inputs: seq<Input>, pick: (nat, nat) -> nat): (r: Play)
    requires Sound(s, c) && Roomy(c) && ValidPicker(pick) && OnBoard(inputs, c)
    ensures Sound(r, c)
    decreases |inputs|
  {
    if inputs == [] then s
    else
      var i := inputs[0];
      HandleEventSound(s, c, i.p, i.ctrl, i.e, pick);
      Replay(HandleEvent(s, c, i.p, i.ctrl, i.e, pick), c, inputs[1..], pick)
  }

  /** Once won or lost, the game ignores every further cell event. */
  lemma {:induction false} GameOverIsFinal(s: Play, c: Config, inputs: seq<Input>, pick: (nat, nat) -> nat)
    requires Sound(s, c) && Roomy(c) && ValidPicker(pick) && OnBoard(inputs, c)
    requires s.phase == Won || s.phase == Lost
    ensures Replay(s, c, inputs, pick) == s
    decreases |inputs|
  {
    if inputs != [] {
      GameOverIsFinal(s, c, inputs[1..], pick);
    }
  }

  /** Only `resetGameState` brings the game back to "stop": no cell event
      does. */
  lemma {:induction false} NeverStoppedAgain(s: Play, c: Config, inputs: seq<Input>, pick: (nat, nat) -> nat)
    requires Sound(s, c) && Roomy(c) && ValidPicker(pick) && OnBoard(inputs, c)
    requires s.phase != Stopped
    ensures Replay(s, c, inputs, pick).phase != Stopped
    decreases |inputs|
  {
    if inputs != [] {
      var i := inputs[0];
      HandleEventSound(s, c, i.p, i.ctrl, i.e, pick);
      NeverStoppedAgain(HandleEvent(s, c, i.p, i.ctrl, i.e, pick), c, inputs[1..], pick);
    }
  }

  /** A game marked won has every mine-free cell opened when the draw laid
      all the configured mines, so the cells left closed are the mines; when
      a repeated draw laid fewer, the win was reported with a mine-free cell
      still closed. */
  lemma WonMeansCleared(s: Play, c: Config)
    requires Sound(s, c) && s.phase == Won
    ensures CountBoard(s.board, IsMine) == c.mines ==>
              forall p :: InBounds(c.rows, c.cols, p) && !At(s.board, p).mine ==> At(s.board, p).isOpened
    ensures CountBoard(s.board, IsMine) < c.mines ==>
              exists p :: InBounds(c.rows, c.cols, p) && !At(s.board, p).mine && !At(s.board, p).isOpened
  {
    if CountBoard(s.board, IsMine) == c.mines {
      WinIffCleared(s.board, c.rows, c.cols, c.mines);
    } else if CountBoard(s.board, IsMine) < c.mines {
      WinWithMissingMines(s.board, c.rows, c.cols, c.mines);
    }
  }

  // ---------------------------------------------------------------------------
  // class GameManager

  /** The controller's state: the game phase, the clock, the level and its
      size, whether ctrl is held, and the engine. */
  class GameManager {
    var phase: Phase
    var time: nat
    /** An interval started by `initTimer` is running. */
    var ticking: bool
    var level: Level
    var rows: nat
    var cols: nat
    var mines: nat
    var ctrlPressed: bool
    var minesweeper: Minesweeper
    /** The states of the engine's cells, as a board value. */
    ghost var view: Board

    /** The engine's size and number of mines. */
    function EngineConfig(): Config
      reads this, minesweeper
    {
      Config(minesweeper.rows, minesweeper.cols, minesweeper.mines)
    }

    /** The level, its size, and the engine: what a cell event leaves alone. */
    function Setup(): (Level, Config, Minesweeper)
      reads this
    {
      (level, Config(rows, cols, mines), minesweeper)
    }

    /** The phase, the cells and `omitIdx`, as a value. */
    ghost function State(): Play
      reads this, minesweeper
    {
      Play(phase, view, minesweeper.omitIdx)
    }

    /** The engine's cells hold `view`, the size is the level's, the engine's
        board has room for its mines, and the game is consistent with the
        engine's configuration. */
    ghost predicate Valid()
      reads this, minesweeper, minesweeper.Repr
    {
      && minesweeper.Valid()
      && minesweeper.Shows(view)
      && Preset(level) == Config(rows, cols, mines)
      && Roomy(EngineConfig())
      && Prepared(view, minesweeper.omitIdx, EngineConfig())
    }

    /** The constructor and `init()`: the easy level, and an engine of that
        size. */
    constructor ()
      ensures Valid() && fresh(minesweeper) && fresh(minesweeper.Repr)
      ensures Setup() == (Easy, Preset(Easy), minesweeper) && EngineConfig() == Preset(Easy)
      ensures State() == Play(Stopped, FreshBoard(8, 8), -1)
      ensures time == 0 && !ticking && !ctrlPressed
    {
      level := Easy;
      rows, cols, mines := 8, 8, 10;
      phase, time, ticking, ctrlPressed := Stopped, 0, false, false;
      minesweeper := new Minesweeper(8, 8, 10);
      view := FreshBoard(8, 8);
      new;
      FreshPrepared(Preset(Easy));
    }

    /** `setLevel(level)`: the level's size and number of mines, for the next
        `resetGameState`. */
    method SetLevel(level: Level)
      requires Valid()
      modifies this
      ensures Valid() && Setup() == (level, Preset(level), minesweeper) && EngineConfig() == old(EngineConfig())
      ensures State() == old(State()) && time == old(time) && ticking == old(ticking) && ctrlPressed == old(ctrlPressed)
    {
      this.level := level;
      var c := Preset(level);
      rows, cols, mines := c.rows, c.cols, c.mines;
    }

    /** `startGame()`: nothing when already started; otherwise the game starts
        and `initTimer` sets the clock to 0 and starts the interval. */
    method StartGame()
      requires Valid()
      modifies this
      ensures Valid() && State() == old(State()).(phase := Started)
      ensures Setup() == old(Setup()) && ctrlPressed == old(ctrlPressed)
      ensures old(phase) == Started ==> time == old(time) && ticking == old(ticking)
      ensures old(phase) != Started ==> time == 0 && ticking
    {
      if phase == Started {
        return;
      }
      phase := Started;
      time := 0;
      ticking := true;
    }

    /** One firing of the interval `initTimer` started. */
    method OnTick()
      requires ticking
      modifies this
      ensures Setup() == old(Setup()) && phase == old(phase) && ctrlPressed == old(ctrlPressed)
      ensures ticking == Tick(old(time)).Some?
      ensures time == if Tick(old(time)).Some? then Tick(old(time)).value else old(time)
    {
      if time >= 999 {
        ticking := false;
      } else {
        time := time + 1;
      }
    }

    /** `onCellClicked(cell)`: an opened cell ignores the click; any other
        click starts the game, then flags the cell when ctrl is held, or else
        reveals it, generating the mines first on the first reveal; a
        revealed mine loses and a board `getGameState()` reports as won
        wins, either one clearing the interval. */
    method OnCellClicked(cell: Cell, pick: (nat, nat) -> nat)
      requires Valid() && cell in minesweeper.Repr && ValidPicker(pick)
      modifies this, minesweeper, minesweeper.Repr
      ensures Valid() && Setup() == old(Setup()) && ctrlPressed == old(ctrlPressed)
      ensures EngineConfig() == old(EngineConfig()) && minesweeper.Repr == old(minesweeper.Repr)
      ensures State() == CellClicked(old(State()), EngineConfig(), Coords(cell.x, cell.y), ctrlPressed, pick)
      ensures old(cell.isOpened) ==> time == old(time) && ticking == old(ticking)
      ensures !old(cell.isOpened) ==>
                && time == (if old(phase) == Started then old(time) else 0)
                && ticking == (phase == Started && (old(phase) != Started || old(ticking)))
    {
      ghost var s := State();
      ghost var c := EngineConfig();
      ghost var p := Coords(cell.x, cell.y);
      CellClickedConsistent(s, c, p, ctrlPressed, pick);
      if cell.isOpened {
        return;
      }
      ghost var k := Move(s.board, s.omitIdx, c, p, ctrlPressed, pick);
      assert CellClicked(s, c, p, ctrlPressed, pick) == Play(Settle(k, c), k.board, MovedOmit(s.omitIdx, c, p, ctrlPressed));
      if phase != Started {
        StartGame();
      }
      ClickClosed(cell, pick);
    }

    /** `onCellClicked` once the game is started: the step on the cell, then
        the outcome. */
    method ClickClosed(cell: Cell, pick: (nat, nat) -> nat)
      requires Valid() && cell in minesweeper.Repr && ValidPicker(pick) && phase == Started
      modifies this, minesweeper, minesweeper.Repr
      ensures Valid() && Setup() == old(Setup()) && ctrlPressed == old(ctrlPressed) && time == old(time)
      ensures EngineConfig() == old(EngineConfig()) && minesweeper.Repr == old(minesweeper.Repr)
      ensures var k := Move(old(view), old(minesweeper.omitIdx), EngineConfig(), Coords(cell.x, cell.y), ctrlPressed, pick);
              State() == Play(Settle(k, EngineConfig()), k.board,
                              MovedOmit(old(minesweeper.omitIdx), EngineConfig(), Coords(cell.x, cell.y), ctrlPressed))
      ensures ticking == (old(ticking) && phase == Started)
    {
      ghost var c, p := EngineConfig(), Coords(cell.x, cell.y);
      ghost var k := Move(view, minesweeper.omitIdx, c, p, ctrlPressed, pick);
      MovePrepared(view, minesweeper.omitIdx, c, p, ctrlPressed, pick);
      var isGameOver := Act(cell, ctrlPressed, pick);
      view := k.board;
      assert Valid();
      var outcome := Outcome(isGameOver, k);
      if outcome != Started {
        EndGame(outcome);
      }
    }

    /** A lost or won game: `clearInterval` and the phase. */
    method EndGame(outcome: Phase)
      requires Valid()
      modifies this
      ensures Valid() && State() == old(State()).(phase := outcome)
      ensures Setup() == old(Setup()) && ctrlPressed == old(ctrlPressed) && time == old(time) && !ticking
    {
      ticking := false;
      phase := outcome;
    }

    /** The step of `onCellClicked` on a closed cell: `cell.flag()` when
        ctrl is held, `RevealCell` otherwise; the engine's cells then hold
        the board of the step from `view`. */
    method Act(cell: Cell, flag: bool, pick: (nat, nat) -> nat) returns (isGameOver: bool)
      requires Valid() && cell in minesweeper.Repr && ValidPicker(pick)
      modifies minesweeper, minesweeper.Repr
      ensures minesweeper.Valid() && EngineConfig() == old(EngineConfig()) && minesweeper.Repr == old(minesweeper.Repr)
      ensures var k := Move(view, old(minesweeper.omitIdx), EngineConfig(), Coords(cell.x, cell.y), flag, pick);
              && minesweeper.Shows(k.board)
              && minesweeper.omitIdx == MovedOmit(old(minesweeper.omitIdx), EngineConfig(), Coords(cell.x, cell.y), flag)
              && isGameOver == k.hitMine
    {
      minesweeper.ShowsSnapshot(view);
      if flag {
        FlagCell(cell);
        isGameOver := false;
      } else {
        isGameOver := RevealCell(cell, pick);
      }
    }

    /** The reveal branch of `onCellClicked`: on the first reveal `omitIdx`
        takes the cell's id and the mines are generated; then `clickAt`. */
    method RevealCell(cell: Cell, pick: (nat, nat) -> nat) returns (isGameOver: bool)
      requires minesweeper.Valid() && Roomy(EngineConfig()) && cell in minesweeper.Repr && ValidPicker(pick)
      requires Prepared(minesweeper.Snapshot(), minesweeper.omitIdx, EngineConfig())
      modifies minesweeper, minesweeper.Repr
      ensures minesweeper.Valid() && EngineConfig() == old(EngineConfig()) && minesweeper.Repr == old(minesweeper.Repr)
      ensures var k := ClickAt(Armed(old(minesweeper.Snapshot()), old(minesweeper.omitIdx), EngineConfig(), Coords(cell.x, cell.y), pick),
                               minesweeper.rows, minesweeper.cols, Coords(cell.x, cell.y));
              minesweeper.Snapshot() == k.board && isGameOver == k.hitMine
      ensures minesweeper.omitIdx == if old(minesweeper.omitIdx) == -1 then cell.id else old(minesweeper.omitIdx)
    {
      ghost var g, omitIdx := minesweeper.Snapshot(), minesweeper.omitIdx;
      ghost var c := EngineConfig();
      ghost var p := Coords(cell.x, cell.y);
      ghost var armed := Armed(g, omitIdx, c, p, pick);
      if minesweeper.omitIdx == -1 {
        assert cell.id == Id(p, c.cols);
        IdInRange(p.x, p.y, c.rows, c.cols);
        assert armed == Generated(g, c, cell.id, pick);
        ArmBoard(cell, pick);
      } else {
        assert armed == g;
      }
      assert minesweeper.Snapshot() == armed;
      isGameOver := minesweeper.ClickAt(cell.x, cell.y);
    }

    /** The first reveal: `omitIdx` takes the cell's id, then
        `generateMines()`, which has room to lay every mine. */
    method ArmBoard(cell: Cell, pick: (nat, nat) -> nat)
      requires minesweeper.Valid() && Roomy(EngineConfig()) && cell in minesweeper.Repr && ValidPicker(pick)
      modifies minesweeper, minesweeper.Repr
      ensures minesweeper.Valid() && EngineConfig() == old(EngineConfig()) && minesweeper.Repr == old(minesweeper.Repr)
      ensures minesweeper.omitIdx == cell.id && 0 <= cell.id < minesweeper.rows * minesweeper.cols
      ensures minesweeper.Snapshot() == Generated(old(minesweeper.Snapshot()), EngineConfig(), cell.id, pick)
    {
      SetOmitIdx(cell);
      IdInRange(cell.x, cell.y, minesweeper.rows, minesweeper.cols);
      var ok := minesweeper.GenerateMines(pick);
    }

    /** The end of `onCellClicked`, once the game is started: a revealed mine
        loses, and otherwise the game is won when `getGameState()` says so. */
    method Outcome(isGameOver: bool, ghost k: Click) returns (outcome: Phase)
      requires Valid() && k == Click(view, isGameOver)
      ensures outcome == Settle(k, EngineConfig())
    {
      if isGameOver {
        return Lost;
      }
      minesweeper.ShowsSnapshot(view);
      var gameState := minesweeper.GetGameState();
      outcome := if gameState == Win then Won else Started;
    }

    /** `cell.flag()` on a cell of the board. */
    method FlagCell(cell: Cell)
      requires minesweeper.Valid() && cell in minesweeper.Repr
      modifies cell
      ensures minesweeper.Valid()
      ensures minesweeper.Snapshot() ==
                Put(old(minesweeper.Snapshot()), Coords(cell.x, cell.y), FlagState(old(cell.State())))
    {
      ghost var g := minesweeper.Snapshot();
      ghost var p := Coords(cell.x, cell.y);
      cell.Flag();
      assert forall q :: InBounds(minesweeper.rows, minesweeper.cols, q) && q != p ==>
               minesweeper.board[q.y][q.x] != cell;
      minesweeper.ShowsPut(g, p, cell.State());
    }

    /** `this.minesweeper.omitIdx = cell.id`. */
    method SetOmitIdx(cell: Cell)
      requires minesweeper.Valid() && cell in minesweeper.Repr
      modifies minesweeper
      ensures minesweeper.Valid() && minesweeper.omitIdx == cell.id
      ensures minesweeper.Snapshot() == old(minesweeper.Snapshot())
      ensures EngineConfig() == old(EngineConfig()) && minesweeper.Repr == old(minesweeper.Repr)
    {
      ghost var g := minesweeper.Snapshot();
      minesweeper.omitIdx := cell.id;
      minesweeper.ShowsSnapshot(g);
    }

    /** The handler `createCells` gives the cell: nothing once the game is
        won or lost; a key-up clicks, a long press clicks with ctrl held and
        then releases ctrl, a key-down only changes the face. */
    method OnCellEvent(cell: Cell, e: CellEvent, pick: (nat, nat) -> nat)
      requires Valid() && cell in minesweeper.Repr && ValidPicker(pick)
      modifies this, minesweeper, minesweeper.Repr
      ensures Valid() && Setup() == old(Setup()) && EngineConfig() == old(EngineConfig())
      ensures State() == HandleEvent(old(State()), EngineConfig(), Coords(cell.x, cell.y), old(ctrlPressed), e, pick)
      ensures ctrlPressed == if e == LongPress && old(phase) != Won && old(phase) != Lost then false else old(ctrlPressed)
      ensures old(Sound(State(), EngineConfig())) ==> Sound(State(), EngineConfig())
    {
      ghost var s := State();
      ghost var c := EngineConfig();
      ghost var p := Coords(cell.x, cell.y);
      if Sound(s, c) {
        HandleEventSound(s, c, p, ctrlPressed, e, pick);
      }
      if phase == Lost || phase == Won {
        return;
      }
      match e {
        case KeyUp =>
          OnCellClicked(cell, pick);
        case LongPress =>
          SetCtrl(true);
          OnCellClicked(cell, pick);
          SetCtrl(false);
        case KeyDown =>
      }
    }

    /** `IOEvents.ctrlPressed = pressed`. */
    method SetCtrl(pressed: bool)
      requires Valid()
      modifies this
      ensures Valid() && State() == old(State()) && ctrlPressed == pressed
      ensures Setup() == old(Setup()) && time == old(time) && ticking == old(ticking)
    {
      ctrlPressed := pressed;
    }

    /** `resetGameState()`: the engine takes the level's size and number of
        mines, every old cell is reset and a fresh board replaces them; the
        clock is cleared and the game is stopped. */
    method ResetGameState()
      requires Valid()
      modifies this, minesweeper, minesweeper.Repr
      ensures Valid() && Setup() == old(Setup()) && ctrlPressed == old(ctrlPressed)
      ensures fresh(minesweeper.Repr) && forall x :: x in old(minesweeper.Repr) ==> x.State() == Initial
      ensures EngineConfig() == Config(rows, cols, mines)
      ensures State() == Play(Stopped, FreshBoard(rows, cols), -1)
      ensures time == 0 && !ticking
    {
      minesweeper.mines := mines;
      minesweeper.ResetBoard(rows, cols);
      Restart();
    }

    /** The manager's part of `resetGameState()` once the engine holds a fresh
        board of the level's size: the clock is cleared and the game stopped. */
    method Restart()
      requires minesweeper.Valid() && minesweeper.omitIdx == -1
      requires minesweeper.Snapshot() == FreshBoard(rows, cols)
      requires Preset(level) == Config(rows, cols, mines) && EngineConfig() == Config(rows, cols, mines)
      modifies this
      ensures Valid() && Setup() == old(Setup()) && ctrlPressed == old(ctrlPressed)
      ensures State() == Play(Stopped, FreshBoard(rows, cols), -1)
      ensures time == 0 && !ticking
    {
      time := 0;
      ticking := false;
      phase := Stopped;
      view := FreshBoard(rows, cols);
      FreshPrepared(EngineConfig());
      assert minesweeper.Shows(view);
    }
  }
}
