/** One square of the board (src/Cell.ts): a small record updated in place by
    `open`, `flag` and `reset`, with the display text `toString` derives from it. */
module Cells {
  import opened Strings

  /** The colour a cell's number is drawn in: none, or entry `index` (0 to 7)
      of the engine's eight-colour palette (blue, green, red, dark blue,
      maroon, turquoise, black, gray). */
  datatype Colour = NoColour | Palette(index: nat)

  /** The value of a cell's mutable fields, used to state what the board
      operations do. */
  datatype CellState = CellState(
    isOpened: bool,
    isFlagged: bool,
    mine: bool,
    isEmpty: bool,
    count: nat,
    isDirty: bool,
    colour: Colour)

  /** What a new or reset cell holds. */
  const Initial: CellState := CellState(false, false, false, true, 0, false, NoColour)

  const FlagMarker: string := "\U{1F6A9}"
  const MineMarker: string := "\U{1F4A3}"

  /** `isOpenable`: a cell the flood fill may still open. */
  predicate Openable(c: CellState) {
    !c.isOpened && !c.isFlagged
  }

  /** `open()`: a flagged cell ignores it, any other cell becomes opened. */
  function OpenState(c: CellState): (r: CellState)
    ensures r.isOpened == (c.isOpened || !c.isFlagged)
    ensures r.(isOpened := c.isOpened) == c
  {
    if c.isFlagged then c else c.(isOpened := true)
  }

  /** `flag()`: toggles the flag and nothing else. */
  function FlagState(c: CellState): (r: CellState)
    ensures r.isFlagged == !c.isFlagged
    ensures r.(isFlagged := c.isFlagged) == c
  {
    c.(isFlagged := !c.isFlagged)
  }

  /** A second `open()` changes nothing further. */
  lemma OpenIdempotent(c: CellState)
    ensures OpenState(OpenState(c)) == OpenState(c)
  {
  }

  /** Flagging twice restores the cell. */
  lemma FlagInvolution(c: CellState)
    ensures FlagState(FlagState(c)) == c
  {
  }

  /** `isOpenable` holds exactly of the cells `open()` would change. */
  lemma OpenableIffOpenChanges(c: CellState)
    ensures Openable(c) <==> OpenState(c) != c
  {
  }

  /** `toString()`: what the cell's button shows. */
  function Display(c: CellState): (s: string)
    ensures !c.isOpened && !c.isFlagged ==> s == ""
    ensures c.isFlagged ==> s == FlagMarker
    ensures c.isOpened && !c.isFlagged && c.mine ==> s == MineMarker
    ensures c.isOpened && !c.isFlagged && !c.mine && c.isEmpty ==> s == ""
    ensures c.isOpened && !c.isFlagged && !c.mine && !c.isEmpty ==> s == DecimalString(c.count)
  {
    if !c.isOpened && !c.isFlagged then ""
    else if c.isFlagged then FlagMarker
    else if c.mine then MineMarker
    else if c.isEmpty then ""
    else NumberToString(c.count)
  }

  /** The text tells the reader which kind of cell it is: the flag and the mine
      are never confused with each other or with a number, and a number reads
      back as the cell's count. */
  lemma DisplayDistinguishes(c: CellState)
    ensures Display(c) == FlagMarker <==> c.isFlagged
    ensures Display(c) == MineMarker <==> c.isOpened && !c.isFlagged && c.mine
    ensures Display(c) != "" && !c.isFlagged && !c.mine ==>
              AllDigits(Display(c)) && DecimalValue(Display(c)) == c.count
  {
    var s := Display(c);
    if !c.isFlagged && s != "" && s != MineMarker {
      DecimalRoundTrip(c.count);
      assert IsDigit(s[0]);
    }
    if c.isFlagged {
      assert s == FlagMarker;
    } else if s == FlagMarker || s == MineMarker {
      assert !IsDigit(s[0]);
    }
  }

  class Cell {
    const id: int
    const x: int
    const y: int
    var isOpened: bool
    var mine: bool
    var isEmpty: bool
    var neighborsMineCount: nat
    var isFlagged: bool
    var isDirty: bool
    var color: Colour

    /** The values of the mutable fields. */
    function State(): CellState
      reads this
    {
      CellState(isOpened, isFlagged, mine, isEmpty, neighborsMineCount, isDirty, color)
    }

    constructor (id: int, x: int, y: int)
      ensures this.id == id && this.x == x && this.y == y
      ensures State() == Initial
    {
      this.id, this.x, this.y := id, x, y;
      isOpened, mine, isEmpty, neighborsMineCount := false, false, true, 0;
      isFlagged, isDirty, color := false, false, NoColour;
    }

    /** `reset()`: every mutable field back to its initial value; the
        identity and the coordinates stay. */
    method Reset()
      modifies this
      ensures State() == Initial
    {
      isOpened, mine, isEmpty, neighborsMineCount := false, false, true, 0;
      isFlagged, isDirty, color := false, false, NoColour;
    }

    method Open()
      modifies this
      ensures State() == OpenState(old(State()))
    {
      if isFlagged {
        return;
      }
      isOpened := true;
    }

    /** `isOpenable` */
    predicate IsOpenable()
      reads this
    {
      Openable(State())
    }

    function ToString(): string
      reads this
    {
      Display(State())
    }

    method Flag()
      modifies this
      ensures State() == FlagState(old(State()))
    {
      isFlagged := !isFlagged;
    }
  }
}
