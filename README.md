# Minesweeper board engine, modelled in Dafny

This project models the core of a browser Minesweeper game:

- the board engine (`Minesweeper`);
- its cells (`Cell`);
- the index arithmetic that maps a cell id to its square;
- the decisions of the controller (`GameManager`).

The controller's decisions are: routing a click to a flag or a reveal, laying the mines on the first reveal away from the revealed square, winning or losing, formatting the mine counter and the timer, choosing a level preset, and resetting the game.

The model follows the shape of the TypeScript code:

- `Cells.Cell`, `Engine.Minesweeper` and `Game.GameManager` are classes whose methods update their fields in place, as the source's do.
- Each class method is proved against a function on values:
  - the engine's cells read as a board value `Snapshot()`, a `seq<seq<CellState>>` indexed `[y][x]`;
  - the controller's phase, cells and `omitIdx` read as a `Play` value.
- What the game promises is proved about those functions in lemmas.

Modules:

| module | what it holds |
|---|---|
| `Wrappers` | `Option` |
| `Utils` | `indexToCoords` and JavaScript's `%` and `Math.floor` division |
| `Strings` | `Number.prototype.toString` for integers, and `padStart` with `'0'` |
| `Cells` | the cell record, `open`, `flag`, `reset`, `isOpenable`, `toString`, and class `Cell` |
| `Grid` | boards as values, the eight neighbour slots of `getNeighbors`, mine counting, `genInfo` |
| `FloodFill` | `openCells` and `clickAt` on values; what the reveal opens and why it terminates; `openAllMines` |
| `Tally` | counting cells; `getGameState` and what a reported win means |
| `MineDraw` | `fillMines` on values: the omitted ids, the candidates, the draw as written and corrected, the mines laid |
| `Engine` | class `Minesweeper` |
| `Game` | level presets, the mine counter and the timer, the decisions of `onCellClicked` and the cell handler, and class `GameManager` |

The random choice `randomInt(0, n - 1)` in the draw loop is a parameter `pick: (nat, nat) -> nat`. For the `k`-th draw from a list of length `n > 0` it gives a position `pick(k, n) < n` (`MineDraw.ValidPicker`). Every property about mines holds for every such picker.

The draw loop is modelled as written, `idx[randId] = idx.pop()` included: when `randId` is the last position this puts the popped id back, so a square can be drawn twice (see Findings). The engine and the controller use that draw. The swap-remove the loop evidently intends is modelled beside it under names ending in `Fixed`, with what it would promise.

Two behaviours of the controller follow from the code:

- A ctrl or long-press click on a closed cell also starts the game and its clock (src/GameManager.ts:238-240), as a reveal does.
- A won or lost game ignores cell events until `resetGameState` (src/GameManager.ts:213).

## Model

| member | source | states |
|---|---|---|
| Cells.OpenState | src/Cell.ts:30-33 | `open()` opens the cell exactly when it is opened already or unflagged, and changes no other field |
| Cells.FlagState | src/Cell.ts:54-56 | `flag()` inverts `isFlagged` and changes no other field |
| Cells.OpenIdempotent | src/Cell.ts:30-33 | a second `open()` changes nothing further |
| Cells.FlagInvolution | src/Cell.ts:54-56 | flagging twice restores the cell |
| Cells.OpenableIffOpenChanges | src/Cell.ts:39-41 | `isOpenable` holds exactly of the cells that `open()` would change |
| Cells.Display | src/Cell.ts:43-52 | `toString()` gives "" for a closed unflagged cell, the flag marker for a flagged one, the mine marker for an opened mine, "" for an opened empty cell, else the decimal count; its partner `Cells.DisplayDistinguishes` proves the texts tell the cases apart and a number reads back as the count |
| Cells.DisplayDistinguishes | src/Cell.ts:43-52 | the flag marker is shown exactly when flagged; the mine marker exactly when opened, unflagged and mined; a number shown for an unflagged safe cell is all digits and reads back as its count |
| Cells.Cell.constructor | src/Cell.ts:2-11 | the given id and coordinates, every mutable field at its initial value |
| Cells.Cell.Reset | src/Cell.ts:18-25 | every mutable field back to its initial value; id, x and y are constants |
| Cells.Cell.Open | src/Cell.ts:30-33 | the new state is `OpenState` of the old one |
| Cells.Cell.Flag | src/Cell.ts:54-56 | the new state is `FlagState` of the old one |
| Utils.JsRem | src/utils.ts:13 | JavaScript's `%` takes the dividend's sign: in `[0, b)` for a non-negative dividend, in `(-b, 0]` for a negative one; and it differs from the dividend by a multiple of `b` |
| Utils.IndexToCoords | src/utils.ts:11-15 | for `index >= 0`: `0 <= x < cols`, `y >= 0` and `x + y*cols == index`; a negative index gives a negative row |
| Utils.CoordsOfId | src/utils.ts:11-15 | `indexToCoords` inverts the id assignment of src/Minesweeper.ts:31: `indexToCoords(x + y*cols) == (x, y)` |
| Utils.IndexInBoard | src/utils.ts:12 | an index below `rows*cols` names a row below `rows`, so `board[y][x]` exists |
| Utils.IdInRange | src/Minesweeper.ts:31 | the id of every square lies in `[0, rows*cols)` |
| Utils.IndexOnBoard | src/utils.ts:11-15 | an index is in `[0, rows*cols)` exactly when its coordinates are on the board |
| Strings.DecimalString | src/Cell.ts:51 | the decimal text of a natural number: digits only, a leading '0' only for 0, and its length bounds |
| Strings.DecimalRoundTrip | src/Cell.ts:51 | the decimal text reads back as the number |
| Strings.NumberToString | src/GameManager.ts:146 | the text reads back as the number: for `n >= 0` all digits with value `n`; for `n < 0` a minus sign followed by digits with value `-n`; no leading zero except for 0 itself |
| Strings.PadStart | src/GameManager.ts:146 | `padStart(width, "0")` keeps the string at the end, fills the front with '0', and has length `max(|s|, width)` |
| Strings.LeadingZeros | src/GameManager.ts:146 | leading zeros do not change the value a string of digits reads as |
| Strings.PaddedValue | src/GameManager.ts:150 | a padded decimal text is all digits and reads back as the number |
| Grid.FreshBoard | src/Minesweeper.ts:28-36 | `initBoard` builds `rows` by `cols` cells, each in the initial state |
| Grid.NeighborSlots | src/Minesweeper.ts:72-88 | `getNeighbors` has eight slots, slot `k` being `Slot(k)` ; its partner `Grid.NeighborSlotsExact` proves the slots are exactly the adjacent squares on the board |
| Grid.Slot | src/Minesweeper.ts:79-86 | a filled slot names an on-board square adjacent to the cell |
| Grid.SlotHolds | src/Minesweeper.ts:72-88 | every on-board square adjacent to the cell fills the slot for its direction |
| Grid.NeighborSlotsExact | src/Minesweeper.ts:72-88 | the slots hold every adjacent on-board square and never the cell itself, no square twice, and all eight for an interior cell |
| Grid.MinedInSlots | src/Minesweeper.ts:97-113 | the mined squares named by a list of slots |
| Grid.CountMinedIsCardinality | src/Minesweeper.ts:97-113 | the eight `countMine++` tests count the mined squares among distinct slots |
| Grid.MinedNeighborsCount | src/Minesweeper.ts:97-113 | the count for a cell is the number of mined adjacent squares, at most 8 |
| Grid.SlottedMines | src/Minesweeper.ts:98-113 | the mines in a cell's slots are exactly its adjacent mines |
| Grid.CountMinedOnlyMines | src/Minesweeper.ts:100-113 | the count depends only on where the mines are |
| Grid.GenInfo | src/Minesweeper.ts:90-121 | `genInfo` leaves a non-empty cell alone and gives an empty cell its count, `isEmpty` exactly when the count is 0, and colour `count - 1` ; its partner `Grid.GenInfoOnFreshBoard` proves every count is the number of mined neighbours |
| Grid.GenInfoOnFreshBoard | src/Minesweeper.ts:90-121 | on a board whose cells are all empty, every count equals the mined neighbours, `isEmpty` holds exactly for a count of 0, a nonzero count takes palette entry `count - 1` of 8, and no mine moves |
| FloodFill.Unopened | src/Minesweeper.ts:145 | the closed squares of the board, the measure the reveal decreases |
| FloodFill.OpenOne | src/Minesweeper.ts:146-149 | opening a closed safe cell only opens; an unflagged one shrinks the closed set, a flagged one changes nothing |
| FloodFill.OnlyOpensShrinks | src/Minesweeper.ts:144-168 | a step that only opens never grows the closed set |
| FloodFill.OpenFrom | src/Minesweeper.ts:144-168 | `openCells` only opens closed, unflagged, mine-free cells and changes nothing else; it terminates because the closed set shrinks |
| FloodFill.OpenEach | src/Minesweeper.ts:150-166 | the eight recursive calls only open closed, unflagged, mine-free cells |
| FloodFill.OpenFromClosed | src/Minesweeper.ts:144-168 | every newly opened empty cell has all its unflagged, mine-free neighbours opened; the start is opened unless it is a mine or flagged |
| FloodFill.OpenEachClosed | src/Minesweeper.ts:150-166 | after the eight calls each unflagged, mine-free slot cell is opened |
| FloodFill.OpenFromSound | src/Minesweeper.ts:144-168 | every cell the reveal opens is reached from the start along closed, mine-free cells whose predecessors are empty |
| FloodFill.OpenEachSound | src/Minesweeper.ts:150-166 | every cell the eight calls open is reached from an openable slot |
| FloodFill.OpenFromComplete | src/Minesweeper.ts:144-168 | every cell at the end of such a path from an unflagged start is opened |
| FloodFill.PathOpened | src/Minesweeper.ts:149-166 | on a closed result, every cell along a path whose first cell is open is open |
| FloodFill.ClickAt | src/Minesweeper.ts:129-142 | `clickAt` only opens, or it reports a mine at the clicked square |
| FloodFill.ClickAtCases | src/Minesweeper.ts:129-142 | a flagged cell gives `false` and no change; an unflagged mine is opened alone and gives `true`; a safe cell gives `false`, only opens, and is opened unless flagged |
| FloodFill.OpenFromNumbered | src/Minesweeper.ts:146 | a cell with a mined neighbour is opened alone |
| FloodFill.OpenMines | src/Minesweeper.ts:209-212 | `openAllMines` opens each closed mine (unless flagged) and leaves every other cell ; its partner `FloodFill.OpenMinesEffect` proves every unflagged mine ends opened and nothing else changes |
| FloodFill.OpenMinesEffect | src/Minesweeper.ts:209-212 | afterwards every unflagged mine is opened, flagged cells and safe cells are unchanged, and only `isOpened` changed anywhere |
| Tally.ClosedCells | src/Minesweeper.ts:170-179 | the closed cells are the closed safe cells plus the closed mines; the mines are the opened plus the closed ones |
| Tally.WinIffCleared | src/Minesweeper.ts:170-180 | with exactly `mines` mines on the board and none opened, `getGameState()` is "win" exactly when every safe cell is opened |
| Tally.WinWithMissingMines | src/Minesweeper.ts:179 | with fewer mines than `mines` and none opened, a reported "win" leaves a safe cell closed |
| MineDraw.SlotIds | src/Minesweeper.ts:55-57 | the ids of the filled neighbour slots, each present |
| MineDraw.OmitIds | src/Minesweeper.ts:52-57 | the omitted ids: `omitIdx` and at most eight neighbour ids |
| MineDraw.OmitIdsCover | src/Minesweeper.ts:52-57 | the first revealed square and every square around it are omitted |
| MineDraw.Candidates | src/Minesweeper.ts:59-61 | the candidate list has at most `rows*cols` ids |
| MineDraw.CandidatesSound | src/Minesweeper.ts:59-61 | every candidate is an id of the board and not omitted |
| MineDraw.CandidatesComplete | src/Minesweeper.ts:59-61 | every id of the board that is not omitted is a candidate |
| MineDraw.CandidatesSorted | src/Minesweeper.ts:59-61 | the candidates are strictly increasing, so no id appears twice |
| MineDraw.CandidatesCount | src/Minesweeper.ts:59-61 | the candidates and the omitted ids below `rows*cols` together number `rows*cols` |
| MineDraw.CandidatesAtLeast | src/Minesweeper.ts:59-61 | at least `rows*cols` less the number of omitted ids are candidates |
| MineDraw.DrawStep | src/Minesweeper.ts:64-66 | as written: drawing below the last position shortens the list by one; drawing the last position leaves the list unchanged; every id kept was in the list |
| MineDraw.DrawMines | src/Minesweeper.ts:62-69 | as written: at most `n` ids are drawn, `n` unless the draw runs dry, and it runs dry exactly when there are no candidates at all, since the list never shrinks below one id; then no id is drawn |
| MineDraw.DrawRepeats | src/Minesweeper.ts:66 | as written, the candidates `[3, 7]` and a picker that always takes the last position draw `[7, 7]` |
| MineDraw.DrawnFrom | src/Minesweeper.ts:62-66 | as written, every drawn id and every id left is a candidate |
| MineDraw.DrawnOnBoardAsWritten | src/Minesweeper.ts:51-70 | as written, at most `mines` ids are drawn, each on the board and none omitted |
| MineDraw.DrawStepFixed | src/Minesweeper.ts:64-66 | corrected: the step removes exactly the drawn id from the list |
| MineDraw.DrawStepFixedDistinct | src/Minesweeper.ts:64-66 | corrected: a list of distinct ids stays distinct and loses the drawn id |
| MineDraw.DrawMinesFixed | src/Minesweeper.ts:62-69 | corrected: the draw runs dry exactly when there are fewer candidates than `n`; otherwise it draws `n` ids and leaves the rest |
| MineDraw.DrawMinesFixedDistinct | src/Minesweeper.ts:62-69 | corrected: from distinct candidates the ids drawn are distinct candidates, none left behind, and there are `n` of them when the candidates suffice |
| MineDraw.DrawFixedCovers | src/Minesweeper.ts:66 | corrected, the input of `DrawRepeats` draws `[7, 3]` |
| MineDraw.DrawStepOnBoard | src/Minesweeper.ts:64-66 | as written, a step keeps every id in the list on the board |
| MineDraw.ExhaustedStays | src/Minesweeper.ts:63-64 | as written, once the draw has run dry further rounds change nothing |
| MineDraw.DrawStops | src/Minesweeper.ts:63 | as written, the loop stops after `mines` rounds or when the list is empty; either way it has drawn what `DrawMines` of `mines` ids draws, and it ran dry exactly when it stopped early |
| MineDraw.DrawnOnBoard | src/Minesweeper.ts:51-70 | corrected, the ids drawn are distinct, on the board and never omitted |
| MineDraw.IdentifiesSquare | src/Minesweeper.ts:67 | `indexToCoords(id)` is on the board and is the one square whose id is `id` |
| MineDraw.MarkMines | src/Minesweeper.ts:67-68 | a square becomes mined exactly when its id was drawn, and nothing else changes |
| MineDraw.MarkOneMore | src/Minesweeper.ts:67-68 | one more drawn id mines exactly the square `indexToCoords` gives |
| MineDraw.MarkMinesCount | src/Minesweeper.ts:67-68 | laying the drawn ids adds at most that many mines, and exactly that many when they are distinct and land on safe squares |
| MineDraw.MarkMinesSome | src/Minesweeper.ts:67-68 | laying a non-empty list of drawn ids leaves at least one mine |
| MineDraw.FillDraw | src/Minesweeper.ts:51-69 | as written, the ids `fillMines` draws are on the board and not omitted, possibly with repeats; there are `mines` of them unless the draw runs dry, which it does exactly when `mines > 0` and no candidate is left, drawing nothing, and never when `mines + 9 <= rows*cols` |
| MineDraw.FillMinesSafe | src/Minesweeper.ts:51-70 | `fillMines` changes only mine bits, removes no mine, and leaves the first revealed square and those around it as they were |
| MineDraw.FillMinesCount | src/Minesweeper.ts:51-70 | as written, `fillMines` adds at most `mines` mines, and at least one when `mines > 0` and there is room for them |
| MineDraw.FillDrawFixed | src/Minesweeper.ts:51-69 | corrected: the ids drawn are distinct, on the board and not omitted; there are `mines` of them unless the draw runs dry, and it cannot when `mines + 9 <= rows*cols` |
| MineDraw.FillMinesFixedCount | src/Minesweeper.ts:51-70 | corrected: `fillMines` adds at most `mines` mines, and on a board with no mine and room for them exactly `mines` |
| Engine.Minesweeper.constructor | src/Minesweeper.ts:20-26 | the given size and mine number, `omitIdx` -1, and a fresh board |
| Engine.Minesweeper.InitBoard | src/Minesweeper.ts:28-36 | a fresh board of new cells; size, mines and `omitIdx` unchanged |
| Engine.Minesweeper.ResetBoard | src/Minesweeper.ts:38-44 | `omitIdx` -1, the new size, every old cell reset, and a fresh board of new cells |
| Engine.Minesweeper.GetCellById | src/Minesweeper.ts:192-196 | a cell exactly for an id in `[0, rows*cols)`; it has that id and the coordinates `indexToCoords` gives |
| Engine.Minesweeper.GetNeighbors | src/Minesweeper.ts:72-88 | eight slots; slot `k` holds a cell exactly when `NeighborSlots` fills it, and that cell sits at that square with its id |
| Engine.Minesweeper.GenerateMines | src/Minesweeper.ts:46-49 | with `omitIdx` off the board nothing changes and the result is false; otherwise the result says whether the draw completed, and the cells become `genInfo` of `fillMines` if it did; if it did not (no candidate square at all) no mine was laid and `genInfo` is skipped |
| Engine.Minesweeper.FillMines | src/Minesweeper.ts:51-70 | with `omitIdx` on the board the cells become `MineDraw.FillMines` of the old ones, and the result says whether the draw completed |
| Engine.Minesweeper.NeighbourIds | src/Minesweeper.ts:55-57 | the loop collects the ids of the filled slots |
| Engine.Minesweeper.LayMines | src/Minesweeper.ts:62-69 | the loop mines exactly the squares the draw as written (`MineDraw.DrawMines`) of `mines` ids picks, and reports whether it completed |
| Engine.Minesweeper.LayRound | src/Minesweeper.ts:63-68 | one round, `idx[randId] = idx.pop()`: the list becomes `MineDraw.DrawStep` of the old one and the drawn id's square is mined |
| Engine.Minesweeper.LayMine | src/Minesweeper.ts:67-68 | the square of `id` becomes mined |
| Engine.Minesweeper.GenInfo | src/Minesweeper.ts:90-121 | the cells become `Grid.GenInfo` of the old ones |
| Engine.Minesweeper.GenInfoRow | src/Minesweeper.ts:91-120 | one row gets its counts and no other row changes |
| Engine.Minesweeper.GenInfoAt | src/Minesweeper.ts:92-118 | one cell gets its count, emptiness and colour |
| Engine.Minesweeper.CountMinedCells | src/Minesweeper.ts:97-113 | the eight tests count the mined cells among the slots |
| Engine.Minesweeper.ClickAt | src/Minesweeper.ts:129-142 | the cells become the board of `FloodFill.ClickAt`, and the result is whether a mine was hit |
| Engine.Minesweeper.OpenCells | src/Minesweeper.ts:144-168 | the cells become `OpenFrom` of the old ones |
| Engine.Minesweeper.OpenNeighbours | src/Minesweeper.ts:150-166 | the eight recursive calls make the cells `OpenEach` of the old ones |
| Engine.Minesweeper.GetGameState | src/Minesweeper.ts:170-180 | "win" exactly when `rows*cols` less the opened cells equals `mines` |
| Engine.Minesweeper.GetFlaggedMineCount | src/Minesweeper.ts:182-190 | the number of flagged cells |
| Engine.Minesweeper.OpenAllMines | src/Minesweeper.ts:209-216 | the cells become `OpenMines` of the old ones |
| Engine.Minesweeper.OpenMinesRow | src/Minesweeper.ts:210-212 | one row's closed mines are opened (unless flagged) and nothing else in it changes |
| Game.Preset | src/GameManager.ts:9-13 | easy 8×8 with 10, medium 16×16 with 40, hard 16×30 with 99, each leaving room for the mines around a first reveal |
| Game.MineCountShape | src/GameManager.ts:142-147 | a counter that is not negative is at least three digits, exactly three below 1000; a negative one is a minus sign and digits |
| Game.MineCountReadsBack | src/GameManager.ts:142-147 | the counter reads back as `mines` less the flagged cells |
| Game.Tick | src/GameManager.ts:82-88 | from 999 on the interval is cleared; below it the time goes up by one, to at most 999 |
| Game.ElapsedStopsAt999 | src/GameManager.ts:82-88 | after `k` firings the clock shows `min(time + k, 999)` |
| Game.TimerText | src/GameManager.ts:149-151 | the timer text is at least three digits (exactly three below 1000) and reads back as the time |
| Game.CellClicked | src/GameManager.ts:235-269 | a click on an opened cell changes nothing; any other click leaves the game not stopped |
| Game.ClickKeepsMines | src/Minesweeper.ts:129-142 | `clickAt` moves no mine |
| Game.FlagClick | src/GameManager.ts:244-245 | a ctrl click toggles the flag and nothing else; `omitIdx` is kept, it never loses, and it wins exactly when `getGameState()` already says "win" |
| Game.GeneratedAround | src/GameManager.ts:247-249 | the mines of the first reveal leave its square and those around it clear, so the square is empty; no cell is opened and no flag moves |
| Game.FirstReveal | src/GameManager.ts:247-252 | the first reveal sets `omitIdx` to the cell's id, never loses, lays at most `mines` mines, and opens the cell and its unflagged neighbours unless the cell is flagged |
| Game.FirstRevealMines | src/GameManager.ts:247-249 | the generated board holds at most `mines` mines, and at least one when `mines > 0` |
| Game.FirstRevealMinesFixed | src/GameManager.ts:247-249 | corrected: with the swap-remove draw the generated board would hold exactly `mines` mines |
| Game.LaterReveal | src/GameManager.ts:247-257 | once `omitIdx` is set no mines are generated and none moves; the game is lost exactly when the cell is an unflagged mine |
| Game.CellClickedConsistent | src/GameManager.ts:235-269 | every click keeps the board prepared (all cells untouched before the first reveal, `omitIdx` on the board after it) |
| Game.MovePrepared | src/GameManager.ts:244-253 | the flag or reveal step keeps the board prepared |
| Game.FreshSound | src/GameManager.ts:297-305 | the game that `resetGameState` starts is sound |
| Game.UnrevealedNotWon | src/GameManager.ts:260-262 | before the first reveal no cell is open, so `getGameState()` cannot say "win" |
| Game.ArmedSound | src/GameManager.ts:247-251 | the board a reveal acts on has no opened mine |
| Game.HandleEventSound | src/GameManager.ts:210-224 | every cell event keeps the game sound: at most `mines` mines once generated, no opened mine unless lost, and "won" only after a first reveal with `getGameState()` at "win" |
| Game.RevealSound | src/GameManager.ts:246-266 | a reveal keeps the game sound |
| Game.FlagClickSound | src/GameManager.ts:244-245 | a flag click keeps the game sound |
| Game.RevealMines | src/GameManager.ts:246-252 | after any reveal `omitIdx` is set and the board holds at most `mines` mines |
| Game.Replay | src/GameManager.ts:210-224 | a run of cell events from a sound game ends in a sound game |
| Game.GameOverIsFinal | src/GameManager.ts:213 | once won or lost, every further cell event is ignored |
| Game.NeverStoppedAgain | src/GameManager.ts:238-240 | once started, no cell event brings the game back to "stop" |
| Game.WonMeansCleared | src/GameManager.ts:260-266 | a game marked won has every safe cell opened when the board holds all `mines` mines, and still has a safe cell closed when it holds fewer |
| Game.GameManager.constructor | src/GameManager.ts:47-55 | the easy level, an engine of its size, a fresh board, "stop", time 0 |
| Game.GameManager.SetLevel | src/GameManager.ts:64-69 | the level and its preset size and mines; the game itself unchanged |
| Game.GameManager.StartGame | src/GameManager.ts:91-96 | nothing when already started; otherwise "start", time 0 and the interval running |
| Game.GameManager.OnTick | src/GameManager.ts:82-88 | one firing: the time goes up by one below 999, and from 999 the interval stops |
| Game.GameManager.OnCellClicked | src/GameManager.ts:235-269 | the new game is `CellClicked` of the old one; an opened cell leaves the clock alone, and any other click starts the clock if it was not running and stops it on a win or a loss |
| Game.GameManager.ClickClosed | src/GameManager.ts:242-267 | once started: the flag or reveal step, then the outcome, with the interval stopped on a win or a loss |
| Game.GameManager.EndGame | src/GameManager.ts:255-266 | the interval is cleared and the phase set |
| Game.GameManager.Act | src/GameManager.ts:244-253 | the engine's cells hold the board of the flag or reveal step; the result is whether a mine was hit |
| Game.GameManager.RevealCell | src/GameManager.ts:246-253 | generation on the first reveal, then `clickAt` |
| Game.GameManager.ArmBoard | src/GameManager.ts:247-249 | `omitIdx` takes the cell's id and the board becomes the generated one |
| Game.GameManager.Outcome | src/GameManager.ts:255-266 | a hit mine loses; otherwise "win" from `getGameState()` wins and anything else goes on |
| Game.GameManager.FlagCell | src/GameManager.ts:245 | only the clicked cell's flag changes |
| Game.GameManager.SetOmitIdx | src/GameManager.ts:248 | `omitIdx` takes the cell's id and no cell changes |
| Game.GameManager.OnCellEvent | src/GameManager.ts:210-224 | the new game is `HandleEvent` of the old one, a long press releases ctrl, and soundness is kept |
| Game.GameManager.SetCtrl | src/GameManager.ts:219-221 | only the ctrl flag changes |
| Game.GameManager.ResetGameState | src/GameManager.ts:297-306 | the engine takes the level's size and mines, every old cell is reset, a fresh board with `omitIdx` -1, "stop", time 0 and no interval |
| Game.GameManager.Restart | src/GameManager.ts:302-304 | the controller's part of the reset: time 0, no interval, "stop", a fresh board |

## Left out

- All DOM work is left out. This covers `createCells`, `renderCell(s)`, `renderDOM`, `initTopBarDOM`, `resizeDOMs`, `initContainer` and `updateContainerSize`. It also covers the `cellDOM.remove()` branch of `reset`, and the way `_isDirty` and the cell colour are used when drawing. The model keeps the fields but nothing reads them.
- `openAllMines`: the red-background styling is left out (src/Minesweeper.ts:213). It calls `isIncorrectlyFlagged`, which `Cell` does not define, so as written the first iteration throws after opening at most `board[0][0]`. `FloodFill.OpenMines` and `Engine.Minesweeper.OpenAllMines` model the loop as it would run without that call. `GameManager` never calls `openAllMines`.
- `printBoard`, `emojiFaceState`, `renderStartButton`, `dispatchEvent` and the game-over event are left out: they are console output and DOM events. A key-down on a cell only changes the face, so it is modelled as no change.
- `onClick` gesture detection (src/utils.ts:17-55), the window key listeners and `src/main.ts` are left out: they are browser event wiring. A key-up, a long press and ctrl are inputs of `Game.HandleEvent`. Ctrl is set with `SetCtrl`.
- `shuffler` is left out because nothing uses it.
- `randomInt`'s floating-point arithmetic is left out. The draw takes a `pick` function with the contract that its result lies in `[0, n - 1]`.
- The timer's scheduling (`setInterval`, `clearInterval`, `clearTimeout`) is asynchronous and is left out. `Game.GameManager.OnTick` is one firing; it may only be called while an interval is running (`ticking`). `Game.Tick` is the pure step.
- The colour strings are left out. A count's colour is an index into the eight-entry palette.
- Game.GameManager.constructor: it also does the work of `init()` (src/GameManager.ts:71-72), so the engine always exists. The source creates the engine only when `init()` is called.
- Engine.Minesweeper.GenerateMines: where the source throws a `TypeError`, the result is `false` and `genInfo` is skipped. This happens when `omitIdx` is off the board, or when `mines > 0` and every square is the revealed cell or one of its neighbours: then the first round of the draw finds no candidate and no mine is laid. More mines than candidates does not throw; the draw as written lays repeated ids instead. The controller presets always leave room, so inside the game it is always `true`.
- Engine.Minesweeper.GetCellById: an id off the board gives `None`; the source throws on `board[y]` being undefined.
- Engine.Minesweeper.ClickAt: requires the square to be on the board. The source reads `board[y][x]` and fails otherwise.
- Game.Sound: it keeps at most `mines` mines once they are generated, not exactly `mines`, because the draw as written can lay fewer (see Findings). Only the corrected draw lays exactly `mines` (`Game.FirstRevealMinesFixed`).
- Game.FirstReveal, Game.FirstRevealMines, Game.RevealMines: they promise at most `mines` mines, for the same reason.
- MineDraw.FillDraw: it does not promise distinct ids, because the draw as written can repeat one. `MineDraw.FillDrawFixed` does.

## Findings

| source | as written | input that shows it | evidently intended | confidence | as-written member | corrected member |
|---|---|---|---|---|---|---|
| src/Minesweeper.ts:66 | `idx[randId] = idx.pop()` puts the popped id back when `randId` is the last position, so the id just drawn stays in the list and can be drawn again; the board then holds fewer than `mines` mines. `getGameState()` reports a win when `mines` cells are still closed, so it can report a win early, with a safe cell closed, or none at all: on the easy board with 9 mines laid a win needs exactly 54 cells open, and one flood fill can go from 53 to 55 | candidates `[3, 7]`, two mines, `randomInt` returning the last position each time: ids `[7, 7]`, one mine | a swap-remove that takes the drawn id out of the list, so `mines` distinct squares are mined | not executed | MineDraw.DrawRepeats | MineDraw.DrawMinesFixedDistinct |
