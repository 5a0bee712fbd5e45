# Minesweeper engine in Dafny

This project models the minefield engine of a single-player minesweeper game,
together with the flood-fill reveal that drives it from the game window. The
engine (`GameMan`) owns a square field of adjacency counts. It also keeps two
boolean mark arrays (revealed, flagged), a reveal counter, a flag counter and a
first-click switch. Mines are placed lazily, on the first successful reveal, by
rejection sampling around the clicked cell. The window's `handleReveal`
recursively opens the neighbours of every opened cell whose count is 0.

Files:

- `Grid.dfy` (module `Grid`): cell coordinates, the Moore neighbourhood
  (Chebyshev distance 1), the adjacency count a generated field holds
  (`CellValue`), and the counting lemmas the win test needs.
- `Difficulties.dfy` (module `Difficulties`): the three fixed configurations.
- `GameMan.dfy` (module `Game`): class `GameMan` over three `array2` fields.
  The class keeps ghost sets `Mines`, `Revealed` and `Flagged` as its abstract
  state, and the ghost cell `Anchor`, the first-click cell.
  - `Valid()` ties the arrays and counters to those sets. It says:
    - every cell holds `MINE` or its exact count;
    - the reveal counter equals the number of revealed cells;
    - the flag counter equals the number of flagged cells;
    - no cell is both revealed and flagged;
    - once generated, there are exactly `numMines` mines, none within
      distance 1 of the anchor.
  - `GenerateField` keeps the source's `while` loop and its rejection tests.
  - `PlaceMine` is the placement step with its nested neighbour loops. It is
    proved against `CellValue` through an "owed increment" loop invariant.
- `App.dfy` (module `App`): the reveal cascade, as a recursive method on the
  engine with the Swing, sound and dialog calls removed.
  - The double offset loop is `Cascade`.
  - The body of that loop is `VisitNeighbour`.
  - Termination uses the set of unrevealed cells, which strictly shrinks
    before every recursive call.

Two points of the code shape the model:

- The win test compares the reveal counter with `size * size - numMines`,
  the number of safe cells, so it means "all safe cells are revealed" only
  if the counter skips mines. But `reveal` adds 1 for every revealed cell,
  mines included. `Valid()` therefore states `revealedCount == |Revealed|`,
  and `HasWon` is characterised as "every safe cell is revealed" only for
  games in which no mine is revealed.
- The cascade lives in the window's click handler, not in the engine's
  `reveal`.

The engine's random number generator is replaced by an injected sequence of
sample coordinates, `samples`. The generated mines are exactly the distinct
samples, up to some prefix, that lie outside the 3x3 safe zone
(`AcceptedSamples`).

## Model

| member | source | states |
|---|---|---|
| `Difficulties.Difficulty.Size` | app/src/main/java/minesweeper/java/App.java:263-272 | the side lengths 10, 15 and 20 of EASY, MEDIUM and HARD (second constructor argument); every side is at least 10 |
| `Difficulties.Difficulty.Mines` | app/src/main/java/minesweeper/java/App.java:263-272 | the mine counts 10, 20 and 40 (first constructor argument); each leaves room for the 3x3 safe opening: `0 < mines < size*size - 9` |
| `Grid.CellValueRange` | app/src/main/java/minesweeper/java/GameMan.java:73-83 | a generated cell holds the sentinel exactly when it is a mine; otherwise its count lies in 0..8 |
| `Grid.MinesAroundInsert` | app/src/main/java/minesweeper/java/GameMan.java:76-81 | placing one more mine raises the neighbour count of a cell by 1 exactly when the cell is next to the new mine, and leaves every other count alone |
| `Grid.ZeroCellHasSafeNeighbours` | app/src/main/java/minesweeper/java/App.java:154-162 | no neighbour of a cell whose count is 0 is a mine, so the cascade never opens a mine |
| `Grid.CellsCard` | app/src/main/java/minesweeper/java/GameMan.java:59 | a field of side `size` has `size * size` cells |
| `Grid.WonIffAllSafeRevealed` | app/src/main/java/minesweeper/java/GameMan.java:58-60 | with no mine revealed, the reveal counter equals `size*size - mines` exactly when the revealed cells are all the safe cells |
| `Game.AcceptedSamplesStep` | app/src/main/java/minesweeper/java/GameMan.java:66-71 | one more sample joins the accepted cells exactly when it lies outside the safe zone |
| `Game.GameMan.constructor` | app/src/main/java/minesweeper/java/GameMan.java:16-23 | a new engine has the configuration's size and mine count, fresh zeroed arrays, no marks, zero counters and the first click pending, and satisfies the engine invariant |
| `Game.GameMan.GetSize` | app/src/main/java/minesweeper/java/GameMan.java:25 | the size is the side of the field arrays and leaves room for the mines plus the safe zone |
| `Game.GameMan.IsMine` | app/src/main/java/minesweeper/java/GameMan.java:26 | true exactly for the cells of the mine set |
| `Game.GameMan.GetCell` | app/src/main/java/minesweeper/java/GameMan.java:27 | the sentinel exactly on a mine; otherwise the number of mines in the cell's Moore neighbourhood, in 0..8 |
| `Game.GameMan.GetFlagsPlaced` | app/src/main/java/minesweeper/java/GameMan.java:28 | the flag counter is the number of flagged cells |
| `Game.GameMan.IsRevealed` | app/src/main/java/minesweeper/java/GameMan.java:29 | true exactly for the revealed cells |
| `Game.GameMan.IsFlagged` | app/src/main/java/minesweeper/java/GameMan.java:30 | true exactly for the flagged cells |
| `Game.GameMan.ToggleFlag` | app/src/main/java/minesweeper/java/GameMan.java:34-43 | on a revealed cell nothing changes; otherwise the cell's flag bit is negated, the cell enters or leaves the flagged set, and the counter moves by +1 or -1 to match; the engine invariant is kept |
| `Game.ToggleFlagTwice` | app/src/main/java/minesweeper/java/GameMan.java:34-43 | two toggles of the same cell restore every flag bit, the flagged set and the flag counter |
| `Game.GameMan.Reveal` | app/src/main/java/minesweeper/java/GameMan.java:45-56 | returns true exactly when the cell was neither flagged nor revealed. A refused reveal changes nothing, `firstClick` included. A successful one adds exactly that cell to the revealed set and adds 1 to the counter. The first successful one generates the field around that cell as anchor; later ones leave mines, field and anchor untouched. The engine invariant is kept |
| `Game.GameMan.HasWon` | app/src/main/java/minesweeper/java/GameMan.java:58-60 | a win implies the field has been generated; with no mine revealed, a win means every safe cell is revealed, and the converse |
| `Game.GameMan.WonCharacterised` | app/src/main/java/minesweeper/java/GameMan.java:58-60 | the counter comparison of the win test agrees with "revealed cells = all cells minus mines" when no mine is revealed |
| `Game.GameMan.GenerateField` | app/src/main/java/minesweeper/java/GameMan.java:62-85 | exactly `numMines` mines are placed, all on the field and none within Chebyshev distance 1 of the safe cell; they are the accepted samples of a prefix of the stream; every cell holds the sentinel or its exact count |
| `Game.GameMan.PlaceMine` | app/src/main/java/minesweeper/java/GameMan.java:73-83 | turning a safe cell into a mine and raising its safe neighbours' counts keeps every cell equal to the sentinel or its exact count for the enlarged mine set |
| `Game.OnlyMinesHoldSentinel` | app/src/main/java/minesweeper/java/GameMan.java:79 | during the neighbour loops, a cell compares equal to `MINE` exactly when it is a mine, so the `!= MINE` test skips exactly the mines |
| `App.HandleReveal` | app/src/main/java/minesweeper/java/App.java:141-164 | keeps the engine invariant; flags are untouched, revealed marks only grow, and mines stay fixed once generated. Nothing changes when the cell was already revealed or flagged; otherwise it becomes revealed. No mine other than the clicked cell is ever opened. A mine, a nonzero count or a winning reveal opens nothing beyond the clicked cell. Every opened cell with count 0 has all in-bounds neighbours revealed or flagged. The ghost result lists exactly the opened cells in opening order, the clicked cell first, and each later one lies next to an earlier opened cell with count 0. The first successful click generates the field around the clicked cell: it becomes the anchor, and the mines are the accepted samples of a prefix of the stream. Once the field exists, the mines and the anchor stay put |
| `App.Cascade` | app/src/main/java/minesweeper/java/App.java:155-162 | after the double offset loop around a count-0 cell, all its in-bounds neighbours are revealed or flagged, and every opened count-0 cell keeps that closure. Its ghost result lists the cell and everything the loop opened, chained in opening order. Flags, mines and the anchor are unchanged |
| `App.VisitNeighbour` | app/src/main/java/minesweeper/java/App.java:157-160 | visiting offset (dx, dy) extends the set of processed neighbours by that offset (revealed or flagged once in bounds); it keeps the invariant and the closure of the opened cells. Its ghost result lists exactly the cells the visit opened, chained, starting next to the count-0 cell |
| `App.SpreadingStep` | app/src/main/java/minesweeper/java/App.java:155-162 | one recursive call on the neighbour at the current offset moves the loop state on to the next offset |
| `App.ChainedAppend` | app/src/main/java/minesweeper/java/App.java:155-162 | the cells a recursive call on a neighbour opens, appended to the opening order of the count-0 cell, keep every cell next to an earlier opened count-0 cell |
| `App.ClickOpensRegion` | app/src/main/java/minesweeper/java/App.java:141-164 | after a click, every newly revealed cell is joined to the clicked cell by a walk of Moore neighbours whose cells were all revealed by that click and, except the last, have count 0 |
| `App.ChainedWalk` | app/src/main/java/minesweeper/java/App.java:141-164 | every cell of a chained opening order is joined to the clicked cell by a walk of Moore neighbours through opened count-0 cells: the cascade opens only the count-0 region of the clicked cell and that region's border |
| `App.CascadeShrinks` | app/src/main/java/minesweeper/java/App.java:142 | after a successful reveal the set of unrevealed cells is strictly smaller, so the recursion terminates with no visited set |

## Left out

- Swing and AWT code is not modelled: the frame, panels, buttons, mouse listeners, dialogs, the timer, `updateButton`'s colour mapping, the loggers and `SoundMan`. These are presentation, floating-point colour arithmetic and I/O.
- `restartGame`/`initGame` is not modelled. The window replaces the engine object after a win or a loss. If a win happens inside a nested cascade call, the pending outer iterations of the source go on calling `handleReveal` on the new engine. The model keeps the won engine instead, so the pending iterations find their cells already revealed.
- `getRevealed`/`getFlagged` are not modelled because they hand out the internal arrays by alias. The ghost sets `Revealed` and `Flagged` are their read-only views.
- `java.util.Random` is not modelled. It is replaced by the injected stream `samples`.
- Game.GameMan.GenerateField: requires that `samples` lies on the field and holds at least `numMines` distinct cells outside the safe zone (`SamplesSuffice`). The source loop instead runs until enough random samples are accepted, which ends only with probability 1.
- Game.GameMan.Reveal: requires `SamplesSuffice` on the first click, for the same reason.
- App.HandleReveal: requires `SamplesSuffice` when the engine is still on its first click, for the same reason.
- Game.GameMan.Reveal, Game.GameMan.ToggleFlag, Game.GameMan.IsMine, Game.GameMan.GetCell, Game.GameMan.IsRevealed and Game.GameMan.IsFlagged: require in-bounds coordinates. The source throws `ArrayIndexOutOfBoundsException` for others, and the window only passes grid coordinates.
- App.HandleReveal: requires that no mine is revealed yet. In the source a revealed mine ends the game at once and the window starts a new engine, so the handler never runs on such a game.
- App.HandleReveal: the depth of the Java call stack is not modelled, nor is a `StackOverflowError` on a large open area. The field is at most 20x20.
- Java's 32-bit `int` wrap-around is not modelled; every counter and coordinate is at most 400.
