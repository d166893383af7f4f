# Windows 95 desktop simulator — window manager and mine game

This project models two parts of a browser-based Windows 95 desktop written in JavaScript.

The first is the **window manager** of the `Windows95Desktop` class. It covers:

- the registry of open windows;
- the stacking counter `windowZIndex`, which starts at 100 and is pre-incremented on every raise;
- the `activeWindow` reference;
- the taskbar buttons, one per window, in creation order;
- the highlight rule of the taskbar;
- the title-bar drag of a window;
- the operations create, activate, minimize, maximize or restore, close, and the taskbar click.

The second is the **mine game** of `setupMinesweeper`. It covers:

- a 9×9 board of cells;
- a fixed layout of ten mines;
- the adjacency counts computed when the board is set up;
- the recursive reveal, with its flood fill from cells that have no adjacent mine;
- flagging.

## Modules

- `Desktop` (desktop.dfy) holds the `Window` record, the pure helpers for `find` and `filter` (`IndexOf`, `Without`), the registry invariant (`WellFormed`, `ActiveOnTopOf`) and the lemmas that keep it. It also holds the class `WindowManager`. The class's fields are the registry (`windows`), the taskbar (`taskbarButtons`), `windowZIndex`, `activeWindow` and a fresh-id counter. Its methods update these fields in place, as the JavaScript methods do.
- `MineGrid` (minegrid.dfy) holds the adjacency count as a specification function (`AdjacentMines`, built from the nine offsets the loops visit). It also holds the set-level description of a flood fill:
  - `FloodStep`: a step from a cell with no adjacent mine to one of its neighbours;
  - `FloodPath`: a walk of such steps through newly revealed cells;
  - `Cascading`: the state of a fill in progress;
  - `Flooded`: a finished fill;
  - `ClosedUnderFlood`: a set of cells that takes in every flood step out of it.

  It also holds the class `Game` over an `array2<Cell>`. The methods of `Game` are the board set-up, the counting loop, the reveal and the flag toggle. The class has three set-valued views of the board, which the contracts are written in:
  - `Revealed`: the in-bounds cells whose revealed flag is set;
  - `Flagged`: the in-bounds cells whose flag is set;
  - `Unrevealed`: the rest of `AllCells`, the 81 in-bounds positions. It is also the termination measure of the recursive reveal.
- `Scenarios` (scenarios.dfy) holds client methods for properties that span several calls:
  - two taskbar clicks;
  - maximizing twice;
  - a title-bar press as both listeners see it;
  - a complete drag;
  - closing three windows in turn;
  - flagging twice;
  - a safe reveal followed by a mine.

## Modelling decisions

- **Window ids.** `'window-' + Date.now()` becomes a counter `nextId`. Two windows created in the same millisecond would share an id in the original; the model rules that out. With the counter, ids are distinct, and the invariant proves it.
- **Window identity.** Windows are found by id rather than by DOM element. Every lookup in the source (`find(w => w.element === window)` or by `windowId`) becomes `IndexOf(Ids(windows), id)`.
- **The `Window` record.** It merges three things:
  - the registry record: id, title, icon, `minimized` and `maximized`;
  - the style of the window's element: left, top, width, height and the stacking key;
  - the per-window drag closure: `isDragging` and the grab offset.
- **Document order.** The window elements are in the same order as the registry, because they are appended at creation and removed at close. So "the last `.window` element" in `closeWindow` is the last record of `windows`.
- **The drag listeners.** The `mousemove`/`mouseup` listeners registered by a press are modelled by the `isDragging` flag. `MouseMove` and `MouseUp` do nothing to a window that is not being dragged. The window's bounding rectangle (`getBoundingClientRect`) is an input of `MouseDownTitle`.
- **Bubbling.** A mousedown on a title bar reaches two listeners: the title bar's own (script.js:253-265) and then the window's (script.js:301-303). `Scenarios.PressTitleBar` composes the two.
- **Taskbar highlighting.** The highlight is recomputed by `updateTaskbarButtons` after every transition that can change it. The model therefore computes it from the state (`TaskbarHighlights`) instead of storing it.
- **The mine layout.** The layout comes from `Math.random` in the source. In the model it is a parameter of the `Game` constructor: a set of exactly `MineCount` (10) in-bounds positions, which is what the placement loop produces.
- **Cell records.** The source builds each row with `Array(cols).fill({...})`, so all cells of a row start as one shared object. Every later write replaces a cell with a spread copy, so the sharing is never observable. The model gives every cell its own value.

In these places the model follows the code, where a reader might expect otherwise:

- `minimizeWindow` does not move `activeWindow`. A minimized window can stay active, although its taskbar button is then not highlighted.
- `closeWindow` activates the last window in creation order, which may be minimized. It does not pick the window with the highest stacking key.
- `setActiveWindow` does not restore a minimized window.
- A title-bar press on a maximized window still sets `isDragging` (script.js:253-258). Only `handleDrag` checks `maximized` (script.js:268), so the window does not move, but the drag is in progress until the release. `MouseDownTitle` and `MouseMove` follow this.
- A revealed cell with no adjacent mine reveals all its unflagged in-bounds neighbours, recursively. Flagged neighbours are skipped.
- Revealing a mine reveals every mine, flagged ones included. This is why `Game.Valid` allows a cell that is both revealed and flagged only when it is a mine.

## Model

| member | source | states |
|---|---|---|
| Desktop.IndexOf | script.js:384 | the index found holds the id and no earlier entry does; none is found exactly when the id is absent |
| Desktop.Without | script.js:359 | the filter keeps no record with the closed id, never grows, and is the identity when the id is absent |
| Desktop.WithoutAt | script.js:359 | with distinct ids, filtering out the id of the record at i is exactly removing position i, order kept |
| Desktop.IndexOfDistinct | script.js:349 | with distinct ids, looking up the id of the record at k finds k |
| Desktop.AppendKeeps | script.js:211-239 | appending a record with the fresh id and the next stacking key keeps ids and keys distinct and bounded, and the new id was not in use |
| Desktop.RaiseKeeps | script.js:316 | raising a record to the next counter value keeps the registry well formed and puts that record strictly on top |
| Desktop.RemoveAtKeeps | script.js:353-359 | removing a record removes its id and keeps the registry well formed |
| Desktop.RemoveKeepsActive | script.js:362 | removing a window other than the active one keeps the active window present and on top |
| Desktop.Highlighted | script.js:415-421 | a lit button belongs to the active window, and the button of a minimized window is never lit |
| Desktop.AtMostOneHighlighted | script.js:410-424 | with distinct ids, at most one window satisfies the highlight rule (active and not minimized) |
| Desktop.WindowManager.constructor | script.js:4-7 | no windows, no buttons, counter 100, no active window, and the invariant holds |
| Desktop.WindowManager.ActiveOnTop | script.js:306-322 | the active window's stacking key is strictly above every other window's |
| Desktop.WindowManager.SetActiveWindow | script.js:306-322 | the counter goes up by one, that window alone gets the new key, it becomes active, and nothing else changes |
| Desktop.WindowManager.CreateWindow | script.js:202-243 | a fresh id; a record appended at cascade position 50 + 30·n with the key old counter + 2, not minimized, not maximized, not dragging; a button appended; the window becomes active |
| Desktop.WindowManager.MinimizeWindow | script.js:324-331 | only that window's minimized flag is set, the active window and the counter are kept, and an unknown id changes nothing |
| Desktop.WindowManager.ToggleMaximizeWindow | script.js:333-346 | only that window's maximized flag flips, and an unknown id changes nothing |
| Desktop.WindowManager.RemoveTaskbarButton | script.js:403-408 | the first button with that id is removed; no button means no change |
| Desktop.WindowManager.CloseWindow | script.js:348-370 | an unknown id changes nothing. Otherwise the record and its button go. If the window was active, the last remaining window is raised and made active, or there is no active window when none remains. If it was not active, the active window and the counter are kept |
| Desktop.WindowManager.ForgetWindow | script.js:353-359 | the record and its button are removed, and all else is kept |
| Desktop.WindowManager.ActivateLast | script.js:362-369 | the last remaining record is raised and made active, or there is no active window when none remains |
| Desktop.WindowManager.TaskbarClick | script.js:382-398 | minimized: restored, raised and made active. Active: minimized, and it stays active. Otherwise: raised and made active |
| Desktop.WindowManager.TaskbarHighlights | script.js:410-424 | one flag per button; a button is lit exactly when its window is active and not minimized; at most one is lit; one is lit if and only if the active window is visible |
| Desktop.WindowManager.MouseDownTitle | script.js:253-265 | on a control nothing changes; otherwise the drag starts, the window is raised and made active, and the grab offset is cursor position minus rectangle corner |
| Desktop.WindowManager.MouseMove | script.js:267-272 | a dragged, non-maximized window moves to cursor position minus grab offset; otherwise nothing changes |
| Desktop.WindowManager.MouseUp | script.js:274-278 | the drag of that window ends and its offset is kept; nothing else changes |
| Scenarios.ClickActiveTwice | script.js:386-393 | two clicks on the active visible window leave it active, not minimized, and raised once |
| Scenarios.ToggleMaximizeTwice | script.js:333-346 | maximizing twice leaves the registry, the active window and the counter as they were |
| Scenarios.PressTitleBar | script.js:253-303 | a title-bar press activates the window twice (once on a control) and starts the drag off a control |
| Scenarios.DragScenario | script.js:253-278 | a window at (50, 50) grabbed at (100, 100) and moved to (140, 130) lands at (90, 80), and a move after the release does not move it |
| Scenarios.ThreeWindows | script.js:202-243 | three created windows give three buttons in creation order, the last one is active, and their stacking keys rise in creation order |
| Scenarios.CloseFrontOfThree | script.js:362-365 | closing the front window of three activates the last one created |
| Scenarios.CloseScenario | script.js:348-370 | closing a non-active window keeps the active one; closing the last window leaves no active window |
| MineGrid.OffsetIndex | script.js:1458-1459 | the loop step at which offset (dr, dc) is visited, and the offset table maps that step back to (dr, dc) |
| MineGrid.CountStep | script.js:1460-1463 | the counting step for offset (dr, dc) adds one exactly when that cell is on the board and holds a mine, and adds nothing otherwise |
| MineGrid.MinesAmong | script.js:1457-1466 | the count after k steps of the counting loop, which is at most k |
| MineGrid.MinesAmongCounts | script.js:1457-1466 | the count after k steps is the number of distinct mined cells those steps looked at |
| MineGrid.AdjacentMinesCounts | script.js:1454-1466 | the adjacency count of a cell (the `AdjacentMines` function) is the number of mines among the in-bounds cells of its 3×3 block |
| MineGrid.MinesAmongZero | script.js:1457-1466 | a partial count is zero exactly when none of its steps hits a mine |
| MineGrid.AdjacentZeroIff | script.js:1536 | a cell's count is zero if and only if none of its in-bounds neighbours holds a mine |
| MineGrid.AdjacentAtMostEight | script.js:1500-1501 | a cell without a mine has at most eight mines around it, so its count indexes the nine-entry colour table |
| MineGrid.DoneStep | script.js:1538-1546 | one more visited offset, whose cell is revealed or flagged, extends the set of settled offsets |
| MineGrid.DoneSettled | script.js:1538-1546 | after all nine offsets, every in-bounds neighbour is revealed or flagged |
| MineGrid.StartFlood | script.js:1520-1525 | revealing one unrevealed, unflagged, mine-free cell starts a fill from it in order |
| MineGrid.CascadeStep | script.js:1538-1546 | a recursive reveal of a neighbour that finishes its own flood fill keeps the caller's flood fill in order; each cell it revealed is reached from the caller's cell by a walk of flood steps |
| MineGrid.FloodIsClosed | script.js:1536-1547 | a finished fill reveals a set that takes in every flood step out of it: the lower bound on what is revealed |
| MineGrid.FloodWithin | script.js:1536-1547 | a fill reveals nothing outside a set that contains the clicked cell and takes in its flood steps: the upper bound on what is revealed |
| MineGrid.PathWithin | script.js:1536-1547 | every cell of a flood walk lies in any set that takes in flood steps and contains the walk's start |
| MineGrid.NumberedCellAlone | script.js:1536 | a fill from a cell with a mine around it reveals that cell and nothing else |
| MineGrid.Game.constructor | script.js:1433-1471 | the board holds exactly the layout's mines; nothing is revealed or flagged; every cell without a mine has its adjacency count and a mine has zero |
| MineGrid.Game.CountAdjacent | script.js:1457-1466 | the counting loop returns the adjacency count `AdjacentMines`, that is, the number of in-bounds mines in the 3×3 block |
| MineGrid.Game.MineAt | script.js:1460-1463 | the inner test of the counting loop is true exactly when the cell at that offset is on the board and holds a mine |
| MineGrid.Game.RevealAllMines | script.js:1528-1534 | every mine becomes revealed, and no other cell and no other field changes |
| MineGrid.Game.RevealCell | script.js:1520-1550 | see the list below this table |
| MineGrid.Game.Uncover | script.js:1523-1535 | the cell is revealed; a mine ends the game and reveals every mine; flags are kept |
| MineGrid.Game.FloodNeighbours | script.js:1536-1547 | after the loop, every neighbour is revealed or flagged, and the flood fill from the cell is finished |
| MineGrid.Game.VisitNeighbour | script.js:1540-1544 | the neighbour at one offset, if on the board, ends revealed or flagged, and the flood fill stays in order |
| MineGrid.Game.RevealNeighbour | script.js:1543 | the recursive reveal of an in-bounds neighbour leaves it revealed or flagged, and the caller's flood fill stays in order |
| MineGrid.Game.ToggleFlag | script.js:1553-1558 | nothing changes when the game is over or the cell is revealed; otherwise only that cell's flag flips |
| Scenarios.ToggleFlagTwice | script.js:1553-1558 | flagging a cell twice leaves every cell as it was |
| Scenarios.SafeThenMine | script.js:1520-1547 | revealing a cell without a mine keeps the game going and reveals that cell; a mine then ends the game and every mine is shown |

The contract of `MineGrid.Game.RevealCell` states:

- When the game is over, or the cell is already revealed or flagged, nothing changes.
- When the cell is a mine, the game ends and exactly the mines are added to the revealed set.
- Otherwise the cell is revealed, every newly revealed cell is mine-free and unflagged, and the flood fill is complete (`Flooded`):
  - every newly revealed cell with no adjacent mine has all its in-bounds neighbours revealed or flagged;
  - every newly revealed cell is reached from the clicked cell by a walk of flood steps through newly revealed cells.
- When the cell has a mine around it, exactly that cell is added to the revealed set.
- With `FloodIsClosed` and `FloodWithin`, the newly revealed cells are exactly the least set that contains the clicked cell and takes in every flood step to a cell that was neither revealed nor flagged.
- In every case, flags never change and no revealed cell is hidden again.

## Left out

- The DOM: element creation, CSS classes (`active`/`inactive`, `maximized`), `display` styles, `innerHTML` content, and the z-index written to the style are all modelled as the record fields above or omitted where they carry no state.
- Sound (`playStartupSound`, `playErrorSound`), the clock, the start menu, the context menu, the desktop icons and dialogs are not part of the window manager's state.
- The applications other than the mine game (notepad, calculator, paint, the CPS tester and the rest) are not modelled.
- `renderBoard` is not modelled. It only redraws the board from the state, and its event wiring is what calls `RevealCell` and `ToggleFlag`. The nine-entry colour table it indexes is covered by `AdjacentAtMostEight`.
- Random mine placement is not modelled. The layout is the constructor's input; the loop always places exactly ten distinct mines, which the constructor requires.
- `gameStarted` is not modelled: it is declared and never used.
- The default width, height and icon of `createWindow` are not modelled; callers pass them explicitly.
- The window content (`content`) and the title text are not modelled. The title and icon are carried but are not interpreted.
- Pixel values are unbounded integers. The `'px'` string formatting and the browser's parsing of it are not modelled.
- `Desktop.WindowManager.CreateWindow`: ids come from a counter and are always fresh. It does not model the duplicate ids that two windows created in the same millisecond would get from `Date.now()`.
- The removal and re-registration of the `mousemove`/`mouseup` document listeners is not modelled. They are represented only by the per-window `isDragging` flag, so a move or release is dispatched to a window explicitly.
