# Minesweeper board engine, modelled in Dafny

This project models the core of a browser Minesweeper engine. The core is:

- the board model (`BoardModel`): a width x height grid of cells that can be
  cleared, mined, counted, opened with a flood fill, flagged, and revealed on a
  loss;
- the cell record and the synchronous observer list the engine uses for its
  notifications (`Cell`, `Event`);
- the board controller (`Board`): it judges every opened cell as a loss or a
  win, refreshes the board, and ignores clicks once the game is over;
- the game's state machine (`GameState`, `changeState`, `start`, `restart`)
  and its difficulty presets (`GameLevels`).

The model is functional. A board is an immutable record with the cells as a
column-major `seq<seq<Cell>>` and the `openedCount` counter. Every operation
returns the new board together with the ordered trace of the events it emitted.
A listener list is a `seq` of listener identities. `notify` produces the ordered
sequence of its deliveries.

The modules follow the source files:

| module | models |
|---|---|
| `Errors` | one error value per guard that throws, and the `Result`/`Option` wrappers |
| `Events` | `Eventi.js`: the cell record, `attach`, `detach`, `notify`, `clear`, `listenerCount` |
| `Grids` | counting and listing the cells of a grid that have a property; the board's invariants are stated with these counts |
| `BoardModel` | `modelploce.js` |
| `GameStates` | `igra.js`: `GameState`, `GameLevels`, `changeState`, and the preset lookup of `prepareBoard` |
| `BoardController` | `ploca.js` |
| `GameLifecycle` | `igra.js`: `start`, `prepareBoard`, `restart`, and the game as the board's host |

Modelling decisions:

- Mine placement draws its positions from `Math.random`. Here a sequence of
  samples is given instead: sample k is the position drawn on attempt k. Every
  property is proved for any sequence of in-range samples long enough for the
  attempt budget of `bombs * 10`.
- A `CellOpened` event carries the value of `openedCount` at the moment it is
  emitted. That is the value `checkMine` reads, because listeners run
  synchronously.
- The board's handlers read the global game. Here the game is a parameter,
  `Host`: either `Headless` (no game) or `Hosted(state, mines)`. `mines` is the
  configured mine count.
- A listener that throws is modelled by a `throws` predicate over delivery
  positions. A throwing delivery is recorded as such, and the delivery list
  goes on.
- `checkMine` runs on each event while the cascade is still in progress. The
  model judges one open's whole trace after the cascade instead. The two agree
  on boards with accurate neighbour counts, which is every board a game
  reaches (`SessionStaysSound`): `checkMine` changes the board only on a mine,
  and with accurate counts a mine's event is the only event of its open
  (`MineOpenIsAlone`). On a board whose stored counts are stale, a cascade can
  reach a mine, and then the two differ (see "Left out").
- Listener identities 1 to 5 stand for the bound handlers: `checkMine`, the two
  click handlers, and the view's two model handlers. A fixed identity per
  handler assumes that a model is observed by one board and one view, which is
  how `prepareBoard` uses it: each board gets a new model.

With a game attached, `hasMine` is announced once per revealed mine, not once
per loss. On a loss,
`changeState(LOST)` reveals every closed mine, and `checkMine` runs again on
each of those events. The model follows the code (`ClickOnMineLoses`).

The win test uses the configured mine count, not the number of mines actually
placed. This is what the code does, and the model does the same. If placement
runs out of attempts, the win test can fire before every safe cell is open.
`DeminedMeansCleared` says exactly when the test means "board cleared": when the
two counts agree.

## Model

| member | source | states |
|---|---|---|
| Events.Attach | Eventi.js:16-21 | a non-function is rejected; otherwise the listener is appended: the count grows by one, the earlier listeners keep their order, and the new one is last |
| Events.IndexOf | Eventi.js:24 | the first position holding the listener, or -1 exactly when it is absent |
| Events.Detach | Eventi.js:23-28 | an absent listener leaves the channel unchanged; otherwise exactly its first occurrence is removed, the others keep their order, and the count drops by one |
| Events.DetachUndoesAttach | Eventi.js:16-28 | attaching a new listener and detaching it gives back the original channel |
| Events.Clear | Eventi.js:40-46 | afterwards the listener count is zero |
| Events.Notify | Eventi.js:30-38 | one delivery per listener, in list order, each with the sender and the payload; a throwing call is only marked as such |
| Events.FailuresAreIsolated | Eventi.js:30-38 | which calls throw changes only the failure marks, never who is called, in what order, or with what |
| Events.Logged | Eventi.js:30-38 | only listeners whose call threw are logged, every listener whose call threw is logged, nothing is logged when no call threw, and every listener is logged in order when all calls threw |
| Events.LoggedAppend | Eventi.js:30-38 | the log of two runs of deliveries is the first run's log followed by the second's, and one delivery is logged exactly when it threw: one line per throwing call, in delivery order, repeats included |
| Events.NewCellIsBlank | Eventi.js:1-8 | a new cell holds no mine, is closed and unflagged, and counts no mined neighbour |
| Events.ListenerCount | Eventi.js:44-46 | the count is the number of subscribers; `Attach`, `Detach` and `Clear` state their effect on it |
| BoardModel.New | modelploce.js:2-16 | an error exactly when a dimension is not positive; otherwise the given size, every cell in the zero state, `openedCount` 0, no subscribers |
| BoardModel.Clear | modelploce.js:26-37 | every cell back to the zero state and `openedCount` 0; size and subscribers kept |
| BoardModel.ClearIsNew | modelploce.js:26-37 | a cleared board equals a newly constructed one of that size that kept its subscribers |
| BoardModel.ClearEstablishes | modelploce.js:26-37 | a cleared board satisfies the board invariant and has accurate counts and no mine |
| BoardModel.PlaceFrom | modelploce.js:44-57 | the placement loop only adds mines; it adds at most one per attempt and never exceeds `bombs` nor the budget; it stops short only when the budget is spent; every sampled cell is mined |
| BoardModel.PlacedOnlyFromSamples | modelploce.js:48-56 | every mine the loop adds was drawn in one of the attempts it made |
| BoardModel.SetMines | modelploce.js:39-62 | an error exactly when `bombs` is negative or above width * height; otherwise only `hasMine` changes, no mine is removed, and at most `bombs` mines are added with at most `bombs * 10` samples; every drawn cell ends mined and every new mine was drawn |
| BoardModel.ValidPositionIndexesCell | modelploce.js:87-89 | on a well-formed board, a position is valid exactly when it indexes a cell of the grid |
| BoardModel.MinesAddedKeepsInvariants | modelploce.js:52-55 | adding mines keeps the board invariant and the exact opened count |
| BoardModel.GetBombsAround | modelploce.js:72-85 | the clipped double loop returns the number of mined neighbours; the value is 0 off the board and between 0 and 8 |
| BoardModel.BombsAround | modelploce.js:72-85 | the mined-neighbour count is at most 8 |
| BoardModel.ClippedBlock | modelploce.js:78-83 | counting over the edge-clipped 3 x 3 block without the centre gives the mined-neighbour count |
| BoardModel.ZeroMeansNoMineAround | modelploce.js:72-85 | a zero count means that no valid neighbour holds a mine |
| BoardModel.BombsAroundFrame | modelploce.js:72-85 | the count depends only on where the mines are |
| BoardModel.FindNeighbors | modelploce.js:64-70 | every cell's stored count becomes its mined-neighbour count, and nothing else changes |
| BoardModel.OpenedCell | modelploce.js:101-102 | opening one cell lowers the number of closed cells, which is the measure that makes the flood fill terminate |
| BoardModel.Open | modelploce.js:91-113 | a no-op without events when the position is off the board or the cell is open or flagged; otherwise only closed unflagged cells open, `openedCount` rises by exactly one per newly opened cell and per event, no cell is reported twice, the cell's own event is last, a mine or a cell whose stored count is nonzero opens alone with one event, and a zero-count safe cell leaves all its neighbours open or flagged (the lower bound of the flood; the upper bound is `OpenSpreadsFromZeros`) |
| BoardModel.OpenSpreadsFromZeros | modelploce.js:91-123 | the flood opens nothing beyond the zero region and its border: every reported cell except the clicked one, reported last, lies next to a safe zero-count cell that the same open reports later; since every newly opened cell is reported once, each opened cell is linked to the clicked one through zero-count cells |
| BoardModel.OpenEachSpreadsFromZeros | modelploce.js:115-123 | opening positions in turn reports only those positions and cells next to a safe zero-count cell reported later |
| BoardModel.CascadeEndsAtFinalCount | modelploce.js:101-112 | since a cell is reported after its own cascade, the last two events of an open both carry the counter the open ends with |
| BoardModel.OpenEachEndsAtCount | modelploce.js:115-123 | the last event of the neighbour loop carries the counter the loop ends with: nothing opens after it |
| BoardModel.OpenNeighbors | modelploce.js:115-123 | afterwards every valid neighbour of the cell is open or flagged, and the step has the same guarantees as `open` |
| BoardModel.OpenEach | modelploce.js:116-122 | opening positions in turn leaves each valid one open or flagged, and the step has the same guarantees as `open` |
| BoardModel.NeighbourList | modelploce.js:116-120 | the positions visited are exactly the valid neighbours, without the cell itself, each once, in column-major order (columns outside, rows inside) |
| BoardModel.StepKeepsInvariants | modelploce.js:91-102 | opening keeps "no cell open and flagged", `openedCount` never above width * height, the exact opened count, the mines, and the accuracy of the counts |
| BoardModel.OpenTwiceIsNoOp | modelploce.js:96-99 | opening the same position again does nothing |
| BoardModel.SafeOpenOpensNoMine | modelploce.js:108-112 | with accurate counts, opening a cell without a mine reports no mine and leaves no mine open that was closed before |
| BoardModel.MineOpenIsAlone | modelploce.js:104-107 | with accurate counts, an open that reports a mine reports nothing else |
| BoardModel.SwitchFlag | modelploce.js:125-135 | a no-op off the board or on an open cell; otherwise only that cell's flag toggles, and the new value is the one event |
| BoardModel.SwitchFlagTwice | modelploce.js:125-135 | switching a flag twice gives back the board |
| BoardModel.FlagBlocksOpen | modelploce.js:96-99 | a newly flagged cell cannot be opened |
| BoardModel.SwitchFlagKeepsInvariants | modelploce.js:125-135 | toggling a flag keeps the board invariant, the exact opened count and the counts |
| BoardModel.Reveal | modelploce.js:141-143 | a cell ends open exactly when it was open or mined; a closed mine loses its flag; the mine and the neighbour count never change |
| BoardModel.OpenAllMines | modelploce.js:137-148 | every mined cell ends open, and unflagged when no cell was open and flagged before; every other cell is unchanged; there is one event per closed mine, at exactly those positions, in column-major order, each carrying the revealed cell; `openedCount` does not change |
| BoardModel.OpenAllMinesIdle | modelploce.js:137-148 | afterwards no mine is closed, and on such a board the reveal does nothing |
| BoardModel.OpenAllMinesKeepsInvariants | modelploce.js:137-148 | the reveal keeps the board invariant and the counts |
| BoardModel.GetCell | modelploce.js:150-155 | nothing off the board, and the cell itself on it |
| GameStates.ChangeState | igra.js:98-112 | asking for the current state does nothing; any other state is taken, and the mines are revealed exactly on a change to LOST |
| GameStates.ChangeStateSettles | igra.js:98-99 | a repeated request is a no-op, so a loss reveals the mines once |
| GameStates.FindLevel | igra.js:76-85 | a preset is found exactly when one has that name, and it is a preset of that name; otherwise an unknown-level error |
| GameStates.FindLevelFrom | igra.js:76-81 | the scan returns the first preset from that position on with the name |
| GameStates.LevelsRoundTrip | igra.js:10-26 | every preset is found under its own name |
| GameStates.LevelTable | igra.js:10-26 | beginner is (8, 10), intermediate (16, 40), expert (25, 99); any other name is an error |
| GameStates.LevelsPlayable | igra.js:10-26 | every preset has a positive size and a mine count the board accepts |
| BoardController.NewBoard | ploca.js:2-16 | an error exactly when the model or the view is missing; otherwise `checkMine` is subscribed after the model's existing listeners, the click handlers after the view's, and the two new channels are empty |
| BoardController.NewBoardDetaches | ploca.js:13 | detaching `checkMine` gives back the model that was passed in |
| BoardController.Refresh | ploca.js:18-29 | a negative count is refused and nothing changes; otherwise the board is cleared, and an oversized count leaves it cleared; a valid count leaves a fresh board with no cell open or flagged, accurate counts, and as many mines as were placed, at most the count; that board is exactly `findNeighbors` after `setMines` on the cleared board, and the placed count is the one `setMines` reports |
| BoardController.MinedBoardReady | ploca.js:23-25 | mining a cleared board and then counting leaves a fresh board with those mines |
| BoardController.RefreshForgetsPlay | ploca.js:23-25 | the refreshed board does not depend on what was opened, flagged or mined before |
| BoardController.CheckMine | ploca.js:55-77 | a mine requests LOST when a game is present and announces hasMine; a safe cell requests WIN and announces demined exactly when its counter equals the cell count minus the configured mines (0 without a game); otherwise nothing |
| BoardController.DeminedMeansCleared | ploca.js:64-73 | on a board with an exact opened count and no open mine, where the configured count is the placed count, demined fires exactly when every safe cell is open, and the counter never exceeds the number of safe cells |
| BoardController.ReactRevealed | ploca.js:59-63 | during the reveal a loss triggers, the game stays lost and each revealed mine is announced on hasMine in order |
| BoardController.OnCellOpened | ploca.js:55-77 | one event changes the board only by the reveal on the first loss; without a state request it changes nothing and announces only its own verdict; it keeps the game's presence and configured count; its own signal comes last; it announces demined exactly when its verdict is a win; a safe cell never loses the game, and a mine announces only hasMine |
| BoardController.React | ploca.js:55-77 | judging a whole trace changes the board at most by one reveal; without a game it changes nothing |
| BoardController.ReactHeadless | ploca.js:55-74 | without a game, the announcements for a trace are the reference judgement: each mine on hasMine and, on demined, each safe event whose counter equals the number of cells, in order |
| BoardController.ReactCountsWins | ploca.js:64-73 | demined is announced once for each event of the trace that passes the win test: a safe cell whose counter equals the cells minus the configured mines |
| BoardController.ReactChangesOnlyOnMine | ploca.js:55-73 | the board changes only with a game and only for a trace that holds a mine; a trace of safe cells leaves the board as it is and the game as it was or won |
| BoardController.RevealSettles | modelploce.js:137-148 | a second reveal opens nothing and emits nothing |
| BoardController.ViewClick | ploca.js:31-42 | a lost or won game ignores the click; otherwise the board becomes the one `open` produced, revealed if the click lost |
| BoardController.ClickJudgesTrace | ploca.js:31-42 | a click on a game in progress announces demined once per event of its open that passes the win test, announces the reference judgement of that trace when no game is attached, and changes the board beyond the open only for a game whose trace holds a mine |
| BoardController.ClickLosesExactlyOnMine | ploca.js:55-63 | with accurate counts, a click on a running game loses it exactly when it hits a closed, unflagged mine; any other click leaves the board as the open left it |
| BoardController.ViewRightClick | ploca.js:44-53 | a lost or won game ignores the click; otherwise the result is exactly what `switchFlag` produces |
| BoardController.ClickKeepsInvariants | ploca.js:31-53 | clicks keep the board invariant and the accuracy of the counts |
| BoardController.ClickOnMineLoses | ploca.js:59-63 | clicking a closed mine in a running game loses it, reveals every mine, announces hasMine for each event of the reveal in the reveal's column-major order, and then for the clicked cell with the counter its open set |
| BoardController.LossAnnouncesReveal | ploca.js:59-63 | on a game's first loss, the signals are hasMine for each event of the reveal, in order, followed by hasMine for the mine that lost |
| BoardController.HeadlessMineOpensOne | ploca.js:59-63 | without a game, opening a mine opens only that cell and announces it once |
| BoardController.DeminedRepeated | ploca.js:64-73 | as written, one click on a two-cell board without mines announces demined twice |
| BoardController.PairClick | modelploce.js:101-112 | on that board, both events of the click carry the counter value 2 |
| BoardController.WinningCascadeRepeats | ploca.js:64-73 | as written, with accurate counts, a click on a safe cell whose open reports more than one cell and brings the counter to the safe-cell count announces demined at least twice |
| BoardController.TripleClick | modelploce.js:101-123 | on a 3 x 1 board without mines, a click on the middle cell reports the left cell with the counter at 2, then the right cell and the clicked cell at 3 |
| BoardController.DeminedTwiceOfThree | ploca.js:64-73 | as written, that click opens three cells and announces demined twice, once for each event at the final count |
| BoardController.ReactOnce | ploca.js:64-73 | the intended reaction announces demined at most once per open |
| BoardController.ViewClickOnce | ploca.js:31-42 | the intended click handler ignores finished games, leaves the board as the open left it or revealed, and announces at most one win |
| BoardController.SafeReactAgrees | ploca.js:64-73 | on the events of a safe open, the intended reaction leaves the game and the board as the written one does, and announces a win once exactly when the written one announces any |
| BoardController.ViewClickOnceAgrees | ploca.js:55-77 | with accurate counts, the intended click differs from the written one only in announcing the win once |
| BoardController.ClickOnceAnnouncesClear | ploca.js:64-73 | with accurate counts and the configured count equal to the placed one, the intended click on a closed, unflagged safe cell announces demined once when every safe cell is then open, and not at all otherwise |
| BoardController.DeminedOnceOnPair | ploca.js:64-73 | on the two-cell board the intended click announces demined once |
| GameLifecycle.NewView | plocaview.js:2-22 | the view needs the board element; it subscribes to the model's two channels after their existing listeners and starts with empty intent channels |
| GameLifecycle.FreshBoard | igra.js:88-93 | the board built for a preset is a square model of that size with every cell new and nothing opened; the model's open channel calls the view's handler and then `checkMine`, its flag channel the view's handler, and the view's channels the two click handlers |
| GameLifecycle.PrepareBoard | igra.js:65-96 | a missing level element or an unknown level changes nothing; a known preset sets the configured mines, and with the board element present the game's board is exactly that preset's new board refreshed with its mine count, square, fresh, with at most that many mines |
| GameLifecycle.Start | igra.js:38-52 | only a stopped game starts; a started game has a known preset's mine count, and its board is exactly that preset's new board refreshed with that count; without a level element or with an unknown level the game is unchanged; without a board element it is stopped with the preset's mine count configured and its old board |
| GameLifecycle.StartSucceeds | igra.js:38-52 | a stopped game starts exactly when the page has both elements and names a preset |
| GameLifecycle.StartBeginner | igra.js:10-15 | starting beginner gives a playing game with 10 configured mines on a fresh 8 x 8 board |
| GameLifecycle.Restart | igra.js:54-63 | the game is playing afterwards and keeps its configured count; without a board nothing else changes; with one, the board is exactly the old board refreshed with the configured count, a non-negative count leaves it fresh, and a valid one leaves as many mines as `setMines` placed |
| GameLifecycle.RestartForgetsPlay | igra.js:54-57 | restarting does not depend on the previous game's board contents |
| GameLifecycle.Click | ploca.js:31-77 | a game without a board, or one that is lost or won, ignores clicks; otherwise the board ends as the open left it or revealed, demined is announced once per event of the open that passes the win test, and with accurate counts the game is lost exactly on a closed, unflagged mine, whose click reveals every mine, while any other click leaves the board as the open left it |
| GameLifecycle.ClickOnce | ploca.js:64-73 | the same click with the intended handler: ignored in the same cases, the board as the open left it or revealed, lost exactly on a closed, unflagged mine with accurate counts, at most one win announced, and on a counted board whose mines are the configured ones a safe click announces one win exactly when every safe cell is then open |
| GameLifecycle.ClickOnceAgrees | ploca.js:31-77 | with accurate counts the intended click leaves the same game as the written one, and announces the win once exactly when the written one announces it at all |
| GameLifecycle.RightClick | ploca.js:44-53 | a game without a board, or one that is lost or won, ignores right clicks; otherwise only the board changes, to exactly what `switchFlag` produces, with its one event |
| GameLifecycle.Destroy | igra.js:191-196 | the game stops and keeps its configured count; the view's detach of newly bound functions leaves the board as it was |
| GameLifecycle.DestroyAllowsStart | igra.js:38-52 | after destroy, a start succeeds exactly when the page has both elements and names a preset |
| GameLifecycle.SessionStaysSound | igra.js:38-63 | start, restart, both kinds of click, and the click with the intended handler keep the board invariant and the accuracy of the counts |
| GameLifecycle.MineEndsGame | ploca.js:55-63 | clicking a closed mine of a running game loses it and reveals every mine; later clicks change nothing |

## Left out

- Rendering, DOM lookups and the whole drawing side of `plocaview.js`. Only
  the view's constructor guard and its subscriptions are modelled (`NewView`).
  The view's `destroy` detaches freshly bound functions. Those never equal the
  attached ones, so `detach` leaves the lists unchanged (the absent case of
  `Events.Detach`).
- Timers, `Date.now`, elapsed time, `showMessage` and its `setTimeout`,
  `updateStats` and `updateTimer` in `igra.js`, and the parts of `destroy` that
  stop the timer and empty the page. They are I/O with no effect on the game's
  logic. The rest of `destroy` (the game stops) is modelled by `Destroy`.
- `console.warn`/`console.error`: logging only. `Events.Logged` says which
  deliveries would be logged.
- `Math.random`: replaced by a given sequence of samples (see above).
- `window.Game` and `window.GameState`: passed in as the `Host` parameter.
  `igra.js` sets both globals when it loads, so the model treats them as
  present or absent together.
- The getters `getRows`, `getColumns`, `getState`, `getMines`, `getBoard`,
  `getModel`, `getView`, and `Board.openAllMines`. They are direct field reads
  or a delegation, modelled by the fields themselves and by `OpenAllMines`.
- The JavaScript identity of cell objects. An event carries the cell's value
  after its own open, which is what the listeners read.
- BoardController.ViewClick: its own contract allows a revealed board without
  saying when; the exact rule (lost exactly on a closed, unflagged mine) is
  proved only for boards with accurate counts, in `ClickLosesExactlyOnMine`.
- The cascade on a board whose stored counts are stale. There `checkMine` runs
  on a mine reached mid-cascade, the reveal happens before the cascade goes
  on, and the reveal's events and the counter differ from the model's, which
  judges the trace after the cascade. A game never holds such a board
  (`SessionStaysSound`).
- BoardController.React: does not promise that a reveal leaves the game lost.
  On a board whose counts are not accurate, a later event of the same cascade
  can still request WIN. With accurate counts, a mine's event is alone
  (`MineOpenIsAlone`) and `ClickOnMineLoses` gives the exact outcome.

## Findings

| source | as written | input that shows it | evidently intended | confidence | as-written member | corrected member |
|---|---|---|---|---|---|---|
| ploca.js:64-73 | the win test runs on every event of an open; each cell is reported only after its own cascade, so every event emitted once the last cell has opened passes the test: at least the last cell the cascade opened and the clicked cell, so a winning click that opens any neighbour announces demined at least twice (`WinningCascadeRepeats`); a neighbour reported before a later sibling opens carries a smaller counter and does not pass | a 2 x 1 board without mines and no game; a click on (0, 0) opens (1, 0) in the cascade, both events carry `openedCount` 2 = 2 * 1 - 0, and demined is announced twice (with a game, the second `changeState(WIN)` is a no-op, but demined still fires again); on a 3 x 1 board a click on (1, 0) opens three cells and announces demined twice (`DeminedTwiceOfThree`) | demined is announced once, when the last safe cell opens; proved for every board with accurate counts in `ClickOnceAnnouncesClear` | medium; not executed | BoardController.DeminedRepeated | BoardController.ViewClickOnce |
