/** The game object of igra.js: starting a game from a difficulty preset,
    restarting it, and the way its state gates the board's click handlers.
    Timers, elapsed time, messages and the statistics display are presentation
    and not modelled. */
module GameLifecycle {
  import opened Errors
  import opened Events
  import opened Grids
  import opened BoardModel
  import opened GameStates
  import opened BoardController

  /** What of the game the engine depends on. */
  datatype Game = Game(state: GameState, mines: int, board: Option<Board>)

  /** The constructor's game: stopped, no mines configured, no board. */
  const Initial := Game(Stopped, 0, None)

  /** The page as prepareBoard reads it: the selected level, when the level
      element exists, and whether the board element exists. */
  datatype Page = Page(level: Option<string>, hasBoardElement: bool)

  /** Identities of the two handlers the view subscribes to the model. As for
      the board's handlers, a fixed identity assumes one view per model. */
  const UpdateCellHandler: ListenerId := 4
  const FlagHandler: ListenerId := 5

  /** The BoardView constructor as far as the engine sees it: it needs the board
      element; it creates its two intent channels empty and subscribes to the
      model's two channels. Drawing is not modelled. */
  function NewView(m: Model, hasBoardElement: bool): (r: Result<(Model, View)>)
    ensures r.Err? <==> !hasBoardElement
    ensures r.Err? ==> r.error == MissingElement
    ensures r.Ok? ==> r.value.0 == m.(cellOpened := r.value.0.cellOpened, flagSwitched := r.value.0.flagSwitched)
    ensures r.Ok? ==> r.value.0.cellOpened.listeners == m.cellOpened.listeners + [UpdateCellHandler]
    ensures r.Ok? ==> r.value.0.flagSwitched.listeners == m.flagSwitched.listeners + [FlagHandler]
    ensures r.Ok? ==> ListenerCount(r.value.1.clicked) == 0 && ListenerCount(r.value.1.rightClicked) == 0
  {
    if !hasBoardElement then Err(MissingElement)
    else
      var updating := Attach(m.cellOpened, Function(UpdateCellHandler)).value;
      var flagged := Attach(m.flagSwitched, Function(FlagHandler)).value;
      Ok((m.(cellOpened := updating, flagSwitched := flagged), View(EmptyChannel, EmptyChannel)))
  }

  /** The samples suffice for the preset the page selects, if any. */
  ghost predicate SamplesFor(page: Page, samples: seq<Pos>) {
    page.level.Some? && FindLevel(page.level.value).Ok? ==>
      var lv := FindLevel(page.level.value).value;
      SamplesFit(lv.size, lv.size, lv.mines, samples)
  }

  /** A board as refresh leaves it for a preset: the preset's size, fresh, with
      at most the configured number of mines. */
  ghost predicate FreshFor(b: Board, lv: Level) {
    && b.model.width == lv.size && b.model.height == lv.size
    && Ready(b.model) && MineCount(b.model) <= lv.mines
  }

  datatype Prepared = Prepared(game: Game, error: Option<Error>)

  /** The board prepareBoard wires up for a preset of this size: a new square
      model, its view, and the controller over both, before any refresh. */
  function FreshBoard(size: int): (b: Board)
    requires size > 0
    ensures b.model.width == size && b.model.height == size && WellFormed(b.model)
    ensures AllNew(b.model) && b.model.openedCount == 0
    ensures b.model.cellOpened.listeners == [UpdateCellHandler, CheckMineHandler]
    ensures b.model.flagSwitched.listeners == [FlagHandler]
    ensures b.view.clicked.listeners == [ClickHandler] && b.view.rightClicked.listeners == [RightClickHandler]
  {
    var mv := NewView(New(size, size).value, true).value;
    NewBoard(Some(mv.0), Some(mv.1)).value
  }

  /** prepareBoard: looks up the selected preset, configures its mine count,
      builds a square model of its size, the view and the controller, and
      refreshes the board. Each guard that throws leaves the changes made
      before it. */
  function PrepareBoard(g: Game, page: Page, samples: seq<Pos>): (r: Prepared)
    requires SamplesFor(page, samples)
    ensures page.level.None? ==> r == Prepared(g, Some(MissingElement))
    ensures page.level.Some? && FindLevel(page.level.value).Err? ==> r == Prepared(g, Some(UnknownLevel))
    ensures page.level.Some? && FindLevel(page.level.value).Ok? ==>
      var lv := FindLevel(page.level.value).value;
      && r.game.state == g.state && r.game.mines == lv.mines
      && (!page.hasBoardElement ==> r == Prepared(g.(mines := lv.mines), Some(MissingElement)))
      && (page.hasBoardElement ==> r.error.None? && r.game.board.Some? && FreshFor(r.game.board.value, lv))
      && (page.hasBoardElement ==> r.game.board == Some(Refresh(FreshBoard(lv.size), lv.mines, samples).board))
  {
    if page.level.None? then Prepared(g, Some(MissingElement))
    else match FindLevel(page.level.value)
      case Err(e) => Prepared(g, Some(e))
      case Ok(lv) =>
        LevelsPlayable(lv);
        var g1 := g.(mines := lv.mines);
        var model := New(lv.size, lv.size).value;
        match NewView(model, page.hasBoardElement)
        case Err(e) => Prepared(g1, Some(e))
        case Ok(mv) =>
          var board := NewBoard(Some(mv.0), Some(mv.1)).value;
          assert board == FreshBoard(lv.size);
          var refreshed := Refresh(board, lv.mines, samples);
          var g2 := g1.(board := Some(refreshed.board));
          Prepared(g2, refreshed.error)
  }

  /** start: only a stopped game starts. A successful preparation makes it
      playing; a failed one leaves it stopped. */
  function Start(g: Game, page: Page, samples: seq<Pos>): (r: Game)
    requires SamplesFor(page, samples)
    ensures g.state != Stopped ==> r == g
    ensures g.state == Stopped ==> r.state == Playing || r.state == Stopped
    ensures g.state == Stopped && r.state == Playing ==>
      && page.level.Some? && FindLevel(page.level.value).Ok?
      && r.mines == FindLevel(page.level.value).value.mines
      && r.board.Some? && FreshFor(r.board.value, FindLevel(page.level.value).value)
    ensures g.state == Stopped && r.state == Playing ==>
      var lv := FindLevel(page.level.value).value;
      r.board == Some(Refresh(FreshBoard(lv.size), lv.mines, samples).board)
    ensures g.state == Stopped && (page.level.None? || FindLevel(page.level.value).Err?) ==> r == g
    ensures g.state == Stopped && page.level.Some? && FindLevel(page.level.value).Ok? && !page.hasBoardElement ==>
      r == g.(mines := FindLevel(page.level.value).value.mines)
  {
    if g.state != Stopped then g
    else
      var p := PrepareBoard(g, page, samples);
      if p.error.None? then p.game.(state := Playing) else p.game.(state := Stopped)
  }

  /** A stopped game starts exactly when the page has both elements and names
      a preset. */
  lemma StartSucceeds(g: Game, page: Page, samples: seq<Pos>)
    requires SamplesFor(page, samples)
    requires g.state == Stopped
    ensures Start(g, page, samples).state == Playing <==>
      page.level.Some? && FindLevel(page.level.value).Ok? && page.hasBoardElement
  {
  }

  /** The beginner preset from the constructor's game: an 8 x 8 board with 10
      mines configured. */
  lemma StartBeginner(samples: seq<Pos>)
    requires SamplesFit(8, 8, 10, samples)
    ensures var r := Start(Initial, Page(Some("beginner"), true), samples);
      && r.state == Playing && r.mines == 10 && r.board.Some?
      && r.board.value.model.width == 8 && r.board.value.model.height == 8
      && Ready(r.board.value.model)
  {
    LevelTable();
  }

  /** restart: the game becomes playing whatever happens next; without a board
      nothing else changes, otherwise the board is refreshed with the
      configured mine count. */
  function Restart(g: Game, samples: seq<Pos>): (r: Game)
    requires g.board.Some? ==> WellFormed(g.board.value.model)
    requires g.board.Some? ==> SamplesFit(g.board.value.model.width, g.board.value.model.height, g.mines, samples)
    ensures r.state == Playing && r.mines == g.mines
    ensures g.board.None? ==> r.board.None?
    ensures g.board.Some? ==> r.board.Some? && Rewired(g.board.value, r.board.value)
    ensures g.board.Some? && g.mines >= 0 ==> Ready(r.board.value.model)
    ensures g.board.Some? && g.mines < 0 ==> r.board == g.board
    ensures g.board.Some? ==> r.board == Some(Refresh(g.board.value, g.mines, samples).board)
    ensures g.board.Some? && 0 <= g.mines <= g.board.value.model.width * g.board.value.model.height ==>
      MineCount(r.board.value.model)
        == SetMines(BoardModel.Clear(g.board.value.model), g.mines, samples).value.placed
  {
    var g1 := g.(state := Playing);
    if g.board.None? then g1
    else g1.(board := Some(Refresh(g.board.value, g.mines, samples).board))
  }

  /** Restarting forgets the previous game: two games with the same board
      size, subscribers and mine count restart to the same game. */
  lemma RestartForgetsPlay(g1: Game, g2: Game, samples: seq<Pos>)
    requires g1.board.Some? && g2.board.Some?
    requires WellFormed(g1.board.value.model) && WellFormed(g2.board.value.model)
    requires SamplesFit(g1.board.value.model.width, g1.board.value.model.height, g1.mines, samples)
    requires g2.mines == g1.mines >= 0
    requires var b1 := g1.board.value; var b2 := g2.board.value;
      && b2.model.width == b1.model.width && b2.model.height == b1.model.height
      && b2.model.cellOpened == b1.model.cellOpened && b2.model.flagSwitched == b1.model.flagSwitched
      && b2.view == b1.view && b2.hasMine == b1.hasMine && b2.demined == b1.demined
    ensures Restart(g1, samples) == Restart(g2, samples)
  {
    RefreshForgetsPlay(g1.board.value, g2.board.value, g1.mines, samples);
  }

  // ---------------------------------------------------------------------------
  // The game as the board's host

  /** The global game as the board's handlers consult it. */
  function HostOf(g: Game): Host {
    Hosted(g.state, g.mines)
  }

  /** A click on the game's board: the board's handler (viewClickHandler as
      written) runs with this game as its host, and the game takes the state
      checkMine requested. */
  function Click(g: Game, column: int, row: int): (r: (Game, seq<Signal>))
    requires g.board.Some? ==> WellFormed(g.board.value.model)
    ensures g.board.None? || g.state == Lost || g.state == Win ==> r == (g, [])
    ensures r.0.mines == g.mines && (r.0.board.Some? <==> g.board.Some?)
    ensures g.board.Some? ==> Rewired(g.board.value, r.0.board.value)
    ensures g.board.Some? && !Over(HostOf(g)) ==>
      var o := Open(g.board.value.model, column, row);
      && (r.0.board.value.model == o.model || r.0.board.value.model == OpenAllMines(o.model).model)
      && DeminedCount(r.1) == WinCount(o.events, SafeCells(HostOf(g), g.board.value.model))
    ensures g.board.Some? && !Over(HostOf(g)) && NeighboursAccurate(g.board.value.model) ==>
      var m := g.board.value.model;
      var minedClick := IsValidPosition(m, column, row) && m.cells[column][row].hasMine
        && !m.cells[column][row].isOpen && !m.cells[column][row].hasFlag;
      && (r.0.state == Lost <==> minedClick)
      && (!minedClick ==> r.0.board.value.model == Open(m, column, row).model)
      && (minedClick ==> r.0.board.value.model == OpenAllMines(OpenedCell(m, column, row)).model)
  {
    if g.board.None? then (g, [])
    else
      var o := ViewClick(HostOf(g), g.board.value, column, row);
      if Over(HostOf(g)) then (Game(o.host.state, g.mines, Some(o.board)), o.signals)
      else
        ClickOnRunningGame(g.state, g.mines, g.board.value, column, row);
        (Game(o.host.state, g.mines, Some(o.board)), o.signals)
  }

  /** The same click with the intended handler, which announces a win once. */
  function ClickOnce(g: Game, column: int, row: int): (r: (Game, seq<Signal>))
    requires g.board.Some? ==> WellFormed(g.board.value.model)
    ensures g.board.None? || g.state == Lost || g.state == Win ==> r == (g, [])
    ensures r.0.mines == g.mines && (r.0.board.Some? <==> g.board.Some?)
    ensures g.board.Some? ==> Rewired(g.board.value, r.0.board.value)
    ensures DeminedCount(r.1) <= 1
    ensures g.board.Some? && !Over(HostOf(g)) ==>
      var after := Open(g.board.value.model, column, row).model;
      r.0.board.value.model == after || r.0.board.value.model == OpenAllMines(after).model
    ensures g.board.Some? && !Over(HostOf(g)) && NeighboursAccurate(g.board.value.model) ==>
      var m := g.board.value.model;
      var minedClick := IsValidPosition(m, column, row) && m.cells[column][row].hasMine
        && !m.cells[column][row].isOpen && !m.cells[column][row].hasFlag;
      && (r.0.state == Lost <==> minedClick)
      && (!minedClick ==> r.0.board.value.model == Open(m, column, row).model)
      && (minedClick ==> r.0.board.value.model == OpenAllMines(OpenedCell(m, column, row)).model)
    ensures g.board.Some? && !Over(HostOf(g)) ==>
      var m := g.board.value.model;
      (&& Counted(m) && NoOpenMine(m) && NeighboursAccurate(m) && MineCount(m) == g.mines
       && IsValidPosition(m, column, row) && !m.cells[column][row].hasMine
       && !m.cells[column][row].isOpen && !m.cells[column][row].hasFlag)
      ==> DeminedCount(r.1) == (if Cleared(Open(m, column, row).model) then 1 else 0)
  {
    if g.board.None? then (g, [])
    else
      var o := ViewClickOnce(HostOf(g), g.board.value, column, row);
      if Over(HostOf(g)) then (Game(o.host.state, g.mines, Some(o.board)), o.signals)
      else
        ClickOnceOnRunningGame(g.state, g.mines, g.board.value, column, row);
        (Game(o.host.state, g.mines, Some(o.board)), o.signals)
  }

  /** What ClickOnRunningGame says of the written click holds of the intended
      one, and a safe click announces the win exactly when it clears the board. */
  lemma ClickOnceOnRunningGame(state: GameState, mines: int, b: Board, column: int, row: int)
    requires WellFormed(b.model)
    requires state == Playing || state == Stopped
    ensures NeighboursAccurate(b.model) ==>
      var minedClick := IsValidPosition(b.model, column, row) && b.model.cells[column][row].hasMine
        && !b.model.cells[column][row].isOpen && !b.model.cells[column][row].hasFlag;
      var r := ViewClickOnce(Hosted(state, mines), b, column, row);
      && (r.host.state == Lost <==> minedClick)
      && (!minedClick ==> r.board.model == Open(b.model, column, row).model)
      && (minedClick ==> r.board.model == OpenAllMines(OpenedCell(b.model, column, row)).model)
    ensures var m := b.model;
      (&& Counted(m) && NoOpenMine(m) && NeighboursAccurate(m) && MineCount(m) == mines
       && IsValidPosition(m, column, row) && !m.cells[column][row].hasMine
       && !m.cells[column][row].isOpen && !m.cells[column][row].hasFlag)
      ==> (DeminedCount(ViewClickOnce(Hosted(state, mines), b, column, row).signals)
           == if Cleared(Open(m, column, row).model) then 1 else 0)
  {
    var m := b.model;
    if NeighboursAccurate(m) {
      ClickOnRunningGame(state, mines, b, column, row);
      ViewClickOnceAgrees(Hosted(state, mines), b, column, row);
      if && Counted(m) && NoOpenMine(m) && MineCount(m) == mines
         && IsValidPosition(m, column, row) && !m.cells[column][row].hasMine
         && !m.cells[column][row].isOpen && !m.cells[column][row].hasFlag
      {
        ClickOnceAnnouncesClear(Hosted(state, mines), b, column, row);
      }
    }
  }

  /** With accurate neighbour counts both handlers leave the game in the same
      state, and the intended one announces the win once if the written one
      announces it at all. */
  lemma ClickOnceAgrees(g: Game, column: int, row: int)
    requires g.board.Some? ==> WellFormed(g.board.value.model) && NeighboursAccurate(g.board.value.model)
    ensures ClickOnce(g, column, row).0 == Click(g, column, row).0
    ensures DeminedCount(ClickOnce(g, column, row).1) == (if DeminedCount(Click(g, column, row).1) > 0 then 1 else 0)
  {
    if g.board.Some? {
      ViewClickOnceAgrees(HostOf(g), g.board.value, column, row);
    }
  }

  /** A right click on the game's board. */
  function RightClick(g: Game, column: int, row: int): (r: (Game, seq<FlagSwitched>))
    requires g.board.Some? ==> WellFormed(g.board.value.model)
    ensures g.board.None? || g.state == Lost || g.state == Win ==> r == (g, [])
    ensures r.0.state == g.state && r.0.mines == g.mines && (r.0.board.Some? <==> g.board.Some?)
    ensures g.board.Some? ==> Rewired(g.board.value, r.0.board.value)
    ensures g.board.Some? && !Over(HostOf(g)) ==>
      && r.0.board.value.model == SwitchFlag(g.board.value.model, column, row).model
      && r.1 == SwitchFlag(g.board.value.model, column, row).events
  {
    if g.board.None? then (g, [])
    else
      var f := ViewRightClick(HostOf(g), g.board.value, column, row);
      (g.(board := Some(f.0)), f.1)
  }

  /** destroy (igra.js:191-207): the game stops. The view's destroy
      (plocaview.js:98-100) detaches functions it binds during the call;
      `unbound` stands for them: a function made by `bind` is subscribed
      nowhere, so the board's model keeps its subscribers and the board stays
      as it was. Clearing the timer and the page is not modelled. */
  function Destroy(g: Game, unbound: ListenerId): (r: Game)
    requires g.board.Some? ==>
      unbound !in g.board.value.model.cellOpened.listeners && unbound !in g.board.value.model.flagSwitched.listeners
    ensures r.state == Stopped && r.mines == g.mines && r.board == g.board
  {
    if g.board.None? then g.(state := Stopped)
    else
      var b := g.board.value;
      var m := b.model.(cellOpened := Detach(b.model.cellOpened, unbound),
                        flagSwitched := Detach(b.model.flagSwitched, unbound));
      g.(state := Stopped, board := Some(b.(model := m)))
  }

  /** A destroyed game can be started again: the start then succeeds exactly
      when the page has both elements and names a preset. */
  lemma DestroyAllowsStart(g: Game, unbound: ListenerId, page: Page, samples: seq<Pos>)
    requires g.board.Some? ==>
      unbound !in g.board.value.model.cellOpened.listeners && unbound !in g.board.value.model.flagSwitched.listeners
    requires SamplesFor(page, samples)
    ensures Start(Destroy(g, unbound), page, samples).state == Playing <==>
      page.level.Some? && FindLevel(page.level.value).Ok? && page.hasBoardElement
  {
    StartSucceeds(Destroy(g, unbound), page, samples);
  }

  /** The board of a game is well formed, keeps its invariant and has accurate
      neighbour counts. */
  ghost predicate Sound(g: Game) {
    g.board.Some? ==> Inv(g.board.value.model) && NeighboursAccurate(g.board.value.model)
  }

  /** Every operation of a session keeps the game sound. */
  lemma SessionStaysSound(g: Game, page: Page, samples: seq<Pos>, column: int, row: int)
    requires Sound(g)
    ensures Sound(Initial)
    ensures SamplesFor(page, samples) ==> Sound(Start(g, page, samples))
    ensures g.board.Some? && SamplesFit(g.board.value.model.width, g.board.value.model.height, g.mines, samples) ==>
      Sound(Restart(g, samples))
    ensures Sound(Click(g, column, row).0)
    ensures Sound(ClickOnce(g, column, row).0)
    ensures Sound(RightClick(g, column, row).0)
  {
    SetupStaysSound(g, page, samples);
    ClicksStaySound(g, column, row);
  }

  /** Starting and restarting build sound games. */
  lemma SetupStaysSound(g: Game, page: Page, samples: seq<Pos>)
    requires Sound(g)
    ensures Sound(Initial)
    ensures SamplesFor(page, samples) ==> Sound(Start(g, page, samples))
    ensures g.board.Some? && SamplesFit(g.board.value.model.width, g.board.value.model.height, g.mines, samples) ==>
      Sound(Restart(g, samples))
  {
  }

  /** Clicks of either kind keep a game sound. */
  lemma ClicksStaySound(g: Game, column: int, row: int)
    requires Sound(g)
    ensures Sound(Click(g, column, row).0)
    ensures Sound(ClickOnce(g, column, row).0)
    ensures Sound(RightClick(g, column, row).0)
  {
    if g.board.Some? {
      ClickKeepsInvariants(HostOf(g), g.board.value, column, row);
      ClickOnceAgrees(g, column, row);
    }
  }

  /** Clicking a closed, unflagged mine of a running game loses it and reveals
      every mine; from then on clicks change nothing. */
  lemma MineEndsGame(g: Game, column: int, row: int, c2: int, r2: int)
    requires g.board.Some? && WellFormed(g.board.value.model) && NeighboursAccurate(g.board.value.model)
    requires g.state == Playing
    requires var m := g.board.value.model;
      IsValidPosition(m, column, row) && m.cells[column][row].hasMine
      && !m.cells[column][row].isOpen && !m.cells[column][row].hasFlag
    ensures var after := Click(g, column, row).0;
      && after.state == Lost
      && (forall i, j ::
            (0 <= i < after.board.value.model.width && 0 <= j < after.board.value.model.height
             && after.board.value.model.cells[i][j].hasMine) ==> after.board.value.model.cells[i][j].isOpen)
      && Click(after, c2, r2) == (after, [])
      && RightClick(after, c2, r2) == (after, [])
  {
    ClickOnMineLoses(g.state, g.mines, g.board.value, column, row);
    var m1 := OpenedCell(g.board.value.model, column, row);
    assert forall i, j :: 0 <= i < m1.width && 0 <= j < m1.height && m1.cells[i][j].hasMine ==>
      OpenAllMines(m1).model.cells[i][j].isOpen;
  }
}
