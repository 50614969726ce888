/** The controller of ploca.js: it binds a board model to its view, judges
    every opened cell (checkMine), and forwards the view's clicks to the model
    while the game is still on.

    The global game object the controller consults is a Host parameter: absent
    (Headless) or present with its state and its configured mine count. The
    model emits an open's events during the cascade and checkMine runs on each
    of them synchronously; here the whole trace of one open is judged after the
    cascade, which is the same thing because checkMine changes the board only
    on a mine, and a mine's event is the only event of its open (lemma
    MineOpenIsAlone, for boards with accurate neighbour counts). */
module BoardController {
  import opened Errors
  import opened Events
  import opened Grids
  import opened BoardModel
  import opened GameStates

  /** The part of the view the controller subscribes to: its two intent channels. */
  datatype View = View(clicked: Channel, rightClicked: Channel)

  datatype Board = Board(model: Model, view: View, hasMine: Channel, demined: Channel)

  /** Identities of the three handlers the constructor binds. In JavaScript
      each Board binds fresh functions; one fixed identity per handler is
      faithful as long as a model is observed by at most one board, which is
      how igra.js uses it (one board per game, and prepareBoard builds a new
      model for each board). */
  const CheckMineHandler: ListenerId := 1
  const ClickHandler: ListenerId := 2
  const RightClickHandler: ListenerId := 3

  /** The constructor: both collaborators are required. It creates the hasMine
      and demined channels empty and subscribes checkMine to the model's
      cellOpened and the two click handlers to the view, after any listener
      already there; nothing else of the model changes. */
  function NewBoard(model: Option<Model>, view: Option<View>): (r: Result<Board>)
    ensures r.Err? <==> model.None? || view.None?
    ensures r.Err? ==> r.error == MissingCollaborator
    ensures r.Ok? ==> r.value.model == model.value.(cellOpened := r.value.model.cellOpened)
    ensures r.Ok? ==> r.value.model.cellOpened.listeners == model.value.cellOpened.listeners + [CheckMineHandler]
    ensures r.Ok? ==> r.value.view.clicked.listeners == view.value.clicked.listeners + [ClickHandler]
    ensures r.Ok? ==> r.value.view.rightClicked.listeners == view.value.rightClicked.listeners + [RightClickHandler]
    ensures r.Ok? ==> ListenerCount(r.value.hasMine) == 0 && ListenerCount(r.value.demined) == 0
  {
    if model.None? || view.None? then Err(MissingCollaborator)
    else
      var m := model.value;
      var v := view.value;
      var subscribed := Attach(m.cellOpened, Function(CheckMineHandler)).value;
      var clicked := Attach(v.clicked, Function(ClickHandler)).value;
      var rightClicked := Attach(v.rightClicked, Function(RightClickHandler)).value;
      Ok(Board(m.(cellOpened := subscribed), View(clicked, rightClicked), EmptyChannel, EmptyChannel))
  }

  /** The constructor's subscriptions are the only change it makes: detaching
      checkMine gives back the model it was given. */
  lemma NewBoardDetaches(m: Model, v: View)
    requires CheckMineHandler !in m.cellOpened.listeners
    ensures NewBoard(Some(m), Some(v)).Ok?
    ensures NewBoard(Some(m), Some(v)).value.model.(cellOpened := Detach(m.cellOpened, CheckMineHandler)) == m
  {
    DetachUndoesAttach(m.cellOpened, CheckMineHandler);
    assert Detach(m.cellOpened, CheckMineHandler) == m.cellOpened;
  }

  // ---------------------------------------------------------------------------
  // Refresh (ploca.js:18-29)

  datatype Refreshed = Refreshed(board: Board, placed: nat, error: Option<Error>)

  /** The fresh-board conditions a successful refresh leaves behind. */
  ghost predicate Ready(m: Model) {
    && Inv(m) && Counted(m) && NeighboursAccurate(m)
    && m.openedCount == 0
    && forall i, j :: 0 <= i < m.width && 0 <= j < m.height ==> !m.cells[i][j].isOpen && !m.cells[i][j].hasFlag
  }

  /** refresh: a negative count is refused before anything changes; otherwise
      the board is cleared and mined, and if setMines refuses the count the board
      stays cleared; on success the neighbour counts are computed. Rendering and
      the statistics display are not modelled. */
  function Refresh(b: Board, mines: int, samples: seq<Pos>): (r: Refreshed)
    requires WellFormed(b.model)
    requires SamplesFit(b.model.width, b.model.height, mines, samples)
    ensures r.error == Some(NegativeMines) <==> mines < 0
    ensures r.error == Some(BadMineCount) <==> mines > b.model.width * b.model.height
    ensures r.error.None? <==> 0 <= mines <= b.model.width * b.model.height
    ensures mines < 0 ==> r.board == b && r.placed == 0
    ensures r.board.view == b.view && r.board.hasMine == b.hasMine && r.board.demined == b.demined
    ensures Framed(b.model, r.board.model)
    ensures mines >= 0 ==> Ready(r.board.model)
    ensures mines > b.model.width * b.model.height ==> r.board.model == BoardModel.Clear(b.model) && r.placed == 0
    ensures r.error.None? ==> MineCount(r.board.model) == r.placed <= mines
    ensures 0 <= mines <= b.model.width * b.model.height ==>
      var p := SetMines(BoardModel.Clear(b.model), mines, samples);
      && p.Ok? && r.board.model == FindNeighbors(p.value.model) && r.placed == p.value.placed
  {
    if mines < 0 then Refreshed(b, 0, Some(NegativeMines))
    else
      var cleared := BoardModel.Clear(b.model);
      ClearEstablishes(b.model);
      match SetMines(cleared, mines, samples)
      case Err(e) =>
        Refreshed(b.(model := cleared), 0, Some(e))
      case Ok(p) =>
        MinedBoardReady(cleared, p.model);
        Refreshed(b.(model := FindNeighbors(p.model)), p.placed, None)
  }

  /** Mining a cleared board and counting the neighbours leaves a fresh board
      with those mines. */
  lemma MinedBoardReady(cleared: Model, mined: Model)
    requires WellFormed(cleared) && AllNew(cleared) && cleared.openedCount == 0
    requires Inv(cleared) && Counted(cleared)
    requires MinesAdded(cleared, mined)
    ensures Ready(FindNeighbors(mined))
    ensures MineCount(FindNeighbors(mined)) == MineCount(mined)
  {
    var m := FindNeighbors(mined);
    MinesAddedKeepsInvariants(cleared, mined);
    assert SameMines(mined, m);
    CountLe(mined.cells, Mined, m.cells, Mined);
    CountLe(m.cells, Mined, mined.cells, Mined);
    CountLe(mined.cells, Closed, m.cells, Closed);
    CountLe(m.cells, Closed, mined.cells, Closed);
  }

  /** Nothing of the previous game survives a refresh: two boards of the same
      size and subscribers refresh to the same board whatever was opened,
      flagged or mined on them. */
  lemma RefreshForgetsPlay(b1: Board, b2: Board, mines: int, samples: seq<Pos>)
    requires WellFormed(b1.model) && WellFormed(b2.model)
    requires SamplesFit(b1.model.width, b1.model.height, mines, samples)
    requires b2.model.width == b1.model.width && b2.model.height == b1.model.height
    requires b2.model.cellOpened == b1.model.cellOpened && b2.model.flagSwitched == b1.model.flagSwitched
    requires b2.view == b1.view && b2.hasMine == b1.hasMine && b2.demined == b1.demined
    requires mines >= 0
    ensures Refresh(b1, mines, samples) == Refresh(b2, mines, samples)
  {
    assert BoardModel.Clear(b1.model) == BoardModel.Clear(b2.model);
  }

  // ---------------------------------------------------------------------------
  // checkMine (ploca.js:55-77)

  /** The global game as the controller sees it. */
  datatype Host = Headless | Hosted(state: GameState, mines: int)

  /** The mine count checkMine subtracts: the game's configured count, or none. */
  function ConfiguredMines(host: Host): int {
    if host.Hosted? then host.mines else 0
  }

  /** The click guards: a game that is lost or won ignores clicks. */
  predicate Over(host: Host) {
    host.Hosted? && (host.state == Lost || host.state == Win)
  }

  /** What the controller announces on its own channels. */
  datatype Signal = HasMine(args: CellOpened) | Demined(args: CellOpened)

  /** checkMine's decision on one event: the state it asks the game for, and
      the signal it emits. */
  datatype Verdict = Verdict(request: Option<GameState>, signal: Option<Signal>)

  /** checkMine: an opened mine loses the game and is announced on hasMine; a
      safe cell whose open brought openedCount to the number of safe cells wins
      the game and is announced on demined; anything else is silent. Without a
      game the safe count is the whole board and no state is requested. */
  function CheckMine(host: Host, columns: int, rows: int, e: CellOpened): (v: Verdict)
    ensures e.cell.hasMine ==> v.signal == Some(HasMine(e))
    ensures !e.cell.hasMine ==> (v.signal.Some? <==> e.openedCount == columns * rows - ConfiguredMines(host))
    ensures !e.cell.hasMine && v.signal.Some? ==> v.signal == Some(Demined(e))
    ensures v.request.Some? <==> host.Hosted? && v.signal.Some?
    ensures v.request.Some? ==> v.request.value == (if e.cell.hasMine then Lost else Win)
  {
    if e.cell.hasMine then
      Verdict(if host.Hosted? then Some(Lost) else None, Some(HasMine(e)))
    else if e.openedCount == columns * rows - ConfiguredMines(host) then
      Verdict(if host.Hosted? then Some(Win) else None, Some(Demined(e)))
    else
      Verdict(None, None)
  }

  /** Every safe cell of the board is open. */
  ghost predicate Cleared(m: Model)
    requires WellFormed(m)
  {
    forall i, j :: 0 <= i < m.width && 0 <= j < m.height && !m.cells[i][j].hasMine ==> m.cells[i][j].isOpen
  }

  ghost predicate NoOpenMine(m: Model)
    requires WellFormed(m)
  {
    forall i, j :: 0 <= i < m.width && 0 <= j < m.height && m.cells[i][j].hasMine ==> !m.cells[i][j].isOpen
  }

  /** What the win test means: on a board where openedCount counts the open
      cells, no mine is open and the configured count is the number of mines
      placed, a safe cell's event is announced as demined exactly when every
      safe cell is open. */
  lemma DeminedMeansCleared(host: Host, m: Model, e: CellOpened)
    requires Counted(m) && NoOpenMine(m)
    requires MineCount(m) == ConfiguredMines(host)
    requires !e.cell.hasMine && e.openedCount == m.openedCount
    ensures CheckMine(host, m.width, m.height, e).signal.Some? <==> Cleared(m)
    ensures m.openedCount <= m.width * m.height - MineCount(m)
  {
    CountSplit(m.cells, m.width, m.height, Opened, Closed);
    CountSplit(m.cells, m.width, m.height, Mined, Safe);
    assert Implies(m.cells, Opened, m.cells, Safe);
    CountLe(m.cells, Opened, m.cells, Safe);
    if Cleared(m) {
      assert Implies(m.cells, Safe, m.cells, Opened);
      CountLe(m.cells, Safe, m.cells, Opened);
    }
  }

  // ---------------------------------------------------------------------------
  // Reacting to an open's events

  /** The outcome of a handler: the game as it now stands, the board, and what
      was announced on hasMine and demined, in order. */
  datatype Outcome = Outcome(host: Host, board: Board, signals: seq<Signal>)

  /** The same board with another model. */
  ghost predicate Rewired(b: Board, b': Board) {
    Framed(b.model, b'.model) && b'.view == b.view && b'.hasMine == b.hasMine && b'.demined == b.demined
  }

  /** How a handler may leave the game: a headless board stays headless, and a
      game keeps its configured mine count. */
  predicate SameGame(host: Host, host': Host) {
    host'.Headless? == host.Headless? && ConfiguredMines(host') == ConfiguredMines(host)
  }

  /** checkMine on the events of the reveal that a loss triggers: every event is
      a mine, the game is already lost and stays so, and each is announced on
      hasMine in turn. */
  function ReactRevealed(host: Host, columns: int, rows: int, evs: seq<CellOpened>): (r: (Host, seq<Signal>))
    requires host.Hosted? && host.state == Lost
    requires forall k :: 0 <= k < |evs| ==> evs[k].cell.hasMine
    ensures r.0 == host
    ensures |r.1| == |evs| && forall k :: 0 <= k < |evs| ==> r.1[k] == HasMine(evs[k])
    decreases |evs|
  {
    if |evs| == 0 then (host, [])
    else
      var v := CheckMine(host, columns, rows, evs[0]);
      var t := ChangeState(host.state, v.request.value);
      var rest := ReactRevealed(host.(state := t.state), columns, rows, evs[1..]);
      (rest.0, [v.signal.value] + rest.1)
  }

  function DeminedCount(s: seq<Signal>): (n: nat)
    ensures n <= |s|
  {
    if |s| == 0 then 0 else (if s[0].Demined? then 1 else 0) + DeminedCount(s[1..])
  }

  lemma {:induction false} DeminedCountAppend(a: seq<Signal>, b: seq<Signal>)
    ensures DeminedCount(a + b) == DeminedCount(a) + DeminedCount(b)
  {
    if |a| > 0 {
      assert (a + b)[1..] == a[1..] + b;
      DeminedCountAppend(a[1..], b);
    } else {
      assert a + b == b;
    }
  }

  lemma {:induction false} NoDeminedAmongMines(s: seq<Signal>)
    requires forall k :: 0 <= k < |s| ==> s[k].HasMine?
    ensures DeminedCount(s) == 0
  {
    if |s| > 0 {
      NoDeminedAmongMines(s[1..]);
    }
  }

  /** checkMine on one event, with the game's side of it: the requested state
      change, and on a loss the reveal of every mine, whose own events are
      judged before this event is announced. */
  function OnCellOpened(host: Host, b: Board, e: CellOpened): (r: Outcome)
    requires WellFormed(b.model)
    ensures Rewired(b, r.board) && SameGame(host, r.host)
    ensures r.board.model == b.model || r.board.model == OpenAllMines(b.model).model
    ensures r.board.model != b.model ==> r.host.Hosted? && r.host.state == Lost
    ensures host.Headless? ==> r.host == Headless && r.board == b
    ensures !e.cell.hasMine ==> r.board == b
    ensures var v := CheckMine(host, b.model.width, b.model.height, e);
      && (v.signal.None? ==> r == Outcome(host, b, []))
      && (v.signal.Some? ==> |r.signals| >= 1 && r.signals[|r.signals| - 1] == v.signal.value)
      && (v.request.Some? ==> r.host.state == v.request.value)
      && (v.request.None? ==> r == Outcome(host, b, if v.signal.Some? then [v.signal.value] else []))
      && (v.request == Some(Lost) && host.state != Lost ==> r.board.model == OpenAllMines(b.model).model)
      && DeminedCount(r.signals) == (if v.signal.Some? && v.signal.value.Demined? then 1 else 0)
    ensures !e.cell.hasMine && host.Hosted? ==> r.host.state == host.state || r.host.state == Win
    ensures e.cell.hasMine ==> forall k :: 0 <= k < |r.signals| ==> r.signals[k].HasMine?
  {
    var v := CheckMine(host, b.model.width, b.model.height, e);
    if v.request.None? then
      var signals := if v.signal.Some? then [v.signal.value] else [];
      assert DeminedCount(signals) == (if v.signal.Some? && v.signal.value.Demined? then 1 else 0);
      Outcome(host, b, signals)
    else
      var t := ChangeState(host.state, v.request.value);
      var host' := host.(state := t.state);
      if t.revealMines then
        var o := OpenAllMines(b.model);
        var nested := ReactRevealed(host', o.model.width, o.model.height, o.events);
        NoDeminedAmongMines(nested.1);
        DeminedCountAppend(nested.1, [v.signal.value]);
        Outcome(nested.0, b.(model := o.model), nested.1 + [v.signal.value])
      else
        assert DeminedCount([v.signal.value]) == (if v.signal.value.Demined? then 1 else 0);
        Outcome(host', b, [v.signal.value])
  }

  /** The first loss of a game announces every mine the reveal opens, in the
      reveal's order, and then the mine that lost. */
  lemma LossAnnouncesReveal(host: Host, b: Board, e: CellOpened)
    requires WellFormed(b.model) && host.Hosted? && host.state != Lost && e.cell.hasMine
    ensures var r := OnCellOpened(host, b, e);
      var evs := OpenAllMines(b.model).events;
      && |r.signals| == |evs| + 1
      && (forall k :: 0 <= k < |evs| ==> r.signals[k] == HasMine(evs[k]))
      && r.signals[|evs|] == HasMine(e)
  {
    var o := OpenAllMines(b.model);
    var t := ChangeState(host.state, Lost);
    var nested := ReactRevealed(host.(state := t.state), o.model.width, o.model.height, o.events);
    assert OnCellOpened(host, b, e).signals == nested.1 + [HasMine(e)];
  }

  /** A second reveal finds nothing left to open. */
  lemma RevealSettles(m: Model)
    requires WellFormed(m)
    ensures OpenAllMines(OpenAllMines(m).model) == Opening(OpenAllMines(m).model, [])
  {
    OpenAllMinesIdle(m);
    OpenAllMinesIdle(OpenAllMines(m).model);
  }

  /** The number of safe cells checkMine expects on board m: every cell but
      the game's configured mines. */
  function SafeCells(host: Host, m: Model): int {
    m.width * m.height - ConfiguredMines(host)
  }

  /** The events of a trace that checkMine declares a win for on a board with
      `safeCells` safe cells: safe cells whose open brought openedCount to
      that number. */
  function WinCount(evs: seq<CellOpened>, safeCells: int): nat {
    if |evs| == 0 then 0
    else (if !evs[0].cell.hasMine && evs[0].openedCount == safeCells then 1 else 0) + WinCount(evs[1..], safeCells)
  }

  lemma {:induction false} WinCountPositive(evs: seq<CellOpened>, safeCells: int)
    ensures WinCount(evs, safeCells) > 0 <==>
      exists k :: 0 <= k < |evs| && !evs[k].cell.hasMine && evs[k].openedCount == safeCells
    decreases |evs|
  {
    if |evs| > 0 {
      WinCountPositive(evs[1..], safeCells);
      assert forall k :: 0 < k < |evs| ==> evs[k] == evs[1..][k - 1];
    }
  }

  /** Without a game, what checkMine announces for a trace on a board of
      `cells` cells, in order: every mine on hasMine, and on demined every safe
      cell whose open brought openedCount to `cells`. */
  function Judged(evs: seq<CellOpened>, cells: int): seq<Signal> {
    if |evs| == 0 then []
    else
      (if evs[0].cell.hasMine then [HasMine(evs[0])]
       else if evs[0].openedCount == cells then [Demined(evs[0])]
       else [])
      + Judged(evs[1..], cells)
  }

  /** checkMine on every event of one open, in emission order. */
  function React(host: Host, b: Board, evs: seq<CellOpened>): (r: Outcome)
    requires WellFormed(b.model)
    ensures Rewired(b, r.board) && SameGame(host, r.host)
    ensures r.board.model == b.model || r.board.model == OpenAllMines(b.model).model
    ensures host.Headless? ==> r.host == Headless && r.board == b
    decreases |evs|
  {
    if |evs| == 0 then Outcome(host, b, [])
    else
      var first := OnCellOpened(host, b, evs[0]);
      var rest := React(first.host, first.board, evs[1..]);
      RevealSettles(b.model);
      Outcome(rest.host, rest.board, first.signals + rest.signals)
  }

  /** Without a game, the reaction announces exactly the reference judgement
      of the trace. */
  lemma {:induction false} ReactHeadless(b: Board, evs: seq<CellOpened>)
    requires WellFormed(b.model)
    ensures React(Headless, b, evs).signals == Judged(evs, b.model.width * b.model.height)
    decreases |evs|
  {
    if |evs| > 0 {
      ReactHeadless(b, evs[1..]);
    }
  }

  /** The reaction announces demined once for every event of the trace that
      meets the win test. */
  lemma {:induction false} ReactCountsWins(host: Host, b: Board, evs: seq<CellOpened>)
    requires WellFormed(b.model)
    ensures DeminedCount(React(host, b, evs).signals) == WinCount(evs, SafeCells(host, b.model))
    decreases |evs|
  {
    if |evs| > 0 {
      var first := OnCellOpened(host, b, evs[0]);
      var rest := React(first.host, first.board, evs[1..]);
      ReactCountsWins(first.host, first.board, evs[1..]);
      DeminedCountAppend(first.signals, rest.signals);
      assert SafeCells(first.host, first.board.model) == SafeCells(host, b.model);
    }
  }

  /** The reaction changes the board only for a game, and only on a trace
      that holds a mine; on a trace of safe cells a game stays as it was or is
      won. */
  lemma {:induction false} ReactChangesOnlyOnMine(host: Host, b: Board, evs: seq<CellOpened>)
    requires WellFormed(b.model)
    ensures React(host, b, evs).board.model != b.model ==>
      React(host, b, evs).host.Hosted? && exists k :: 0 <= k < |evs| && evs[k].cell.hasMine
    ensures (forall k :: 0 <= k < |evs| ==> !evs[k].cell.hasMine) ==>
      && React(host, b, evs).board == b
      && (host.Hosted? ==> React(host, b, evs).host.state == host.state || React(host, b, evs).host.state == Win)
    decreases |evs|
  {
    if |evs| > 0 {
      var first := OnCellOpened(host, b, evs[0]);
      ReactChangesOnlyOnMine(first.host, first.board, evs[1..]);
      assert forall k :: 0 < k < |evs| ==> evs[k] == evs[1..][k - 1];
      if first.host.Hosted? && first.host.state == Win {
        ReactChangesOnlyOnMine(first.host, first.board, evs[1..]);
      }
    }
  }

  // ---------------------------------------------------------------------------
  // Click handlers (ploca.js:31-53)

  /** viewClickHandler: ignored once the game is lost or won; otherwise the
      model opens the clicked cell and every event of that open is judged. */
  function ViewClick(host: Host, b: Board, column: int, row: int): (r: Outcome)
    requires WellFormed(b.model)
    ensures Over(host) ==> r == Outcome(host, b, [])
    ensures Rewired(b, r.board) && SameGame(host, r.host)
    ensures !Over(host) ==>
      var after := Open(b.model, column, row).model;
      r.board.model == after || r.board.model == OpenAllMines(after).model
  {
    if Over(host) then Outcome(host, b, [])
    else
      var o := Open(b.model, column, row);
      React(host, b.(model := o.model), o.events)
  }

  /** A click on a game in progress is the reaction to the trace of its open. */
  lemma ViewClickReacts(host: Host, b: Board, column: int, row: int)
    requires WellFormed(b.model) && !Over(host)
    ensures ViewClick(host, b, column, row)
      == React(host, b.(model := Open(b.model, column, row).model), Open(b.model, column, row).events)
  {
  }

  /** What a click on a game in progress announces and changes, in terms of
      the trace of its open: demined once per event that meets the win test,
      without a game exactly the reference judgement, and a board changed
      beyond the open only for a game whose trace holds a mine. */
  lemma ClickJudgesTrace(host: Host, b: Board, column: int, row: int)
    requires WellFormed(b.model) && !Over(host)
    ensures var o := Open(b.model, column, row);
      var r := ViewClick(host, b, column, row);
      && DeminedCount(r.signals) == WinCount(o.events, SafeCells(host, b.model))
      && (host.Headless? ==> r.signals == Judged(o.events, b.model.width * b.model.height))
      && (r.board.model != o.model ==> r.host.Hosted? && exists k :: 0 <= k < |o.events| && o.events[k].cell.hasMine)
  {
    var o := Open(b.model, column, row);
    var b' := b.(model := o.model);
    var r := React(host, b', o.events);
    assert ViewClick(host, b, column, row) == r by {
      ViewClickReacts(host, b, column, row);
    }
    assert DeminedCount(r.signals) == WinCount(o.events, SafeCells(host, b.model)) by {
      ReactCountsWins(host, b', o.events);
      assert SafeCells(host, b'.model) == SafeCells(host, b.model);
    }
    assert host.Headless? ==> r.signals == Judged(o.events, b.model.width * b.model.height) by {
      ReactHeadless(b', o.events);
      assert b'.model.width * b'.model.height == b.model.width * b.model.height;
    }
    assert r.board.model != o.model ==> r.host.Hosted? && exists k :: 0 <= k < |o.events| && o.events[k].cell.hasMine by {
      ReactChangesOnlyOnMine(host, b', o.events);
    }
  }

  /** viewRightClickHandler: ignored once the game is lost or won; otherwise
      the model toggles the flag. */
  function ViewRightClick(host: Host, b: Board, column: int, row: int): (r: (Board, seq<FlagSwitched>))
    requires WellFormed(b.model)
    ensures Over(host) ==> r == (b, [])
    ensures Rewired(b, r.0)
    ensures !Over(host) ==> r.0.model == SwitchFlag(b.model, column, row).model
    ensures !Over(host) ==> r.1 == SwitchFlag(b.model, column, row).events
  {
    if Over(host) then (b, [])
    else
      var f := SwitchFlag(b.model, column, row);
      (b.(model := f.model), f.events)
  }

  /** Clicks keep the board invariant and the neighbour counts. */
  lemma ClickKeepsInvariants(host: Host, b: Board, column: int, row: int)
    requires Inv(b.model) && NeighboursAccurate(b.model)
    ensures Inv(ViewClick(host, b, column, row).board.model)
    ensures NeighboursAccurate(ViewClick(host, b, column, row).board.model)
    ensures Inv(ViewRightClick(host, b, column, row).0.model)
    ensures NeighboursAccurate(ViewRightClick(host, b, column, row).0.model)
  {
    var o := Open(b.model, column, row);
    StepKeepsInvariants(b.model, o.model, o.events);
    OpenAllMinesKeepsInvariants(o.model);
    SwitchFlagKeepsInvariants(b.model, column, row);
  }

  /** Clicking a closed, unflagged mine while the game is on loses it: every
      mine is revealed, hasMine is announced for each mine the reveal opened
      and then for the clicked one, and nothing is announced on demined. */
  lemma ClickOnMineLoses(state: GameState, mines: int, b: Board, column: int, row: int)
    requires WellFormed(b.model) && NeighboursAccurate(b.model)
    requires state == Playing || state == Stopped
    requires IsValidPosition(b.model, column, row)
    requires b.model.cells[column][row].hasMine && !b.model.cells[column][row].isOpen && !b.model.cells[column][row].hasFlag
    ensures var r := ViewClick(Hosted(state, mines), b, column, row);
      && r.host == Hosted(Lost, mines)
      && r.board.model == OpenAllMines(OpenedCell(b.model, column, row)).model
      && |r.signals| == Count(OpenedCell(b.model, column, row).cells, ClosedMine) + 1
      && (forall k :: 0 <= k < |r.signals| ==> r.signals[k].HasMine?)
      && (forall k :: 0 <= k < |r.signals| - 1 ==>
            r.signals[k] == HasMine(OpenAllMines(OpenedCell(b.model, column, row)).events[k]))
      && r.signals[|r.signals| - 1] == HasMine(CellOpened(column, row,
           OpenedCell(b.model, column, row).cells[column][row], OpenedCell(b.model, column, row).openedCount))
  {
    var host := Hosted(state, mines);
    var m1 := OpenedCell(b.model, column, row);
    var e := CellOpened(column, row, m1.cells[column][row], m1.openedCount);
    MineClickIsOneVerdict(host, b, column, row);
    LossAnnouncesReveal(host, b.(model := m1), e);
  }

  /** A click on a closed, unflagged mine opens that cell alone, and its one
      event is judged on the board the open left. */
  lemma MineClickIsOneVerdict(host: Host, b: Board, column: int, row: int)
    requires WellFormed(b.model) && !Over(host)
    requires IsValidPosition(b.model, column, row)
    requires b.model.cells[column][row].hasMine && !b.model.cells[column][row].isOpen && !b.model.cells[column][row].hasFlag
    ensures var m1 := OpenedCell(b.model, column, row);
      && m1.cells[column][row].hasMine
      && ViewClick(host, b, column, row)
        == OnCellOpened(host, b.(model := m1), CellOpened(column, row, m1.cells[column][row], m1.openedCount))
  {
    var o := Open(b.model, column, row);
    assert o.events == [o.events[0]];
    var first := OnCellOpened(host, b.(model := o.model), o.events[0]);
    assert React(host, b.(model := o.model), o.events) == Outcome(first.host, first.board, first.signals + []) by {
      assert o.events[1..] == [];
    }
    assert first.signals + [] == first.signals;
  }

  /** Without a game, opening a mine only opens that cell and announces it. */
  lemma HeadlessMineOpensOne(b: Board, column: int, row: int)
    requires WellFormed(b.model) && NeighboursAccurate(b.model)
    requires IsValidPosition(b.model, column, row)
    requires b.model.cells[column][row].hasMine && !b.model.cells[column][row].isOpen && !b.model.cells[column][row].hasFlag
    ensures var r := ViewClick(Headless, b, column, row);
      && r.host == Headless
      && r.board.model == OpenedCell(b.model, column, row)
      && |r.signals| == 1 && r.signals[0].HasMine?
  {
    var o := Open(b.model, column, row);
    assert o.events == [o.events[0]];
    var first := OnCellOpened(Headless, b.(model := o.model), o.events[0]);
    assert first.signals == [HasMine(o.events[0])];
    assert React(Headless, b.(model := o.model), o.events) == Outcome(first.host, first.board, first.signals + []) by {
      assert o.events[1..] == [];
    }
    assert first.signals + [] == first.signals;
  }

  // ---------------------------------------------------------------------------
  // demined is announced again for every event emitted once the cascade is complete

  /** A 2 x 1 board without mines, as refresh(0) leaves it. */
  const Pair := Model(2, 1, [[NewCell], [NewCell]], 0, EmptyChannel, EmptyChannel)

  const PairBoard := Board(Pair, View(EmptyChannel, EmptyChannel), EmptyChannel, EmptyChannel)

  /** Only (0, 0) of the pair open. */
  const PairHalf := Pair.(cells := [[NewCell.(isOpen := true)], [NewCell]], openedCount := 1)

  /** Both cells of the pair open after the click. */
  const PairOpened := Pair.(cells := [[NewCell.(isOpen := true)], [NewCell.(isOpen := true)]], openedCount := 2)

  lemma PairReady()
    ensures Ready(Pair) && MineCount(Pair) == 0
  {
    ClearEstablishes(Pair);
    assert BoardModel.Clear(Pair) == Pair by {
      var c := BoardModel.Clear(Pair);
      assert c.cells[0] == [NewCell] && c.cells[1] == [NewCell];
    }
  }

  /** On a two-cell board each cell is the other's only neighbour. */
  lemma PairNeighbours(m: Model)
    requires m.width == 2 && m.height == 1
    ensures NeighbourList(m, 0, 0) == [Pos(1, 0)] && NeighbourList(m, 1, 0) == [Pos(0, 0)]
  {
    assert ColumnsFrom(1, 0, 0, 1, 0, 0) == [Pos(0, 0)] by {
      assert RowsFrom(1, 0, 0, 0, 0) == [Pos(0, 0)];
      assert RowsFrom(1, 0, 1, 0, 0) == [];
    }
    assert ColumnsFrom(0, 0, 0, 1, 0, 0) == [Pos(1, 0)] by {
      assert RowsFrom(0, 0, 0, 0, 0) == [];
      assert RowsFrom(0, 0, 1, 0, 0) == [Pos(1, 0)];
    }
  }

  /** The cascade step: with (0, 0) open, opening (1, 0) opens it and finds
      nothing further to open. */
  lemma PairCascade()
    ensures OpenedCell(Pair, 0, 0) == PairHalf
    ensures OpenEach(OpenedCell(Pair, 0, 0), [Pos(1, 0)])
      == Opening(PairOpened, [CellOpened(1, 0, NewCell.(isOpen := true), 2)])
  {
    PairOpens();
    PairSecondOpen();
    assert [Pos(1, 0)][1..] == [];
    assert OpenEach(PairOpened, []) == Opening(PairOpened, []);
  }

  /** Opening (1, 0) next to the open (0, 0) opens it alone, with the counter at 2. */
  lemma PairSecondOpen()
    ensures Open(PairHalf, 1, 0) == Opening(PairOpened, [CellOpened(1, 0, NewCell.(isOpen := true), 2)])
  {
    PairOpens();
    PairNeighbours(PairOpened);
    assert OpenEach(PairOpened, [Pos(0, 0)]) == Opening(PairOpened, []) by {
      assert Open(PairOpened, 0, 0) == Opening(PairOpened, []);
      assert [Pos(0, 0)][1..] == [];
      assert OpenEach(PairOpened, []) == Opening(PairOpened, []);
      assert Opening(PairOpened, []).events + Opening(PairOpened, []).events == [];
    }
    OpenZeroUnfolds(PairHalf, 1, 0);
  }

  /** The two single-cell opens of the pair, as boards. */
  lemma PairOpens()
    ensures OpenedCell(Pair, 0, 0) == PairHalf
    ensures OpenedCell(PairHalf, 1, 0) == PairOpened
  {
    var m1 := OpenedCell(Pair, 0, 0);
    assert m1.cells == Pair.cells[0 := Pair.cells[0][0 := NewCell.(isOpen := true)]];
    assert [NewCell][0 := NewCell.(isOpen := true)] == [NewCell.(isOpen := true)];
    assert m1.cells == [[NewCell.(isOpen := true)], [NewCell]];
    var m2 := OpenedCell(PairHalf, 1, 0);
    assert m2.cells == [[NewCell.(isOpen := true)], [NewCell.(isOpen := true)]];
  }

  /** The click itself: two events, both emitted with the counter at 2. */
  lemma PairClick()
    ensures Open(Pair, 0, 0) == Opening(PairOpened,
      [CellOpened(1, 0, NewCell.(isOpen := true), 2), CellOpened(0, 0, NewCell.(isOpen := true), 2)])
  {
    PairCascade();
    var m1 := OpenedCell(Pair, 0, 0);
    PairNeighbours(m1);
    OpenZeroUnfolds(Pair, 0, 0);
    assert OpenNeighbors(m1, 0, 0) == OpenEach(m1, [Pos(1, 0)]);
  }

  /** As written, checkMine compares the counter with the safe-cell count on
      every event of an open. Clicking one cell of the two-cell board opens its
      neighbour in the cascade; both events are emitted after the counter has
      reached 2, so the one win is announced twice. */
  lemma DeminedRepeated()
    ensures Ready(Pair) && MineCount(Pair) == 0
    ensures DeminedCount(ViewClick(Headless, PairBoard, 0, 0).signals) == 2
  {
    PairReady();
    PairClick();
    var e1 := CellOpened(1, 0, NewCell.(isOpen := true), 2);
    var e0 := CellOpened(0, 0, NewCell.(isOpen := true), 2);
    var b := PairBoard.(model := PairOpened);
    assert OnCellOpened(Headless, b, e1).signals == [Demined(e1)];
    assert OnCellOpened(Headless, b, e0).signals == [Demined(e0)];
    assert React(Headless, b, [e0]).signals == [Demined(e0)] by {
      assert [e0][1..] == [];
    }
    assert React(Headless, b, [e1, e0]).signals == [Demined(e1), Demined(e0)] by {
      assert [e1, e0][1..] == [e0];
    }
  }

  /** A 3 x 1 board without mines, as refresh(0) leaves it. */
  const Triple := Model(3, 1, [[NewCell], [NewCell], [NewCell]], 0, EmptyChannel, EmptyChannel)

  const TripleBoard := Board(Triple, View(EmptyChannel, EmptyChannel), EmptyChannel, EmptyChannel)

  /** The three boards the click on (1, 0) passes through: the middle cell
      open, then the left one, then all three. */
  const TripleMid := Triple.(cells := [[NewCell], [NewCell.(isOpen := true)], [NewCell]], openedCount := 1)

  const TripleLeft := Triple.(cells := [[NewCell.(isOpen := true)], [NewCell.(isOpen := true)], [NewCell]], openedCount := 2)

  const TripleOpened := Triple.(cells := [[NewCell.(isOpen := true)], [NewCell.(isOpen := true)], [NewCell.(isOpen := true)]], openedCount := 3)

  lemma TripleNeighbours(m: Model)
    requires m.width == 3 && m.height == 1
    ensures NeighbourList(m, 1, 0) == [Pos(0, 0), Pos(2, 0)]
    ensures NeighbourList(m, 0, 0) == [Pos(1, 0)]
    ensures NeighbourList(m, 2, 0) == [Pos(1, 0)]
  {
    assert ColumnsFrom(1, 0, 0, 2, 0, 0) == [Pos(0, 0), Pos(2, 0)] by {
      assert RowsFrom(1, 0, 0, 0, 0) == [Pos(0, 0)];
      assert RowsFrom(1, 0, 1, 0, 0) == [];
      assert RowsFrom(1, 0, 2, 0, 0) == [Pos(2, 0)];
      assert ColumnsFrom(1, 0, 2, 2, 0, 0) == [Pos(2, 0)];
    }
    assert ColumnsFrom(0, 0, 0, 1, 0, 0) == [Pos(1, 0)] by {
      assert RowsFrom(0, 0, 0, 0, 0) == [];
      assert RowsFrom(0, 0, 1, 0, 0) == [Pos(1, 0)];
    }
    assert ColumnsFrom(2, 0, 1, 2, 0, 0) == [Pos(1, 0)] by {
      assert RowsFrom(2, 0, 1, 0, 0) == [Pos(1, 0)];
      assert RowsFrom(2, 0, 2, 0, 0) == [];
    }
  }

  lemma TripleOpens()
    ensures OpenedCell(Triple, 1, 0) == TripleMid
    ensures OpenedCell(TripleMid, 0, 0) == TripleLeft
    ensures OpenedCell(TripleLeft, 2, 0) == TripleOpened
  {
    assert [NewCell][0 := NewCell.(isOpen := true)] == [NewCell.(isOpen := true)];
    var m1 := OpenedCell(Triple, 1, 0);
    assert m1.cells == [[NewCell], [NewCell.(isOpen := true)], [NewCell]];
    var m2 := OpenedCell(TripleMid, 0, 0);
    assert m2.cells == [[NewCell.(isOpen := true)], [NewCell.(isOpen := true)], [NewCell]];
    var m3 := OpenedCell(TripleLeft, 2, 0);
    assert m3.cells == [[NewCell.(isOpen := true)], [NewCell.(isOpen := true)], [NewCell.(isOpen := true)]];
  }

  /** With the middle cell open, opening the left cell opens it alone, at 2. */
  lemma TripleLeftOpen()
    ensures Open(TripleMid, 0, 0) == Opening(TripleLeft, [CellOpened(0, 0, NewCell.(isOpen := true), 2)])
  {
    TripleOpens();
    TripleNeighbours(TripleLeft);
    assert OpenEach(TripleLeft, [Pos(1, 0)]) == Opening(TripleLeft, []) by {
      assert Open(TripleLeft, 1, 0) == Opening(TripleLeft, []);
      assert [Pos(1, 0)][1..] == [];
      assert OpenEach(TripleLeft, []) == Opening(TripleLeft, []);
    }
    OpenZeroUnfolds(TripleMid, 0, 0);
  }

  /** With the left and middle cells open, opening the right cell opens it alone, at 3. */
  lemma TripleRightOpen()
    ensures Open(TripleLeft, 2, 0) == Opening(TripleOpened, [CellOpened(2, 0, NewCell.(isOpen := true), 3)])
  {
    TripleOpens();
    TripleNeighbours(TripleOpened);
    assert OpenEach(TripleOpened, [Pos(1, 0)]) == Opening(TripleOpened, []) by {
      assert Open(TripleOpened, 1, 0) == Opening(TripleOpened, []);
      assert [Pos(1, 0)][1..] == [];
      assert OpenEach(TripleOpened, []) == Opening(TripleOpened, []);
    }
    OpenZeroUnfolds(TripleLeft, 2, 0);
  }

  /** The click on the middle cell: the left cell is reported at 2, before the
      right cell opens, and only the last two events carry the final count 3. */
  lemma TripleClick()
    ensures Open(Triple, 1, 0) == Opening(TripleOpened,
      [CellOpened(0, 0, NewCell.(isOpen := true), 2),
       CellOpened(2, 0, NewCell.(isOpen := true), 3),
       CellOpened(1, 0, NewCell.(isOpen := true), 3)])
  {
    TripleOpens();
    TripleLeftOpen();
    TripleRightOpen();
    TripleNeighbours(TripleMid);
    var left := Open(TripleMid, 0, 0);
    var right := Open(TripleLeft, 2, 0);
    assert OpenEach(TripleMid, [Pos(0, 0), Pos(2, 0)]) == Opening(TripleOpened, left.events + right.events) by {
      assert [Pos(0, 0), Pos(2, 0)][1..] == [Pos(2, 0)];
      assert [Pos(2, 0)][1..] == [];
      assert OpenEach(TripleOpened, []) == Opening(TripleOpened, []);
    }
    OpenZeroUnfolds(Triple, 1, 0);
  }

  /** As written, the three-cell click announces demined twice, not once per
      opened cell: the left cell's event carries 2 of the 3 safe cells. */
  lemma DeminedTwiceOfThree()
    ensures |Open(Triple, 1, 0).events| == 3
    ensures DeminedCount(ViewClick(Headless, TripleBoard, 1, 0).signals) == 2
  {
    TripleClick();
    ClickJudgesTrace(Headless, TripleBoard, 1, 0);
    var e0 := CellOpened(0, 0, NewCell.(isOpen := true), 2);
    var e2 := CellOpened(2, 0, NewCell.(isOpen := true), 3);
    var e1 := CellOpened(1, 0, NewCell.(isOpen := true), 3);
    assert SafeCells(Headless, Triple) == 3;
    assert WinCount([e1], 3) == 1 by {
      assert [e1][1..] == [];
    }
    assert WinCount([e2, e1], 3) == 2 by {
      assert [e2, e1][1..] == [e1];
    }
    assert WinCount([e0, e2, e1], 3) == 2 by {
      assert [e0, e2, e1][1..] == [e2, e1];
    }
  }

  /** As written, a winning click that cascades announces demined at least
      twice: the last cell the cascade opens and the clicked cell are both
      reported after the counter has reached its final value, which is the
      safe-cell count. With accurate counts a click on a safe cell exposes no
      mine, so both events pass the win test. */
  lemma WinningCascadeRepeats(host: Host, b: Board, column: int, row: int)
    requires WellFormed(b.model) && NeighboursAccurate(b.model) && !Over(host)
    requires IsValidPosition(b.model, column, row) ==> !b.model.cells[column][row].hasMine
    requires Open(b.model, column, row).model.openedCount == SafeCells(host, b.model)
    requires |Open(b.model, column, row).events| >= 2
    ensures DeminedCount(ViewClick(host, b, column, row).signals) >= 2
  {
    CascadeWinsTwice(b.model, column, row, SafeCells(host, b.model));
    ClickJudgesTrace(host, b, column, row);
  }

  /** The trace half: the last two events of such an open pass the win test. */
  lemma CascadeWinsTwice(m: Model, column: int, row: int, safeCells: int)
    requires WellFormed(m) && NeighboursAccurate(m)
    requires IsValidPosition(m, column, row) ==> !m.cells[column][row].hasMine
    requires Open(m, column, row).model.openedCount == safeCells
    requires |Open(m, column, row).events| >= 2
    ensures WinCount(Open(m, column, row).events, safeCells) >= 2
  {
    CascadeEndsAtFinalCount(m, column, row);
    SafeOpenOpensNoMine(m, column, row);
    SafeTraceWinsTwice(Open(m, column, row), safeCells);
  }

  lemma SafeTraceWinsTwice(o: Opening, safeCells: int)
    requires EndsTwiceAtCount(o) && |o.events| >= 2 && o.model.openedCount == safeCells
    requires forall k :: 0 <= k < |o.events| ==> !o.events[k].cell.hasMine
    ensures WinCount(o.events, safeCells) >= 2
  {
    WinCountLastTwo(o.events, safeCells);
  }

  /** A trace whose last two events are safe and at the safe-cell count holds
      at least two wins. */
  lemma WinCountLastTwo(evs: seq<CellOpened>, safeCells: int)
    requires |evs| >= 2
    requires !evs[|evs| - 2].cell.hasMine && evs[|evs| - 2].openedCount == safeCells
    requires !evs[|evs| - 1].cell.hasMine && evs[|evs| - 1].openedCount == safeCells
    ensures WinCount(evs, safeCells) >= 2
  {
    var n := |evs|;
    var tail := [evs[n - 2], evs[n - 1]];
    assert evs == evs[..n - 2] + tail;
    WinCountAppend(evs[..n - 2], tail, safeCells);
    assert tail[1..] == [evs[n - 1]];
    assert WinCount([evs[n - 1]], safeCells) == 1 by {
      assert [evs[n - 1]][1..] == [];
    }
  }

  lemma {:induction false} WinCountAppend(a: seq<CellOpened>, b: seq<CellOpened>, safeCells: int)
    ensures WinCount(a + b, safeCells) == WinCount(a, safeCells) + WinCount(b, safeCells)
    decreases |a|
  {
    if |a| > 0 {
      assert (a + b)[1..] == a[1..] + b;
      WinCountAppend(a[1..], b, safeCells);
    } else {
      assert a + b == b;
    }
  }

  /** checkMine as evidently intended: a win is announced once per open. An
      event of the same open that meets the win test again is passed over, as
      the win it would announce has been announced. */
  function ReactOnce(host: Host, b: Board, evs: seq<CellOpened>, announced: bool): (r: Outcome)
    requires WellFormed(b.model)
    ensures Rewired(b, r.board) && SameGame(host, r.host)
    ensures r.board.model == b.model || r.board.model == OpenAllMines(b.model).model
    ensures DeminedCount(r.signals) <= (if announced then 0 else 1)
    decreases |evs|
  {
    if |evs| == 0 then Outcome(host, b, [])
    else
      var v := CheckMine(host, b.model.width, b.model.height, evs[0]);
      var wins := v.signal.Some? && v.signal.value.Demined?;
      if announced && wins then ReactOnce(host, b, evs[1..], announced)
      else
        var first := OnCellOpened(host, b, evs[0]);
        var rest := ReactOnce(first.host, first.board, evs[1..], announced || wins);
        RevealSettles(b.model);
        DeminedCountAppend(first.signals, rest.signals);
        Outcome(rest.host, rest.board, first.signals + rest.signals)
  }

  /** viewClickHandler with the intended checkMine. */
  function ViewClickOnce(host: Host, b: Board, column: int, row: int): (r: Outcome)
    requires WellFormed(b.model)
    ensures Over(host) ==> r == Outcome(host, b, [])
    ensures Rewired(b, r.board) && SameGame(host, r.host)
    ensures !Over(host) ==>
      var after := Open(b.model, column, row).model;
      r.board.model == after || r.board.model == OpenAllMines(after).model
    ensures DeminedCount(r.signals) <= 1
  {
    if Over(host) then Outcome(host, b, [])
    else
      var o := Open(b.model, column, row);
      ReactOnce(host, b.(model := o.model), o.events, false)
  }

  /** On the events of a safe open, the intended reaction leaves the game and
      the board as the written one does and announces the win once if the
      written one announces it at all. */
  lemma {:induction false} SafeReactAgrees(host: Host, b: Board, evs: seq<CellOpened>, announced: bool)
    requires WellFormed(b.model)
    requires forall k :: 0 <= k < |evs| ==> !evs[k].cell.hasMine
    requires announced && host.Hosted? ==> host.state == Win
    ensures ReactOnce(host, b, evs, announced).host == React(host, b, evs).host
    ensures ReactOnce(host, b, evs, announced).board == b && React(host, b, evs).board == b
    ensures DeminedCount(ReactOnce(host, b, evs, announced).signals)
      == (if !announced && DeminedCount(React(host, b, evs).signals) > 0 then 1 else 0)
    decreases |evs|
  {
    if |evs| > 0 {
      var v := CheckMine(host, b.model.width, b.model.height, evs[0]);
      var wins := v.signal.Some? && v.signal.value.Demined?;
      var first := OnCellOpened(host, b, evs[0]);
      SafeReactAgrees(first.host, b, evs[1..], announced || wins);
      DeminedCountAppend(first.signals, React(first.host, b, evs[1..]).signals);
      if announced && wins {
        assert first.host == host;
        SafeReactAgrees(host, b, evs[1..], announced);
      } else {
        DeminedCountAppend(first.signals, ReactOnce(first.host, b, evs[1..], announced || wins).signals);
      }
    }
  }

  /** With accurate neighbour counts the intended click differs from the
      written one only in announcing the win once. */
  lemma ViewClickOnceAgrees(host: Host, b: Board, column: int, row: int)
    requires WellFormed(b.model) && NeighboursAccurate(b.model)
    ensures ViewClickOnce(host, b, column, row).host == ViewClick(host, b, column, row).host
    ensures ViewClickOnce(host, b, column, row).board == ViewClick(host, b, column, row).board
    ensures DeminedCount(ViewClickOnce(host, b, column, row).signals)
      == (if DeminedCount(ViewClick(host, b, column, row).signals) > 0 then 1 else 0)
  {
    if !Over(host) {
      var o := Open(b.model, column, row);
      var b' := b.(model := o.model);
      MineOpenIsAlone(b.model, column, row);
      if exists k :: 0 <= k < |o.events| && o.events[k].cell.hasMine {
        assert |o.events| == 1;
        assert o.events[1..] == [];
        var first := OnCellOpened(host, b', o.events[0]);
        assert ReactOnce(host, b', o.events, false) == Outcome(first.host, first.board, first.signals + []);
        assert React(host, b', o.events) == Outcome(first.host, first.board, first.signals + []);
      } else {
        SafeReactAgrees(host, b', o.events, false);
      }
    }
  }

  /** Opening a closed, unflagged safe cell of a counted board with accurate
      counts and no open mine keeps all three; its events are all safe, none
      carries a count above the final one, and the last is the clicked cell's,
      carrying the final count. */
  lemma SafeOpenStaysCounted(m: Model, column: int, row: int)
    requires Counted(m) && NoOpenMine(m) && NeighboursAccurate(m)
    requires IsValidPosition(m, column, row) && !m.cells[column][row].hasMine
    requires !m.cells[column][row].isOpen && !m.cells[column][row].hasFlag
    ensures var o := Open(m, column, row);
      && Counted(o.model) && NoOpenMine(o.model) && MineCount(o.model) == MineCount(m)
      && o.model.width == m.width && o.model.height == m.height
      && |o.events| >= 1
      && !o.events[|o.events| - 1].cell.hasMine && o.events[|o.events| - 1].openedCount == o.model.openedCount
      && forall k :: 0 <= k < |o.events| ==> !o.events[k].cell.hasMine && o.events[k].openedCount <= o.model.openedCount
  {
    SafeOpenKeepsCounts(m, column, row);
    OpenReportsUpToCount(m, column, row);
  }

  /** A safe open keeps the counts exact and opens no mine. */
  lemma SafeOpenKeepsCounts(m: Model, column: int, row: int)
    requires Counted(m) && NoOpenMine(m) && NeighboursAccurate(m)
    requires IsValidPosition(m, column, row) ==> !m.cells[column][row].hasMine
    ensures var o := Open(m, column, row);
      && Counted(o.model) && NoOpenMine(o.model) && MineCount(o.model) == MineCount(m)
      && forall k :: 0 <= k < |o.events| ==> !o.events[k].cell.hasMine
  {
    var o := Open(m, column, row);
    SafeOpenOpensNoMine(m, column, row);
    StepKeepsInvariants(m, o.model, o.events);
    assert NoOpenMine(o.model);
  }

  /** No event of an open carries a count above the final one. */
  lemma OpenReportsUpToCount(m: Model, column: int, row: int)
    requires WellFormed(m)
    ensures var o := Open(m, column, row);
      forall k :: 0 <= k < |o.events| ==> o.events[k].openedCount <= o.model.openedCount
  {
    var o := Open(m, column, row);
    forall k | 0 <= k < |o.events| ensures o.events[k].openedCount <= o.model.openedCount {
    }
  }

  /** With the intended handler, a click that opens a safe cell of a game in
      progress announces demined once if it leaves every safe cell open, and
      not at all otherwise. */
  lemma ClickOnceAnnouncesClear(host: Host, b: Board, column: int, row: int)
    requires Counted(b.model) && NoOpenMine(b.model) && NeighboursAccurate(b.model)
    requires MineCount(b.model) == ConfiguredMines(host) && !Over(host)
    requires IsValidPosition(b.model, column, row) && !b.model.cells[column][row].hasMine
    requires !b.model.cells[column][row].isOpen && !b.model.cells[column][row].hasFlag
    ensures DeminedCount(ViewClickOnce(host, b, column, row).signals)
      == (if Cleared(Open(b.model, column, row).model) then 1 else 0)
  {
    var o := Open(b.model, column, row);
    var written := React(host, b.(model := o.model), o.events);
    assert DeminedCount(written.signals) > 0 <==> Cleared(o.model) by {
      SafeOpenStaysCounted(b.model, column, row);
      ReactWinsIffCleared(host, b.(model := o.model), o.events);
    }
    assert ViewClick(host, b, column, row) == written by {
      ViewClickReacts(host, b, column, row);
    }
    ViewClickOnceAgrees(host, b, column, row);
  }

  /** The reaction to such a trace announces demined exactly when every safe
      cell is open. */
  lemma ReactWinsIffCleared(host: Host, b: Board, evs: seq<CellOpened>)
    requires Counted(b.model) && NoOpenMine(b.model) && MineCount(b.model) == ConfiguredMines(host)
    requires |evs| >= 1 && !evs[|evs| - 1].cell.hasMine && evs[|evs| - 1].openedCount == b.model.openedCount
    requires forall k :: 0 <= k < |evs| ==> !evs[k].cell.hasMine && evs[k].openedCount <= b.model.openedCount
    ensures DeminedCount(React(host, b, evs).signals) > 0 <==> Cleared(b.model)
  {
    var target := SafeCells(host, b.model);
    ReactCountsWins(host, b, evs);
    WinCountPositive(evs, target);
    WinsAtFinalCount(host, b.model, evs, target);
  }

  /** On a counted board with no open mine and the configured mine count, a
      safe trace whose counts never pass the final one and whose last event
      carries it meets the win test exactly when every safe cell is open. */
  lemma WinsAtFinalCount(host: Host, m: Model, evs: seq<CellOpened>, target: int)
    requires Counted(m) && NoOpenMine(m) && MineCount(m) == ConfiguredMines(host)
    requires target == m.width * m.height - ConfiguredMines(host)
    requires |evs| >= 1 && !evs[|evs| - 1].cell.hasMine && evs[|evs| - 1].openedCount == m.openedCount
    requires forall k :: 0 <= k < |evs| ==> !evs[k].cell.hasMine && evs[k].openedCount <= m.openedCount
    ensures (exists k :: 0 <= k < |evs| && !evs[k].cell.hasMine && evs[k].openedCount == target) <==> Cleared(m)
  {
    DeminedMeansCleared(host, m, evs[|evs| - 1]);
  }

  /** A click that is not on a closed, unflagged mine keeps a game in progress
      from being lost and leaves the board as the open left it. */
  lemma SafeClickKeepsGame(state: GameState, mines: int, b: Board, column: int, row: int)
    requires WellFormed(b.model) && NeighboursAccurate(b.model)
    requires state == Playing || state == Stopped
    requires !(IsValidPosition(b.model, column, row) && b.model.cells[column][row].hasMine
        && !b.model.cells[column][row].isOpen && !b.model.cells[column][row].hasFlag)
    ensures ViewClick(Hosted(state, mines), b, column, row).host.state != Lost
    ensures ViewClick(Hosted(state, mines), b, column, row).board.model == Open(b.model, column, row).model
  {
    var m := b.model;
    var host := Hosted(state, mines);
    var o := Open(m, column, row);
    if !IsValidPosition(m, column, row) || !m.cells[column][row].hasMine {
      SafeOpenOpensNoMine(m, column, row);
    } else {
      assert o.events == [];
    }
    var b' := b.(model := o.model);
    ReactChangesOnlyOnMine(host, b', o.events);
    var r := React(host, b', o.events);
    assert r.board == b' && r.host.state != Lost;
    ViewClickReacts(host, b, column, row);
  }

  /** With accurate neighbour counts, a click on a game in progress loses it
      exactly when the clicked cell is a closed, unflagged mine; any other
      click leaves the board as the open left it. */
  lemma ClickLosesExactlyOnMine(state: GameState, mines: int, b: Board, column: int, row: int)
    requires WellFormed(b.model) && NeighboursAccurate(b.model)
    requires state == Playing || state == Stopped
    ensures var minedClick := IsValidPosition(b.model, column, row) && b.model.cells[column][row].hasMine
        && !b.model.cells[column][row].isOpen && !b.model.cells[column][row].hasFlag;
      var r := ViewClick(Hosted(state, mines), b, column, row);
      && (r.host.state == Lost <==> minedClick)
      && (!minedClick ==> r.board.model == Open(b.model, column, row).model)
  {
    var m := b.model;
    if IsValidPosition(m, column, row) && m.cells[column][row].hasMine
      && !m.cells[column][row].isOpen && !m.cells[column][row].hasFlag
    {
      ClickOnMineLoses(state, mines, b, column, row);
    } else {
      SafeClickKeepsGame(state, mines, b, column, row);
    }
  }

  /** Everything a click tells about a game in progress: how the board may
      end, the demined count of its trace, and, with accurate counts, when it
      loses and what the board then is. */
  lemma ClickOnRunningGame(state: GameState, mines: int, b: Board, column: int, row: int)
    requires WellFormed(b.model)
    requires state == Playing || state == Stopped
    ensures var o := Open(b.model, column, row);
      var r := ViewClick(Hosted(state, mines), b, column, row);
      && (r.board.model == o.model || r.board.model == OpenAllMines(o.model).model)
      && DeminedCount(r.signals) == WinCount(o.events, SafeCells(Hosted(state, mines), b.model))
    ensures NeighboursAccurate(b.model) ==>
      var minedClick := IsValidPosition(b.model, column, row) && b.model.cells[column][row].hasMine
        && !b.model.cells[column][row].isOpen && !b.model.cells[column][row].hasFlag;
      var r := ViewClick(Hosted(state, mines), b, column, row);
      && (r.host.state == Lost <==> minedClick)
      && (!minedClick ==> r.board.model == Open(b.model, column, row).model)
      && (minedClick ==> r.board.model == OpenAllMines(OpenedCell(b.model, column, row)).model)
  {
    ClickJudgesTrace(Hosted(state, mines), b, column, row);
    if NeighboursAccurate(b.model) {
      ClickLosesExactlyOnMine(state, mines, b, column, row);
      if IsValidPosition(b.model, column, row) && b.model.cells[column][row].hasMine
        && !b.model.cells[column][row].isOpen && !b.model.cells[column][row].hasFlag
      {
        ClickOnMineLoses(state, mines, b, column, row);
      }
    }
  }

  /** On the two-cell board the intended click announces the win once. */
  lemma DeminedOnceOnPair()
    ensures DeminedCount(ViewClickOnce(Headless, PairBoard, 0, 0).signals) == 1
  {
    DeminedRepeated();
    PairReady();
    ViewClickOnceAgrees(Headless, PairBoard, 0, 0);
  }
}
