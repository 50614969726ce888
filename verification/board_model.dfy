/** The board simulation of modelploce.js: a width x height grid of cells,
    indexed cells[column][row], with mine placement, neighbour counting,
    opening with flood-fill, flag toggling and the loss-time mine reveal.
    Every operation returns the new board together with the events it emits,
    in emission order. */
module BoardModel {
  import opened Errors
  import opened Events
  import opened Grids

  /** A board. openedCount counts the cells opened through Open since the last
      Clear; the two channels hold the subscribers of the cellOpened and
      flagSwitched events. */
  datatype Model = Model(
    width: int,
    height: int,
    cells: seq<seq<Cell>>,
    openedCount: int,
    cellOpened: Channel,
    flagSwitched: Channel)

  /** The cellOpened payload. `cell` is the opened cell as listeners see it and
      `openedCount` the board's counter at the moment the event is delivered
      (both are what a listener reading the board during notify observes). */
  datatype CellOpened = CellOpened(column: int, row: int, cell: Cell, openedCount: int)

  /** The flagSwitched payload. */
  datatype FlagSwitched = FlagSwitched(column: int, row: int, hasFlag: bool)

  datatype Opening = Opening(model: Model, events: seq<CellOpened>)

  datatype Flagging = Flagging(model: Model, events: seq<FlagSwitched>)

  /** The result of a successful setMines: the board, the mines it added and
      the random samples it consumed. */
  datatype Placement = Placement(model: Model, placed: nat, attempts: nat)

  function Max(a: int, b: int): int { if a < b then b else a }

  function Min(a: int, b: int): int { if a < b then a else b }

  // ---------------------------------------------------------------------------
  // Shape and invariants

  /** The shape the constructor gives every board. */
  ghost predicate WellFormed(m: Model) {
    m.width > 0 && m.height > 0 && Rectangular(m.cells, m.width, m.height)
  }

  predicate IsValidPosition(m: Model, column: int, row: int) {
    0 <= column < m.width && 0 <= row < m.height
  }

  /** isValidPosition compares against the board's dimensions; on a well-formed
      model these are exactly the positions that index a cell of the grid. */
  lemma ValidPositionIndexesCell(m: Model, column: int, row: int)
    requires WellFormed(m)
    ensures IsValidPosition(m, column, row) <==> 0 <= column < |m.cells| && 0 <= row < |m.cells[column]|
  {
  }

  function ClosedCount(m: Model): nat {
    Count(m.cells, Closed)
  }

  function MineCount(m: Model): nat {
    Count(m.cells, Mined)
  }

  function PosOf(e: CellOpened): Pos {
    Pos(e.column, e.row)
  }

  function Positions(evs: seq<CellOpened>): (ps: seq<Pos>)
    ensures |ps| == |evs|
    ensures forall k :: 0 <= k < |evs| ==> ps[k] == PosOf(evs[k])
  {
    seq(|evs|, k requires 0 <= k < |evs| => PosOf(evs[k]))
  }

  ghost predicate AllNew(m: Model)
    requires WellFormed(m)
  {
    forall i, j :: 0 <= i < m.width && 0 <= j < m.height ==> m.cells[i][j] == NewCell
  }

  /** No cell is open and flagged at once. */
  ghost predicate NoOpenFlagged(m: Model)
    requires WellFormed(m)
  {
    forall i, j :: 0 <= i < m.width && 0 <= j < m.height ==> !(m.cells[i][j].isOpen && m.cells[i][j].hasFlag)
  }

  /** The board invariant: no open flagged cell, and openedCount never exceeds
      the number of open cells (so it never exceeds width * height). */
  ghost predicate Inv(m: Model) {
    && WellFormed(m)
    && NoOpenFlagged(m)
    && 0 <= m.openedCount
    && m.openedCount + ClosedCount(m) <= m.width * m.height
  }

  /** Every open cell was opened through Open, so openedCount is exactly the
      number of open cells. Holds until openAllMines runs. */
  ghost predicate Counted(m: Model) {
    WellFormed(m) && m.openedCount + ClosedCount(m) == m.width * m.height
  }

  /** Two boards of the same shape, subscribers and size. */
  ghost predicate Framed(m: Model, m': Model) {
    && WellFormed(m) && WellFormed(m')
    && m'.width == m.width && m'.height == m.height
    && m'.cellOpened == m.cellOpened && m'.flagSwitched == m.flagSwitched
  }

  ghost predicate SameMines(m: Model, m': Model) {
    && Framed(m, m')
    && forall i, j :: 0 <= i < m.width && 0 <= j < m.height ==> m'.cells[i][j].hasMine == m.cells[i][j].hasMine
  }

  function SetCell(m: Model, column: int, row: int, x: Cell): (m': Model)
    requires WellFormed(m) && IsValidPosition(m, column, row)
    ensures Framed(m, m') && m'.openedCount == m.openedCount
    ensures m'.cells[column][row] == x
    ensures forall i, j :: 0 <= i < m.width && 0 <= j < m.height && !(i == column && j == row) ==>
      m'.cells[i][j] == m.cells[i][j]
  {
    m.(cells := m.cells[column := m.cells[column][row := x]])
  }

  // ---------------------------------------------------------------------------
  // Construction and clear (modelploce.js:2-16, 26-37)

  /** The constructor: rejects a non-positive dimension, otherwise a board of
      fresh cells with nothing opened and no subscribers. */
  function New(width: int, height: int): (r: Result<Model>)
    ensures r.Err? <==> width <= 0 || height <= 0
    ensures r.Err? ==> r.error == BadDimensions
    ensures r.Ok? ==> WellFormed(r.value) && AllNew(r.value)
    ensures r.Ok? ==> r.value.width == width && r.value.height == height && r.value.openedCount == 0
    ensures r.Ok? ==> r.value.cellOpened == EmptyChannel && r.value.flagSwitched == EmptyChannel
  {
    if width <= 0 || height <= 0 then Err(BadDimensions)
    else Ok(Model(width, height, seq(width, _ => seq(height, _ => NewCell)), 0, EmptyChannel, EmptyChannel))
  }

  /** clear: every cell back to the fresh state, the counter to zero; the size
      and the subscribers stay. */
  function Clear(m: Model): (r: Model)
    requires WellFormed(m)
    ensures Framed(m, r) && AllNew(r) && r.openedCount == 0
  {
    m.(cells := seq(m.width, _ => seq(m.height, _ => NewCell)), openedCount := 0)
  }

  /** A cleared board is a freshly constructed one that kept its subscribers. */
  lemma ClearIsNew(m: Model)
    requires WellFormed(m)
    ensures New(m.width, m.height).Ok?
    ensures Clear(m) == New(m.width, m.height).value.(cellOpened := m.cellOpened, flagSwitched := m.flagSwitched)
  {
  }

  /** A cleared board satisfies every invariant: nothing open, nothing flagged,
      no mine, all counts accurate (zero), openedCount the number of open cells. */
  lemma ClearEstablishes(m: Model)
    requires WellFormed(m)
    ensures Inv(Clear(m)) && Counted(Clear(m)) && NeighboursAccurate(Clear(m))
    ensures MineCount(Clear(m)) == 0
  {
    var c := Clear(m);
    CountFull(c.cells, c.width, c.height, Closed);
    CountFull(c.cells, c.width, c.height, Safe);
    CountSplit(c.cells, c.width, c.height, Mined, Safe);
  }

  // ---------------------------------------------------------------------------
  // Mine placement (modelploce.js:39-62)

  /** The samples stand for the calls to Math.random: sample k is the position
      drawn on attempt k, already scaled and floored into the board, and there
      are enough of them for the whole attempt budget. */
  ghost predicate SamplesFit(width: int, height: int, bombs: int, samples: seq<Pos>) {
    && |samples| >= bombs * 10
    && forall k :: 0 <= k < |samples| ==> 0 <= samples[k].column < width && 0 <= samples[k].row < height
  }

  /** m' is m with some mines added and nothing else changed. */
  ghost predicate MinesAdded(m: Model, m': Model) {
    && Framed(m, m') && m'.openedCount == m.openedCount
    && forall i, j :: 0 <= i < m.width && 0 <= j < m.height ==>
      && m'.cells[i][j] == m.cells[i][j].(hasMine := m'.cells[i][j].hasMine)
      && (m.cells[i][j].hasMine ==> m'.cells[i][j].hasMine)
  }

  /** The placement loop from attempt `attempts` on, with `placed` mines so far. */
  function PlaceFrom(m: Model, bombs: int, budget: nat, placed: nat, attempts: nat, samples: seq<Pos>): (r: Placement)
    requires WellFormed(m)
    requires placed <= bombs && attempts <= budget <= |samples|
    requires forall k :: 0 <= k < |samples| ==> 0 <= samples[k].column < m.width && 0 <= samples[k].row < m.height
    ensures MinesAdded(m, r.model)
    ensures placed <= r.placed <= bombs && attempts <= r.attempts <= budget
    ensures r.placed - placed <= r.attempts - attempts
    ensures r.placed < bombs ==> r.attempts == budget
    ensures MineCount(r.model) == MineCount(m) + (r.placed - placed)
    ensures forall k :: attempts <= k < r.attempts ==> r.model.cells[samples[k].column][samples[k].row].hasMine
    decreases budget - attempts
  {
    if placed < bombs && attempts < budget then
      var s := samples[attempts];
      var cell := m.cells[s.column][s.row];
      if !cell.hasMine then
        var m1 := SetCell(m, s.column, s.row, cell.(hasMine := true));
        MineOne(m, s.column, s.row);
        var r := PlaceFrom(m1, bombs, budget, placed + 1, attempts + 1, samples);
        MinesAddedTrans(m, m1, r.model);
        r
      else
        PlaceFrom(m, bombs, budget, placed, attempts + 1, samples)
    else
      Placement(m, placed, attempts)
  }

  /** Mining one clear cell adds exactly that mine. */
  lemma MineOne(m: Model, column: int, row: int)
    requires WellFormed(m) && IsValidPosition(m, column, row) && !m.cells[column][row].hasMine
    ensures var m1 := SetCell(m, column, row, m.cells[column][row].(hasMine := true));
      && MinesAdded(m, m1) && m1.cells[column][row].hasMine
      && MineCount(m1) == MineCount(m) + 1
  {
    CountUpdate(m.cells, column, row, m.cells[column][row].(hasMine := true), Mined);
  }

  lemma MinesAddedTrans(m: Model, m1: Model, m2: Model)
    requires MinesAdded(m, m1) && MinesAdded(m1, m2)
    ensures MinesAdded(m, m2)
  {
  }

  /** The placement loop mines only cells it sampled. */
  lemma {:induction false} PlacedOnlyFromSamples(m: Model, bombs: int, budget: nat, placed: nat, attempts: nat, samples: seq<Pos>)
    requires WellFormed(m)
    requires placed <= bombs && attempts <= budget <= |samples|
    requires forall k :: 0 <= k < |samples| ==> 0 <= samples[k].column < m.width && 0 <= samples[k].row < m.height
    ensures var r := PlaceFrom(m, bombs, budget, placed, attempts, samples);
      forall i, j :: 0 <= i < m.width && 0 <= j < m.height && r.model.cells[i][j].hasMine && !m.cells[i][j].hasMine ==>
        Pos(i, j) in samples[attempts..r.attempts]
    decreases budget - attempts, 1
  {
    if placed < bombs && attempts < budget {
      var s := samples[attempts];
      if !m.cells[s.column][s.row].hasMine {
        PlacedOnlyFromSamplesMined(m, bombs, budget, placed, attempts, samples);
      } else {
        PlacedOnlyFromSamplesSkipped(m, bombs, budget, placed, attempts, samples);
      }
    }
  }

  /** The step of PlacedOnlyFromSamples that draws an already mined cell. */
  lemma {:induction false} PlacedOnlyFromSamplesSkipped(m: Model, bombs: int, budget: nat, placed: nat, attempts: nat, samples: seq<Pos>)
    requires WellFormed(m)
    requires placed < bombs && attempts < budget <= |samples|
    requires forall k :: 0 <= k < |samples| ==> 0 <= samples[k].column < m.width && 0 <= samples[k].row < m.height
    requires m.cells[samples[attempts].column][samples[attempts].row].hasMine
    ensures var r := PlaceFrom(m, bombs, budget, placed, attempts, samples);
      forall i, j :: 0 <= i < m.width && 0 <= j < m.height && r.model.cells[i][j].hasMine && !m.cells[i][j].hasMine ==>
        Pos(i, j) in samples[attempts..r.attempts]
    decreases budget - attempts, 0
  {
    PlacedOnlyFromSamples(m, bombs, budget, placed, attempts + 1, samples);
    var r := PlaceFrom(m, bombs, budget, placed, attempts + 1, samples);
    assert PlaceFrom(m, bombs, budget, placed, attempts, samples) == r;
    SliceGrows(samples, attempts, r.attempts);
  }

  lemma SliceGrows(samples: seq<Pos>, a: nat, b: nat)
    requires a < b <= |samples|
    ensures forall p :: p in samples[a + 1..b] ==> p in samples[a..b]
  {
    assert samples[a..b] == [samples[a]] + samples[a + 1..b];
  }

  /** The step of PlacedOnlyFromSamples that mines the sampled cell. */
  lemma {:induction false} PlacedOnlyFromSamplesMined(m: Model, bombs: int, budget: nat, placed: nat, attempts: nat, samples: seq<Pos>)
    requires WellFormed(m)
    requires placed < bombs && attempts < budget <= |samples|
    requires forall k :: 0 <= k < |samples| ==> 0 <= samples[k].column < m.width && 0 <= samples[k].row < m.height
    requires !m.cells[samples[attempts].column][samples[attempts].row].hasMine
    ensures var r := PlaceFrom(m, bombs, budget, placed, attempts, samples);
      forall i, j :: 0 <= i < m.width && 0 <= j < m.height && r.model.cells[i][j].hasMine && !m.cells[i][j].hasMine ==>
        Pos(i, j) in samples[attempts..r.attempts]
    decreases budget - attempts, 0
  {
    var s := samples[attempts];
    var cell := m.cells[s.column][s.row];
    var m1 := SetCell(m, s.column, s.row, cell.(hasMine := true));
    PlacedOnlyFromSamples(m1, bombs, budget, placed + 1, attempts + 1, samples);
    var r := PlaceFrom(m1, bombs, budget, placed + 1, attempts + 1, samples);
    assert samples[attempts..r.attempts] == [s] + samples[attempts + 1..r.attempts];
  }

  /** setMines: rejects a negative count or more mines than cells; otherwise
      draws up to bombs * 10 samples, mining each sampled cell that is not mined
      yet, until `bombs` mines were added. Existing mines stay; only hasMine
      changes; when fewer than `bombs` were added the whole budget was used. */
  function SetMines(m: Model, bombs: int, samples: seq<Pos>): (r: Result<Placement>)
    requires WellFormed(m)
    requires SamplesFit(m.width, m.height, bombs, samples)
    ensures r.Err? <==> bombs < 0 || bombs > m.width * m.height
    ensures r.Err? ==> r.error == BadMineCount
    ensures r.Ok? ==> MinesAdded(m, r.value.model)
    ensures r.Ok? ==> r.value.placed <= bombs && r.value.placed <= r.value.attempts <= bombs * 10
    ensures r.Ok? && r.value.placed < bombs ==> r.value.attempts == bombs * 10
    ensures r.Ok? ==> MineCount(r.value.model) == MineCount(m) + r.value.placed
    ensures r.Ok? ==> forall k :: 0 <= k < r.value.attempts ==>
      r.value.model.cells[samples[k].column][samples[k].row].hasMine
    ensures r.Ok? ==> forall i, j :: 0 <= i < m.width && 0 <= j < m.height && r.value.model.cells[i][j].hasMine && !m.cells[i][j].hasMine ==>
      Pos(i, j) in samples[..r.value.attempts]
  {
    if bombs < 0 || bombs > m.width * m.height then Err(BadMineCount)
    else
      PlacedOnlyFromSamples(m, bombs, bombs * 10, 0, 0, samples);
      Ok(PlaceFrom(m, bombs, bombs * 10, 0, 0, samples))
  }

  // ---------------------------------------------------------------------------
  // Neighbour counts (modelploce.js:64-89)

  function MineAt(m: Model, column: int, row: int): nat
    requires WellFormed(m)
  {
    if IsValidPosition(m, column, row) && m.cells[column][row].hasMine then 1 else 0
  }

  /** The number of mined cells among the up to eight cells around a valid
      position (positions off the board count nothing; the cell itself is not
      among them); zero for a position off the board. */
  function BombsAround(m: Model, column: int, row: int): (n: nat)
    requires WellFormed(m)
    ensures n <= 8
  {
    if !IsValidPosition(m, column, row) then 0
    else (
        MineAt(m, column - 1, row - 1) + MineAt(m, column - 1, row) + MineAt(m, column - 1, row + 1)
      + MineAt(m, column, row - 1) + MineAt(m, column, row + 1)
      + MineAt(m, column + 1, row - 1) + MineAt(m, column + 1, row) + MineAt(m, column + 1, row + 1))
  }

  /** Every cell's stored count is the number of mines around it. */
  ghost predicate NeighboursAccurate(m: Model)
    requires WellFormed(m)
  {
    forall i, j :: 0 <= i < m.width && 0 <= j < m.height ==> m.cells[i][j].neighbors == BombsAround(m, i, j)
  }

  /** Neighbour counts depend on the mines only. */
  lemma BombsAroundFrame(m: Model, m': Model)
    requires SameMines(m, m')
    ensures forall c, r :: BombsAround(m', c, r) == BombsAround(m, c, r)
  {
    forall c, r ensures BombsAround(m', c, r) == BombsAround(m, c, r) {
      forall i, j ensures MineAt(m', i, j) == MineAt(m, i, j) {
        if IsValidPosition(m, i, j) {
          assert m'.cells[i][j].hasMine == m.cells[i][j].hasMine;
        }
      }
    }
  }

  /** A zero count means no mined neighbour. */
  lemma ZeroMeansNoMineAround(m: Model, column: int, row: int, i: int, j: int)
    requires WellFormed(m) && IsValidPosition(m, column, row) && IsValidPosition(m, i, j)
    requires BombsAround(m, column, row) == 0
    requires column - 1 <= i <= column + 1 && row - 1 <= j <= row + 1 && !(i == column && j == row)
    ensures !m.cells[i][j].hasMine
  {
    assert MineAt(m, i, j) == 0;
  }

  /** The loop body's contribution: a mined cell at (i, j) other than the centre. */
  function Hit(m: Model, column: int, row: int, i: int, j: int): nat
    requires WellFormed(m)
  {
    if i == column && j == row then 0 else MineAt(m, i, j)
  }

  /** Hits in column i over rows [lo, hi). */
  function ColumnHits(m: Model, column: int, row: int, i: int, lo: int, hi: int): nat
    requires WellFormed(m)
    decreases hi - lo
  {
    if hi <= lo then 0 else ColumnHits(m, column, row, i, lo, hi - 1) + Hit(m, column, row, i, hi - 1)
  }

  /** Hits over columns [ilo, ihi) and rows [lo, hi). */
  function BlockHits(m: Model, column: int, row: int, ilo: int, ihi: int, lo: int, hi: int): nat
    requires WellFormed(m)
    decreases ihi - ilo
  {
    if ihi <= ilo then 0 else BlockHits(m, column, row, ilo, ihi - 1, lo, hi) + ColumnHits(m, column, row, ihi - 1, lo, hi)
  }

  /** The clipped row range of getBombsAround's inner loop (modelploce.js:79-82) covers the three rows
      around `row` except those off the board, which hold no mine. */
  lemma ClippedColumn(m: Model, column: int, row: int, i: int)
    requires WellFormed(m) && 0 <= row < m.height
    ensures ColumnHits(m, column, row, i, Max(0, row - 1), Min(m.height - 1, row + 1) + 1)
         == Hit(m, column, row, i, row - 1) + Hit(m, column, row, i, row) + Hit(m, column, row, i, row + 1)
  {
    var lo, hi := Max(0, row - 1), Min(m.height - 1, row + 1) + 1;
    if row + 1 < m.height {
      assert hi == row + 2;
      assert ColumnHits(m, column, row, i, lo, row + 2) == ColumnHits(m, column, row, i, lo, row + 1) + Hit(m, column, row, i, row + 1);
    } else {
      assert hi == row + 1;
      assert Hit(m, column, row, i, row + 1) == 0;
    }
    assert ColumnHits(m, column, row, i, lo, row + 1) == ColumnHits(m, column, row, i, lo, row) + Hit(m, column, row, i, row);
    if row > 0 {
      assert ColumnHits(m, column, row, i, row - 1, row) == Hit(m, column, row, i, row - 1);
    } else {
      assert Hit(m, column, row, i, row - 1) == 0;
      assert ColumnHits(m, column, row, i, lo, row) == 0;
    }
  }

  /** getBombsAround's clipped double loop (modelploce.js:78-83) adds up exactly BombsAround. */
  lemma ClippedBlock(m: Model, column: int, row: int)
    requires WellFormed(m) && IsValidPosition(m, column, row)
    ensures BlockHits(m, column, row, Max(0, column - 1), Min(m.width - 1, column + 1) + 1,
                      Max(0, row - 1), Min(m.height - 1, row + 1) + 1)
         == BombsAround(m, column, row)
  {
    var lo, hi := Max(0, row - 1), Min(m.height - 1, row + 1) + 1;
    var ilo, ihi := Max(0, column - 1), Min(m.width - 1, column + 1) + 1;
    ClippedColumn(m, column, row, column - 1);
    ClippedColumn(m, column, row, column);
    ClippedColumn(m, column, row, column + 1);
    if column + 1 < m.width {
      assert ihi == column + 2;
      assert BlockHits(m, column, row, ilo, column + 2, lo, hi)
          == BlockHits(m, column, row, ilo, column + 1, lo, hi) + ColumnHits(m, column, row, column + 1, lo, hi);
    } else {
      assert ihi == column + 1;
    }
    assert BlockHits(m, column, row, ilo, column + 1, lo, hi)
        == BlockHits(m, column, row, ilo, column, lo, hi) + ColumnHits(m, column, row, column, lo, hi);
    if column > 0 {
      assert BlockHits(m, column, row, column - 1, column, lo, hi) == ColumnHits(m, column, row, column - 1, lo, hi);
    } else {
      assert BlockHits(m, column, row, ilo, column, lo, hi) == 0;
    }
  }

  /** getBombsAround, with its clipped double loop (modelploce.js:72-85). */
  method GetBombsAround(m: Model, column: int, row: int) returns (bombs: int)
    requires WellFormed(m)
    ensures bombs == BombsAround(m, column, row)
    ensures 0 <= bombs <= 8
    ensures !IsValidPosition(m, column, row) ==> bombs == 0
  {
    if !IsValidPosition(m, column, row) {
      return 0;
    }
    bombs := 0;
    var iLo, iHi := Max(0, column - 1), Min(m.width - 1, column + 1);
    var jLo, jHi := Max(0, row - 1), Min(m.height - 1, row + 1);
    var i := iLo;
    while i <= iHi
      invariant iLo <= i <= iHi + 1
      invariant bombs == BlockHits(m, column, row, iLo, i, jLo, jHi + 1)
    {
      var j := jLo;
      while j <= jHi
        invariant jLo <= j <= jHi + 1
        invariant bombs == BlockHits(m, column, row, iLo, i, jLo, jHi + 1) + ColumnHits(m, column, row, i, jLo, j)
      {
        if !(i == column && j == row) && m.cells[i][j].hasMine {
          bombs := bombs + 1;
        }
        j := j + 1;
      }
      i := i + 1;
    }
    ClippedBlock(m, column, row);
  }

  /** findNeighbors: stores BombsAround in every cell; nothing else changes. */
  function FindNeighbors(m: Model): (r: Model)
    requires WellFormed(m)
    ensures Framed(m, r) && r.openedCount == m.openedCount
    ensures forall i, j :: 0 <= i < m.width && 0 <= j < m.height ==>
      r.cells[i][j] == m.cells[i][j].(neighbors := r.cells[i][j].neighbors)
    ensures NeighboursAccurate(r)
  {
    var r := m.(cells := seq(m.width, i requires 0 <= i < m.width =>
      seq(m.height, j requires 0 <= j < m.height => m.cells[i][j].(neighbors := BombsAround(m, i, j)))));
    BombsAroundFrame(m, r);
    r
  }

  // ---------------------------------------------------------------------------
  // Opening (modelploce.js:91-123)

  /** m' is m with some closed, unflagged cells opened and nothing else changed. */
  ghost predicate OnlyOpens(m: Model, m': Model)
    requires Framed(m, m')
  {
    forall i, j :: 0 <= i < m.width && 0 <= j < m.height ==>
      && m'.cells[i][j] == m.cells[i][j].(isOpen := m'.cells[i][j].isOpen)
      && (m.cells[i][j].isOpen ==> m'.cells[i][j].isOpen)
      && (m'.cells[i][j].isOpen && !m.cells[i][j].isOpen ==> !m.cells[i][j].hasFlag)
  }

  /** e reports a cell that was closed in m and is open in m', as listeners see it. */
  ghost predicate NewlyOpened(m: Model, m': Model, e: CellOpened)
    requires Framed(m, m')
  {
    && IsValidPosition(m, e.column, e.row)
    && !m.cells[e.column][e.row].isOpen
    && m'.cells[e.column][e.row].isOpen
    && e.cell == m'.cells[e.column][e.row]
    && m.openedCount < e.openedCount <= m'.openedCount
  }

  /** Each event reports a newly opened cell, no cell twice, and the counter the
      listeners see never goes down from one event to the next. */
  ghost predicate Reported(m: Model, m': Model, evs: seq<CellOpened>)
    requires Framed(m, m')
  {
    && (forall k :: 0 <= k < |evs| ==> NewlyOpened(m, m', evs[k]))
    && (forall k, l :: 0 <= k < l < |evs| ==> PosOf(evs[k]) != PosOf(evs[l]))
    && (forall k, l :: 0 <= k < l < |evs| ==> evs[k].openedCount <= evs[l].openedCount)
  }

  /** The effect of opening: cells open, each newly opened cell raises
      openedCount by one and is reported by exactly one event. */
  ghost predicate Step(m: Model, m': Model, evs: seq<CellOpened>) {
    && Framed(m, m')
    && OnlyOpens(m, m')
    && m'.openedCount - m.openedCount == ClosedCount(m) - ClosedCount(m')
    && |evs| == ClosedCount(m) - ClosedCount(m')
    && Reported(m, m', evs)
  }

  /** Every open cell or flag around (column, row), itself included. */
  ghost predicate Surrounded(m: Model, column: int, row: int)
    requires WellFormed(m)
  {
    forall i, j :: column - 1 <= i <= column + 1 && row - 1 <= j <= row + 1 && IsValidPosition(m, i, j) ==>
      m.cells[i][j].isOpen || m.cells[i][j].hasFlag
  }

  /** Every safe zero-count cell opened between m and m' has all its unflagged
      neighbours open in m': the flood fill does not stop at a zero cell. */
  ghost predicate Flooded(m: Model, m': Model)
    requires Framed(m, m')
  {
    forall i, j ::
      (&& 0 <= i < m.width && 0 <= j < m.height
       && !m.cells[i][j].isOpen && m'.cells[i][j].isOpen
       && !m.cells[i][j].hasMine && m.cells[i][j].neighbors == 0)
      ==> Surrounded(m', i, j)
  }

  lemma StepRefl(m: Model)
    requires WellFormed(m)
    ensures Step(m, m, []) && Flooded(m, m)
  {
  }

  lemma StepTrans(m: Model, m': Model, m'': Model, e1: seq<CellOpened>, e2: seq<CellOpened>)
    requires Step(m, m', e1) && Step(m', m'', e2)
    requires Flooded(m, m') && Flooded(m', m'')
    ensures Step(m, m'', e1 + e2) && Flooded(m, m'')
  {
    var evs := e1 + e2;
    forall k | 0 <= k < |evs| ensures NewlyOpened(m, m'', evs[k]) {
      if k < |e1| {
        assert NewlyOpened(m, m', e1[k]);
      } else {
        assert NewlyOpened(m', m'', e2[k - |e1|]);
      }
    }
    forall k, l | 0 <= k < l < |evs| ensures PosOf(evs[k]) != PosOf(evs[l]) && evs[k].openedCount <= evs[l].openedCount {
      if l >= |e1| && k < |e1| {
        assert NewlyOpened(m, m', e1[k]);
        assert NewlyOpened(m', m'', e2[l - |e1|]);
      } else if k >= |e1| {
        assert e2[k - |e1|] == evs[k] && e2[l - |e1|] == evs[l];
      }
    }
    forall i, j | 0 <= i < m.width && 0 <= j < m.height && !m.cells[i][j].isOpen && m''.cells[i][j].isOpen
      && !m.cells[i][j].hasMine && m.cells[i][j].neighbors == 0
      ensures Surrounded(m'', i, j)
    {
      if m'.cells[i][j].isOpen {
        assert Surrounded(m', i, j);
      }
    }
  }

  /** The board right after (column, row) itself opens, before any cascade. */
  function OpenedCell(m: Model, column: int, row: int): (m1: Model)
    requires WellFormed(m) && IsValidPosition(m, column, row) && !m.cells[column][row].isOpen
    ensures WellFormed(m1) && ClosedCount(m1) < ClosedCount(m)
  {
    CountUpdate(m.cells, column, row, m.cells[column][row].(isOpen := true), Closed);
    SetCell(m, column, row, m.cells[column][row].(isOpen := true)).(openedCount := m.openedCount + 1)
  }

  /** Opening (column, row) in m gave m1; what happens afterwards (m1 to m2)
      plus the cell's own event, reported last, is one Step from m. */
  lemma StepOpenCell(m: Model, column: int, row: int, m1: Model, m2: Model, evs: seq<CellOpened>)
    requires WellFormed(m) && IsValidPosition(m, column, row)
    requires !m.cells[column][row].isOpen && !m.cells[column][row].hasFlag
    requires m1 == OpenedCell(m, column, row)
    requires Step(m1, m2, evs) && Flooded(m1, m2)
    requires !m.cells[column][row].hasMine && m.cells[column][row].neighbors == 0 ==> Surrounded(m2, column, row)
    ensures Step(m, m2, evs + [CellOpened(column, row, m2.cells[column][row], m2.openedCount)])
    ensures Flooded(m, m2)
  {
    CountUpdate(m.cells, column, row, m.cells[column][row].(isOpen := true), Closed);
    var own := CellOpened(column, row, m2.cells[column][row], m2.openedCount);
    var all := evs + [own];
    forall k | 0 <= k < |all| ensures NewlyOpened(m, m2, all[k]) {
      if k < |evs| {
        assert NewlyOpened(m1, m2, evs[k]);
      }
    }
    forall k, l | 0 <= k < l < |all| ensures PosOf(all[k]) != PosOf(all[l]) && all[k].openedCount <= all[l].openedCount {
      if l < |evs| {
        assert all[k] == evs[k] && all[l] == evs[l];
      } else {
        assert NewlyOpened(m1, m2, evs[k]);
      }
    }
  }

  /** The positions openNeighbors (modelploce.js:116-123) visits, in its loop order: the
      clipped 3 x 3 block around (column, row) without the centre. */
  function NeighbourList(m: Model, column: int, row: int): (ps: seq<Pos>)
    ensures forall q :: q in ps <==>
      IsValidPosition(m, q.column, q.row) && column - 1 <= q.column <= column + 1 && row - 1 <= q.row <= row + 1
      && q != Pos(column, row)
    ensures Ascending(ps)
  {
    ColumnsFrom(column, row, Max(0, column - 1), Min(m.width - 1, column + 1), Max(0, row - 1), Min(m.height - 1, row + 1))
  }

  function ColumnsFrom(column: int, row: int, i: int, iHi: int, jLo: int, jHi: int): (ps: seq<Pos>)
    ensures forall q :: q in ps <==> i <= q.column <= iHi && jLo <= q.row <= jHi && q != Pos(column, row)
    ensures Ascending(ps)
    decreases iHi - i + 1
  {
    if i > iHi then [] else RowsFrom(column, row, i, jLo, jHi) + ColumnsFrom(column, row, i + 1, iHi, jLo, jHi)
  }

  function RowsFrom(column: int, row: int, i: int, j: int, jHi: int): (ps: seq<Pos>)
    ensures forall q :: q in ps <==> q.column == i && j <= q.row <= jHi && q != Pos(column, row)
    ensures Ascending(ps)
    decreases jHi - j + 1
  {
    if j > jHi then []
    else (if i == column && j == row then [] else [Pos(i, j)]) + RowsFrom(column, row, i, j + 1, jHi)
  }

  /** open: a no-op off the board or on an open or flagged cell. Otherwise the
      cell opens and openedCount goes up by one; a mined cell reports itself and
      stops; a cell with no mined neighbour first opens its neighbours; the
      cell's own event comes last. */
  function Open(m: Model, column: int, row: int): (r: Opening)
    requires WellFormed(m)
    ensures Step(m, r.model, r.events) && Flooded(m, r.model)
    ensures !IsValidPosition(m, column, row) || m.cells[column][row].isOpen || m.cells[column][row].hasFlag
      ==> r == Opening(m, [])
    ensures IsValidPosition(m, column, row) ==> r.model.cells[column][row].isOpen || r.model.cells[column][row].hasFlag
    ensures IsValidPosition(m, column, row) && !m.cells[column][row].isOpen && !m.cells[column][row].hasFlag ==>
      && |r.events| >= 1
      && r.events[|r.events| - 1] == CellOpened(column, row, r.model.cells[column][row], r.model.openedCount)
    ensures (IsValidPosition(m, column, row) && !m.cells[column][row].isOpen && !m.cells[column][row].hasFlag
      && (m.cells[column][row].hasMine || m.cells[column][row].neighbors != 0)) ==>
      && r.model == OpenedCell(m, column, row)
      && |r.events| == 1
    decreases ClosedCount(m), 0
  {
    if !IsValidPosition(m, column, row) then
      StepRefl(m); Opening(m, [])
    else
      var cell := m.cells[column][row];
      if cell.isOpen || cell.hasFlag then
        StepRefl(m); Opening(m, [])
      else
        var m1 := OpenedCell(m, column, row);
        if !cell.hasMine && cell.neighbors == 0 then
          var rest := OpenNeighbors(m1, column, row);
          StepOpenCell(m, column, row, m1, rest.model, rest.events);
          Opening(rest.model, rest.events + [CellOpened(column, row, rest.model.cells[column][row], rest.model.openedCount)])
        else
          StepRefl(m1);
          StepOpenCell(m, column, row, m1, m1, []);
          Opening(m1, [CellOpened(column, row, m1.cells[column][row], m1.openedCount)])
  }

  /** openNeighbors: opens every position around (column, row), in loop order. */
  function OpenNeighbors(m: Model, column: int, row: int): (r: Opening)
    requires WellFormed(m)
    ensures Step(m, r.model, r.events) && Flooded(m, r.model)
    ensures forall i, j ::
      (column - 1 <= i <= column + 1 && row - 1 <= j <= row + 1 && IsValidPosition(m, i, j) && !(i == column && j == row))
      ==> r.model.cells[i][j].isOpen || r.model.cells[i][j].hasFlag
    decreases ClosedCount(m), 2
  {
    var r := OpenEach(m, NeighbourList(m, column, row));
    NeighboursCovered(m, column, row, r.model);
    r
  }

  /** What leaves every listed neighbour open or flagged leaves every
      neighbour so. */
  lemma NeighboursCovered(m: Model, column: int, row: int, m': Model)
    requires Framed(m, m')
    requires forall q :: q in NeighbourList(m, column, row) && IsValidPosition(m, q.column, q.row) ==>
      m'.cells[q.column][q.row].isOpen || m'.cells[q.column][q.row].hasFlag
    ensures forall i, j ::
      (column - 1 <= i <= column + 1 && row - 1 <= j <= row + 1 && IsValidPosition(m, i, j) && !(i == column && j == row))
      ==> m'.cells[i][j].isOpen || m'.cells[i][j].hasFlag
  {
    var ps := NeighbourList(m, column, row);
    assert forall i, j ::
      (column - 1 <= i <= column + 1 && row - 1 <= j <= row + 1 && IsValidPosition(m, i, j) && !(i == column && j == row))
      ==> Pos(i, j) in ps;
  }

  /** Opens the positions of ps one after the other. */
  function OpenEach(m: Model, ps: seq<Pos>): (r: Opening)
    requires WellFormed(m)
    ensures Step(m, r.model, r.events) && Flooded(m, r.model)
    ensures forall q :: q in ps && IsValidPosition(m, q.column, q.row) ==>
      r.model.cells[q.column][q.row].isOpen || r.model.cells[q.column][q.row].hasFlag
    decreases ClosedCount(m), 1, |ps|
  {
    if |ps| == 0 then
      StepRefl(m); Opening(m, [])
    else
      var first := Open(m, ps[0].column, ps[0].row);
      var rest := OpenEach(first.model, ps[1..]);
      StepTrans(m, first.model, rest.model, first.events, rest.events);
      assert forall q :: q in ps ==> q == ps[0] || q in ps[1..];
      Opening(rest.model, first.events + rest.events)
  }

  /** Opening keeps the board invariant, the exact opened count, and the
      neighbour counts accurate: only isOpen changes. */
  lemma StepKeepsInvariants(m: Model, m': Model, evs: seq<CellOpened>)
    requires Step(m, m', evs)
    ensures Inv(m) ==> Inv(m')
    ensures Counted(m) ==> Counted(m')
    ensures NeighboursAccurate(m) ==> NeighboursAccurate(m')
    ensures MineCount(m') == MineCount(m)
  {
    assert SameMines(m, m');
    BombsAroundFrame(m, m');
    CountLe(m.cells, Mined, m'.cells, Mined);
    CountLe(m'.cells, Mined, m.cells, Mined);
  }

  /** Each cell opens at most once: opening the same position again does nothing
      and reports nothing. */
  lemma OpenTwiceIsNoOp(m: Model, column: int, row: int)
    requires WellFormed(m)
    ensures Open(Open(m, column, row).model, column, row) == Opening(Open(m, column, row).model, [])
  {
  }

  /** No mine is open in m' that was closed in m. */
  ghost predicate OpensNoMine(m: Model, m': Model)
    requires Framed(m, m')
  {
    forall i, j :: 0 <= i < m.width && 0 <= j < m.height && m'.cells[i][j].isOpen && m'.cells[i][j].hasMine ==>
      m.cells[i][j].isOpen
  }

  /** With accurate counts, opening a position that holds no mine never opens a
      mine: the cascade only passes through cells with no mined neighbour, so
      no mine is reported and no mine ends up open. */
  lemma {:induction false} SafeOpenOpensNoMine(m: Model, column: int, row: int)
    requires WellFormed(m) && NeighboursAccurate(m)
    requires IsValidPosition(m, column, row) ==> !m.cells[column][row].hasMine
    ensures forall k :: 0 <= k < |Open(m, column, row).events| ==> !Open(m, column, row).events[k].cell.hasMine
    ensures OpensNoMine(m, Open(m, column, row).model)
    decreases ClosedCount(m), 1
  {
    if IsValidPosition(m, column, row) && !m.cells[column][row].isOpen && !m.cells[column][row].hasFlag {
      if m.cells[column][row].neighbors == 0 {
        SafeZeroOpensNoMine(m, column, row);
      } else {
        OpenLeafUnfolds(m, column, row);
      }
    }
  }

  /** The cascading case of SafeOpenOpensNoMine. */
  lemma {:induction false} SafeZeroOpensNoMine(m: Model, column: int, row: int)
    requires WellFormed(m) && NeighboursAccurate(m) && IsValidPosition(m, column, row)
    requires !m.cells[column][row].isOpen && !m.cells[column][row].hasFlag
    requires !m.cells[column][row].hasMine && m.cells[column][row].neighbors == 0
    ensures forall k :: 0 <= k < |Open(m, column, row).events| ==> !Open(m, column, row).events[k].cell.hasMine
    ensures OpensNoMine(m, Open(m, column, row).model)
    decreases ClosedCount(m), 0
  {
    var m1 := OpenedCell(m, column, row);
    var ps := NeighbourList(m1, column, row);
    NeighbourListSafe(m, m1, column, row);
    SafeEachOpensNoMine(m1, ps);
    OpenZeroUnfolds(m, column, row);
    var rest := OpenEach(m1, ps);
    OpenedSafeCell(m, column, row);
    assert SameMines(m1, rest.model);
    OpensNoMineTrans(m, m1, rest.model);
  }

  /** Opening one safe cell by hand opens no mine. */
  lemma OpenedSafeCell(m: Model, column: int, row: int)
    requires WellFormed(m) && IsValidPosition(m, column, row)
    requires !m.cells[column][row].isOpen && !m.cells[column][row].hasMine
    ensures SameMines(m, OpenedCell(m, column, row)) && OpensNoMine(m, OpenedCell(m, column, row))
  {
    var m1 := OpenedCell(m, column, row);
    forall i, j | 0 <= i < m.width && 0 <= j < m.height && m1.cells[i][j].isOpen && m1.cells[i][j].hasMine
      ensures m.cells[i][j].isOpen
    {
      if i != column || j != row {
        assert m1.cells[i][j] == m.cells[i][j];
      }
    }
  }

  lemma OpensNoMineTrans(m: Model, m1: Model, m2: Model)
    requires SameMines(m, m1) && SameMines(m1, m2)
    requires OpensNoMine(m, m1) && OpensNoMine(m1, m2)
    ensures Framed(m, m2) && OpensNoMine(m, m2)
  {
  }

  lemma OpenZeroUnfolds(m: Model, column: int, row: int)
    requires WellFormed(m) && IsValidPosition(m, column, row)
    requires !m.cells[column][row].isOpen && !m.cells[column][row].hasFlag
    requires !m.cells[column][row].hasMine && m.cells[column][row].neighbors == 0
    ensures var rest := OpenEach(OpenedCell(m, column, row), NeighbourList(OpenedCell(m, column, row), column, row));
      && Open(m, column, row).model == rest.model
      && Open(m, column, row).events
        == rest.events + [CellOpened(column, row, rest.model.cells[column][row], rest.model.openedCount)]
  {
    var m1 := OpenedCell(m, column, row);
    assert OpenNeighbors(m1, column, row) == OpenEach(m1, NeighbourList(m1, column, row));
  }

  lemma OpenLeafUnfolds(m: Model, column: int, row: int)
    requires WellFormed(m) && IsValidPosition(m, column, row)
    requires !m.cells[column][row].isOpen && !m.cells[column][row].hasFlag
    requires m.cells[column][row].hasMine || m.cells[column][row].neighbors != 0
    ensures Open(m, column, row).events == [CellOpened(column, row, m.cells[column][row].(isOpen := true), m.openedCount + 1)]
  {
  }

  /** Around a safe cell whose accurate count is zero, every neighbour is safe. */
  lemma NeighbourListSafe(m: Model, m1: Model, column: int, row: int)
    requires WellFormed(m) && NeighboursAccurate(m) && IsValidPosition(m, column, row)
    requires !m.cells[column][row].isOpen && m.cells[column][row].neighbors == 0
    requires m1 == OpenedCell(m, column, row)
    ensures WellFormed(m1) && NeighboursAccurate(m1)
    ensures forall q :: q in NeighbourList(m1, column, row) && IsValidPosition(m1, q.column, q.row) ==>
      !m1.cells[q.column][q.row].hasMine
  {
    assert SameMines(m, m1);
    BombsAroundFrame(m, m1);
    forall i, j | 0 <= i < m1.width && 0 <= j < m1.height ensures m1.cells[i][j].neighbors == BombsAround(m1, i, j) {
      assert m1.cells[i][j].neighbors == m.cells[i][j].neighbors;
    }
    assert BombsAround(m, column, row) == 0;
    var ps := NeighbourList(m1, column, row);
    forall q | q in ps ensures IsValidPosition(m1, q.column, q.row) && !m1.cells[q.column][q.row].hasMine {
      ZeroMeansNoMineAround(m, column, row, q.column, q.row);
      assert m1.cells[q.column][q.row].hasMine == m.cells[q.column][q.row].hasMine;
    }
  }

  lemma {:induction false} SafeEachOpensNoMine(m: Model, ps: seq<Pos>)
    requires WellFormed(m) && NeighboursAccurate(m)
    requires forall q :: q in ps && IsValidPosition(m, q.column, q.row) ==> !m.cells[q.column][q.row].hasMine
    ensures forall k :: 0 <= k < |OpenEach(m, ps).events| ==> !OpenEach(m, ps).events[k].cell.hasMine
    ensures OpensNoMine(m, OpenEach(m, ps).model)
    decreases ClosedCount(m), 2, |ps|
  {
    if |ps| > 0 {
      var first := Open(m, ps[0].column, ps[0].row);
      var rest := OpenEach(first.model, ps[1..]);
      SafeOpenOpensNoMine(m, ps[0].column, ps[0].row);
      OpenEachUnfolds(m, ps);
      SafeTail(m, first.model, ps);
      SafeEachOpensNoMine(first.model, ps[1..]);
      SafeAppend(m, first, rest);
    }
  }

  /** What holds no mine in m holds none in a board with the same mines. */
  lemma SafeTail(m: Model, m': Model, ps: seq<Pos>)
    requires SameMines(m, m') && |ps| > 0
    requires forall q :: q in ps && IsValidPosition(m, q.column, q.row) ==> !m.cells[q.column][q.row].hasMine
    ensures forall q :: q in ps[1..] && IsValidPosition(m', q.column, q.row) ==> !m'.cells[q.column][q.row].hasMine
  {
    assert forall q :: q in ps[1..] ==> q in ps;
  }

  /** One step of OpenEach: the first position is opened, then the rest; mines
      stay where they are and neighbour counts stay accurate throughout. */
  lemma OpenEachUnfolds(m: Model, ps: seq<Pos>)
    requires WellFormed(m) && |ps| > 0
    ensures var first := Open(m, ps[0].column, ps[0].row);
      var rest := OpenEach(first.model, ps[1..]);
      && OpenEach(m, ps) == Opening(rest.model, first.events + rest.events)
      && SameMines(m, first.model) && SameMines(first.model, rest.model)
      && (NeighboursAccurate(m) ==> NeighboursAccurate(first.model))
  {
    var first := Open(m, ps[0].column, ps[0].row);
    var rest := OpenEach(first.model, ps[1..]);
    StepKeepsInvariants(m, first.model, first.events);
    assert SameMines(m, first.model) && SameMines(first.model, rest.model);
  }

  /** The last event, if any, carries the counter the opening ends with:
      nothing opens after it. */
  predicate EndsAtCount(r: Opening) {
    |r.events| > 0 ==> r.events[|r.events| - 1].openedCount == r.model.openedCount
  }

  /** A run of opens ends at its final count. */
  lemma {:induction false} OpenEachEndsAtCount(m: Model, ps: seq<Pos>)
    requires WellFormed(m)
    ensures EndsAtCount(OpenEach(m, ps))
    decreases |ps|
  {
    if |ps| > 0 {
      OpenEachUnfolds(m, ps);
      var first := Open(m, ps[0].column, ps[0].row);
      var rest := OpenEach(first.model, ps[1..]);
      OpenEachEndsAtCount(first.model, ps[1..]);
      OpenEndsAtCount(m, ps[0].column, ps[0].row);
      if |rest.events| == 0 {
        SilentStepKeepsCount(first.model, rest.model, rest.events);
      }
      EndsAtCountAppend(first, rest);
    }
  }

  lemma OpenEndsAtCount(m: Model, column: int, row: int)
    requires WellFormed(m)
    ensures EndsAtCount(Open(m, column, row))
  {
  }

  /** A step that reports nothing opens nothing. */
  lemma SilentStepKeepsCount(m: Model, m': Model, evs: seq<CellOpened>)
    requires Step(m, m', evs) && |evs| == 0
    ensures m'.openedCount == m.openedCount
  {
  }

  lemma EndsAtCountAppend(first: Opening, rest: Opening)
    requires EndsAtCount(first) && EndsAtCount(rest)
    requires |rest.events| == 0 ==> rest.model.openedCount == first.model.openedCount
    ensures EndsAtCount(Opening(rest.model, first.events + rest.events))
  {
    if |rest.events| == 0 {
      assert first.events + rest.events == first.events;
    }
  }

  /** The last two events, if there are two, both carry the counter the
      opening ends with. */
  predicate EndsTwiceAtCount(r: Opening) {
    |r.events| >= 2 ==>
      && r.events[|r.events| - 2].openedCount == r.model.openedCount
      && r.events[|r.events| - 1].openedCount == r.model.openedCount
  }

  /** Since each cell is reported after its own cascade, the last two events of
      an open both carry its final counter: the clicked cell's, and before it
      that of the last cell the cascade opened. Earlier events of the cascade
      can carry smaller values (`TripleClick`). */
  lemma CascadeEndsAtFinalCount(m: Model, column: int, row: int)
    requires WellFormed(m)
    ensures EndsTwiceAtCount(Open(m, column, row))
  {
    if IsValidPosition(m, column, row) && !m.cells[column][row].isOpen && !m.cells[column][row].hasFlag
      && !m.cells[column][row].hasMine && m.cells[column][row].neighbors == 0
    {
      var m1 := OpenedCell(m, column, row);
      var rest := OpenEach(m1, NeighbourList(m1, column, row));
      OpenZeroUnfolds(m, column, row);
      OpenEachEndsAtCount(m1, NeighbourList(m1, column, row));
      ClosingEventEndsTwice(rest, CellOpened(column, row, rest.model.cells[column][row], rest.model.openedCount));
    }
  }

  /** A run that ends at its count, closed by an event at that count. */
  lemma ClosingEventEndsTwice(rest: Opening, own: CellOpened)
    requires EndsAtCount(rest) && own.openedCount == rest.model.openedCount
    ensures EndsTwiceAtCount(Opening(rest.model, rest.events + [own]))
  {
    var evs := rest.events + [own];
    if |evs| >= 2 {
      assert evs[|evs| - 2] == rest.events[|rest.events| - 1];
    }
  }

  /** Two safe openings in a row make one. */
  lemma SafeAppend(m: Model, first: Opening, rest: Opening)
    requires SameMines(m, first.model) && SameMines(first.model, rest.model)
    requires OpensNoMine(m, first.model) && OpensNoMine(first.model, rest.model)
    requires forall k :: 0 <= k < |first.events| ==> !first.events[k].cell.hasMine
    requires forall k :: 0 <= k < |rest.events| ==> !rest.events[k].cell.hasMine
    ensures Framed(m, rest.model) && OpensNoMine(m, rest.model)
    ensures forall k :: 0 <= k < |first.events + rest.events| ==> !(first.events + rest.events)[k].cell.hasMine
  {
    OpensNoMineTrans(m, first.model, rest.model);
  }

  /** With accurate counts, a mine is only ever reported alone: when an open
      reports a mined cell, that is its only event and nothing cascaded. */
  lemma MineOpenIsAlone(m: Model, column: int, row: int)
    requires WellFormed(m) && NeighboursAccurate(m)
    ensures forall k :: 0 <= k < |Open(m, column, row).events| && Open(m, column, row).events[k].cell.hasMine ==>
      |Open(m, column, row).events| == 1
  {
    if !(IsValidPosition(m, column, row) && m.cells[column][row].hasMine) {
      SafeOpenOpensNoMine(m, column, row);
    }
  }

  /** f is a safe cell without mined neighbours next to e: the flood fill
      reached e from f. */
  ghost predicate SpreadsTo(f: CellOpened, e: CellOpened) {
    && -1 <= e.column - f.column <= 1 && -1 <= e.row - f.row <= 1
    && !f.cell.hasMine && f.cell.neighbors == 0
  }

  /** The k-th event was reached from a cell reported later in the trace: a
      cell's own event follows those of the neighbours it opened. */
  ghost predicate Reached(evs: seq<CellOpened>, k: int)
    requires 0 <= k < |evs|
  {
    exists l :: k < l < |evs| && SpreadsTo(evs[l], evs[k])
  }

  lemma ReachedPrefix(a: seq<CellOpened>, b: seq<CellOpened>, k: int)
    requires 0 <= k < |a| && Reached(a, k)
    ensures Reached(a + b, k)
  {
    var l :| k < l < |a| && SpreadsTo(a[l], a[k]);
    assert (a + b)[l] == a[l] && (a + b)[k] == a[k];
  }

  lemma ReachedSuffix(a: seq<CellOpened>, b: seq<CellOpened>, k: int)
    requires 0 <= k < |b| && Reached(b, k)
    ensures Reached(a + b, |a| + k)
  {
    var l :| k < l < |b| && SpreadsTo(b[l], b[k]);
    assert (a + b)[|a| + l] == b[l] && (a + b)[|a| + k] == b[k];
  }

  /** The flood fill opens nothing beyond the zero region and its border:
      every cell an open reports, except the clicked cell reported last, lies
      next to a safe cell without mined neighbours that the same open reports
      later. As each event reports one newly opened cell, following these
      links from any opened cell leads to the clicked one through zero cells. */
  lemma {:induction false} OpenSpreadsFromZeros(m: Model, column: int, row: int)
    requires WellFormed(m)
    ensures var evs := Open(m, column, row).events;
      forall k :: 0 <= k < |evs| - 1 ==> Reached(evs, k)
    decreases ClosedCount(m), 0
  {
    if IsValidPosition(m, column, row) && !m.cells[column][row].isOpen && !m.cells[column][row].hasFlag
      && !m.cells[column][row].hasMine && m.cells[column][row].neighbors == 0
    {
      var m1 := OpenedCell(m, column, row);
      var ps := NeighbourList(m1, column, row);
      var rest := OpenEach(m1, ps);
      OpenZeroUnfolds(m, column, row);
      OpenEachSpreadsFromZeros(m1, ps);
      var own := CellOpened(column, row, rest.model.cells[column][row], rest.model.openedCount);
      assert !own.cell.hasMine && own.cell.neighbors == 0;
      forall k | 0 <= k < |rest.events| ensures Reached(rest.events + [own], k) {
        if PosOf(rest.events[k]) in ps {
          assert SpreadsTo((rest.events + [own])[|rest.events|], (rest.events + [own])[k]);
        } else {
          ReachedPrefix(rest.events, [own], k);
        }
      }
    }
  }

  /** Opening positions in turn: every reported cell is one of the positions
      or was reached from a later reported zero cell. */
  lemma {:induction false} OpenEachSpreadsFromZeros(m: Model, ps: seq<Pos>)
    requires WellFormed(m)
    ensures var evs := OpenEach(m, ps).events;
      forall k :: 0 <= k < |evs| ==> PosOf(evs[k]) in ps || Reached(evs, k)
    decreases ClosedCount(m), 1, |ps|
  {
    if |ps| > 0 {
      var first := Open(m, ps[0].column, ps[0].row);
      var rest := OpenEach(first.model, ps[1..]);
      OpenEachUnfolds(m, ps);
      OpenSpreadsFromZeros(m, ps[0].column, ps[0].row);
      OpenEachSpreadsFromZeros(first.model, ps[1..]);
      assert |first.events| > 0 ==> PosOf(first.events[|first.events| - 1]) == ps[0];
      SpreadAppend(ps, first.events, rest.events);
    }
  }

  /** An open of the first position followed by the opens of the others. */
  lemma SpreadAppend(ps: seq<Pos>, a: seq<CellOpened>, b: seq<CellOpened>)
    requires |ps| > 0
    requires |a| > 0 ==> PosOf(a[|a| - 1]) == ps[0]
    requires forall k :: 0 <= k < |a| - 1 ==> Reached(a, k)
    requires forall k :: 0 <= k < |b| ==> PosOf(b[k]) in ps[1..] || Reached(b, k)
    ensures forall k :: 0 <= k < |a + b| ==> PosOf((a + b)[k]) in ps || Reached(a + b, k)
  {
    forall k | 0 <= k < |a + b| ensures PosOf((a + b)[k]) in ps || Reached(a + b, k) {
      if k == |a| - 1 {
        assert (a + b)[k] == a[k];
      } else if k < |a| {
        ReachedPrefix(a, b, k);
      } else if PosOf(b[k - |a|]) in ps[1..] {
        assert (a + b)[k] == b[k - |a|];
        assert forall q :: q in ps[1..] ==> q in ps;
      } else {
        ReachedSuffix(a, b, k - |a|);
      }
    }
  }

  // ---------------------------------------------------------------------------
  // Flags, reveal, access (modelploce.js:125-155)

  /** switchFlag: a no-op off the board or on an open cell; otherwise the flag
      flips, nothing else changes, and the new flag value is reported. */
  function SwitchFlag(m: Model, column: int, row: int): (r: Flagging)
    requires WellFormed(m)
    ensures Framed(m, r.model) && r.model.openedCount == m.openedCount
    ensures !IsValidPosition(m, column, row) || m.cells[column][row].isOpen ==> r == Flagging(m, [])
    ensures IsValidPosition(m, column, row) && !m.cells[column][row].isOpen ==>
      && r.model.cells[column][row] == m.cells[column][row].(hasFlag := !m.cells[column][row].hasFlag)
      && (forall i, j :: 0 <= i < m.width && 0 <= j < m.height && !(i == column && j == row) ==>
            r.model.cells[i][j] == m.cells[i][j])
      && r.events == [FlagSwitched(column, row, !m.cells[column][row].hasFlag)]
  {
    if !IsValidPosition(m, column, row) then Flagging(m, [])
    else
      var cell := m.cells[column][row];
      if cell.isOpen then Flagging(m, [])
      else
        var m1 := SetCell(m, column, row, cell.(hasFlag := !cell.hasFlag));
        Flagging(m1, [FlagSwitched(column, row, m1.cells[column][row].hasFlag)])
  }

  /** Switching a flag twice restores the board. */
  lemma SwitchFlagTwice(m: Model, column: int, row: int)
    requires WellFormed(m)
    ensures SwitchFlag(SwitchFlag(m, column, row).model, column, row).model == m
  {
    var m1 := SwitchFlag(m, column, row).model;
    var m2 := SwitchFlag(m1, column, row).model;
    if IsValidPosition(m, column, row) && !m.cells[column][row].isOpen {
      assert m2.cells[column] == m.cells[column];
      assert m2.cells == m.cells;
    }
  }

  /** A flagged cell cannot be opened until its flag is removed. */
  lemma FlagBlocksOpen(m: Model, column: int, row: int)
    requires WellFormed(m) && IsValidPosition(m, column, row)
    requires !m.cells[column][row].isOpen && !m.cells[column][row].hasFlag
    ensures Open(SwitchFlag(m, column, row).model, column, row) == Opening(SwitchFlag(m, column, row).model, [])
  {
  }

  /** Switching flags keeps every invariant: open cells never get a flag. */
  lemma SwitchFlagKeepsInvariants(m: Model, column: int, row: int)
    requires WellFormed(m)
    ensures Inv(m) ==> Inv(SwitchFlag(m, column, row).model)
    ensures Counted(m) ==> Counted(SwitchFlag(m, column, row).model)
    ensures NeighboursAccurate(m) ==> NeighboursAccurate(SwitchFlag(m, column, row).model)
  {
    var r := SwitchFlag(m, column, row).model;
    assert SameMines(m, r);
    BombsAroundFrame(m, r);
    assert Implies(m.cells, Closed, r.cells, Closed);
    assert Implies(r.cells, Closed, m.cells, Closed);
    CountLe(m.cells, Closed, r.cells, Closed);
    CountLe(r.cells, Closed, m.cells, Closed);
  }

  /** The loss-time reveal of one cell: a closed mine loses its flag and opens. */
  function Reveal(c: Cell): (r: Cell)
    ensures r.hasMine == c.hasMine && r.neighbors == c.neighbors
    ensures r.isOpen <==> c.isOpen || c.hasMine
    ensures r.hasFlag <==> c.hasFlag && (c.isOpen || !c.hasMine)
  {
    if c.hasMine && !c.isOpen then c.(hasFlag := false, isOpen := true) else c
  }

  /** Every cell of m revealed. */
  function RevealAll(m: Model): (r: Model)
    requires WellFormed(m)
    ensures Framed(m, r) && r.openedCount == m.openedCount
    ensures forall i, j :: 0 <= i < m.width && 0 <= j < m.height ==> r.cells[i][j] == Reveal(m.cells[i][j])
  {
    m.(cells := seq(m.width, i requires 0 <= i < m.width =>
      seq(m.height, j requires 0 <= j < m.height => Reveal(m.cells[i][j]))))
  }

  /** openAllMines: every closed mine is unflagged, opened and reported, in
      column-major order; other cells and openedCount stay as they are. */
  function OpenAllMines(m: Model): (r: Opening)
    requires WellFormed(m)
    ensures Framed(m, r.model) && r.model.openedCount == m.openedCount
    ensures forall i, j :: 0 <= i < m.width && 0 <= j < m.height && m.cells[i][j].hasMine ==>
      r.model.cells[i][j].isOpen
    ensures NoOpenFlagged(m) ==> forall i, j :: 0 <= i < m.width && 0 <= j < m.height && m.cells[i][j].hasMine ==>
      !r.model.cells[i][j].hasFlag
    ensures forall i, j :: 0 <= i < m.width && 0 <= j < m.height && !(m.cells[i][j].hasMine && !m.cells[i][j].isOpen) ==>
      r.model.cells[i][j] == m.cells[i][j]
    ensures forall i, j :: 0 <= i < m.width && 0 <= j < m.height && m.cells[i][j].hasMine && !m.cells[i][j].isOpen ==>
      r.model.cells[i][j] == m.cells[i][j].(isOpen := true, hasFlag := false)
    ensures |r.events| == Count(m.cells, ClosedMine)
    ensures Ascending(Positions(r.events))
    ensures forall q :: q in Positions(r.events) <==>
      IsValidPosition(m, q.column, q.row) && m.cells[q.column][q.row].hasMine && !m.cells[q.column][q.row].isOpen
    ensures forall k :: 0 <= k < |r.events| ==>
      && IsValidPosition(m, r.events[k].column, r.events[k].row)
      && r.events[k].cell == r.model.cells[r.events[k].column][r.events[k].row]
      && r.events[k].cell.hasMine
      && r.events[k].openedCount == m.openedCount
  {
    var revealed := RevealAll(m);
    Opening(revealed, RevealEvents(m, revealed))
  }

  /** The events of openAllMines: one per closed mine of m, in column-major
      order, each with its revealed cell and the unchanged counter. */
  function RevealEvents(m: Model, revealed: Model): (evs: seq<CellOpened>)
    requires WellFormed(m) && revealed == RevealAll(m)
    ensures |evs| == Count(m.cells, ClosedMine)
    ensures Ascending(Positions(evs))
    ensures forall q :: q in Positions(evs) <==>
      IsValidPosition(m, q.column, q.row) && m.cells[q.column][q.row].hasMine && !m.cells[q.column][q.row].isOpen
    ensures forall k :: 0 <= k < |evs| ==>
      && IsValidPosition(m, evs[k].column, evs[k].row)
      && evs[k].cell == revealed.cells[evs[k].column][evs[k].row]
      && evs[k].cell.hasMine
      && evs[k].openedCount == m.openedCount
  {
    var ps := Where(m.cells, 0, ClosedMine);
    assert forall k :: 0 <= k < |ps| ==> ps[k] in ps;
    var evs := seq(|ps|, k requires 0 <= k < |ps| =>
      CellOpened(ps[k].column, ps[k].row, revealed.cells[ps[k].column][ps[k].row], m.openedCount));
    assert Positions(evs) == ps;
    evs
  }

  /** Once no closed mine is left, openAllMines changes nothing and reports
      nothing; in particular right after an openAllMines. */
  lemma OpenAllMinesIdle(m: Model)
    requires WellFormed(m)
    ensures Count(OpenAllMines(m).model.cells, ClosedMine) == 0
    ensures Count(m.cells, ClosedMine) == 0 ==> OpenAllMines(m) == Opening(m, [])
  {
    var r := OpenAllMines(m).model;
    CountZero(r.cells, ClosedMine);
    if Count(m.cells, ClosedMine) == 0 {
      CountZero(m.cells, ClosedMine);
      assert forall i :: 0 <= i < m.width ==> r.cells[i] == m.cells[i];
      assert r.cells == m.cells;
    }
  }

  /** The reveal keeps the board invariant (it opens cells and removes their
      flags but leaves openedCount alone) and the neighbour counts. */
  lemma OpenAllMinesKeepsInvariants(m: Model)
    requires WellFormed(m)
    ensures Inv(m) ==> Inv(OpenAllMines(m).model)
    ensures NeighboursAccurate(m) ==> NeighboursAccurate(OpenAllMines(m).model)
  {
    var r := OpenAllMines(m).model;
    assert SameMines(m, r);
    BombsAroundFrame(m, r);
    assert Implies(r.cells, Closed, m.cells, Closed);
    CountLe(r.cells, Closed, m.cells, Closed);
  }

  /** getCell: null off the board, the cell otherwise. */
  function GetCell(m: Model, column: int, row: int): (r: Option<Cell>)
    requires WellFormed(m)
    ensures r.None? <==> !IsValidPosition(m, column, row)
    ensures r.Some? ==> r.value == m.cells[column][row]
  {
    if !IsValidPosition(m, column, row) then None else Some(m.cells[column][row])
  }

  /** Placing mines and computing counts leave open cells and flags alone, so
      they keep the board invariant. */
  lemma MinesAddedKeepsInvariants(m: Model, m': Model)
    requires MinesAdded(m, m')
    ensures Inv(m) ==> Inv(m')
    ensures Counted(m) ==> Counted(m')
  {
    assert Implies(m'.cells, Closed, m.cells, Closed);
    assert Implies(m.cells, Closed, m'.cells, Closed);
    CountLe(m'.cells, Closed, m.cells, Closed);
    CountLe(m.cells, Closed, m'.cells, Closed);
  }
}
