/** Counting and listing the cells of a column-major grid that have a property.
    The board's invariants are stated with these counts: the number of closed
    cells (which every successful open lowers by one), the number of mines. */
module Grids {
  import opened Events

  /** A board position: column first, as the engine indexes its cells. */
  datatype Pos = Pos(column: int, row: int)

  /** p comes before q in column-major order: the order in which the engine's
      nested loops visit the grid, columns outside, rows inside. */
  predicate Before(p: Pos, q: Pos) {
    p.column < q.column || (p.column == q.column && p.row < q.row)
  }

  /** The positions are listed in column-major order, each once. */
  predicate Ascending(ps: seq<Pos>) {
    forall k, l :: 0 <= k < l < |ps| ==> Before(ps[k], ps[l])
  }

  /** A property of one cell. */
  datatype Prop = Mined | Safe | Opened | Closed | ClosedMine

  predicate Holds(p: Prop, c: Cell) {
    match p
    case Mined => c.hasMine
    case Safe => !c.hasMine
    case Opened => c.isOpen
    case Closed => !c.isOpen
    case ClosedMine => c.hasMine && !c.isOpen
  }

  function Ind(b: bool): nat {
    if b then 1 else 0
  }

  function CountColumn(col: seq<Cell>, p: Prop): (n: nat)
    ensures n <= |col|
  {
    if |col| == 0 then 0 else Ind(Holds(p, col[0])) + CountColumn(col[1..], p)
  }

  /** The number of cells of the grid satisfying p. */
  function Count(g: seq<seq<Cell>>, p: Prop): nat {
    if |g| == 0 then 0 else CountColumn(g[0], p) + Count(g[1..], p)
  }

  ghost predicate Rectangular(g: seq<seq<Cell>>, w: int, h: int) {
    |g| == w && forall i :: 0 <= i < |g| ==> |g[i]| == h
  }

  ghost predicate SameShape(g1: seq<seq<Cell>>, g2: seq<seq<Cell>>) {
    |g1| == |g2| && forall i :: 0 <= i < |g1| ==> |g1[i]| == |g2[i]|
  }

  /** Wherever p holds in g1, q holds at the same place in g2. */
  ghost predicate Implies(g1: seq<seq<Cell>>, p: Prop, g2: seq<seq<Cell>>, q: Prop) {
    && SameShape(g1, g2)
    && forall i, j :: 0 <= i < |g1| && 0 <= j < |g1[i]| ==> (Holds(p, g1[i][j]) ==> Holds(q, g2[i][j]))
  }

  lemma {:induction false} CountColumnFull(col: seq<Cell>, p: Prop)
    requires forall j :: 0 <= j < |col| ==> Holds(p, col[j])
    ensures CountColumn(col, p) == |col|
  {
    if |col| > 0 {
      CountColumnFull(col[1..], p);
    }
  }

  /** A grid where every cell has p counts all its cells. */
  lemma {:induction false} CountFull(g: seq<seq<Cell>>, w: nat, h: nat, p: Prop)
    requires Rectangular(g, w, h)
    requires forall i, j :: 0 <= i < |g| && 0 <= j < |g[i]| ==> Holds(p, g[i][j])
    ensures Count(g, p) == w * h
  {
    if w > 0 {
      CountColumnFull(g[0], p);
      CountFull(g[1..], w - 1, h, p);
      assert (w - 1) * h + h == w * h;
    }
  }

  lemma {:induction false} CountColumnLe(a: seq<Cell>, p: Prop, b: seq<Cell>, q: Prop)
    requires |a| == |b|
    requires forall j :: 0 <= j < |a| ==> (Holds(p, a[j]) ==> Holds(q, b[j]))
    ensures CountColumn(a, p) <= CountColumn(b, q)
    ensures CountColumn(a, p) == CountColumn(b, q) ==> forall j :: 0 <= j < |a| ==> (Holds(q, b[j]) ==> Holds(p, a[j]))
  {
    if |a| > 0 {
      CountColumnLe(a[1..], p, b[1..], q);
      if CountColumn(a, p) == CountColumn(b, q) {
        forall j | 0 <= j < |a| && Holds(q, b[j])
          ensures Holds(p, a[j])
        {
          if j > 0 {
            assert a[1..][j - 1] == a[j] && b[1..][j - 1] == b[j];
          }
        }
      }
    }
  }

  /** Counting is monotone under pointwise implication, and equal counts turn the
      implication into an equivalence. */
  lemma {:induction false} CountLe(g1: seq<seq<Cell>>, p: Prop, g2: seq<seq<Cell>>, q: Prop)
    requires Implies(g1, p, g2, q)
    ensures Count(g1, p) <= Count(g2, q)
    ensures Count(g1, p) == Count(g2, q) ==> Implies(g2, q, g1, p)
  {
    if |g1| > 0 {
      forall j | 0 <= j < |g1[0]|
        ensures Holds(p, g1[0][j]) ==> Holds(q, g2[0][j])
      {
      }
      CountColumnLe(g1[0], p, g2[0], q);
      assert Implies(g1[1..], p, g2[1..], q) by {
        forall i, j | 0 <= i < |g1[1..]| && 0 <= j < |g1[1..][i]|
          ensures Holds(p, g1[1..][i][j]) ==> Holds(q, g2[1..][i][j])
        {
          assert g1[1..][i] == g1[i + 1] && g2[1..][i] == g2[i + 1];
        }
      }
      CountLe(g1[1..], p, g2[1..], q);
      if Count(g1, p) == Count(g2, q) {
        forall i, j | 0 <= i < |g2| && 0 <= j < |g2[i]|
          ensures Holds(q, g2[i][j]) ==> Holds(p, g1[i][j])
        {
          if i > 0 {
            assert g1[1..][i - 1] == g1[i] && g2[1..][i - 1] == g2[i];
          }
        }
      }
    }
  }

  lemma {:induction false} CountColumnUpdate(col: seq<Cell>, j: nat, x: Cell, p: Prop)
    requires j < |col|
    ensures CountColumn(col[j := x], p) + Ind(Holds(p, col[j])) == CountColumn(col, p) + Ind(Holds(p, x))
  {
    if j > 0 {
      assert col[j := x][1..] == col[1..][j - 1 := x];
      CountColumnUpdate(col[1..], j - 1, x, p);
    } else {
      assert col[j := x][1..] == col[1..];
    }
  }

  /** Replacing one cell changes a count by at most that one cell's contribution. */
  lemma {:induction false} CountUpdate(g: seq<seq<Cell>>, i: nat, j: nat, x: Cell, p: Prop)
    requires i < |g| && j < |g[i]|
    ensures Count(g[i := g[i][j := x]], p) + Ind(Holds(p, g[i][j])) == Count(g, p) + Ind(Holds(p, x))
  {
    if i > 0 {
      assert g[i := g[i][j := x]][1..] == g[1..][i - 1 := g[1..][i - 1][j := x]];
      CountUpdate(g[1..], i - 1, j, x, p);
    } else {
      assert g[i := g[i][j := x]][1..] == g[1..];
      CountColumnUpdate(g[0], j, x, p);
    }
  }

  lemma {:induction false} CountColumnSplit(col: seq<Cell>, p: Prop, q: Prop)
    requires forall c: Cell :: Holds(q, c) == !Holds(p, c)
    ensures CountColumn(col, p) + CountColumn(col, q) == |col|
  {
    if |col| > 0 {
      CountColumnSplit(col[1..], p, q);
    }
  }

  /** Complementary properties split the grid between them. */
  lemma {:induction false} CountSplit(g: seq<seq<Cell>>, w: nat, h: nat, p: Prop, q: Prop)
    requires Rectangular(g, w, h)
    requires forall c: Cell :: Holds(q, c) == !Holds(p, c)
    ensures Count(g, p) + Count(g, q) == w * h
  {
    if w > 0 {
      CountColumnSplit(g[0], p, q);
      CountSplit(g[1..], w - 1, h, p, q);
      assert (w - 1) * h + h == w * h;
    }
  }

  /** The positions in column i, starting at row j, whose cell has p, top to bottom. */
  function ColumnWhere(col: seq<Cell>, i: int, j: int, p: Prop): (ps: seq<Pos>)
    ensures |ps| == CountColumn(col, p)
    ensures forall q :: q in ps <==> q.column == i && j <= q.row < j + |col| && Holds(p, col[q.row - j])
    ensures Ascending(ps)
    decreases |col|
  {
    if |col| == 0 then []
    else
      var rest := ColumnWhere(col[1..], i, j + 1, p);
      (if Holds(p, col[0]) then [Pos(i, j)] else []) + rest
  }

  /** The positions of the grid (first column numbered i) whose cell has p, in
      column-major order. */
  function Where(g: seq<seq<Cell>>, i: int, p: Prop): (ps: seq<Pos>)
    ensures |ps| == Count(g, p)
    ensures forall q :: q in ps <==>
      i <= q.column < i + |g| && 0 <= q.row < |g[q.column - i]| && Holds(p, g[q.column - i][q.row])
    ensures Ascending(ps)
    decreases |g|
  {
    if |g| == 0 then []
    else
      var rest := Where(g[1..], i + 1, p);
      ColumnWhere(g[0], i, 0, p) + rest
  }

  lemma {:induction false} CountColumnZero(col: seq<Cell>, p: Prop)
    ensures CountColumn(col, p) == 0 <==> forall j :: 0 <= j < |col| ==> !Holds(p, col[j])
  {
    if |col| > 0 {
      CountColumnZero(col[1..], p);
      assert forall j :: 1 <= j < |col| ==> col[1..][j - 1] == col[j];
    }
  }

  /** A count is zero exactly when no cell has the property. */
  lemma {:induction false} CountZero(g: seq<seq<Cell>>, p: Prop)
    ensures Count(g, p) == 0 <==> forall i, j :: 0 <= i < |g| && 0 <= j < |g[i]| ==> !Holds(p, g[i][j])
  {
    if |g| > 0 {
      CountColumnZero(g[0], p);
      CountZero(g[1..], p);
      assert forall i :: 1 <= i < |g| ==> g[1..][i - 1] == g[i];
    }
  }
}
