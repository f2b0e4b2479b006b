/** The cloth topology that the simulation builds once at start-up: a row-major
    grid of particles whose top row is pinned, held together by structural
    (horizontal and vertical) distance constraints. Particles and constraints
    refer to one another by index into the particle vector. */
module ClothTopology {

  import opened Arith

  /** Grid dimensions the simulation is configured with. */
  const ROW: nat := 20
  const COL: nat := 30

  /** A distance constraint between the particles at indices `p1` and `p2`;
      `active` is cleared when the link is cut and such a link is no longer relaxed. */
  datatype Constraint = Constraint(p1: nat, p2: nat, active: bool)

  /** Index of the particle in row `row`, column `col` of a grid with `cols` columns. */
  function CellIndex(cols: nat, row: nat, col: nat): nat
  {
    row * cols + col
  }

  // ---------------------------------------------------------------------------
  // Arithmetic facts about row-major indices

  lemma CellIndexBounds(rows: nat, cols: nat, row: nat, col: nat)
    requires row < rows && col < cols
    ensures CellIndex(cols, row, col) < rows * cols
    ensures CellIndex(cols, row, col) / cols == row
    ensures CellIndex(cols, row, col) % cols == col
  {
    MulSucc(row, cols);
    MulMono(row + 1, rows, cols);
    DivModUnique(CellIndex(cols, row, col), cols, row, col);
  }

  /** A particle index below `rows * cols` has a row below `rows`. */
  lemma RowOfIndex(rows: nat, cols: nat, k: nat)
    requires 0 < cols && k < rows * cols
    ensures k / cols < rows
    ensures CellIndex(cols, k / cols, k % cols) == k
  {
    assert k == (k / cols) * cols + k % cols;
    MulStrict(k / cols, rows, cols);
  }

  // ---------------------------------------------------------------------------
  // Particles (pinned flags)

  /** Reference definition of the grid's pin flags: the particle at index `k` is
      pinned exactly when it is one of the first `cols` particles. */
  function PinFlags(rows: nat, cols: nat): seq<bool>
  {
    seq(rows * cols, k => k < cols)
  }

  /** The first `cols` indices are exactly the indices in row 0. */
  lemma TopRow(rows: nat, cols: nat, row: nat, col: nat)
    requires row < rows && col < cols
    ensures CellIndex(cols, row, col) < cols <==> row == 0
  {
    if row > 0 {
      MulMono(1, row, cols);
    }
  }

  /** Builds the particle grid row by row, pinning the particles of row 0; each
      particle is represented by its pinned flag. */
  method BuildParticles(rows: nat, cols: nat) returns (pinned: seq<bool>)
    ensures pinned == PinFlags(rows, cols)
  {
    pinned := [];
    var row: nat := 0;
    while row < rows
      invariant row <= rows
      invariant |pinned| == row * cols
      invariant forall k :: 0 <= k < |pinned| ==> pinned[k] == (k < cols)
    {
      var col: nat := 0;
      while col < cols
        invariant col <= cols
        invariant |pinned| == CellIndex(cols, row, col)
        invariant forall k :: 0 <= k < |pinned| ==> pinned[k] == (k < cols)
      {
        TopRow(rows, cols, row, col);
        pinned := pinned + [row == 0];
        col := col + 1;
      }
      assert (row + 1) * cols == row * cols + cols;
      row := row + 1;
    }
  }

  /** There are `rows * cols` particles and the one at (row, col) sits at index
      `row * cols + col` and is pinned exactly when `row == 0`. */
  lemma PinnedIffTopRow(rows: nat, cols: nat, row: nat, col: nat)
    requires row < rows && col < cols
    ensures |PinFlags(rows, cols)| == rows * cols
    ensures CellIndex(cols, row, col) < rows * cols
    ensures PinFlags(rows, cols)[CellIndex(cols, row, col)] <==> row == 0
  {
    CellIndexBounds(rows, cols, row, col);
    TopRow(rows, cols, row, col);
  }

  // ---------------------------------------------------------------------------
  // Constraints

  /** The links emitted for cell (row, col): its horizontal link to the right
      neighbour unless it is in the last column, then its vertical link to the
      neighbour below unless it is in the last row. */
  function CellLinks(rows: nat, cols: nat, row: nat, col: nat): seq<Constraint>
  {
    var k := CellIndex(cols, row, col);
    (if col + 1 < cols then [Constraint(k, k + 1, true)] else [])
    + (if row + 1 < rows then [Constraint(k, CellIndex(cols, row + 1, col), true)] else [])
  }

  /** The links of the first `n` cells of row `row`, in column order. */
  function RowLinks(rows: nat, cols: nat, row: nat, n: nat): seq<Constraint>
  {
    if n == 0 then [] else RowLinks(rows, cols, row, n - 1) + CellLinks(rows, cols, row, n - 1)
  }

  /** The links of the first `m` rows, in row order. */
  function GridLinks(rows: nat, cols: nat, m: nat): seq<Constraint>
  {
    if m == 0 then [] else GridLinks(rows, cols, m - 1) + RowLinks(rows, cols, m - 1, cols)
  }

  /** All links of a `rows` by `cols` grid, in emission order. */
  function Links(rows: nat, cols: nat): seq<Constraint>
  {
    GridLinks(rows, cols, rows)
  }

  /** Builds the constraint list by visiting the cells in row-major order. */
  method BuildConstraints(rows: nat, cols: nat) returns (cs: seq<Constraint>)
    ensures cs == Links(rows, cols)
  {
    cs := [];
    var row: nat := 0;
    while row < rows
      invariant row <= rows
      invariant cs == GridLinks(rows, cols, row)
    {
      var col: nat := 0;
      while col < cols
        invariant col <= cols
        invariant cs == GridLinks(rows, cols, row) + RowLinks(rows, cols, row, col)
      {
        var k := CellIndex(cols, row, col);
        ghost var before := cs;
        if col < cols - 1 {
          cs := cs + [Constraint(k, k + 1, true)];
        }
        if row < rows - 1 {
          cs := cs + [Constraint(k, CellIndex(cols, row + 1, col), true)];
        }
        assert cs == before + CellLinks(rows, cols, row, col);
        col := col + 1;
      }
      row := row + 1;
    }
  }

  // ---- how many links

  lemma {:induction false} RowLinksCount(rows: nat, cols: nat, row: nat, n: nat)
    requires row < rows && 0 < cols && n <= cols
    ensures |RowLinks(rows, cols, row, n)|
            == (if n < cols then n else cols - 1) + (if row + 1 < rows then n else 0)
  {
    if n > 0 {
      RowLinksCount(rows, cols, row, n - 1);
      assert |CellLinks(rows, cols, row, n - 1)|
             == (if n < cols then 1 else 0) + (if row + 1 < rows then 1 else 0);
      assert |RowLinks(rows, cols, row, n)|
             == |RowLinks(rows, cols, row, n - 1)| + |CellLinks(rows, cols, row, n - 1)|;
    }
  }

  lemma {:induction false} GridLinksCount(rows: nat, cols: nat, m: nat)
    requires 0 < rows && 0 < cols && m <= rows
    ensures |GridLinks(rows, cols, m)|
            == m * (cols - 1) + (if m < rows then m else rows - 1) * cols
  {
    if m > 0 {
      GridLinksCount(rows, cols, m - 1);
      RowLinksCount(rows, cols, m - 1, cols);
      assert m * (cols - 1) == (m - 1) * (cols - 1) + (cols - 1);
      assert m * cols == (m - 1) * cols + cols;
    }
  }

  /** A grid with at least one row and one column has `rows * (cols - 1)`
      horizontal and `(rows - 1) * cols` vertical links; an empty grid has none. */
  lemma ConstraintCount(rows: nat, cols: nat)
    ensures rows == 0 || cols == 0 ==> Links(rows, cols) == []
    ensures 0 < rows && 0 < cols ==>
              |Links(rows, cols)| == rows * (cols - 1) + (rows - 1) * cols
  {
    if cols == 0 {
      NoColumnsNoLinks(rows, rows);
    } else if rows > 0 {
      GridLinksCount(rows, cols, rows);
    }
  }

  lemma {:induction false} NoColumnsNoLinks(rows: nat, m: nat)
    ensures GridLinks(rows, 0, m) == []
  {
    if m > 0 {
      NoColumnsNoLinks(rows, m - 1);
    }
  }

  /** The configured 20 by 30 cloth has 600 particles and 1150 constraints. */
  lemma DefaultClothSize()
    ensures |PinFlags(ROW, COL)| == 600
    ensures |Links(ROW, COL)| == 1150
  {
    assert |PinFlags(ROW, COL)| == 600;
    ConstraintCount(ROW, COL);
  }

  // ---- which links

  /** `(a, b)` is a structural edge of the grid: a horizontal edge to the next
      particle in the same row, or a vertical edge to the particle one row below. */
  predicate IsStructural(rows: nat, cols: nat, a: nat, b: nat)
  {
    0 < cols && b < rows * cols
    && ((b == a + 1 && a / cols == b / cols) || b == a + cols)
  }

  lemma CellLinksStructural(rows: nat, cols: nat, row: nat, col: nat, i: nat)
    requires row < rows && col < cols && i < |CellLinks(rows, cols, row, col)|
    ensures var c := CellLinks(rows, cols, row, col)[i];
      c.active && c.p1 == CellIndex(cols, row, col) && IsStructural(rows, cols, c.p1, c.p2)
  {
    var k := CellIndex(cols, row, col);
    CellIndexBounds(rows, cols, row, col);
    if col + 1 < cols && i == 0 {
      CellIndexBounds(rows, cols, row, col + 1);
    } else {
      assert row + 1 < rows;
      assert CellLinks(rows, cols, row, col)[i] == Constraint(k, CellIndex(cols, row + 1, col), true);
      CellIndexBounds(rows, cols, row + 1, col);
    }
  }

  lemma {:induction false} RowLinksStructural(rows: nat, cols: nat, row: nat, n: nat, i: nat)
    requires row < rows && n <= cols && i < |RowLinks(rows, cols, row, n)|
    ensures var c := RowLinks(rows, cols, row, n)[i];
      c.active && IsStructural(rows, cols, c.p1, c.p2)
  {
    var prefix := RowLinks(rows, cols, row, n - 1);
    if i < |prefix| {
      RowLinksStructural(rows, cols, row, n - 1, i);
    } else {
      CellLinksStructural(rows, cols, row, n - 1, i - |prefix|);
    }
  }

  /** The links of the first `n` cells of a row start at one of those cells. */
  lemma {:induction false} RowLinksFrom(rows: nat, cols: nat, row: nat, n: nat, i: nat)
    requires i < |RowLinks(rows, cols, row, n)|
    ensures CellIndex(cols, row, 0) <= RowLinks(rows, cols, row, n)[i].p1 < CellIndex(cols, row, n)
  {
    var prefix := RowLinks(rows, cols, row, n - 1);
    if i < |prefix| {
      RowLinksFrom(rows, cols, row, n - 1, i);
    }
  }

  lemma {:induction false} GridLinksStructural(rows: nat, cols: nat, m: nat, i: nat)
    requires m <= rows && i < |GridLinks(rows, cols, m)|
    ensures var c := GridLinks(rows, cols, m)[i];
      c.active && IsStructural(rows, cols, c.p1, c.p2)
  {
    var prefix := GridLinks(rows, cols, m - 1);
    if i < |prefix| {
      GridLinksStructural(rows, cols, m - 1, i);
    } else {
      RowLinksStructural(rows, cols, m - 1, cols, i - |prefix|);
    }
  }

  /** The links of the first `m` rows start in those rows. */
  lemma {:induction false} GridLinksFrom(rows: nat, cols: nat, m: nat, i: nat)
    requires i < |GridLinks(rows, cols, m)|
    ensures GridLinks(rows, cols, m)[i].p1 < m * cols
  {
    var prefix := GridLinks(rows, cols, m - 1);
    if i < |prefix| {
      GridLinksFrom(rows, cols, m - 1, i);
      MulMono(m - 1, m, cols);
    } else {
      RowLinksFrom(rows, cols, m - 1, cols, i - |prefix|);
      MulSucc(m - 1, cols);
    }
  }

  /** The links of the first `m` cells of a row begin the links of the first `n >= m`. */
  lemma {:induction false} RowLinksPrefix(rows: nat, cols: nat, row: nat, m: nat, n: nat, i: nat)
    requires m <= n && i < |RowLinks(rows, cols, row, m)|
    ensures i < |RowLinks(rows, cols, row, n)| && RowLinks(rows, cols, row, n)[i] == RowLinks(rows, cols, row, m)[i]
  {
    if m < n {
      RowLinksPrefix(rows, cols, row, m, n - 1, i);
    }
  }

  /** The links of the first `m` rows begin the links of the first `n >= m`. */
  lemma {:induction false} GridLinksPrefix(rows: nat, cols: nat, m: nat, n: nat, i: nat)
    requires m <= n && i < |GridLinks(rows, cols, m)|
    ensures i < |GridLinks(rows, cols, n)| && GridLinks(rows, cols, n)[i] == GridLinks(rows, cols, m)[i]
  {
    if m < n {
      GridLinksPrefix(rows, cols, m, n - 1, i);
    }
  }

  /** Link `j` of cell (row, col) holds a place in the constraint list. */
  lemma CellLinkListed(rows: nat, cols: nat, row: nat, col: nat, j: nat)
    requires row < rows && col < cols && j < |CellLinks(rows, cols, row, col)|
    ensures CellLinks(rows, cols, row, col)[j] in Links(rows, cols)
  {
    var inRow := |RowLinks(rows, cols, row, col)| + j;
    assert RowLinks(rows, cols, row, col + 1)[inRow] == CellLinks(rows, cols, row, col)[j];
    RowLinksPrefix(rows, cols, row, col + 1, cols, inRow);
    var inGrid := |GridLinks(rows, cols, row)| + inRow;
    assert GridLinks(rows, cols, row + 1)[inGrid] == RowLinks(rows, cols, row, cols)[inRow];
    GridLinksPrefix(rows, cols, row + 1, rows, inGrid);
    assert Links(rows, cols)[inGrid] == CellLinks(rows, cols, row, col)[j];
  }

  /** A horizontal edge from a cell that is not in the last column is listed. */
  lemma HorizontalListed(rows: nat, cols: nat, row: nat, col: nat)
    requires row < rows && col + 1 < cols
    ensures var k := CellIndex(cols, row, col); Constraint(k, k + 1, true) in Links(rows, cols)
  {
    CellLinkListed(rows, cols, row, col, 0);
  }

  /** A vertical edge from a cell that is not in the last row is listed. */
  lemma VerticalListed(rows: nat, cols: nat, row: nat, col: nat)
    requires row + 1 < rows && col < cols
    ensures Constraint(CellIndex(cols, row, col), CellIndex(cols, row + 1, col), true) in Links(rows, cols)
  {
    CellLinkListed(rows, cols, row, col, |CellLinks(rows, cols, row, col)| - 1);
  }

  /** Every active structural edge is listed. */
  lemma StructuralListed(rows: nat, cols: nat, c: Constraint)
    requires c.active && IsStructural(rows, cols, c.p1, c.p2)
    ensures c in Links(rows, cols)
  {
    var a, b := c.p1, c.p2;
    var row, col := a / cols, a % cols;
    RowOfIndex(rows, cols, a);
    if b == a + 1 && a / cols == b / cols {
      RowOfIndex(rows, cols, b);
      assert b == CellIndex(cols, row, b % cols);
      HorizontalListed(rows, cols, row, col);
    } else {
      MulSucc(row, cols);
      assert b == CellIndex(cols, row + 1, col);
      MulStrict(row + 1, rows, cols);
      VerticalListed(rows, cols, row, col);
    }
  }

  /** The constraint list holds exactly the structural edges, every one of them
      active: edges join distinct particles below `rows * cols`, each horizontal
      edge stays inside one row and each vertical edge joins `k` and `k + cols`. */
  lemma LinksAreStructural(rows: nat, cols: nat, c: Constraint)
    ensures c in Links(rows, cols) <==> c.active && IsStructural(rows, cols, c.p1, c.p2)
    ensures c in Links(rows, cols) ==> c.p1 < c.p2 < rows * cols
  {
    if c in Links(rows, cols) {
      var i :| 0 <= i < |Links(rows, cols)| && Links(rows, cols)[i] == c;
      GridLinksStructural(rows, cols, rows, i);
    }
    if c.active && IsStructural(rows, cols, c.p1, c.p2) {
      StructuralListed(rows, cols, c);
    }
  }

  // ---- in which order

  /** `c` comes before `d` in lexicographic order of (first endpoint, second endpoint). */
  predicate Before(c: Constraint, d: Constraint)
  {
    c.p1 < d.p1 || (c.p1 == d.p1 && c.p2 < d.p2)
  }

  predicate StrictlyOrdered(cs: seq<Constraint>)
  {
    forall i, j :: 0 <= i < j < |cs| ==> Before(cs[i], cs[j])
  }

  lemma ConcatOrdered(xs: seq<Constraint>, ys: seq<Constraint>)
    requires StrictlyOrdered(xs) && StrictlyOrdered(ys)
    requires forall i, j :: 0 <= i < |xs| && 0 <= j < |ys| ==> Before(xs[i], ys[j])
    ensures StrictlyOrdered(xs + ys)
  {
    var zs := xs + ys;
    forall i, j | 0 <= i < j < |zs| ensures Before(zs[i], zs[j]) {
      if j < |xs| {
        assert Before(xs[i], xs[j]);
      } else if i >= |xs| {
        assert Before(ys[i - |xs|], ys[j - |xs|]);
      } else {
        assert Before(xs[i], ys[j - |xs|]);
      }
    }
  }

  /** Within one cell the horizontal link precedes the vertical one. */
  lemma CellLinksOrdered(rows: nat, cols: nat, row: nat, col: nat)
    ensures StrictlyOrdered(CellLinks(rows, cols, row, col))
  {
    assert CellIndex(cols, row + 1, col) == CellIndex(cols, row, col) + cols;
  }

  lemma {:induction false} RowLinksOrdered(rows: nat, cols: nat, row: nat, n: nat)
    requires row < rows && n <= cols
    ensures StrictlyOrdered(RowLinks(rows, cols, row, n))
  {
    if n > 0 {
      RowLinksOrdered(rows, cols, row, n - 1);
      var cell := CellLinks(rows, cols, row, n - 1);
      CellLinksOrdered(rows, cols, row, n - 1);
      var prefix := RowLinks(rows, cols, row, n - 1);
      forall i, j | 0 <= i < |prefix| && 0 <= j < |cell| ensures Before(prefix[i], cell[j]) {
        CellAfterRow(rows, cols, row, n - 1, i, j);
      }
      ConcatOrdered(prefix, cell);
    }
  }

  /** The links of cell (row, n) come after those of the cells before it in its row. */
  lemma CellAfterRow(rows: nat, cols: nat, row: nat, n: nat, i: nat, j: nat)
    requires row < rows && n < cols
    requires i < |RowLinks(rows, cols, row, n)| && j < |CellLinks(rows, cols, row, n)|
    ensures Before(RowLinks(rows, cols, row, n)[i], CellLinks(rows, cols, row, n)[j])
  {
    RowLinksFrom(rows, cols, row, n, i);
    CellLinksStructural(rows, cols, row, n, j);
  }

  /** The links of row `m` come after those of the rows above it. */
  lemma RowAfterGrid(rows: nat, cols: nat, m: nat, i: nat, j: nat)
    requires i < |GridLinks(rows, cols, m)| && j < |RowLinks(rows, cols, m, cols)|
    ensures Before(GridLinks(rows, cols, m)[i], RowLinks(rows, cols, m, cols)[j])
  {
    GridLinksFrom(rows, cols, m, i);
    RowLinksFrom(rows, cols, m, cols, j);
  }

  lemma {:induction false} GridLinksOrdered(rows: nat, cols: nat, m: nat)
    requires m <= rows
    ensures StrictlyOrdered(GridLinks(rows, cols, m))
  {
    if m > 0 {
      GridLinksOrdered(rows, cols, m - 1);
      RowLinksOrdered(rows, cols, m - 1, cols);
      var row := RowLinks(rows, cols, m - 1, cols);
      var prefix := GridLinks(rows, cols, m - 1);
      forall i, j | 0 <= i < |prefix| && 0 <= j < |row| ensures Before(prefix[i], row[j]) {
        RowAfterGrid(rows, cols, m - 1, i, j);
      }
      ConcatOrdered(prefix, row);
    }
  }

  /** Links are emitted in row-major order of their first endpoint, a cell's
      horizontal link before its vertical one; in particular no link is emitted twice. */
  lemma LinksOrdered(rows: nat, cols: nat)
    ensures StrictlyOrdered(Links(rows, cols))
  {
    GridLinksOrdered(rows, cols, rows);
  }
}
