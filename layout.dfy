/** The grid of heads `createGrid` lays over the viewport. */
module Layout {
  import opened Geometry
  import opened Heads

  /** Smallest distance between neighbouring grid cells. */
  const GRID_SPACING: real := 80.0
  /** The head density the spacing formula aims at (heads per viewport). */
  const MAX_HEADS: nat := 100

  /** A viewport together with the spacing and the column and row counts
      `createGrid` derives from it. */
  datatype Grid = Grid(width: real, height: real, spacing: real, cols: nat, rows: nat)

  /** n is `Math.ceil(extent / spacing)`. */
  predicate IsCeiling(n: nat, extent: real, spacing: real) {
    (n as real - 1.0) * spacing < extent <= n as real * spacing
  }

  /** The spacing is `Math.max(GRID_SPACING, Math.sqrt(width * height / MAX_HEADS))`,
      stated through its square. */
  predicate IsSpacing(g: Grid) {
    var minSquare := g.width * g.height / MAX_HEADS as real;
    && g.spacing >= GRID_SPACING
    && g.spacing * g.spacing >= minSquare
    && (g.spacing == GRID_SPACING || g.spacing * g.spacing == minSquare)
  }

  /** The quantities are those `createGrid` computes for the viewport. */
  predicate WellFormed(g: Grid) {
    && 0.0 <= g.width && 0.0 <= g.height
    && IsSpacing(g)
    && IsCeiling(g.cols, g.width, g.spacing)
    && IsCeiling(g.rows, g.height, g.spacing)
  }

  /** Left edge of column 0: centres the block of columns, then centres a
      head within its cell. */
  function OffsetX(g: Grid): real {
    (g.width - g.cols as real * g.spacing) / 2.0 + g.spacing / 2.0 - HEAD_SIZE / 2.0
  }

  function OffsetY(g: Grid): real {
    (g.height - g.rows as real * g.spacing) / 2.0 + g.spacing / 2.0 - HEAD_SIZE / 2.0
  }

  function CellX(g: Grid, c: nat): real {
    OffsetX(g) + c as real * g.spacing
  }

  function CellY(g: Grid, r: nat): real {
    OffsetY(g) + r as real * g.spacing
  }

  /** The filter a cell must pass to receive a head. */
  predicate InView(g: Grid, x: real, y: real) {
    x > -g.spacing && x < g.width && y > -g.spacing && y < g.height
  }

  /** The heads the inner loop pushes for columns 0 .. c-1 of row r. */
  function RowHeads(g: Grid, r: nat, c: nat): seq<Head> {
    if c == 0 then []
    else
      var x, y := CellX(g, c - 1), CellY(g, r);
      RowHeads(g, r, c - 1) + (if InView(g, x, y) then [NewHead(x, y)] else [])
  }

  /** The heads the nested loops push for rows 0 .. r-1, row by row. */
  function GridHeads(g: Grid, r: nat): seq<Head> {
    if r == 0 then [] else GridHeads(g, r - 1) + RowHeads(g, r - 1, g.cols)
  }

  /** What every laid-out head satisfies: it passed the view filter, it is
      at home and it has the standard size. */
  predicate LaidOut(g: Grid, h: Head) {
    && -g.spacing < h.x < g.width && -g.spacing < h.y < g.height
    && h.baseX == h.x && h.baseY == h.y && h.size == HEAD_SIZE
  }

  lemma {:induction false} RowHeadsShape(g: Grid, r: nat, c: nat)
    ensures |RowHeads(g, r, c)| <= c
    ensures forall h :: h in RowHeads(g, r, c) ==> LaidOut(g, h)
  {
    if c > 0 {
      RowHeadsShape(g, r, c - 1);
    }
  }

  /** The first r rows hold at most r * cols heads, each laid out. */
  lemma {:induction false} GridHeadsShape(g: Grid, r: nat)
    ensures |GridHeads(g, r)| <= r * g.cols
    ensures forall h :: h in GridHeads(g, r) ==> LaidOut(g, h)
  {
    if r > 0 {
      GridHeadsShape(g, r - 1);
      RowHeadsShape(g, r - 1, g.cols);
      assert (r - 1) * g.cols + g.cols == r * g.cols;
    }
  }

  lemma NonNegProduct(a: real, b: real)
    requires 0.0 <= a && 0.0 <= b
    ensures 0.0 <= a * b
  {
  }

  /** With ceiling column and row counts, every cell's head has its centre
      strictly inside the viewport along x. */
  lemma CellCentreInsideX(g: Grid, c: nat)
    requires WellFormed(g) && c < g.cols
    ensures 0.0 < CellX(g, c) + HEAD_SIZE / 2.0 < g.width
  {
    var n, s := g.cols as real, g.spacing;
    assert c as real <= n - 1.0;
    NonNegProduct(n - 1.0 - c as real, s);
    assert (n - 1.0 - c as real) * s == (n - 1.0) * s - c as real * s;
    assert (n - 1.0) * s == n * s - s;
    assert (n - 1.0) * s < g.width <= n * s;
    assert CellX(g, c) == (g.width - n * s) / 2.0 + s / 2.0 - HEAD_SIZE / 2.0 + c as real * s;
  }

  lemma CellCentreInsideY(g: Grid, r: nat)
    requires WellFormed(g) && r < g.rows
    ensures 0.0 < CellY(g, r) + HEAD_SIZE / 2.0 < g.height
  {
    var n, s := g.rows as real, g.spacing;
    assert r as real <= n - 1.0;
    NonNegProduct(n - 1.0 - r as real, s);
    assert (n - 1.0 - r as real) * s == (n - 1.0) * s - r as real * s;
    assert (n - 1.0) * s == n * s - s;
    assert (n - 1.0) * s < g.height <= n * s;
    assert CellY(g, r) == (g.height - n * s) / 2.0 + s / 2.0 - HEAD_SIZE / 2.0 + r as real * s;
  }

  /** The centre of a head lies strictly inside the viewport. */
  predicate CentredInView(g: Grid, h: Head) {
    0.0 < Centre(h).x < g.width && 0.0 < Centre(h).y < g.height
  }

  lemma {:induction false} RowKeepsEveryCell(g: Grid, r: nat, c: nat)
    requires WellFormed(g) && r < g.rows && c <= g.cols
    ensures |RowHeads(g, r, c)| == c
    ensures forall h :: h in RowHeads(g, r, c) ==> CentredInView(g, h)
  {
    if c > 0 {
      RowKeepsEveryCell(g, r, c - 1);
      CellCentreInsideX(g, c - 1);
      CellCentreInsideY(g, r);
    }
  }

  /** The view filter of `createGrid` never drops a cell: the grid holds
      exactly rows * cols heads, and every head's centre is inside the viewport. */
  lemma {:induction false} GridKeepsEveryCell(g: Grid, r: nat)
    requires WellFormed(g) && r <= g.rows
    ensures |GridHeads(g, r)| == r * g.cols
    ensures forall h :: h in GridHeads(g, r) ==> CentredInView(g, h)
  {
    if r > 0 {
      GridKeepsEveryCell(g, r - 1);
      RowKeepsEveryCell(g, r - 1, g.cols);
      assert (r - 1) * g.cols + g.cols == r * g.cols;
    }
  }

  /** An 800 x 600 viewport keeps the base spacing of 80 and gets a 10 x 8 grid of 80 heads. */
  lemma Grid800By600()
    ensures var g := Grid(800.0, 600.0, 80.0, 10, 8);
      WellFormed(g) && |GridHeads(g, g.rows)| == 80
  {
    GridKeepsEveryCell(Grid(800.0, 600.0, 80.0, 10, 8), 8);
  }

  /** MAX_HEADS is not a bound on the head count: a 1250 x 800 viewport has
      spacing exactly 100 (its square is 1250 * 800 / 100) and a 13 x 8 grid of 104 heads. */
  lemma GridCanExceedMaxHeads()
    ensures var g := Grid(1250.0, 800.0, 100.0, 13, 8);
      WellFormed(g) && |GridHeads(g, g.rows)| == 104 > MAX_HEADS
  {
    GridKeepsEveryCell(Grid(1250.0, 800.0, 100.0, 13, 8), 8);
  }
}
