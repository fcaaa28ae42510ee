/** The cell buffer the simulation runs on: a row-major vector of booleans
    together with the grid's dimensions. Cell (x, y) lives at index
    y * width + x; `true` means alive.

    The products of a row count and the width are written as `Rows`, the
    number of cells in that many full rows, built up one row at a time;
    `RowsIsProduct` ties it to multiplication. */
module Grids {

  /** The number of cells in `rows` full rows of `width` cells. */
  function Rows(width: nat, rows: nat): nat
  {
    if rows == 0 then 0 else Rows(width, rows - 1) + width
  }

  /** `rows` full rows of `width` cells hold `rows * width` cells. */
  lemma {:induction false} RowsIsProduct(width: nat, rows: nat)
    ensures Rows(width, rows) == rows * width
  {
    if rows > 0 {
      RowsIsProduct(width, rows - 1);
    }
  }

  /** More rows hold at least as many cells, and each extra row adds
      `width` more. */
  lemma {:induction false} RowsMonotone(width: nat, a: nat, b: nat)
    requires a <= b
    ensures Rows(width, a) <= Rows(width, b)
    ensures a < b ==> Rows(width, a) + width <= Rows(width, b)
    decreases b
  {
    if a < b {
      RowsMonotone(width, a, b - 1);
    }
  }

  /** Rows of zero width hold no cells. */
  lemma {:induction false} RowsOfNothing(rows: nat)
    ensures Rows(0, rows) == 0
  {
    if rows > 0 {
      RowsOfNothing(rows - 1);
    }
  }

  /** A `width` x `height` grid stored row by row. */
  datatype Grid = Grid(cells: seq<bool>, width: nat, height: nat)
  {
    /** The shape invariant: one cell per coordinate pair. */
    predicate Valid() {
      |cells| == Rows(width, height)
    }
  }

  /** A new grid of the given dimensions with every cell dead. */
  function New(width: nat, height: nat): (g: Grid)
    ensures g.width == width && g.height == height
    ensures g.Valid()
    ensures forall k :: 0 <= k < |g.cells| ==> !g.cells[k]
  {
    Grid(seq(Rows(width, height), _ => false), width, height)
  }

  /** A new grid holds width * height cells. */
  lemma NewSize(width: nat, height: nat)
    ensures |New(width, height).cells| == width * height
  {
    RowsIsProduct(width, height);
  }

  /** Row-major position of cell (x, y) in a grid `width` cells wide: the
      cells of the `y` rows above it, then `x` more. */
  function Index(width: nat, x: nat, y: nat): nat
  {
    Rows(width, y) + x
  }

  /** The position is y * width + x. */
  lemma IndexIsProduct(width: nat, x: nat, y: nat)
    ensures Index(width, x, y) == y * width + x
  {
    RowsIsProduct(width, y);
  }

  /** The coordinates (column, row) of position `k`, found by walking down
      one row per `width` cells. */
  function Coords(width: nat, k: nat): (c: (nat, nat))
    requires width > 0
    ensures c.0 < width
    ensures Index(width, c.0, c.1) == k
    decreases k
  {
    if k < width then (k, 0)
    else
      var c := Coords(width, k - width);
      (c.0, c.1 + 1)
  }

  /** The coordinates are the remainder and quotient by the width, the
      decoding a renderer applies to a reported position. */
  lemma CoordsIsDivMod(width: nat, k: nat)
    requires width > 0
    ensures Coords(width, k) == (k % width, k / width)
  {
    var c := Coords(width, k);
    RowsIsProduct(width, k / width);
    SplitUnique(width, c.0, c.1, k % width, k / width);
  }

  /** For a column inside the grid, `Coords` undoes `Index`. */
  lemma CoordsOfIndex(width: nat, x: nat, y: nat)
    requires x < width
    ensures Coords(width, Index(width, x, y)) == (x, y)
  {
    var c := Coords(width, Index(width, x, y));
    SplitUnique(width, c.0, c.1, x, y);
  }

  /** An in-range coordinate pair has an in-bounds position. */
  lemma IndexInBounds(width: nat, height: nat, x: nat, y: nat)
    requires x < width && y < height
    ensures Index(width, x, y) < Rows(width, height)
  {
    RowsMonotone(width, y, height);
  }

  /** Every in-range coordinate pair of a well-formed grid addresses a
      cell inside its buffer. */
  lemma AllIndicesInBounds(g: Grid)
    requires g.Valid()
    ensures forall x: nat, y: nat :: x < g.width && y < g.height ==> Index(g.width, x, y) < |g.cells|
  {
    forall x: nat, y: nat | x < g.width && y < g.height
      ensures Index(g.width, x, y) < |g.cells|
    {
      IndexInBounds(g.width, g.height, x, y);
    }
  }

  /** Every in-bounds position has in-range coordinates and round-trips
      through them. */
  lemma IndexOfCoords(width: nat, height: nat, k: nat)
    requires k < Rows(width, height)
    ensures width > 0
    ensures Coords(width, k).0 < width && Coords(width, k).1 < height
    ensures Index(width, Coords(width, k).0, Coords(width, k).1) == k
  {
    if width == 0 {
      RowsOfNothing(height);
    } else if Coords(width, k).1 >= height {
      RowsMonotone(width, height, Coords(width, k).1);
    }
  }

  /** Distinct in-range coordinate pairs occupy distinct positions. */
  lemma IndexInjective(width: nat, x1: nat, y1: nat, x2: nat, y2: nat)
    requires x1 < width && x2 < width
    requires Index(width, x1, y1) == Index(width, x2, y2)
    ensures x1 == x2 && y1 == y2
  {
    SplitUnique(width, x1, y1, x2, y2);
  }

  /** Marks cell (x, y) alive. The source panics unless the computed
      position is inside the buffer, which is all it demands. */
  function SetIndex(g: Grid, x: nat, y: nat): (g': Grid)
    requires Index(g.width, x, y) < |g.cells|
    ensures g'.width == g.width && g'.height == g.height
    ensures |g'.cells| == |g.cells|
    ensures g'.cells[Index(g.width, x, y)]
    ensures forall k :: 0 <= k < |g.cells| && k != Index(g.width, x, y) ==>
              g'.cells[k] == g.cells[k]
  {
    g.(cells := g.cells[Index(g.width, x, y) := true])
  }

  /** Seeding the same cell twice is the same as seeding it once. */
  lemma SetIndexIdempotent(g: Grid, x: nat, y: nat)
    requires Index(g.width, x, y) < |g.cells|
    ensures SetIndex(SetIndex(g, x, y), x, y) == SetIndex(g, x, y)
  {
  }

  /** The order in which cells are seeded does not matter. */
  lemma SetIndexCommutes(g: Grid, x1: nat, y1: nat, x2: nat, y2: nat)
    requires Index(g.width, x1, y1) < |g.cells|
    requires Index(g.width, x2, y2) < |g.cells|
    ensures SetIndex(SetIndex(g, x1, y1), x2, y2) == SetIndex(SetIndex(g, x2, y2), x1, y1)
  {
  }

  /** A column below the width and a row are determined by their
      row-major position, given as `Index` or as a product. */
  lemma SplitUnique(width: nat, x1: nat, y1: nat, x2: nat, y2: nat)
    requires x1 < width && x2 < width
    requires Index(width, x1, y1) == Index(width, x2, y2) || y1 * width + x1 == y2 * width + x2
    ensures x1 == x2 && y1 == y2
  {
    RowsIsProduct(width, y1);
    RowsIsProduct(width, y2);
    if y1 < y2 {
      RowsMonotone(width, y1, y2);
    } else if y2 < y1 {
      RowsMonotone(width, y2, y1);
    }
  }
}
