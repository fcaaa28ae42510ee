/** Conway's Game of Life on a torus, as a pure function of the grid: the
    wrap-around neighbour addressing, the eight-lookup neighbour count, the
    birth/survival rule, the next generation and the list of cells that
    change between two generations. */
module Life {
  import opened Grids

  /** The coordinate before `c` on an axis of `size` cells, wrapping from
      the first cell to the last (the source's `left` and `up`). */
  function Prev(c: nat, size: nat): (r: nat)
    requires c < size
    ensures r < size
  {
    if c == 0 then size - 1 else c - 1
  }

  /** The coordinate after `c` on an axis of `size` cells, wrapping from
      the last cell to the first (the source's `right` and `down`). */
  function Succ(c: nat, size: nat): (r: nat)
    requires c < size
    ensures r < size
  {
    if c == size - 1 then 0 else c + 1
  }

  /** Stepping forward then back along an axis returns to the start, and
      the reverse; so each cell has exactly one predecessor and successor. */
  lemma PrevSuccInverse(c: nat, size: nat)
    requires c < size
    ensures Prev(Succ(c, size), size) == c
    ensures Succ(Prev(c, size), size) == c
  {
  }

  /** Whether cell (x, y) of a well-formed grid is alive. */
  function Alive(g: Grid, x: nat, y: nat): bool
    requires g.Valid() && x < g.width && y < g.height
  {
    IndexInBounds(g.width, g.height, x, y);
    g.cells[Index(g.width, x, y)]
  }

  /** A cell's contribution to a neighbour count (the source's `as u8`):
      one for a live cell, zero for a dead one. */
  function Bit(b: bool): (r: nat)
    ensures r <= 1 && (r == 1 <==> b)
  {
    if b then 1 else 0
  }

  /** The eight cells the source reads for cell (x, y), in the order it
      adds them: the row above (left, centre, right), the left and right
      sides, the row below. On a grid one cell wide (or high) some of them
      coincide, and the cell itself may be among them. */
  function Lookups(g: Grid, x: nat, y: nat): (ps: seq<(nat, nat)>)
    requires x < g.width && y < g.height
    ensures |ps| == 8
    ensures forall i :: 0 <= i < |ps| ==> ps[i].0 < g.width && ps[i].1 < g.height
  {
    var left, right := Prev(x, g.width), Succ(x, g.width);
    var up, down := Prev(y, g.height), Succ(y, g.height);
    [(left, up), (x, up), (right, up), (left, y), (right, y), (left, down), (x, down), (right, down)]
  }

  /** How many of the listed cells are alive; a cell listed twice is
      counted twice. */
  function LiveAmong(g: Grid, ps: seq<(nat, nat)>): (n: nat)
    requires g.Valid()
    requires forall i :: 0 <= i < |ps| ==> ps[i].0 < g.width && ps[i].1 < g.height
    ensures n <= |ps|
  {
    if ps == [] then 0
    else Bit(Alive(g, ps[0].0, ps[0].1)) + LiveAmong(g, ps[1..])
  }

  /** The neighbour count of cell (x, y): the sum of the eight lookups. */
  function Count(g: Grid, x: nat, y: nat): (n: nat)
    requires g.Valid() && x < g.width && y < g.height
    ensures n <= 8
  {
    LiveAmong(g, Lookups(g, x, y))
  }

  /** The count written out as the source's literal sum of eight lookups. */
  lemma CountUnfold(g: Grid, x: nat, y: nat)
    requires g.Valid() && x < g.width && y < g.height
    ensures
      var left, right := Prev(x, g.width), Succ(x, g.width);
      var up, down := Prev(y, g.height), Succ(y, g.height);
      Count(g, x, y) ==
        Bit(Alive(g, left, up)) + Bit(Alive(g, x, up)) + Bit(Alive(g, right, up))
        + Bit(Alive(g, left, y)) + Bit(Alive(g, right, y))
        + Bit(Alive(g, left, down)) + Bit(Alive(g, x, down)) + Bit(Alive(g, right, down))
  {
    LiveAmongEight(g, Lookups(g, x, y));
  }

  /** The live count of eight listed cells, written out term by term. */
  lemma LiveAmongEight(g: Grid, ps: seq<(nat, nat)>)
    requires g.Valid() && |ps| == 8
    requires forall i :: 0 <= i < |ps| ==> ps[i].0 < g.width && ps[i].1 < g.height
    ensures LiveAmong(g, ps) ==
              Bit(Alive(g, ps[0].0, ps[0].1)) + Bit(Alive(g, ps[1].0, ps[1].1))
              + Bit(Alive(g, ps[2].0, ps[2].1)) + Bit(Alive(g, ps[3].0, ps[3].1))
              + Bit(Alive(g, ps[4].0, ps[4].1)) + Bit(Alive(g, ps[5].0, ps[5].1))
              + Bit(Alive(g, ps[6].0, ps[6].1)) + Bit(Alive(g, ps[7].0, ps[7].1))
  {
    assert ps[8..] == [];
    assert ps[7..][1..] == ps[8..];
    assert ps[6..][1..] == ps[7..];
    assert ps[5..][1..] == ps[6..];
    assert ps[4..][1..] == ps[5..];
    assert ps[3..][1..] == ps[4..];
    assert ps[2..][1..] == ps[3..];
    assert ps[1..][1..] == ps[2..];
    assert LiveAmong(g, ps[7..]) == Bit(Alive(g, ps[7].0, ps[7].1));
    assert LiveAmong(g, ps[6..]) == Bit(Alive(g, ps[6].0, ps[6].1)) + LiveAmong(g, ps[7..]);
    assert LiveAmong(g, ps[5..]) == Bit(Alive(g, ps[5].0, ps[5].1)) + LiveAmong(g, ps[6..]);
    assert LiveAmong(g, ps[4..]) == Bit(Alive(g, ps[4].0, ps[4].1)) + LiveAmong(g, ps[5..]);
    assert LiveAmong(g, ps[3..]) == Bit(Alive(g, ps[3].0, ps[3].1)) + LiveAmong(g, ps[4..]);
    assert LiveAmong(g, ps[2..]) == Bit(Alive(g, ps[2].0, ps[2].1)) + LiveAmong(g, ps[3..]);
    assert LiveAmong(g, ps[1..]) == Bit(Alive(g, ps[1].0, ps[1].1)) + LiveAmong(g, ps[2..]);
  }

  /** The eight offsets of the Moore neighbourhood, in lookup order. */
  const Offsets: seq<(int, int)> :=
    [(-1, -1), (0, -1), (1, -1), (-1, 0), (1, 0), (-1, 1), (0, 1), (1, 1)]

  /** The source's edge tests address exactly the torus neighbourhood: the
      i-th lookup is the cell at the i-th offset, reduced modulo the grid's
      dimensions. Every lookup is therefore inside the grid. */
  lemma LookupsAreTorusNeighbours(g: Grid, x: nat, y: nat)
    requires x < g.width && y < g.height
    ensures forall i :: 0 <= i < 8 ==>
              Lookups(g, x, y)[i] == ((x + Offsets[i].0) % g.width, (y + Offsets[i].1) % g.height)
  {
    WrapSteps(x, g.width);
    WrapSteps(y, g.height);
  }

  /** The source's edge tests are arithmetic modulo the axis length: the
      neighbour before `c` is `c - 1` reduced modulo `size`, the one after is
      `c + 1` reduced modulo `size`, and both stay on the axis. */
  lemma WrapSteps(c: nat, size: nat)
    requires c < size
    ensures (c + -1) % size == Prev(c, size)
    ensures (c + 0) % size == c
    ensures (c + 1) % size == Succ(c, size)
  {
  }

  /** On a grid one cell wide, left and right are the cell's own column, so
      the count sees the row above and the row below three times each and
      the cell itself twice. */
  lemma WidthOneCountsTwice(g: Grid, y: nat)
    requires g.Valid() && g.width == 1 && y < g.height
    ensures Count(g, 0, y) ==
              3 * Bit(Alive(g, 0, Prev(y, g.height)))
              + 2 * Bit(Alive(g, 0, y))
              + 3 * Bit(Alive(g, 0, Succ(y, g.height)))
  {
    CountUnfold(g, 0, y);
  }

  /** On a grid one cell high, up and down are the cell's own row, so the
      count sees the left and right columns three times each and the cell
      itself twice. */
  lemma HeightOneCountsTwice(g: Grid, x: nat)
    requires g.Valid() && g.height == 1 && x < g.width
    ensures Count(g, x, 0) ==
              3 * Bit(Alive(g, Prev(x, g.width), 0))
              + 2 * Bit(Alive(g, x, 0))
              + 3 * Bit(Alive(g, Succ(x, g.width), 0))
  {
    CountUnfold(g, x, 0);
  }

  /** The Life rule's toggle condition: a live cell with fewer than two or
      more than three neighbours dies; a dead cell with three is born. */
  predicate Flips(alive: bool, n: nat)
  {
    (alive && (n < 2 || n > 3)) || (!alive && n == 3)
  }

  /** A cell's next state: toggled when `Flips`, otherwise kept. This is
      the B3/S23 rule: alive next exactly on three neighbours, or on two
      when already alive. */
  function Evolve(alive: bool, n: nat): (b: bool)
    ensures b <==> n == 3 || (alive && n == 2)
    ensures b != alive <==> Flips(alive, n)
  {
    if Flips(alive, n) then !alive else alive
  }

  /** Whether the cell at position `k` toggles in this generation. */
  predicate FlipAt(g: Grid, k: nat)
    requires g.Valid() && k < |g.cells|
  {
    IndexOfCoords(g.width, g.height, k);
    var (x, y) := Coords(g.width, k);
    Flips(g.cells[k], Count(g, x, y))
  }

  /** The nine reads the source's scan makes for cell (x, y) are inside
      the buffer. */
  lemma ReadsInBounds(g: Grid, x: nat, y: nat)
    requires g.Valid() && x < g.width && y < g.height
    ensures
      var w := g.width;
      var left, right := Prev(x, w), Succ(x, w);
      var up, down := Prev(y, g.height), Succ(y, g.height);
      && Index(w, x, y) < |g.cells|
      && Index(w, left, up) < |g.cells| && Index(w, x, up) < |g.cells|
      && Index(w, right, up) < |g.cells| && Index(w, left, y) < |g.cells|
      && Index(w, right, y) < |g.cells| && Index(w, left, down) < |g.cells|
      && Index(w, x, down) < |g.cells| && Index(w, right, down) < |g.cells|
  {
    AllIndicesInBounds(g);
  }

  /** The sum of the eight reads the source's scan makes for cell (x, y)
      is the cell's neighbour count. */
  lemma ScanCount(g: Grid, x: nat, y: nat, n: nat)
    requires g.Valid() && x < g.width && y < g.height
    requires
      var w := g.width;
      var left, right := Prev(x, w), Succ(x, w);
      var up, down := Prev(y, g.height), Succ(y, g.height);
      && Index(w, left, up) < |g.cells| && Index(w, x, up) < |g.cells|
      && Index(w, right, up) < |g.cells| && Index(w, left, y) < |g.cells|
      && Index(w, right, y) < |g.cells| && Index(w, left, down) < |g.cells|
      && Index(w, x, down) < |g.cells| && Index(w, right, down) < |g.cells|
      && n == Bit(g.cells[Index(w, left, up)])
              + Bit(g.cells[Index(w, x, up)])
              + Bit(g.cells[Index(w, right, up)])
              + Bit(g.cells[Index(w, left, y)])
              + Bit(g.cells[Index(w, right, y)])
              + Bit(g.cells[Index(w, left, down)])
              + Bit(g.cells[Index(w, x, down)])
              + Bit(g.cells[Index(w, right, down)])
    ensures n == Count(g, x, y)
  {
    AllIndicesInBounds(g);
    CountUnfold(g, x, y);
  }

  /** The next generation: every cell judged against the current grid. */
  function Next(g: Grid): (g': Grid)
    requires g.Valid()
    ensures g'.Valid() && g'.width == g.width && g'.height == g.height
    ensures forall k {:trigger g'.cells[k]} ::
              0 <= k < |g.cells| ==> (g'.cells[k] != g.cells[k] <==> FlipAt(g, k))
  {
    var cells := seq(|g.cells|, k requires 0 <= k < |g.cells| =>
                       if FlipAt(g, k) then !g.cells[k] else g.cells[k]);
    Grid(cells, g.width, g.height)
  }

  /** Every cell of the next generation obeys the Life rule applied to its
      own state and neighbour count in the current generation. */
  lemma NextFollowsLifeRule(g: Grid, x: nat, y: nat)
    requires g.Valid() && x < g.width && y < g.height
    ensures Alive(g, x, y) && (Count(g, x, y) < 2 || Count(g, x, y) > 3) ==> !Alive(Next(g), x, y)
    ensures !Alive(g, x, y) && Count(g, x, y) == 3 ==> Alive(Next(g), x, y)
    ensures Alive(g, x, y) && 2 <= Count(g, x, y) <= 3 ==> Alive(Next(g), x, y)
    ensures !Alive(g, x, y) && Count(g, x, y) != 3 ==> !Alive(Next(g), x, y)
    ensures Alive(Next(g), x, y) == Evolve(Alive(g, x, y), Count(g, x, y))
  {
    CoordsOfIndex(g.width, x, y);
    IndexInBounds(g.width, g.height, x, y);
  }

  /** A grid with no live cell stays empty. */
  lemma AllDeadStaysDead(g: Grid)
    requires g.Valid()
    requires forall k :: 0 <= k < |g.cells| ==> !g.cells[k]
    ensures Next(g) == g
  {
    forall k | 0 <= k < |g.cells|
      ensures !FlipAt(g, k)
    {
      IndexOfCoords(g.width, g.height, k);
      var (x, y) := Coords(g.width, k);
      NoLiveNoNeighbours(g, x, y);
    }
    assert Next(g).cells == g.cells;
  }

  lemma NoLiveNoNeighbours(g: Grid, x: nat, y: nat)
    requires g.Valid() && x < g.width && y < g.height
    requires forall k :: 0 <= k < |g.cells| ==> !g.cells[k]
    ensures Count(g, x, y) == 0
  {
    CountUnfold(g, x, y);
    forall a: nat, b: nat | a < g.width && b < g.height
      ensures !Alive(g, a, b)
    {
      IndexInBounds(g.width, g.height, a, b);
    }
  }

  /** The change list between two generations: each position whose value
      differs, paired with its new value, in increasing (row-major) order. */
  function Diff(before: seq<bool>, after: seq<bool>): (d: seq<(nat, bool)>)
    requires |before| == |after|
    ensures |d| <= |before|
    decreases |before|
  {
    if |before| == 0 then []
    else
      var m := |before| - 1;
      Diff(before[..m], after[..m]) + (if before[m] != after[m] then [(m, after[m])] else [])
  }

  /** Extending both grids' prefixes by one position extends the change
      list by that position's entry, if it changed. */
  lemma DiffExtend(before: seq<bool>, after: seq<bool>, m: nat)
    requires |before| == |after| && m < |before|
    ensures Diff(before[..m + 1], after[..m + 1]) ==
              Diff(before[..m], after[..m])
              + (if before[m] != after[m] then [(m, after[m])] else [])
  {
    assert before[..m + 1][..m] == before[..m];
    assert after[..m + 1][..m] == after[..m];
  }

  /** The change list holds exactly the positions that differ, each with
      its new value: no extra and no missing entries. */
  lemma {:induction false} DiffExact(before: seq<bool>, after: seq<bool>)
    requires |before| == |after|
    ensures forall e :: e in Diff(before, after) <==>
              e.0 < |before| && before[e.0] != after[e.0] && e.1 == after[e.0]
    decreases |before|
  {
    if |before| > 0 {
      var m := |before| - 1;
      DiffExact(before[..m], after[..m]);
    }
  }

  /** Cell (x, y) is reported, with its new value, exactly when one
      generation changes it; a cell that keeps its state is never
      reported. */
  lemma ChangeReported(g: Grid, x: nat, y: nat)
    requires g.Valid() && x < g.width && y < g.height
    ensures Alive(g, x, y) != Alive(Next(g), x, y) ==>
              (Index(g.width, x, y), Alive(Next(g), x, y)) in Diff(g.cells, Next(g).cells)
    ensures Alive(g, x, y) == Alive(Next(g), x, y) ==>
              forall v :: (Index(g.width, x, y), v) !in Diff(g.cells, Next(g).cells)
  {
    IndexInBounds(g.width, g.height, x, y);
    DiffExact(g.cells, Next(g).cells);
  }

  /** The change list is in strictly increasing position order, so each
      position appears at most once. */
  lemma {:induction false} DiffSorted(before: seq<bool>, after: seq<bool>)
    requires |before| == |after|
    ensures forall s, t :: 0 <= s < t < |Diff(before, after)| ==>
              Diff(before, after)[s].0 < Diff(before, after)[t].0
    decreases |before|
  {
    if |before| > 0 {
      var m := |before| - 1;
      DiffSorted(before[..m], after[..m]);
      DiffExact(before[..m], after[..m]);
      var d := Diff(before[..m], after[..m]);
      forall s | 0 <= s < |d|
        ensures d[s].0 < m
      {
        assert d[s] in d;
      }
    }
  }

  /** Comparing a grid with itself reports no change. */
  lemma DiffSelfEmpty(cells: seq<bool>)
    ensures Diff(cells, cells) == []
  {
    DiffExact(cells, cells);
    if Diff(cells, cells) != [] {
      assert Diff(cells, cells)[0] in Diff(cells, cells);
    }
  }
  /** Replays a change list onto a buffer, entry by entry, setting each
      listed position to its listed value; entries outside the buffer are
      ignored. This is what a renderer that repaints each reported cell
      keeps on screen. */
  function Apply(cells: seq<bool>, d: seq<(nat, bool)>): (r: seq<bool>)
    ensures |r| == |cells|
    decreases |d|
  {
    if d == [] then cells
    else
      var r := Apply(cells, d[..|d| - 1]);
      var e := d[|d| - 1];
      if e.0 < |r| then r[e.0 := e.1] else r
  }

  /** Replaying one more entry sets that entry's position. */
  lemma ApplyAppend(cells: seq<bool>, d: seq<(nat, bool)>, e: (nat, bool))
    ensures Apply(cells, d + [e]) ==
              (if e.0 < |cells| then Apply(cells, d)[e.0 := e.1] else Apply(cells, d))
  {
    assert (d + [e])[..|d|] == d;
  }

  /** Replaying the change list of the first `m` positions onto the old
      buffer turns those positions into the new values and leaves the rest
      alone. */
  lemma {:induction false} ApplyDiffPrefix(before: seq<bool>, after: seq<bool>, m: nat)
    requires |before| == |after| && m <= |before|
    ensures forall k :: 0 <= k < |before| ==>
              Apply(before, Diff(before[..m], after[..m]))[k] == (if k < m then after[k] else before[k])
  {
    if m == 0 {
      assert before[..0] == [] && after[..0] == [];
    } else {
      ApplyDiffPrefix(before, after, m - 1);
      DiffExtend(before, after, m - 1);
      var d := Diff(before[..m - 1], after[..m - 1]);
      if before[m - 1] != after[m - 1] {
        ApplyAppend(before, d, (m - 1, after[m - 1]));
      } else {
        assert d + [] == d;
      }
    }
  }

  /** Replaying the change list between two generations onto the old one
      reproduces the new one: the list misses no change. */
  lemma ApplyDiff(before: seq<bool>, after: seq<bool>)
    requires |before| == |after|
    ensures Apply(before, Diff(before, after)) == after
  {
    ApplyDiffPrefix(before, after, |before|);
    assert before[..|before|] == before;
    assert after[..|after|] == after;
  }
}
