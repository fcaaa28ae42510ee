/** One generation of the simulation as the source computes it: a first pass
    over the unchanged grid collects, in row-major order, the positions that
    must toggle; a second pass toggles them one by one and appends each
    position with its new value to the running change list. */
module Stepper {
  import opened Grids
  import opened Life

  /** The positions below `m` whose flag is set, in increasing order. */
  function Positions(mask: seq<bool>, m: nat): seq<nat>
    requires m <= |mask|
  {
    if m == 0 then []
    else Positions(mask, m - 1) + (if mask[m - 1] then [m - 1] else [])
  }

  /** The selected positions are strictly increasing, lie below `m`, and
      are exactly the flagged positions below `m`. */
  lemma {:induction false} PositionsSpec(mask: seq<bool>, m: nat)
    requires m <= |mask|
    ensures forall s :: 0 <= s < |Positions(mask, m)| ==> Positions(mask, m)[s] < m
    ensures forall s, t :: 0 <= s < t < |Positions(mask, m)| ==>
              Positions(mask, m)[s] < Positions(mask, m)[t]
    ensures forall k: nat :: k in Positions(mask, m) <==> k < m && mask[k]
  {
    if m > 0 {
      PositionsSpec(mask, m - 1);
    }
  }

  /** For each position, whether the rule toggles it this generation. */
  function FlipMask(g: Grid): seq<bool>
    requires g.Valid()
  {
    seq(|g.cells|, k requires 0 <= k < |g.cells| => FlipAt(g, k))
  }

  /** The positions below `m` that toggle this generation, in increasing
      order: what the first pass has collected after visiting `m` cells. */
  function Flipped(g: Grid, m: nat): seq<nat>
    requires g.Valid() && m <= |g.cells|
  {
    Positions(FlipMask(g), m)
  }

  /** The collected positions are strictly increasing, lie below `m`, and
      are exactly the positions below `m` that the rule toggles. */
  lemma FlippedSpec(g: Grid, m: nat)
    requires g.Valid() && m <= |g.cells|
    ensures forall s :: 0 <= s < |Flipped(g, m)| ==> Flipped(g, m)[s] < m
    ensures forall s, t :: 0 <= s < t < |Flipped(g, m)| ==> Flipped(g, m)[s] < Flipped(g, m)[t]
    ensures forall k: nat :: k in Flipped(g, m) <==> k < m && FlipAt(g, k)
  {
    PositionsSpec(FlipMask(g), m);
  }

  /** The change-list entries produced by toggling each position of `ps`
      in `cells`: the position and the opposite of its current value. */
  function Toggled(ps: seq<nat>, cells: seq<bool>): (d: seq<(nat, bool)>)
    requires forall s :: 0 <= s < |ps| ==> ps[s] < |cells|
    ensures |d| == |ps|
    ensures forall s :: 0 <= s < |ps| ==> d[s].0 == ps[s] && d[s].1 != cells[ps[s]]
  {
    seq(|ps|, s requires 0 <= s < |ps| => (ps[s], !cells[ps[s]]))
  }

  /** Toggling, in increasing order, exactly the positions below `m` where
      `before` and `after` differ produces the change list of those
      prefixes. */
  lemma {:induction false} ToggledIsDiff(ps: seq<nat>, before: seq<bool>, after: seq<bool>, m: nat)
    requires |before| == |after| && m <= |before|
    requires forall s, t :: 0 <= s < t < |ps| ==> ps[s] < ps[t]
    requires forall s :: 0 <= s < |ps| ==> ps[s] < m
    requires forall k: nat :: k < m ==> (k in ps <==> before[k] != after[k])
    ensures Toggled(ps, before) == Diff(before[..m], after[..m])
    decreases m
  {
    if m > 0 {
      DiffExtend(before, after, m - 1);
      if before[m - 1] != after[m - 1] {
        var init := DropLast(ps, m);
        ToggledIsDiff(init, before, after, m - 1);
        ToggledAppend(init, [m - 1], before);
        assert Toggled([m - 1], before) == [(m - 1, after[m - 1])];
      } else {
        assert forall s :: 0 <= s < |ps| ==> ps[s] < m - 1 by {
          forall s | 0 <= s < |ps|
            ensures ps[s] < m - 1
          {
            assert ps[s] in ps;
          }
        }
        ToggledIsDiff(ps, before, after, m - 1);
      }
    } else {
      IncreasingBelowLength(ps, m);
      assert before[..m] == [] && after[..m] == [];
    }
  }

  /** When `m - 1` is among strictly increasing positions below `m`, it is
      the last one, and the others are the positions below `m - 1`. */
  lemma DropLast(ps: seq<nat>, m: nat) returns (init: seq<nat>)
    requires m > 0
    requires forall s, t :: 0 <= s < t < |ps| ==> ps[s] < ps[t]
    requires forall s :: 0 <= s < |ps| ==> ps[s] < m
    requires m - 1 in ps
    ensures ps == init + [m - 1]
    ensures forall s, t :: 0 <= s < t < |init| ==> init[s] < init[t]
    ensures forall s :: 0 <= s < |init| ==> init[s] < m - 1
    ensures forall k: nat :: k < m - 1 ==> (k in init <==> k in ps)
  {
    var n := |ps| - 1;
    init := ps[..n];
    assert ps == init + [ps[n]];
  }

  /** Strictly increasing naturals below `m` number at most `m`. */
  lemma {:induction false} IncreasingBelowLength(ps: seq<nat>, m: nat)
    requires forall s, t :: 0 <= s < t < |ps| ==> ps[s] < ps[t]
    requires forall s :: 0 <= s < |ps| ==> ps[s] < m
    ensures |ps| <= m
    decreases |ps|
  {
    if ps != [] {
      var n := |ps| - 1;
      IncreasingBelowLength(ps[..n], ps[n]);
    }
  }

  /** Toggling two runs of positions yields the two runs of entries. */
  lemma ToggledAppend(ps: seq<nat>, qs: seq<nat>, cells: seq<bool>)
    requires forall s :: 0 <= s < |ps| ==> ps[s] < |cells|
    requires forall s :: 0 <= s < |qs| ==> qs[s] < |cells|
    ensures Toggled(ps + qs, cells) == Toggled(ps, cells) + Toggled(qs, cells)
  {
    assert forall s :: 0 <= s < |ps + qs| ==> (ps + qs)[s] < |cells|;
  }

  /** Visiting cell (x, y), at position `k`, extends the collected
      positions by `k` exactly when the rule toggles that cell. */
  lemma FlippedExtend(g: Grid, x: nat, y: nat, k: nat, n: nat)
    requires g.Valid() && x < g.width && y < g.height
    requires k == Index(g.width, x, y) && n == Count(g, x, y)
    ensures k < |g.cells|
    ensures Flipped(g, k + 1) == Flipped(g, k) + (if Flips(g.cells[k], n) then [k] else [])
  {
    IndexInBounds(g.width, g.height, x, y);
    CoordsOfIndex(g.width, x, y);
    assert FlipAt(g, k) == Flips(g.cells[k], Count(g, x, y));
  }

  /** Phase one for cell (x, y): reads its eight neighbours, wrapping at
      the edges, from the unchanged grid, and appends the cell's position
      to `coords` exactly when the rule toggles the cell. */
  method VisitCell(g: Grid, x: nat, y: nat, coords: seq<nat>) returns (coords': seq<nat>)
    requires g.Valid() && x < g.width && y < g.height
    ensures Index(g.width, x, y) < |g.cells|
    ensures coords' == coords + (if Flips(g.cells[Index(g.width, x, y)], Count(g, x, y))
                                 then [Index(g.width, x, y)] else [])
  {
    var w, h := g.width, g.height;
    ReadsInBounds(g, x, y);
    var left := Prev(x, w);
    var right := Succ(x, w);
    var up := Prev(y, h);
    var down := Succ(y, h);
    var neighbours :=
      Bit(g.cells[Index(w, left, up)])
      + Bit(g.cells[Index(w, x, up)])
      + Bit(g.cells[Index(w, right, up)])
      + Bit(g.cells[Index(w, left, y)])
      + Bit(g.cells[Index(w, right, y)])
      + Bit(g.cells[Index(w, left, down)])
      + Bit(g.cells[Index(w, x, down)])
      + Bit(g.cells[Index(w, right, down)]);
    var here := Index(w, x, y);
    ScanCount(g, x, y, neighbours);
    coords' := coords;
    if g.cells[here] && (neighbours < 2 || neighbours > 3) {
      coords' := coords' + [here];
    } else if !g.cells[here] && neighbours == 3 {
      coords' := coords' + [here];
    }
  }

  /** Phase one for row `i`, whose first cell is at position `start`:
      visits the row's cells left to right. */
  method ScanRow(g: Grid, i: nat, start: nat, coords: seq<nat>) returns (coords': seq<nat>)
    requires g.Valid() && i < g.height
    requires start == Index(g.width, 0, i) && start <= |g.cells| && coords == Flipped(g, start)
    ensures start + g.width <= |g.cells|
    ensures coords' == Flipped(g, start + g.width)
  {
    RowInBounds(g, i);
    coords' := coords;
    var j := 0;
    while j < g.width
      invariant j <= g.width
      invariant start + j <= |g.cells|
      invariant coords' == Flipped(g, start + j)
    {
      assert Index(g.width, j, i) == start + j;
      coords' := VisitCell(g, j, i, coords');
      FlippedExtend(g, j, i, start + j, Count(g, j, i));
      j := j + 1;
    }
  }

  /** Row `i` of a well-formed grid ends inside the buffer. */
  lemma RowInBounds(g: Grid, i: nat)
    requires g.Valid() && i < g.height
    ensures Index(g.width, 0, i) + g.width <= |g.cells|
  {
    RowsMonotone(g.width, i, g.height);
  }

  /** Phase one: scans every row, top to bottom, collecting the positions
      that toggle, in row-major order. */
  method Collect(g: Grid) returns (coords: seq<nat>)
    requires g.Valid()
    ensures coords == Flipped(g, |g.cells|)
    ensures forall s, t :: 0 <= s < t < |coords| ==> coords[s] < coords[t]
    ensures forall s :: 0 <= s < |coords| ==> coords[s] < |g.cells|
    ensures forall k: nat :: k in coords <==> k < |g.cells| && FlipAt(g, k)
  {
    coords := [];
    var i := 0;
    var start := 0;
    while i < g.height
      invariant i <= g.height
      invariant start == Index(g.width, 0, i) && start <= |g.cells|
      invariant coords == Flipped(g, start)
    {
      coords := ScanRow(g, i, start, coords);
      start := start + g.width;
      i := i + 1;
    }
    FlippedSpec(g, |g.cells|);
  }

  /** Phase two: toggles each collected position in turn and appends the
      position with its new value to the change list. */
  method Commit(cells: seq<bool>, coords: seq<nat>, delta: seq<(nat, bool)>)
    returns (cells': seq<bool>, delta': seq<(nat, bool)>)
    requires forall s, t :: 0 <= s < t < |coords| ==> coords[s] < coords[t]
    requires forall s :: 0 <= s < |coords| ==> coords[s] < |cells|
    ensures |cells'| == |cells|
    ensures forall k :: 0 <= k < |cells| ==>
              cells'[k] == (if k in coords then !cells[k] else cells[k])
    ensures delta' == delta + Toggled(coords, cells)
  {
    cells' := cells;
    delta' := delta;
    var t := 0;
    while t < |coords|
      invariant t <= |coords|
      invariant |cells'| == |cells|
      invariant forall k :: 0 <= k < |cells| ==>
                  cells'[k] == (if k in coords[..t] then !cells[k] else cells[k])
      invariant delta' == delta + Toggled(coords[..t], cells)
    {
      var pos := coords[t];
      assert pos !in coords[..t];
      cells' := cells'[pos := !cells'[pos]];
      delta' := delta' + [(pos, cells'[pos])];
      assert coords[..t + 1] == coords[..t] + [pos];
      ToggledAppend(coords[..t], [pos], cells);
      t := t + 1;
    }
    assert coords[..t] == coords;
  }

  /** Advances `g` by one generation and appends the changes to `delta`:
      the grid becomes the next generation with the same shape, and the
      entries appended are exactly the cells that changed, in row-major
      order, each with its new value. Entries already in `delta` are kept,
      replaying the new ones onto the old grid yields the new grid, and an
      empty grid stays empty without reporting anything. */
  method Step(g: Grid, delta: seq<(nat, bool)>) returns (g': Grid, delta': seq<(nat, bool)>)
    requires g.Valid()
    ensures g'.Valid() && g'.width == g.width && g'.height == g.height
    ensures g' == Next(g)
    ensures delta' == delta + Diff(g.cells, g'.cells)
    ensures Apply(g.cells, delta'[|delta|..]) == g'.cells
    ensures (forall k :: 0 <= k < |g.cells| ==> !g.cells[k]) ==> g' == g && delta' == delta
  {
    var coords := Collect(g);
    var cells;
    cells, delta' := Commit(g.cells, coords, delta);
    g' := Grid(cells, g.width, g.height);
    CommitIsNext(g, coords, cells);
    assert delta'[|delta|..] == Diff(g.cells, cells);
    ApplyDiff(g.cells, cells);
    if forall k :: 0 <= k < |g.cells| ==> !g.cells[k] {
      AllDeadStaysDead(g);
      DiffSelfEmpty(g.cells);
    }
  }

  /** Toggling exactly the collected positions produces the next
      generation, and the entries the toggling reports are its change
      list. */
  lemma CommitIsNext(g: Grid, coords: seq<nat>, cells: seq<bool>)
    requires g.Valid()
    requires forall s, t :: 0 <= s < t < |coords| ==> coords[s] < coords[t]
    requires forall s :: 0 <= s < |coords| ==> coords[s] < |g.cells|
    requires forall k: nat :: k in coords <==> k < |g.cells| && FlipAt(g, k)
    requires |cells| == |g.cells|
    requires forall k :: 0 <= k < |g.cells| ==>
               cells[k] == (if k in coords then !g.cells[k] else g.cells[k])
    ensures cells == Next(g).cells
    ensures Toggled(coords, g.cells) == Diff(g.cells, cells)
  {
    assert cells == Next(g).cells;
    ToggledIsDiff(coords, g.cells, cells, |g.cells|);
    assert g.cells[..|g.cells|] == g.cells;
    assert cells[..|g.cells|] == cells;
  }
}
