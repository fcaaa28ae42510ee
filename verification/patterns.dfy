/** Small concrete grids: the corner wrap-around of the neighbour count,
    one step of a blinker, and the seed pattern the program starts from. */
module Patterns {
  import opened Grids
  import opened Life

  /** A 3 x 3 grid with the two opposite corners alive. */
  function Corners(): (g: Grid)
    ensures g.Valid() && g.width == 3 && g.height == 3
  {
    SetIndex(SetIndex(New(3, 3), 0, 0), 2, 2)
  }

  /** The top-left cell sees the bottom-right one as its up-left
      neighbour: the count wraps across both edges at once. */
  lemma CornerSeesOppositeCorner()
    ensures Alive(Corners(), 0, 0) && Alive(Corners(), 2, 2)
    ensures Lookups(Corners(), 0, 0)[0] == (2, 2)
    ensures Count(Corners(), 0, 0) == 1
  {
    var g := Corners();
    CountUnfold(g, 0, 0);
  }

  /** The program's starting grid: 50 x 50 with five cells seeded. */
  function Seed(): (g: Grid)
    ensures g.Valid() && g.width == 50 && g.height == 50
  {
    var g := New(50, 50);
    var g := SetIndex(g, 6, 6);
    var g := SetIndex(g, 6, 7);
    var g := SetIndex(g, 6, 8);
    var g := SetIndex(g, 5, 8);
    SetIndex(g, 4, 7)
  }

  /** Exactly the five seeded cells are alive at the start. */
  lemma SeedCells()
    ensures forall k :: 0 <= k < |Seed().cells| ==>
              (Seed().cells[k] <==> k in {Index(50, 6, 6), Index(50, 6, 7), Index(50, 6, 8),
                                           Index(50, 5, 8), Index(50, 4, 7)})
  {
  }

  /** A horizontal blinker: three live cells in the middle row of a 5 x 5
      grid. */
  function Blinker(): (g: Grid)
    ensures g.Valid() && g.width == 5 && g.height == 5
  {
    var g := New(5, 5);
    var g := SetIndex(g, 1, 2);
    var g := SetIndex(g, 2, 2);
    SetIndex(g, 3, 2)
  }

  /** The blinker's live cells are exactly the three of its line. */
  lemma BlinkerCells(x: nat, y: nat)
    requires x < 5 && y < 5
    ensures Alive(Blinker(), x, y) <==> y == 2 && 1 <= x <= 3
  {
    var g := New(5, 5);
    assert Index(5, x, y) == y * 5 + x by {
      IndexIsProduct(5, x, y);
    }
    assert Index(5, 1, 2) == 11 && Index(5, 2, 2) == 12 && Index(5, 3, 2) == 13;
  }

  /** The blinker's centre has two live neighbours, the two ends of the
      line. */
  lemma BlinkerCentreCount()
    ensures Count(Blinker(), 2, 2) == 2
  {
    CountUnfold(Blinker(), 2, 2);
    BlinkerCells(1, 1);
    BlinkerCells(2, 1);
    BlinkerCells(3, 1);
    BlinkerCells(1, 2);
    BlinkerCells(3, 2);
    BlinkerCells(1, 3);
    BlinkerCells(2, 3);
    BlinkerCells(3, 3);
  }

  /** The left end of the blinker has one live neighbour, the centre. */
  lemma BlinkerLeftEndCount()
    ensures Count(Blinker(), 1, 2) == 1
  {
    CountUnfold(Blinker(), 1, 2);
    BlinkerCells(0, 1);
    BlinkerCells(1, 1);
    BlinkerCells(2, 1);
    BlinkerCells(0, 2);
    BlinkerCells(2, 2);
    BlinkerCells(0, 3);
    BlinkerCells(1, 3);
    BlinkerCells(2, 3);
  }

  /** The right end of the blinker has one live neighbour, the centre. */
  lemma BlinkerRightEndCount()
    ensures Count(Blinker(), 3, 2) == 1
  {
    CountUnfold(Blinker(), 3, 2);
    BlinkerCells(2, 1);
    BlinkerCells(3, 1);
    BlinkerCells(4, 1);
    BlinkerCells(2, 2);
    BlinkerCells(4, 2);
    BlinkerCells(2, 3);
    BlinkerCells(3, 3);
    BlinkerCells(4, 3);
  }

  /** The cell above the centre sees the whole line. */
  lemma BlinkerAboveCount()
    ensures Count(Blinker(), 2, 1) == 3
  {
    CountUnfold(Blinker(), 2, 1);
    BlinkerCells(1, 0);
    BlinkerCells(2, 0);
    BlinkerCells(3, 0);
    BlinkerCells(1, 1);
    BlinkerCells(3, 1);
    BlinkerCells(1, 2);
    BlinkerCells(2, 2);
    BlinkerCells(3, 2);
  }

  /** The cell below the centre sees the whole line. */
  lemma BlinkerBelowCount()
    ensures Count(Blinker(), 2, 3) == 3
  {
    CountUnfold(Blinker(), 2, 3);
    BlinkerCells(1, 2);
    BlinkerCells(2, 2);
    BlinkerCells(3, 2);
    BlinkerCells(1, 3);
    BlinkerCells(3, 3);
    BlinkerCells(1, 4);
    BlinkerCells(2, 4);
    BlinkerCells(3, 4);
  }

  /** One step of the blinker turns it vertical: the centre stays alive,
      the two ends die and the cells above and below the centre are
      born. */
  lemma BlinkerStep()
    ensures Alive(Next(Blinker()), 2, 2)
    ensures !Alive(Next(Blinker()), 1, 2) && !Alive(Next(Blinker()), 3, 2)
    ensures Alive(Next(Blinker()), 2, 1) && Alive(Next(Blinker()), 2, 3)
  {
    var g := Blinker();
    BlinkerCells(2, 2);
    BlinkerCells(1, 2);
    BlinkerCells(3, 2);
    BlinkerCells(2, 1);
    BlinkerCells(2, 3);
    BlinkerCentreCount();
    BlinkerLeftEndCount();
    BlinkerRightEndCount();
    BlinkerAboveCount();
    BlinkerBelowCount();
    NextFollowsLifeRule(g, 2, 2);
    NextFollowsLifeRule(g, 1, 2);
    NextFollowsLifeRule(g, 3, 2);
    NextFollowsLifeRule(g, 2, 1);
    NextFollowsLifeRule(g, 2, 3);
  }

  /** The blinker's step reports the two deaths and the two births, each
      with its new value, and nothing for the centre, which stays alive. */
  lemma BlinkerChanges()
    ensures (Index(5, 1, 2), false) in Diff(Blinker().cells, Next(Blinker()).cells)
    ensures (Index(5, 3, 2), false) in Diff(Blinker().cells, Next(Blinker()).cells)
    ensures (Index(5, 2, 1), true) in Diff(Blinker().cells, Next(Blinker()).cells)
    ensures (Index(5, 2, 3), true) in Diff(Blinker().cells, Next(Blinker()).cells)
    ensures forall v :: (Index(5, 2, 2), v) !in Diff(Blinker().cells, Next(Blinker()).cells)
  {
    BlinkerCells(2, 2);
    BlinkerCells(1, 2);
    BlinkerCells(3, 2);
    BlinkerCells(2, 1);
    BlinkerCells(2, 3);
    BlinkerStep();
    ChangeReported(Blinker(), 2, 2);
    ChangeReported(Blinker(), 1, 2);
    ChangeReported(Blinker(), 3, 2);
    ChangeReported(Blinker(), 2, 1);
    ChangeReported(Blinker(), 2, 3);
  }
}
