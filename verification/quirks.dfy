/** Three behaviours of `wfc_propagate_all` as written, each shown on a
    small concrete grid: the direction counter lags at grid edges, collapsed
    neighbours are filtered too, and a contradiction does not stop the
    loop. */
module Quirks {
  import opened Wrappers
  import opened Tiles
  import opened Grid
  import opened Pruning
  import opened Subsequences
  import opened Propagator
  import opened Picker
  import opened Collapser
  import opened Solver

  /** Catalogue ids, in the catalogue's order. */
  const BlankId: nat := 0
  const TopId: nat := 1
  const EastId: nat := 2
  const SouthId: nat := 3
  const WestId: nat := 4

  /** Filtering a list one head at a time. */
  lemma PruneCons(x: nat, xs: seq<nat>, centre: seq<nat>, d: Direction)
    ensures Prune([x] + xs, centre, d) == (if Supports(centre, d, x) then [x] else []) + Prune(xs, centre, d)
  {
    assert ([x] + xs)[1..] == xs;
  }

  /** Whether the blank tile alone admits tile `t` on side `d`. */
  lemma BlankSupports(d: Direction, t: nat)
    requires IsTileId(t)
    ensures Supports([BlankId], d, t) <==> SideOf(t, Opposite(d)) == Side.Blank
  {
  }

  /** Next to a blank tile, a neighbour filtered along north keeps the
      "top" tile, whose road then meets the blank tile's side; filtered
      along east, as intended, it keeps only tiles with a blank west side. */
  lemma LaggedFilterAdmitsMismatch()
    ensures Prune(AllTileIds(), [BlankId], North) == [BlankId, TopId]
    ensures Prune(AllTileIds(), [BlankId], East) == [BlankId, EastId]
    ensures !Compatible(BlankId, East, TopId)
  {
    assert AllTileIds() == [BlankId] + [TopId, EastId, SouthId, WestId];
    forall t: nat | IsTileId(t)
      ensures Supports([BlankId], North, t) <==> SideOf(t, South) == Side.Blank
      ensures Supports([BlankId], East, t) <==> SideOf(t, West) == Side.Blank
    {
      BlankSupports(North, t);
      BlankSupports(East, t);
    }
    PruneCons(WestId, [], [BlankId], North);
    PruneCons(SouthId, [WestId], [BlankId], North);
    PruneCons(EastId, [SouthId, WestId], [BlankId], North);
    PruneCons(TopId, [EastId, SouthId, WestId], [BlankId], North);
    PruneCons(BlankId, [TopId, EastId, SouthId, WestId], [BlankId], North);
    PruneCons(WestId, [], [BlankId], East);
    PruneCons(SouthId, [WestId], [BlankId], East);
    PruneCons(EastId, [SouthId, WestId], [BlankId], East);
    PruneCons(TopId, [EastId, SouthId, WestId], [BlankId], East);
    PruneCons(BlankId, [TopId, EastId, SouthId, WestId], [BlankId], East);
  }

  /** A cell of the first row with a right-hand neighbour filters that
      neighbour along north, not east: the off-grid northern neighbour
      kept the counter at 0. */
  lemma TopRowFiltersEastAsNorth(s: State, index: nat)
    requires WellFormed(s) && PropagateDefined(s, index) && Active(s, index)
    requires s.cols > 0 && Decode(index, s.cols).1 == 0 && Decode(index, s.cols).0 + 1 < s.cols
    ensures index + 1 < |s.grid|
    ensures Propagate(s, index).grid[index + 1].options
         == Prune(s.grid[index + 1].options, s.grid[index].options, North)
  {
    var (col, row) := Decode(index, s.cols);
    var nbs := Neighbours(s.cols, s.rows, col, row);
    var none: seq<Option<nat>> := [None];
    assert nbs[..East] == none;
    assert Filled(none) == 0 by {
      assert none[1..] == [];
    }
    assert Lag(s.cols, s.rows, col, row, East) == 0;
    assert Neighbour(s.cols, s.rows, col, row, East) == Some(index + 1);
    PropagateFiltersNeighbour(s, index, East, index + 1);
  }

  /** A grid of two fresh cells in one row. */
  const Fresh2: State := Init(State(0, 0, [], false, false), 2, 1)

  /** The same grid after the blank tile went into the left cell. */
  const AfterFirst: State := State(2, 1, [Cell(Some(BlankId), [BlankId]), Cell(None, [BlankId, TopId])], false, false)

  /** ... and after the "top" tile went into the right cell. */
  const AfterSecond: State := State(2, 1, [Cell(Some(BlankId), []), Cell(Some(TopId), [TopId])], false, true)

  /** The first entry of the candidate list is its least element. */
  lemma CandidatesStartLow(grid: seq<Cell>, i: nat)
    requires i in Candidates(grid)
    requires forall j :: j in Candidates(grid) ==> i <= j
    ensures Candidates(grid)[0] == i
  {
    var c := Candidates(grid);
    var p :| 0 <= p < |c| && c[p] == i;
    assert c[0] in c;
  }

  /** The grid of `Fresh2` once its left cell holds the blank tile. */
  const CollapsedFirst: State := State(2, 1, [Cell(Some(BlankId), [BlankId]), Cell(None, AllTileIds())], false, false)

  /** The grid of `AfterFirst` once its right cell holds the "top" tile. */
  const CollapsedSecond: State := State(2, 1, [Cell(Some(BlankId), [BlankId]), Cell(Some(TopId), [TopId])], false, false)

  /** First pick and collapse: the left cell (a tie at five candidates,
      draw 0) takes its first candidate, the blank tile. */
  lemma FirstCollapse()
    ensures Inv(Fresh2) && StepDrawsFit(Fresh2, 0, 0)
    ensures Pick(Fresh2, 0) == Picked(Fresh2, Some(0))
    ensures Collapse(Fresh2, 0, 0, None) == CollapsedFirst
    ensures WellFormed(CollapsedFirst) && PropagateDefined(CollapsedFirst, 0) && Active(CollapsedFirst, 0)
  {
    var s0 := Fresh2;
    InitInv(State(0, 0, [], false, false), 2, 1);
    assert AllTileIds() == [BlankId, TopId, EastId, SouthId, WestId];
    assert s0.grid[0] == Cell(None, AllTileIds()) && s0.grid[1] == Cell(None, AllTileIds());
    assert 0 in Candidates(s0.grid);
    CandidatesStartLow(s0.grid, 0);
    var c0 := Collapse(s0, 0, 0, None);
    assert c0.grid[0] == CollapsedFirst.grid[0] && c0.grid[1] == CollapsedFirst.grid[1];
    CollapseKeepsValidIds(s0, 0, 0);
  }

  /** First propagation: the right cell is filtered along north and keeps
      the blank and "top" tiles; nothing is emptied. */
  lemma FirstPropagate()
    requires WellFormed(CollapsedFirst) && PropagateDefined(CollapsedFirst, 0)
    ensures Propagate(CollapsedFirst, 0) == AfterFirst
  {
    var c0 := CollapsedFirst;
    assert Decode(0, 2) == (0, 0);
    TopRowFiltersEastAsNorth(c0, 0);
    LaggedFilterAdmitsMismatch();
    CentreIsNoNeighbour(c0, 0);
    PropagateLeavesOthers(c0, 0, 0);
    var s1 := Propagate(c0, 0);
    assert s1.grid[0] == AfterFirst.grid[0];
    assert s1.grid[1] == AfterFirst.grid[1];
    PropagatePausedIff(c0, 0);
    forall o: Direction ensures !EmptiesNeighbour(c0, 0, o) {
      var nb := Neighbour(2, 1, 0, 0, o);
      if nb.Some? {
        PropagateFiltersNeighbour(c0, 0, o, nb.value);
      }
    }
  }

  /** The first step, end to end. */
  lemma FirstStep()
    ensures Inv(Fresh2) && StepDrawsFit(Fresh2, 0, 0)
    ensures Step(Fresh2, 0, 0) == AfterFirst
  {
    FirstCollapse();
    FirstPropagate();
  }

  /** Second pick and collapse: only the right cell is empty, and draw 1
      places its second candidate, the "top" tile, there. */
  lemma SecondCollapse()
    ensures Inv(AfterFirst) && StepDrawsFit(AfterFirst, 0, 1)
    ensures Pick(AfterFirst, 0) == Picked(AfterFirst, Some(1))
    ensures Collapse(AfterFirst, 1, 1, None) == CollapsedSecond
    ensures WellFormed(CollapsedSecond) && PropagateDefined(CollapsedSecond, 1) && Active(CollapsedSecond, 1)
  {
    FirstStep();
    StepInv(Fresh2, 0, 0);
    var s1 := AfterFirst;
    assert 1 in Candidates(s1.grid);
    CandidatesStartLow(s1.grid, 1);
    var c1 := Collapse(s1, 1, 1, None);
    assert c1.grid[0] == CollapsedSecond.grid[0] && c1.grid[1] == CollapsedSecond.grid[1];
    CollapseKeepsValidIds(s1, 1, 1);
  }

  /** Second propagation: seen from the right cell the western neighbour
      comes after three off-grid ones, so it is filtered along north. The
      collapsed blank cell loses its only candidate and the application
      pauses, while the blank tile stays placed. */
  lemma SecondPropagate()
    requires WellFormed(CollapsedSecond) && PropagateDefined(CollapsedSecond, 1) && Active(CollapsedSecond, 1)
    ensures Propagate(CollapsedSecond, 1) == AfterSecond
  {
    var c1 := CollapsedSecond;
    assert Decode(1, 2) == (1, 0);
    assert Lag(2, 1, 1, 0, West) == 0 by {
      assert Neighbour(2, 1, 1, 0, North).None? && Neighbour(2, 1, 1, 0, East).None?;
      assert Neighbour(2, 1, 1, 0, South).None?;
    }
    PruneCons(BlankId, [], [TopId], North);
    assert Prune([BlankId], [TopId], North) == [];
    PropagateFiltersNeighbour(c1, 1, West, 0);
    CentreIsNoNeighbour(c1, 1);
    PropagateLeavesOthers(c1, 1, 1);
    PropagatePausedIff(c1, 1);
    assert EmptiesNeighbour(c1, 1, West);
    var s2 := Propagate(c1, 1);
    assert s2.grid[0] == AfterSecond.grid[0];
    assert s2.grid[1] == AfterSecond.grid[1];
  }

  /** Two steps on a one-row, two-cell grid end with the blank tile beside
      the "top" tile, whose road meets the blank tile's side: the lagged
      filter let the "top" tile through. The second step also empties the
      collapsed left cell's candidates and pauses the application, yet its
      tile stays. */
  lemma SecondStep()
    ensures Inv(AfterFirst) && StepDrawsFit(AfterFirst, 0, 1)
    ensures Step(AfterFirst, 0, 1) == AfterSecond
    ensures !Compatible(BlankId, East, TopId)
  {
    SecondCollapse();
    SecondPropagate();
    LaggedFilterAdmitsMismatch();
  }

  /** One row of three cells: a blank tile in the middle, a fresh cell on
      the left, and on the right a cell that can only take tiles with a
      road on their south side. */
  const Row3: State := State(3, 1, [Cell(None, AllTileIds()), Cell(Some(BlankId), [BlankId]), Cell(None, [EastId, SouthId])], false, false)

  /** Propagating from the middle cell of `Row3` empties the right cell
      (filtered along north, the counter's value there) and raises
      `paused`, yet the loop goes on and still filters the left cell
      (along east, one off-grid neighbour having been skipped). */
  lemma ContradictionDoesNotStop()
    ensures var r := Propagate(Row3, 1);
            && r.paused
            && r.grid[2].options == []
            && r.grid[0].options == [BlankId, EastId]
  {
    var s := Row3;
    assert AllTileIds() == [BlankId, TopId, EastId, SouthId, WestId];
    assert ValidIds(s.grid) by {
      forall i, j | 0 <= i < |s.grid| && 0 <= j < |s.grid[i].options| ensures IsTileId(s.grid[i].options[j]) {
        assert s.grid[i] == Row3.grid[i];
      }
    }
    assert Decode(1, 3) == (1, 0);
    var nbs := Neighbours(3, 1, 1, 0);
    assert nbs == [None, Some(2), None, Some(0)];
    var upToEast: seq<Option<nat>> := [None];
    var upToWest: seq<Option<nat>> := [None, Some(2), None];
    assert nbs[..East] == upToEast && nbs[..West] == upToWest;
    assert Filled(upToEast) == 0 by {
      assert upToEast[1..] == [];
    }
    assert Filled(upToWest) == 1 by {
      assert upToWest[1..] == [Some(2), None];
      assert upToWest[1..][1..] == [None];
      assert upToWest[1..][1..][1..] == [];
    }
    forall t: nat | IsTileId(t) ensures Supports([BlankId], North, t) <==> SideOf(t, South) == Side.Blank {
      BlankSupports(North, t);
    }
    PruneCons(SouthId, [], [BlankId], North);
    PruneCons(EastId, [SouthId], [BlankId], North);
    assert Prune([EastId, SouthId], [BlankId], North) == [];
    LaggedFilterAdmitsMismatch();
    PropagateFiltersNeighbour(s, 1, East, 2);
    PropagateFiltersNeighbour(s, 1, West, 0);
    PropagatePausedIff(s, 1);
    assert EmptiesNeighbour(s, 1, East);
  }

  /** The grid `ContradictionDoesNotStop` leaves: the right cell emptied and
      `paused` raised. */
  const PausedRow3: State := State(3, 1, [Cell(None, [BlankId, EastId]), Cell(Some(BlankId), [BlankId]), Cell(None, [])], false, true)

  /** The whole state `ContradictionDoesNotStop` leaves: every cell, and
      the flags. */
  lemma ContradictionLeaves()
    ensures Propagate(Row3, 1) == PausedRow3
  {
    ContradictionDoesNotStop();
    var r := Propagate(Row3, 1);
    assert Decode(1, 3) == (1, 0);
    CentreIsNoNeighbour(Row3, 1);
    PropagateLeavesOthers(Row3, 1, 1);
    assert r.grid[0] == PausedRow3.grid[0] && r.grid[1] == PausedRow3.grid[1] && r.grid[2] == PausedRow3.grid[2];
  }

  /** A step after a contradiction widens a cell's candidates. A click still
      runs `wfc_loop` while paused. The emptied right cell holds no tile and
      has entropy 0, the only such cell here, so it is picked. Collapsing
      it reads its missing first entry: its `[]` becomes `[undefined]`,
      which is no sublist of `[]`. The
      propagation that follows returns at once, being paused. */
  lemma PausedStepWidens()
    ensures Inv(PausedRow3) && StepDrawsFit(PausedRow3, 0, 0)
    ensures Step(PausedRow3, 0, 0).grid[2].options == [Undefined]
    ensures !IsSubsequence([Undefined], PausedRow3.grid[2].options)
  {
    var s := PausedRow3;
    assert 2 in Candidates(s.grid);
    CandidatesStartLow(s.grid, 2);
    assert Pick(s, 0) == Picked(s, Some(2));
  }
}
