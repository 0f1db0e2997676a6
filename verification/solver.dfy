/** `wfc_loop`: one solver step, pick then collapse then propagate, and
    what a sequence of steps keeps and achieves. */
module Solver {
  import opened Wrappers
  import opened Tiles
  import opened Grid
  import opened Subsequences
  import opened Picker
  import opened Collapser
  import opened Propagator

  /** What every state reached from `wfc_init` satisfies: the grid has one
      cell per position, and until a contradiction pauses the application
      every candidate is a tile id and no cell has run out of candidates. */
  predicate Inv(s: State) {
    WellFormed(s) && (s.paused || (ValidIds(s.grid) && NoEmptyOptions(s.grid)))
  }

  /** The two draws of a step fit: `k1` picks among the tied cells and `k2`
      among the picked cell's candidates. */
  predicate StepDrawsFit(s: State, k1: nat, k2: nat) {
    && PickDrawFits(s, k1)
    && var p := Pick(s, k1);
       p.index.Some? ==> CollapseDrawFits(p.state, p.index.value, k2)
  }

  /** The picked cell of an incomplete grid is a cell of a grid with
      columns, and it has candidates unless the application is paused. */
  lemma PickedCell(s: State, k1: nat, i: nat)
    requires Inv(s) && PickDrawFits(s, k1) && Pick(s, k1).index == Some(i)
    requires !Pick(s, k1).state.complete
    ensures i < |s.grid| && s.cols > 0
    ensures !s.paused ==> |s.grid[i].options| > 0
  {
    var p := Pick(s, k1);
    assert p.state.complete == (s.complete || AllCollapsed(s.grid));
    assert !s.complete && !AllCollapsed(s.grid);
    assert i < |s.grid|;
    NonEmptyGridHasColumns(s);
  }

  /** After the pick and the collapse the propagation is well defined, and
      until a contradiction the collapsed grid still keeps the invariant's
      promises. */
  lemma CollapseReady(s: State, k1: nat, k2: nat, i: nat)
    requires Inv(s) && StepDrawsFit(s, k1, k2) && Pick(s, k1).index == Some(i)
    ensures WellFormed(Collapse(Pick(s, k1).state, i, k2, None))
    ensures PropagateDefined(Collapse(Pick(s, k1).state, i, k2, None), i)
    ensures var c := Collapse(Pick(s, k1).state, i, k2, None);
            !c.paused ==> ValidIds(c.grid) && NoEmptyOptions(c.grid)
  {
    var p := Pick(s, k1);
    assert p.state.grid == s.grid && p.state.paused == s.paused && p.state.cols == s.cols;
    if !p.state.complete {
      PickedCell(s, k1, i);
      if !s.paused {
        CollapseKeepsValidIds(p.state, i, k2);
      }
    }
  }

  /** `wfc_loop`: pick a cell of least entropy with draw `k1`, collapse it
      with draw `k2`, then propagate from it. A pick on a complete grid
      returns nothing, and the collapse and propagation then return
      straight away. */
  function Step(s: State, k1: nat, k2: nat): (r: State)
    requires Inv(s) && StepDrawsFit(s, k1, k2)
    ensures WellFormed(r) && r.cols == s.cols && r.rows == s.rows
    ensures s.paused ==> r.paused
  {
    var p := Pick(s, k1);
    match p.index
    case None => p.state
    case Some(i) =>
      CollapseReady(s, k1, k2, i);
      Propagate(Collapse(p.state, i, k2, None), i)
  }

  /** A fresh grid keeps the invariant. */
  lemma InitInv(s: State, cols: nat, rows: nat)
    ensures Inv(Init(s, cols, rows))
  {
    var r := Init(s, cols, rows);
    forall i, t | 0 <= i < |r.grid| && 0 <= t < |r.grid[i].options|
      ensures IsTileId(r.grid[i].options[t])
    {
      assert r.grid[i].options[t] == t;
    }
  }

  /** Every step keeps the invariant: a contradiction is the only way a
      cell runs out of candidates, and it raises `paused`. */
  lemma StepInv(s: State, k1: nat, k2: nat)
    requires Inv(s) && StepDrawsFit(s, k1, k2)
    ensures Inv(Step(s, k1, k2))
  {
    var p := Pick(s, k1);
    if p.index.Some? {
      var i := p.index.value;
      CollapseReady(s, k1, k2, i);
      var c := Collapse(p.state, i, k2, None);
      var r := Propagate(c, i);
      if !r.paused && Active(c, i) {
        PropagateKeepsValidIds(c, i);
        PropagatePausedIff(c, i);
        ActiveHasColumns(c, i);
        forall j | 0 <= j < |r.grid| ensures |r.grid[j].options| > 0 {
          if IsNeighbourOf(c, i, j) {
            var (col, row) := Decode(i, c.cols);
            var o: Direction :| Neighbour(c.cols, c.rows, col, row, o) == Some(j);
            assert !EmptiesNeighbour(c, i, o);
            PropagateFiltersNeighbour(c, i, o, j);
          } else {
            PropagateLeavesOthers(c, i, j);
          }
        }
      }
    }
  }

  /** Once complete, a step changes nothing. */
  lemma StepWhenComplete(s: State, k1: nat, k2: nat)
    requires Inv(s) && StepDrawsFit(s, k1, k2) && s.complete
    ensures Step(s, k1, k2) == s
  {
  }

  /** A step marks the grid complete exactly when it was complete already
      or every cell had been collapsed before it. */
  lemma StepCompleteIff(s: State, k1: nat, k2: nat)
    requires Inv(s) && StepDrawsFit(s, k1, k2)
    ensures Step(s, k1, k2).complete <==> s.complete || AllCollapsed(s.grid)
  {
    var p := Pick(s, k1);
    if p.index.Some? {
      CollapseReady(s, k1, k2, p.index.value);
    }
  }

  /** On an incomplete grid with an empty cell, a step collapses exactly
      that picked cell, a least-entropy one: the collapsed count grows by
      one and no placed tile is ever replaced. */
  lemma StepCollapsesOne(s: State, k1: nat, k2: nat)
    requires Inv(s) && StepDrawsFit(s, k1, k2) && !s.complete && !AllCollapsed(s.grid)
    ensures var r := Step(s, k1, k2);
            && CollapsedCount(r.grid) == CollapsedCount(s.grid) + 1
            && (forall j :: 0 <= j < |s.grid| && Collapsed(s.grid[j]) ==> r.grid[j].tile == s.grid[j].tile)
            && var i := Candidates(s.grid)[k1];
               i < |s.grid| && !Collapsed(s.grid[i]) && Collapsed(r.grid[i])
  {
    var p := Pick(s, k1);
    var i := p.index.value;
    CollapseReady(s, k1, k2, i);
    var c := Collapse(p.state, i, k2, None);
    var r := Propagate(c, i);
    assert forall j :: 0 <= j < |s.grid| ==> r.grid[j].tile == c.grid[j].tile;
    CollapsedUpToOneMore(s.grid, r.grid, i, |s.grid|);
  }

  /** A step never widens a cell's candidates: the picked cell keeps one of
      its own, and every other cell an order-preserving part of its own. */
  lemma StepShrinks(s: State, k1: nat, k2: nat, j: nat)
    requires Inv(s) && !s.paused && StepDrawsFit(s, k1, k2) && j < |s.grid|
    ensures IsSubsequence(Step(s, k1, k2).grid[j].options, s.grid[j].options)
  {
    var p := Pick(s, k1);
    assert p.state.grid == s.grid && p.state.paused == s.paused;
    var before := s.grid[j].options;
    if p.index.None? {
      SubsequenceReflexive(before);
    } else {
      var i := p.index.value;
      CollapseReady(s, k1, k2, i);
      var c := Collapse(p.state, i, k2, None);
      var after := Step(s, k1, k2).grid[j].options;
      assert after == Propagate(c, i).grid[j].options;
      PropagateShrinks(c, i, j);
      CollapseShrinks(s, k1, k2, i, j);
      SubsequenceTransitive(after, c.grid[j].options, before);
    }
  }

  /** The collapse in a step keeps one of the picked cell's candidates and
      leaves every other cell as it was. */
  lemma CollapseShrinks(s: State, k1: nat, k2: nat, i: nat, j: nat)
    requires Inv(s) && !s.paused && StepDrawsFit(s, k1, k2) && Pick(s, k1).index == Some(i)
    requires j < |s.grid|
    ensures IsSubsequence(Collapse(Pick(s, k1).state, i, k2, None).grid[j].options, s.grid[j].options)
  {
    var p := Pick(s, k1);
    assert p.state.grid == s.grid;
    var c := Collapse(p.state, i, k2, None);
    if p.state.complete || j != i {
      assert c.grid[j] == s.grid[j];
      SubsequenceReflexive(s.grid[j].options);
    } else {
      PickedCell(s, k1, i);
    }
  }

  /** How many more steps can change anything: one per empty cell, plus the
      step that notices completion. */
  function Remaining(s: State): nat {
    if s.complete then 0 else |s.grid| - CollapsedCount(s.grid) + 1
  }

  /** Every step on an incomplete grid brings completion one step nearer,
      whatever the draws, so `wfc_loop` marks the grid complete within
      `|grid| + 1` calls, contradictions or not. */
  lemma StepProgress(s: State, k1: nat, k2: nat)
    requires Inv(s) && StepDrawsFit(s, k1, k2) && !s.complete
    ensures Remaining(Step(s, k1, k2)) < Remaining(s)
  {
    StepCompleteIff(s, k1, k2);
    if !AllCollapsed(s.grid) {
      StepCollapsesOne(s, k1, k2);
    }
  }
}
