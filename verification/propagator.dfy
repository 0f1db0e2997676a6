/** `wfc_propagate_all`: after a collapse, filter the candidates of the
    in-range orthogonal neighbours of a cell against the cell's own
    candidates, one ring only. */
module Propagator {
  import opened Wrappers
  import opened Tiles
  import opened Grid
  import opened Pruning
  import opened Subsequences

  /** Column and row offsets of the four neighbours, in the source's order:
      north, east, south, west. */
  function OffsetCol(o: Direction): int {
    if o == East then 1 else if o == West then -1 else 0
  }

  function OffsetRow(o: Direction): int {
    if o == North then -1 else if o == South then 1 else 0
  }

  /** The grid index of the neighbour at offset `o` of (col, row), or None
      when that position is off the grid. */
  function Neighbour(cols: nat, rows: nat, col: nat, row: nat, o: Direction): (r: Option<nat>)
    ensures r.Some? <==> 0 <= col + OffsetCol(o) < cols && 0 <= row + OffsetRow(o) < rows
    ensures r.Some? ==> r.value < cols * rows
    ensures r.Some? ==> Decode(r.value, cols) == ((col + OffsetCol(o)) as nat, (row + OffsetRow(o)) as nat)
  {
    var nc := col + OffsetCol(o);
    var nr := row + OffsetRow(o);
    if nc < 0 || nc >= cols || nr < 0 || nr >= rows then None
    else
      EncodeInGrid(nc as nat, nr as nat, cols, rows);
      EncodeDecode(nc as nat, nr as nat, cols);
      Some(Encode(nc, nr, cols))
  }

  /** Distinct offsets lead to distinct neighbours, none of them the cell
      itself. */
  lemma NeighboursDistinct(cols: nat, rows: nat, col: nat, row: nat, o1: Direction, o2: Direction)
    requires col < cols
    requires Neighbour(cols, rows, col, row, o1).Some?
    ensures Neighbour(cols, rows, col, row, o1) != Some(Encode(col, row, cols))
    ensures o1 != o2 ==> Neighbour(cols, rows, col, row, o1) != Neighbour(cols, rows, col, row, o2)
  {
    var nc1 := col + OffsetCol(o1);
    var nr1 := row + OffsetRow(o1);
    EncodeDecode(nc1 as nat, nr1 as nat, cols);
    EncodeDecode(col, row, cols);
    var n2 := Neighbour(cols, rows, col, row, o2);
    if n2.Some? {
      EncodeDecode((col + OffsetCol(o2)) as nat, (row + OffsetRow(o2)) as nat, cols);
    }
  }

  /** The four neighbour slots of (col, row) in offset order. The source
      recomputes each one inside its loop; nothing in the loop changes
      `cols`, `rows`, `col` or `row`, so computing them up front gives the
      same values. */
  function Neighbours(cols: nat, rows: nat, col: nat, row: nat): (r: seq<Option<nat>>)
    ensures |r| == 4
    ensures forall o: Direction :: r[o] == Neighbour(cols, rows, col, row, o)
  {
    [Neighbour(cols, rows, col, row, North), Neighbour(cols, rows, col, row, East),
     Neighbour(cols, rows, col, row, South), Neighbour(cols, rows, col, row, West)]
  }

  /** The number of filled slots. */
  function Filled(slots: seq<Option<nat>>): nat {
    if |slots| == 0 then 0
    else (if slots[0].Some? then 1 else 0) + Filled(slots[1..])
  }

  /** At most every slot is filled, and all are exactly when none is
      empty. */
  lemma {:induction false} FilledBound(slots: seq<Option<nat>>)
    ensures Filled(slots) <= |slots|
    ensures Filled(slots) == |slots| <==> forall o :: 0 <= o < |slots| ==> slots[o].Some?
  {
    if |slots| > 0 {
      FilledBound(slots[1..]);
      if forall o :: 0 <= o < |slots[1..]| ==> slots[1..][o].Some? {
        assert forall o :: 1 <= o < |slots| ==> slots[o].Some? by {
          forall o | 1 <= o < |slots| ensures slots[o].Some? {
            assert slots[o] == slots[1..][o - 1];
          }
        }
      }
    }
  }

  /** Counting one more slot at the end. */
  lemma {:induction false} FilledSnoc(slots: seq<Option<nat>>, x: Option<nat>)
    ensures Filled(slots + [x]) == Filled(slots) + (if x.Some? then 1 else 0)
  {
    if |slots| > 0 {
      assert (slots + [x])[1..] == slots[1..] + [x];
      FilledSnoc(slots[1..], x);
    }
  }

  /** Counting the filled slots before `o` from those before `o - 1`. */
  lemma FilledPrefixSnoc(slots: seq<Option<nat>>, o: nat)
    requires o <= |slots|
    ensures 0 < o ==> Filled(slots[..o]) == Filled(slots[..o - 1]) + (if slots[o - 1].Some? then 1 else 0)
  {
    if o > 0 {
      assert slots[..o] == slots[..o - 1] + [slots[o - 1]];
      FilledSnoc(slots[..o - 1], slots[o - 1]);
    }
  }

  /** Counting the filled slots before `o` one slot at a time. */
  lemma FilledPrefixShift(slots: seq<Option<nat>>, o: nat)
    requires 0 < o <= |slots|
    ensures Filled(slots[..o]) == (if slots[0].Some? then 1 else 0) + Filled(slots[1..][..o - 1])
  {
    assert slots[..o][1..] == slots[1..][..o - 1];
  }

  /** The value the source's `direction` counter holds when it reaches
      offset `o`: the number of earlier neighbours on the grid, since the
      `continue` for an off-grid neighbour skips `direction++`. */
  function Lag(cols: nat, rows: nat, col: nat, row: nat, o: nat): (r: nat)
    requires o <= 4
    ensures r <= o
    ensures o == 0 ==> r == 0
    ensures 0 < o ==>
              r == Lag(cols, rows, col, row, o - 1) + (if Neighbour(cols, rows, col, row, o - 1).Some? then 1 else 0)
    decreases o
  {
    var slots := Neighbours(cols, rows, col, row);
    FilledBound(slots[..o]);
    FilledPrefixSnoc(slots, o);
    Filled(slots[..o])
  }

  /** The counter never runs ahead of the offset, and matches it exactly
      when no earlier neighbour was off the grid; otherwise it lags. */
  lemma LagMatchesOffset(cols: nat, rows: nat, col: nat, row: nat, o: nat)
    requires o <= 4
    ensures Lag(cols, rows, col, row, o) == o <==>
              forall o': Direction :: o' < o ==> Neighbour(cols, rows, col, row, o').Some?
  {
    var pre := Neighbours(cols, rows, col, row)[..o];
    FilledBound(pre);
    if forall o': Direction :: o' < o ==> Neighbour(cols, rows, col, row, o').Some? {
      assert forall i :: 0 <= i < |pre| ==> pre[i].Some? by {
        forall i | 0 <= i < |pre| ensures pre[i].Some? {
          assert pre[i] == Neighbour(cols, rows, col, row, i);
        }
      }
    }
  }

  /** Neighbour slots, each off the grid or a cell of a grid of `size`
      cells. */
  predicate SlotsIn(slots: seq<Option<nat>>, size: nat) {
    forall o :: 0 <= o < |slots| && slots[o].Some? ==> slots[o].value < size
  }

  /** No cell fills two slots. */
  predicate SlotsDistinct(slots: seq<Option<nat>>) {
    forall o1, o2 :: 0 <= o1 < o2 < |slots| && slots[o1].Some? ==> slots[o1] != slots[o2]
  }

  /** The neighbours of a position of a well-formed grid fill distinct
      slots inside the grid, none of them the position itself. */
  lemma NeighbourSlots(s: State, col: nat, row: nat)
    requires WellFormed(s) && col < s.cols
    ensures SlotsIn(Neighbours(s.cols, s.rows, col, row), |s.grid|)
    ensures SlotsDistinct(Neighbours(s.cols, s.rows, col, row))
    ensures Some(Encode(col, row, s.cols)) !in Neighbours(s.cols, s.rows, col, row)
  {
    var nbs := Neighbours(s.cols, s.rows, col, row);
    forall o: Direction | nbs[o].Some?
      ensures nbs[o].value < |s.grid| && nbs[o] != Some(Encode(col, row, s.cols))
    {
      EncodeInGrid((col + OffsetCol(o)) as nat, (row + OffsetRow(o)) as nat, s.cols, s.rows);
      NeighboursDistinct(s.cols, s.rows, col, row, o, o);
    }
    forall o1: Direction, o2: Direction | o1 < o2 && nbs[o1].Some?
      ensures nbs[o1] != nbs[o2]
    {
      NeighboursDistinct(s.cols, s.rows, col, row, o1, o2);
    }
  }

  /** One pass of the loop body on the neighbour at index `n`, with the
      counter at `d`: filter its candidates against `centre` and raise
      `paused` when the filter empties them. */
  function Visit(s: State, centre: seq<nat>, n: nat, d: Direction): (r: State)
    requires n < |s.grid|
    ensures r.cols == s.cols && r.rows == s.rows && r.complete == s.complete
    ensures |r.grid| == |s.grid|
    ensures forall j :: 0 <= j < |s.grid| && j != n ==> r.grid[j] == s.grid[j]
    ensures r.grid[n].tile == s.grid[n].tile
    ensures IsSubsequence(r.grid[n].options, s.grid[n].options)
    ensures r.paused <==> s.paused || (|s.grid[n].options| > 0 && |r.grid[n].options| == 0)
  {
    var before := s.grid[n].options;
    var pruned := Prune(before, centre, d);
    s.(grid := s.grid[n := s.grid[n].(options := pruned)],
       paused := s.paused || (|before| > 0 && |pruned| == 0))
  }

  /** The loop over the remaining slots, with the counter at `d`: each
      in-range neighbour is filtered along direction `d`, and the counter
      advances only past in-range ones. The source's `is_propagated` test
      never fires, since no code sets that field, so collapsed neighbours
      are filtered too; and a contradiction raises `paused` without leaving
      the loop. */
  function PropagateFrom(s: State, centre: seq<nat>, slots: seq<Option<nat>>, d: nat): (r: State)
    requires SlotsIn(slots, |s.grid|) && d + |slots| <= 4
    ensures r.cols == s.cols && r.rows == s.rows && r.complete == s.complete
    ensures |r.grid| == |s.grid|
    ensures forall j :: 0 <= j < |s.grid| ==> r.grid[j].tile == s.grid[j].tile
    ensures s.paused ==> r.paused
    decreases |slots|
  {
    if |slots| == 0 then s
    else match slots[0]
      case None => PropagateFrom(s, centre, slots[1..], d)
      case Some(n) => PropagateFrom(Visit(s, centre, n, d), centre, slots[1..], d + 1)
  }

  /** The loop leaves every cell outside the slots as it was. */
  lemma {:induction false} PropagateFromUntouched(s: State, centre: seq<nat>, slots: seq<Option<nat>>, d: nat, j: nat)
    requires SlotsIn(slots, |s.grid|) && d + |slots| <= 4
    requires j < |s.grid| && Some(j) !in slots
    ensures PropagateFrom(s, centre, slots, d).grid[j] == s.grid[j]
    decreases |slots|
  {
    if |slots| > 0 {
      assert Some(j) !in slots[1..];
      match slots[0]
      case None =>
        PropagateFromUntouched(s, centre, slots[1..], d, j);
      case Some(n) =>
        PropagateFromUntouched(Visit(s, centre, n, d), centre, slots[1..], d + 1, j);
    }
  }

  /** The neighbour in the first slot is filtered along the counter's
      start value and then left alone. */
  lemma PropagateFromFiltersFirst(s: State, centre: seq<nat>, slots: seq<Option<nat>>, d: nat, n: nat)
    requires SlotsIn(slots, |s.grid|) && SlotsDistinct(slots) && d + |slots| <= 4
    requires 0 < |slots| && slots[0] == Some(n)
    ensures d < 4
    ensures PropagateFrom(s, centre, slots, d).grid[n].options == Prune(s.grid[n].options, centre, d)
  {
    assert Some(n) !in slots[1..] by {
      forall o' | 0 <= o' < |slots[1..]| ensures slots[1..][o'] != Some(n) {
        assert slots[1..][o'] == slots[o' + 1];
      }
    }
    var s' := Visit(s, centre, n, d);
    VisitFilters(s, centre, n, d);
    PropagateFromUntouched(s', centre, slots[1..], d + 1, n);
  }

  /** Passing the first slot, which holds another cell, changes neither the
      later neighbour's candidates nor the counter's value at its slot. */
  lemma PropagateFromFiltersLater(s: State, centre: seq<nat>, slots: seq<Option<nat>>, d: nat, o: nat, n: nat)
    requires SlotsIn(slots, |s.grid|) && SlotsDistinct(slots) && d + |slots| <= 4
    requires 0 < o < |slots| && slots[o] == Some(n)
    ensures var s' := if slots[0].Some? then Visit(s, centre, slots[0].value, d) else s;
            var d' := if slots[0].Some? then d + 1 else d;
            && SlotsIn(slots[1..], |s'.grid|) && SlotsDistinct(slots[1..]) && d' + |slots[1..]| <= 4
            && slots[1..][o - 1] == Some(n)
            && s'.grid[n] == s.grid[n]
            && d' + Filled(slots[1..][..o - 1]) == d + Filled(slots[..o])
            && PropagateFrom(s, centre, slots, d) == PropagateFrom(s', centre, slots[1..], d')
  {
    FilledPrefixShift(slots, o);
    assert SlotsDistinct(slots[1..]) by {
      forall o1, o2 | 0 <= o1 < o2 < |slots[1..]| && slots[1..][o1].Some? ensures slots[1..][o1] != slots[1..][o2] {
        assert slots[1..][o1] == slots[o1 + 1] && slots[1..][o2] == slots[o2 + 1];
      }
    }
    assert slots[1..][o - 1] == slots[o];
  }

  /** The loop leaves the neighbour in slot `o` holding the filter of its
      old candidates along the counter's value on reaching slot `o`: the
      start value plus the filled slots before it. */
  lemma {:induction false} PropagateFromFilters(s: State, centre: seq<nat>, slots: seq<Option<nat>>, d: nat, o: nat, n: nat)
    requires SlotsIn(slots, |s.grid|) && SlotsDistinct(slots) && d + |slots| <= 4
    requires o < |slots| && slots[o] == Some(n)
    ensures d + Filled(slots[..o]) < 4
    ensures PropagateFrom(s, centre, slots, d).grid[n].options
         == Prune(s.grid[n].options, centre, d + Filled(slots[..o]))
    decreases |slots|
  {
    FilledBound(slots[..o]);
    if o == 0 {
      assert slots[..0] == [];
      PropagateFromFiltersFirst(s, centre, slots, d, n);
    } else {
      PropagateFromFiltersLater(s, centre, slots, d, o, n);
      var s' := if slots[0].Some? then Visit(s, centre, slots[0].value, d) else s;
      var d' := if slots[0].Some? then d + 1 else d;
      PropagateFromFilters(s', centre, slots[1..], d', o - 1, n);
    }
  }

  /** The visited neighbour's candidates are the filter of its old ones. */
  lemma VisitFilters(s: State, centre: seq<nat>, n: nat, d: Direction)
    requires n < |s.grid|
    ensures Visit(s, centre, n, d).grid[n].options == Prune(s.grid[n].options, centre, d)
  {
  }

  /** Every cell keeps an order-preserving part of its candidates. */
  lemma PropagateFromShrinks(s: State, centre: seq<nat>, slots: seq<Option<nat>>, d: nat, j: nat)
    requires SlotsIn(slots, |s.grid|) && SlotsDistinct(slots) && d + |slots| <= 4
    requires j < |s.grid|
    ensures IsSubsequence(PropagateFrom(s, centre, slots, d).grid[j].options, s.grid[j].options)
  {
    if o :| 0 <= o < |slots| && slots[o] == Some(j) {
      PropagateFromFilters(s, centre, slots, d, o, j);
    } else {
      PropagateFromUntouched(s, centre, slots, d, j);
      SubsequenceReflexive(s.grid[j].options);
    }
  }

  /** Whether the loop empties the neighbour in slot `o`: it had candidates
      and none of them survives the filter along the counter's value on
      reaching that slot. */
  predicate EmptiesSlot(s: State, centre: seq<nat>, slots: seq<Option<nat>>, d: nat, o: nat)
    requires SlotsIn(slots, |s.grid|) && d + |slots| <= 4 && o < |slots|
  {
    FilledBound(slots[..o]);
    && slots[o].Some?
    && |s.grid[slots[o].value].options| > 0
    && |Prune(s.grid[slots[o].value].options, centre, d + Filled(slots[..o]))| == 0
  }

  /** Emptying a later slot looks the same before and after the first slot
      is passed, since that pass changes no other slot's cell. */
  lemma EmptiesSlotShift(s: State, s': State, centre: seq<nat>, slots: seq<Option<nat>>, d: nat, d': nat, o: nat)
    requires SlotsIn(slots, |s.grid|) && SlotsDistinct(slots) && d + |slots| <= 4 && 0 < o < |slots|
    requires |s'.grid| == |s.grid|
    requires d' == d + (if slots[0].Some? then 1 else 0)
    requires forall j :: 0 <= j < |s.grid| && Some(j) != slots[0] ==> s'.grid[j] == s.grid[j]
    ensures SlotsIn(slots[1..], |s'.grid|) && d' + |slots[1..]| <= 4
    ensures EmptiesSlot(s, centre, slots, d, o) <==> EmptiesSlot(s', centre, slots[1..], d', o - 1)
  {
    FilledPrefixShift(slots, o);
    assert slots[1..][o - 1] == slots[o];
    assert slots[1..][..o - 1] == slots[1..o];
    assert slots[..o][1..] == slots[1..o];
  }

  /** The loop raises `paused` exactly when it was raised already or the
      loop empties some neighbour's candidates. */
  lemma {:induction false} PropagateFromPaused(s: State, centre: seq<nat>, slots: seq<Option<nat>>, d: nat)
    requires SlotsIn(slots, |s.grid|) && SlotsDistinct(slots) && d + |slots| <= 4
    ensures PropagateFrom(s, centre, slots, d).paused <==>
              s.paused || exists o :: 0 <= o < |slots| && EmptiesSlot(s, centre, slots, d, o)
    decreases |slots|
  {
    if |slots| > 0 {
      var rest := slots[1..];
      var s' := if slots[0].Some? then Visit(s, centre, slots[0].value, d) else s;
      var d' := if slots[0].Some? then d + 1 else d;
      assert SlotsDistinct(rest) by {
        forall o1, o2 | 0 <= o1 < o2 < |rest| && rest[o1].Some? ensures rest[o1] != rest[o2] {
          assert rest[o1] == slots[o1 + 1] && rest[o2] == slots[o2 + 1];
        }
      }
      forall o | 1 <= o < |slots|
        ensures EmptiesSlot(s, centre, slots, d, o) <==> EmptiesSlot(s', centre, rest, d', o - 1)
      {
        EmptiesSlotShift(s, s', centre, slots, d, d', o);
      }
      assert s'.paused <==> s.paused || EmptiesSlot(s, centre, slots, d, 0) by {
        assert slots[..0] == [];
      }
      PropagateFromPaused(s', centre, rest, d');
      if exists o' :: 0 <= o' < |rest| && EmptiesSlot(s', centre, rest, d', o') {
        var o' :| 0 <= o' < |rest| && EmptiesSlot(s', centre, rest, d', o');
        assert EmptiesSlot(s, centre, slots, d, o' + 1);
      }
      if exists o :: 1 <= o < |slots| && EmptiesSlot(s, centre, slots, d, o) {
        var o :| 1 <= o < |slots| && EmptiesSlot(s, centre, slots, d, o);
        assert EmptiesSlot(s', centre, rest, d', o - 1);
      }
    }
  }

  /** `wfc_propagate_all(index)` runs without a TypeError: it returns before
      touching a tile when the application is paused or the grid complete;
      otherwise every candidate entry it can look up must name a tile, and
      with no columns the index must not be 0 (the source then computes a
      NaN row that passes the range test and reads a missing cell). */
  predicate PropagateDefined(s: State, index: nat) {
    s.paused || s.complete || (ValidIds(s.grid) && (s.cols > 0 || index > 0))
  }

  /** `wfc_propagate_all(index)`: filter the candidates of the in-range
      neighbours of cell `index` against that cell's own candidates. A
      paused or complete state, and an index whose row is off the grid, are
      left alone; with no columns the source's row is `Infinity` for any
      index above 0, which fails the range test too. */
  function Propagate(s: State, index: nat): (r: State)
    requires WellFormed(s) && PropagateDefined(s, index)
    ensures WellFormed(r) && r.cols == s.cols && r.rows == s.rows && r.complete == s.complete
    ensures forall j :: 0 <= j < |s.grid| ==> r.grid[j].tile == s.grid[j].tile
    ensures s.paused || s.complete || index >= |s.grid| ==> r == s
    ensures s.paused ==> r.paused
  {
    if s.paused || s.complete || s.cols == 0 then s
    else
      var (col, row) := Decode(index, s.cols);
      DecodeInGrid(index, s.cols, s.rows);
      if row >= s.rows then s
      else
        NeighbourSlots(s, col, row);
        PropagateFrom(s, s.grid[index].options, Neighbours(s.cols, s.rows, col, row), 0)
  }

  /** The call does real work: nothing stops it early and the index is a
      cell of the grid. */
  predicate Active(s: State, index: nat) {
    !s.paused && !s.complete && index < |s.grid|
  }

  /** Whether `j` is the neighbour of cell `index` at some offset. */
  predicate IsNeighbourOf(s: State, index: nat, j: nat)
    requires s.cols > 0
  {
    var (col, row) := Decode(index, s.cols);
    exists o: Direction :: Neighbour(s.cols, s.rows, col, row, o) == Some(j)
  }

  /** An active call has columns to decode the index with. */
  lemma ActiveHasColumns(s: State, index: nat)
    requires WellFormed(s) && Active(s, index)
    ensures s.cols > 0 && Decode(index, s.cols).1 < s.rows
  {
    DecodeInGrid(index, s.cols, s.rows);
  }

  /** The in-range neighbour at offset `o` ends up holding its old
      candidates filtered against the cell's candidates along the
      direction the counter holds there, `Lag`, which is `o` itself only
      when no earlier neighbour was off the grid. Collapsed neighbours are
      filtered like any other. */
  lemma PropagateFiltersNeighbour(s: State, index: nat, o: Direction, n: nat)
    requires WellFormed(s) && PropagateDefined(s, index) && Active(s, index)
    requires s.cols > 0 && Neighbour(s.cols, s.rows, Decode(index, s.cols).0, Decode(index, s.cols).1, o) == Some(n)
    ensures n < |s.grid|
    ensures Propagate(s, index).grid[n].options
         == Prune(s.grid[n].options, s.grid[index].options, Lag(s.cols, s.rows, Decode(index, s.cols).0, Decode(index, s.cols).1, o))
  {
    var (col, row) := Decode(index, s.cols);
    ActiveHasColumns(s, index);
    NeighbourSlots(s, col, row);
    var nbs := Neighbours(s.cols, s.rows, col, row);
    assert nbs[o] == Some(n);
    PropagateFromFilters(s, s.grid[index].options, nbs, 0, o, n);
  }

  /** Away from the grid's edges no neighbour is skipped, so each one is
      filtered along its own direction. */
  lemma PropagateInteriorTrueDirection(s: State, index: nat, o: Direction, n: nat)
    requires WellFormed(s) && PropagateDefined(s, index) && Active(s, index) && s.cols > 0
    requires forall o': Direction :: Neighbour(s.cols, s.rows, Decode(index, s.cols).0, Decode(index, s.cols).1, o').Some?
    requires Neighbour(s.cols, s.rows, Decode(index, s.cols).0, Decode(index, s.cols).1, o) == Some(n)
    ensures n < |s.grid|
    ensures Propagate(s, index).grid[n].options == Prune(s.grid[n].options, s.grid[index].options, o)
  {
    var (col, row) := Decode(index, s.cols);
    LagMatchesOffset(s.cols, s.rows, col, row, o);
    PropagateFiltersNeighbour(s, index, o, n);
  }

  /** Every cell that is not a neighbour, the cell itself included, is left
      as it was. */
  lemma PropagateLeavesOthers(s: State, index: nat, j: nat)
    requires WellFormed(s) && PropagateDefined(s, index) && Active(s, index)
    requires s.cols > 0 && j < |s.grid| && !IsNeighbourOf(s, index, j)
    ensures Propagate(s, index).grid[j] == s.grid[j]
  {
    var (col, row) := Decode(index, s.cols);
    ActiveHasColumns(s, index);
    NeighbourSlots(s, col, row);
    var nbs := Neighbours(s.cols, s.rows, col, row);
    assert Some(j) !in nbs by {
      forall o | 0 <= o < |nbs| ensures nbs[o] != Some(j) {
        assert nbs[o] == Neighbour(s.cols, s.rows, col, row, o);
      }
    }
    PropagateFromUntouched(s, s.grid[index].options, nbs, 0, j);
  }

  /** The cell whose neighbours are filtered is not one of them. */
  lemma CentreIsNoNeighbour(s: State, index: nat)
    requires WellFormed(s) && Active(s, index)
    ensures s.cols > 0 && !IsNeighbourOf(s, index, index)
  {
    var (col, row) := Decode(index, s.cols);
    ActiveHasColumns(s, index);
    NeighbourSlots(s, col, row);
    DecodeEncode(index, s.cols);
    var nbs := Neighbours(s.cols, s.rows, col, row);
    forall o: Direction ensures Neighbour(s.cols, s.rows, col, row, o) != Some(index) {
      assert nbs[o] == Neighbour(s.cols, s.rows, col, row, o);
    }
  }

  /** Every cell keeps an order-preserving part of its candidates, so ids
      stay ids of the catalogue. */
  lemma PropagateShrinks(s: State, index: nat, j: nat)
    requires WellFormed(s) && PropagateDefined(s, index) && j < |s.grid|
    ensures IsSubsequence(Propagate(s, index).grid[j].options, s.grid[j].options)
  {
    if !Active(s, index) {
      SubsequenceReflexive(s.grid[j].options);
    } else {
      var (col, row) := Decode(index, s.cols);
      ActiveHasColumns(s, index);
      NeighbourSlots(s, col, row);
      PropagateFromShrinks(s, s.grid[index].options, Neighbours(s.cols, s.rows, col, row), 0, j);
    }
  }

  /** Filtering never brings in an id outside the catalogue. */
  lemma PropagateKeepsValidIds(s: State, index: nat)
    requires WellFormed(s) && PropagateDefined(s, index) && ValidIds(s.grid)
    ensures ValidIds(Propagate(s, index).grid)
  {
    var r := Propagate(s, index);
    forall i, k | 0 <= i < |r.grid| && 0 <= k < |r.grid[i].options|
      ensures IsTileId(r.grid[i].options[k])
    {
      PropagateShrinks(s, index, i);
      SubsequenceElements(r.grid[i].options, s.grid[i].options);
      assert r.grid[i].options[k] in s.grid[i].options;
    }
  }

  /** Whether the call empties the neighbour at offset `o`: it had
      candidates and none of them survives the filter. */
  predicate EmptiesNeighbour(s: State, index: nat, o: Direction)
    requires WellFormed(s) && Active(s, index)
  {
    ActiveHasColumns(s, index);
    var (col, row) := Decode(index, s.cols);
    var nb := Neighbour(s.cols, s.rows, col, row, o);
    LagMatchesOffset(s.cols, s.rows, col, row, o);
    NeighbourSlots(s, col, row);
    assert Neighbours(s.cols, s.rows, col, row)[o] == nb;
    && nb.Some?
    && |s.grid[nb.value].options| > 0
    && |Prune(s.grid[nb.value].options, s.grid[index].options, Lag(s.cols, s.rows, col, row, o))| == 0
  }

  /** A contradiction does not stop the loop: `paused` ends up raised
      exactly when some neighbour was emptied, and every neighbour is
      filtered regardless. */
  lemma PropagatePausedIff(s: State, index: nat)
    requires WellFormed(s) && PropagateDefined(s, index) && Active(s, index)
    ensures Propagate(s, index).paused <==> exists o: Direction :: EmptiesNeighbour(s, index, o)
  {
    var (col, row) := Decode(index, s.cols);
    ActiveHasColumns(s, index);
    NeighbourSlots(s, col, row);
    var nbs := Neighbours(s.cols, s.rows, col, row);
    var centre := s.grid[index].options;
    PropagateFromPaused(s, centre, nbs, 0);
    forall o: Direction ensures EmptiesSlot(s, centre, nbs, 0, o) <==> EmptiesNeighbour(s, index, o) {
      assert nbs[o] == Neighbour(s.cols, s.rows, col, row, o);
    }
    if exists o :: 0 <= o < |nbs| && EmptiesSlot(s, centre, nbs, 0, o) {
      var o :| 0 <= o < |nbs| && EmptiesSlot(s, centre, nbs, 0, o);
      assert EmptiesNeighbour(s, index, o);
    }
  }
}
