/** `wfc_pick`: choose an empty cell of minimal entropy (fewest candidates),
    drawing among the tied cells in ascending index order. */
module Picker {
  import opened Wrappers
  import opened Grid

  /** The least candidate count among the empty cells of the first `n`,
      or None (the source's `Infinity`) when all of them are collapsed. */
  function MinEntropyUpTo(grid: seq<Cell>, n: nat): Option<nat>
    requires n <= |grid|
  {
    if n == 0 then None
    else
      var prev := MinEntropyUpTo(grid, n - 1);
      var cell := grid[n - 1];
      if Collapsed(cell) then prev
      else if prev.None? || |cell.options| < prev.value then Some(|cell.options|)
      else prev
  }

  /** The running minimum is the least count of the empty cells seen so far,
      attained by one of them, and is absent only when there is none. */
  lemma {:induction false} MinEntropyUpToIsMinimum(grid: seq<Cell>, n: nat)
    requires n <= |grid|
    ensures var r := MinEntropyUpTo(grid, n);
            && (r.None? <==> forall j :: 0 <= j < n ==> Collapsed(grid[j]))
            && (r.Some? ==> exists j :: 0 <= j < n && !Collapsed(grid[j]) && |grid[j].options| == r.value)
            && (r.Some? ==> forall j :: 0 <= j < n && !Collapsed(grid[j]) ==> r.value <= |grid[j].options|)
  {
    if n > 0 {
      MinEntropyUpToIsMinimum(grid, n - 1);
      var prev := MinEntropyUpTo(grid, n - 1);
      if !Collapsed(grid[n - 1]) && prev.Some? && |grid[n - 1].options| >= prev.value {
        var j :| 0 <= j < n - 1 && !Collapsed(grid[j]) && |grid[j].options| == prev.value;
      }
    }
  }

  /** The indices below `n` of the empty cells with exactly `m` candidates,
      ascending. */
  function TiedUpTo(grid: seq<Cell>, n: nat, m: nat): seq<nat>
    requires n <= |grid|
  {
    if n == 0 then []
    else
      var prev := TiedUpTo(grid, n - 1, m);
      if !Collapsed(grid[n - 1]) && |grid[n - 1].options| == m then prev + [n - 1] else prev
  }

  /** The tied list holds exactly the empty cells below `n` with `m`
      candidates, each once, in ascending order. */
  lemma {:induction false} TiedUpToIsSortedFilter(grid: seq<Cell>, n: nat, m: nat)
    requires n <= |grid|
    ensures var r := TiedUpTo(grid, n, m);
            && (forall x: nat :: x in r <==> x < n && !Collapsed(grid[x]) && |grid[x].options| == m)
            && (forall a, b :: 0 <= a < b < |r| ==> r[a] < r[b])
            && (forall a :: 0 <= a < |r| ==> r[a] < n)
  {
    if n > 0 {
      TiedUpToIsSortedFilter(grid, n - 1, m);
    }
  }

  /** The minimal-entropy cells in ascending index order: the list the
      source's draw selects from. */
  function Candidates(grid: seq<Cell>): (r: seq<nat>)
    ensures forall i: nat :: i in r <==>
              i < |grid| && !Collapsed(grid[i])
              && forall u :: 0 <= u < |grid| && !Collapsed(grid[u]) ==> |grid[i].options| <= |grid[u].options|
    ensures forall a, b :: 0 <= a < b < |r| ==> r[a] < r[b]
    ensures |r| > 0 <==> !AllCollapsed(grid)
  {
    MinEntropyUpToIsMinimum(grid, |grid|);
    match MinEntropyUpTo(grid, |grid|)
    case None => []
    case Some(m) =>
      TiedUpToIsSortedFilter(grid, |grid|, m);
      CandidatesNonEmpty(grid, m);
      TiedUpTo(grid, |grid|, m)
  }

  /** Some empty cell attains the minimum, so the tied list is not empty. */
  lemma CandidatesNonEmpty(grid: seq<Cell>, m: nat)
    requires MinEntropyUpTo(grid, |grid|) == Some(m)
    ensures |TiedUpTo(grid, |grid|, m)| > 0
  {
    MinEntropyUpToIsMinimum(grid, |grid|);
    TiedUpToIsSortedFilter(grid, |grid|, m);
    var j :| 0 <= j < |grid| && !Collapsed(grid[j]) && |grid[j].options| == m;
    assert j in TiedUpTo(grid, |grid|, m);
  }

  /** When every empty cell below `n` has at least `m0` candidates, none
      of them is tied at a smaller count `m`. */
  lemma {:induction false} TiedNone(grid: seq<Cell>, n: nat, m: nat, m0: nat)
    requires n <= |grid| && m < m0
    requires forall j :: 0 <= j < n && !Collapsed(grid[j]) ==> m0 <= |grid[j].options|
    ensures TiedUpTo(grid, n, m) == []
  {
    if n > 0 {
      TiedNone(grid, n - 1, m, m0);
    }
  }

  /** The tied list the scan holds after the first `i` cells. */
  function TiedSoFar(grid: seq<Cell>, i: nat, minEntropy: Option<nat>): seq<nat>
    requires i <= |grid|
  {
    match minEntropy
    case None => []
    case Some(m) => TiedUpTo(grid, i, m)
  }

  /** One iteration of the scan on an empty cell: restart the tied list on a
      strictly smaller count, append on an equal one, else keep it. */
  lemma ScanStep(grid: seq<Cell>, i: nat, minEntropy: Option<nat>, elems: seq<nat>)
    requires i < |grid| && !Collapsed(grid[i])
    requires minEntropy == MinEntropyUpTo(grid, i)
    requires elems == TiedSoFar(grid, i, minEntropy)
    ensures var e := |grid[i].options|;
            if minEntropy.None? || e < minEntropy.value then
              && MinEntropyUpTo(grid, i + 1) == Some(e)
              && TiedSoFar(grid, i + 1, Some(e)) == [i]
            else if e == minEntropy.value then
              && MinEntropyUpTo(grid, i + 1) == minEntropy
              && TiedSoFar(grid, i + 1, minEntropy) == elems + [i]
            else
              && MinEntropyUpTo(grid, i + 1) == minEntropy
              && TiedSoFar(grid, i + 1, minEntropy) == elems
  {
    var e := |grid[i].options|;
    MinEntropyUpToIsMinimum(grid, i);
    if minEntropy.None? || e < minEntropy.value {
      TiedNone(grid, i, e, if minEntropy.None? then e + 1 else minEntropy.value);
    }
  }

  /** One iteration of the scan on a collapsed cell: only the count moves. */
  lemma ScanSkip(grid: seq<Cell>, i: nat, minEntropy: Option<nat>)
    requires i < |grid| && Collapsed(grid[i])
    ensures MinEntropyUpTo(grid, i + 1) == MinEntropyUpTo(grid, i)
    ensures TiedSoFar(grid, i + 1, minEntropy) == TiedSoFar(grid, i, minEntropy)
    ensures CollapsedUpTo(grid, i + 1) == CollapsedUpTo(grid, i) + 1
  {
  }

  /** At the end of the scan the tied list is the candidate list. */
  lemma ScanDone(grid: seq<Cell>, minEntropy: Option<nat>, elems: seq<nat>)
    requires minEntropy == MinEntropyUpTo(grid, |grid|)
    requires elems == TiedSoFar(grid, |grid|, minEntropy)
    ensures elems == Candidates(grid)
  {
  }

  /** The scan as the source writes it: one pass keeping the running
      minimum, restarting the tied list on a strictly smaller count and
      appending on an equal one, and counting collapsed cells on the way. */
  method ScanMinEntropy(grid: seq<Cell>) returns (minEntropy: Option<nat>, elems: seq<nat>, collapsedCount: nat)
    ensures minEntropy == MinEntropyUpTo(grid, |grid|)
    ensures elems == Candidates(grid)
    ensures collapsedCount == CollapsedCount(grid)
  {
    minEntropy := None;
    elems := [];
    collapsedCount := 0;
    var i := 0;
    while i < |grid|
      invariant 0 <= i <= |grid|
      invariant minEntropy == MinEntropyUpTo(grid, i)
      invariant elems == TiedSoFar(grid, i, minEntropy)
      invariant collapsedCount == CollapsedUpTo(grid, i)
    {
      var cell := grid[i];
      if cell.tile.Some? {
        ScanSkip(grid, i, minEntropy);
        collapsedCount := collapsedCount + 1;
      } else {
        ScanStep(grid, i, minEntropy, elems);
        assert CollapsedUpTo(grid, i + 1) == CollapsedUpTo(grid, i);
        if minEntropy.None? || |cell.options| < minEntropy.value {
          minEntropy := Some(|cell.options|);
          elems := [i];
        } else if |cell.options| == minEntropy.value {
          elems := elems + [i];
        }
      }
      i := i + 1;
    }
    ScanDone(grid, minEntropy, elems);
  }

  /** What `wfc_pick` leaves behind: the state (only `complete` may have
      changed) and the returned index, None for the bare `return`. */
  datatype Picked = Picked(state: State, index: Option<nat>)

  /** The draw `k` picks among the tied cells; the source draws only when
      the grid is neither complete nor fully collapsed. */
  predicate PickDrawFits(s: State, k: nat) {
    !s.complete && !AllCollapsed(s.grid) ==> k < |Candidates(s.grid)|
  }

  /** `wfc_pick`. */
  function Pick(s: State, k: nat): (r: Picked)
    requires PickDrawFits(s, k)
    ensures r.index.None? <==> s.complete
    ensures r.state == s.(complete := s.complete || AllCollapsed(s.grid))
    ensures !s.complete && AllCollapsed(s.grid) ==> r.index == Some(0)
    ensures !s.complete && !AllCollapsed(s.grid) ==>
              && r.index.value < |s.grid|
              && !Collapsed(s.grid[r.index.value])
              && (forall u :: 0 <= u < |s.grid| && !Collapsed(s.grid[u]) ==>
                    |s.grid[r.index.value].options| <= |s.grid[u].options|)
              && r.index.value == Candidates(s.grid)[k]
  {
    if s.complete then Picked(s, None)
    else if CollapsedCount(s.grid) == |s.grid| then Picked(s.(complete := true), Some(0))
    else
      var c := Candidates(s.grid);
      assert c[k] in c;
      Picked(s, Some(c[k]))
  }

  /** The tie-break keeps every tied cell: each empty cell of minimal
      entropy is the one picked by some draw. */
  lemma EveryTiedCellCanBePicked(s: State, i: nat)
    requires !s.complete && i < |s.grid| && !Collapsed(s.grid[i])
    requires forall u :: 0 <= u < |s.grid| && !Collapsed(s.grid[u]) ==> |s.grid[i].options| <= |s.grid[u].options|
    ensures exists k :: PickDrawFits(s, k) && Pick(s, k).index == Some(i)
  {
    var c := Candidates(s.grid);
    assert i in c;
    var k :| 0 <= k < |c| && c[k] == i;
    assert PickDrawFits(s, k) && Pick(s, k).index == Some(i);
  }
}
