/** `wfc_collapse`: place one tile in a cell and shrink its candidates to
    that tile alone. */
module Collapser {
  import opened Wrappers
  import opened Tiles
  import opened Grid
  import opened Subsequences

  /** The draw `k` fits the cell: the source draws (and indexes the grid)
      only when the grid is not complete. */
  predicate CollapseDrawFits(s: State, index: nat, k: nat) {
    s.complete || (index < |s.grid| && ValidDraw(k, |s.grid[index].options|))
  }

  /** The id `wfc_collapse` places: the forced id when one is given (the
      source's `tile_index != -1`), else the drawn candidate, which is
      `undefined` when no candidate is left. */
  function ChosenTile(options: seq<nat>, k: nat, forced: Option<nat>): (r: nat)
    ensures forced.Some? ==> r == forced.value
    ensures forced.None? && k < |options| ==> r in options
    ensures forced.None? && |options| == 0 ==> !IsTileId(r)
  {
    if forced.Some? then forced.value
    else if k < |options| then options[k]
    else Undefined
  }

  /** `wfc_collapse(index, tile_index)`, with `forced` None for the default
      `tile_index` of -1. */
  function Collapse(s: State, index: nat, k: nat, forced: Option<nat>): (r: State)
    requires CollapseDrawFits(s, index, k)
    ensures s.complete ==> r == s
    ensures r == s.(grid := r.grid)
    ensures |r.grid| == |s.grid|
    ensures !s.complete ==> forall j :: 0 <= j < |s.grid| && j != index ==> r.grid[j] == s.grid[j]
    ensures !s.complete ==> Collapsed(r.grid[index]) && r.grid[index].options == [r.grid[index].tile.value]
    ensures !s.complete && forced.Some? ==> r.grid[index].tile == forced
    ensures !s.complete && forced.None? && |s.grid[index].options| > 0 ==>
              && r.grid[index].tile == Some(s.grid[index].options[k])
              && IsSubsequence(r.grid[index].options, s.grid[index].options)
    ensures !s.complete && forced.None? && |s.grid[index].options| == 0 ==>
              !IsTileId(r.grid[index].tile.value)
  {
    if s.complete then s
    else
      var cell := s.grid[index];
      var chosen := ChosenTile(cell.options, k, forced);
      var r := s.(grid := s.grid[index := Cell(Some(chosen), [chosen])]);
      if forced.None? && |cell.options| > 0 then
        SingletonSubsequence(cell.options, k);
        r
      else
        r
  }

  /** Collapsing a cell that still has candidates, all of them tile ids,
      keeps every candidate of the grid a tile id and leaves no cell
      without candidates. */
  lemma CollapseKeepsValidIds(s: State, index: nat, k: nat)
    requires CollapseDrawFits(s, index, k) && !s.complete
    requires ValidIds(s.grid) && NoEmptyOptions(s.grid)
    ensures ValidIds(Collapse(s, index, k, None).grid)
    ensures NoEmptyOptions(Collapse(s, index, k, None).grid)
  {
    var r := Collapse(s, index, k, None);
    assert IsTileId(s.grid[index].options[k]);
    forall j, t | 0 <= j < |r.grid| && 0 <= t < |r.grid[j].options|
      ensures IsTileId(r.grid[j].options[t])
    {
      if j != index {
        assert r.grid[j] == s.grid[j];
      }
    }
  }
}
