/** The filter `wfc_propagate_all` applies to one neighbour: keep the
    candidates some tile of the centre cell still admits. */
module Pruning {
  import opened Tiles
  import opened Subsequences

  /** Whether some tile in `centre` admits tile `t` on its side `d`. Ids
      outside the catalogue admit nothing; the source never filters with
      them (it would fail on their missing `sides`), see `PruneInPlace`. */
  function Supports(centre: seq<nat>, d: Direction, t: nat): (r: bool)
    ensures r <==> exists j :: 0 <= j < |centre| && IsTileId(centre[j]) && IsTileId(t) && Compatible(centre[j], d, t)
  {
    if |centre| == 0 then false
    else if IsTileId(centre[0]) && IsTileId(t) && Compatible(centre[0], d, t) then true
    else
      var r := Supports(centre[1..], d, t);
      assert forall j :: 1 <= j < |centre| ==> centre[j] == centre[1..][j - 1];
      r
  }

  /** The candidates of `xs` that some tile of `centre` admits on side `d`,
      in their original order. */
  function Prune(xs: seq<nat>, centre: seq<nat>, d: Direction): (r: seq<nat>)
    ensures IsSubsequence(r, xs)
  {
    if |xs| == 0 then []
    else
      var rest := Prune(xs[1..], centre, d);
      if Supports(centre, d, xs[0]) then
        var r := [xs[0]] + rest;
        assert r[1..] == rest;
        r
      else
        SubsequenceOfTail(rest, xs);
        rest
  }

  /** The filter keeps a candidate exactly when some centre tile admits it:
      it never gains an element, and loses only unsupported ones. */
  lemma {:induction false} PruneKeepsExactlySupported(xs: seq<nat>, centre: seq<nat>, d: Direction)
    ensures forall t :: t in Prune(xs, centre, d) <==> t in xs && Supports(centre, d, t)
  {
    if |xs| > 0 {
      PruneKeepsExactlySupported(xs[1..], centre, d);
      assert forall t :: t in xs <==> t == xs[0] || t in xs[1..];
    }
  }

  /** Filtering a suffix from one position on: the element there, if kept,
      followed by the filtered remainder. */
  lemma PruneAt(xs: seq<nat>, centre: seq<nat>, d: Direction, i: nat)
    requires i < |xs|
    ensures Prune(xs[i..], centre, d)
         == (if Supports(centre, d, xs[i]) then [xs[i]] else []) + Prune(xs[i + 1..], centre, d)
  {
    assert xs[i..][0] == xs[i];
    assert xs[i..][1..] == xs[i + 1..];
  }

  /** The source's inner search: scan the centre's candidates and stop at
      the first that admits `option` on side `d`. */
  method FindSupport(centre: seq<nat>, d: Direction, option: nat) returns (found: bool)
    requires IdsValid(centre) && IsTileId(option)
    ensures found == Supports(centre, d, option)
  {
    found := false;
    var j := 0;
    while j < |centre|
      invariant 0 <= j <= |centre|
      invariant forall j' :: 0 <= j' < j ==> !Compatible(centre[j'], d, option)
    {
      if SideOf(centre[j], d) == SideOf(option, Opposite(d)) {
        found := true;
        break;
      }
      j := j + 1;
    }
  }

  /** One backward step of the splice loop, on the sequence level: the
      candidates before position `i`, followed by the filtered suffix from
      `i + 1`, with `options[i]` kept or spliced out. */
  lemma SpliceStep(options: seq<nat>, centre: seq<nat>, d: Direction, i: nat, keep: bool)
    requires i < |options|
    requires keep == Supports(centre, d, options[i])
    ensures var opts := options[..i + 1] + Prune(options[i + 1..], centre, d);
            (if keep then opts else opts[..i] + opts[i + 1..])
            == options[..i] + Prune(options[i..], centre, d)
  {
    PruneAt(options, centre, d, i);
    assert options[..i + 1] == options[..i] + [options[i]];
  }

  /** The source's loop: walk the neighbour's candidates from the back,
      splice out each candidate no centre tile admits, and raise `emptied`
      when a splice leaves nothing. */
  method PruneInPlace(options: seq<nat>, centre: seq<nat>, d: Direction) returns (opts: seq<nat>, emptied: bool)
    requires IdsValid(options) && IdsValid(centre)
    ensures opts == Prune(options, centre, d)
    ensures emptied <==> |options| > 0 && |opts| == 0
  {
    opts := options;
    emptied := false;
    var i: int := |opts| - 1;
    while i > -1
      invariant -1 <= i < |options|
      invariant opts == options[..i + 1] + Prune(options[i + 1..], centre, d)
      invariant emptied <==> i + 1 < |options| && |opts| == 0
    {
      assert opts[i] == options[i];
      var found := FindSupport(centre, d, opts[i]);
      SpliceStep(options, centre, d, i, found);
      if !found {
        opts := opts[..i] + opts[i + 1..];
        if |opts| == 0 {
          emptied := true;
        }
      }
      i := i - 1;
    }
    assert options[0..] == options;
  }
}
