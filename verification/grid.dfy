/** The solver's state: a row-major grid of cells plus the two flags the
    step driver consults, and the index arithmetic that maps cells to
    (column, row) positions. */
module Grid {
  import opened Wrappers
  import opened Tiles

  /** A cell holds the tile placed in it (`None` is the source's `null`)
      and its remaining candidate tile ids, in order. `Some(id)` stands for
      the tile record `wfc_tiles[id]`; the solver only ever asks whether it
      is null. */
  datatype Cell = Cell(tile: Option<nat>, options: seq<nat>)

  /** The grid object plus the application's `paused` flag. */
  datatype State = State(cols: nat, rows: nat, grid: seq<Cell>, complete: bool, paused: bool)

  /** JavaScript's `undefined` as a candidate entry. Every use of an entry
      goes through `wfc_tiles[entry]`, which yields `undefined` for it just
      as for any id outside the catalogue, so one out-of-range id stands
      for it faithfully. */
  const Undefined: nat := |Catalogue|

  /** The grid holds one cell per (column, row) position. */
  predicate WellFormed(s: State) {
    |s.grid| == s.cols * s.rows
  }

  predicate Collapsed(c: Cell) {
    c.tile.Some?
  }

  predicate AllCollapsed(grid: seq<Cell>) {
    forall i :: 0 <= i < |grid| ==> Collapsed(grid[i])
  }

  /** Every candidate entry of every cell names a tile of the catalogue. */
  predicate ValidIds(grid: seq<Cell>) {
    forall i :: 0 <= i < |grid| ==> IdsValid(grid[i].options)
  }

  /** No cell has run out of candidates. */
  predicate NoEmptyOptions(grid: seq<Cell>) {
    forall i :: 0 <= i < |grid| ==> |grid[i].options| > 0
  }

  /** The draw `Math.floor(u * len)` for some `u` in [0, 1): an index below
      `len`, or 0 when `len` is 0. */
  predicate ValidDraw(k: nat, len: nat) {
    if len == 0 then k == 0 else k < len
  }

  /** `wfc_init`: a fresh `cols` by `rows` grid in which every cell is empty
      and may still hold every tile. The flags are not touched. */
  function Init(s: State, cols: nat, rows: nat): (r: State)
    ensures WellFormed(r) && r.cols == cols && r.rows == rows
    ensures forall i :: 0 <= i < |r.grid| ==> !Collapsed(r.grid[i])
    ensures forall i :: 0 <= i < |r.grid| ==> |r.grid[i].options| == |Catalogue|
    ensures forall i, t :: 0 <= i < |r.grid| && 0 <= t < |r.grid[i].options| ==> r.grid[i].options[t] == t
    ensures r.complete == s.complete && r.paused == s.paused
  {
    State(cols, rows, seq(cols * rows, _ => Cell(None, AllTileIds())), s.complete, s.paused)
  }

  /** The number of collapsed cells among the first `n`. */
  function CollapsedUpTo(grid: seq<Cell>, n: nat): (r: nat)
    requires n <= |grid|
    ensures r <= n
    ensures r == n <==> forall j :: 0 <= j < n ==> Collapsed(grid[j])
  {
    if n == 0 then 0
    else CollapsedUpTo(grid, n - 1) + (if Collapsed(grid[n - 1]) then 1 else 0)
  }

  /** The number of collapsed cells of the grid. */
  function CollapsedCount(grid: seq<Cell>): (r: nat)
    ensures r <= |grid|
    ensures r == |grid| <==> AllCollapsed(grid)
  {
    CollapsedUpTo(grid, |grid|)
  }

  /** Collapsing one empty cell, and changing no other cell's nullness,
      raises the collapsed count of every prefix that holds it by one. */
  lemma {:induction false} CollapsedUpToOneMore(grid: seq<Cell>, grid': seq<Cell>, i: nat, n: nat)
    requires |grid'| == |grid| && i < |grid| && n <= |grid|
    requires !Collapsed(grid[i]) && Collapsed(grid'[i])
    requires forall j :: 0 <= j < |grid| && j != i ==> Collapsed(grid'[j]) == Collapsed(grid[j])
    ensures CollapsedUpTo(grid', n) == CollapsedUpTo(grid, n) + (if i < n then 1 else 0)
  {
    if n > 0 {
      CollapsedUpToOneMore(grid, grid', i, n - 1);
    }
  }

  /** A well-formed grid with a cell has columns. */
  lemma NonEmptyGridHasColumns(s: State)
    requires WellFormed(s) && |s.grid| > 0
    ensures s.cols > 0
  {
  }

  /** `i2c`: the (column, row) position of a grid index. For a non-negative
      index the source's truncating `%` and `Math.floor(/)` agree with
      Dafny's operators. */
  function Decode(index: nat, cols: nat): (r: (nat, nat))
    requires cols > 0
    ensures r.0 < cols
    ensures r.1 * cols + r.0 == index
  {
    (index % cols, index / cols)
  }

  /** The index the source computes for a position: `row * cols + col`. */
  function Encode(col: nat, row: nat, cols: nat): nat {
    row * cols + col
  }

  /** Multiplying a positive whole number by `n` gives at least `n`. */
  lemma MulAtLeast(x: int, n: nat)
    requires x >= 1
    ensures x * n >= n
  {
    assert x * n == (x - 1) * n + n;
  }

  /** Euclidean division has exactly one quotient and remainder. */
  lemma DivModUnique(q: nat, r: nat, n: nat)
    requires 0 < n && r < n
    ensures (q * n + r) / n == q
    ensures (q * n + r) % n == r
  {
    var a := q * n + r;
    var q', r' := a / n, a % n;
    assert q' * n + r' == a;
    if q > q' {
      assert q * n == (q - q') * n + q' * n;
      MulAtLeast(q - q', n);
      assert false;
    } else if q < q' {
      assert q' * n == (q' - q) * n + q * n;
      MulAtLeast(q' - q, n);
      assert false;
    }
  }

  /** Decoding an encoded in-range position gives the position back. */
  lemma EncodeDecode(col: nat, row: nat, cols: nat)
    requires col < cols
    ensures Decode(Encode(col, row, cols), cols) == (col, row)
  {
    DivModUnique(row, col, cols);
  }

  /** Encoding the decoded position gives the index back. */
  lemma DecodeEncode(index: nat, cols: nat)
    requires cols > 0
    ensures Encode(Decode(index, cols).0, Decode(index, cols).1, cols) == index
  {
  }

  /** Two in-range positions with the same index are the same position. */
  lemma EncodeInjective(c1: nat, r1: nat, c2: nat, r2: nat, cols: nat)
    requires c1 < cols && c2 < cols
    requires Encode(c1, r1, cols) == Encode(c2, r2, cols)
    ensures c1 == c2 && r1 == r2
  {
    EncodeDecode(c1, r1, cols);
    EncodeDecode(c2, r2, cols);
  }

  /** An in-range position encodes to an index inside the grid. */
  lemma EncodeInGrid(col: nat, row: nat, cols: nat, rows: nat)
    requires col < cols && row < rows
    ensures Encode(col, row, cols) < cols * rows
  {
    assert row * cols + col < (row + 1) * cols;
    assert (row + 1) * cols <= rows * cols;
  }

  /** An index lies inside the grid exactly when its decoded row does. */
  lemma DecodeInGrid(index: nat, cols: nat, rows: nat)
    requires cols > 0
    ensures index < cols * rows <==> Decode(index, cols).1 < rows
  {
    var (col, row) := Decode(index, cols);
    if row < rows {
      EncodeInGrid(col, row, cols, rows);
    } else {
      assert row * cols >= rows * cols;
    }
  }
}
