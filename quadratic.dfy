/** The O(n²) visualisation: an n-by-n grid filled cell by cell in row-major
    order, with the operation count and the total n * n shown beside it. */
module Quadratic {
  import opened Counting

  /** What `drawGrid` does with one cell: leave it transparent, fill it green
      (already visited) or fill it with the accent colour (the current cell). */
  datatype Cell = Empty | Filled | Current

  predicate Coloured(c: Cell) { c != Empty }

  /** `(row, col)` comes no later than `(activeRow, activeCol)` in row-major order. */
  predicate LexLe(row: int, col: int, activeRow: int, activeCol: int)
  {
    row < activeRow || (row == activeRow && col <= activeCol)
  }

  /** The fill rule for one cell: first "passed", then "current" overrides it. */
  function GridCell(row: int, col: int, activeRow: int, activeCol: int): (c: Cell)
    ensures Coloured(c) <==> LexLe(row, col, activeRow, activeCol)
    ensures c == Current <==> row == activeRow && col == activeCol
  {
    var passed := if row < activeRow || (row == activeRow && col <= activeCol) then Filled else Empty;
    if row == activeRow && col == activeCol then Current else passed
  }

  function GridRow(n: nat, row: int, activeRow: int, activeCol: int): (r: seq<Cell>)
    ensures |r| == n
  {
    seq(n, col => GridCell(row, col, activeRow, activeCol))
  }

  /** The cells `drawGrid(n, activeRow, activeCol)` paints, row by row. The
      defaults -1, -1 are the ones the slider handler and the initial draw use. */
  function GridFrame(n: nat, activeRow: int := -1, activeCol: int := -1): (g: seq<seq<Cell>>)
    ensures |g| == n && forall row :: 0 <= row < n ==> |g[row]| == n
    ensures forall row, col :: 0 <= row < n && 0 <= col < n ==>
      (Coloured(g[row][col]) <==> LexLe(row, col, activeRow, activeCol)) &&
      (g[row][col] == Current <==> row == activeRow && col == activeCol)
  {
    seq(n, row => GridRow(n, row, activeRow, activeCol))
  }

  /** How many cells of row `row` are at or before `(activeRow, activeCol)`. */
  function RowShare(n: nat, row: int, activeRow: int, activeCol: int): int
  {
    if row < activeRow then n
    else if row > activeRow then 0
    else if activeCol < 0 then 0
    else if activeCol >= n then n
    else activeCol + 1
  }

  /** How many cells of the n-by-n grid are at or before `(activeRow, activeCol)`
      in row-major order, counted over the rows `from..n-1`. */
  function RankFrom(n: nat, from: nat, activeRow: int, activeCol: int): int
    requires from <= n
  {
    if activeRow < from then 0
    else if activeRow >= n then (n - from) * n
    else (activeRow - from) * n + RowShare(n, activeRow, activeRow, activeCol)
  }

  /** A drawn row colours exactly its cells at or before the active cell. */
  lemma RowCount(n: nat, row: int, activeRow: int, activeCol: int)
    ensures Count(GridRow(n, row, activeRow, activeCol), Coloured) == RowShare(n, row, activeRow, activeCol)
  {
    CountInterval(GridRow(n, row, activeRow, activeCol), Coloured, 0, RowShare(n, row, activeRow, activeCol));
  }

  /** Peeling row `from` off the rows `from..n-1`. */
  lemma RankFromStep(n: nat, from: nat, activeRow: int, activeCol: int)
    requires from < n
    ensures RankFrom(n, from, activeRow, activeCol) ==
      RowShare(n, from, activeRow, activeCol) + RankFrom(n, from + 1, activeRow, activeCol)
  {
    MulMono(n - (from + 1), n - (from + 1), n);
    MulMono(activeRow - (from + 1), activeRow - (from + 1), n);
  }

  /** The rows `from..n-1` of a frame colour exactly their cells at or before the active cell. */
  lemma {:induction false} SuffixCount(n: nat, from: nat, activeRow: int, activeCol: int)
    requires from <= n
    ensures CountRows(GridFrame(n, activeRow, activeCol)[from..], Coloured) == RankFrom(n, from, activeRow, activeCol)
    decreases n - from
  {
    var g := GridFrame(n, activeRow, activeCol);
    if from < n {
      assert g[from..][0] == GridRow(n, from, activeRow, activeCol);
      assert g[from..][1..] == g[from + 1..];
      RowCount(n, from, activeRow, activeCol);
      SuffixCount(n, from + 1, activeRow, activeCol);
      RankFromStep(n, from, activeRow, activeCol);
    } else {
      assert g[from..] == [];
    }
  }

  /** The number of coloured cells of a grid frame is the number of cells at or
      before the active one in row-major order. */
  lemma GridColoured(n: nat, activeRow: int, activeCol: int)
    ensures CountRows(GridFrame(n, activeRow, activeCol), Coloured) == RankFrom(n, 0, activeRow, activeCol)
  {
    SuffixCount(n, 0, activeRow, activeCol);
    assert GridFrame(n, activeRow, activeCol)[0..] == GridFrame(n, activeRow, activeCol);
  }

  /** At step `(i, j)` of `runQuad`, exactly `i * n + j + 1` cells are coloured,
      and the only current cell is `(i, j)`. */
  lemma GridAtStep(n: nat, i: int, j: int)
    requires 0 <= i < n && 0 <= j < n
    ensures CountRows(GridFrame(n, i, j), Coloured) == i * n + j + 1
    ensures GridFrame(n, i, j)[i][j] == Current
  {
    GridColoured(n, i, j);
  }

  /** The default frame (no active cell) colours nothing. */
  lemma GridDefaultEmpty(n: nat)
    ensures CountRows(GridFrame(n), Coloured) == 0
    ensures forall row, col :: 0 <= row < n && 0 <= col < n ==> GridFrame(n)[row][col] == Empty
  {
    GridColoured(n, -1, -1);
  }

  /** The closing frame `drawGrid(n, n, n)` colours all n * n cells, none of them current. */
  lemma GridAllFilled(n: nat)
    ensures CountRows(GridFrame(n, n, n), Coloured) == n * n
    ensures forall row, col :: 0 <= row < n && 0 <= col < n ==> GridFrame(n, n, n)[row][col] == Filled
  {
    GridColoured(n, n, n);
  }

  /** Monotonicity and distributivity facts about multiplication by `n`. */
  lemma MulMono(a: int, b: int, n: nat)
    ensures a <= b ==> a * n <= b * n
    ensures (a + 1) * n == a * n + n
  {
  }

  /** Row-major position `i * n + j` decodes to row `i`, column `j`. */
  lemma RowMajor(n: nat, i: int, j: int)
    requires 0 <= i && 0 <= j < n
    ensures (i * n + j) / n == i && (i * n + j) % n == j
  {
    var q := (i * n + j) / n;
    MulMono(q + 1, i, n);
    MulMono(i + 1, q, n);
    MulMono(i, i, n);
  }

  /** `runQuad`: write n * n to the total, then visit the cells in row-major
      order; at each one increment `ops`, write it to the stats text and draw the
      grid with that cell current; finally draw `drawGrid(n, n, n)`. `stats`
      lists the values written to the stats text and `frames` the frames drawn,
      in order. */
  method RunQuad(n: nat) returns (total: int, ops: nat, stats: seq<int>, frames: seq<seq<seq<Cell>>>)
    ensures total == n * n && ops == n * n
    ensures |stats| == n * n && forall k :: 0 <= k < n * n ==> stats[k] == k + 1
    ensures |frames| == n * n + 1
    ensures forall k :: 0 <= k < n * n ==>
      frames[k] == GridFrame(n, k / n, k % n) && CountRows(frames[k], Coloured) == k + 1
    ensures frames[n * n] == GridFrame(n, n, n) && CountRows(frames[n * n], Coloured) == n * n
  {
    ops := 0;
    total := n * n;
    stats, frames := [], [];
    for i := 0 to n
      invariant ops == i * n && |stats| == ops && |frames| == ops
      invariant forall k :: 0 <= k < ops ==> stats[k] == k + 1
      invariant forall k :: 0 <= k < ops ==>
        frames[k] == GridFrame(n, k / n, k % n) && CountRows(frames[k], Coloured) == k + 1
    {
      for j := 0 to n
        invariant ops == i * n + j && |stats| == ops && |frames| == ops
        invariant forall k :: 0 <= k < ops ==> stats[k] == k + 1
        invariant forall k :: 0 <= k < ops ==>
          frames[k] == GridFrame(n, k / n, k % n) && CountRows(frames[k], Coloured) == k + 1
      {
        RowMajor(n, i, j);
        GridAtStep(n, i, j);
        ops := ops + 1;
        stats := stats + [ops];
        frames := frames + [GridFrame(n, i, j)];
      }
      assert i * n + n == (i + 1) * n;
    }
    GridAllFilled(n);
    frames := frames + [GridFrame(n, n, n)];
  }
}
