/** The geometry of the 9x9 board: the numbering of its 81 cells and the
    row/column/block neighbour relation that the solver's constraint graph
    encodes. */
module Board {

  /** Side of a block (`n` in the solver). */
  const BlockSize: int := 3
  /** Side of the board (`N`). */
  const N: int := BlockSize * BlockSize
  /** Number of cells (`size`). */
  const Size: int := N * N

  /** A (row, column) position. */
  datatype PuzzleNode = PuzzleNode(row: int, col: int)

  /** Cell index of position (r, c), numbered row by row. */
  function RcToNode(r: int, c: int): (node: int)
    requires 0 <= r < N && 0 <= c < N
    ensures 0 <= node < Size
  {
    r * N + c
  }

  /** Position of a cell index: the floor of the quotient and the remainder by `N`. */
  function NodeToRc(node: int): (p: PuzzleNode)
    requires 0 <= node < Size
    ensures 0 <= p.row < N && 0 <= p.col < N
  {
    PuzzleNode(node / N, node % N)
  }

  lemma RcToNodeRoundTrip(r: int, c: int)
    requires 0 <= r < N && 0 <= c < N
    ensures NodeToRc(RcToNode(r, c)) == PuzzleNode(r, c)
  {
  }

  lemma NodeToRcRoundTrip(node: int)
    requires 0 <= node < Size
    ensures RcToNode(NodeToRc(node).row, NodeToRc(node).col) == node
  {
  }

  /** Two positions lie in the same 3x3 block. */
  predicate SameBlock(p: PuzzleNode, q: PuzzleNode)
  {
    p.row / BlockSize == q.row / BlockSize && p.col / BlockSize == q.col / BlockSize
  }

  /** First row (or column) of the block band holding row (or column) `x`:
      `Math.floor(x / n) * n`. */
  function BlockStart(x: int): int
  {
    x / BlockSize * BlockSize
  }

  lemma BlockStartSpec(x: int)
    requires 0 <= x < N
    ensures 0 <= BlockStart(x) <= x < BlockStart(x) + BlockSize <= N
  {
  }

  /** Two positions share a block exactly when each lies in the 3x3 square
      whose corner is the other's block start. */
  lemma SameBlockIff(p: PuzzleNode, q: PuzzleNode)
    requires 0 <= p.row < N && 0 <= p.col < N && 0 <= q.row < N && 0 <= q.col < N
    ensures SameBlock(p, q) <==>
      BlockStart(q.row) <= p.row < BlockStart(q.row) + BlockSize &&
      BlockStart(q.col) <= p.col < BlockStart(q.col) + BlockSize
  {
  }

  /** Cells `i` and `j` are distinct and share a row, a column or a block. */
  predicate IsNeighbour(i: int, j: int)
  {
    0 <= i < Size && 0 <= j < Size && i != j &&
    var p, q := NodeToRc(i), NodeToRc(j);
    p.row == q.row || p.col == q.col || SameBlock(p, q)
  }

  /** A grid: 9 rows of 9 numbers, 0 meaning blank. */
  predicate IsGrid(g: seq<seq<int>>)
  {
    |g| == N && forall r :: 0 <= r < N ==> |g[r]| == N
  }

  /** The number at cell index `i` of a grid. */
  function Cell(g: seq<seq<int>>, i: int): int
    requires IsGrid(g) && 0 <= i < Size
  {
    g[NodeToRc(i).row][NodeToRc(i).col]
  }
}
