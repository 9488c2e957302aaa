/** The adjacency table of the constraint graph: for each cell, the list of
    cell indices the construction loops push for it, in push order. */
module Adjacency {
  import opened Board
  import opened Seqs

  /** What the row-and-column loop pushes for cell (r, c) in its first `k`
      rounds: round k' pushes (r, k') unless k' is c, then (k', c) unless k' is r. */
  function RowColPart(r: int, c: int, k: int): seq<int>
    requires 0 <= r < N && 0 <= c < N && 0 <= k <= N
    decreases k
  {
    if k == 0 then []
    else RowColPart(r, c, k - 1)
         + (if k - 1 != c then [RcToNode(r, k - 1)] else [])
         + (if k - 1 != r then [RcToNode(k - 1, c)] else [])
  }

  /** Cell (br * 3 + dr, bc * 3 + dc) of the block holding (r, c). */
  function BlockCell(r: int, c: int, dr: int, dc: int): int
    requires 0 <= r < N && 0 <= c < N && 0 <= dr < BlockSize && 0 <= dc < BlockSize
  {
    RcToNode(BlockStart(r) + dr, BlockStart(c) + dc)
  }

  /** What the inner block loop pushes for cell (r, c) in row `dr` of its block
      over the first `dc` columns: each such cell other than (r, c) itself. */
  function BlockRowPart(r: int, c: int, dr: int, dc: int): seq<int>
    requires 0 <= r < N && 0 <= c < N && 0 <= dr < BlockSize && 0 <= dc <= BlockSize
    decreases dc
  {
    if dc == 0 then []
    else BlockRowPart(r, c, dr, dc - 1)
         + (if BlockCell(r, c, dr, dc - 1) != RcToNode(r, c) then [BlockCell(r, c, dr, dc - 1)] else [])
  }

  /** What the block loop pushes for cell (r, c) over the first `dr` rows of its block. */
  function BlockPart(r: int, c: int, dr: int): seq<int>
    requires 0 <= r < N && 0 <= c < N && 0 <= dr <= BlockSize
    decreases dr
  {
    if dr == 0 then [] else BlockPart(r, c, dr - 1) + BlockRowPart(r, c, dr - 1, BlockSize)
  }

  /** The neighbour list `adjList[i]` holds once construction is done:
      16 row/column entries followed by 8 block entries. */
  function NeighbourList(i: int): seq<int>
    requires 0 <= i < Size
  {
    var p := NodeToRc(i);
    RowColPart(p.row, p.col, N) + BlockPart(p.row, p.col, BlockSize)
  }

  /** The list of cell (r, c) is what its two loops push. */
  lemma NeighbourListAt(r: int, c: int)
    requires 0 <= r < N && 0 <= c < N
    ensures NeighbourList(RcToNode(r, c)) == RowColPart(r, c, N) + BlockPart(r, c, BlockSize)
  {
    RcToNodeRoundTrip(r, c);
  }

  /** The block cell at (dr, dc) sits at that offset from the block's corner,
      and is (r, c) itself only at the offset of (r, c). */
  lemma BlockCellAt(r: int, c: int, dr: int, dc: int)
    requires 0 <= r < N && 0 <= c < N && 0 <= dr < BlockSize && 0 <= dc < BlockSize
    ensures NodeToRc(BlockCell(r, c, dr, dc)) == PuzzleNode(BlockStart(r) + dr, BlockStart(c) + dc)
    ensures BlockCell(r, c, dr, dc) == RcToNode(r, c) <==> BlockStart(r) + dr == r && BlockStart(c) + dc == c
  {
    BlockStartSpec(r);
    BlockStartSpec(c);
    RcToNodeRoundTrip(BlockStart(r) + dr, BlockStart(c) + dc);
    RcToNodeRoundTrip(r, c);
  }

  // Row and column entries

  /** Cell `x` is a row or column neighbour of (r, c) reached by the first `k` rounds. */
  predicate InRowColPrefix(r: int, c: int, k: int, x: int)
    requires 0 <= r < N && 0 <= c < N
  {
    0 <= x < Size && x != RcToNode(r, c) &&
    var q := NodeToRc(x);
    (q.row == r && q.col < k) || (q.col == c && q.row < k)
  }

  lemma {:induction false} RowColPartLength(r: int, c: int, k: int)
    requires 0 <= r < N && 0 <= c < N && 0 <= k <= N
    ensures |RowColPart(r, c, k)| == 2 * k - (if c < k then 1 else 0) - (if r < k then 1 else 0)
    decreases k
  {
    if k > 0 {
      RowColPartLength(r, c, k - 1);
    }
  }

  /** Round k - 1 adds exactly (r, k - 1) unless it is (r, c), and (k - 1, c)
      unless it is (r, c). */
  lemma RowColStep(r: int, c: int, k: int, x: int)
    requires 0 <= r < N && 0 <= c < N && 0 < k <= N
    ensures InRowColPrefix(r, c, k, x) <==>
      InRowColPrefix(r, c, k - 1, x) ||
      (k - 1 != c && x == RcToNode(r, k - 1)) || (k - 1 != r && x == RcToNode(k - 1, c))
  {
    RcToNodeRoundTrip(r, k - 1);
    RcToNodeRoundTrip(k - 1, c);
    RcToNodeRoundTrip(r, c);
    if 0 <= x < Size {
      NodeToRcRoundTrip(x);
    }
  }

  lemma {:induction false} RowColPartMembers(r: int, c: int, k: int)
    requires 0 <= r < N && 0 <= c < N && 0 <= k <= N
    ensures forall x :: x in RowColPart(r, c, k) <==> InRowColPrefix(r, c, k, x)
    decreases k
  {
    if k > 0 {
      RowColPartMembers(r, c, k - 1);
      forall x ensures x in RowColPart(r, c, k) <==> InRowColPrefix(r, c, k, x) {
        RowColStep(r, c, k, x);
      }
    }
  }

  lemma {:induction false} RowColPartNoDup(r: int, c: int, k: int)
    requires 0 <= r < N && 0 <= c < N && 0 <= k <= N
    ensures NoDup(RowColPart(r, c, k))
    decreases k
  {
    if k > 0 {
      var prev := RowColPart(r, c, k - 1);
      RowColPartNoDup(r, c, k - 1);
      RowColPartMembers(r, c, k - 1);
      var a := if k - 1 != c then [RcToNode(r, k - 1)] else [];
      var b := if k - 1 != r then [RcToNode(k - 1, c)] else [];
      RcToNodeRoundTrip(r, k - 1);
      RcToNodeRoundTrip(k - 1, c);
      NoDupAppend(prev, a);
      NoDupAppend(prev + a, b);
    }
  }

  // Block entries

  /** Cell `x`, other than (r, c), lies in row `dr` of the block of (r, c), in
      one of its first `dc` columns. */
  predicate InBlockRowPrefix(r: int, c: int, dr: int, dc: int, x: int)
    requires 0 <= r < N && 0 <= c < N
  {
    0 <= x < Size && x != RcToNode(r, c) &&
    var q := NodeToRc(x);
    q.row == BlockStart(r) + dr && BlockStart(c) <= q.col < BlockStart(c) + dc
  }

  /** Cell `x`, other than (r, c), lies in one of the first `dr` rows of the block of (r, c). */
  predicate InBlockPrefix(r: int, c: int, dr: int, x: int)
    requires 0 <= r < N && 0 <= c < N
  {
    0 <= x < Size && x != RcToNode(r, c) &&
    var q := NodeToRc(x);
    BlockStart(r) <= q.row < BlockStart(r) + dr && BlockStart(c) <= q.col < BlockStart(c) + BlockSize
  }

  lemma {:induction false} BlockRowPartLength(r: int, c: int, dr: int, dc: int)
    requires 0 <= r < N && 0 <= c < N && 0 <= dr < BlockSize && 0 <= dc <= BlockSize
    ensures |BlockRowPart(r, c, dr, dc)| ==
      dc - (if BlockStart(r) + dr == r && c - BlockStart(c) < dc then 1 else 0)
    decreases dc
  {
    if dc > 0 {
      BlockRowPartLength(r, c, dr, dc - 1);
      BlockCellAt(r, c, dr, dc - 1);
    }
  }

  /** Column dc - 1 of block row `dr` adds exactly its cell, unless that is (r, c). */
  lemma BlockRowStep(r: int, c: int, dr: int, dc: int, x: int)
    requires 0 <= r < N && 0 <= c < N && 0 <= dr < BlockSize && 0 < dc <= BlockSize
    ensures InBlockRowPrefix(r, c, dr, dc, x) <==>
      InBlockRowPrefix(r, c, dr, dc - 1, x) || (x == BlockCell(r, c, dr, dc - 1) && x != RcToNode(r, c))
  {
    BlockCellAt(r, c, dr, dc - 1);
    if 0 <= x < Size {
      NodeToRcRoundTrip(x);
    }
  }

  lemma {:induction false} BlockRowPartMembers(r: int, c: int, dr: int, dc: int)
    requires 0 <= r < N && 0 <= c < N && 0 <= dr < BlockSize && 0 <= dc <= BlockSize
    ensures forall x :: x in BlockRowPart(r, c, dr, dc) <==> InBlockRowPrefix(r, c, dr, dc, x)
    decreases dc
  {
    if dc > 0 {
      BlockRowPartMembers(r, c, dr, dc - 1);
      forall x ensures x in BlockRowPart(r, c, dr, dc) <==> InBlockRowPrefix(r, c, dr, dc, x) {
        BlockRowStep(r, c, dr, dc, x);
      }
    }
  }

  lemma {:induction false} BlockPartLength(r: int, c: int, dr: int)
    requires 0 <= r < N && 0 <= c < N && 0 <= dr <= BlockSize
    ensures |BlockPart(r, c, dr)| == dr * BlockSize - (if r - BlockStart(r) < dr then 1 else 0)
    decreases dr
  {
    if dr > 0 {
      BlockPartLength(r, c, dr - 1);
      BlockRowPartLength(r, c, dr - 1, BlockSize);
      assert dr * BlockSize == (dr - 1) * BlockSize + BlockSize;
      BlockStartSpec(r);
      BlockStartSpec(c);
    }
  }

  /** Block row dr - 1 adds exactly the cells of that row. */
  lemma BlockStep(r: int, c: int, dr: int, x: int)
    requires 0 <= r < N && 0 <= c < N && 0 < dr <= BlockSize
    ensures InBlockPrefix(r, c, dr, x) <==>
      InBlockPrefix(r, c, dr - 1, x) || InBlockRowPrefix(r, c, dr - 1, BlockSize, x)
  {
  }

  lemma {:induction false} BlockPartMembers(r: int, c: int, dr: int)
    requires 0 <= r < N && 0 <= c < N && 0 <= dr <= BlockSize
    ensures forall x :: x in BlockPart(r, c, dr) <==> InBlockPrefix(r, c, dr, x)
    decreases dr
  {
    if dr > 0 {
      BlockPartMembers(r, c, dr - 1);
      BlockRowPartMembers(r, c, dr - 1, BlockSize);
      forall x ensures x in BlockPart(r, c, dr) <==> InBlockPrefix(r, c, dr, x) {
        BlockStep(r, c, dr, x);
      }
    }
  }

  // The whole list

  /** Cell `x` is reached by the row-and-column loop or by the block loop of
      cell i exactly when it is a neighbour of i. */
  lemma NeighbourAt(i: int, x: int)
    requires 0 <= i < Size
    ensures var p := NodeToRc(i);
      InRowColPrefix(p.row, p.col, N, x) || InBlockPrefix(p.row, p.col, BlockSize, x) <==> IsNeighbour(i, x)
  {
    var p := NodeToRc(i);
    NodeToRcRoundTrip(i);
    if 0 <= x < Size {
      SameBlockIff(NodeToRc(x), p);
    }
  }

  /** `adjList[i]` holds exactly the cells that share a row, a column or a block
      with cell i, other than i itself, in 24 entries. */
  lemma NeighbourListSpec(i: int)
    requires 0 <= i < Size
    ensures |NeighbourList(i)| == 24
    ensures forall x :: x in NeighbourList(i) <==> IsNeighbour(i, x)
  {
    var p := NodeToRc(i);
    RowColPartLength(p.row, p.col, N);
    BlockPartLength(p.row, p.col, BlockSize);
    BlockStartSpec(p.row);
    RowColPartMembers(p.row, p.col, N);
    BlockPartMembers(p.row, p.col, BlockSize);
    forall x ensures x in NeighbourList(i) <==> IsNeighbour(i, x) {
      NeighbourAt(i, x);
    }
  }

  /** The adjacency relation the table encodes is symmetric and irreflexive. */
  lemma NeighbourListSymmetric(i: int, j: int)
    requires 0 <= i < Size && 0 <= j < Size
    ensures j in NeighbourList(i) <==> i in NeighbourList(j)
    ensures i !in NeighbourList(i)
  {
    NeighbourListSpec(i);
    NeighbourListSpec(j);
  }

  // Distinct entries

  /** Cell `x` is off the row and the column of (r, c). */
  predicate OffLines(r: int, c: int, x: int)
    requires 0 <= x < Size
  {
    NodeToRc(x).row != r && NodeToRc(x).col != c
  }

  /** The cells of block row `dr` of (r, c), over its first `dc` columns, that
      share neither the row nor the column of (r, c). */
  ghost function BlockRowRest(r: int, c: int, dr: int, dc: int): seq<int>
    requires 0 <= r < N && 0 <= c < N && 0 <= dr < BlockSize && 0 <= dc <= BlockSize
    decreases dc
  {
    if dc == 0 then []
    else BlockRowRest(r, c, dr, dc - 1)
         + (if BlockStart(r) + dr != r && BlockStart(c) + dc - 1 != c then [BlockCell(r, c, dr, dc - 1)] else [])
  }

  /** The block entries of (r, c), over the first `dr` block rows, that no row
      or column entry repeats. */
  ghost function BlockRest(r: int, c: int, dr: int): seq<int>
    requires 0 <= r < N && 0 <= c < N && 0 <= dr <= BlockSize
    decreases dr
  {
    if dr == 0 then [] else BlockRest(r, c, dr - 1) + BlockRowRest(r, c, dr - 1, BlockSize)
  }

  lemma {:induction false} BlockRowRestLength(r: int, c: int, dr: int, dc: int)
    requires 0 <= r < N && 0 <= c < N && 0 <= dr < BlockSize && 0 <= dc <= BlockSize
    ensures |BlockRowRest(r, c, dr, dc)| ==
      if BlockStart(r) + dr == r then 0 else dc - (if c - BlockStart(c) < dc then 1 else 0)
    decreases dc
  {
    if dc > 0 {
      BlockRowRestLength(r, c, dr, dc - 1);
    }
  }

  lemma {:induction false} BlockRowRestMembers(r: int, c: int, dr: int, dc: int)
    requires 0 <= r < N && 0 <= c < N && 0 <= dr < BlockSize && 0 <= dc <= BlockSize
    ensures forall x :: x in BlockRowRest(r, c, dr, dc) <==> InBlockRowPrefix(r, c, dr, dc, x) && OffLines(r, c, x)
    decreases dc
  {
    if dc > 0 {
      BlockRowRestMembers(r, c, dr, dc - 1);
      BlockCellAt(r, c, dr, dc - 1);
      forall x ensures x in BlockRowRest(r, c, dr, dc) <==> InBlockRowPrefix(r, c, dr, dc, x) && OffLines(r, c, x) {
        BlockRowStep(r, c, dr, dc, x);
      }
    }
  }

  lemma {:induction false} BlockRowRestNoDup(r: int, c: int, dr: int, dc: int)
    requires 0 <= r < N && 0 <= c < N && 0 <= dr < BlockSize && 0 <= dc <= BlockSize
    ensures NoDup(BlockRowRest(r, c, dr, dc))
    decreases dc
  {
    if dc > 0 {
      var prev := BlockRowRest(r, c, dr, dc - 1);
      BlockRowRestNoDup(r, c, dr, dc - 1);
      BlockRowRestMembers(r, c, dr, dc - 1);
      BlockCellAt(r, c, dr, dc - 1);
      var a := if BlockStart(r) + dr != r && BlockStart(c) + dc - 1 != c then [BlockCell(r, c, dr, dc - 1)] else [];
      NoDupAppend(prev, a);
    }
  }

  lemma {:induction false} BlockRestLength(r: int, c: int, dr: int)
    requires 0 <= r < N && 0 <= c < N && 0 <= dr <= BlockSize
    ensures |BlockRest(r, c, dr)| == 2 * (dr - (if r - BlockStart(r) < dr then 1 else 0))
    decreases dr
  {
    if dr > 0 {
      var prev, row := BlockRest(r, c, dr - 1), BlockRowRest(r, c, dr - 1, BlockSize);
      BlockRestLength(r, c, dr - 1);
      BlockRowRestLength(r, c, dr - 1, BlockSize);
      BlockStartSpec(c);
      var k := r - BlockStart(r);
      assert 0 <= k by { BlockStartSpec(r); }
      assert |row| == if k == dr - 1 then 0 else BlockSize - 1;
      assert |prev| == 2 * (dr - 1 - (if k < dr - 1 then 1 else 0));
      RestCountStep(|prev|, |row|, dr, k);
    }
  }

  /** Proof-performance aid, the arithmetic of one step of `BlockRestLength`
      kept out of its larger context: `k` is the offset of the
      row of the cell within its block. */
  lemma RestCountStep(prev: int, row: int, d: int, k: int)
    requires 0 <= k && 0 < d
    requires prev == 2 * (d - 1 - (if k < d - 1 then 1 else 0))
    requires row == if k == d - 1 then 0 else BlockSize - 1
    ensures prev + row == 2 * (d - (if k < d then 1 else 0))
  {
  }

  lemma {:induction false} BlockRestMembers(r: int, c: int, dr: int)
    requires 0 <= r < N && 0 <= c < N && 0 <= dr <= BlockSize
    ensures forall x :: x in BlockRest(r, c, dr) <==> InBlockPrefix(r, c, dr, x) && OffLines(r, c, x)
    decreases dr
  {
    if dr > 0 {
      BlockRestMembers(r, c, dr - 1);
      BlockRowRestMembers(r, c, dr - 1, BlockSize);
      forall x ensures x in BlockRest(r, c, dr) <==> InBlockPrefix(r, c, dr, x) && OffLines(r, c, x) {
        BlockStep(r, c, dr, x);
      }
    }
  }

  lemma {:induction false} BlockRestNoDup(r: int, c: int, dr: int)
    requires 0 <= r < N && 0 <= c < N && 0 <= dr <= BlockSize
    ensures NoDup(BlockRest(r, c, dr))
    decreases dr
  {
    if dr > 0 {
      BlockRestNoDup(r, c, dr - 1);
      BlockRowRestNoDup(r, c, dr - 1, BlockSize);
      BlockRestDisjoint(r, c, dr - 1);
      NoDupAppend(BlockRest(r, c, dr - 1), BlockRowRest(r, c, dr - 1, BlockSize));
    }
  }

  /** Block row `dr` shares no cell with the block rows above it. */
  lemma BlockRestDisjoint(r: int, c: int, dr: int)
    requires 0 <= r < N && 0 <= c < N && 0 <= dr < BlockSize
    ensures forall y :: y in BlockRowRest(r, c, dr, BlockSize) ==> y !in BlockRest(r, c, dr)
  {
    BlockRestMembers(r, c, dr);
    BlockRowRestMembers(r, c, dr, BlockSize);
    forall y | y in BlockRowRest(r, c, dr, BlockSize) ensures y !in BlockRest(r, c, dr) {
      assert InBlockRowPrefix(r, c, dr, BlockSize, y);
    }
  }

  /** A block neighbour of cell i either shares i's row or column, and so is a
      row or column entry, or is one of the block entries kept in `BlockRest`. */
  lemma DistinctAt(i: int, x: int)
    requires 0 <= i < Size
    ensures var p := NodeToRc(i);
      InRowColPrefix(p.row, p.col, N, x) || InBlockPrefix(p.row, p.col, BlockSize, x) <==>
      InRowColPrefix(p.row, p.col, N, x) || (InBlockPrefix(p.row, p.col, BlockSize, x) && OffLines(p.row, p.col, x))
    ensures var p := NodeToRc(i);
      InRowColPrefix(p.row, p.col, N, x) ==> !(InBlockPrefix(p.row, p.col, BlockSize, x) && OffLines(p.row, p.col, x))
  {
  }

  /** Of the 24 entries of `adjList[i]`, 20 are distinct: the 4 block entries
      sharing i's row or column repeat row and column entries. */
  lemma NeighbourListDistinct(i: int)
    requires 0 <= i < Size
    ensures |Elements(NeighbourList(i))| == 20
  {
    var p := NodeToRc(i);
    var (r, c) := (p.row, p.col);
    var rowCol, rest := RowColPart(r, c, N), BlockRest(r, c, BlockSize);
    RowColPartLength(r, c, N);
    RowColPartMembers(r, c, N);
    RowColPartNoDup(r, c, N);
    BlockPartMembers(r, c, BlockSize);
    BlockRestLength(r, c, BlockSize);
    BlockRestMembers(r, c, BlockSize);
    BlockRestNoDup(r, c, BlockSize);
    BlockStartSpec(r);
    forall y | y in rest ensures y !in rowCol {
      DistinctAt(i, y);
    }
    NoDupAppend(rowCol, rest);
    CardElements(rowCol + rest);
    forall x ensures x in Elements(NeighbourList(i)) <==> x in Elements(rowCol + rest) {
      DistinctAt(i, x);
    }
    assert Elements(NeighbourList(i)) == Elements(rowCol + rest);
  }
}
