/** The board validity check: no row, column or 3x3 block holds a non-zero
    digit twice; zeros (blanks) never count. */
module Validator {
  import opened Board
  import opened Seqs

  /** The entries of `xs` other than 0, in order. */
  function NonZero(xs: seq<int>): (r: seq<int>)
    ensures forall x :: x in r <==> x in xs && x != 0
  {
    if xs == [] then []
    else (if xs[0] != 0 then [xs[0]] else []) + NonZero(xs[1..])
  }

  /** The unit check `isValid`: after dropping zeros, the list is as long as
      the set of its values. */
  predicate IsValidUnit(xs: seq<int>)
  {
    |NonZero(xs)| == |Elements(NonZero(xs))|
  }

  /** No non-zero value of `xs` occurs at two positions. */
  predicate DistinctNonZero(xs: seq<int>)
  {
    forall i, j :: 0 <= i < j < |xs| && xs[i] != 0 ==> xs[i] != xs[j]
  }

  lemma {:induction false} NoDupNonZero(xs: seq<int>)
    ensures NoDup(NonZero(xs)) <==> DistinctNonZero(xs)
  {
    if xs != [] {
      var t := xs[1..];
      NoDupNonZero(t);
      if xs[0] != 0 {
        NoDupCons(xs[0], NonZero(t));
      }
      if DistinctNonZero(xs) {
        forall i, j | 0 <= i < j < |t| && t[i] != 0 ensures t[i] != t[j] {
          assert t[i] == xs[i + 1] && t[j] == xs[j + 1];
        }
        if xs[0] != 0 {
          forall k | 0 <= k < |t| ensures t[k] != xs[0] {
            assert t[k] == xs[k + 1];
          }
        }
      }
      if NoDup(NonZero(xs)) {
        if xs[0] != 0 {
          assert NonZero(xs) == [xs[0]] + NonZero(t);
        } else {
          assert NonZero(xs) == NonZero(t);
        }
        forall i, j | 0 <= i < j < |xs| && xs[i] != 0 ensures xs[i] != xs[j] {
          assert xs[j] == t[j - 1];
          if i > 0 {
            assert xs[i] == t[i - 1];
          } else {
            assert xs[j] in t;
          }
        }
      }
    }
  }

  /** `isValid(xs)` holds exactly when the non-zero values of `xs` are pairwise distinct. */
  lemma IsValidUnitIff(xs: seq<int>)
    ensures IsValidUnit(xs) <==> DistinctNonZero(xs)
  {
    CardElements(NonZero(xs));
    NoDupNonZero(xs);
  }

  /** Column `c`: `puzzle.map(row => row[col])`. */
  function Column(g: seq<seq<int>>, c: int): seq<int>
    requires IsGrid(g) && 0 <= c < N
  {
    seq(N, i requires 0 <= i < N => g[i][c])
  }

  /** `rows.flatMap(row => row.slice(c0, c0 + 3))`. */
  function FlatSlices(rows: seq<seq<int>>, c0: int): seq<int>
    requires 0 <= c0 && forall k :: 0 <= k < |rows| ==> c0 + BlockSize <= |rows[k]|
  {
    if rows == [] then [] else rows[0][c0..c0 + BlockSize] + FlatSlices(rows[1..], c0)
  }

  /** The 3x3 block whose top-left cell is (r0, c0), read row by row. */
  function Block(g: seq<seq<int>>, r0: int, c0: int): seq<int>
    requires IsGrid(g) && 0 <= r0 <= N - BlockSize && 0 <= c0 <= N - BlockSize
  {
    FlatSlices(g[r0..r0 + BlockSize], c0)
  }

  lemma BlockAt(g: seq<seq<int>>, r0: int, c0: int, t: int)
    requires IsGrid(g) && 0 <= r0 <= N - BlockSize && 0 <= c0 <= N - BlockSize && 0 <= t < N
    ensures |Block(g, r0, c0)| == N
    ensures Block(g, r0, c0)[t] == g[r0 + t / BlockSize][c0 + t % BlockSize]
  {
    var rows := g[r0..r0 + BlockSize];
    assert FlatSlices(rows[2..], c0) == g[r0 + 2][c0..c0 + 3] + FlatSlices(rows[3..], c0);
    assert FlatSlices(rows[1..], c0) == g[r0 + 1][c0..c0 + 3] + FlatSlices(rows[2..], c0);
    assert Block(g, r0, c0) == g[r0][c0..c0 + 3] + g[r0 + 1][c0..c0 + 3] + g[r0 + 2][c0..c0 + 3];
  }

  /** `isValidSudoku`: every row, every column, and every block whose corner
      lies on rows and columns 0, 3, 6 passes the unit check. */
  predicate IsValidSudoku(g: seq<seq<int>>)
    requires IsGrid(g)
  {
    (forall row :: 0 <= row < N ==> IsValidUnit(g[row])) &&
    (forall col :: 0 <= col < N ==> IsValidUnit(Column(g, col))) &&
    (forall r0, c0 :: 0 <= r0 < N && r0 % BlockSize == 0 && 0 <= c0 < N && c0 % BlockSize == 0 ==>
       IsValidUnit(Block(g, r0, c0)))
  }

  /** No two neighbouring cells hold the same non-zero digit. */
  ghost predicate NoRepeats(g: seq<seq<int>>)
    requires IsGrid(g)
  {
    forall p, q :: IsNeighbour(p, q) && Cell(g, p) != 0 ==> Cell(g, p) != Cell(g, q)
  }

  /** Position of cell (r, c) within its block, in the order `Block` reads it. */
  function BlockIndex(r: int, c: int): int
  {
    (r - BlockStart(r)) * BlockSize + (c - BlockStart(c))
  }

  /** Block offset (a, b), read row by row, is entry a * 3 + b, which splits back into (a, b). */
  lemma OffsetSplit(a: int, b: int)
    requires 0 <= a < BlockSize && 0 <= b < BlockSize
    ensures 0 <= a * BlockSize + b < N
    ensures (a * BlockSize + b) / BlockSize == a && (a * BlockSize + b) % BlockSize == b
  {
  }

  /** Block starts are the multiples of 3 that the check uses as corners. */
  lemma CornerOfCell(x: int)
    requires 0 <= x < N
    ensures BlockStart(x) % BlockSize == 0
  {
  }

  /** Cell (r, c) of a grid is entry `BlockIndex(r, c)` of the block containing it. */
  lemma BlockOfCell(g: seq<seq<int>>, r: int, c: int)
    requires IsGrid(g) && 0 <= r < N && 0 <= c < N
    ensures 0 <= BlockIndex(r, c) < N
    ensures 0 <= BlockStart(r) <= N - BlockSize && BlockStart(r) % BlockSize == 0
    ensures 0 <= BlockStart(c) <= N - BlockSize && BlockStart(c) % BlockSize == 0
    ensures |Block(g, BlockStart(r), BlockStart(c))| == N
    ensures Block(g, BlockStart(r), BlockStart(c))[BlockIndex(r, c)] == g[r][c]
  {
    BlockStartSpec(r);
    BlockStartSpec(c);
    CornerOfCell(r);
    CornerOfCell(c);
    OffsetSplit(r - BlockStart(r), c - BlockStart(c));
    BlockAt(g, BlockStart(r), BlockStart(c), BlockIndex(r, c));
  }

  /** Two distinct cells of one block sit at distinct entries of it. */
  lemma BlockIndexDistinct(r1: int, c1: int, r2: int, c2: int)
    requires 0 <= r1 < N && 0 <= c1 < N && 0 <= r2 < N && 0 <= c2 < N
    requires (r1, c1) != (r2, c2) && SameBlock(PuzzleNode(r1, c1), PuzzleNode(r2, c2))
    ensures BlockStart(r1) == BlockStart(r2) && BlockStart(c1) == BlockStart(c2)
    ensures BlockIndex(r1, c1) != BlockIndex(r2, c2)
  {
    BlockStartSpec(r1);
    BlockStartSpec(c1);
    BlockStartSpec(r2);
    BlockStartSpec(c2);
    OffsetSplit(r1 - BlockStart(r1), c1 - BlockStart(c1));
    OffsetSplit(r2 - BlockStart(r2), c2 - BlockStart(c2));
  }

  /** A unit that passes the check holds no non-zero digit at two positions. */
  lemma ValidUnitAt(xs: seq<int>, i: int, j: int)
    requires IsValidUnit(xs) && 0 <= i < |xs| && 0 <= j < |xs| && i != j
    ensures xs[i] == 0 || xs[i] != xs[j]
  {
    IsValidUnitIff(xs);
    if j < i {
      assert xs[j] == 0 || xs[j] != xs[i];
    }
  }

  /** A unit holding a non-zero digit at two positions fails the check. */
  lemma RepeatInvalidUnit(xs: seq<int>, i: int, j: int)
    requires 0 <= i < |xs| && 0 <= j < |xs| && i != j && xs[i] != 0 && xs[i] == xs[j]
    ensures !IsValidUnit(xs)
  {
    IsValidUnitIff(xs);
    if i < j {
      assert !(xs[i] != 0 ==> xs[i] != xs[j]);
    } else {
      assert !(xs[j] != 0 ==> xs[j] != xs[i]);
    }
  }

  /** A row holding a non-zero digit twice makes the check fail. */
  lemma RowRepeatInvalid(g: seq<seq<int>>, r: int, i: int, j: int)
    requires IsGrid(g) && 0 <= r < N && 0 <= i < N && 0 <= j < N && i != j
    requires g[r][i] != 0 && g[r][i] == g[r][j]
    ensures !IsValidSudoku(g)
  {
    RepeatInvalidUnit(g[r], i, j);
  }

  /** A column holding a non-zero digit twice makes the check fail. */
  lemma ColumnRepeatInvalid(g: seq<seq<int>>, c: int, i: int, j: int)
    requires IsGrid(g) && 0 <= c < N && 0 <= i < N && 0 <= j < N && i != j
    requires g[i][c] != 0 && g[i][c] == g[j][c]
    ensures !IsValidSudoku(g)
  {
    RepeatInvalidUnit(Column(g, c), i, j);
  }

  /** A block holding a non-zero digit in two of its cells makes the check fail. */
  lemma BlockRepeatInvalid(g: seq<seq<int>>, r1: int, c1: int, r2: int, c2: int)
    requires IsGrid(g) && 0 <= r1 < N && 0 <= c1 < N && 0 <= r2 < N && 0 <= c2 < N
    requires (r1, c1) != (r2, c2) && SameBlock(PuzzleNode(r1, c1), PuzzleNode(r2, c2))
    requires g[r1][c1] != 0 && g[r1][c1] == g[r2][c2]
    ensures !IsValidSudoku(g)
  {
    BlockOfCell(g, r1, c1);
    BlockOfCell(g, r2, c2);
    BlockIndexDistinct(r1, c1, r2, c2);
    RepeatInvalidUnit(Block(g, BlockStart(r1), BlockStart(c1)), BlockIndex(r1, c1), BlockIndex(r2, c2));
  }

  /** On a valid grid, two distinct cells sharing a unit never hold the same non-zero digit. */
  lemma ValidAt(g: seq<seq<int>>, r1: int, c1: int, r2: int, c2: int)
    requires IsGrid(g) && IsValidSudoku(g)
    requires 0 <= r1 < N && 0 <= c1 < N && 0 <= r2 < N && 0 <= c2 < N && (r1, c1) != (r2, c2)
    requires r1 == r2 || c1 == c2 || SameBlock(PuzzleNode(r1, c1), PuzzleNode(r2, c2))
    ensures g[r1][c1] == 0 || g[r1][c1] != g[r2][c2]
  {
    if r1 == r2 {
      ValidUnitAt(g[r1], c1, c2);
    } else if c1 == c2 {
      ValidUnitAt(Column(g, c1), r1, r2);
    } else {
      BlockOfCell(g, r1, c1);
      BlockOfCell(g, r2, c2);
      BlockIndexDistinct(r1, c1, r2, c2);
      ValidUnitAt(Block(g, BlockStart(r1), BlockStart(c1)), BlockIndex(r1, c1), BlockIndex(r2, c2));
    }
  }

  /** On a valid grid, two neighbouring cells never hold the same non-zero digit. */
  lemma ValidHasNoRepeats(g: seq<seq<int>>)
    requires IsGrid(g) && IsValidSudoku(g)
    ensures NoRepeats(g)
  {
    forall p, q | IsNeighbour(p, q) && Cell(g, p) != 0 ensures Cell(g, p) != Cell(g, q) {
      var a, b := NodeToRc(p), NodeToRc(q);
      NodeToRcRoundTrip(p);
      NodeToRcRoundTrip(q);
      ValidAt(g, a.row, a.col, b.row, b.col);
    }
  }

  /** Two distinct cells (r1, c1) and (r2, c2) sharing a unit are neighbours,
      so a grid without repeats gives them different non-zero digits. */
  lemma NoRepeatsAt(g: seq<seq<int>>, r1: int, c1: int, r2: int, c2: int)
    requires IsGrid(g) && NoRepeats(g)
    requires 0 <= r1 < N && 0 <= c1 < N && 0 <= r2 < N && 0 <= c2 < N && (r1, c1) != (r2, c2)
    requires r1 == r2 || c1 == c2 || SameBlock(PuzzleNode(r1, c1), PuzzleNode(r2, c2))
    ensures g[r1][c1] == 0 || g[r1][c1] != g[r2][c2]
  {
    RcToNodeRoundTrip(r1, c1);
    RcToNodeRoundTrip(r2, c2);
    assert IsNeighbour(RcToNode(r1, c1), RcToNode(r2, c2));
  }

  lemma NoRepeatsRow(g: seq<seq<int>>, row: int)
    requires IsGrid(g) && NoRepeats(g) && 0 <= row < N
    ensures IsValidUnit(g[row])
  {
    IsValidUnitIff(g[row]);
    forall i, j | 0 <= i < j < N && g[row][i] != 0 ensures g[row][i] != g[row][j] {
      NoRepeatsAt(g, row, i, row, j);
    }
  }

  lemma NoRepeatsColumn(g: seq<seq<int>>, col: int)
    requires IsGrid(g) && NoRepeats(g) && 0 <= col < N
    ensures IsValidUnit(Column(g, col))
  {
    IsValidUnitIff(Column(g, col));
    forall i, j | 0 <= i < j < N && g[i][col] != 0 ensures g[i][col] != g[j][col] {
      NoRepeatsAt(g, i, col, j, col);
    }
  }

  /** Offset `t` of a block splits into block row t / 3 and block column t % 3. */
  lemma BlockOffset(t: int)
    requires 0 <= t < N
    ensures 0 <= t / BlockSize < BlockSize && 0 <= t % BlockSize < BlockSize
    ensures t == t / BlockSize * BlockSize + t % BlockSize
  {
  }

  /** Offsetting a block corner by less than a block side stays in its block. */
  lemma CornerOffset(x0: int, d: int)
    requires 0 <= x0 < N && x0 % BlockSize == 0 && 0 <= d < BlockSize
    ensures (x0 + d) / BlockSize == x0 / BlockSize
  {
  }

  /** Entries i < j of the block with corner (r0, c0) are two distinct cells
      of one block, so a grid without repeats gives them different non-zero digits. */
  lemma NoRepeatsBlockPair(g: seq<seq<int>>, r0: int, c0: int, i: int, j: int)
    requires IsGrid(g) && NoRepeats(g)
    requires 0 <= r0 < N && r0 % BlockSize == 0 && 0 <= c0 < N && c0 % BlockSize == 0
    requires 0 <= i < j < N
    ensures |Block(g, r0, c0)| == N
    ensures Block(g, r0, c0)[i] == 0 || Block(g, r0, c0)[i] != Block(g, r0, c0)[j]
  {
    BlockAt(g, r0, c0, i);
    BlockAt(g, r0, c0, j);
    BlockOffset(i);
    BlockOffset(j);
    CornerOffset(r0, i / BlockSize);
    CornerOffset(r0, j / BlockSize);
    CornerOffset(c0, i % BlockSize);
    CornerOffset(c0, j % BlockSize);
    NoRepeatsAt(g, r0 + i / BlockSize, c0 + i % BlockSize, r0 + j / BlockSize, c0 + j % BlockSize);
  }

  lemma NoRepeatsBlock(g: seq<seq<int>>, r0: int, c0: int)
    requires IsGrid(g) && NoRepeats(g)
    requires 0 <= r0 < N && r0 % BlockSize == 0 && 0 <= c0 < N && c0 % BlockSize == 0
    ensures IsValidUnit(Block(g, r0, c0))
  {
    var b := Block(g, r0, c0);
    BlockAt(g, r0, c0, 0);
    IsValidUnitIff(b);
    forall i, j | 0 <= i < j < |b| && b[i] != 0 ensures b[i] != b[j] {
      NoRepeatsBlockPair(g, r0, c0, i, j);
    }
  }

  /** A grid in which no two neighbours repeat a non-zero digit passes the check. */
  lemma NoRepeatsIsValid(g: seq<seq<int>>)
    requires IsGrid(g) && NoRepeats(g)
    ensures IsValidSudoku(g)
  {
    forall row | 0 <= row < N ensures IsValidUnit(g[row]) {
      NoRepeatsRow(g, row);
    }
    forall col | 0 <= col < N ensures IsValidUnit(Column(g, col)) {
      NoRepeatsColumn(g, col);
    }
    forall r0, c0 | 0 <= r0 < N && r0 % BlockSize == 0 && 0 <= c0 < N && c0 % BlockSize == 0
      ensures IsValidUnit(Block(g, r0, c0))
    {
      NoRepeatsBlock(g, r0, c0);
    }
  }

  /** The check accepts a grid exactly when no two neighbouring cells hold
      the same non-zero digit. */
  lemma ValidIffNoRepeats(g: seq<seq<int>>)
    requires IsGrid(g)
    ensures IsValidSudoku(g) <==> NoRepeats(g)
  {
    if IsValidSudoku(g) {
      ValidHasNoRepeats(g);
    }
    if NoRepeats(g) {
      NoRepeatsIsValid(g);
    }
  }

  /** The all-blank grid passes the check: zeros are dropped before counting. */
  lemma BlankGridValid()
    ensures IsGrid(seq(N, _ => seq(N, _ => 0)))
    ensures IsValidSudoku(seq(N, _ => seq(N, _ => 0)))
  {
    var g := seq(N, _ => seq(N, _ => 0));
    assert forall p :: 0 <= p < Size ==> Cell(g, p) == 0;
    NoRepeatsIsValid(g);
  }
}
