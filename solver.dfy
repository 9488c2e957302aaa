/** The solver: builds the adjacency table, seeds the assignment with the
    puzzle's non-zero cells, and completes it by backtracking search with the
    minimum-remaining-values heuristic over all 81 cells. */
module Solver {
  import opened Board
  import opened Seqs
  import opened Adjacency
  import opened Validator

  /** A table whose entry i is the neighbour list of cell i. */
  predicate IsAdjTable(adj: seq<seq<int>>)
  {
    |adj| == Size && forall i :: 0 <= i < Size ==> adj[i] == NeighbourList(i)
  }

  /** Every entry of `nodes` is a cell index. */
  predicate AllCells(nodes: seq<int>)
  {
    forall n :: n in nodes ==> 0 <= n < Size
  }

  /** The cells numbered below `n` hold their neighbour lists, the others are still empty. */
  ghost predicate FilledUpTo(adj: seq<seq<int>>, n: int)
  {
    |adj| == Size && forall j :: 0 <= j < Size ==> adj[j] == if j < n then NeighbourList(j) else []
  }

  /** Filling the list of cell n, and of no other cell, extends the filled prefix by one cell. */
  lemma FillStep(adj0: seq<seq<int>>, adj: seq<seq<int>>, n: int)
    requires FilledUpTo(adj0, n) && 0 <= n < Size && |adj| == Size
    requires adj[n] == adj0[n] + NeighbourList(n)
    requires forall j :: 0 <= j < Size && j != n ==> adj[j] == adj0[j]
    ensures FilledUpTo(adj, n + 1)
  {
  }

  /** Pushing the neighbours of cell (r, c), and of no other cell, onto a table
      filled below that cell extends the filled prefix past it. */
  lemma FillCell(adj0: seq<seq<int>>, adj: seq<seq<int>>, r: int, c: int)
    requires 0 <= r < N && 0 <= c < N && FilledUpTo(adj0, RcToNode(r, c)) && |adj| == Size
    requires adj[RcToNode(r, c)] == adj0[RcToNode(r, c)] + (RowColPart(r, c, N) + BlockPart(r, c, BlockSize))
    requires forall j :: 0 <= j < Size && j != RcToNode(r, c) ==> adj[j] == adj0[j]
    ensures FilledUpTo(adj, RcToNode(r, c) + 1)
  {
    NeighbourListAt(r, c);
    FillStep(adj0, adj, RcToNode(r, c));
  }

  /** Builds `adjList`: an empty list per cell, then, cell by cell, the row
      and column neighbours followed by the block neighbours. */
  method BuildAdjList() returns (adj: seq<seq<int>>)
    ensures IsAdjTable(adj)
    ensures forall i :: 0 <= i < Size ==> |adj[i]| == 24
    ensures forall i, j :: 0 <= i < Size ==> (j in adj[i] <==> IsNeighbour(i, j))
  {
    adj := [];
    var i := 0;
    while i < Size
      invariant 0 <= i <= Size && |adj| == i
      invariant forall j :: 0 <= j < i ==> adj[j] == []
    {
      adj := adj + [[]];
      i := i + 1;
    }
    assert FilledUpTo(adj, 0);
    adj := FillAdjList(adj);
    forall i | 0 <= i < Size ensures |adj[i]| == 24 && forall j :: j in adj[i] <==> IsNeighbour(i, j) {
      NeighbourListSpec(i);
    }
  }

  /** The construction loop over all cells, row by row: pushes each cell's
      row and column neighbours, then its block neighbours. */
  method FillAdjList(adj0: seq<seq<int>>) returns (adj: seq<seq<int>>)
    requires FilledUpTo(adj0, 0)
    ensures IsAdjTable(adj)
  {
    adj := adj0;
    var r := 0;
    // Proof-performance aid: `filled` is r * N, kept as a counter so that the
    // invariant's argument never needs multiplication.
    ghost var filled := 0;
    while r < N
      invariant 0 <= r <= N && filled == r * N && FilledUpTo(adj, filled)
    {
      adj := FillRow(adj, r, filled);
      NextRowStart(r);
      filled := filled + N;
      r := r + 1;
    }
    FilledAll(adj, filled);
  }

  /** Proof-performance aid: the one multiplication step the row counters need. */
  lemma NextRowStart(r: int)
    ensures r * N + N == (r + 1) * N
  {
  }

  /** A table filled below cell 81 is the whole adjacency table. */
  lemma FilledAll(adj: seq<seq<int>>, filled: int)
    requires filled == N * N && FilledUpTo(adj, filled)
    ensures IsAdjTable(adj)
  {
  }

  /** Row `r` of the construction loop: one round per column `c`. The ghost
      `filled` (always r * N) is a proof-performance aid, as in `FillAdjList`. */
  method FillRow(adj0: seq<seq<int>>, r: int, ghost filled: int) returns (adj: seq<seq<int>>)
    requires 0 <= r < N && filled == r * N && FilledUpTo(adj0, filled)
    ensures FilledUpTo(adj, filled + N)
  {
    adj := adj0;
    var c := 0;
    while c < N
      invariant 0 <= c <= N && FilledUpTo(adj, filled + c)
    {
      ghost var before := adj;
      adj := PushCellNeighbours(adj, r, c);
      FillCell(before, adj, r, c);
      c := c + 1;
    }
  }

  /** One round of the construction loop for cell (r, c): pushes its row and
      column neighbours, then its block neighbours, onto `adjList[rcToNode(r, c)]`. */
  method PushCellNeighbours(adj0: seq<seq<int>>, r: int, c: int) returns (adj: seq<seq<int>>)
    requires |adj0| == Size && 0 <= r < N && 0 <= c < N
    ensures |adj| == Size
    ensures adj[RcToNode(r, c)] == adj0[RcToNode(r, c)] + (RowColPart(r, c, N) + BlockPart(r, c, BlockSize))
    ensures forall j :: 0 <= j < Size && j != RcToNode(r, c) ==> adj[j] == adj0[j]
  {
    var node := RcToNode(r, c);
    var list := PushRowColNeighbours(adj0[node], r, c);
    list := PushBlockNeighbours(list, r, c);
    ConcatAssoc(adj0[node], RowColPart(r, c, N), BlockPart(r, c, BlockSize));
    adj := adj0[node := list];
  }

  /** The row-and-column loop for cell (r, c), pushing onto its list: for each
      k, (r, k) unless k is c, then (k, c) unless k is r. */
  method PushRowColNeighbours(list0: seq<int>, r: int, c: int) returns (list: seq<int>)
    requires 0 <= r < N && 0 <= c < N
    ensures list == list0 + RowColPart(r, c, N)
  {
    list := list0;
    var k := 0;
    while k < N
      invariant 0 <= k <= N
      invariant list == list0 + RowColPart(r, c, k)
    {
      ghost var rowEntry := if k != c then [RcToNode(r, k)] else [];
      ghost var colEntry := if k != r then [RcToNode(k, c)] else [];
      ConcatAssoc(list0, RowColPart(r, c, k), rowEntry);
      ConcatAssoc(list0, RowColPart(r, c, k) + rowEntry, colEntry);
      ghost var pushed := list;
      if k != c {
        list := list + [RcToNode(r, k)];
      }
      assert list == pushed + rowEntry;
      if k != r {
        list := list + [RcToNode(k, c)];
      }
      assert list == pushed + rowEntry + colEntry;
      k := k + 1;
    }
  }

  /** The block loop for cell (r, c), pushing onto its list: for each row `dr`
      of its block, the cells of that row other than (r, c). */
  method PushBlockNeighbours(list0: seq<int>, r: int, c: int) returns (list: seq<int>)
    requires 0 <= r < N && 0 <= c < N
    ensures list == list0 + BlockPart(r, c, BlockSize)
  {
    list := list0;
    var dr := 0;
    while dr < BlockSize
      invariant 0 <= dr <= BlockSize
      invariant list == list0 + BlockPart(r, c, dr)
    {
      ConcatAssoc(list0, BlockPart(r, c, dr), BlockRowPart(r, c, dr, BlockSize));
      list := PushBlockRow(list, r, c, dr);
      dr := dr + 1;
    }
  }

  /** The inner block loop, row `dr` of the block of (r, c): for each column
      `dc`, pushes cell (br * 3 + dr, bc * 3 + dc) unless it is (r, c). */
  method PushBlockRow(list0: seq<int>, r: int, c: int, dr: int) returns (list: seq<int>)
    requires 0 <= r < N && 0 <= c < N && 0 <= dr < BlockSize
    ensures list == list0 + BlockRowPart(r, c, dr, BlockSize)
  {
    list := list0;
    var nodeId := RcToNode(r, c);
    var br := r / BlockSize;
    var bc := c / BlockSize;
    var dc := 0;
    while dc < BlockSize
      invariant 0 <= dc <= BlockSize
      invariant list == list0 + BlockRowPart(r, c, dr, dc)
    {
      var nr := br * BlockSize + dr;
      var nc := bc * BlockSize + dc;
      var neighbourId := RcToNode(nr, nc);
      if neighbourId != nodeId {
        ConcatAssoc(list0, BlockRowPart(r, c, dr, dc), [neighbourId]);
        list := list + [neighbourId];
      }
      dc := dc + 1;
    }
  }

  /** The cells numbered below `n` are seeded: each holds its puzzle value
      exactly when that value is non-zero, and no other cell is assigned. */
  ghost predicate SeededUpTo(colors: map<int, int>, puzzle: seq<seq<int>>, n: int)
    requires IsGrid(puzzle)
  {
    0 <= n <= Size &&
    (forall i :: i in colors ==> 0 <= i < n && colors[i] == Cell(puzzle, i)) &&
    (forall i :: 0 <= i < n ==> (i in colors <==> Cell(puzzle, i) != 0))
  }

  /** Seeding cell n, and no other, extends the seeded prefix by one cell. */
  lemma SeedStep(before: map<int, int>, colors: map<int, int>, puzzle: seq<seq<int>>, n: int)
    requires IsGrid(puzzle) && SeededUpTo(before, puzzle, n) && n < Size
    requires colors == if Cell(puzzle, n) != 0 then before[n := Cell(puzzle, n)] else before
    ensures SeededUpTo(colors, puzzle, n + 1)
  {
  }

  /** Seeds `colors` from the puzzle: cell i gets the value at its (row, col)
      position exactly when that value is non-zero. */
  method SeedColors(puzzle: seq<seq<int>>) returns (colors: map<int, int>)
    requires IsGrid(puzzle)
    ensures forall i :: i in colors ==> 0 <= i < Size && colors[i] == Cell(puzzle, i)
    ensures forall i :: 0 <= i < Size ==> (i in colors <==> Cell(puzzle, i) != 0)
  {
    colors := map[];
    var r := 0;
    // Proof-performance aid: `seeded` is r * N, kept as a counter as in `FillAdjList`.
    ghost var seeded := 0;
    while r < N
      invariant 0 <= r <= N && seeded == r * N && SeededUpTo(colors, puzzle, seeded)
    {
      var c := 0;
      while c < N
        invariant 0 <= c <= N && SeededUpTo(colors, puzzle, seeded + c)
      {
        ghost var before := colors;
        var value := puzzle[r][c];
        RcToNodeRoundTrip(r, c);
        if value != 0 {
          var node := RcToNode(r, c);
          colors := colors[node := value];
        }
        SeedStep(before, colors, puzzle, RcToNode(r, c));
        c := c + 1;
      }
      NextRowStart(r);
      seeded := seeded + N;
      r := r + 1;
    }
  }

  /** `neighbours.every(nb => assign[nb] !== color)`: no assigned cell among
      `neighbours` holds `color`. */
  predicate NoneHolds(neighbours: seq<int>, colors: map<int, int>, color: int)
  {
    forall nb :: nb in neighbours ==> !(nb in colors && colors[nb] == color)
  }

  /** The digits held by the assigned cells among `neighbours`, gathered in
      list order (the `usedColors` set). */
  function UsedColors(neighbours: seq<int>, colors: map<int, int>): set<int>
    decreases |neighbours|
  {
    if neighbours == [] then {}
    else
      var last := neighbours[|neighbours| - 1];
      UsedColors(neighbours[..|neighbours| - 1], colors) + (if last in colors then {colors[last]} else {})
  }

  /** The digits 1 .. c - 1 missing from `used`, ascending. */
  function FreeDigits(used: set<int>, c: int): seq<int>
    requires 1 <= c
    decreases c
  {
    if c == 1 then []
    else FreeDigits(used, c - 1) + (if c - 1 !in used then [c - 1] else [])
  }

  /** What `possibleColors` returns for a cell with the given neighbour list. */
  function Candidates(neighbours: seq<int>, colors: map<int, int>): seq<int>
  {
    FreeDigits(UsedColors(neighbours, colors), N + 1)
  }

  lemma {:induction false} UsedColorsSpec(neighbours: seq<int>, colors: map<int, int>)
    ensures forall x :: x !in UsedColors(neighbours, colors) <==> NoneHolds(neighbours, colors, x)
    decreases |neighbours|
  {
    if neighbours != [] {
      var init := neighbours[..|neighbours| - 1];
      UsedColorsSpec(init, colors);
      assert neighbours == init + [neighbours[|neighbours| - 1]];
    }
  }

  lemma {:induction false} FreeDigitsSpec(used: set<int>, c: int)
    requires 1 <= c
    ensures forall x :: x in FreeDigits(used, c) <==> 1 <= x < c && x !in used
    ensures forall i, j :: 0 <= i < j < |FreeDigits(used, c)| ==> FreeDigits(used, c)[i] < FreeDigits(used, c)[j]
    decreases c
  {
    if c > 1 {
      FreeDigitsSpec(used, c - 1);
      var prev := FreeDigits(used, c - 1);
      var d := FreeDigits(used, c);
      forall i, j | 0 <= i < j < |d| ensures d[i] < d[j] {
        if j >= |prev| {
          assert d[j] == c - 1 && d[i] == prev[i] && prev[i] in prev;
        } else {
          assert d[i] == prev[i] && d[j] == prev[j];
        }
      }
    }
  }

  /** The candidate list of a cell holds, in strictly ascending order, exactly
      the digits 1..9 that no assigned neighbour holds. */
  lemma CandidatesSpec(neighbours: seq<int>, colors: map<int, int>)
    ensures forall x :: x in Candidates(neighbours, colors) <==> 1 <= x <= N && NoneHolds(neighbours, colors, x)
    ensures forall i, j :: 0 <= i < j < |Candidates(neighbours, colors)| ==>
      Candidates(neighbours, colors)[i] < Candidates(neighbours, colors)[j]
  {
    UsedColorsSpec(neighbours, colors);
    FreeDigitsSpec(UsedColors(neighbours, colors), N + 1);
  }

  /** `possibleColors(node, assign)`: gathers the digits of the assigned
      neighbours into a set, then lists 1..9 minus that set. */
  method PossibleColors(adj: seq<seq<int>>, node: int, colors: map<int, int>) returns (available: seq<int>)
    requires 0 <= node < |adj|
    ensures available == Candidates(adj[node], colors)
    ensures forall x :: x in available <==> 1 <= x <= N && NoneHolds(adj[node], colors, x)
    ensures forall i, j :: 0 <= i < j < |available| ==> available[i] < available[j]
  {
    var usedColors: set<int> := {};
    var neighbours := adj[node];
    var k := 0;
    while k < |neighbours|
      invariant 0 <= k <= |neighbours|
      invariant usedColors == UsedColors(neighbours[..k], colors)
    {
      var neighbour := neighbours[k];
      assert neighbours[..k + 1][..k] == neighbours[..k];
      if neighbour in colors {
        usedColors := usedColors + {colors[neighbour]};
      }
      k := k + 1;
    }
    assert neighbours[..k] == neighbours;
    available := [];
    var c := 1;
    while c <= N
      invariant 1 <= c <= N + 1
      invariant available == FreeDigits(usedColors, c)
    {
      if c !in usedColors {
        available := available + [c];
      }
      c := c + 1;
    }
    CandidatesSpec(neighbours, colors);
  }

  /** A digit taken from the candidate list computed against `entry` is held
      by no neighbour in any assignment obtained from `entry` by deleting
      entries: the re-check before each trial assignment always passes. */
  lemma RecheckRedundant(neighbours: seq<int>, entry: map<int, int>, colors: map<int, int>, color: int)
    requires color in Candidates(neighbours, entry)
    requires SubMap(colors, entry)
    ensures NoneHolds(neighbours, colors, color)
  {
    CandidatesSpec(neighbours, entry);
  }

  /** Every entry of `small` is an entry of `big` with the same value. */
  predicate SubMap(small: map<int, int>, big: map<int, int>)
  {
    forall k :: k in small ==> k in big && small[k] == big[k]
  }

  /** Every entry of `nodes` indexes the table. */
  predicate InTable(adj: seq<seq<int>>, nodes: seq<int>)
  {
    forall k :: 0 <= k < |nodes| ==> 0 <= nodes[k] < |adj|
  }

  /** `possibleColors(node, assign).length`. */
  function CandidateCount(adj: seq<seq<int>>, colors: map<int, int>, node: int): nat
    requires 0 <= node < |adj|
  {
    |Candidates(adj[node], colors)|
  }

  /** The `reduce` of the MRV choice from accumulator `best` over `rest`: a
      later cell replaces the accumulator only when it has strictly fewer candidates. */
  function MrvFold(adj: seq<seq<int>>, colors: map<int, int>, best: int, rest: seq<int>): (m: int)
    requires 0 <= best < |adj| && InTable(adj, rest)
    ensures m == best || m in rest
    decreases |rest|
  {
    if rest == [] then best
    else
      var next := if CandidateCount(adj, colors, rest[0]) < CandidateCount(adj, colors, best) then rest[0] else best;
      MrvFold(adj, colors, next, rest[1..])
  }

  /** The MRV choice: `nodes.reduce(..., nodes[0])`. */
  function SelectMrv(adj: seq<seq<int>>, colors: map<int, int>, nodes: seq<int>): (m: int)
    requires |nodes| > 0 && InTable(adj, nodes)
    ensures m in nodes
  {
    MrvFold(adj, colors, nodes[0], nodes)
  }

  /** No scanned cell, and not the accumulator, has fewer candidates than the result. */
  lemma {:induction false} MrvFoldMin(adj: seq<seq<int>>, colors: map<int, int>, best: int, rest: seq<int>)
    requires 0 <= best < |adj| && InTable(adj, rest)
    ensures var m := MrvFold(adj, colors, best, rest);
      CandidateCount(adj, colors, m) <= CandidateCount(adj, colors, best) &&
      forall n :: n in rest ==> CandidateCount(adj, colors, m) <= CandidateCount(adj, colors, n)
    decreases |rest|
  {
    if rest != [] {
      var x := rest[0];
      var next := if CandidateCount(adj, colors, x) < CandidateCount(adj, colors, best) then x else best;
      MrvFoldMin(adj, colors, next, rest[1..]);
      var m := MrvFold(adj, colors, best, rest);
      forall n | n in rest ensures CandidateCount(adj, colors, m) <= CandidateCount(adj, colors, n) {
        if n != x {
          assert n in rest[1..];
        }
      }
    }
  }

  /** A tie with the accumulator keeps the accumulator (the comparison is strict). */
  lemma {:induction false} MrvFoldKeep(adj: seq<seq<int>>, colors: map<int, int>, best: int, rest: seq<int>)
    requires 0 <= best < |adj| && InTable(adj, rest)
    ensures var m := MrvFold(adj, colors, best, rest);
      CandidateCount(adj, colors, best) == CandidateCount(adj, colors, m) ==> m == best
    decreases |rest|
  {
    if rest != [] {
      var x := rest[0];
      var next := if CandidateCount(adj, colors, x) < CandidateCount(adj, colors, best) then x else best;
      MrvFoldKeep(adj, colors, next, rest[1..]);
      MrvFoldMin(adj, colors, next, rest[1..]);
    }
  }

  /** Among scanned cells with the result's count, the result is no later than
      the first of them. */
  lemma {:induction false} MrvFoldFirst(adj: seq<seq<int>>, colors: map<int, int>, best: int, rest: seq<int>)
    requires 0 <= best < |adj| && InTable(adj, rest)
    ensures var m := MrvFold(adj, colors, best, rest);
      forall j :: 0 <= j < |rest| && CandidateCount(adj, colors, rest[j]) == CandidateCount(adj, colors, m) ==>
        m == best || m in rest[..j + 1]
    decreases |rest|
  {
    if rest != [] {
      var x, tail := rest[0], rest[1..];
      var next := if CandidateCount(adj, colors, x) < CandidateCount(adj, colors, best) then x else best;
      var m := MrvFold(adj, colors, next, tail);
      assert m == MrvFold(adj, colors, best, rest);
      MrvFoldFirst(adj, colors, next, tail);
      MrvFoldKeep(adj, colors, next, tail);
      MrvFoldMin(adj, colors, next, tail);
      forall j | 0 <= j < |rest| && CandidateCount(adj, colors, rest[j]) == CandidateCount(adj, colors, m)
        ensures m == best || m in rest[..j + 1]
      {
        if j == 0 {
          assert CandidateCount(adj, colors, x) == CandidateCount(adj, colors, m);
        } else {
          assert rest[j] == tail[j - 1];
          if m == next {
            assert rest[..j + 1][0] == x;
          } else {
            assert m in tail[..j];
            var k :| 0 <= k < j && tail[k] == m;
            assert rest[..j + 1][k + 1] == m;
          }
        }
      }
    }
  }

  /** The MRV choice is a pending cell with the fewest candidates; among
      several such cells the earliest in `nodes` wins. */
  lemma SelectMrvSpec(adj: seq<seq<int>>, colors: map<int, int>, nodes: seq<int>)
    requires |nodes| > 0 && InTable(adj, nodes)
    ensures SelectMrv(adj, colors, nodes) in nodes
    ensures forall n :: n in nodes ==>
      CandidateCount(adj, colors, SelectMrv(adj, colors, nodes)) <= CandidateCount(adj, colors, n)
    ensures forall j ::
      (0 <= j < |nodes| &&
       CandidateCount(adj, colors, nodes[j]) == CandidateCount(adj, colors, SelectMrv(adj, colors, nodes))) ==>
      SelectMrv(adj, colors, nodes) in nodes[..j + 1]
  {
    MrvFoldMin(adj, colors, nodes[0], nodes);
    MrvFoldFirst(adj, colors, nodes[0], nodes);
  }

  /** `nodes.filter(n => n !== node)`. */
  function Without(nodes: seq<int>, node: int): (rest: seq<int>)
    ensures forall n :: n in rest <==> n in nodes && n != node
    ensures |rest| <= |nodes|
    ensures node in nodes ==> |rest| < |nodes|
  {
    if nodes == [] then []
    else (if nodes[0] != node then [nodes[0]] else []) + Without(nodes[1..], node)
  }

  /** The assignment store `assign` that the search shares and updates in
      place: cell index to digit, a missing key being an unassigned cell. */
  class Assignment {
    var colors: map<int, int>

    /** `cloneDeep(colors)`: a store holding a copy of `initial`. */
    constructor (initial: map<int, int>)
      ensures colors == initial
    {
      colors := initial;
    }
  }

  /** Assigned neighbouring cells that are both outside `pending` hold different values. */
  ghost predicate ProperOutside(colors: map<int, int>, pending: seq<int>)
  {
    forall i, j :: i in colors && j in colors && i !in pending && j !in pending && IsNeighbour(i, j) ==>
      colors[i] != colors[j]
  }

  /** A proper colouring: no two assigned neighbouring cells hold the same value. */
  ghost predicate Proper(colors: map<int, int>)
  {
    forall i, j :: i in colors && j in colors && IsNeighbour(i, j) ==> colors[i] != colors[j]
  }

  /** Every cell of `nodes` is assigned a digit 1..9. */
  ghost predicate Complete(colors: map<int, int>, nodes: seq<int>)
  {
    forall n :: n in nodes ==> n in colors && 1 <= colors[n] <= N
  }

  /** `a` and `b` agree on every key outside `nodes`. */
  ghost predicate SameOutside(a: map<int, int>, b: map<int, int>, nodes: seq<int>)
  {
    forall k :: k !in nodes ==> (k in a <==> k in b) && (k in a ==> a[k] == b[k])
  }

  /** Assigning `node` a digit that none of its neighbours holds, and taking it
      off the pending list, keeps the settled cells properly coloured. */
  lemma ExtendProper(colors: map<int, int>, nodes: seq<int>, node: int, color: int)
    requires ProperOutside(colors, nodes) && 0 <= node < Size
    requires NoneHolds(NeighbourList(node), colors, color)
    ensures ProperOutside(colors[node := color], Without(nodes, node))
  {
    NeighbourListSpec(node);
    var next, rest := colors[node := color], Without(nodes, node);
    forall i, j | i in next && j in next && i !in rest && j !in rest && IsNeighbour(i, j)
      ensures next[i] != next[j]
    {
      if i == node {
        assert j in NeighbourList(node);
      } else if j == node {
        assert i in NeighbourList(node);
      }
    }
  }

  lemma ProperOutsideTransfer(a: map<int, int>, b: map<int, int>, nodes: seq<int>)
    requires SameOutside(a, b, nodes) && ProperOutside(b, nodes)
    ensures ProperOutside(a, nodes)
  {
  }

  /** A successful recursion on `Without(nodes, node)` after assigning `node`
      completes every cell of `nodes` and changes nothing outside them. */
  lemma TrialSucceeded(entry: map<int, int>, before: map<int, int>, after: map<int, int>,
                       nodes: seq<int>, node: int, color: int)
    requires node in nodes && 1 <= color <= N
    requires SameOutside(before, entry, nodes)
    requires SameOutside(after, before[node := color], Without(nodes, node))
    requires Complete(after, Without(nodes, node))
    ensures Complete(after, nodes)
    ensures SameOutside(after, entry, nodes)
  {
  }

  /** Deleting `node` after a failed recursion leaves a sub-map of the entry
      assignment that agrees with it outside `nodes`. */
  lemma TrialFailed(entry: map<int, int>, before: map<int, int>, after: map<int, int>,
                    nodes: seq<int>, node: int, color: int)
    requires node in nodes
    requires SubMap(before, entry) && SameOutside(before, entry, nodes)
    requires SubMap(after, before[node := color])
    requires SameOutside(after, before[node := color], Without(nodes, node))
    ensures SubMap(after - {node}, entry)
    ensures SameOutside(after - {node}, entry, nodes)
  {
  }

  /** `backtrack(assign, nodes)`: picks the MRV cell, tries its candidate digits
      in ascending order, recursing on the other pending cells, and deletes the
      trial digit when the recursion fails. Returns the store itself on success
      and null on failure. */
  method Backtrack(adj: seq<seq<int>>, assign: Assignment, nodes: seq<int>) returns (result: Assignment?)
    requires IsAdjTable(adj) && AllCells(nodes)
    requires ProperOutside(assign.colors, nodes)
    modifies assign
    decreases |nodes|
    ensures result == null || result == assign
    ensures SameOutside(assign.colors, old(assign.colors), nodes)
    ensures result == null ==> SubMap(assign.colors, old(assign.colors))
    ensures result != null ==> Complete(assign.colors, nodes) && Proper(assign.colors)
  {
    if |nodes| == 0 {
      return assign;
    }
    assert InTable(adj, nodes) by {
      forall k | 0 <= k < |nodes| ensures 0 <= nodes[k] < |adj| {
        assert nodes[k] in nodes;
      }
    }
    var node := SelectMrv(adj, assign.colors, nodes);
    SelectMrvSpec(adj, assign.colors, nodes);
    var candidates := PossibleColors(adj, node, assign.colors);
    ghost var entry := assign.colors;
    var k := 0;
    while k < |candidates|
      invariant 0 <= k <= |candidates|
      invariant SubMap(assign.colors, entry)
      invariant SameOutside(assign.colors, entry, nodes)
    {
      var color := candidates[k];
      assert color in candidates;
      var neighbours := adj[node];
      var isValid := NoneHolds(neighbours, assign.colors, color);
      // the re-check never fails: failed trials only delete entries
      RecheckRedundant(neighbours, entry, assign.colors, color);
      assert isValid;
      if isValid {
        ghost var before := assign.colors;
        ProperOutsideTransfer(before, entry, nodes);
        ExtendProper(before, nodes, node, color);
        assign.colors := assign.colors[node := color];
        var sub := Backtrack(adj, assign, Without(nodes, node));
        if sub != null {
          TrialSucceeded(entry, before, assign.colors, nodes, node, color);
          return sub;
        }
        TrialFailed(entry, before, assign.colors, nodes, node, color);
        assign.colors := assign.colors - {node};
      }
      k := k + 1;
    }
    return null;
  }

  /** Writes the solution into a fresh 9x9 grid of zeros: each assigned cell
      index goes to its (row, col) position. */
  method AssembleGrid(solution: map<int, int>) returns (grid: seq<seq<int>>)
    requires forall i :: i in solution ==> 0 <= i < Size
    ensures IsGrid(grid)
    ensures forall r, c :: 0 <= r < N && 0 <= c < N ==>
      grid[r][c] == if RcToNode(r, c) in solution then solution[RcToNode(r, c)] else 0
  {
    grid := seq(N, _ => seq(N, _ => 0));
    var node := 0;
    while node < Size
      invariant 0 <= node <= Size && IsGrid(grid)
      invariant forall r, c :: 0 <= r < N && 0 <= c < N ==>
        grid[r][c] == if RcToNode(r, c) < node && RcToNode(r, c) in solution then solution[RcToNode(r, c)] else 0
    {
      if node in solution {
        var p := NodeToRc(node);
        NodeToRcRoundTrip(node);
        grid := grid[p.row := grid[p.row][p.col := solution[node]]];
      }
      node := node + 1;
    }
  }

  /** A complete proper colouring of all 81 cells, written out as a grid,
      passes the validity check. */
  lemma SolutionGridValid(solution: map<int, int>, grid: seq<seq<int>>)
    requires IsGrid(grid) && Proper(solution)
    requires forall i :: 0 <= i < Size ==> i in solution
    requires forall r, c :: 0 <= r < N && 0 <= c < N ==> grid[r][c] == solution[RcToNode(r, c)]
    ensures IsValidSudoku(grid)
  {
    forall p | 0 <= p < Size ensures Cell(grid, p) == solution[p] {
      NodeToRcRoundTrip(p);
    }
    ValidIffNoRepeats(grid);
  }

  /** The outcome of `sudokuSolver`: the solved grid, or the "No solution"
      error it throws. */
  datatype Outcome = Solved(grid: seq<seq<int>>) | NoSolution

  /** `sudokuSolver(puzzle)`: builds the table, seeds the givens, runs the
      search over all 81 cells and assembles the grid. */
  method SudokuSolver(puzzle: seq<seq<int>>) returns (outcome: Outcome)
    requires IsGrid(puzzle)
    ensures outcome.Solved? ==> IsGrid(outcome.grid)
    ensures outcome.Solved? ==> forall r, c :: 0 <= r < N && 0 <= c < N ==> 1 <= outcome.grid[r][c] <= N
    ensures outcome.Solved? ==> IsValidSudoku(outcome.grid)
  {
    var adj := BuildAdjList();
    var colors := SeedColors(puzzle);
    var assign := new Assignment(colors);
    var nodes := seq(Size, i => i);
    assert forall i :: 0 <= i < Size ==> i in nodes by {
      forall i | 0 <= i < Size ensures i in nodes {
        assert nodes[i] == i;
      }
    }
    var solution := Backtrack(adj, assign, nodes);
    if solution == null {
      return NoSolution;
    }
    var grid := AssembleGrid(solution.colors);
    SolutionGridValid(solution.colors, grid);
    return Solved(grid);
  }

  /** In a valid grid whose cells all hold non-zero digits, every row holds
      nine distinct values (`new Set(row).size === row.length`). */
  lemma SolvedRowsDistinct(g: seq<seq<int>>)
    requires IsGrid(g) && IsValidSudoku(g)
    requires forall r, c :: 0 <= r < N && 0 <= c < N ==> g[r][c] != 0
    ensures forall r :: 0 <= r < N ==> |Elements(g[r])| == |g[r]|
  {
    forall r | 0 <= r < N ensures |Elements(g[r])| == |g[r]| {
      IsValidUnitIff(g[r]);
      CardElements(g[r]);
    }
  }
}
