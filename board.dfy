// The board of the solver: a size x size grid of values (0 = unassigned,
// 1..size = placed) and a size x size x size cache of values ruled out per
// cell, with the queries and updates the search uses (Board.h, Board.cpp).

module SudokuBoard {
  import opened BoxMath

  /** One initial assignment of the puzzle input, with 1-based row and column. */
  datatype Given = Given(row: int, col: int, value: int) {
    /** Does this assignment target the 0-based cell (i, j)? */
    predicate Targets(i: int, j: int) {
      row == i + 1 && col == j + 1
    }
  }

  /** The value the loader leaves at the 0-based cell (i, j) after storing the
      first n givens one after the other: the last of them that targets the
      cell wins, 0 if none does. */
  function Stored(gs: seq<Given>, n: nat, i: int, j: int): int
    requires n <= |gs|
  {
    if n == 0 then 0
    else if gs[n - 1].Targets(i, j) then gs[n - 1].value
    else Stored(gs, n - 1, i, j)
  }

  /** What Stored leaves at a cell: 0 when no given targets it, otherwise the
      value of the last given that does. */
  lemma {:induction false} StoredIsLastGiven(gs: seq<Given>, n: nat, i: int, j: int)
    requires n <= |gs|
    ensures (forall t :: 0 <= t < n ==> !gs[t].Targets(i, j)) ==> Stored(gs, n, i, j) == 0
    ensures forall t :: 0 <= t < n && gs[t].Targets(i, j) && (forall u :: t < u < n ==> !gs[u].Targets(i, j)) ==>
              Stored(gs, n, i, j) == gs[t].value
  {
    if n > 0 && !gs[n - 1].Targets(i, j) {
      StoredIsLastGiven(gs, n - 1, i, j);
    }
  }

  /** Row-major order on cells: (i1, j1) is scanned before (i2, j2). */
  predicate Before(i1: int, j1: int, i2: int, j2: int) {
    i1 < i2 || (i1 == i2 && j1 < j2)
  }

  /** Number of zero cells in columns [0, n) of row i of g. */
  ghost function RowZeros(g: array2<int>, i: int, n: int): nat
    requires 0 <= i < g.Length0 && 0 <= n <= g.Length1
    reads g
  {
    if n == 0 then 0 else RowZeros(g, i, n - 1) + (if g[i, n - 1] == 0 then 1 else 0)
  }

  /** Number of zero cells in rows [0, m) of g. */
  ghost function GridZeros(g: array2<int>, m: int): nat
    requires 0 <= m <= g.Length0
    reads g
  {
    if m == 0 then 0 else GridZeros(g, m - 1) + RowZeros(g, m - 1, g.Length1)
  }

  /** A row that no cell of [0, n) is zero in has no zeros counted, and back. */
  lemma {:induction false} RowZerosNone(g: array2<int>, i: int, n: int)
    requires 0 <= i < g.Length0 && 0 <= n <= g.Length1
    ensures RowZeros(g, i, n) == 0 <==> forall j :: 0 <= j < n ==> g[i, j] != 0
  {
    if n > 0 {
      RowZerosNone(g, i, n - 1);
    }
  }

  /** The zero count of rows [0, m) is 0 exactly when none of their cells is zero. */
  lemma {:induction false} GridZerosNone(g: array2<int>, m: int)
    requires 0 <= m <= g.Length0
    ensures GridZeros(g, m) == 0 <==> forall i, j :: 0 <= i < m && 0 <= j < g.Length1 ==> g[i, j] != 0
  {
    if m > 0 {
      GridZerosNone(g, m - 1);
      RowZerosNone(g, m - 1, g.Length1);
    }
  }

  /** Equal rows have equal zero counts. */
  lemma {:induction false} RowZerosSame(g1: array2<int>, g2: array2<int>, i: int, n: int)
    requires g1.Length0 == g2.Length0 && g1.Length1 == g2.Length1
    requires 0 <= i < g1.Length0 && 0 <= n <= g1.Length1
    requires forall j :: 0 <= j < n ==> g1[i, j] == g2[i, j]
    ensures RowZeros(g1, i, n) == RowZeros(g2, i, n)
  {
    if n > 0 {
      RowZerosSame(g1, g2, i, n - 1);
    }
  }

  /** Filling the zero cell (i, c) of a row with a nonzero value removes one zero
      from every prefix of the row that contains column c. */
  lemma {:induction false} RowZerosAssign(g1: array2<int>, g2: array2<int>, i: int, c: int, n: int)
    requires g1.Length0 == g2.Length0 && g1.Length1 == g2.Length1
    requires 0 <= i < g1.Length0 && 0 <= c < g1.Length1 && 0 <= n <= g1.Length1
    requires forall j :: 0 <= j < g1.Length1 && j != c ==> g1[i, j] == g2[i, j]
    requires g1[i, c] == 0 && g2[i, c] != 0
    ensures RowZeros(g2, i, n) + (if c < n then 1 else 0) == RowZeros(g1, i, n)
  {
    if n > 0 {
      RowZerosAssign(g1, g2, i, c, n - 1);
    }
  }

  /** Filling one zero cell (r, c) with a nonzero value, and changing nothing
      else, lowers the number of zero cells of the grid by exactly one. */
  lemma {:induction false} GridZerosAssign(g1: array2<int>, g2: array2<int>, r: int, c: int, m: int)
    requires g1.Length0 == g2.Length0 && g1.Length1 == g2.Length1
    requires 0 <= r < g1.Length0 && 0 <= c < g1.Length1 && 0 <= m <= g1.Length0
    requires forall i, j :: 0 <= i < g1.Length0 && 0 <= j < g1.Length1 && (i != r || j != c) ==> g1[i, j] == g2[i, j]
    requires g1[r, c] == 0 && g2[r, c] != 0
    ensures GridZeros(g2, m) + (if r < m then 1 else 0) == GridZeros(g1, m)
  {
    if m > 0 {
      GridZerosAssign(g1, g2, r, c, m - 1);
      if m - 1 == r {
        RowZerosAssign(g1, g2, r, c, g1.Length1);
      } else {
        RowZerosSame(g1, g2, m - 1, g1.Length1);
      }
    }
  }

  class Board {
    /** N, the number of rows, columns, boxes and values. */
    const size: nat
    /** The side of a box; the source derives it as the square root of size. */
    const root: nat
    /** grid[i, j]: the value of cell (i, j), 0 while unassigned. */
    const grid: array2<int>
    /** excl[i, j, k]: value k + 1 is ruled out at cell (i, j). */
    const excl: array3<bool>

    /** The shape of a board: size == root * root, arrays of that size, values in 0..size. */
    ghost predicate Valid()
      reads grid
    {
      0 < root && root * root == size &&
      grid.Length0 == size && grid.Length1 == size &&
      excl.Length0 == size && excl.Length1 == size && excl.Length2 == size &&
      forall i, j :: 0 <= i < size && 0 <= j < size ==> 0 <= grid[i, j] <= size
    }

    /** No value is ruled out anywhere. */
    ghost predicate NoExclusions()
      requires Valid()
      reads grid, excl
    {
      forall i, j, k :: 0 <= i < size && 0 <= j < size && 0 <= k < size ==> !excl[i, j, k]
    }

    // ---------------------------------------------------------------------
    // Construction

    /** Board(string): an all-zero grid with nothing ruled out, on which the
        givens are stored in order without any validation. */
    constructor Load(n: nat, r: nat, givens: seq<Given>)
      requires 0 < r && r * r == n
      requires forall t :: 0 <= t < |givens| ==>
                 1 <= givens[t].row <= n && 1 <= givens[t].col <= n && 0 <= givens[t].value <= n
      ensures Valid() && size == n && root == r
      ensures fresh(grid) && fresh(excl)
      ensures forall i, j :: 0 <= i < n && 0 <= j < n ==> grid[i, j] == Stored(givens, |givens|, i, j)
      ensures NoExclusions()
    {
      var g := PlaceGivens(n, givens);
      var e := new bool[n, n, n]((i, j, k) => false);
      size, root, grid, excl := n, r, g, e;
    }

    /** Board(Board*): a deep copy into fresh arrays. */
    constructor Clone(src: Board)
      requires src.Valid()
      ensures Valid() && size == src.size && root == src.root
      ensures fresh(grid) && fresh(excl)
      ensures forall i, j :: 0 <= i < size && 0 <= j < size ==> grid[i, j] == src.grid[i, j]
      ensures forall i, j, k :: 0 <= i < size && 0 <= j < size && 0 <= k < size ==>
                excl[i, j, k] == src.excl[i, j, k]
    {
      var g := CopyGrid(src.grid);
      var e := CopyExcl(src.excl);
      size, root, grid, excl := src.size, src.root, g, e;
    }

    /** Board(Board*, row, col, value): a deep copy in which cell (row, col)
        holds value; the exclusion cache is copied as it is. */
    constructor CloneWith(src: Board, row: int, col: int, value: int)
      requires src.Valid() && 0 <= row < src.size && 0 <= col < src.size
      requires 0 <= value <= src.size
      ensures Valid() && size == src.size && root == src.root
      ensures fresh(grid) && fresh(excl)
      ensures grid[row, col] == value
      ensures forall i, j :: 0 <= i < size && 0 <= j < size && (i != row || j != col) ==>
                grid[i, j] == src.grid[i, j]
      ensures forall i, j, k :: 0 <= i < size && 0 <= j < size && 0 <= k < size ==>
                excl[i, j, k] == src.excl[i, j, k]
    {
      var g := CopyGrid(src.grid);
      var e := CopyExcl(src.excl);
      g[row, col] := value;
      size, root, grid, excl := src.size, src.root, g, e;
    }

    // ---------------------------------------------------------------------
    // Queries

    /** Whether value has not been ruled out at (row, col): a lookup in the
        exclusion cache, not a consistency check of the grid. */
    function IsValidMove(row: int, col: int, value: int): (ok: bool)
      requires Valid() && 0 <= row < size && 0 <= col < size && 1 <= value <= size
      reads grid, excl
      ensures ok <==> !excl[row, col, value - 1]
    {
      !excl[row, col, value - 1]
    }

    /** The value of a cell: 0 while unassigned, else one of 1..size. */
    function GetAssignment(row: int, col: int): (v: int)
      requires Valid() && 0 <= row < size && 0 <= col < size
      reads grid
      ensures 0 <= v <= size
      ensures v == grid[row, col]
    {
      grid[row, col]
    }

    /** The number of rows, columns and values, a perfect square. */
    function GetSize(): (n: nat)
      requires Valid()
      reads grid
      ensures n == root * root && 0 < n
    {
      size
    }

    // ---------------------------------------------------------------------
    // Consistency: what is_valid_board decides

    /** Row i holds no nonzero value twice. */
    ghost predicate RowDistinct(i: int)
      requires Valid() && 0 <= i < size
      reads grid
    {
      forall j1, j2 :: 0 <= j1 < size && 0 <= j2 < size && j1 != j2 && grid[i, j1] != 0 ==>
        grid[i, j1] != grid[i, j2]
    }

    /** Column j holds no nonzero value twice. */
    ghost predicate ColDistinct(j: int)
      requires Valid() && 0 <= j < size
      reads grid
    {
      forall i1, i2 :: 0 <= i1 < size && 0 <= i2 < size && i1 != i2 && grid[i1, j] != 0 ==>
        grid[i1, j] != grid[i2, j]
    }

    /** The box in block-row bi and block-column bj, the cells
        [bi * root, bi * root + root) x [bj * root, bj * root + root),
        holds no nonzero value twice. */
    ghost predicate BoxDistinct(bi: int, bj: int)
      requires Valid() && 0 <= bi < root && 0 <= bj < root
      reads grid
    {
      BlockInside(bi, root);
      BlockInside(bj, root);
      BoxDistinctAt(bi * root, bj * root)
    }

    /** The root x root cells with top-left cell (i0, j0) hold no nonzero value twice. */
    ghost predicate BoxDistinctAt(i0: int, j0: int)
      requires Valid() && 0 <= i0 && i0 + root <= size && 0 <= j0 && j0 + root <= size
      reads grid
    {
      forall r1, c1, r2, c2 ::
        i0 <= r1 < i0 + root && j0 <= c1 < j0 + root &&
        i0 <= r2 < i0 + root && j0 <= c2 < j0 + root &&
        (r1 != r2 || c1 != c2) && grid[r1, c1] != 0 ==>
          grid[r1, c1] != grid[r2, c2]
    }

    /** No row, column or box holds the same nonzero value twice. */
    ghost predicate NoDuplicates()
      requires Valid()
      reads grid
    {
      (forall i :: 0 <= i < size ==> RowDistinct(i)) &&
      (forall j :: 0 <= j < size ==> ColDistinct(j)) &&
      (forall bi, bj :: 0 <= bi < root && 0 <= bj < root ==> BoxDistinct(bi, bj))
    }

    /** Some value is still not ruled out at (i, j). */
    ghost predicate HasCandidate(i: int, j: int)
      requires Valid() && 0 <= i < size && 0 <= j < size
      reads grid, excl
    {
      exists k :: 0 <= k < size && !excl[i, j, k]
    }

    /** Every assigned cell still has a value that is not ruled out. */
    ghost predicate CandidatesLeft()
      requires Valid()
      reads grid, excl
    {
      forall i, j :: 0 <= i < size && 0 <= j < size && grid[i, j] != 0 ==> HasCandidate(i, j)
    }

    /** The board passes the consistency check. */
    ghost predicate Consistent()
      requires Valid()
      reads grid, excl
    {
      NoDuplicates() && CandidatesLeft()
    }

    /** No cell is unassigned. */
    ghost predicate Full()
      requires Valid()
      reads grid
    {
      forall i, j :: 0 <= i < size && 0 <= j < size ==> grid[i, j] != 0
    }

    /** A solution: consistent with every cell assigned. */
    ghost predicate Complete()
      requires Valid()
      reads grid, excl
    {
      Consistent() && Full()
    }

    /** The number of unassigned cells, the measure the search decreases. */
    ghost function Zeros(): nat
      requires Valid()
      reads grid
    {
      GridZeros(grid, size)
    }

    /** The search measure is 0 exactly when the board is full. */
    lemma ZerosNoneIffFull()
      requires Valid()
      ensures Zeros() == 0 <==> Full()
    {
      GridZerosNone(grid, size);
    }

    /** Cell (r2, c2) shares the row, the column or the box of cell (r1, c1),
        the box being found by integer division by root. */
    ghost predicate Linked(r1: int, c1: int, r2: int, c2: int)
      requires 0 < root
    {
      r1 == r2 || c1 == c2 || (r1 / root == r2 / root && c1 / root == c2 / root)
    }

    /** No two distinct linked cells hold the same nonzero value. */
    ghost predicate NoClash()
      requires Valid()
      reads grid
    {
      forall r1, c1, r2, c2 ::
        0 <= r1 < size && 0 <= c1 < size && 0 <= r2 < size && 0 <= c2 < size &&
        (r1 != r2 || c1 != c2) && Linked(r1, c1, r2, c2) && grid[r1, c1] != 0 ==>
          grid[r1, c1] != grid[r2, c2]
    }

    /** The scan of rows, columns and boxes of is_valid_board decides exactly
        the pairwise condition on cells that share a row, column or box. */
    lemma NoDuplicatesIffNoClash()
      requires Valid()
      ensures NoDuplicates() <==> NoClash()
    {
      if NoDuplicates() {
        forall r1, c1, r2, c2 |
          0 <= r1 < size && 0 <= c1 < size && 0 <= r2 < size && 0 <= c2 < size &&
          (r1 != r2 || c1 != c2) && Linked(r1, c1, r2, c2) && grid[r1, c1] != 0
          ensures grid[r1, c1] != grid[r2, c2]
        {
          if r1 == r2 {
            assert RowDistinct(r1);
          } else if c1 == c2 {
            assert ColDistinct(c1);
          } else {
            DivBounds(r1, root);
            DivBounds(c1, root);
            DivBounds(r2, root);
            DivBounds(c2, root);
            assert BoxDistinct(r1 / root, c1 / root);
          }
        }
      }
      if NoClash() {
        forall bi, bj | 0 <= bi < root && 0 <= bj < root
          ensures BoxDistinct(bi, bj)
        {
          BlockInside(bi, root);
          BlockInside(bj, root);
          forall r1, c1, r2, c2 |
            bi * root <= r1 < bi * root + root && bj * root <= c1 < bj * root + root &&
            bi * root <= r2 < bi * root + root && bj * root <= c2 < bj * root + root &&
            (r1 != r2 || c1 != c2) && grid[r1, c1] != 0
            ensures grid[r1, c1] != grid[r2, c2]
          {
            InBlockIff(r1, bi, root);
            InBlockIff(r2, bi, root);
            InBlockIff(c1, bj, root);
            InBlockIff(c2, bj, root);
            assert Linked(r1, c1, r2, c2);
          }
        }
        forall i | 0 <= i < size ensures RowDistinct(i) {
          forall j1, j2 | 0 <= j1 < size && 0 <= j2 < size && j1 != j2 && grid[i, j1] != 0
            ensures grid[i, j1] != grid[i, j2]
          {
            assert Linked(i, j1, i, j2);
          }
        }
        forall j | 0 <= j < size ensures ColDistinct(j) {
          forall i1, i2 | 0 <= i1 < size && 0 <= i2 < size && i1 != i2 && grid[i1, j] != 0
            ensures grid[i1, j] != grid[i2, j]
          {
            assert Linked(i1, j, i2, j);
          }
        }
      }
    }

    // ---------------------------------------------------------------------
    // Solutions and the soundness of the exclusion cache

    /** s is a solution of this board's puzzle: a full grid of values 1..size
        that keeps every value already placed and in which no two distinct
        linked cells hold the same value. */
    ghost predicate Solves(s: seq<seq<int>>)
      requires Valid()
      reads grid
    {
      |s| == size && (forall i :: 0 <= i < size ==> |s[i]| == size) &&
      (forall i, j :: 0 <= i < size && 0 <= j < size ==>
         1 <= s[i][j] <= size && (grid[i, j] != 0 ==> s[i][j] == grid[i, j])) &&
      (forall r1, c1, r2, c2 ::
         0 <= r1 < size && 0 <= c1 < size && 0 <= r2 < size && 0 <= c2 < size &&
         (r1 != r2 || c1 != c2) && Linked(r1, c1, r2, c2) ==>
           s[r1][c1] != s[r2][c2])
    }

    /** No value of solution s is ruled out at its cell. */
    ghost predicate Admits(s: seq<seq<int>>)
      requires Valid() && Solves(s)
      reads grid, excl
    {
      forall i, j :: 0 <= i < size && 0 <= j < size ==> !excl[i, j, s[i][j] - 1]
    }

    /** The exclusion cache never rules out a value that some solution uses. */
    ghost predicate ExclusionsSound()
      requires Valid()
      reads grid, excl
    {
      forall s :: Solves(s) ==> Admits(s)
    }

    /** An empty cache rules nothing out, so it is sound. */
    lemma NoExclusionsSound()
      requires Valid() && NoExclusions()
      ensures ExclusionsSound() && CandidatesLeft()
    {
      forall i, j | 0 <= i < size && 0 <= j < size && grid[i, j] != 0
        ensures HasCandidate(i, j)
      {
        assert !excl[i, j, 0];
      }
    }

    /** A board that has a solution and a sound cache passes the consistency check. */
    lemma SolutionConsistent(s: seq<seq<int>>)
      requires Valid() && ExclusionsSound() && Solves(s)
      ensures Consistent()
    {
      assert Admits(s);
      forall r1, c1, r2, c2 |
        0 <= r1 < size && 0 <= c1 < size && 0 <= r2 < size && 0 <= c2 < size &&
        (r1 != r2 || c1 != c2) && Linked(r1, c1, r2, c2) && grid[r1, c1] != 0
        ensures grid[r1, c1] != grid[r2, c2]
      {
        assert s[r1][c1] != s[r2][c2];
      }
      NoDuplicatesIffNoClash();
      forall i, j | 0 <= i < size && 0 <= j < size && grid[i, j] != 0
        ensures HasCandidate(i, j)
      {
        assert !excl[i, j, s[i][j] - 1];
      }
    }

    /** With a sound cache, a value ruled out at a cell is used there by no solution. */
    lemma ExcludedUnused(row: int, col: int, value: int)
      requires Valid() && ExclusionsSound() && 0 <= row < size && 0 <= col < size && 1 <= value <= size
      requires excl[row, col, value - 1]
      ensures forall s :: Solves(s) ==> s[row][col] != value
    {
      forall s | Solves(s) ensures s[row][col] != value {
        assert Admits(s);
      }
    }

    /** Some cell other than (i, j) and linked to it holds v. */
    ghost predicate PeerHolds(i: int, j: int, v: int)
      requires Valid()
      reads grid
    {
      exists r, c :: 0 <= r < size && 0 <= c < size && (r != i || c != j) && Linked(r, c, i, j) && grid[r, c] == v
    }

    /** The cache that forward checking every cell leaves behind on an empty
        cache: a value is ruled out exactly where a linked cell holds it. */
    ghost predicate PeersExcluded()
      requires Valid()
      reads grid, excl
    {
      forall i, j, k :: 0 <= i < size && 0 <= j < size && 0 <= k < size ==> (excl[i, j, k] <==> PeerHolds(i, j, k + 1))
    }

    /** PeerHolds restricted to the cells scanned before (row, col) in row-major order. */
    ghost predicate PeerBefore(i: int, j: int, v: int, row: int, col: int)
      requires Valid()
      reads grid
    {
      exists r, c :: 0 <= r < size && 0 <= c < size && Before(r, c, row, col) &&
        (r != i || c != j) && Linked(r, c, i, j) && grid[r, c] == v
    }

    /** The cache that forward checking the cells before (row, col), in
        row-major order, leaves behind on an empty cache. */
    ghost predicate PeersBefore(row: int, col: int)
      requires Valid()
      reads grid, excl
    {
      forall i, j, k :: 0 <= i < size && 0 <= j < size && 0 <= k < size ==>
        (excl[i, j, k] <==> PeerBefore(i, j, k + 1, row, col))
    }

    /** Scanning one more cell adds that cell as a possible peer. */
    lemma PeerBeforeStep(i: int, j: int, v: int, row: int, col: int)
      requires Valid() && 0 <= row < size && 0 <= col < size
      ensures PeerBefore(i, j, v, row, col + 1) <==>
                PeerBefore(i, j, v, row, col) ||
                ((row != i || col != j) && Linked(row, col, i, j) && grid[row, col] == v)
    {
      if PeerBefore(i, j, v, row, col + 1) && !PeerBefore(i, j, v, row, col) {
        var r, c :| 0 <= r < size && 0 <= c < size && Before(r, c, row, col + 1) &&
          (r != i || c != j) && Linked(r, c, i, j) && grid[r, c] == v;
        assert r == row && c == col;
      }
      if (row != i || col != j) && Linked(row, col, i, j) && grid[row, col] == v {
        assert Before(row, col, row, col + 1);
      }
    }

    /** Without clashes, no cell linked to an assigned cell holds its value. */
    lemma NoClashNoPeer(i: int, j: int, row: int, col: int)
      requires Valid() && NoClash() && 0 <= i < size && 0 <= j < size && grid[i, j] != 0
      ensures !PeerBefore(i, j, grid[i, j], row, col)
    {
      forall r, c | 0 <= r < size && 0 <= c < size && (r != i || c != j) && Linked(r, c, i, j)
        ensures grid[r, c] != grid[i, j]
      {
        assert Linked(i, j, r, c);
      }
    }

    /** Finishing a row is starting the next one. */
    lemma PeersNextRow(row: int)
      requires Valid() && 0 <= row < size && PeersBefore(row, size)
      ensures PeersBefore(row + 1, 0)
    {
      forall i, j, v | 0 <= i < size && 0 <= j < size && PeerBefore(i, j, v, row + 1, 0)
        ensures PeerBefore(i, j, v, row, size)
      {
        var r, c :| 0 <= r < size && 0 <= c < size && Before(r, c, row + 1, 0) &&
          (r != i || c != j) && Linked(r, c, i, j) && grid[r, c] == v;
        assert Before(r, c, row, size);
      }
    }

    /** Once every row is scanned, the cache is PeersExcluded. */
    lemma PeersEnd()
      requires Valid() && PeersBefore(size, 0)
      ensures PeersExcluded()
    {
      forall i, j, v | 0 <= i < size && 0 <= j < size && PeerHolds(i, j, v)
        ensures PeerBefore(i, j, v, size, 0)
      {
        var r, c :| 0 <= r < size && 0 <= c < size && (r != i || c != j) && Linked(r, c, i, j) && grid[r, c] == v;
        assert Before(r, c, size, 0);
      }
    }

    /** With no duplicates, ruling out exactly the values of linked cells
        leaves every assigned cell its own value. */
    lemma PeersExcludedConsistent()
      requires Valid() && NoDuplicates() && PeersExcluded()
      ensures Consistent()
    {
      NoDuplicatesIffNoClash();
      forall i, j | 0 <= i < size && 0 <= j < size && grid[i, j] != 0
        ensures HasCandidate(i, j)
      {
        assert !excl[i, j, grid[i, j] - 1];
      }
    }

    /** Ruling out exactly the values of linked cells never rules out a value of a solution. */
    lemma PeersExcludedSound()
      requires Valid() && PeersExcluded()
      ensures ExclusionsSound()
    {
      forall s | Solves(s) ensures Admits(s) {
        forall i, j | 0 <= i < size && 0 <= j < size
          ensures !excl[i, j, s[i][j] - 1]
        {
        }
      }
    }

    // ---------------------------------------------------------------------
    // Remaining values and variable selection

    /** Number of values among 1..n not ruled out at (i, j). */
    ghost function FreeCount(i: int, j: int, n: int): (c: nat)
      requires Valid() && 0 <= i < size && 0 <= j < size && 0 <= n <= size
      reads grid, excl
      ensures c <= n
    {
      if n == 0 then 0 else FreeCount(i, j, n - 1) + (if excl[i, j, n - 1] then 0 else 1)
    }

    /** A cell has a value left exactly when its count of remaining values is positive. */
    lemma {:induction false} FreeCountPositive(i: int, j: int, n: int)
      requires Valid() && 0 <= i < size && 0 <= j < size && 0 <= n <= size
      ensures 0 < FreeCount(i, j, n) <==> exists k :: 0 <= k < n && !excl[i, j, k]
    {
      if n > 0 {
        FreeCountPositive(i, j, n - 1);
      }
    }

    /** (row, col) is the first unassigned cell in row-major order. */
    ghost predicate FirstFree(row: int, col: int)
      requires Valid()
      reads grid
    {
      0 <= row < size && 0 <= col < size && grid[row, col] == 0 &&
      forall i, j :: 0 <= i < size && 0 <= j < size && Before(i, j, row, col) ==> grid[i, j] != 0
    }

    /** (row, col) is the MRV choice: an unassigned cell whose remaining-value
        count is below that of every earlier unassigned cell, every earlier
        unassigned cell having more than one value left (else the scan would
        have stopped there); and either its count is 1 (the scan stops there)
        or no unassigned cell has a smaller count. */
    ghost predicate MrvChoice(row: int, col: int)
      requires Valid()
      reads grid, excl
    {
      0 <= row < size && 0 <= col < size && grid[row, col] == 0 &&
      (forall i, j :: 0 <= i < size && 0 <= j < size && grid[i, j] == 0 && Before(i, j, row, col) ==>
         FreeCount(row, col, size) < FreeCount(i, j, size) && 1 < FreeCount(i, j, size)) &&
      (FreeCount(row, col, size) == 1 ||
       forall i, j :: 0 <= i < size && 0 <= j < size && grid[i, j] == 0 ==>
         FreeCount(row, col, size) <= FreeCount(i, j, size))
    }

    /** The cell select_var picks under the given heuristic. */
    ghost predicate Selected(mrv: bool, row: int, col: int)
      requires Valid()
      reads grid, excl
    {
      if mrv then MrvChoice(row, col) else FirstFree(row, col)
    }

    /** The selection contract leaves no freedom: at most one cell meets it. */
    lemma SelectionUnique(mrv: bool, r1: int, c1: int, r2: int, c2: int)
      requires Valid() && Selected(mrv, r1, c1) && Selected(mrv, r2, c2)
      ensures r1 == r2 && c1 == c2
    {
      if Before(r1, c1, r2, c2) {
        assert false;
      } else if Before(r2, c2, r1, c1) {
        assert false;
      }
    }

    // ---------------------------------------------------------------------
    // Methods of Board.cpp

    /** The loop of is_valid_board that looks for a value not ruled out at (i, j). */
    method HasOpenValue(i: int, j: int) returns (open: bool)
      requires Valid() && 0 <= i < size && 0 <= j < size
      ensures open == HasCandidate(i, j)
    {
      for k := 0 to size
        invariant forall k' :: 0 <= k' < k ==> excl[i, j, k']
      {
        if !excl[i, j, k] {
          return true;
        }
      }
      return false;
    }

    /** Row i, columns [0, j) scanned: seen marks exactly the values met so
        far, and none of them was met twice. */
    ghost predicate RowScanned(i: int, j: int, seen: seq<bool>)
      requires Valid() && 0 <= i < size && 0 <= j <= size && |seen| == size
      reads grid
    {
      (forall x :: 0 <= x < size ==> (seen[x] <==> exists j' :: 0 <= j' < j && grid[i, j'] == x + 1)) &&
      (forall j1, j2 :: 0 <= j1 < j && 0 <= j2 < j && j1 != j2 && grid[i, j1] != 0 ==>
         grid[i, j1] != grid[i, j2])
    }

    /** Column i, rows [0, j) scanned, as RowScanned. */
    ghost predicate ColScanned(i: int, j: int, seen: seq<bool>)
      requires Valid() && 0 <= i < size && 0 <= j <= size && |seen| == size
      reads grid
    {
      (forall x :: 0 <= x < size ==> (seen[x] <==> exists j' :: 0 <= j' < j && grid[j', i] == x + 1)) &&
      (forall j1, j2 :: 0 <= j1 < j && 0 <= j2 < j && j1 != j2 && grid[j1, i] != 0 ==>
         grid[j1, i] != grid[j2, i])
    }

    /** Scanning cell (i, j) of row i: a value already marked is a duplicate of
        the row; otherwise marking it extends the scanned prefix. */
    lemma RowScanStep(i: int, j: int, seen: seq<bool>)
      requires Valid() && 0 <= i < size && 0 <= j < size && |seen| == size && RowScanned(i, j, seen)
      ensures grid[i, j] == 0 ==> RowScanned(i, j + 1, seen)
      ensures grid[i, j] != 0 && seen[grid[i, j] - 1] ==> !RowDistinct(i)
      ensures grid[i, j] != 0 && !seen[grid[i, j] - 1] ==> RowScanned(i, j + 1, seen[grid[i, j] - 1 := true])
    {
      var v := grid[i, j];
      if v != 0 && seen[v - 1] {
        var j' :| 0 <= j' < j && grid[i, j'] == v;
        assert grid[i, j'] == grid[i, j];
      }
    }

    /** Scanning cell (j, i) of column i, as RowScanStep. */
    lemma ColScanStep(i: int, j: int, seen: seq<bool>)
      requires Valid() && 0 <= i < size && 0 <= j < size && |seen| == size && ColScanned(i, j, seen)
      ensures grid[j, i] == 0 ==> ColScanned(i, j + 1, seen)
      ensures grid[j, i] != 0 && seen[grid[j, i] - 1] ==> !ColDistinct(i)
      ensures grid[j, i] != 0 && !seen[grid[j, i] - 1] ==> ColScanned(i, j + 1, seen[grid[j, i] - 1 := true])
    {
      var v := grid[j, i];
      if v != 0 && seen[v - 1] {
        var j' :| 0 <= j' < j && grid[j', i] == v;
        assert grid[j', i] == grid[j, i];
      }
    }

    /** Index j of one pass scanned: row i and column i up to j as RowScanned
        and ColScanned, and the assigned cells of row i before j have a
        remaining value. */
    ghost predicate LineScanned(i: int, j: int, seenRow: seq<bool>, seenCol: seq<bool>)
      requires Valid() && 0 <= i < size && 0 <= j <= size && |seenRow| == size && |seenCol| == size
      reads grid, excl
    {
      RowScanned(i, j, seenRow) && ColScanned(i, j, seenCol) &&
      forall j' :: 0 <= j' < j && grid[i, j'] != 0 ==> HasCandidate(i, j')
    }

    /** Cleared flags: nothing of row i or column i is scanned yet. */
    lemma LineScanStart(i: int, seenRow: seq<bool>, seenCol: seq<bool>)
      requires Valid() && 0 <= i < size && |seenRow| == size && |seenCol| == size
      requires forall x :: 0 <= x < size ==> !seenRow[x] && !seenCol[x]
      ensures LineScanned(i, 0, seenRow, seenCol)
    {
    }

    /** Row i and column i scanned to the end hold no duplicate. */
    lemma LineScanEnd(i: int, seenRow: seq<bool>, seenCol: seq<bool>)
      requires Valid() && 0 <= i < size && |seenRow| == size && |seenCol| == size
      requires LineScanned(i, size, seenRow, seenCol)
      ensures RowDistinct(i) && ColDistinct(i)
      ensures forall j :: 0 <= j < size && grid[i, j] != 0 ==> HasCandidate(i, j)
    {
    }

    /** One pass of the first loop of is_valid_board: row i and column i for
        duplicates, and the assigned cells of row i for a remaining value. */
    method ScanLine(i: int, seenRow: array<bool>, seenCol: array<bool>) returns (ok: bool)
      requires Valid() && 0 <= i < size
      requires seenRow.Length == size && seenCol.Length == size && seenRow != seenCol
      modifies seenRow, seenCol
      ensures ok ==> RowDistinct(i) && ColDistinct(i) &&
                     forall j :: 0 <= j < size && grid[i, j] != 0 ==> HasCandidate(i, j)
      ensures !ok ==> !RowDistinct(i) || !ColDistinct(i) ||
                      exists j :: 0 <= j < size && grid[i, j] != 0 && !HasCandidate(i, j)
    {
      ClearFlags(seenRow);
      ClearFlags(seenCol);
      LineScanStart(i, seenRow[..], seenCol[..]);
      ok := ScanLineCells(i, seenRow, seenCol);
    }

    /** The inner loop of one pass of is_valid_board, on cleared flags. */
    method ScanLineCells(i: int, seenRow: array<bool>, seenCol: array<bool>) returns (ok: bool)
      requires Valid() && 0 <= i < size
      requires seenRow.Length == size && seenCol.Length == size && seenRow != seenCol
      requires LineScanned(i, 0, seenRow[..], seenCol[..])
      modifies seenRow, seenCol
      ensures ok ==> RowDistinct(i) && ColDistinct(i) &&
                     forall j :: 0 <= j < size && grid[i, j] != 0 ==> HasCandidate(i, j)
      ensures !ok ==> !RowDistinct(i) || !ColDistinct(i) ||
                      exists j :: 0 <= j < size && grid[i, j] != 0 && !HasCandidate(i, j)
    {
      for j := 0 to size
        invariant LineScanned(i, j, seenRow[..], seenCol[..])
      {
        ok := ScanLineCell(i, j, seenRow, seenCol);
        if !ok {
          return;
        }
      }
      LineScanEnd(i, seenRow[..], seenCol[..]);
      return true;
    }

    /** The body of the first loop of is_valid_board at index j: cell (i, j)
        of row i, its remaining values, and cell (j, i) of column i. */
    method ScanLineCell(i: int, j: int, seenRow: array<bool>, seenCol: array<bool>) returns (ok: bool)
      requires Valid() && 0 <= i < size && 0 <= j < size
      requires seenRow.Length == size && seenCol.Length == size && seenRow != seenCol
      requires LineScanned(i, j, seenRow[..], seenCol[..])
      modifies seenRow, seenCol
      ensures ok ==> LineScanned(i, j + 1, seenRow[..], seenCol[..])
      ensures !ok ==> !RowDistinct(i) || !ColDistinct(i) ||
                      exists j' :: 0 <= j' < size && grid[i, j'] != 0 && !HasCandidate(i, j')
    {
      ok := ScanRowCell(i, j, seenRow);
      if !ok {
        return;
      }
      if grid[i, j] != 0 {
        var open := HasOpenValue(i, j);
        if !open {
          return false;
        }
      }
      ghost var marked := seenRow[..];
      ok := ScanColCell(i, j, seenCol);
      assert seenRow[..] == marked;
    }

    /** The step of the first loop of is_valid_board on cell (i, j) of row i:
        a value already marked is a duplicate, otherwise it is marked. */
    method ScanRowCell(i: int, j: int, seen: array<bool>) returns (ok: bool)
      requires Valid() && 0 <= i < size && 0 <= j < size && seen.Length == size
      requires RowScanned(i, j, seen[..])
      modifies seen
      ensures ok ==> RowScanned(i, j + 1, seen[..])
      ensures !ok ==> !RowDistinct(i)
    {
      ghost var s := seen[..];
      RowScanStep(i, j, s);
      var v := grid[i, j];
      if v != 0 {
        if seen[v - 1] {
          return false;
        }
        seen[v - 1] := true;
        assert seen[..] == s[v - 1 := true];
      }
      return true;
    }

    /** The step of the first loop of is_valid_board on cell (j, i) of column i. */
    method ScanColCell(i: int, j: int, seen: array<bool>) returns (ok: bool)
      requires Valid() && 0 <= i < size && 0 <= j < size && seen.Length == size
      requires ColScanned(i, j, seen[..])
      modifies seen
      ensures ok ==> ColScanned(i, j + 1, seen[..])
      ensures !ok ==> !ColDistinct(i)
    {
      ghost var s := seen[..];
      ColScanStep(i, j, s);
      var w := grid[j, i];
      if w != 0 {
        if seen[w - 1] {
          return false;
        }
        seen[w - 1] := true;
        assert seen[..] == s[w - 1 := true];
      }
      return true;
    }

    /** (r, c) is a cell of the box with top-left cell (i0, j0) that comes
        before (r0, c0) in row-major order. */
    ghost predicate InBoxBefore(i0: int, j0: int, r: int, c: int, r0: int, c0: int) {
      i0 <= r < i0 + root && j0 <= c < j0 + root && Before(r, c, r0, c0)
    }

    /** seen marks exactly the values met in the box before (r0, c0). */
    ghost predicate BoxMarks(i0: int, j0: int, r0: int, c0: int, seen: seq<bool>)
      requires Valid() && 0 <= i0 && i0 + root <= size && 0 <= j0 && j0 + root <= size && |seen| == size
      reads grid
    {
      forall x :: 0 <= x < size ==>
        (seen[x] <==> exists r, c :: InBoxBefore(i0, j0, r, c, r0, c0) && grid[r, c] == x + 1)
    }

    /** No nonzero value occurs twice in the box before (r0, c0). */
    ghost predicate BoxUnique(i0: int, j0: int, r0: int, c0: int)
      requires Valid() && 0 <= i0 && i0 + root <= size && 0 <= j0 && j0 + root <= size
      reads grid
    {
      forall r1, c1, r2, c2 ::
        InBoxBefore(i0, j0, r1, c1, r0, c0) && InBoxBefore(i0, j0, r2, c2, r0, c0) &&
        (r1 != r2 || c1 != c2) && grid[r1, c1] != 0 ==>
          grid[r1, c1] != grid[r2, c2]
    }

    /** Marking the value of cell (r, c) extends the marks past (r, c). */
    lemma BoxMarksStep(i0: int, j0: int, r: int, c: int, seen: seq<bool>)
      requires Valid() && 0 <= i0 && i0 + root <= size && 0 <= j0 && j0 + root <= size && |seen| == size
      requires i0 <= r < i0 + root && j0 <= c < j0 + root && BoxMarks(i0, j0, r, c, seen)
      ensures grid[r, c] == 0 ==> BoxMarks(i0, j0, r, c + 1, seen)
      ensures grid[r, c] != 0 ==> BoxMarks(i0, j0, r, c + 1, seen[grid[r, c] - 1 := true])
    {
      var v := grid[r, c];
      var seen' := if v == 0 then seen else seen[v - 1 := true];
      forall x | 0 <= x < size
        ensures seen'[x] <==> exists r', c' :: InBoxBefore(i0, j0, r', c', r, c + 1) && grid[r', c'] == x + 1
      {
        if seen'[x] && !(v != 0 && x == v - 1) {
          var r', c' :| InBoxBefore(i0, j0, r', c', r, c) && grid[r', c'] == x + 1;
          assert InBoxBefore(i0, j0, r', c', r, c + 1);
        } else if seen'[x] {
          assert InBoxBefore(i0, j0, r, c, r, c + 1) && grid[r, c] == x + 1;
        }
        if exists r', c' :: InBoxBefore(i0, j0, r', c', r, c + 1) && grid[r', c'] == x + 1 {
          var r', c' :| InBoxBefore(i0, j0, r', c', r, c + 1) && grid[r', c'] == x + 1;
          if r' != r || c' != c {
            assert InBoxBefore(i0, j0, r', c', r, c);
          }
        }
      }
    }

    /** A value of cell (r, c) not yet marked keeps the box free of duplicates past (r, c). */
    lemma BoxUniqueStep(i0: int, j0: int, r: int, c: int, seen: seq<bool>)
      requires Valid() && 0 <= i0 && i0 + root <= size && 0 <= j0 && j0 + root <= size && |seen| == size
      requires i0 <= r < i0 + root && j0 <= c < j0 + root
      requires BoxMarks(i0, j0, r, c, seen) && BoxUnique(i0, j0, r, c)
      requires grid[r, c] == 0 || !seen[grid[r, c] - 1]
      ensures BoxUnique(i0, j0, r, c + 1)
    {
      forall r1, c1, r2, c2 |
        InBoxBefore(i0, j0, r1, c1, r, c + 1) && InBoxBefore(i0, j0, r2, c2, r, c + 1) &&
        (r1 != r2 || c1 != c2) && grid[r1, c1] != 0
        ensures grid[r1, c1] != grid[r2, c2]
      {
        if r1 == r && c1 == c {
          assert InBoxBefore(i0, j0, r2, c2, r, c);
        } else if r2 == r && c2 == c {
          assert InBoxBefore(i0, j0, r1, c1, r, c);
        } else {
          assert InBoxBefore(i0, j0, r1, c1, r, c) && InBoxBefore(i0, j0, r2, c2, r, c);
        }
      }
    }

    /** A value of cell (r, c) already marked is a duplicate in the box. */
    lemma BoxDuplicate(i0: int, j0: int, r: int, c: int, seen: seq<bool>)
      requires Valid() && 0 <= i0 && i0 + root <= size && 0 <= j0 && j0 + root <= size && |seen| == size
      requires i0 <= r < i0 + root && j0 <= c < j0 + root && BoxMarks(i0, j0, r, c, seen)
      requires grid[r, c] != 0 && seen[grid[r, c] - 1]
      ensures !BoxDistinctAt(i0, j0)
    {
      var r', c' :| InBoxBefore(i0, j0, r', c', r, c) && grid[r', c'] == grid[r, c];
      assert (r' != r || c' != c) && grid[r', c'] == grid[r, c];
    }

    /** Nothing is scanned before the top-left cell of the box. */
    lemma BoxStart(i0: int, j0: int, seen: seq<bool>)
      requires Valid() && 0 <= i0 && i0 + root <= size && 0 <= j0 && j0 + root <= size && |seen| == size
      requires forall x :: 0 <= x < size ==> !seen[x]
      ensures BoxMarks(i0, j0, i0, j0, seen) && BoxUnique(i0, j0, i0, j0)
    {
    }

    /** Having scanned every row of the box without a duplicate is BoxDistinctAt. */
    lemma BoxEnd(i0: int, j0: int)
      requires Valid() && 0 <= i0 && i0 + root <= size && 0 <= j0 && j0 + root <= size
      requires BoxUnique(i0, j0, i0 + root, j0)
      ensures BoxDistinctAt(i0, j0)
    {
      forall r1, c1, r2, c2 |
        i0 <= r1 < i0 + root && j0 <= c1 < j0 + root &&
        i0 <= r2 < i0 + root && j0 <= c2 < j0 + root &&
        (r1 != r2 || c1 != c2) && grid[r1, c1] != 0
        ensures grid[r1, c1] != grid[r2, c2]
      {
        assert InBoxBefore(i0, j0, r1, c1, i0 + root, j0) && InBoxBefore(i0, j0, r2, c2, i0 + root, j0);
      }
    }

    /** Having scanned row r of the box is having scanned up to the start of row r + 1. */
    lemma BoxNextRow(i0: int, j0: int, r: int, seen: seq<bool>)
      requires Valid() && 0 <= i0 && i0 + root <= size && 0 <= j0 && j0 + root <= size && |seen| == size
      requires BoxMarks(i0, j0, r, j0 + root, seen) && BoxUnique(i0, j0, r, j0 + root)
      ensures BoxMarks(i0, j0, r + 1, j0, seen) && BoxUnique(i0, j0, r + 1, j0)
    {
      forall x | 0 <= x < size
        ensures seen[x] <==> exists r', c' :: InBoxBefore(i0, j0, r', c', r + 1, j0) && grid[r', c'] == x + 1
      {
        if seen[x] {
          var r', c' :| InBoxBefore(i0, j0, r', c', r, j0 + root) && grid[r', c'] == x + 1;
          assert InBoxBefore(i0, j0, r', c', r + 1, j0);
        }
        if exists r', c' :: InBoxBefore(i0, j0, r', c', r + 1, j0) && grid[r', c'] == x + 1 {
          var r', c' :| InBoxBefore(i0, j0, r', c', r + 1, j0) && grid[r', c'] == x + 1;
          assert InBoxBefore(i0, j0, r', c', r, j0 + root);
        }
      }
      forall r1, c1, r2, c2 |
        InBoxBefore(i0, j0, r1, c1, r + 1, j0) && InBoxBefore(i0, j0, r2, c2, r + 1, j0) &&
        (r1 != r2 || c1 != c2) && grid[r1, c1] != 0
        ensures grid[r1, c1] != grid[r2, c2]
      {
        assert InBoxBefore(i0, j0, r1, c1, r, j0 + root) && InBoxBefore(i0, j0, r2, c2, r, j0 + root);
      }
    }

    /** The step of the box loop of is_valid_board on cell (r, c) of the box
        with top-left cell (i0, j0). */
    method ScanBoxCell(i0: int, j0: int, r: int, c: int, seen: array<bool>) returns (ok: bool)
      requires Valid() && 0 <= i0 && i0 + root <= size && 0 <= j0 && j0 + root <= size && seen.Length == size
      requires i0 <= r < i0 + root && j0 <= c < j0 + root
      requires BoxMarks(i0, j0, r, c, seen[..]) && BoxUnique(i0, j0, r, c)
      modifies seen
      ensures ok ==> BoxMarks(i0, j0, r, c + 1, seen[..]) && BoxUnique(i0, j0, r, c + 1)
      ensures !ok ==> !BoxDistinctAt(i0, j0)
    {
      ghost var s := seen[..];
      var v := grid[r, c];
      if v != 0 && seen[v - 1] {
        BoxDuplicate(i0, j0, r, c, s);
        return false;
      }
      BoxMarksStep(i0, j0, r, c, s);
      BoxUniqueStep(i0, j0, r, c, s);
      if v != 0 {
        seen[v - 1] := true;
        assert seen[..] == s[v - 1 := true];
      }
      return true;
    }

    /** The inner loop of one box pass of is_valid_board: row r of the box. */
    method ScanBoxRow(i0: int, j0: int, r: int, seen: array<bool>) returns (ok: bool)
      requires Valid() && 0 <= i0 && i0 + root <= size && 0 <= j0 && j0 + root <= size && seen.Length == size
      requires i0 <= r < i0 + root
      requires BoxMarks(i0, j0, r, j0, seen[..]) && BoxUnique(i0, j0, r, j0)
      modifies seen
      ensures ok ==> BoxMarks(i0, j0, r + 1, j0, seen[..]) && BoxUnique(i0, j0, r + 1, j0)
      ensures !ok ==> !BoxDistinctAt(i0, j0)
    {
      for c := j0 to j0 + root
        invariant BoxMarks(i0, j0, r, c, seen[..]) && BoxUnique(i0, j0, r, c)
      {
        ok := ScanBoxCell(i0, j0, r, c, seen);
        if !ok {
          return;
        }
      }
      BoxNextRow(i0, j0, r, seen[..]);
      return true;
    }

    /** One pass of the box loop of is_valid_board: the box whose top-left
        cell is (i0, j0). */
    method ScanBox(i0: int, j0: int, seen: array<bool>) returns (ok: bool)
      requires Valid() && 0 <= i0 && i0 + root <= size && 0 <= j0 && j0 + root <= size && seen.Length == size
      modifies seen
      ensures ok == BoxDistinctAt(i0, j0)
    {
      ClearFlags(seen);
      BoxStart(i0, j0, seen[..]);
      for r := i0 to i0 + root
        invariant BoxMarks(i0, j0, r, j0, seen[..]) && BoxUnique(i0, j0, r, j0)
      {
        ok := ScanBoxRow(i0, j0, r, seen);
        if !ok {
          return;
        }
      }
      BoxEnd(i0, j0);
      return true;
    }

    /** is_valid_board: true exactly when no row, column or box holds a nonzero
        value twice and every assigned cell has a value left in the cache. */
    method IsValidBoard() returns (ok: bool)
      requires Valid()
      ensures ok == Consistent()
    {
      var seen1 := new bool[size];
      var seen2 := new bool[size];
      ok := ScanLines(seen1, seen2);
      if ok {
        ok := ScanBoxes(seen1);
      }
    }

    /** The first loop of is_valid_board, over rows and columns i together. */
    method ScanLines(seen1: array<bool>, seen2: array<bool>) returns (ok: bool)
      requires Valid() && seen1.Length == size && seen2.Length == size && seen1 != seen2
      modifies seen1, seen2
      ensures ok == ((forall i :: 0 <= i < size ==> RowDistinct(i) && ColDistinct(i)) && CandidatesLeft())
    {
      for i := 0 to size
        invariant forall i' :: 0 <= i' < i ==> RowDistinct(i') && ColDistinct(i')
        invariant forall i', j :: 0 <= i' < i && 0 <= j < size && grid[i', j] != 0 ==> HasCandidate(i', j)
      {
        ok := ScanLine(i, seen1, seen2);
        if !ok {
          return;
        }
      }
      return true;
    }

    /** The second loop of is_valid_board, over the boxes in row-major order. */
    method ScanBoxes(seen: array<bool>) returns (ok: bool)
      requires Valid() && seen.Length == size
      modifies seen
      ensures ok == forall bi, bj :: 0 <= bi < root && 0 <= bj < root ==> BoxDistinct(bi, bj)
    {
      var i := 0;
      ghost var bi := 0;
      while i < size
        invariant 0 <= bi <= root && i == bi * root
        invariant forall a, b :: 0 <= a < bi && 0 <= b < root ==> BoxDistinct(a, b)
        decreases size - i
      {
        BlockCount(bi, root);
        ok := ScanBoxBand(i, bi, seen);
        if !ok {
          return;
        }
        NextBlock(bi, root);
        i, bi := i + root, bi + 1;
      }
      BlockCount(bi, root);
      return true;
    }

    /** The boxes of block-row bi, whose first row is i, left to right. */
    method ScanBoxBand(i: int, ghost bi: int, seen: array<bool>) returns (ok: bool)
      requires Valid() && 0 <= bi < root && i == bi * root && seen.Length == size
      modifies seen
      ensures ok ==> forall b :: 0 <= b < root ==> BoxDistinct(bi, b)
      ensures !ok ==> exists b :: 0 <= b < root && !BoxDistinct(bi, b)
    {
      BlockInside(bi, root);
      var j := 0;
      ghost var bj := 0;
      while j < size
        invariant 0 <= bj <= root && j == bj * root
        invariant forall b :: 0 <= b < bj ==> BoxDistinct(bi, b)
        decreases size - j
      {
        BlockCount(bj, root);
        BlockInside(bj, root);
        ok := ScanBox(i, j, seen);
        if !ok {
          assert !BoxDistinct(bi, bj);
          return;
        }
        NextBlock(bj, root);
        j, bj := j + root, bj + 1;
      }
      BlockCount(bj, root);
      return true;
    }

    /** is_complete: the board is consistent and no cell is unassigned. */
    method IsComplete() returns (done: bool)
      requires Valid()
      ensures done == Complete()
    {
      var ok := IsValidBoard();
      if !ok {
        return false;
      }
      for i := 0 to size
        invariant forall i', j :: 0 <= i' < i && 0 <= j < size ==> grid[i', j] != 0
      {
        for j := 0 to size
          invariant forall j' :: 0 <= j' < j ==> grid[i, j'] != 0
        {
          if grid[i, j] == 0 {
            return false;
          }
        }
      }
      return true;
    }

    /** The counting loop of select_var: values not ruled out at (i, j). */
    method CountFree(i: int, j: int) returns (count: int)
      requires Valid() && 0 <= i < size && 0 <= j < size
      ensures count == FreeCount(i, j, size)
    {
      count := 0;
      for k := 0 to size
        invariant count == FreeCount(i, j, k)
      {
        if !excl[i, j, k] {
          count := count + 1;
        }
      }
    }

    /** The state of the MRV scan once the cells before (i, j) are scanned:
        min is size + 1 until an unassigned cell is met, then the count of
        the chosen cell (row, col), which is not 1 or the scan would have
        stopped; scanned cells before the choice have larger counts, not 1. */
    ghost predicate MrvScanned(i: int, j: int, found: bool, row: int, col: int, min: int)
      requires Valid()
      reads grid, excl
    {
      (!found ==>
         min == size + 1 &&
         forall e1, e2 :: 0 <= e1 < size && 0 <= e2 < size && Before(e1, e2, i, j) ==> grid[e1, e2] != 0) &&
      (found ==>
         0 <= row < size && 0 <= col < size && grid[row, col] == 0 && Before(row, col, i, j) &&
         min == FreeCount(row, col, size) && min != 1 &&
         forall e1, e2 :: 0 <= e1 < size && 0 <= e2 < size && Before(e1, e2, i, j) && grid[e1, e2] == 0 ==>
           min <= FreeCount(e1, e2, size) &&
           (Before(e1, e2, row, col) ==> min < FreeCount(e1, e2, size) && FreeCount(e1, e2, size) != 1))
    }

    /** Choosing cell (i, j), whose count is below min, keeps the scan state;
        with a count of 1 the choice is final. */
    lemma MrvPick(i: int, j: int, found: bool, row: int, col: int, min: int)
      requires Valid() && 0 <= i < size && 0 <= j < size && MrvScanned(i, j, found, row, col, min)
      requires grid[i, j] == 0 && FreeCount(i, j, size) < min
      ensures FreeCount(i, j, size) == 1 ==> MrvChoice(i, j)
      ensures FreeCount(i, j, size) != 1 ==> MrvScanned(i, j + 1, true, i, j, FreeCount(i, j, size))
    {
    }

    /** Passing over an assigned cell, or one whose count is not below min, keeps the scan state. */
    lemma MrvSkip(i: int, j: int, found: bool, row: int, col: int, min: int)
      requires Valid() && 0 <= i < size && 0 <= j < size && MrvScanned(i, j, found, row, col, min)
      requires grid[i, j] != 0 || min <= FreeCount(i, j, size)
      ensures MrvScanned(i, j + 1, found, row, col, min)
    {
    }

    /** The end of row i is the start of row i + 1. */
    lemma MrvNextRow(i: int, found: bool, row: int, col: int, min: int)
      requires Valid() && 0 <= i < size && MrvScanned(i, size, found, row, col, min)
      ensures MrvScanned(i + 1, 0, found, row, col, min)
    {
    }

    /** A scan that ran over the whole board without stopping has chosen the MRV cell. */
    lemma MrvEnd(found: bool, row: int, col: int, min: int)
      requires Valid() && !Full() && MrvScanned(size, 0, found, row, col, min)
      ensures MrvChoice(row, col)
    {
    }

    /** select_var: with mrv false the first unassigned cell in row-major
        order, with mrv true the MRV choice. Some cell must be unassigned. */
    method SelectVar(mrv: bool) returns (row: int, col: int)
      requires Valid() && !Full()
      ensures Selected(mrv, row, col)
    {
      if mrv {
        row, col := SelectMrv();
      } else {
        row, col := SelectFirst();
      }
    }

    /** The mrv branch of select_var: scan the unassigned cells in row-major
        order keeping the first one with the fewest values left, and stop at
        the first one with exactly one value left. */
    method SelectMrv() returns (row: int, col: int)
      requires Valid() && !Full()
      ensures MrvChoice(row, col)
    {
      row, col := 0, 0;
      var min := size + 1;
      var found := false;
      for i := 0 to size
        invariant MrvScanned(i, 0, found, row, col, min)
      {
        var stop;
        found, row, col, min, stop := MrvScanRow(i, found, row, col, min);
        if stop {
          return;
        }
      }
      MrvEnd(found, row, col, min);
    }

    /** The inner loop of the mrv branch of select_var over row i; stop means
        a cell with exactly one value left was chosen. */
    method MrvScanRow(i: int, found: bool, row: int, col: int, min: int)
      returns (found': bool, row': int, col': int, min': int, stop: bool)
      requires Valid() && 0 <= i < size && MrvScanned(i, 0, found, row, col, min)
      ensures stop ==> MrvChoice(row', col') && row' == i && FreeCount(row', col', size) == 1
      ensures !stop ==> MrvScanned(i + 1, 0, found', row', col', min')
    {
      found', row', col', min' := found, row, col, min;
      for j := 0 to size
        invariant MrvScanned(i, j, found', row', col', min')
      {
        if grid[i, j] == 0 {
          var count := CountFree(i, j);
          if count < min' {
            MrvPick(i, j, found', row', col', min');
            row', col', min', found' := i, j, count, true;
            if count == 1 {
              return found', row', col', min', true;
            }
          } else {
            MrvSkip(i, j, found', row', col', min');
          }
        } else {
          MrvSkip(i, j, found', row', col', min');
        }
      }
      MrvNextRow(i, found', row', col', min');
      stop := false;
    }

    /** The first-unassigned branch of select_var. */
    method SelectFirst() returns (row: int, col: int)
      requires Valid() && !Full()
      ensures FirstFree(row, col)
    {
      for i := 0 to size
        invariant forall e1, e2 :: 0 <= e1 < i && 0 <= e2 < size ==> grid[e1, e2] != 0
      {
        for j := 0 to size
          invariant forall e2 :: 0 <= e2 < j ==> grid[i, e2] != 0
        {
          if grid[i, j] == 0 {
            return i, j;
          }
        }
      }
      assert false;
    }

    /** mark_move_invalid: rule out value at (row, col), nothing else. */
    method MarkMoveInvalid(row: int, col: int, value: int)
      requires Valid() && 0 <= row < size && 0 <= col < size && 1 <= value <= size
      modifies excl
      ensures !IsValidMove(row, col, value)
      ensures old(ExclusionsSound()) && (forall s :: Solves(s) ==> s[row][col] != value) ==> ExclusionsSound()
      ensures forall i, j, k ::
                0 <= i < size && 0 <= j < size && 0 <= k < size && (i != row || j != col || k != value - 1) ==>
                  excl[i, j, k] == old(excl[i, j, k])
    {
      excl[row, col, value - 1] := true;
      forall s | Solves(s) && old(Admits(s)) && s[row][col] != value
        ensures Admits(s)
      {
      }
    }

    /** forward_checking: with v the value of (row, col), nothing happens when
        v is 0; otherwise v is ruled out at every other cell of the same row,
        column and box, and made available again at (row, col) itself. No
        other entry changes. */
    method ForwardChecking(row: int, col: int)
      requires Valid() && 0 <= row < size && 0 <= col < size
      modifies excl
      ensures forall i, j, k ::
                0 <= i < size && 0 <= j < size && 0 <= k < size && (grid[row, col] == 0 || k != grid[row, col] - 1) ==>
                  excl[i, j, k] == old(excl[i, j, k])
      ensures grid[row, col] != 0 ==> !excl[row, col, grid[row, col] - 1]
      ensures old(ExclusionsSound()) ==> ExclusionsSound()
      ensures grid[row, col] != 0 ==>
                forall i, j :: 0 <= i < size && 0 <= j < size && (i != row || j != col) ==>
                  excl[i, j, grid[row, col] - 1] == (Linked(row, col, i, j) || old(excl[i, j, grid[row, col] - 1]))
    {
      var value := grid[row, col];
      if value == 0 {
        return;
      }
      ExcludeLinked(row, col, value);
      excl[row, col, value - 1] := false;
      forall s | Solves(s) && old(Admits(s))
        ensures Admits(s)
      {
        forall i, j | 0 <= i < size && 0 <= j < size
          ensures !excl[i, j, s[i][j] - 1]
        {
          if (i != row || j != col) && s[i][j] == value {
            assert s[row][col] != s[i][j] || !Linked(row, col, i, j);
          }
        }
      }
    }

    /** The row, column and box loops of forward_checking: value is ruled out
        at every cell linked to (row, col), the cell itself included. */
    method ExcludeLinked(row: int, col: int, value: int)
      requires Valid() && 0 <= row < size && 0 <= col < size && 1 <= value <= size
      modifies excl
      ensures forall i, j, k ::
                0 <= i < size && 0 <= j < size && 0 <= k < size && k != value - 1 ==>
                  excl[i, j, k] == old(excl[i, j, k])
      ensures forall i, j :: 0 <= i < size && 0 <= j < size ==>
                excl[i, j, value - 1] == (Linked(row, col, i, j) || old(excl[i, j, value - 1]))
    {
      for i := 0 to size
        invariant forall r, c, k :: 0 <= r < size && 0 <= c < size && 0 <= k < size ==>
                    excl[r, c, k] == ((k == value - 1 && ((r == row && c < i) || (c == col && r < i))) ||
                                      old(excl[r, c, k]))
      {
        excl[row, i, value - 1] := true;
        excl[i, col, value - 1] := true;
      }
      var rowRoot := BoxIndex(row, root);
      var colRoot := BoxIndex(col, root);
      BlockInside(rowRoot, root);
      BlockInside(colRoot, root);
      ghost var r0, c0 := rowRoot * root, colRoot * root;
      for a := 0 to root
        invariant forall r, c, k :: 0 <= r < size && 0 <= c < size && 0 <= k < size ==>
                    excl[r, c, k] == ((k == value - 1 &&
                                       (r == row || c == col || (r0 <= r < r0 + a && c0 <= c < c0 + root))) ||
                                      old(excl[r, c, k]))
      {
        for b := 0 to root
          invariant forall r, c, k :: 0 <= r < size && 0 <= c < size && 0 <= k < size ==>
                      excl[r, c, k] == ((k == value - 1 &&
                                         (r == row || c == col || (r0 <= r < r0 + a && c0 <= c < c0 + root) ||
                                          (r == r0 + a && c0 <= c < c0 + b))) ||
                                        old(excl[r, c, k]))
        {
          excl[a + rowRoot * root, b + colRoot * root, value - 1] := true;
        }
      }
      forall i, j | 0 <= i < size && 0 <= j < size
        ensures (r0 <= i < r0 + root && c0 <= j < c0 + root) <==> (i / root == row / root && j / root == col / root)
      {
        InBlockIff(i, rowRoot, root);
        InBlockIff(j, colRoot, root);
      }
    }
  }

  /** Resets every flag of a to false, as the clearing loops of is_valid_board. */
  method ClearFlags(a: array<bool>)
    modifies a
    ensures forall x :: 0 <= x < a.Length ==> !a[x]
  {
    for x := 0 to a.Length
      invariant forall y :: 0 <= y < x ==> !a[y]
    {
      a[x] := false;
    }
  }

  /** The allocation and placement loops of the loading constructor: an
      all-zero n x n grid on which the givens are stored in order. */
  method PlaceGivens(n: nat, givens: seq<Given>) returns (g: array2<int>)
    requires forall t :: 0 <= t < |givens| ==>
               1 <= givens[t].row <= n && 1 <= givens[t].col <= n && 0 <= givens[t].value <= n
    ensures fresh(g) && g.Length0 == n && g.Length1 == n
    ensures forall i, j :: 0 <= i < n && 0 <= j < n ==>
              g[i, j] == Stored(givens, |givens|, i, j) && 0 <= g[i, j] <= n
  {
    g := new int[n, n]((i, j) => 0);
    for t := 0 to |givens|
      invariant forall i, j :: 0 <= i < n && 0 <= j < n ==>
                  g[i, j] == Stored(givens, t, i, j) && 0 <= g[i, j] <= n
    {
      g[givens[t].row - 1, givens[t].col - 1] := givens[t].value;
    }
  }

  /** The copying loops of the clone constructors for the grid. */
  method CopyGrid(src: array2<int>) returns (g: array2<int>)
    ensures fresh(g) && g.Length0 == src.Length0 && g.Length1 == src.Length1
    ensures forall i, j :: 0 <= i < g.Length0 && 0 <= j < g.Length1 ==> g[i, j] == src[i, j]
  {
    g := new int[src.Length0, src.Length1];
    for i := 0 to src.Length0
      invariant forall i', j :: 0 <= i' < i && 0 <= j < src.Length1 ==> g[i', j] == src[i', j]
    {
      for j := 0 to src.Length1
        invariant forall i', j' :: 0 <= i' < i && 0 <= j' < src.Length1 ==> g[i', j'] == src[i', j']
        invariant forall j' :: 0 <= j' < j ==> g[i, j'] == src[i, j']
      {
        g[i, j] := src[i, j];
      }
    }
  }

  /** The copying loops of the clone constructors for the exclusion cache. */
  method CopyExcl(src: array3<bool>) returns (e: array3<bool>)
    ensures fresh(e) && e.Length0 == src.Length0 && e.Length1 == src.Length1 && e.Length2 == src.Length2
    ensures forall i, j, k :: 0 <= i < e.Length0 && 0 <= j < e.Length1 && 0 <= k < e.Length2 ==>
              e[i, j, k] == src[i, j, k]
  {
    e := new bool[src.Length0, src.Length1, src.Length2];
    for i := 0 to src.Length0
      invariant forall i', j, k :: 0 <= i' < i && 0 <= j < src.Length1 && 0 <= k < src.Length2 ==>
                  e[i', j, k] == src[i', j, k]
    {
      for j := 0 to src.Length1
        invariant forall i', j', k :: 0 <= i' < i && 0 <= j' < src.Length1 && 0 <= k < src.Length2 ==>
                    e[i', j', k] == src[i', j', k]
        invariant forall j', k :: 0 <= j' < j && 0 <= k < src.Length2 ==> e[i, j', k] == src[i, j', k]
      {
        for k := 0 to src.Length2
          invariant forall i', j', k' :: 0 <= i' < i && 0 <= j' < src.Length1 && 0 <= k' < src.Length2 ==>
                      e[i', j', k'] == src[i', j', k']
          invariant forall j', k' :: 0 <= j' < j && 0 <= k' < src.Length2 ==> e[i, j', k'] == src[i, j', k']
          invariant forall k' :: 0 <= k' < k ==> e[i, j, k'] == src[i, j, k']
        {
          e[i, j, k] := src[i, j, k];
        }
      }
    }
  }
}
