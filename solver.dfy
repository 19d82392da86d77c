// The depth-first search of sudoku.cpp (solve_puzzle) and the part of main
// that prepares the search: the validity gate and the initial forward-checking
// pass. The flags -mrv and -fc are parameters, and the global counter of
// consistency checks is threaded in and out.

module Sudoku {
  import opened SudokuBoard

  /** A board n and the board b it was cloned from with cell (row, col), empty
      on b, set to value: n's solutions are exactly b's solutions that hold
      value at (row, col). */
  lemma AssignSolutions(b: Board, n: Board, row: int, col: int, value: int)
    requires b.Valid() && n.Valid() && n.size == b.size && n.root == b.root
    requires 0 <= row < b.size && 0 <= col < b.size && 1 <= value <= b.size
    requires b.grid[row, col] == 0 && n.grid[row, col] == value
    requires forall i, j :: 0 <= i < b.size && 0 <= j < b.size && (i != row || j != col) ==>
               n.grid[i, j] == b.grid[i, j]
    ensures forall s :: n.Solves(s) <==> b.Solves(s) && s[row][col] == value
  {
    forall s | n.Solves(s) ensures b.Solves(s) && s[row][col] == value {
      SolvesRelaxed(n, b, s);
    }
    forall s | b.Solves(s) && s[row][col] == value ensures n.Solves(s) {
      SolvesRelaxed(b, n, s);
    }
  }

  /** A solution of board a is one of board b whenever b has the same shape
      and every value b has placed is placed at the same cell by the solution. */
  lemma SolvesRelaxed(a: Board, b: Board, s: seq<seq<int>>)
    requires a.Valid() && b.Valid() && b.size == a.size && b.root == a.root && a.Solves(s)
    requires forall i, j :: 0 <= i < b.size && 0 <= j < b.size && b.grid[i, j] != 0 ==> s[i][j] == b.grid[i, j]
    ensures b.Solves(s)
  {
    forall r1, c1, r2, c2 |
      0 <= r1 < b.size && 0 <= c1 < b.size && 0 <= r2 < b.size && 0 <= c2 < b.size &&
      (r1 != r2 || c1 != c2) && b.Linked(r1, c1, r2, c2)
      ensures s[r1][c1] != s[r2][c2]
    {
      assert a.Linked(r1, c1, r2, c2);
    }
  }

  /** Two boards of the same shape with equal grids and equal caches are
      judged alike by the consistency check. */
  lemma SameContents(a: Board, b: Board)
    requires a.Valid() && b.Valid() && a.size == b.size && a.root == b.root
    requires forall i, j :: 0 <= i < a.size && 0 <= j < a.size ==> a.grid[i, j] == b.grid[i, j]
    requires forall i, j, k :: 0 <= i < a.size && 0 <= j < a.size && 0 <= k < a.size ==>
               a.excl[i, j, k] == b.excl[i, j, k]
    ensures a.Complete() == b.Complete()
  {
    assert a.Full() == b.Full();
    assert a.CandidatesLeft() == b.CandidatesLeft() by {
      assert forall i, j :: 0 <= i < a.size && 0 <= j < a.size ==> (a.HasCandidate(i, j) <==> b.HasCandidate(i, j));
    }
    a.NoDuplicatesIffNoClash();
    b.NoDuplicatesIffNoClash();
    SameClash(a, b);
    SameClash(b, a);
  }

  /** A clash on b is a clash on a board a with the same shape and grid. */
  lemma SameClash(a: Board, b: Board)
    requires a.Valid() && b.Valid() && a.size == b.size && a.root == b.root
    requires forall i, j :: 0 <= i < a.size && 0 <= j < a.size ==> a.grid[i, j] == b.grid[i, j]
    ensures a.NoClash() ==> b.NoClash()
  {
    if a.NoClash() {
      forall r1, c1, r2, c2 |
        0 <= r1 < b.size && 0 <= c1 < b.size && 0 <= r2 < b.size && 0 <= c2 < b.size &&
        (r1 != r2 || c1 != c2) && b.Linked(r1, c1, r2, c2) && b.grid[r1, c1] != 0
        ensures b.grid[r1, c1] != b.grid[r2, c2]
      {
        assert a.Linked(r1, c1, r2, c2);
      }
    }
  }

  /** A clone whose solutions are among the source's solutions and whose
      cache equals the source's inherits a sound cache. */
  lemma CloneSound(b: Board, n: Board)
    requires b.Valid() && n.Valid() && n.size == b.size && n.root == b.root && b.ExclusionsSound()
    requires forall i, j, k :: 0 <= i < b.size && 0 <= j < b.size && 0 <= k < b.size ==>
               n.excl[i, j, k] == b.excl[i, j, k]
    requires forall s :: n.Solves(s) ==> b.Solves(s)
    ensures n.ExclusionsSound()
  {
    forall s | n.Solves(s) ensures n.Admits(s) {
      assert b.Admits(s);
    }
  }

  /** A clone with a sound cache that fails the consistency check has no
      solution, so its source has none with value at (row, col). */
  lemma DeadClone(b: Board, n: Board, row: int, col: int, value: int)
    requires b.Valid() && n.Valid() && n.size == b.size && n.root == b.root
    requires 0 <= row < b.size && 0 <= col < b.size && 1 <= value <= b.size
    requires b.grid[row, col] == 0 && n.grid[row, col] == value
    requires forall i, j :: 0 <= i < b.size && 0 <= j < b.size && (i != row || j != col) ==>
               n.grid[i, j] == b.grid[i, j]
    requires n.ExclusionsSound() && !n.Consistent()
    ensures forall s :: b.Solves(s) ==> s[row][col] != value
  {
    forall s | b.Solves(s) && s[row][col] == value ensures false {
      SolvesRelaxed(b, n, s);
      n.SolutionConsistent(s);
    }
  }

  /** A clone with value at (row, col) that has no solution leaves its source
      no solution with value at (row, col). */
  lemma NoSolutionWith(b: Board, n: Board, row: int, col: int, value: int)
    requires b.Valid() && n.Valid() && n.size == b.size && n.root == b.root
    requires 0 <= row < b.size && 0 <= col < b.size && 1 <= value <= b.size
    requires b.grid[row, col] == 0 && n.grid[row, col] == value
    requires forall i, j :: 0 <= i < b.size && 0 <= j < b.size && (i != row || j != col) ==>
               n.grid[i, j] == b.grid[i, j]
    requires forall s :: !n.Solves(s)
    ensures forall s :: b.Solves(s) ==> s[row][col] != value
  {
    forall s | b.Solves(s) && s[row][col] == value ensures false {
      SolvesRelaxed(b, n, s);
    }
  }

  /** One pass of the value loop of solve_puzzle for a value that the cache
      does not rule out: clone the board with value at (row, col), forward
      check the clone when fc is set, count one consistency check, and search
      on from the clone when it is consistent. The board itself is untouched. */
  method TryValue(board: Board, row: int, col: int, value: int, mrv: bool, fc: bool, checks: nat)
    returns (solution: Board?, checks': nat)
    requires board.Valid()
    requires 0 <= row < board.size && 0 <= col < board.size && board.grid[row, col] == 0
    requires 1 <= value <= board.size
    decreases board.Zeros(), 0
    ensures checks' >= checks + 1
    ensures solution != null ==>
              fresh(solution) && fresh(solution.grid) && fresh(solution.excl) &&
              solution.Valid() && solution.Complete() &&
              solution.size == board.size && solution.root == board.root &&
              solution.grid[row, col] == value &&
              forall i, j :: 0 <= i < board.size && 0 <= j < board.size && board.grid[i, j] != 0 ==>
                solution.grid[i, j] == board.grid[i, j]
    ensures solution == null && board.ExclusionsSound() ==> forall s :: board.Solves(s) ==> s[row][col] != value
  {
    var next, ok := Child(board, row, col, value, fc);
    checks' := checks + 1;
    if !ok {
      return null, checks';
    }
    GridZerosAssign(board.grid, next.grid, row, col, board.size);
    ghost var r, c, v;
    solution, checks', r, c, v := SolvePuzzle(next, mrv, fc, checks');
    if solution == null && board.ExclusionsSound() {
      NoSolutionWith(board, next, row, col, value);
    }
  }

  /** The child of board for value at (row, col) in solve_puzzle: a clone
      with value placed, forward checked at (row, col) when fc is set, and
      its consistency check. A clone that fails the check rules value out at
      (row, col) for every solution of board when board's cache is sound. */
  method Child(board: Board, row: int, col: int, value: int, fc: bool) returns (next: Board, ok: bool)
    requires board.Valid()
    requires 0 <= row < board.size && 0 <= col < board.size && board.grid[row, col] == 0
    requires 1 <= value <= board.size
    ensures fresh(next) && fresh(next.grid) && fresh(next.excl)
    ensures next.Valid() && next.size == board.size && next.root == board.root
    ensures next.grid[row, col] == value
    ensures forall i, j :: 0 <= i < board.size && 0 <= j < board.size && (i != row || j != col) ==>
              next.grid[i, j] == board.grid[i, j]
    ensures !fc ==>
              forall i, j, k :: 0 <= i < board.size && 0 <= j < board.size && 0 <= k < board.size ==>
                next.excl[i, j, k] == board.excl[i, j, k]
    ensures fc ==>
              (forall i, j, k ::
                 0 <= i < board.size && 0 <= j < board.size && 0 <= k < board.size && k != value - 1 ==>
                   next.excl[i, j, k] == board.excl[i, j, k]) &&
              !next.excl[row, col, value - 1] &&
              forall i, j :: 0 <= i < board.size && 0 <= j < board.size && (i != row || j != col) ==>
                next.excl[i, j, value - 1] == (next.Linked(row, col, i, j) || board.excl[i, j, value - 1])
    ensures board.ExclusionsSound() ==> next.ExclusionsSound()
    ensures ok == next.Consistent()
    ensures !ok && board.ExclusionsSound() ==> forall s :: board.Solves(s) ==> s[row][col] != value
  {
    next := CloneChecked(board, row, col, value, fc);
    ok := next.IsValidBoard();
    if !ok && board.ExclusionsSound() {
      DeadClone(board, next, row, col, value);
    }
  }

  /** Lines 96-98 of solve_puzzle: the clone with value at (row, col),
      forward checked there when fc is set. */
  method CloneChecked(board: Board, row: int, col: int, value: int, fc: bool) returns (next: Board)
    requires board.Valid()
    requires 0 <= row < board.size && 0 <= col < board.size && board.grid[row, col] == 0
    requires 1 <= value <= board.size
    ensures fresh(next) && fresh(next.grid) && fresh(next.excl)
    ensures next.Valid() && next.size == board.size && next.root == board.root
    ensures next.grid[row, col] == value
    ensures forall i, j :: 0 <= i < board.size && 0 <= j < board.size && (i != row || j != col) ==>
              next.grid[i, j] == board.grid[i, j]
    ensures !fc ==>
              forall i, j, k :: 0 <= i < board.size && 0 <= j < board.size && 0 <= k < board.size ==>
                next.excl[i, j, k] == board.excl[i, j, k]
    ensures fc ==>
              (forall i, j, k ::
                 0 <= i < board.size && 0 <= j < board.size && 0 <= k < board.size && k != value - 1 ==>
                   next.excl[i, j, k] == board.excl[i, j, k]) &&
              !next.excl[row, col, value - 1] &&
              forall i, j :: 0 <= i < board.size && 0 <= j < board.size && (i != row || j != col) ==>
                next.excl[i, j, value - 1] == (next.Linked(row, col, i, j) || board.excl[i, j, value - 1])
    ensures board.ExclusionsSound() ==> next.ExclusionsSound()
  {
    next := new Board.CloneWith(board, row, col, value);
    if board.ExclusionsSound() {
      AssignSolutions(board, next, row, col, value);
      CloneSound(board, next);
    }
    if fc {
      next.ForwardChecking(row, col);
    }
  }

  /** The value loop of solve_puzzle at the selected cell (row, col): values
      1..size in ascending order; one the cache rules out is skipped, the
      others are tried, and each that does not lead to a solution is then
      ruled out at (row, col). Returns the first solution found. */
  method SearchCell(board: Board, row: int, col: int, mrv: bool, fc: bool, checks: nat)
    returns (solution: Board?, checks': nat, ghost value: int)
    requires board.Valid()
    requires 0 <= row < board.size && 0 <= col < board.size && board.grid[row, col] == 0
    modifies board.excl
    decreases board.Zeros(), 1
    ensures old(board.ExclusionsSound()) ==> board.ExclusionsSound()
    ensures forall i, j, k ::
              0 <= i < board.size && 0 <= j < board.size && 0 <= k < board.size && (i != row || j != col) ==>
                board.excl[i, j, k] == old(board.excl[i, j, k])
    ensures solution != null ==>
              fresh(solution) && fresh(solution.grid) && fresh(solution.excl) &&
              solution.Valid() && solution.Complete() &&
              solution.size == board.size && solution.root == board.root &&
              (forall i, j :: 0 <= i < board.size && 0 <= j < board.size && board.grid[i, j] != 0 ==>
                 solution.grid[i, j] == board.grid[i, j])
    ensures solution != null ==>
              1 <= value <= board.size && solution.grid[row, col] == value &&
              !old(board.excl[row, col, value - 1]) &&
              checks' >= checks + old(board.FreeCount(row, col, value)) &&
              (forall k :: 0 <= k < value - 1 ==> board.excl[row, col, k]) &&
              (forall k :: value - 1 <= k < board.size ==>
                 board.excl[row, col, k] == old(board.excl[row, col, k]))
    ensures solution == null ==>
              (old(board.ExclusionsSound()) ==> forall s :: !board.Solves(s)) &&
              (forall k :: 0 <= k < board.size ==> board.excl[row, col, k]) &&
              checks' >= checks + old(board.FreeCount(row, col, board.size))
  {
    checks' := checks;
    ghost var sound := board.ExclusionsSound();
    var v := 1;
    while v <= board.GetSize()
      invariant 1 <= v <= board.size + 1
      invariant sound ==> board.ExclusionsSound()
      invariant sound ==> forall s :: board.Solves(s) ==> s[row][col] >= v
      invariant checks' >= checks + old(board.FreeCount(row, col, v - 1))
      invariant forall i, j, k ::
                  0 <= i < board.size && 0 <= j < board.size && 0 <= k < board.size && (i != row || j != col) ==>
                    board.excl[i, j, k] == old(board.excl[i, j, k])
      invariant forall k :: 0 <= k < v - 1 ==> board.excl[row, col, k]
      invariant forall k :: v - 1 <= k < board.size ==> board.excl[row, col, k] == old(board.excl[row, col, k])
      decreases board.size + 1 - v
    {
      if board.IsValidMove(row, col, v) {
        solution, checks' := TryValue(board, row, col, v, mrv, fc, checks');
        if solution != null {
          return solution, checks', v;
        }
      } else if sound {
        board.ExcludedUnused(row, col, v);
      }
      board.MarkMoveInvalid(row, col, v);
      v := v + 1;
    }
    return null, checks', 0;
  }

  /** Line 87 of solve_puzzle: a complete board is returned as a copy. */
  method CloneComplete(board: Board) returns (solution: Board)
    requires board.Valid() && board.Complete()
    ensures fresh(solution) && fresh(solution.grid) && fresh(solution.excl)
    ensures solution.Valid() && solution.Complete()
    ensures solution.size == board.size && solution.root == board.root
    ensures forall i, j :: 0 <= i < board.size && 0 <= j < board.size ==> solution.grid[i, j] == board.grid[i, j]
    ensures forall i, j, k :: 0 <= i < board.size && 0 <= j < board.size && 0 <= k < board.size ==>
              solution.excl[i, j, k] == board.excl[i, j, k]
  {
    solution := new Board.Clone(board);
    SameContents(board, solution);
  }

  /** solve_puzzle: depth-first search from board. A complete board is
      returned as a fresh copy; otherwise select_var picks the cell whose
      values are searched. */
  method SolvePuzzle(board: Board, mrv: bool, fc: bool, checks: nat)
    returns (solution: Board?, checks': nat, ghost row: int, ghost col: int, ghost value: int)
    requires board.Valid() && (board.Consistent() || !board.Full())
    modifies board.excl
    decreases board.Zeros(), 3
    ensures old(board.ExclusionsSound()) ==> board.ExclusionsSound()
    ensures checks' >= checks
    ensures solution != null ==>
              fresh(solution) && fresh(solution.grid) && fresh(solution.excl) &&
              solution.Valid() && solution.Complete() &&
              solution.size == board.size && solution.root == board.root &&
              forall i, j :: 0 <= i < board.size && 0 <= j < board.size && board.grid[i, j] != 0 ==>
                solution.grid[i, j] == board.grid[i, j]
    ensures solution == null && old(board.ExclusionsSound()) ==> forall s :: !board.Solves(s)
    ensures old(board.Complete()) ==>
              solution != null && checks' == checks && unchanged(board.excl) &&
              (forall i, j :: 0 <= i < board.size && 0 <= j < board.size ==> solution.grid[i, j] == board.grid[i, j]) &&
              forall i, j, k :: 0 <= i < board.size && 0 <= j < board.size && 0 <= k < board.size ==>
                solution.excl[i, j, k] == board.excl[i, j, k]
    ensures !old(board.Complete()) ==>
              0 <= row < board.size && 0 <= col < board.size && old(board.Selected(mrv, row, col)) &&
              forall i, j, k ::
                0 <= i < board.size && 0 <= j < board.size && 0 <= k < board.size && (i != row || j != col) ==>
                  board.excl[i, j, k] == old(board.excl[i, j, k])
    ensures solution == null ==>
              !old(board.Complete()) &&
              (forall k :: 0 <= k < board.size ==> board.excl[row, col, k]) &&
              checks' >= checks + old(board.FreeCount(row, col, board.size))
    ensures solution != null && !old(board.Complete()) ==>
              1 <= value <= board.size && solution.grid[row, col] == value &&
              !old(board.excl[row, col, value - 1]) &&
              checks' >= checks + old(board.FreeCount(row, col, value)) &&
              (forall k :: 0 <= k < value - 1 ==> board.excl[row, col, k]) &&
              (forall k :: value - 1 <= k < board.size ==>
                 board.excl[row, col, k] == old(board.excl[row, col, k]))
  {
    var done := board.IsComplete();
    if done {
      solution := CloneComplete(board);
      return solution, checks, 0, 0, 0;
    }
    solution, checks', row, col, value := Search(board, mrv, fc, checks);
  }

  /** Lines 89-125 of solve_puzzle on an incomplete board: the cell the
      heuristic selects is searched value by value. */
  method Search(board: Board, mrv: bool, fc: bool, checks: nat)
    returns (solution: Board?, checks': nat, ghost row: int, ghost col: int, ghost value: int)
    requires board.Valid() && !board.Full()
    modifies board.excl
    decreases board.Zeros(), 2
    ensures old(board.ExclusionsSound()) ==> board.ExclusionsSound()
    ensures 0 <= row < board.size && 0 <= col < board.size && old(board.Selected(mrv, row, col))
    ensures forall i, j, k ::
              0 <= i < board.size && 0 <= j < board.size && 0 <= k < board.size && (i != row || j != col) ==>
                board.excl[i, j, k] == old(board.excl[i, j, k])
    ensures solution != null ==>
              fresh(solution) && fresh(solution.grid) && fresh(solution.excl) &&
              solution.Valid() && solution.Complete() &&
              solution.size == board.size && solution.root == board.root &&
              (forall i, j :: 0 <= i < board.size && 0 <= j < board.size && board.grid[i, j] != 0 ==>
                 solution.grid[i, j] == board.grid[i, j])
    ensures solution != null ==>
              1 <= value <= board.size && solution.grid[row, col] == value &&
              !old(board.excl[row, col, value - 1]) &&
              checks' >= checks + old(board.FreeCount(row, col, value)) &&
              (forall k :: 0 <= k < value - 1 ==> board.excl[row, col, k]) &&
              (forall k :: value - 1 <= k < board.size ==>
                 board.excl[row, col, k] == old(board.excl[row, col, k]))
    ensures solution == null ==>
              (old(board.ExclusionsSound()) ==> forall s :: !board.Solves(s)) &&
              (forall k :: 0 <= k < board.size ==> board.excl[row, col, k]) &&
              checks' >= checks + old(board.FreeCount(row, col, board.size))
  {
    var r, c := board.SelectVar(mrv);
    solution, checks', value := SearchCell(board, r, c, mrv, fc, checks);
    row, col := r, c;
  }

  // -----------------------------------------------------------------------
  // main: the validity gate and the initial forward-checking pass

  /** One step of main's forward-checking pass: forward checking (row, col)
      extends the cache to the cells scanned up to and including it. */
  method ForwardCheckCell(b: Board, row: int, col: int)
    requires b.Valid() && b.NoClash() && 0 <= row < b.size && 0 <= col < b.size
    requires b.PeersBefore(row, col)
    modifies b.excl
    ensures b.PeersBefore(row, col + 1)
  {
    b.ForwardChecking(row, col);
    var v := b.grid[row, col];
    forall i, j, k | 0 <= i < b.size && 0 <= j < b.size && 0 <= k < b.size
      ensures b.excl[i, j, k] <==> b.PeerBefore(i, j, k + 1, row, col + 1)
    {
      b.PeerBeforeStep(i, j, k + 1, row, col);
      assert old(b.excl[i, j, k]) <==> b.PeerBefore(i, j, k + 1, row, col);
      if v == 0 || k != v - 1 {
        assert b.excl[i, j, k] == old(b.excl[i, j, k]);
      } else if i == row && j == col {
        b.NoClashNoPeer(row, col, row, col + 1);
      } else {
        assert b.excl[i, j, k] == (b.Linked(row, col, i, j) || old(b.excl[i, j, k]));
      }
    }
  }

  /** The forward-checking pass of main: every cell, in row-major order, is
      forward checked. On a board without duplicates and with an empty cache,
      it leaves exactly the values of linked cells ruled out, so the board
      stays consistent and the cache sound. */
  method ForwardCheckAll(b: Board)
    requires b.Valid() && b.NoDuplicates() && b.NoExclusions()
    modifies b.excl
    ensures b.PeersExcluded() && b.Consistent() && b.ExclusionsSound()
  {
    b.NoDuplicatesIffNoClash();
    for row := 0 to b.GetSize()
      invariant b.PeersBefore(row, 0)
    {
      for col := 0 to b.GetSize()
        invariant b.PeersBefore(row, col)
      {
        ForwardCheckCell(b, row, col);
      }
      b.PeersNextRow(row);
    }
    b.PeersEnd();
    b.PeersExcludedConsistent();
    b.PeersExcludedSound();
  }

  /** main, after the board is read: a board that fails is_valid_board stops
      the program with exit code 1; otherwise, when -fc is given, every cell
      is forward checked in row-major order, and solve_puzzle runs on the
      board with the consistency-check counter at 0. */
  method Run(n: nat, r: nat, givens: seq<Given>, mrv: bool, fc: bool)
    returns (code: int, b: Board, solution: Board?, checks: nat)
    requires 0 < r && r * r == n
    requires forall t :: 0 <= t < |givens| ==>
               1 <= givens[t].row <= n && 1 <= givens[t].col <= n && 0 <= givens[t].value <= n
    ensures fresh(b) && b.Valid() && b.size == n && b.root == r
    ensures forall i, j :: 0 <= i < n && 0 <= j < n ==> b.grid[i, j] == Stored(givens, |givens|, i, j)
    ensures code == 1 <==> !b.NoDuplicates()
    ensures code == 1 ==> solution == null && checks == 0
    ensures code != 1 ==> code == 0 && b.ExclusionsSound()
    ensures code == 0 && solution != null ==>
              fresh(solution) && fresh(solution.grid) && fresh(solution.excl) &&
              solution.Valid() && solution.Complete() &&
              solution.size == n && solution.root == r &&
              forall i, j :: 0 <= i < n && 0 <= j < n && b.grid[i, j] != 0 ==> solution.grid[i, j] == b.grid[i, j]
    ensures code == 0 && solution == null ==> forall s :: !b.Solves(s)
  {
    b := new Board.Load(n, r, givens);
    b.NoExclusionsSound();
    var ok := b.IsValidBoard();
    if !ok {
      return 1, b, null, 0;
    }
    if fc {
      ForwardCheckAll(b);
    }
    ghost var pr, pc, pv;
    solution, checks, pr, pc, pv := SolvePuzzle(b, mrv, fc, 0);
    code := 0;
  }
}
