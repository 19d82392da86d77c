# Sudoku backtracking solver: a verified model of the board and the search

This project models the core of a command-line sudoku solver written in C++.
The solver works on an N x N puzzle, where N = root * root. A `Board` holds:

- the grid: 0 for an unassigned cell, 1..N for a placed value;
- an N x N x N cache of values ruled out per cell (`invalid_moves`).

The depth-first search `solve_puzzle` works like this:

- It picks a cell, either the first free one or by MRV (minimum remaining values).
- It tries the values 1..N that the cache does not rule out, in ascending order.
- For each value it clones the board with that value placed. When `-fc` is given, it forward checks the clone at that cell.
- It counts one consistency check, tests the clone with `is_valid_board`, and recurses.
- It rules each failed value out on the parent board.

`main` first rejects an initial board that fails `is_valid_board`, with exit code 1. With `-fc` it then forward checks every cell before the search starts.

The model has three modules:

- `BoxMath` (`box_math.dfy`): integer-division facts about root x root boxes. It also holds the box-locating loop of `forward_checking` (`BoxIndex`).
- `SudokuBoard` (`board.dfy`): the class `Board`.
  - Its constant fields are `size`, `root`, `grid: array2<int>` and `excl: array3<bool>`. Only the array contents change.
  - It has the three constructors and every method of `Board.cpp` that the search uses. Each method is proved against ghost predicates: the row, column and box duplicate conditions, the remaining-value counts and the MRV choice.
  - It also has a soundness theory of the exclusion cache. A *solution* of a board is a full grid that keeps the board's placed values and repeats no value in a row, column or box. The cache is *sound* when no solution uses a value that the cache rules out at a cell. Every cache update the program makes preserves soundness.
- `Sudoku` (`solver.dfy`): `solve_puzzle` as recursive methods, and `main`'s validity gate and forward-checking pass. The `-mrv` and `-fc` flags are parameters. The global consistency-check counter is passed in and returned.
  - A non-null result is a complete board that keeps every placed value.
  - A null result means the board has no solution at all, provided the board's cache was sound on entry. `main` always starts the search from a sound cache, and every step of the search keeps it sound.
  - The recursion terminates, measured by the number of zero cells.

## Model

| member | source | states |
|---|---|---|
| BoxMath.BoxIndex | Board.cpp:155-160 | the box-locating loop returns b = x / root, the unique b in [0, root) with b * root <= x < b * root + root |
| BoxMath.InBlockIff | Board.cpp:162-164 | for x in [0, root * root), x lies in the rows (or columns) [b * root, b * root + root) of box b exactly when x / root == b, so the box loop covers exactly the cells of the same box |
| SudokuBoard.StoredIsLastGiven | Board.cpp:46-54 | placing the givens one after the other, without validation, leaves 0 in a cell that no given targets and otherwise the value of the last given that targets it |
| SudokuBoard.Board.Load | Board.cpp:27-54 | the loading constructor yields an N x N grid holding exactly what the givens store at each 1-based (row, col), and an N x N x N cache with nothing ruled out; both arrays are fresh |
| SudokuBoard.Board.Clone | Board.cpp:58-76 | the clone has the same size, every grid cell and every cache entry equal to the source's, in fresh arrays |
| SudokuBoard.Board.CloneWith | Board.cpp:79-99 | the clone equals the source except that (row, col) holds value; the cache is copied unchanged, with no propagation; the arrays are fresh |
| SudokuBoard.Board.IsValidMove | Board.cpp:128-131 | true exactly when value is not ruled out at (row, col) in the cache |
| SudokuBoard.Board.GetAssignment | Board.cpp:133-136 | the value of the cell, 0 or one of 1..size |
| SudokuBoard.Board.GetSize | Board.cpp:169-172 | the side of the board, a positive perfect square root * root |
| SudokuBoard.Board.ForwardChecking | Board.cpp:139-167 | nothing changes on a zero cell; otherwise, with v the cell's value, v is ruled out at every other cell of the same row, column or box, is not ruled out at (row, col) itself, every other entry keeps its value, and a sound cache stays sound |
| SudokuBoard.Board.ExcludeLinked | Board.cpp:146-164 | the row, column and box loops rule value out at exactly the cells linked to (row, col) and change nothing else |
| SudokuBoard.Board.HasOpenValue | Board.cpp:275-283 | true exactly when some value is not ruled out at (i, j) |
| SudokuBoard.Board.ScanRowCell | Board.cpp:267-273 | a value already marked in the row proves a duplicate in the row; otherwise marking it extends the scanned prefix |
| SudokuBoard.Board.ScanColCell | Board.cpp:286-294 | a value already marked in the column proves a duplicate in the column; otherwise marking it extends the scanned prefix |
| SudokuBoard.Board.ScanLineCell | Board.cpp:265-295 | one step of the line loop: on success, row, column and remaining-value facts extend by one cell; on failure, a duplicate in row i or column i, or an assigned cell of row i with no value left |
| SudokuBoard.Board.ScanLine | Board.cpp:263-295 | one pass of the line loop clears the flags; on success row i and column i hold no duplicate and every assigned cell of row i has a value left, on failure one of these fails |
| SudokuBoard.Board.ScanLineCells | Board.cpp:265-295 | the inner line loop on cleared flags, with the same success and failure conditions |
| SudokuBoard.Board.ScanLines | Board.cpp:261-296 | the line loop succeeds exactly when no row or column holds a duplicate and every assigned cell has a value left |
| SudokuBoard.Board.ScanBoxCell | Board.cpp:307-313 | one cell of a box: a value already marked in the box proves a duplicate in the box; otherwise marking it extends the scanned prefix |
| SudokuBoard.Board.ScanBoxRow | Board.cpp:306-313 | one row of a box: on success the whole row is scanned; on failure the box holds a duplicate |
| SudokuBoard.Board.ScanBox | Board.cpp:303-313 | the scan of one box succeeds exactly when the root x root box at (i0, j0) holds no nonzero value twice |
| SudokuBoard.Board.ScanBoxBand | Board.cpp:301-313 | the boxes of one band of rows: on success none of them holds a duplicate, on failure one of them does |
| SudokuBoard.Board.ScanBoxes | Board.cpp:298-314 | the box loop succeeds exactly when no box holds a duplicate |
| SudokuBoard.Board.IsValidBoard | Board.cpp:256-317 | true exactly when no row, column or box holds a nonzero value twice and every assigned cell has a value left in the cache; the board is not written |
| SudokuBoard.Board.NoDuplicatesIffNoClash | Board.cpp:256-317 | the row, column and box scans of is_valid_board decide exactly that no two distinct cells sharing a row, column or box hold the same nonzero value |
| SudokuBoard.Board.IsComplete | Board.cpp:240-253 | true exactly when is_valid_board holds and no cell is 0 |
| SudokuBoard.Board.ZerosNoneIffFull | Board.cpp:244-247 | the number of zero cells is 0 exactly when no cell is 0 |
| SudokuBoard.Board.CountFree | Board.cpp:331-334 | the counting loop of select_var returns the number of values not ruled out at (i, j) |
| SudokuBoard.Board.FreeCountPositive | Board.cpp:331-334 | that count is positive exactly when some value is not ruled out at the cell |
| SudokuBoard.Board.MrvScanRow | Board.cpp:326-345 | one row of the MRV scan keeps the running minimum; when it stops early, the cell it chose lies in that row, has exactly one value left and is the MRV choice |
| SudokuBoard.Board.SelectMrv | Board.cpp:322-346 | the MRV branch returns a zero cell whose count is below that of every earlier zero cell, every earlier zero cell having more than one value left; its count is 1 or at most that of every zero cell |
| SudokuBoard.Board.SelectFirst | Board.cpp:347-358 | the other branch returns the first zero cell in row-major order |
| SudokuBoard.Board.SelectVar | Board.cpp:320-359 | on a board with a zero cell, the cell chosen under the mrv flag as above |
| SudokuBoard.Board.SelectionUnique | Board.cpp:320-359 | at most one cell meets the selection contract, so the contract fixes select_var's result |
| SudokuBoard.Board.MarkMoveInvalid | Board.cpp:361-364 | exactly entry (row, col, value) is ruled out and nothing else changes; a sound cache stays sound when no solution holds value at (row, col) |
| SudokuBoard.ClearFlags | Board.cpp:263-264 | clearing the flag array leaves every flag false |
| SudokuBoard.PlaceGivens | Board.cpp:27-54 | a fresh N x N grid that starts at 0 and then holds, at each cell, what the givens store there in order |
| SudokuBoard.CopyGrid | Board.cpp:62-75 | a fresh grid of the same dimensions equal to the source at every cell |
| SudokuBoard.CopyExcl | Board.cpp:83-96 | a fresh cache of the same dimensions equal to the source at every entry |
| SudokuBoard.GridZerosAssign | sudoku.cpp:96 | placing a nonzero value in one zero cell, changing nothing else, lowers the number of zero cells by exactly one |
| SudokuBoard.Board.NoExclusionsSound | Board.cpp:37-38 | a freshly loaded cache, with nothing ruled out, is sound and leaves every assigned cell a value |
| SudokuBoard.Board.SolutionConsistent | Board.cpp:256-317 | a board with a solution and a sound cache passes is_valid_board |
| SudokuBoard.Board.ExcludedUnused | sudoku.cpp:94 | with a sound cache, a value that is_valid_move rejects is used at that cell by no solution |
| SudokuBoard.Board.PeerBeforeStep | sudoku.cpp:49-52 | scanning one more cell in row-major order adds exactly that cell as a possible holder of a linked value |
| SudokuBoard.Board.NoClashNoPeer | sudoku.cpp:42-46 | on a board that passed the gate, no cell linked to an assigned cell holds its value |
| SudokuBoard.Board.PeersNextRow | sudoku.cpp:49-50 | the end of one row of the forward-checking pass is the start of the next |
| SudokuBoard.Board.PeersEnd | sudoku.cpp:48-52 | after the last row, the cache rules out at each cell exactly the values held by its linked cells |
| SudokuBoard.Board.PeersExcludedConsistent | sudoku.cpp:48-52 | on a board without duplicates, that cache leaves the board consistent |
| SudokuBoard.Board.PeersExcludedSound | sudoku.cpp:48-52 | that cache is sound |
| Sudoku.AssignSolutions | sudoku.cpp:96 | the solutions of the clone with value at (row, col) are exactly the solutions of the parent that hold value there |
| Sudoku.SolvesRelaxed | sudoku.cpp:96 | a solution of a board also solves any same-shaped board whose placed values it keeps |
| Sudoku.SameContents | sudoku.cpp:86-87 | boards with equal grids and caches are complete together |
| Sudoku.SameClash | sudoku.cpp:86-87 | boards with equal grids have the same pairwise duplicates |
| Sudoku.CloneSound | sudoku.cpp:96 | a clone with a copied cache, whose solutions are solutions of the source, has a sound cache |
| Sudoku.DeadClone | sudoku.cpp:111 | a child with a sound cache that fails is_valid_board shows that no solution of the parent holds value at (row, col) |
| Sudoku.NoSolutionWith | sudoku.cpp:114-121 | a child without solutions shows that no solution of the parent holds value at (row, col) |
| Sudoku.CloneChecked | sudoku.cpp:96-98 | the child is a fresh clone with value at (row, col) and every other cell as in the parent; without fc its cache equals the parent's; with fc it differs only at value: ruled out at every cell linked to (row, col) in addition to the parent's exclusions, not ruled out at (row, col); a sound parent cache gives a sound child cache |
| Sudoku.Child | sudoku.cpp:96-111 | the child and its cache as in CloneChecked; the check result is exactly its consistency; when the parent's cache is sound, a failed check rules value out for every solution of the parent |
| Sudoku.TryValue | sudoku.cpp:94-122 | the parent is untouched; at least one consistency check is counted; a result is a complete board, with fresh grid and cache, holding value at (row, col) and keeping the parent's placed values; when the parent's cache is sound, no result means no solution of the parent holds value there |
| Sudoku.SearchCell | sudoku.cpp:91-125 | values are tried in ascending order and the first success returns at once: the values before it are now ruled out at (row, col), it was not ruled out before, and later entries are untouched; only cell (row, col) of the cache changes; a sound cache stays sound; a result is a complete board with fresh grid and cache keeping every placed value; no result means every value is ruled out there and, when the cache was sound, the board has no solution; the counter grows by at least the number of values tried |
| Sudoku.CloneComplete | sudoku.cpp:86-87 | the copy of a complete board is complete, with fresh grid and cache equal to the board's at every cell and entry |
| Sudoku.Search | sudoku.cpp:89-125 | on a board with a zero cell, the cell searched is the one select_var picks under the mrv flag and only its cache entries change; a result is a complete board with fresh arrays keeping every placed value, and with value at that cell not ruled out before; no result rules out every value at the cell and, with a sound cache, means the board has no solution |
| Sudoku.SolvePuzzle | sudoku.cpp:84-126 | a complete board yields a copy with fresh arrays equal to it in every cell and cache entry, with the board's counter and cache unchanged; otherwise the cell is the one select_var picks and only its cache entries change; a result is a complete board with fresh grid and cache keeping every placed value; a sound cache stays sound, and with a sound cache no result means the board has no solution; the search terminates because each child has one zero cell fewer |
| Sudoku.ForwardCheckCell | sudoku.cpp:51 | forward checking one cell extends the peer-exclusion cache to that cell in row-major order |
| Sudoku.ForwardCheckAll | sudoku.cpp:48-52 | forward checking every cell of a board without duplicates, from an empty cache, rules out exactly the values held by linked cells; the board stays consistent and the cache sound |
| Sudoku.Run | sudoku.cpp:42-66 | exit code 1, with no search and no check counted, exactly when the loaded board holds a duplicate; otherwise code 0 with a sound cache, and a result is a complete board with fresh grid and cache keeping every given, while no result means the puzzle has no solution |

## Left out

- Reading the puzzle file in `Board(string)` (Board.cpp:14-24, 42-51), including `exit(1)` on a missing file: the givens are a parameter, a sequence of 1-based (row, col, value) triples.
- `print_board`, `get_digits` and every message `main` prints: output only.
- The destructor and every `delete`: fresh Dafny arrays already keep clones independent.
- Floating-point `sqrt`: `root` is an integer field with root * root == size, required by `Load`. Sizes that are not perfect squares are not modelled.
- Progress reporting: the alarm handler, the signal masking, the `current` pointer, the timing and the `LIMIT` abort. These are asynchronous, timing and floating-point behaviour.
- `read_args`: the flags `-mrv` and `-fc` are parameters, and the global counter is passed in and returned.
- Undefined behaviour in the source is stated as preconditions:
  - `Load` requires every given to have row and column in 1..size and value in 0..size;
  - `SolvePuzzle` requires a board that is consistent or has a zero cell, which is where `select_var` sets its outputs;
  - the index arguments of the board methods must be in range.
- Integer width: the counter is an unbounded `nat`, so a 32-bit overflow of `consistency_checks` is not modelled.
- Sudoku.TryValue: the counter is stated as growing by at least one, not by the exact number of checks made in the recursion.
- Sudoku.SearchCell: the counter is stated as growing by at least the number of values tried at the cell, not by the exact total of the recursion below it.
- Sudoku.SolvePuzzle: the counter is stated as a lower bound in the same way, and as unchanged on a complete board.
- Sudoku.SolvePuzzle: "no result means no solution" is promised only when the board's cache is sound on entry. With an unsound cache the search can skip a value that a solution uses, so the source gives no such promise. `Run` shows that `main` always starts from a sound cache.
- Sudoku.Search, Sudoku.SearchCell, Sudoku.TryValue, Sudoku.Child: their "no solution" conclusions carry the same hypothesis of a sound cache, for the same reason.
- Sudoku.Run: the state of the cache between the forward-checking pass and the search is stated by `ForwardCheckAll`, not by `Run`, because the search itself changes the cache.
- The loops of `is_valid_board` and `select_var` are modelled as one method per loop level (`ScanLine`, `ScanLineCell`, `ScanBox`, `ScanBoxRow`, `MrvScanRow`, …). Together they perform the same steps in the same order with the same early returns.
