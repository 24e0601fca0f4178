# Sudoku model

A Dafny model of the puzzle core of the `knox.sudoku` game: the `Sudoku`
class, which holds a 9x9 `int` board (0 marks an empty cell), and the
`SudokuSquare` value class used to report cells. The Java exceptions become
`Result` values. Every board operation is a pure function on an immutable
board. The Java loops are kept in their own orders: row i then column i,
the box column by column, the hint scan column-major and the load loop
row-major.

Modules, in dependency order:

- `Wrappers`: `Option` and `Result`.
- `JavaInt`: the `int32` range and Java's truncating `/` and `%`.
- `Decimal`: the decimal text of an `int`, as string concatenation produces
  it, and reading it back.
- `Scanner`: the whitespace tokenising and `nextInt` that `load` relies on.
- `SudokuSquare`: the `(row, col, value)` triple, `equals` and `toString`.
- `Board`: the grid, `get`, `force`, `isBlank`, `gameOver` and `get3x3row`.
- `Legality`: `isLegal` and `getLegalViolations`, and the cells they visit.
- `Candidates`: `getLegalValues`, `getMostContrainedSquares` and
  `getAllLegalPositions`.
- `Moves`: `set`, and the swap preview of the game screen (lift a value,
  ask where it may go, put it back).
- `Persistence`: `toString`, `toSaveString` and the read loop of `load`.

A cell p is a *peer* of (row, col) when it shares the row, the column or
the 3x3 box (`Legality.Peer`). The cell itself is its own peer, because none
of the Java scans skips it. This is why `set(r, c, v)` on a cell that
already holds v reports that cell, and why `getLegalValues` of a filled cell
never lists the cell's own digit.

Behaviour of the code worth knowing:

- `set(r, c, 0)` checks 0 like any other value,
  so it is refused whenever some peer holds 0, the cell itself included
  (`Moves.SetOwnValueRefused` covers a blank cell).
- `force` checks no value range. Any `int` can be stored.
- `load` checks no value range and is not all-or-nothing. Each value is
  stored as soon as it is read. A missing or unreadable token therefore
  leaves the cells read before it overwritten and the rest untouched
  (`Persistence.LoadFrom`).
- `isLegal` with an on-board row and an off-board column returns false,
  without an exception, when `board[row][0]` holds the value. This comes
  from the `||` at Sudoku.java line 67 (`Legality.IsLegalChecked`).

## Model

| member | source | states |
|---|---|---|
| Board.Empty | src/knox/sudoku/Sudoku.java:26 | a new game's board holds 0 in every cell |
| Board.Get | src/knox/sudoku/Sudoku.java:28-34 | `get` succeeds exactly on the board and fails with the bounds error elsewhere |
| Board.Force | src/knox/sudoku/Sudoku.java:56-62 | `force` fails exactly off the board; on it, the target cell becomes v (any int, no range check) and every other cell keeps its value |
| Board.GetAfterForce | src/knox/sudoku/Sudoku.java:56-62 | after `force`, `get` reads v at the target and exactly what it read before everywhere else, including the out-of-range failures |
| Board.ForceForce | src/knox/sudoku/Sudoku.java:56-62 | two `force`s on one cell leave only the second value |
| Board.ForceOwnValue | src/knox/sudoku/Sudoku.java:56-62 | forcing a cell's own value back leaves the board unchanged |
| Board.IsBlank | src/knox/sudoku/Sudoku.java:269-271 | `isBlank` fails off the board and on it is true exactly when `get` reads 0 |
| Board.NoBlankFrom | src/knox/sudoku/Sudoku.java:259-266 | the rest of the row-major scan from cell k finds no blank exactly when no cell numbered k or later holds 0 |
| Board.GameOver | src/knox/sudoku/Sudoku.java:258-267 | `gameOver` is true exactly when no cell holds 0, whatever the other values are |
| Board.RowMajorOf | src/knox/sudoku/Sudoku.java:183-187 | cell (i, j) is visited at step i * 9 + j of a row-major loop |
| Board.ColMajorOf | src/knox/sudoku/Sudoku.java:117-118 | cell (i, j) is visited at step j * 9 + i of a column-major loop |
| Board.Get3x3Row | src/knox/sudoku/Sudoku.java:200-202 | on the board, `row / 3` is the band (`Board.Band`) whose three rows hold `row`; for any row, band * 3 is `row - row % 3` under Java's truncating operators |
| JavaInt.Div | src/knox/sudoku/Sudoku.java:201 | Java's `/` rounds toward zero for both signs |
| JavaInt.Rem | src/knox/sudoku/Sudoku.java:73-74 | Java's `%` takes the sign of the dividend |
| JavaInt.DivRemIdentity | src/knox/sudoku/Sudoku.java:73-74 | `(a / n) * n + a % n == a` under Java's operators |
| Legality.CornerIsJava | src/knox/sudoku/Sudoku.java:73-74 | the model's box corner equals Java's `x - x % 3` |
| Legality.PeerSymmetric | src/knox/sudoku/Sudoku.java:64-81 | the peer relation is symmetric, and every cell is its own peer |
| Legality.LegalScanIsPeers | src/knox/sudoku/Sudoku.java:66-78 | the cells `isLegal` reads are exactly the peers of the target |
| Legality.BoxCells | src/knox/sudoku/Sudoku.java:75-77 | the box loop visits each cell of the target's 3x3 box exactly once, and no other cell |
| Legality.ViolationCrossCells | src/knox/sudoku/Sudoku.java:91-99 | the cross loop of `getLegalViolations` visits, once each, the row and column cells outside the target's box |
| Legality.ViolationScanIsPeers | src/knox/sudoku/Sudoku.java:91-108 | the cells `getLegalViolations` inspects are exactly the peers of the target, each once |
| Legality.Walk | src/knox/sudoku/Sudoku.java:66-78 | the early-exit scan over in-range cells answers whether no visited cell holds v |
| Legality.IsLegal | src/knox/sudoku/Sudoku.java:64-81 | `isLegal` is true exactly when no peer cell (the target included) holds v |
| Legality.OffBoardWalk | src/knox/sudoku/Sudoku.java:66-67 | off the board, the scan of `isLegal` ends at one of its first two reads, `board[row][0]` and then `board[0][col]`, whatever reads follow them |
| Legality.IsLegalChecked | src/knox/sudoku/Sudoku.java:64-81 | on the board it agrees with `IsLegal`; a row off the board throws; a column off the board returns false when `board[row][0]` holds v and throws otherwise |
| Legality.Hits | src/knox/sudoku/Sudoku.java:93-105 | the squares reported from a scan are exactly its cells holding v, tagged with v, and a scan that visits no cell twice reports no cell twice |
| Legality.Violations | src/knox/sudoku/Sudoku.java:85-110 | `getLegalViolations` reports (i, j, v) exactly for the peer cells holding v (sound and complete), and no position twice |
| Legality.LegalIffNoViolations | src/knox/sudoku/Sudoku.java:64-110 | `isLegal` holds exactly when `getLegalViolations` is empty |
| Legality.TargetReportsItself | src/knox/sudoku/Sudoku.java:102-108 | the target is not skipped: it reports itself for its own value, and `isLegal` refuses that value |
| Candidates.RemoveSeenKeeps | src/knox/sudoku/Sudoku.java:156-173 | a value survives the `remove` calls exactly when it was in the start set and no visited cell holds it |
| Candidates.LegalValues | src/knox/sudoku/Sudoku.java:150-175 | `getLegalValues` is a subset of 1..9 |
| Candidates.LegalValuesAreLegal | src/knox/sudoku/Sudoku.java:150-175 | v is among the candidates exactly when v is in 1..9 and `isLegal(row, col, v)` |
| Candidates.OwnValueNotCandidate | src/knox/sudoku/Sudoku.java:159-173 | a filled cell's own digit is never among its candidates |
| Candidates.EmptyBoardAllCandidates | src/knox/sudoku/Sudoku.java:156 | on the empty board every cell's candidates are all of 1..9 |
| Candidates.Count | src/knox/sudoku/Sudoku.java:120 | a candidate count lies in 0..9 |
| Candidates.LeastFrom | src/knox/sudoku/Sudoku.java:121-126 | the hint loop ends with a minimum under every weight seen, and a list, in scan order, of exactly the cells at that minimum |
| Candidates.MostConstrainedSquares | src/knox/sudoku/Sudoku.java:114-131 | the hints are empty cells recorded with value 0, all with one candidate count that no empty cell undercuts; every empty cell with that count is listed, in column-major order; and the list is empty exactly when `gameOver` holds |
| Candidates.SquareAt | src/knox/sudoku/Sudoku.java:139 | the square recorded for scan step k is cell k in column-major order with its current value |
| Candidates.PositionAt | src/knox/sudoku/Sudoku.java:138-139 | one step of the swap scan adds exactly the square of cell k when v is among its candidates |
| Candidates.PositionsFrom | src/knox/sudoku/Sudoku.java:136-141 | the swap scan from step k on collects exactly the legal positions numbered k or later |
| Candidates.AllLegalPositions | src/knox/sudoku/Sudoku.java:134-148 | `getAllLegalPositions(v)` holds (r, c, board[r][c]) exactly for the cells, filled or empty, whose candidates include v |
| Candidates.AllLegalPositionsAreLegal | src/knox/sudoku/Sudoku.java:134-148 | the positions of v are exactly the cells where `isLegal` accepts v, and there are none when v is outside 1..9 |
| Moves.Set | src/knox/sudoku/Sudoku.java:39-53 | a value outside 0..9 is refused first, then an off-board cell; on the board the returned collection is `getLegalViolations`, and the board takes v exactly when `isLegal` holds, otherwise it stays as it was |
| Moves.SetAllOrNothing | src/knox/sudoku/Sudoku.java:44-52 | an empty report means the cell now holds v; a non-empty one means the board is unchanged; other cells never change |
| Moves.SetPreservesConsistent | src/knox/sudoku/Sudoku.java:39-53 | `set` keeps a board on which no filled cell shares its value with a peer in that state |
| Moves.SetOwnValueRefused | src/knox/sudoku/Sudoku.java:41-52 | setting a cell to its current value (0 on a blank cell included) is refused, and the cell is among the violations |
| Moves.SwapPreview | src/knox/sudoku/SudokuGUI.java:391-401 | the lift-query-restore sequence fails only off the board and leaves the board as it was; the highlighted squares are the legal positions of the lifted value on the board with that cell emptied |
| Moves.SwapIncludesOwnCell | src/knox/sudoku/SudokuGUI.java:391-401 | the dragged cell is its own target, recorded as empty, exactly when its value is a digit no other peer holds |
| Moves.ClearedLegal | src/knox/sudoku/SudokuGUI.java:391-395 | with the cell emptied, its value is legal there exactly when no other peer holds it |
| Moves.SwapTargetsAreLegal | src/knox/sudoku/SudokuGUI.java:391-401 | every highlighted square is on the board, carries the cleared board's value, and accepts the dragged digit |
| SudokuSquare.Blank | src/knox/sudoku/SudokuSquare.java:15 | the no-argument constructor leaves row, col and value at 0 |
| SudokuSquare.Equals | src/knox/sudoku/SudokuSquare.java:22-27 | `equals` is true exactly for a square with the same three fields, and false for any other object |
| SudokuSquare.EqualsIsEquivalence | src/knox/sudoku/SudokuSquare.java:26 | `equals` is reflexive and symmetric |
| SudokuSquare.ToString | src/knox/sudoku/SudokuSquare.java:18-20 | the text "[r=R, c=C, v=V]" of a square parses back to the same square |
| SudokuSquare.ToStringInjective | src/knox/sudoku/SudokuSquare.java:18-20 | different squares have different texts |
| Decimal.IntToStringRoundTrip | src/knox/sudoku/Sudoku.java:232 | the decimal text that `val + " "` writes reads back as the same integer |
| Decimal.IntToStringInjective | src/knox/sudoku/Sudoku.java:232 | different integers are written differently |
| Scanner.Words | src/knox/sudoku/Sudoku.java:185 | the tokens `nextInt` reads are non-empty and hold no whitespace |
| Scanner.NextInt | src/knox/sudoku/Sudoku.java:185 | `nextInt` accepts a token exactly when it is a signed decimal within the `int` range, and yields its value |
| Scanner.NextIntRoundTrip | src/knox/sudoku/Sudoku.java:185 | the written text of an `int` is read back by `nextInt` as the same value |
| Persistence.Render | src/knox/sudoku/Sudoku.java:207-221 | the `toString` text holds exactly 81 tokens; token n is `_` when cell n in row-major order holds 0 and that cell's number otherwise |
| Persistence.SaveString | src/knox/sudoku/Sudoku.java:224-238 | the save text holds exactly 81 tokens, token n being the number in cell n in row-major order, 0 included |
| Persistence.RenderIsSaveStringWithBlanks | src/knox/sudoku/Sudoku.java:207-238 | replacing every `_` of the `toString` text by `0` gives exactly the save text |
| Persistence.ReadCount | src/knox/sudoku/Sudoku.java:183-187 | the read loop stores the cells up to the 81st, the first missing token or the first token that is not an `int`, whichever comes first |
| Persistence.LoadFrom | src/knox/sudoku/Sudoku.java:183-187 | each cell the loop reached holds its token's value, every other cell keeps its old value, and the outcome names the exception that stopped the loop, if any |
| Persistence.LoadCells | src/knox/sudoku/Sudoku.java:183-187 | after the read loop over a token list, cell (i, j) holds token i * 9 + j if the loop got that far, and its old value otherwise |
| Persistence.Load | src/knox/sudoku/Sudoku.java:179-192 | `load` of a text stores token i * 9 + j in cell (i, j) for every cell the loop reached, keeps the old value elsewhere, and reports no error after 81 cells, a missing token when the text ran out, and otherwise the first token that is not an `int` |
| Persistence.SaveLoadRoundTrip | src/knox/sudoku/Sudoku.java:183-187 | loading the save text of any board restores that board, whatever the board held before, with no exception |

## Left out

- The graphical interface in `SudokuGUI.java`: widgets, menus, timers,
  colours and painting. Only the swap preview's model calls are kept
  (`Moves.SwapPreview`). The button highlighting and the drag gesture
  around it are not modelled.
- File I/O in `load`: opening the file, `FileNotFoundException`, and the
  wrapping of `IOException` in a `RuntimeException`. `Persistence.Load`
  takes the file's text as a parameter.
- The console loop in `main` (standard input and output).
- Exception messages. Each failure is modelled by its kind only: a bounds
  error, an illegal value, a missing token or a bad token.
- `SudokuSquare.hashCode` is not overridden, so the `HashSet` in
  `getAllLegalPositions` keys on object identity. Each cell is added at
  most once, so the set holds the same squares as the model's value set.
- Scanner: locale-dependent number forms (group separators, non-ASCII
  digits) and Unicode whitespace beyond the ASCII separators are not
  modelled. Tokens are plain optionally signed decimal numbers.
- Legality.Violations: requires an on-board cell. Java throws for any
  off-board cell there, because the first pass of the cross loop indexes
  `board[row][0]` and then `board[0][col]`. `Moves.Set` models that throw
  as a bounds error.
- Candidates.LegalValues: requires an on-board cell for the same reason.
  `getLegalValues` reads `board[row][0]` and `board[0][col]` in its first
  pass.
- Legality.IsLegal: requires an on-board cell. The off-board behaviour,
  including the `||` short-circuit, is stated by `Legality.IsLegalChecked`.
- The order in which `getLegalViolations` lists the squares is computed
  by the model but not stated as a property; the contract states contents
  and distinctness.
- Persistence.SaveString: states the save text through its tokens. It
  does not give the character layout (a space after each cell, a newline
  after each row) as a separate property; `Persistence.RowsText` defines
  that layout.
