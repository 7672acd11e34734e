# Conway's Game of Life on a torus: a Dafny model of `soluautomaatti.py`

`soluautomaatti.py` runs Conway's Game of Life. The `GameBoard` class holds
the board as a two-dimensional array indexed `board[y, x]`, the board it
started from (`initial_board`), and a `history` list with one snapshot per
generation. The board wraps round at every edge, so it is a torus.

- `shift_positions` brings a coordinate into range.
- `get_neighbors` counts the live cells of the 3x3 block around a cell,
  including the cell itself, then takes the cell off if it is alive.
- `update_cell` applies the B3/S23 rule: a dead cell is born with 3
  neighbours, and a live cell survives with 2 or 3.
- `tick` works in three steps:
  - it stores a copy of the board in the history;
  - it fills a temporary board from the old board only;
  - it swaps the temporary board in.
- `save_board` and `read_board` write and read a plain text format: one line
  per row, each cell written as its number followed by a space.

The project has four modules.

- `Torus` (`torus.dfy`) is the mathematical core, on boards held as
  sequences of rows.
  - `Wrap` is the coordinate wrapping of `shift_positions`, and
    `WrapIsMod` shows that it is the remainder modulo the dimension.
  - `Neighbors` counts exactly as the loops do, including the
    multiplicity on boards narrower than three cells.
  - `NextCell` is the cell rule, `Step` one generation and `Gen` generation k.
  - Two reference definitions support the proofs. `MooreCount` sums the
    eight `%`-reduced neighbours. `Tile` places nine copies of the board
    side by side, and `DirectCount` reads the eight real neighbours in that
    tiling.
  - `Translate` moves the board round the torus, which shows that every
    position is treated alike.
- `Life` (`life.dfy`) is the `GameBoard` class itself.
  - The live board is an `array2<int>`.
  - The methods mirror the source's loops, and each is proved against the
    `Torus` functions. The inner loop of `get_neighbors` is the method
    `CountColumn`, and the inner loop of `tick` is `UpdateRow`, so that
    each loop is proved on its own.
  - The class invariant `Valid()` says that the board is non-empty, that
    history entry i is generation i of the initial board, and that the live
    board is the next generation (`IsRun`).
- `BoardFile` (`boardfile.dfy`) is the string half of `save_board` and
  `read_board`.
  - It covers `str`, `int()`, `readlines` and `str.split()` on whitespace.
  - It proves that what is saved reads back as the same board.
- `Patterns` (`patterns.dfy`) covers small boards where the 3x3 window meets
  itself.

Boards supplied to the class must have at least one row and one column and
hold 0/1 cells. The source does not check this, so the model states it as a
precondition rather than as an error path. Three behaviours of the code are
worth noting, and the model follows the code in each:

- **The 3x3 blinker.** A horizontal line of three live cells is the usual
  period-2 blinker: on an unbounded board it turns into a vertical line and
  back. On a 3x3 torus it does not. The window around every cell is the whole
  board, so every dead cell sees all three live cells and is born, and every
  live cell sees two and survives. The board becomes all alive, and the tick
  after that leaves it empty (`Patterns.Blinker3DiesOut`). The model proves
  nothing about the blinker on other board sizes.
- **Tokens.** The docstring of `read_board` (soluautomaatti.py:310-313)
  describes a file of 0's and 1's. The code converts each token with `int()`
  (soluautomaatti.py:344), so it accepts any integer token, for example `2`
  or `-7`. It fails only on tokens `int()` refuses, or on rows of different
  lengths, which `np.array` refuses.
- **Board size.** The `size` argument is ignored whenever a board is
  supplied. No board's dimensions are ever validated.

## Model

| member | source | states |
|---|---|---|
| Torus.Wrap | soluautomaatti.py:51-62 | The wrapped coordinate lies in [0, n). An in-range coordinate is left as it is. |
| Torus.WrapIsMod | soluautomaatti.py:51-62 | Adding n while negative and subtracting n while at least n ends at the mathematical remainder v mod n. |
| Torus.Neighbors | soluautomaatti.py:139-162 | The count get_neighbors computes: the live cells among the nine wrapped positions of the 3x3 block around (x, y), counted with multiplicity, less one when (x, y) itself is alive. Its contract is carried by NeighborsInRange, NeighborsIsMoore and NeighborsMatchTiled below. |
| Torus.NeighborsInRange | soluautomaatti.py:139-162 | The neighbour count, nine wrapped cells less the live centre, lies in 0..8. |
| Torus.NeighborsIsMoore | soluautomaatti.py:144-160 | The count equals the sum over the eight offsets (dx, dy) != (0, 0) of the live cells at ((x+dx) mod W, (y+dy) mod H), with multiplicity. |
| Torus.NeighborsMatchTiled | soluautomaatti.py:144-160 | Counting with wrap-around equals reading the eight real neighbours of the same cell in the centre copy of a 3x3 tiling of the board. This holds at corners and edges too. |
| Torus.NextCell | soluautomaatti.py:164-205 | A cell holding 0 becomes 1 iff it has exactly 3 neighbours, and otherwise keeps its value. Any other cell becomes 0 iff it has fewer than 2 or more than 3 neighbours, and otherwise keeps its value. On 0/1 cells the result is the B3/S23 rule. |
| Torus.Step | soluautomaatti.py:207-233 | One generation keeps the dimensions. Every new cell is NextCell of the old board. |
| Torus.Gen | soluautomaatti.py:207-233 | Generation k has the shape of the start board. |
| Torus.GenBinary | soluautomaatti.py:164-205 | Every generation of a 0/1 board holds 0/1 cells only. |
| Torus.NeighborsTranslate | soluautomaatti.py:144-162 | A cell of the board moved by (dx, dy) round the torus has as many neighbours as the cell it came from. |
| Torus.NeighborsAtSource | soluautomaatti.py:144-162 | Cell (c, r) of the moved board has as many neighbours as the cell it came from, ((c - dx) mod W, (r - dy) mod H). |
| Torus.NextCellTranslate | soluautomaatti.py:164-205 | Cell (c, r) of the moved board takes the next value of the cell it came from. |
| Torus.StepTranslate | soluautomaatti.py:207-233 | Moving the board round the torus and taking a generation commute. |
| Torus.GenTranslate | soluautomaatti.py:207-233 | Moving the board and running k generations commute, so a moved pattern evolves as the original does. |
| Torus.NeighborsByIndex | soluautomaatti.py:144-160 | The count equals the eight live cells at the previous and next row and column indices, where index 0 is preceded by the last. |
| Patterns.LoneCellCountsItself | soluautomaatti.py:144-160 | On a 1x1 board a live cell is its own eight neighbours. It counts 8 and dies. |
| Patterns.ThreeByThreeCount | soluautomaatti.py:144-160 | On a 3x3 board every cell counts every live cell but itself. |
| Patterns.Blinker3FillsBoard | soluautomaatti.py:207-233 | On a 3x3 board the horizontal blinker becomes the all-alive board. |
| Patterns.Full3Dies | soluautomaatti.py:207-233 | The all-alive 3x3 board becomes empty. |
| Patterns.Blinker3DiesOut | soluautomaatti.py:207-233 | Two generations after the 3x3 blinker the board is empty. After one generation it is not a vertical line. |
| Life.MakeRandomBoard | soluautomaatti.py:66-98 | The fresh board has size[0] rows and size[1] columns. Cell (r, c) is 1 iff its draw is at most the spawn chance 0.2, and 0 otherwise. |
| Life.HistoryExtends | soluautomaatti.py:216-218 | A history of generations 0..n-1 with generation n as the board becomes, once generation n is appended, a history of generations 0..n with generation n+1 as the board. |
| Life.GameBoard.constructor | soluautomaatti.py:14-32 | A supplied board is kept as the live board, not copied. The initial snapshot is a copy of it, the history is empty, and the invariant holds. |
| Life.GameBoard.Random | soluautomaatti.py:26-32 | The live board is a fresh random board of size[0] rows by size[1] columns, cell by cell as MakeRandomBoard. The snapshot is a copy and the history is empty. |
| Life.GameBoard.GetBoard | soluautomaatti.py:100-106 | Returns the live array, which holds generation \|history\| of the initial board. |
| Life.GameBoard.GetSize | soluautomaatti.py:108-114 | Returns [columns, rows]: the x extent first. |
| Life.GameBoard.GetInitialBoard | soluautomaatti.py:116-122 | Returns the construction snapshot, which is also the first history entry once a tick has run. |
| Life.GameBoard.GetAnimation | soluautomaatti.py:239-245 | Returns the history, whose entry i is generation i of the initial board. |
| Life.GameBoard.ShiftPositions | soluautomaatti.py:34-64 | Terminates. Returns x in [0, columns) and y in [0, rows), each congruent to its input. In-range inputs come back unchanged. |
| Life.GameBoard.CountColumn | soluautomaatti.py:145-155 | The inner loop counts the live cells at the three wrapped positions of column i around row y. |
| Life.GameBoard.GetNeighbors | soluautomaatti.py:124-162 | The loops compute Neighbors of the live board, a count in 0..8. |
| Life.GameBoard.UpdateCell | soluautomaatti.py:164-205 | Returns NextCell of the live board at (x, y) and writes nothing. |
| Life.GameBoard.UpdateRow | soluautomaatti.py:226-230 | Row y of the temporary board is overwritten with NextCell of the live board, and every other row is left alone. |
| Life.GameBoard.NextBoard | soluautomaatti.py:220-233 | The filled temporary board is fresh, has the live board's dimensions, and holds Step of the live board. No cell reads a value written in the same pass. |
| Life.GameBoard.Tick | soluautomaatti.py:207-237 | Appends exactly one history entry, the pre-tick board. The new board is Step of the pre-tick board. Dimensions and the initial snapshot are unchanged, and the invariant is kept. |
| Life.GameBoard.Run | soluautomaatti.py:451-455 | n_steps + 1 ticks grow the history by exactly n_steps + 1 snapshots. Earlier entries and the snapshot are unchanged. |
| BoardFile.IntToString | soluautomaatti.py:378 | str(n) of an integer: a minus sign before the digits of -n when n is negative, otherwise the digits of n. ParseIntOfString proves that int() reads it back as n. |
| BoardFile.ParseInt | soluautomaatti.py:344 | int(token) on a whitespace-free token: an optional + or - sign followed by one or more ASCII digits gives Some of the signed value, anything else gives None, where int() raises ValueError. ParseIntOfString proves it inverts IntToString. |
| BoardFile.Lines | soluautomaatti.py:332 | readlines: the text cut after every newline, each line keeping its newline and a last line possibly without one. LinesConcat, LinesOfLine and LinesOfBoardText state how it splits saved text. |
| BoardFile.Tokens | soluautomaatti.py:340 | str.split() with no separator: the maximal runs of non-whitespace characters, in order. TokensConcat and TokensOfRowText state how it splits a saved row. |
| BoardFile.ParseTokens | soluautomaatti.py:344 | [int(x) for x in split]: the converted tokens in order, or the error for the first token int() rejects. ParseTokensOfStrings and RowRoundTrip read a saved row back. |
| BoardFile.ParseLines | soluautomaatti.py:338-348 | The read_board loop: one row per line, appended in order; the first line with a rejected token is the error. ParseLinesFails and ParseSavedLines state its behaviour. |
| BoardFile.RowText | soluautomaatti.py:373-378 | The text of one row in save_board: str of each cell followed by one space. TokensOfRowText and RowRoundTrip show that it reads back as the row. |
| BoardFile.BoardText | soluautomaatti.py:372-381 | The whole text of save_board: each row's text followed by a newline. SaveBoardText proves the loops build it, and SaveReadRoundTrip that ReadBoardText reads it back as the board. |
| BoardFile.ReadBoardText | soluautomaatti.py:338-353 | read_board on the text: the rows from ParseLines, refused with the inhomogeneous-rows error when their lengths differ, as np.array refuses them. ReadSavedBoard and SaveReadRoundTrip state what it gives on saved text. |
| BoardFile.NatToString | soluautomaatti.py:378 | The decimal digits of n: non-empty, digits only, with value n. The only string starting with 0 is "0", the string for 0. |
| BoardFile.SaveBoardText | soluautomaatti.py:369-381 | The text built by the loops is BoardText of the board: each row's cells each followed by a space, then a newline. |
| BoardFile.ReadBoard | soluautomaatti.py:334-353 | The loop's result is ReadBoardText of the text. The first line holding a token int() rejects is the error, and rows of different lengths are refused. |
| BoardFile.ParseLinesFails | soluautomaatti.py:338-348 | Once a line fails to convert, reading the remaining lines does not change the error. |
| BoardFile.ParseIntOfString | soluautomaatti.py:344 | int(str(n)) == n for every integer n. |
| BoardFile.TokensOfRowText | soluautomaatti.py:373-378 | Splitting a saved row on whitespace gives the str of each cell, in order. |
| BoardFile.RowRoundTrip | soluautomaatti.py:338-348 | A saved row, read back as one line with its newline, converts to the same row. |
| BoardFile.LinesOfBoardText | soluautomaatti.py:380-381 | The lines of a saved board are the lines of all rows but the last, followed by the last row's line. |
| BoardFile.ParseSavedLines | soluautomaatti.py:338-348 | Every row written is read back, in order, from the lines of the text. |
| BoardFile.ReadSavedBoard | soluautomaatti.py:353-359 | Reading back saved text gives the same rows if they are all the same length, and the inhomogeneous-rows error otherwise. |
| BoardFile.SaveReadRoundTrip | soluautomaatti.py:356-359 | An array board saved and read back is the same board, as the docstring's "format matches that of input" promises. |

## Left out

- Life.GameBoard.constructor: requires at least one row, at least one column and 0/1 cells. The source accepts any array without checking. With zero rows `get_size` fails when it indexes row 0. With zero columns `get_size` returns `[0, rows]` and `tick` runs with an empty inner loop; such boards are not modelled.
- Life.GameBoard.Random: requires both entries of `size` to be at least 1. With `size[0] == 0` the board has no rows and `get_size` fails. With `size[1] == 0` the board has rows but no columns, which behaves as described for the constructor and is not modelled.
- Life.GameBoard.ShiftPositions: requires both dimensions to be at least 1. With zero columns the source's `while x >= x_len: x -= x_len` (soluautomaatti.py:55-56) never ends, and `while x < 0: x += x_len` never ends either. `tick` never reaches these loops on such a board, because its x loop is empty, but a direct `get_neighbors` call does. The model does not capture this non-termination.
- Life.MakeRandomBoard: the RNG and floating-point draws are replaced by the draws as a parameter, one real per cell in loop order.
- BoardFile.ParseInt: `int()` also accepts underscores between digits and non-ASCII decimal digits. Neither is modelled. A token holds no whitespace, so the whitespace `int()` strips never arises.
- BoardFile.Lines: text-mode `open` translates `\r\n` and a lone `\r` to `\n` before `readlines`. The model cuts lines at `\n` only.
- BoardFile.ReadBoardText: treats rows of different lengths as an error, as current numpy does. Older numpy versions built an object array instead.
- File opening, writing and closing in `read_board` and `save_board` are left out as file I/O. Only the conversion between text and rows is modelled.
- Random boards hold the floats 0.0 and 1.0 from `np.zeros`. The model uses the integers 0 and 1, which compare and print as `int()` makes them.
- `copy.copy` of a numpy array is modelled as a fresh snapshot. The history and initial snapshot are sequence values that later ticks cannot change.
- `draw` and `animate` are left out: plotting, GIF encoding and the start-delay frames.
- `print_progress` is left out: floating-point percentages and console output.
- `main` is left out except for its stepping loop (`Life.GameBoard.Run`). Its clock, file names, saving of `initial-board.txt` and animation are not modelled.
- The period-2 blinker on a 5x5 board and the glider moving one cell diagonally every 4 generations are not proved. Evaluating whole literal boards cell by cell is beyond the solver's resource budget.
