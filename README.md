# eq-solver in Dafny

eq-solver is a terminal program for solving a system of `n` linear equations in `n`
unknowns. The user types the size `n`. They then fill in a grid of `n` rows of
`n + 1` cells: the coefficients and the constant of each equation. Enter solves the
system by Gauss-Jordan elimination and prints one line per variable.

This project models four parts of the program and proves what they do:

- **The elimination engine** (`src/matrix.rs`). It is module `Elimination`.
  - Class `Matrix` holds the rows and the `u8` order, and performs the two row operations and `solve_equation` in place.
  - Each method is proved to leave exactly what a function on plain sequences describes. For example, `SolveEquation` leaves `Solved(old(values), cols)`.
  - Lemmas about those functions prove two things, provided the program never divides by a zero pivot:
    - the coefficient block becomes the identity;
    - every step keeps the solutions of the system.
  - Together these show that the last column is the one and only solution of the original system.
- **The editor state** (`src/app.rs`). It is class `Editor.App`.
  - It has the same three fields as the source: the size text, the cell texts, and what is being edited.
  - `toggle_editing` uses the `i8` cursor arithmetic, with Rust's truncating `/` and `%`. The lemmas show that Tab visits every cell once and then comes back to the first.
  - `print_result` is modelled down to the reshape of the cells into rows and the names of the variables.
- **The key dispatch** of the event loop (`src/main.rs`). It is `Editor.App.HandleKey`, with the pure parts in module `Keys`:
  - which arm a key reaches;
  - which characters each field accepts;
  - the four arrow keys.
- **The integer parsing** the program applies to the size text. It is module `Numerics`, and covers the `i8`, `u8` and `usize` readings of `str::parse`.

Some of the proved behaviour is surprising. Each item below is proved, in a lemma or in a function's contract:

- The size field accepts letters. The filter only rejects `.` and `-` there (`Keys.Accepts`).
- `h`, `l`, `k`, `j` and `q` are commands, so they can never be typed (`Keys.Classify`).
- Left from column 0 goes to column -1 of the same row, not to the row above (`Keys.LeftInGrid`). Up from row 0 goes to row -1 (`Keys.UpFromTopRow`).
- Right from the last cell goes to row `n`, which is past the grid (`Keys.RightInGrid`). Once the cursor is off the cells this way, or above row 0, the next Backspace or typed digit indexes the cells out of bounds and the program panics (`Editor.OffGridEditUnsafe`).
- The cell index is computed in `i8`. It overflows for the last cells of any grid of 11 rows or more (`Keys.LargeGridIndexOverflows`).
- Committing a different size clears every cell (`Editor.ResizeClears`).
- On a fresh application, Tab, BackTab and Enter panic. `toggle_editing` reads the size as an `i8` before it checks the mode, and the empty text does not parse (`Editor.EmptySizeCannotToggle`).

These are what the program does as written, and the model keeps them.

## Model

| member | source | states |
|---|---|---|
| Numerics.TDiv | src/main.rs:76 | Rust's signed `/` rounds toward zero: `abs(b) * abs(q) <= abs(a) < abs(b) * abs(q) + abs(b)`, and a non-zero quotient is negative exactly when the signs of the operands differ |
| Numerics.TRem | src/main.rs:75 | Rust's signed `%`: `a == b * (a / b) + r`, `abs(r) < abs(b)`, and a non-zero remainder has the sign of the dividend |
| Numerics.ParseInt | src/app.rs:27 | `str::parse` for an integer type: a text parses only if it is an optional `+` (or `-` for a signed type) followed by one or more digits; such a text parses exactly when its value fits the type, and then to that value; a negative result needs a signed type and a leading `-` |
| Numerics.ParseExamples | src/app.rs:27 | `"+5"` and `"-5"` parse as `i8`; `"-5"` does not parse as `u8`; the empty text, a lone `+`, `"128"` as `i8` and `"1a"` are errors |
| Numerics.ParseAgrees | src/app.rs:27-31 | a size text that parses as `i8` and as `usize` or `u8` is non-negative, and all three readings give the same number |
| Keys.Classify | src/main.rs:56-137 | a key reaches the typing arm exactly when it is a character other than `h`, `l`, `k`, `j`, `q`, and that arm receives the character |
| Keys.CommandLetters | src/main.rs:71-113 | `h`, `l`, `k`, `j`, `q` act exactly like Left, Right, Up, Down and Esc |
| Keys.Accepts | src/main.rs:122-124 | digits are always accepted; on the size field every character except `.` and `-` is accepted; in a cell only digits, `.` and `-` are accepted |
| Keys.FlatInjective | src/main.rs:68 | distinct cells of the grid have distinct indices `y * (n + 1) + x` |
| Keys.CursorLeft | src/main.rs:71-80 | Left moves the index back by one unless `x <= 0` and `y <= 0`, where it stays (the origin, or a cursor Up moved above row 0); an `i8` cursor stays `i8` |
| Keys.CursorRight | src/main.rs:81-90 | Right moves the index forward by one unless the cursor is past the last column and the last row, where it stays; an `i8` cursor stays `i8` |
| Keys.CursorUp | src/main.rs:91-100 | Up keeps the column; when `y < n` it moves up one row, with no lower bound; otherwise the row is unchanged |
| Keys.CursorDown | src/main.rs:101-110 | Down keeps the column and moves down one row, stopping at row `n - 1`; at or past row `n` the cursor stays |
| Keys.LeftInGrid | src/main.rs:71-80 | inside the grid Left moves one column left; from column 0 it gives column -1 of the same row, which has the index of the last cell of the row above; at the first cell it does nothing |
| Keys.RightInGrid | src/main.rs:81-90 | inside the grid Right moves one column right, and from the last column to the start of the next row; from the last cell that is row `n`, whose index equals the number of cells |
| Keys.UpFromTopRow | src/main.rs:91-100 | Up from row 0 gives row -1, whose index is negative |
| Keys.MovesSafeInGrid | src/main.rs:71-100 | in a grid of at most 126 rows, no arrow key overflows `i8` or divides by zero |
| Keys.SmallGridIndexSafe | src/main.rs:68 | in a grid of at most 10 rows, the `i8` cell index does not overflow and falls inside the cells |
| Keys.LargeGridIndexOverflows | src/main.rs:68 | from 11 rows on, the `i8` index of the last cell overflows |
| Editor.Advance | src/app.rs:39-43 | the forward step keeps an `i8` cursor within `i8` |
| Editor.AdvanceStep | src/app.rs:39-43 | from a cell of a grid of at most 126 rows, the forward step does not overflow and lands on a cell: the next in reading order, or `(0, 0)` after the last cell |
| Editor.LastCell | src/app.rs:39-43 | a cell is followed by the end of the grid exactly when it is the last cell `(n, n - 1)` |
| Editor.AdvanceTimes | src/app.rs:39-43 | after `k` forward steps from `(0, 0)` the cursor is on the cell whose index is `k`, and after `n * (n + 1)` steps it is back at `(0, 0)` |
| Editor.AdvanceCycle | src/app.rs:39-43 | Tab comes back to the first cell after `n * (n + 1)` steps and not before |
| Editor.Retreat | src/app.rs:46-53 | the backward step returns to the size field exactly from `(0, 0)`; otherwise it gives an `i8` cursor |
| Editor.RetreatStep | src/app.rs:44-53 | from a cell other than the first, the backward step does not overflow and moves the index back by one: one column to the left, or from column 0 to column -1 of the same row |
| Editor.Resized | src/app.rs:32-34 | after committing size `n` there are `n * (n + 1)` cells; they are the old cells when the count already matched, and otherwise all empty |
| Editor.CellCountInjective | src/app.rs:32 | a larger size has more cells |
| Editor.ResizeClears | src/app.rs:32-34 | committing a size other than the one the cells were laid out for empties every cell |
| Editor.CommittedSizePrintable | src/app.rs:66 | once a size is committed, the `u8` size read by `print_result` equals it, and there are enough cells for its rows |
| Editor.PopLast | src/main.rs:65 | `String::pop` removes the last character, and leaves an empty text unchanged |
| Editor.PopUndoesPush | src/main.rs:63-70 | Backspace undoes the typing of a character |
| Editor.Cells | src/app.rs:60-64 | each cell becomes the number it parses to, or `1.0` when it does not parse |
| Editor.Chunks | src/app.rs:67-69 | the reshape gives exactly `count` rows of at most `w` values, the first of which is the first `w` values |
| Editor.ChunkRow | src/app.rs:67-69 | row `i` of the reshape is the `w` values starting at `i * w` |
| Editor.Grid | src/app.rs:67-69 | the system read from the cells has `n` rows of at most `n + 1` numbers |
| Editor.GridShape | src/app.rs:67-69 | with enough cells, the reshape gives `n` rows of `n + 1` numbers |
| Editor.GridCells | src/app.rs:59-69 | entry `(i, j)` of the system is the cell with index `i * (n + 1) + j` read as a number, or `1.0` when it does not parse |
| Editor.VarName | src/app.rs:72-85 | the name of variable `i` is a lower-case letter exactly when `i <= 25` |
| Editor.VarNamesDistinct | src/app.rs:72-85 | no two variables up to 120 share a name |
| Editor.NameValues | src/app.rs:72-85 | the two printing loops give, for each row `i`, the name of variable `i` and the last entry of row `i` |
| Editor.SolveRows | src/app.rs:70-85 | the printed values solve the system, and no other vector does |
| Editor.CurrentlyEditing | src/app.rs:5-9 | the size field, or the cell in column `x` of row `y` |
| Elimination.RowOperation | src/matrix.rs:2-5 | a row scaled by a factor, or a row less a multiple of another |
| Editor.App.constructor | src/app.rs:18-24 | a new application has an empty size text, one empty cell, and is editing the size |
| Editor.App.KeySize | src/main.rs:51 | the size the key loop uses is the `i8` reading of the size text, or 0 when it does not parse |
| Editor.EmptySizeCannotToggle | src/app.rs:27 | on a fresh application, Tab, BackTab and Enter panic: the empty size text does not parse as `i8` |
| Editor.OffGridEditUnsafe | src/main.rs:63-70 | with the cursor's index outside the cells, Backspace and a typed digit index the cells out of bounds |
| Editor.App.ToggleEditing | src/app.rs:26-57 | Tab on the size field commits it and resizes the cells; Tab in a cell takes the forward step; BackTab takes the backward step, or returns to the size field from `(0, 0)`; the state invariant is kept |
| Editor.App.CommitSize | src/app.rs:29-36 | the cells are laid out for the committed size, and editing starts at cell `(0, 0)` |
| Editor.App.HandleKey | src/main.rs:51-137 | a release changes nothing; Enter in a cell or Esc ends the loop and changes nothing; every other arm has the effect its helper states; the state invariant is kept |
| Editor.App.EraseChar | src/main.rs:63-70 | Backspace drops the last character of the size text or of the edited cell, and nothing else changes |
| Editor.App.TypeChar | src/main.rs:121-135 | an accepted character is appended to the size text or to the edited cell, and nothing else changes |
| Editor.App.MoveCursor | src/main.rs:71-110 | an arrow key moves the cursor as its cursor function says; on the size field it does nothing; the texts never change |
| Editor.App.PrintResult | src/app.rs:59-87 | there is one line per variable, named in order; the values solve the system read from the cells, and no other vector does |
| Elimination.Matrix.New | src/matrix.rs:14-19 | `vars` rows of `vars + 1` zeros, with order `[vars, vars + 1]` |
| Elimination.Matrix.WithValues | src/matrix.rs:21-27 | keeps the rows; the order is the row count and the first row's length, each taken modulo 256 |
| Elimination.Matrix.ApplyRowOperation | src/matrix.rs:29-34 | the matrix becomes the result of the operation; the order is unchanged |
| Elimination.Matrix.ScaleRow | src/matrix.rs:36-41 | every entry of the row is multiplied by the factor, and the other rows are unchanged |
| Elimination.Matrix.AddRows | src/matrix.rs:43-48 | the first `order[1]` entries of row `alter` lose `scale` times row `with`, and the other rows are unchanged |
| Elimination.Matrix.ClearBelow | src/matrix.rs:60-68 | each row below `i` loses its column-`i` entry times row `i` |
| Elimination.Matrix.ClearAbove | src/matrix.rs:88-96 | each row above `i` loses its column-`i` entry times row `i` |
| Elimination.Matrix.ForwardPass | src/matrix.rs:51-77 | leaves the forward steps for every pivot but the last, followed by the normalisation of the last row |
| Elimination.Matrix.BackPass | src/matrix.rs:80-97 | leaves the back-substitution steps from the last row up to row 1 |
| Elimination.Matrix.SolveEquation | src/matrix.rs:50-98 | leaves the identity block followed by a column `c`; for an augmented system `c` solves the original system, and no other vector does |
| Elimination.ScaleUndone | src/matrix.rs:36-41 | scaling a row by `f != 0` and then by `1 / f` restores the matrix |
| Elimination.AddUndone | src/matrix.rs:43-48 | adding `-s` times a row after subtracting `s` times it restores the matrix |
| Elimination.CombineOneMore | src/matrix.rs:44-47 | one more iteration of the loop in `add_rows` extends the combined prefix by one entry |
| Elimination.EliminateOneMoreBelow | src/matrix.rs:60-68 | one more iteration of the forward inner loop extends the cleared range by one row |
| Elimination.EliminateOneMoreAbove | src/matrix.rs:88-96 | one more iteration of the backward inner loop extends the cleared range by one row |
| Elimination.ForwardStepEchelon | src/matrix.rs:51-70 | one forward step makes the pivot 1 and the entries below it 0, and keeps the columns already done |
| Elimination.ForwardEchelon | src/matrix.rs:51-70 | with non-zero pivots, after the forward steps for pivots `0 .. i-1` those columns are unit columns on and below the diagonal |
| Elimination.NormalisedEchelon | src/matrix.rs:51-77 | after the forward pass and the last normalisation, the diagonal is all 1 and everything below it is 0 |
| Elimination.BackRescaleIsNoOp | src/matrix.rs:80-86 | the normalisation at the top of each back-substitution step divides by 1, so it changes nothing |
| Elimination.BackStepReduces | src/matrix.rs:80-97 | one back-substitution step clears column `k` above the diagonal; every other coefficient, in every row, is unchanged |
| Elimination.BackReduces | src/matrix.rs:80-97 | after back substitution down to row `i`, the columns from `i` on are 0 above the diagonal |
| Elimination.SolvedIsIdentity | src/matrix.rs:50-98 | with non-zero pivots, elimination turns the coefficient block into the identity |
| Elimination.HoldsUpToEach | src/matrix.rs:50-98 | checking the equations one after another is the same as checking each of them |
| Elimination.ScaledRowKeepsSolutions | src/matrix.rs:36-41 | scaling an equation by a non-zero factor keeps the solutions |
| Elimination.EliminatedResiduals | src/matrix.rs:60-68 | after elimination, each equation is off by its old amount less its multiplier times the amount equation `k` is off |
| Elimination.EliminateKeepsSolutions | src/matrix.rs:60-68 | subtracting multiples of equation `k` from the other equations keeps the solutions |
| Elimination.ForwardStepKeepsSolutions | src/matrix.rs:51-70 | one forward step with a non-zero pivot keeps the solutions |
| Elimination.ForwardKeepsSolutions | src/matrix.rs:51-70 | the forward steps keep the solutions |
| Elimination.BackStepKeepsSolutions | src/matrix.rs:80-97 | one back-substitution step with pivot 1 keeps the solutions |
| Elimination.BackKeepsSolutions | src/matrix.rs:80-97 | back substitution keeps the solutions |
| Elimination.NormalisedKeepsSolutions | src/matrix.rs:51-77 | the forward pass and the last normalisation keep the solutions |
| Elimination.SolvedKeepsSolutions | src/matrix.rs:50-98 | the whole elimination keeps the solutions |
| Elimination.IdentitySolution | src/matrix.rs:80-97 | a system whose coefficient block is the identity, with constants `c`, is solved by `x` exactly when `x == c` |
| Elimination.SolveFindsTheSolution | src/matrix.rs:50-98 | a vector solves the original system exactly when it is the last column of the solved matrix |
| Elimination.SolutionSatisfies | src/matrix.rs:50-98 | the last column of the solved matrix solves the original system |
| Elimination.SolvedProperties | src/matrix.rs:50-98 | the solved matrix has the identity block, and its last column is the one and only solution |

## Left out

- The terminal user interface is not modelled. This covers `src/ui`, drawing, raw mode and the alternate screen, because it is output only. `event::read` is not modelled either: `HandleKey` takes one key code and its release flag as parameters.
- Printing is not modelled, because it is output only:
  - the `print!` of the cursor in the backward toggle (`src/app.rs:45`) is left out;
  - the `println!` lines of `print_result` are returned as `(name, value)` pairs, and float formatting is left out.
- Elimination.Matrix.SolveEquation: it requires non-zero pivots.
  - The program divides by every pivot and carries on with the infinities and NaNs this produces.
  - Those values cannot be expressed with exact reals, so the model does not cover singular systems, or systems that need a row exchange.
  - The same applies to `Editor.App.PrintResult` and `Editor.SolveRows`.
- Elimination.Matrix.ScaleRow: `f32` is modelled as exact reals, so rounding is not modelled. Every arithmetic property holds for exact values only. The same applies to `AddRows` and the rest of `Elimination`.
- Editor.App.PrintResult: `parse::<f32>` is a parameter. Rust's float grammar is not modelled.
- Editor.App.PrintResult: it requires at least `n * (n + 1)` cells.
  - `Editor.CommittedSizePrintable` shows the editor always provides them when Enter ends editing.
  - With fewer cells the program would build short rows; that case is not modelled.
- Editor.App.PrintResult: it requires `1 <= n <= 121`.
  - The program panics for 0 rows: `values[0]` does not exist, and `order[0] - 1` underflows.
  - Past 121 rows the `u8` name `'x' - i + 2` underflows.
  - These panics are modelled as preconditions, not as error values.
- Numerics.ParseInt: it models `str::parse` for integers as the decimal grammar only: an optional sign, then ASCII digits.
- Every `unwrap`, every `i8` overflow and every out-of-bounds index that would panic is modelled as a precondition. This covers `ToggleSafe`, `KeySafe`, `CellSafe`, `Applicable` and the `...Safe` predicates. Out-of-bounds indexes include the cell index of Backspace and typing (`src/main.rs:68`, `src/main.rs:131`) once the cursor is off the cells; a negative `i8` index cast to `usize` is out of bounds too. Overflow follows the checked arithmetic of a debug build; the silent wrap-around of a release build is not modelled.
- Elimination.Matrix.New: it requires `vars < 255`. At 255, `vars + 1` overflows `u8`.

