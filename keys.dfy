/** The pure parts of the editor's key loop: which arm of the dispatch a key lands
    in, which characters a field accepts, and the `i8` cursor arithmetic of the four
    arrow keys.

    The grid being edited has `n` rows of `n + 1` cells (the coefficients and the
    constant of one equation). A cursor `(x, y)` is column `x` of row `y`, and the
    program addresses the flat list of cells with `y * (n + 1) + x`. */
module Keys {
  import opened Numerics

  /** The key codes the dispatch tells apart; every other code is `Other`. */
  datatype KeyCode =
    | Tab
    | BackTab
    | Backspace
    | Left
    | Right
    | Up
    | Down
    | Esc
    | Enter
    | Char(c: char)
    | Other

  /** The arms of the dispatch. */
  datatype Action =
    | ToggleForward
    | ToggleBackward
    | Erase
    | MoveLeft
    | MoveRight
    | MoveUp
    | MoveDown
    | Quit
    | Submit
    | Type(c: char)
    | Ignore

  /** The letters that the dispatch takes as commands before the typing arm sees them. */
  predicate IsCommandLetter(c: char) {
    c == 'h' || c == 'l' || c == 'k' || c == 'j' || c == 'q'
  }

  /** The arm of `match key.code` that a key lands in. The arms are tried in order, so
      `h`, `l`, `k`, `j` and `q` act like Left, Right, Up, Down and Esc, and every other
      character reaches the typing arm. */
  function Classify(key: KeyCode): (a: Action)
    ensures a.Type? <==> key.Char? && !IsCommandLetter(key.c)
    ensures a.Type? ==> a.c == key.c
  {
    match key
    case Tab => ToggleForward
    case BackTab => ToggleBackward
    case Backspace => Erase
    case Left => MoveLeft
    case Char('h') => MoveLeft
    case Right => MoveRight
    case Char('l') => MoveRight
    case Up => MoveUp
    case Char('k') => MoveUp
    case Down => MoveDown
    case Char('j') => MoveDown
    case Esc => Quit
    case Char('q') => Quit
    case Enter => Submit
    case Char(c) => Type(c)
    case Other => Ignore
  }

  /** The command letters are aliases of the arrow keys and of Esc. */
  lemma CommandLetters()
    ensures Classify(Char('h')) == Classify(Left)
    ensures Classify(Char('l')) == Classify(Right)
    ensures Classify(Char('k')) == Classify(Up)
    ensures Classify(Char('j')) == Classify(Down)
    ensures Classify(Char('q')) == Classify(Esc)
  {
  }

  /** The typing filter: an ASCII digit, or else exactly one of "editing the size"
      and "the character is `.` or `-`". */
  function Accepts(sizeMode: bool, c: char): (ok: bool)
    ensures IsAsciiDigit(c) ==> ok
    ensures sizeMode ==> (ok <==> c != '.' && c != '-')
    ensures !sizeMode ==> (ok <==> IsAsciiDigit(c) || c == '.' || c == '-')
  {
    IsAsciiDigit(c) || (sizeMode != (c == '.' || c == '-'))
  }

  /** The flat position of cell `(x, y)`. */
  function Flat(n: int, x: int, y: int): int {
    y * (n + 1) + x
  }

  /** `(x, y)` is a cell of the grid. */
  predicate InGrid(n: int, x: int, y: int) {
    0 <= x <= n && 0 <= y < n
  }

  /** In the grid, the flat position is a valid index into the `n * (n + 1)` cells. */
  lemma FlatInRange(n: int, x: int, y: int)
    requires InGrid(n, x, y)
    ensures 0 <= Flat(n, x, y) < n * (n + 1)
  {
    assert y * (n + 1) <= (n - 1) * (n + 1);
  }

  /** Distinct cells have distinct flat positions. */
  lemma FlatInjective(n: int, x: int, y: int, x': int, y': int)
    requires InGrid(n, x, y) && InGrid(n, x', y')
    requires Flat(n, x, y) == Flat(n, x', y')
    ensures x == x' && y == y'
  {
    if y != y' {
      var lo, hi := if y < y' then y else y', if y < y' then y' else y;
      RowsApart(n, lo, hi);
      assert false;
    }
  }

  /** A later row starts at least a whole row further on. */
  lemma RowsApart(n: int, lo: int, hi: int)
    requires 0 <= n && lo < hi
    ensures hi * (n + 1) >= lo * (n + 1) + (n + 1)
  {
    var k := hi - lo;
    assert hi * (n + 1) == lo * (n + 1) + k * (n + 1);
    assert (k - 1) * (n + 1) >= 0;
  }

  /** Truncating division moves the flat position by exactly the carry it takes out
      of `x`: re-splitting `x + d` against a row length `n + 1` keeps the flat
      position at `Flat(n, x, y) + d`. */
  lemma Resplit(n: int, x: int, y: int, d: int)
    requires n + 1 != 0
    ensures Flat(n, TRem(x + d, n + 1), y + TDiv(x + d, n + 1)) == Flat(n, x, y) + d
  {
    var q := TDiv(x + d, n + 1);
    var r := TRem(x + d, n + 1);
    assert x + d == (n + 1) * q + r;
    assert (y + q) * (n + 1) == y * (n + 1) + q * (n + 1);
  }

  /** The `i8` index `(y * (n + 1) + x)` of the edited cell is computed without
      overflow. */
  predicate IndexSafe(n: int, x: int, y: int) {
    IsI8(n + 1) && IsI8(y * (n + 1)) && IsI8(Flat(n, x, y))
  }

  /** The Left arm does not overflow or divide by zero. */
  predicate LeftSafe(n: int, x: int, y: int) {
    (x > 0 || y > 0) ==>
      IsI8(x - 1) && IsI8(n + 1) && DivSafe(x - 1, n + 1) && IsI8(y + TDiv(x - 1, n + 1))
  }

  /** Left: when the cursor is anywhere but at or before the origin, it steps back
      one flat position; otherwise it stays. */
  function CursorLeft(n: int, x: int, y: int): (c: (int, int))
    requires LeftSafe(n, x, y)
    ensures !(x > 0 || y > 0) ==> c == (x, y)
    ensures (x > 0 || y > 0) ==> Flat(n, c.0, c.1) == Flat(n, x, y) - 1
    ensures IsI8(x) && IsI8(y) ==> IsI8(c.0) && IsI8(c.1)
  {
    if x > 0 || y > 0 then
      Resplit(n, x, y, -1);
      (TRem(x - 1, n + 1), y + TDiv(x - 1, n + 1))
    else (x, y)
  }

  /** The Right arm does not overflow or divide by zero. */
  predicate RightSafe(n: int, x: int, y: int) {
    IsI8(n + 1) &&
    ((x < n + 1 || y < n) ==>
      IsI8(x + 1) && DivSafe(x + 1, n + 1) && IsI8(y + TDiv(x + 1, n + 1)))
  }

  /** Right: unless the cursor is past both the last column and the last row, it
      steps forward one flat position; otherwise it stays. */
  function CursorRight(n: int, x: int, y: int): (c: (int, int))
    requires RightSafe(n, x, y)
    ensures !(x < n + 1 || y < n) ==> c == (x, y)
    ensures (x < n + 1 || y < n) ==> Flat(n, c.0, c.1) == Flat(n, x, y) + 1
    ensures IsI8(x) && IsI8(y) ==> IsI8(c.0) && IsI8(c.1)
  {
    if x < n + 1 || y < n then
      Resplit(n, x, y, 1);
      (TRem(x + 1, n + 1), y + TDiv(x + 1, n + 1))
    else (x, y)
  }

  /** The Up arm does not overflow. */
  predicate UpSafe(n: int, y: int) {
    y < n ==> IsI8(n - 1) && IsI8(y - 1)
  }

  /** Up: below the last row the clamp `min(n - 1, y - 1)` never bites, so the cursor
      simply moves up a row, with no lower bound; elsewhere it stays. */
  function CursorUp(n: int, x: int, y: int): (c: (int, int))
    requires UpSafe(n, y)
    ensures c.0 == x
    ensures y < n ==> c.1 == y - 1
    ensures y >= n ==> c.1 == y
    ensures IsI8(x) && IsI8(y) ==> IsI8(c.0) && IsI8(c.1)
  {
    if y < n then (x, Min(n - 1, y - 1)) else (x, y)
  }

  /** Down: the cursor moves down a row and stops at row `n - 1`; at or past row `n`
      it stays. */
  function CursorDown(n: int, x: int, y: int): (c: (int, int))
    ensures c.0 == x
    ensures y < n - 1 ==> c.1 == y + 1
    ensures y == n - 1 ==> c.1 == y
    ensures y >= n ==> c.1 == y
    ensures y < n ==> c.1 <= n - 1
    ensures IsI8(n) && IsI8(x) && IsI8(y) ==> IsI8(c.0) && IsI8(c.1)
  {
    if y < n then (x, Min(n - 1, y + 1)) else (x, y)
  }

  function Min(a: int, b: int): int {
    if a <= b then a else b
  }

  /** Inside the grid, Left moves one column to the left, except from column 0,
      where `x` becomes -1 in the same row: an off-grid cursor whose flat position is
      still that of the last cell of the row above. At the first cell it does
      nothing. */
  lemma {:induction false} LeftInGrid(n: int, x: int, y: int)
    requires 1 <= n && InGrid(n, x, y)
    requires LeftSafe(n, x, y)
    ensures x > 0 ==> CursorLeft(n, x, y) == (x - 1, y)
    ensures x == 0 && y > 0 ==> CursorLeft(n, x, y) == (-1, y) && Flat(n, -1, y) == Flat(n, n, y - 1)
    ensures x == 0 && y == 0 ==> CursorLeft(n, x, y) == (0, 0)
  {
    if x > 0 {
      LeftWithinRow(n, x, y);
    } else if y > 0 {
      LeftFromFirstColumn(n, y);
    }
  }

  lemma LeftWithinRow(n: int, x: int, y: int)
    requires 0 < x <= n && LeftSafe(n, x, y)
    ensures CursorLeft(n, x, y) == (x - 1, y)
  {
    TruncatingSmall(x - 1, n + 1);
  }

  lemma LeftFromFirstColumn(n: int, y: int)
    requires 1 <= n && 0 < y && LeftSafe(n, 0, y)
    ensures CursorLeft(n, 0, y) == (-1, y)
  {
    assert TDiv(-1, n + 1) == 0 && TRem(-1, n + 1) == -1;
  }

  /** Inside the grid, Right moves one column to the right, and from the last column
      to the start of the next row. From the last cell that next row is row `n`,
      which is past the grid: its flat position is the number of cells. */
  lemma {:induction false} RightInGrid(n: int, x: int, y: int)
    requires 1 <= n && InGrid(n, x, y)
    requires RightSafe(n, x, y)
    ensures x < n ==> CursorRight(n, x, y) == (x + 1, y)
    ensures x == n ==> CursorRight(n, x, y) == (0, y + 1)
    ensures x == n && y == n - 1 ==> Flat(n, 0, y + 1) == n * (n + 1)
  {
    if x < n {
      TruncatingSmall(x + 1, n + 1);
    } else {
      assert TDiv(n + 1, n + 1) == 1;
    }
  }

  /** Up from the top row leaves the grid: the row becomes -1 and the flat position
      negative. */
  lemma UpFromTopRow(n: int, x: int)
    requires 1 <= n && 0 <= x <= n && UpSafe(n, 0)
    ensures CursorUp(n, x, 0) == (x, -1) && Flat(n, x, -1) < 0
  {
  }

  /** Inside a grid of at most 126 rows, no arrow key overflows or divides by zero. */
  lemma {:induction false} MovesSafeInGrid(n: int, x: int, y: int)
    requires 1 <= n <= 126 && InGrid(n, x, y)
    ensures LeftSafe(n, x, y) && RightSafe(n, x, y) && UpSafe(n, y)
  {
    if x > 0 {
      LeftSafeWithinRow(n, x, y);
    } else {
      LeftSafeFirstColumn(n, y);
    }
    if x < n {
      RightSafeWithinRow(n, x, y);
    } else {
      RightSafeLastColumn(n, y);
    }
  }

  lemma LeftSafeWithinRow(n: int, x: int, y: int)
    requires 1 <= n <= 126 && 0 < x <= n && 0 <= y < n
    ensures LeftSafe(n, x, y)
  {
    TruncatingSmall(x - 1, n + 1);
  }

  lemma LeftSafeFirstColumn(n: int, y: int)
    requires 1 <= n <= 126 && 0 <= y < n
    ensures LeftSafe(n, 0, y)
  {
    assert TDiv(-1, n + 1) == 0;
  }

  lemma RightSafeWithinRow(n: int, x: int, y: int)
    requires 1 <= n <= 126 && 0 <= x < n && 0 <= y < n
    ensures RightSafe(n, x, y)
  {
    TruncatingSmall(x + 1, n + 1);
  }

  lemma RightSafeLastColumn(n: int, y: int)
    requires 1 <= n <= 126 && 0 <= y < n
    ensures RightSafe(n, n, y)
  {
    assert TDiv(n + 1, n + 1) == 1;
  }

  /** Inside a grid of at most 10 rows, the `i8` cell index does not overflow, and it
      is a valid index into the `n * (n + 1)` cells. */
  lemma {:induction false} SmallGridIndexSafe(n: int, x: int, y: int)
    requires 1 <= n <= 10 && InGrid(n, x, y)
    ensures IndexSafe(n, x, y) && 0 <= Flat(n, x, y) < n * (n + 1)
  {
    FlatInRange(n, x, y);
    assert y * (n + 1) <= y * 11 <= 99 by {
      assert y * (11 - (n + 1)) >= 0;
    }
  }

  /** From 11 rows on, the `i8` index of the last cell overflows: its flat position
      `n * (n + 1) - 1` is at least 131. */
  lemma {:induction false} LargeGridIndexOverflows(n: int)
    requires 11 <= n <= 126
    ensures InGrid(n, n, n - 1) && !IndexSafe(n, n, n - 1)
  {
    assert Flat(n, n, n - 1) >= 131 by {
      assert (n - 1) * (n + 1) >= 10 * (n + 1);
    }
  }
}
