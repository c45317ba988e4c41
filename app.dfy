/** The editing state of the program (`App`): the text of the size field, the text of
    every cell of the grid, and which of the two is being edited. `toggle_editing`
    commits the size or moves the cursor one cell forward or back; the key loop's
    dispatch (`HandleKey`) edits the addressed text and moves the cursor; and
    `print_result` turns the finished grid into a system, solves it and names the
    variables. */
module Editor {
  import opened Numerics
  import opened Keys
  import opened Elimination

  datatype CurrentlyEditing = EquationSize | Equation(x: int, y: int)

  // ---------------------------------------------------------------------------
  // Tab and BackTab in the cell editor

  /** The `i8` arithmetic of a forward step neither overflows nor divides by zero. */
  predicate AdvanceSafe(n: int, x: int, y: int) {
    IsI8(x + 1) && IsI8(n + 1) && DivSafe(x + 1, n + 1) &&
    IsI8(y + TDiv(x + 1, n + 1)) && DivSafe(y + TDiv(x + 1, n + 1), n)
  }

  /** Forward step: `x` moves on and wraps at the row length `n + 1`, carrying into
      `y`, which wraps at the number of rows `n`. */
  function Advance(n: int, x: int, y: int): (c: (int, int))
    requires AdvanceSafe(n, x, y)
    ensures IsI8(n) ==> IsI8(c.0) && IsI8(c.1)
  {
    (TRem(x + 1, n + 1), TRem(y + TDiv(x + 1, n + 1), n))
  }

  /** The number of cells of a grid with `n` rows. */
  function CellCount(n: int): int {
    n * (n + 1)
  }

  /** A forward step from a cell of the grid lands on a cell of the grid: the next
      one in reading order, and from the last cell the first. So the flat position
      advances by one modulo the number of cells. */
  lemma {:induction false} AdvanceStep(n: int, x: int, y: int)
    requires 1 <= n <= 126 && InGrid(n, x, y)
    ensures AdvanceSafe(n, x, y)
    ensures InGrid(n, Advance(n, x, y).0, Advance(n, x, y).1)
    ensures Flat(n, x, y) + 1 < CellCount(n) ==>
      Flat(n, Advance(n, x, y).0, Advance(n, x, y).1) == Flat(n, x, y) + 1
    ensures Flat(n, x, y) + 1 == CellCount(n) ==> Advance(n, x, y) == (0, 0)
  {
    LastCell(n, x, y);
    if x < n {
      AdvanceWithinRow(n, x, y);
    } else if y + 1 < n {
      AdvanceToNextRow(n, y);
    } else {
      AdvanceFromLastCell(n);
    }
  }

  lemma AdvanceWithinRow(n: int, x: int, y: int)
    requires 1 <= n <= 126 && 0 <= x < n && 0 <= y < n
    ensures AdvanceSafe(n, x, y) && Advance(n, x, y) == (x + 1, y)
  {
    TruncatingSmall(x + 1, n + 1);
    TruncatingSmall(y, n);
  }

  lemma AdvanceToNextRow(n: int, y: int)
    requires 1 <= n <= 126 && 0 <= y && y + 1 < n
    ensures AdvanceSafe(n, n, y) && Advance(n, n, y) == (0, y + 1)
    ensures Flat(n, 0, y + 1) == Flat(n, n, y) + 1
  {
    assert TDiv(n + 1, n + 1) == 1 && TRem(n + 1, n + 1) == 0;
    TruncatingSmall(y + 1, n);
  }

  lemma AdvanceFromLastCell(n: int)
    requires 1 <= n <= 126
    ensures AdvanceSafe(n, n, n - 1) && Advance(n, n, n - 1) == (0, 0)
  {
    assert TDiv(n + 1, n + 1) == 1 && TRem(n + 1, n + 1) == 0;
    assert TDiv(n, n) == 1 && TRem(n, n) == 0;
  }

  /** Only the last cell is followed by the end of the grid. */
  lemma LastCell(n: int, x: int, y: int)
    requires 1 <= n && InGrid(n, x, y)
    ensures Flat(n, x, y) + 1 == CellCount(n) <==> x == n && y == n - 1
  {
    FlatInRange(n, n, n - 1);
    assert Flat(n, n, n - 1) + 1 == CellCount(n) by {
      assert (n - 1) * (n + 1) == n * (n + 1) - (n + 1);
    }
    if Flat(n, x, y) + 1 == CellCount(n) {
      FlatInjective(n, x, y, n, n - 1);
    }
  }

  /** The cursor after `k` forward steps from the first cell, while `k` is at most the
      number of cells. */
  function AdvanceTimes(n: int, k: nat): (c: (int, int))
    requires 1 <= n <= 126 && k <= CellCount(n)
    ensures InGrid(n, c.0, c.1)
    ensures k < CellCount(n) ==> Flat(n, c.0, c.1) == k
    ensures k == CellCount(n) ==> c == (0, 0)
  {
    if k == 0 then (0, 0)
    else
      var p := AdvanceTimes(n, k - 1);
      AdvanceStep(n, p.0, p.1);
      Advance(n, p.0, p.1)
  }

  /** Tab visits every cell once before it comes back: after `k` steps from the first
      cell, with `0 < k < n * (n + 1)`, the cursor is elsewhere, and after exactly
      `n * (n + 1)` steps it is back at `(0, 0)`. */
  lemma {:induction false} AdvanceCycle(n: int, k: nat)
    requires 1 <= n <= 126 && k <= CellCount(n)
    ensures AdvanceTimes(n, k) == (0, 0) <==> (k == 0 || k == CellCount(n))
  {
    var c := AdvanceTimes(n, k);
    if 0 < k < CellCount(n) {
      assert Flat(n, c.0, c.1) == k != Flat(n, 0, 0);
    }
  }

  /** The `i8` arithmetic of a backward step neither overflows nor divides by zero. */
  predicate RetreatSafe(n: int, x: int, y: int) {
    !(x == y && y == 0) ==>
      IsI8(x - 1) && IsI8(n + 1) && DivSafe(x - 1, n + 1) &&
      IsI8(y + TDiv(x - 1, n + 1)) && DivSafe(y + TDiv(x - 1, n + 1), n)
  }

  /** Backward step: from `(0, 0)` back to the size field, otherwise the same
      re-splitting as the forward step with `x - 1`. */
  function Retreat(n: int, x: int, y: int): (e: CurrentlyEditing)
    requires RetreatSafe(n, x, y)
    ensures e.EquationSize? <==> x == 0 && y == 0
    ensures IsI8(n) && e.Equation? ==> IsI8(e.x) && IsI8(e.y)
  {
    if x == y && y == 0 then EquationSize
    else Equation(TRem(x - 1, n + 1), TRem(y + TDiv(x - 1, n + 1), n))
  }

  /** A backward step from a cell of the grid other than the first goes back one flat
      position. Within a row that is the cell to the left; from column 0 it is the
      off-grid column -1 of the same row, which has the flat position of the last cell
      of the row above. */
  lemma {:induction false} RetreatStep(n: int, x: int, y: int)
    requires 1 <= n <= 126 && InGrid(n, x, y) && (x != 0 || y != 0)
    ensures RetreatSafe(n, x, y)
    ensures Retreat(n, x, y).Equation?
    ensures Flat(n, Retreat(n, x, y).x, Retreat(n, x, y).y) == Flat(n, x, y) - 1
    ensures x > 0 ==> Retreat(n, x, y) == Equation(x - 1, y)
    ensures x == 0 ==> Retreat(n, x, y) == Equation(-1, y)
  {
    if x > 0 {
      RetreatWithinRow(n, x, y);
    } else {
      RetreatFromFirstColumn(n, y);
    }
  }

  lemma RetreatWithinRow(n: int, x: int, y: int)
    requires 1 <= n <= 126 && 0 < x <= n && 0 <= y < n
    ensures RetreatSafe(n, x, y) && Retreat(n, x, y) == Equation(x - 1, y)
  {
    TruncatingSmall(x - 1, n + 1);
    TruncatingSmall(y, n);
  }

  lemma RetreatFromFirstColumn(n: int, y: int)
    requires 1 <= n <= 126 && 0 < y < n
    ensures RetreatSafe(n, 0, y) && Retreat(n, 0, y) == Equation(-1, y)
  {
    assert TDiv(-1, n + 1) == 0 && TRem(-1, n + 1) == -1;
    TruncatingSmall(y, n);
  }

  // ---------------------------------------------------------------------------
  // Committing the size

  /** The cells after committing size `size`: the old cells if there are already
      `size * (size + 1)` of them, otherwise that many empty cells. */
  function Resized(cells: seq<string>, size: nat): (r: seq<string>)
    ensures |r| == CellCount(size)
    ensures |cells| == CellCount(size) ==> r == cells
    ensures |cells| != CellCount(size) ==> forall i :: 0 <= i < |r| ==> r[i] == ""
  {
    if |cells| != CellCount(size) then seq(CellCount(size), _ => "") else cells
  }

  /** Grids of different sizes have different numbers of cells. */
  lemma CellCountInjective(a: nat, b: nat)
    requires a < b
    ensures CellCount(a) < CellCount(b)
  {
    assert a * (a + 1) <= a * (b + 1) < b * (b + 1) by {
      assert a * (b + 1) - a * (a + 1) == a * (b - a);
      assert b * (b + 1) - a * (b + 1) == (b - a) * (b + 1);
    }
  }

  /** Committing a size different from the one the cells were laid out for clears
      every cell: no text survives a resize. */
  lemma ResizeClears(cells: seq<string>, old_size: nat, size: nat)
    requires |cells| == CellCount(old_size) && old_size != size
    ensures forall i :: 0 <= i < |Resized(cells, size)| ==> Resized(cells, size)[i] == ""
  {
    if old_size < size {
      CellCountInjective(old_size, size);
    } else {
      CellCountInjective(size, old_size);
    }
  }

  /** Once a size is committed, the `u8` size that `print_result` reads is that same
      size, and there are enough cells for its `n` rows of `n + 1` numbers. */
  lemma CommittedSizePrintable(size: string, cells: seq<string>)
    requires ParseI8(size).Some? && ParseUsize(size).Some?
    requires |cells| == CellCount(ParseI8(size).value)
    ensures ParseU8(size) == ParseI8(size)
    ensures CellCount(ParseU8(size).value) <= |cells|
  {
    ParseAgrees(size);
  }

  /** A fresh application cannot leave the size field with Tab, BackTab or Enter:
      `toggle_editing` reads the size as an `i8` before it looks at the mode, and
      the empty text does not parse, so the program panics. */
  lemma EmptySizeCannotToggle(app: App)
    requires app.matSize == "" && app.currentlyEditing == EquationSize
    ensures ParseI8(app.matSize).None?
    ensures !app.ToggleSafe(true) && !app.ToggleSafe(false)
    ensures !app.KeySafe(Tab) && !app.KeySafe(BackTab) && !app.KeySafe(Enter)
  {
  }

  /** Once the cursor has left the cells (Right from the last cell gives index
      `n * (n + 1)`, Up from row 0 a negative index), the next Backspace or typed
      digit indexes the cells out of bounds, and the program panics. */
  lemma OffGridEditUnsafe(app: App, d: char)
    requires app.Valid() && app.currentlyEditing.Equation? && IsAsciiDigit(d)
    requires var n := app.KeySize();
      var i := Flat(n, app.currentlyEditing.x, app.currentlyEditing.y);
      i < 0 || CellCount(n) <= i
    ensures !app.KeySafe(Backspace) && !app.KeySafe(Char(d))
  {
    assert Classify(Char(d)) == Type(d);
  }

  // ---------------------------------------------------------------------------
  // Editing a text

  /** `String::pop`, its result dropped: the text without its last character, and an
      empty text unchanged. */
  function PopLast(s: string): (t: string)
    ensures |s| == 0 ==> t == s
    ensures |s| > 0 ==> t + [s[|s| - 1]] == s
  {
    if |s| == 0 then s else s[..|s| - 1]
  }

  /** Backspace undoes the typing of a character. */
  lemma PopUndoesPush(s: string, c: char)
    ensures PopLast(s + [c]) == s
  {
  }

  // ---------------------------------------------------------------------------
  // From the cells to the printed solution

  /** Every cell read as a number, `1.0` where it does not parse. */
  function Cells(texts: seq<string>, parse: string -> Option<real>): (v: seq<real>)
    ensures |v| == |texts|
    ensures forall k :: 0 <= k < |texts| && parse(texts[k]).Some? ==> v[k] == parse(texts[k]).value
    ensures forall k :: 0 <= k < |texts| && parse(texts[k]).None? ==> v[k] == 1.0
  {
    seq(|texts|, k requires 0 <= k < |texts| => parse(texts[k]).UnwrapOr(1.0))
  }

  /** `count` rows, each taking the next `w` values, or as many as are left. */
  function Chunks(vals: seq<real>, w: nat, count: nat): (rows: Rows)
    ensures |rows| == count
    ensures forall i :: 0 <= i < count ==> |rows[i]| <= w
    ensures count > 0 && w <= |vals| ==> rows[0] == vals[..w]
  {
    if count == 0 then []
    else
      var row := vals[..Min(w, |vals|)];
      [row] + Chunks(vals[|row|..], w, count - 1)
  }

  lemma MulSucc(a: nat, b: nat)
    ensures (a + 1) * b == b + a * b
  {
  }

  /** With enough values, row `i` of the chunks is the `w` values from `i * w` on. */
  lemma {:induction false} ChunkRow(vals: seq<real>, w: nat, count: nat, i: nat)
    requires i < count && count * w <= |vals|
    ensures i * w + w <= |vals|
    ensures Chunks(vals, w, count)[i] == vals[i * w .. i * w + w]
  {
    assert i * w + w <= |vals| by {
      MulBelow(i, count, w);
    }
    OffsetOfProduct(i, w);
    ChunkAt(vals, w, count, i, i * w);
  }

  /** `off` is the start of window `i` when every window is `w` wide. */
  predicate IsOffset(off: int, i: nat, w: nat) {
    if i == 0 then off == 0 else off >= w && IsOffset(off - w, i - 1, w)
  }

  lemma {:induction false} OffsetOfProduct(i: nat, w: nat)
    ensures IsOffset(i * w, i, w)
  {
    if i > 0 {
      OffsetOfProduct(i - 1, w);
      MulSucc(i - 1, w);
    }
  }

  lemma MulBelow(i: nat, count: nat, w: nat)
    requires i < count
    ensures i * w + w <= count * w
  {
    MulSucc(i, w);
  }

  /** Row `i` of the chunks is the window of `w` values at offset `off`. */
  lemma {:induction false} ChunkAt(vals: seq<real>, w: nat, count: nat, i: nat, off: nat)
    requires i < count && IsOffset(off, i, w) && off + w <= |vals|
    ensures Chunks(vals, w, count)[i] == vals[off .. off + w]
  {
    ChunksUnfold(vals, w, count);
    if i > 0 {
      ChunkAt(vals[w..], w, count - 1, i - 1, off - w);
      ChunkShift(vals, w, off - w);
    }
  }

  /** Dropping the first `w` values moves every later window `w` places down. */
  lemma ChunkShift(vals: seq<real>, w: nat, a: nat)
    requires a + w + w <= |vals|
    ensures vals[w..][a .. a + w] == vals[w + a .. w + a + w]
  {
  }

  lemma ChunksUnfold(vals: seq<real>, w: nat, count: nat)
    requires 0 < count && w <= |vals|
    ensures Chunks(vals, w, count) == [vals[..w]] + Chunks(vals[w..], w, count - 1)
  {
  }

  /** The system `print_result` solves: `n` rows of `n + 1` numbers read from the
      cells in order. */
  function Grid(texts: seq<string>, n: nat, parse: string -> Option<real>): (g: Rows)
    ensures |g| == n
    ensures forall i :: 0 <= i < n ==> |g[i]| <= n + 1
  {
    Chunks(Cells(texts, parse), n + 1, n)
  }

  /** When there are enough cells, the grid has `n` rows of `n + 1` entries, and the
      entry in row `i`, column `j` is the cell at flat position `i * (n + 1) + j`,
      read as a number, or `1.0` if it does not parse. */
  lemma GridCells(texts: seq<string>, n: nat, parse: string -> Option<real>)
    requires CellCount(n) <= |texts|
    ensures |Grid(texts, n, parse)| == n && Rect(Grid(texts, n, parse), n + 1)
    ensures forall i, j :: 0 <= i < n && 0 <= j <= n ==> 0 <= Flat(n, j, i) < |texts|
    ensures forall i, j :: 0 <= i < n && 0 <= j <= n && 0 <= Flat(n, j, i) < |texts| ==>
      Grid(texts, n, parse)[i][j] == parse(texts[Flat(n, j, i)]).UnwrapOr(1.0)
  {
    forall i, j | 0 <= i < n && 0 <= j <= n
      ensures |Grid(texts, n, parse)[i]| == n + 1
      ensures 0 <= Flat(n, j, i) < |texts|
      ensures Grid(texts, n, parse)[i][j] == parse(texts[Flat(n, j, i)]).UnwrapOr(1.0)
    {
      GridCell(texts, n, parse, i, j);
    }
    GridShape(texts, n, parse);
  }

  /** With enough cells, the grid has `n` rows of `n + 1` numbers. */
  lemma GridShape(texts: seq<string>, n: nat, parse: string -> Option<real>)
    requires CellCount(n) <= |texts|
    ensures |Grid(texts, n, parse)| == n && Rect(Grid(texts, n, parse), n + 1)
  {
    forall i | 0 <= i < n
      ensures |Grid(texts, n, parse)[i]| == n + 1
    {
      GridCell(texts, n, parse, i, 0);
    }
  }

  /** One entry of the grid. */
  lemma GridCell(texts: seq<string>, n: nat, parse: string -> Option<real>, i: nat, j: nat)
    requires CellCount(n) <= |texts| && i < n && j <= n
    ensures |Grid(texts, n, parse)| == n && |Grid(texts, n, parse)[i]| == n + 1
    ensures 0 <= Flat(n, j, i) < |texts|
    ensures Grid(texts, n, parse)[i][j] == parse(texts[Flat(n, j, i)]).UnwrapOr(1.0)
  {
    var vals := Cells(texts, parse);
    ChunkRow(vals, n + 1, n, i);
    var start := i * (n + 1);
    assert Grid(texts, n, parse)[i] == vals[start .. start + n + 1];
  }

  /** The name printed for variable `i`: `x`, `y`, `z`, then backwards from `w`. The
      `u8` subtraction `'x' - i` underflows past `i == 120`. */
  function VarName(i: nat): (c: char)
    requires i <= 120
    ensures c as int < 256
    ensures 'a' <= c <= 'z' <==> i <= 25
  {
    if i < 3 then ('x' as int + i) as char else ('x' as int - i + 2) as char
  }

  /** No two variables share a name. */
  lemma VarNamesDistinct(i: nat, j: nat)
    requires i <= 120 && j <= 120 && i != j
    ensures VarName(i) != VarName(j)
  {
    assert VarName(i) as int == if i < 3 then 120 + i else 122 - i;
    assert VarName(j) as int == if j < 3 then 120 + j else 122 - j;
  }

  // ---------------------------------------------------------------------------
  // The application state

  class App {
    var matSize: string
    var matrix: seq<string>
    var currentlyEditing: CurrentlyEditing

    /** The size the key loop computes for every key: `mat_size` as an `i8`, or 0. */
    function KeySize(): (k: int)
      reads this
      ensures IsI8(k)
      ensures ParseI8(matSize).Some? ==> k == ParseI8(matSize).value
      ensures ParseI8(matSize).None? ==> k == 0
    {
      ParseI8(matSize).UnwrapOr(0)
    }

    /** In the cell editor the size field holds the committed size, as both an `i8` and
        a `usize`, there are exactly that many rows of cells, and the cursor is a pair
        of `i8`. */
    predicate Valid()
      reads this
    {
      currentlyEditing.Equation? ==>
        ParseI8(matSize).Some? && ParseUsize(matSize).Some? &&
        |matrix| == CellCount(ParseI8(matSize).value) &&
        IsI8(currentlyEditing.x) && IsI8(currentlyEditing.y)
    }

    /** `App::new`: an empty size field, one empty cell, editing the size. */
    constructor ()
      ensures matSize == "" && matrix == [""] && currentlyEditing == EquationSize
      ensures Valid()
    {
      matSize := "";
      matrix := [""];
      currentlyEditing := EquationSize;
    }

    /** `toggle_editing(forwards)` does not panic: the size field parses as an `i8`,
        and as a `usize` when it is committed, and the cursor arithmetic stays in
        range. */
    predicate ToggleSafe(forwards: bool)
      reads this
    {
      ParseI8(matSize).Some? &&
      match currentlyEditing
      case EquationSize => forwards ==> ParseUsize(matSize).Some?
      case Equation(x, y) =>
        if forwards then AdvanceSafe(ParseI8(matSize).value, x, y)
        else RetreatSafe(ParseI8(matSize).value, x, y)
    }

    /** The effect of `toggle_editing(forwards)`. */
    twostate predicate Toggled(forwards: bool)
      requires old(ToggleSafe(forwards))
      reads this
    {
      var n := old(ParseI8(matSize).value);
      matSize == old(matSize) &&
      match old(currentlyEditing)
      case EquationSize =>
        if forwards then
          matrix == Resized(old(matrix), old(ParseUsize(matSize).value)) &&
          currentlyEditing == Equation(0, 0)
        else
          matrix == old(matrix) && currentlyEditing == EquationSize
      case Equation(x, y) =>
        matrix == old(matrix) &&
        currentlyEditing ==
          if forwards then Equation(Advance(n, x, y).0, Advance(n, x, y).1)
          else Retreat(n, x, y)
    }

    /** `toggle_editing`: commits the size and resizes the cells, or moves the cursor
        one cell forward or back. */
    method ToggleEditing(forwards: bool)
      requires ToggleSafe(forwards)
      modifies this
      ensures Toggled(forwards)
      ensures old(Valid()) ==> Valid()
    {
      var n := ParseI8(matSize).value;
      match currentlyEditing
      case EquationSize =>
        if forwards {
          CommitSize();
        }
      case Equation(x, y) =>
        if forwards {
          var next := Advance(n, x, y);
          currentlyEditing := Equation(next.0, next.1);
        } else {
          if x == y && y == 0 {
            currentlyEditing := EquationSize;
            return;
          }
          currentlyEditing := Retreat(n, x, y);
        }
    }

    /** The size arm of `toggle_editing` going forwards: lays the cells out for the
        size in the size field, clearing them unless they already fit, and starts
        editing the first cell. */
    method CommitSize()
      requires ParseI8(matSize).Some? && ParseUsize(matSize).Some?
      modifies this
      ensures matSize == old(matSize)
      ensures matrix == Resized(old(matrix), ParseUsize(matSize).value)
      ensures currentlyEditing == Equation(0, 0)
      ensures Valid()
    {
      var size := ParseUsize(matSize).value;
      if |matrix| != CellCount(size) {
        matrix := seq(CellCount(size), _ => "");
      }
      ParseAgrees(matSize);
      currentlyEditing := Equation(0, 0);
    }

    /** The index `(y * (n + 1) + x) as usize` of the edited cell is computed without
        overflow and lies inside the cells. */
    predicate CellSafe(n: int)
      reads this
    {
      currentlyEditing.Equation? ==>
        IndexSafe(n, currentlyEditing.x, currentlyEditing.y) &&
        0 <= Flat(n, currentlyEditing.x, currentlyEditing.y) < |matrix|
    }

    /** The arm a key lands in does not panic. */
    predicate KeySafe(code: KeyCode)
      reads this
    {
      var n := KeySize();
      match Classify(code)
      case ToggleForward => ToggleSafe(true)
      case ToggleBackward => ToggleSafe(false)
      case Submit => currentlyEditing.EquationSize? ==> ToggleSafe(true)
      case Erase => CellSafe(n)
      case Type(c) => Accepts(currentlyEditing.EquationSize?, c) ==> CellSafe(n)
      case MoveLeft =>
        currentlyEditing.Equation? ==> LeftSafe(n, currentlyEditing.x, currentlyEditing.y)
      case MoveRight =>
        currentlyEditing.Equation? ==> RightSafe(n, currentlyEditing.x, currentlyEditing.y)
      case MoveUp => currentlyEditing.Equation? ==> UpSafe(n, currentlyEditing.y)
      case MoveDown => true
      case Quit => true
      case Ignore => true
    }

    /** One key event of `run_app`. A release is skipped. Otherwise the key's arm runs:
        `None` means the loop goes on, `Some(true)` that editing ended with Enter and
        the result is to be printed, `Some(false)` that it ended with Esc or `q`. */
    method HandleKey(code: KeyCode, release: bool) returns (outcome: Option<bool>)
      requires Valid()
      requires release || KeySafe(code)
      modifies this
      ensures Valid()
      ensures release ==> outcome.None? && unchanged(this)
      ensures !release ==>
        (outcome == Some(true) <==> Classify(code) == Submit && old(currentlyEditing).Equation?)
      ensures !release ==> (outcome == Some(false) <==> Classify(code) == Quit)
      ensures outcome.Some? || Classify(code) == Ignore ==> unchanged(this)
      ensures !release && Classify(code) == ToggleForward ==> Toggled(true)
      ensures !release && Classify(code) == ToggleBackward ==> Toggled(false)
      ensures !release && Classify(code) == Submit && old(currentlyEditing).EquationSize? ==>
        Toggled(true)
      ensures !release && Classify(code) == Erase ==>
        currentlyEditing == old(currentlyEditing) &&
        match currentlyEditing
        case EquationSize => matSize == PopLast(old(matSize)) && matrix == old(matrix)
        case Equation(x, y) =>
          var i := Flat(old(KeySize()), x, y);
          matSize == old(matSize) && matrix == old(matrix)[i := PopLast(old(matrix)[i])]
      ensures !release && Classify(code).Type? ==>
        var c := Classify(code).c;
        currentlyEditing == old(currentlyEditing) &&
        if !Accepts(currentlyEditing.EquationSize?, c) then
          matSize == old(matSize) && matrix == old(matrix)
        else
          match currentlyEditing
          case EquationSize => matSize == old(matSize) + [c] && matrix == old(matrix)
          case Equation(x, y) =>
            var i := Flat(old(KeySize()), x, y);
            matSize == old(matSize) && matrix == old(matrix)[i := old(matrix)[i] + [c]]
      ensures !release && Classify(code) in {MoveLeft, MoveRight, MoveUp, MoveDown} ==>
        matSize == old(matSize) && matrix == old(matrix) &&
        match old(currentlyEditing)
        case EquationSize => currentlyEditing == EquationSize
        case Equation(x, y) =>
          var n := old(KeySize());
          var c :=
            match Classify(code)
            case MoveLeft => CursorLeft(n, x, y)
            case MoveRight => CursorRight(n, x, y)
            case MoveUp => CursorUp(n, x, y)
            case _ => CursorDown(n, x, y);
          currentlyEditing == Equation(c.0, c.1)
    {
      if release {
        return None;
      }
      var n := ParseI8(matSize).UnwrapOr(0);
      outcome := None;
      match Classify(code)
      case ToggleForward =>
        ToggleEditing(true);
      case ToggleBackward =>
        ToggleEditing(false);
      case Erase =>
        EraseChar(n);
      case MoveLeft =>
        MoveCursor(code, n);
      case MoveRight =>
        MoveCursor(code, n);
      case MoveUp =>
        MoveCursor(code, n);
      case MoveDown =>
        MoveCursor(code, n);
      case Quit =>
        outcome := Some(false);
      case Submit =>
        if currentlyEditing.EquationSize? {
          ToggleEditing(true);
        } else {
          outcome := Some(true);
        }
      case Type(c) =>
        if Accepts(currentlyEditing.EquationSize?, c) {
          TypeChar(c, n);
        }
      case Ignore =>
    }

    /** The Backspace arm: drops the last character of the size field or of the
        edited cell. */
    method EraseChar(n: int)
      requires n == KeySize() && Valid() && CellSafe(n)
      modifies this
      ensures Valid() && currentlyEditing == old(currentlyEditing)
      ensures match currentlyEditing
        case EquationSize => matSize == PopLast(old(matSize)) && matrix == old(matrix)
        case Equation(x, y) =>
          var i := Flat(n, x, y);
          matSize == old(matSize) && matrix == old(matrix)[i := PopLast(old(matrix)[i])]
    {
      match currentlyEditing {
        case EquationSize =>
          matSize := PopLast(matSize);
        case Equation(x, y) =>
          var i := Flat(n, x, y);
          matrix := matrix[i := PopLast(matrix[i])];
      }
    }

    /** The character arm once the filter let `c` through: appends it to the size
        field or to the edited cell. */
    method TypeChar(c: char, n: int)
      requires n == KeySize() && Valid() && CellSafe(n)
      modifies this
      ensures Valid() && currentlyEditing == old(currentlyEditing)
      ensures match currentlyEditing
        case EquationSize => matSize == old(matSize) + [c] && matrix == old(matrix)
        case Equation(x, y) =>
          var i := Flat(n, x, y);
          matSize == old(matSize) && matrix == old(matrix)[i := old(matrix)[i] + [c]]
    {
      match currentlyEditing {
        case EquationSize =>
          matSize := matSize + [c];
        case Equation(x, y) =>
          var i := Flat(n, x, y);
          matrix := matrix[i := matrix[i] + [c]];
      }
    }

    /** The four arrow arms: in the cell editor the cursor moves as the arrow's
        function says; on the size field nothing happens. */
    method MoveCursor(code: KeyCode, n: int)
      requires Classify(code) in {MoveLeft, MoveRight, MoveUp, MoveDown}
      requires n == KeySize() && Valid() && KeySafe(code)
      modifies this
      ensures Valid() && matSize == old(matSize) && matrix == old(matrix)
      ensures match old(currentlyEditing)
        case EquationSize => currentlyEditing == EquationSize
        case Equation(x, y) =>
          var c :=
            match Classify(code)
            case MoveLeft => CursorLeft(n, x, y)
            case MoveRight => CursorRight(n, x, y)
            case MoveUp => CursorUp(n, x, y)
            case _ => CursorDown(n, x, y);
          currentlyEditing == Equation(c.0, c.1)
    {
      if currentlyEditing.Equation? {
        var x, y := currentlyEditing.x, currentlyEditing.y;
        var c :=
          match Classify(code)
          case MoveLeft => CursorLeft(n, x, y)
          case MoveRight => CursorRight(n, x, y)
          case MoveUp => CursorUp(n, x, y)
          case _ => CursorDown(n, x, y);
        currentlyEditing := Equation(c.0, c.1);
      }
    }

    /** `print_result`: reads the cells as numbers (`1.0` where one does not parse),
        lays them out as `n` equations in `n` unknowns, solves them, and gives one
        line per variable: its name and its value. The size is read as a `u8`; the
        program panics on a size of 0 (no first row) and past 121 (the name of
        variable 121 underflows), and divides by every pivot. */
    method PrintResult(parse: string -> Option<real>) returns (lines: seq<(char, real)>)
      requires ParseU8(matSize).Some? && 1 <= ParseU8(matSize).value <= 121
      requires CellCount(ParseU8(matSize).value) <= |matrix|
      requires NonZeroPivots(Grid(matrix, ParseU8(matSize).value, parse), ParseU8(matSize).value + 1)
      ensures |lines| == ParseU8(matSize).value
      ensures forall i :: 0 <= i < |lines| ==> lines[i].0 == VarName(i)
      ensures Satisfies(Grid(matrix, |lines|, parse), Values(lines))
      ensures forall x :: |x| == |lines| && Satisfies(Grid(matrix, |lines|, parse), x) ==> x == Values(lines)
    {
      var cells := Cells(matrix, parse);
      var n := ParseU8(matSize).value;
      var values := Chunks(cells, n + 1, n);
      GridShape(matrix, n, parse);
      lines := SolveRows(values);
    }
  }

  /** The second half of `print_result`: loads the `n` rows into a matrix, solves
      it, and names each variable's value. The lines give the one solution of the
      system. */
  method SolveRows(values: Rows) returns (lines: seq<(char, real)>)
    requires 1 <= |values| <= 121 && Rect(values, |values| + 1)
    requires NonZeroPivots(values, |values| + 1)
    ensures |lines| == |values|
    ensures forall i :: 0 <= i < |lines| ==> lines[i].0 == VarName(i)
    ensures Satisfies(values, Values(lines))
    ensures forall x :: |x| == |lines| && Satisfies(values, x) ==> x == Values(lines)
  {
    var n := |values|;
    var mat := new Matrix.WithValues(values);
    assert mat.order == (n, n + 1);
    mat.SolveEquation();
    lines := NameValues(mat.values, n);
    assert Values(lines) == Column(mat.values, n);
  }

  /** The values of the printed lines, in order. */
  function Values(lines: seq<(char, real)>): (v: seq<real>)
    ensures |v| == |lines|
  {
    seq(|lines|, i requires 0 <= i < |lines| => lines[i].1)
  }

  /** The two printing loops of `print_result`: for each row `i`, the name of variable
      `i` and the last entry of row `i`, which after elimination is its value. */
  method NameValues(values: Rows, n: nat) returns (lines: seq<(char, real)>)
    requires n <= 121 && |values| == n && Rect(values, n + 1)
    ensures |lines| == n
    ensures forall i :: 0 <= i < n ==> lines[i] == (VarName(i), values[i][n])
  {
    lines := [];
    var i := 0;
    while i < Min(3, n)
      invariant 0 <= i <= Min(3, n)
      invariant |lines| == i
      invariant forall k :: 0 <= k < i ==> lines[k] == (VarName(k), values[k][n])
    {
      lines := lines + [(('x' as int + i) as char, values[i][n])];
      i := i + 1;
    }
    i := 3;
    while i < n
      invariant 3 <= i && (n <= 3 ==> i == 3) && (n > 3 ==> i <= n)
      invariant |lines| == Min(3, n) + (i - 3)
      invariant forall k :: 0 <= k < |lines| ==> lines[k] == (VarName(k), values[k][n])
    {
      lines := lines + [(('x' as int - i + 2) as char, values[i][n])];
      i := i + 1;
    }
  }
}
