// A character terminal as the line editor drives it: a grid of cells, a cursor, and the
// capabilities used (carriage return, cursor moves, clear to end of display, clear screen).
module Screen {
  import Arith

  /** Cells that are not in the map are blank.  `pending` is the state of a terminal with the xenl
      capability after a character was put in the last column: the cursor has not wrapped yet. */
  datatype Screen = Screen(cells: Grid, row: int, col: int, pending: bool)

  type Grid = map<(int, int), char>

  function PutChar(s: Screen, c: char, width: nat, xenl: bool): Screen {
    var row, col := if s.pending then s.row + 1 else s.row, if s.pending then 0 else s.col;
    var cells := s.cells[(row, col) := c];
    if col + 1 < width then Screen(cells, row, col + 1, false)
    else if xenl then Screen(cells, row, col, true)
    else Screen(cells, row + 1, 0, false)
  }

  function PutStr(s: Screen, text: seq<char>, width: nat, xenl: bool): Screen {
    if text == [] then s
    else PutChar(PutStr(s, text[..|text| - 1], width, xenl), text[|text| - 1], width, xenl)
  }

  function LineFeed(s: Screen): Screen {
    s.(row := s.row + 1, pending := false)
  }

  function Return(s: Screen): Screen {
    s.(col := 0, pending := false)
  }

  /** Relative cursor motion by `rows` down and `cols` right (negative for up and left). */
  function Move(s: Screen, rows: int, cols: int): Screen {
    s.(row := s.row + rows, col := s.col + cols, pending := false)
  }

  predicate Beyond(at: (int, int), row: int, col: int) {
    at.0 > row || (at.0 == row && at.1 >= col)
  }

  function ClearDown(s: Screen): Screen {
    s.(cells := map at | at in s.cells && !Beyond(at, s.row, s.col) :: s.cells[at])
  }

  function ClearScreen(s: Screen): Screen {
    Screen(map[], 0, 0, false)
  }

  // ---------------------------------------------------------------- a line of text on the grid

  /** Row and column of character `k` of a line, relative to its first row.  RowsByDivision says that
      these are k/width and k%width. */
  function Row(k: nat, width: nat): nat
    requires width > 0
    decreases k
  {
    if k < width then 0 else Row(k - width, width) + 1
  }

  function Col(k: nat, width: nat): (c: nat)
    requires width > 0
    ensures c < width
    decreases k
  {
    if k < width then k else Col(k - width, width)
  }

  lemma {:induction false} RowsByDivision(k: nat, width: nat)
    requires width > 0
    ensures Row(k, width) == k / width && Col(k, width) == k % width
    decreases k
  {
    RowsAndRest(k, width);
    Arith.DivModUnique(k, width, Row(k, width), Col(k, width));
  }

  lemma {:induction false} RowsAndRest(k: nat, width: nat)
    requires width > 0
    ensures k == Row(k, width) * width + Col(k, width)
    decreases k
  {
    if k >= width {
      RowsAndRest(k - width, width);
      assert (Row(k - width, width) + 1) * width == Row(k - width, width) * width + width;
    }
  }

  /** Where character `k` of a line that starts at row `origin` belongs. */
  function CellOf(origin: int, k: nat, width: nat): (int, int)
    requires width > 0
  {
    (origin + Row(k, width), Col(k, width))
  }

  ghost predicate CursorAt(s: Screen, origin: int, pos: nat, width: nat)
    requires width > 0
  {
    !s.pending && (s.row, s.col) == CellOf(origin, pos, width)
  }

  ghost predicate ShowsPrefix(cells: Grid, origin: int, text: seq<char>, n: nat, width: nat)
    requires width > 0 && n <= |text|
  {
    forall k: nat :: k < n ==> CellOf(origin, k, width) in cells && cells[CellOf(origin, k, width)] == text[k]
  }

  /** Cell `at` comes after the first `n` characters of a line starting at row `origin`. */
  predicate After(at: (int, int), origin: int, n: nat, width: nat)
    requires width > 0
  {
    Beyond(at, CellOf(origin, n, width).0, CellOf(origin, n, width).1)
  }

  ghost predicate BlankFrom(cells: Grid, origin: int, n: nat, width: nat)
    requires width > 0
  {
    forall at :: at in cells ==> !After(at, origin, n, width)
  }

  /** Cell k shows text[k] for every k, and everything after the text is blank. */
  ghost predicate Displays(cells: Grid, origin: int, text: seq<char>, width: nat)
    requires width > 0
  {
    ShowsPrefix(cells, origin, text, |text|, width) && BlankFrom(cells, origin, |text|, width)
  }

  // ---------------------------------------------------------------- positions

  /** The next position is the next column, or the start of the next row. */
  lemma {:induction false} NextCell(k: nat, width: nat)
    requires width > 0
    ensures Col(k, width) + 1 < width ==> Row(k + 1, width) == Row(k, width) && Col(k + 1, width) == Col(k, width) + 1
    ensures Col(k, width) + 1 == width ==> Row(k + 1, width) == Row(k, width) + 1 && Col(k + 1, width) == 0
    decreases k
  {
    if k >= width { NextCell(k - width, width); }
  }

  /** Positions in the rest of a row. */
  lemma {:induction false} SameRow(i: nat, d: nat, width: nat)
    requires width > 0 && d < width - Col(i, width)
    ensures Row(i + d, width) == Row(i, width) && Col(i + d, width) == Col(i, width) + d
    decreases i
  {
    if i >= width { SameRow(i - width, d, width); }
  }

  lemma {:induction false} RowOrder(j: nat, k: nat, width: nat)
    requires width > 0
    ensures j >= k <==> Row(j, width) > Row(k, width) || (Row(j, width) == Row(k, width) && Col(j, width) >= Col(k, width))
    ensures j == k <==> Row(j, width) == Row(k, width) && Col(j, width) == Col(k, width)
    decreases j
  {
    if j >= width && k >= width { RowOrder(j - width, k - width, width); }
  }

  /** Distinct positions have distinct cells, and cell order is position order. */
  lemma CellOrder(origin: int, j: nat, k: nat, width: nat)
    requires width > 0
    ensures After(CellOf(origin, j, width), origin, k, width) <==> j >= k
    ensures CellOf(origin, j, width) == CellOf(origin, k, width) <==> j == k
  {
    RowOrder(j, k, width);
  }

  // ---------------------------------------------------------------- printing

  /** text[..j] has just been printed; at the end of a row an xenl terminal still needs "\n" and "\r". */
  ghost predicate Printed(s: Screen, origin: int, text: seq<char>, j: nat, width: nat, xenl: bool)
    requires width > 0 && j <= |text|
  {
    && Displays(s.cells, origin, text[..j], width)
    && CursorAt(if Col(j, width) == 0 && xenl then Return(LineFeed(s)) else s, origin, j, width)
  }

  /** Printing the next character of the text, away from the last column or not. */
  lemma PutNext(s: Screen, origin: int, text: seq<char>, i: nat, width: nat, xenl: bool)
    requires width > 0 && i < |text|
    requires Displays(s.cells, origin, text[..i], width) && CursorAt(s, origin, i, width)
    ensures Printed(PutChar(s, text[i], width, xenl), origin, text, i + 1, width, xenl)
  {
    var s' := PutChar(s, text[i], width, xenl);
    NextCell(i, width);
    CursorAfterPut(s, origin, text[i], i, width, xenl);
    var at := CellOf(origin, i, width);
    assert s'.cells == s.cells[at := text[i]];
    forall k: nat | k < i + 1
      ensures CellOf(origin, k, width) in s'.cells && s'.cells[CellOf(origin, k, width)] == text[..i + 1][k]
    {
      CellOrder(origin, k, i, width);
      if k < i { assert text[..i][k] == text[k]; }
    }
    forall c | c in s'.cells
      ensures !After(c, origin, i + 1, width)
    {
      if c == at {
        CellOrder(origin, i, i + 1, width);
      } else {
        assert !After(c, origin, i, width);
        LaterIsAfter(c, origin, i, width);
      }
    }
  }

  lemma {:induction false} CursorAfterPut(s: Screen, origin: int, c: char, i: nat, width: nat, xenl: bool)
    requires width > 0 && CursorAt(s, origin, i, width)
    ensures var s' := PutChar(s, c, width, xenl);
            CursorAt(if Col(i + 1, width) == 0 && xenl then Return(LineFeed(s')) else s', origin, i + 1, width)
  {
    NextCell(i, width);
  }

  lemma LaterIsAfter(at: (int, int), origin: int, i: nat, width: nat)
    requires width > 0
    ensures After(at, origin, i + 1, width) ==> After(at, origin, i, width)
  {
    NextCell(i, width);
  }

  /** Printing text[i..j] inside one row. */
  lemma {:induction false} PutChunk(s: Screen, origin: int, text: seq<char>, i: nat, j: nat, width: nat, xenl: bool)
    requires width > 0 && i < j <= |text| && j - i <= width - Col(i, width)
    requires Displays(s.cells, origin, text[..i], width) && CursorAt(s, origin, i, width)
    ensures Printed(PutStr(s, text[i..j], width, xenl), origin, text, j, width, xenl)
    decreases j
  {
    var prev := PutStr(s, text[i..j - 1], width, xenl);
    PutStrSnoc(s, text, i, j, width, xenl);
    if i + 1 == j {
      assert text[i..i] == [];
    } else {
      PutChunk(s, origin, text, i, j - 1, width, xenl);
      SameRow(i, j - 1 - i, width);
      PrintedInRow(prev, origin, text, j - 1, width, xenl);
    }
    PutNext(prev, origin, text, j - 1, width, xenl);
  }

  /** At the end of a row "\n" and "\r" put the cursor of an xenl terminal where it belongs. */
  lemma RowDone(s: Screen, origin: int, text: seq<char>, j: nat, width: nat, xenl: bool)
    requires width > 0 && j <= |text| && Printed(s, origin, text, j, width, xenl)
    ensures var s' := if j % width == 0 && xenl then Return(LineFeed(s)) else s;
            Displays(s'.cells, origin, text[..j], width) && CursorAt(s', origin, j, width)
  {
    RowsByDivision(j, width);
  }

  /** One row of output: the chunk, and the line break an xenl terminal needs at its end. */
  lemma {:induction false} RowPrinted(s: Screen, s1: Screen, origin: int, text: seq<char>, i: nat, j: nat, width: nat, xenl: bool)
    requires width > 0 && i < j <= |text| && j - i <= width - Col(i, width)
    requires Displays(s.cells, origin, text[..i], width) && CursorAt(s, origin, i, width)
    requires s1 == PutStr(s, text[i..j], width, xenl)
    ensures var s2 := if j % width == 0 && xenl then Return(LineFeed(s1)) else s1;
            Displays(s2.cells, origin, text[..j], width) && CursorAt(s2, origin, j, width)
  {
    PutChunk(s, origin, text, i, j, width, xenl);
    RowDone(s1, origin, text, j, width, xenl);
  }

  /** Away from the end of a row the cursor is where it belongs. */
  lemma {:induction false} PrintedInRow(s: Screen, origin: int, text: seq<char>, j: nat, width: nat, xenl: bool)
    requires width > 0 && j <= |text| && Col(j, width) != 0 && Printed(s, origin, text, j, width, xenl)
    ensures Displays(s.cells, origin, text[..j], width) && CursorAt(s, origin, j, width)
  {
  }

  lemma {:induction false} PutStrSnoc(s: Screen, text: seq<char>, i: nat, j: nat, width: nat, xenl: bool)
    requires i < j <= |text|
    ensures PutStr(s, text[i..j], width, xenl) == PutChar(PutStr(s, text[i..j - 1], width, xenl), text[j - 1], width, xenl)
  {
    assert text[i..j][..j - i - 1] == text[i..j - 1];
  }

  lemma ClearKeepsPrefix(s: Screen, origin: int, text: seq<char>, n: nat, width: nat)
    requires width > 0 && n <= |text| && CursorAt(s, origin, n, width) && ShowsPrefix(s.cells, origin, text, n, width)
    ensures Displays(ClearDown(s).cells, origin, text[..n], width) && CursorAt(ClearDown(s), origin, n, width)
  {
    forall k: nat | k < n
      ensures CellOf(origin, k, width) in ClearDown(s).cells
      ensures ClearDown(s).cells[CellOf(origin, k, width)] == text[..n][k]
    {
      CellOrder(origin, k, n, width);
    }
  }
}
