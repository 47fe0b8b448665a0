/** The crossword grid: a rows x cols matrix of cells updated in place.
    The mutating operations (construction, placing a word, clearing a run)
    and the scanners that walk the grid cell by cell work on the array; the
    pure reading of the grid as rows of cells is `Cells`. */
module Grid {
  import opened Lines

  /** Row r of the array as a line of cells. */
  function Row(g: array2<char>, r: nat): (line: seq<char>)
    reads g
    requires r < g.Length0
    ensures |line| == g.Length1
    ensures forall c :: 0 <= c < g.Length1 ==> line[c] == g[r, c]
  {
    seq(g.Length1, c requires 0 <= c < g.Length1 reads g => g[r, c])
  }

  /** The whole array as a sequence of rows. */
  function Cells(g: array2<char>): (cells: seq<seq<char>>)
    reads g
    ensures |cells| == g.Length0
    ensures forall r :: 0 <= r < g.Length0 ==> cells[r] == Row(g, r)
  {
    seq(g.Length0, r requires 0 <= r < g.Length0 reads g => Row(g, r))
  }

  /** Every row of cells has a cell at index col. */
  predicate HasColumn(cells: seq<seq<char>>, col: nat)
  {
    forall r :: 0 <= r < |cells| ==> col < |cells[r]|
  }

  /** Column col of the grid, read top to bottom; a row too short to have
      that column reads as blocked there. */
  function Column(cells: seq<seq<char>>, col: nat): (line: seq<char>)
    ensures |line| == |cells|
    ensures forall r :: 0 <= r < |cells| && col < |cells[r]| ==> line[r] == cells[r][col]
  {
    seq(|cells|, r requires 0 <= r < |cells| => if col < |cells[r]| then cells[r][col] else BLOCK)
  }

  /** Column col of the array, read top to bottom. */
  function ColumnOf(g: array2<char>, col: nat): (line: seq<char>)
    reads g
    requires col < g.Length1
    ensures |line| == g.Length0
    ensures forall r :: 0 <= r < g.Length0 ==> line[r] == g[r, col]
  {
    seq(g.Length0, r requires 0 <= r < g.Length0 reads g => g[r, col])
  }

  /** The vertical scanner's answer on the grid's rows is the run of the
      array's column. */
  lemma VerticalInfoOfArray(g: array2<char>, row: nat, col: nat)
    requires row <= g.Length0 && col < g.Length1
    ensures VerticalInfo(Cells(g), row, col) == RunThrough(ColumnOf(g, col), row)
  {
    assert ColumnOf(g, col) == Column(Cells(g), col);
  }

  /** (r, c) or its 180-degree mirror image is one of the listed squares. */
  predicate Marked(squares: seq<(int, int)>, rows: nat, cols: nat, r: int, c: int)
  {
    (r, c) in squares || (rows - 1 - r, cols - 1 - c) in squares
  }

  /** Blockedness is invariant under 180-degree rotation. */
  predicate Symmetric(g: array2<char>)
    reads g
  {
    forall r, c :: 0 <= r < g.Length0 && 0 <= c < g.Length1 ==>
      (g[r, c] == BLOCK <==> g[g.Length0 - 1 - r, g.Length1 - 1 - c] == BLOCK)
  }

  /** A fresh rows x cols grid, open everywhere except at the listed black
      squares and their mirror images.  Python raises IndexError for a square
      outside the grid, so every square must lie inside. */
  method CreateSymmetricalGrid(rows: nat, cols: nat, blackSquares: seq<(int, int)>)
    returns (g: array2<char>)
    requires forall k :: 0 <= k < |blackSquares| ==>
      0 <= blackSquares[k].0 < rows && 0 <= blackSquares[k].1 < cols
    ensures fresh(g) && g.Length0 == rows && g.Length1 == cols
    ensures forall r, c :: 0 <= r < rows && 0 <= c < cols ==>
      g[r, c] == if Marked(blackSquares, rows, cols, r, c) then BLOCK else OPEN
    ensures Symmetric(g)
  {
    g := new char[rows, cols]((_, _) => OPEN);
    for k := 0 to |blackSquares|
      invariant forall r, c :: 0 <= r < rows && 0 <= c < cols ==>
        g[r, c] == if Marked(blackSquares[..k], rows, cols, r, c) then BLOCK else OPEN
    {
      var (row, col) := blackSquares[k];
      g[row, col] := BLOCK;
      g[rows - row - 1, cols - col - 1] := BLOCK;
      assert blackSquares[..k + 1] == blackSquares[..k] + [(row, col)];
    }
    assert blackSquares[..|blackSquares|] == blackSquares;
  }

  /** No cell of the grid is open. */
  predicate IsGridFilled(cells: seq<seq<char>>)
  {
    forall r, c :: 0 <= r < |cells| && 0 <= c < |cells[r]| ==> cells[r][c] != OPEN
  }

  /** The horizontal open run at (row, col); 0 below the last row. */
  function OpenRunAcross(cells: seq<seq<char>>, row: nat, col: nat): (n: nat)
    ensures row >= |cells| ==> n == 0
    ensures row < |cells| ==> n == OpenRunFrom(cells[row], col)
  {
    if row < |cells| then OpenRunFrom(cells[row], col) else 0
  }

  /** A grid is filled exactly when the horizontal scanner finds no open
      cell anywhere. */
  lemma {:induction false} FilledIffNoOpenRun(cells: seq<seq<char>>)
    ensures IsGridFilled(cells) <==> forall r: nat, c: nat :: OpenRunAcross(cells, r, c) == 0
  {
    if IsGridFilled(cells) {
      forall r: nat, c: nat ensures OpenRunAcross(cells, r, c) == 0 {
        if r < |cells| && c < |cells[r]| {
          assert cells[r][c] != OPEN;
        }
      }
    } else {
      var r, c :| 0 <= r < |cells| && 0 <= c < |cells[r]| && cells[r][c] == OPEN;
      assert OpenRunAcross(cells, r, c) > 0;
    }
  }

  /** The horizontal scanner: counts open cells from (row, col) rightwards. */
  method FindOpenSpaceAcross(g: array2<char>, row: nat, col: nat) returns (length: nat)
    ensures length == OpenRunAcross(Cells(g), row, col)
    ensures length > 0 ==> row < g.Length0 && col + length <= g.Length1
    ensures forall c :: col <= c < col + length ==> g[row, c] == OPEN
    ensures row < g.Length0 && col + length < g.Length1 ==> g[row, col + length] != OPEN
  {
    length := 0;
    var c := col;
    while c < g.Length1 && row < g.Length0 && g[row, c] == OPEN
      invariant c == col + length
      invariant OpenRunAcross(Cells(g), row, col) == length + OpenRunAcross(Cells(g), row, c)
      decreases g.Length1 - c
    {
      length := length + 1;
      c := c + 1;
    }
  }

  /** The vertical scanner's answer for (row, col): the run of column col
      through row (see `RunThrough`). */
  function VerticalInfo(cells: seq<seq<char>>, row: nat, col: nat): (v: VerticalWord)
    requires row <= |cells|
    ensures |v.letters| <= v.length
    ensures row < |cells| ==> row + v.downCount < |cells|
    ensures row < |cells| && col < |cells[row]| && cells[row][col] != BLOCK ==> v.downCount < v.length
  {
    RunThrough(Column(cells, col), row)
  }

  /** For a cell that is not blocked, the vertical scanner describes the
      maximal unblocked run [s, e) containing it: its length, its letters top
      to bottom, and how many of its cells lie strictly below row. */
  lemma {:induction false} VerticalInfoIsMaximalRun(cells: seq<seq<char>>, row: nat, col: nat, s: nat, e: nat)
    requires HasColumn(cells, col)
    requires s <= row < e <= |cells|
    requires forall r :: s <= r < e ==> cells[r][col] != BLOCK
    requires s == 0 || cells[s - 1][col] == BLOCK
    requires e == |cells| || cells[e][col] == BLOCK
    ensures VerticalInfo(cells, row, col) == VerticalWord(e - s, LettersIn(Column(cells, col), s, e), e - 1 - row)
  {
    var line := Column(cells, col);
    RunStartIs(line, row, s);
    RunEndIs(line, s, e);
  }

  /** The vertical scanner on the array. */
  method GetVerticalWordInfo(g: array2<char>, row: nat, col: nat)
    returns (length: nat, letters: string, downCount: nat)
    requires row <= g.Length0 && col < g.Length1
    ensures VerticalWord(length, letters, downCount) == RunThrough(ColumnOf(g, col), row)
  {
    ghost var line := ColumnOf(g, col);
    var startRow: nat := row;
    while startRow > 0 && g[startRow - 1, col] != BLOCK
      invariant startRow <= row
      invariant forall r :: startRow <= r < row ==> g[r, col] != BLOCK
    {
      startRow := startRow - 1;
    }
    length, letters, downCount := 0, "", 0;
    var currentRow := startRow;
    while currentRow < g.Length0 && g[currentRow, col] != BLOCK
      invariant startRow <= currentRow <= g.Length0
      invariant forall r :: startRow <= r < currentRow ==> g[r, col] != BLOCK
      invariant length == currentRow - startRow
      invariant letters == LettersIn(line, startRow, currentRow)
      invariant downCount == if currentRow > row + 1 then currentRow - row - 1 else 0
    {
      var cell := g[currentRow, col];
      assert cell == line[currentRow];
      if cell != OPEN {
        letters := letters + [cell];
      }
      length := length + 1;
      if currentRow > row {
        downCount := downCount + 1;
      }
      currentRow := currentRow + 1;
    }
    RunStartIs(line, row, startRow);
    RunEndIs(line, startRow, currentRow);
  }

  /** Writes word into row from column col onwards; nothing else changes. */
  method PlaceWord(g: array2<char>, word: string, row: nat, col: nat)
    requires row < g.Length0 && col + |word| <= g.Length1
    modifies g
    ensures Row(g, row) == Placed(old(Row(g, row)), word, col)
    ensures forall r, c :: 0 <= r < g.Length0 && r != row && 0 <= c < g.Length1 ==> g[r, c] == old(g[r, c])
  {
    ghost var line := Row(g, row);
    for i := 0 to |word|
      invariant forall c :: 0 <= c < g.Length1 ==>
        g[row, c] == if col <= c < col + i then word[c - col] else line[c]
      invariant forall r, c :: 0 <= r < g.Length0 && r != row && 0 <= c < g.Length1 ==> g[r, c] == old(g[r, c])
    {
      g[row, col + i] := word[i];
    }
    ghost var placed := Placed(line, word, col);
    assert forall c :: 0 <= c < g.Length1 ==> Row(g, row)[c] == placed[c];
  }

  /** Clears the whole unblocked run of row around column col (see
      `ClearRun`) and returns what it held; the other rows do not change. */
  method RemoveHorizontalWord(g: array2<char>, row: nat, col: nat) returns (removed: string)
    requires row < g.Length0 && col <= g.Length1
    modifies g
    ensures ClearRun(old(Row(g, row)), col) == Cleared(Row(g, row), removed)
    ensures forall r, c :: 0 <= r < g.Length0 && r != row && 0 <= c < g.Length1 ==> g[r, c] == old(g[r, c])
  {
    ghost var line := Row(g, row);
    var startCol: nat := col;
    while startCol > 0 && g[row, startCol - 1] != BLOCK
      invariant startCol <= col
      invariant forall c :: startCol <= c < col ==> g[row, c] != BLOCK
    {
      startCol := startCol - 1;
    }
    RunStartIs(line, col, startCol);
    removed := "";
    var endCol := startCol;
    while endCol < g.Length1 && g[row, endCol] != BLOCK
      invariant startCol <= endCol <= g.Length1
      invariant forall c :: startCol <= c < endCol ==> line[c] != BLOCK
      invariant |removed| == endCol - startCol
      invariant forall k :: 0 <= k < |removed| ==> removed[k] == line[startCol + k]
      invariant forall c :: 0 <= c < g.Length1 ==>
        g[row, c] == if startCol <= c < endCol then OPEN else line[c]
      invariant forall r, c :: 0 <= r < g.Length0 && r != row && 0 <= c < g.Length1 ==> g[r, c] == old(g[r, c])
    {
      removed := removed + [g[row, endCol]];
      g[row, endCol] := OPEN;
      endCol := endCol + 1;
    }
    RunEndIs(line, startCol, endCol);
    ClearRunIs(line, Row(g, row), col, startCol, endCol, removed);
  }
}
