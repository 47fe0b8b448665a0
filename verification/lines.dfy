/** One line of the crossword grid (a row, or a column read top to bottom)
    as a sequence of cells: '#' is a blocked cell, '.' an open cell and any
    other character a placed letter.  The run arithmetic shared by the
    horizontal and vertical scanners, and the pure meaning of writing a word
    into a line and clearing a run out of it, live here. */
module Lines {

  const BLOCK: char := '#'
  const OPEN: char := '.'

  /** No blocked cell in line[lo..hi]. */
  predicate Unblocked(line: seq<char>, lo: nat, hi: nat)
    requires lo <= hi <= |line|
  {
    forall k :: lo <= k < hi ==> line[k] != BLOCK
  }

  /** The walk towards the start of the line over unblocked cells before
      position i: the first index of the unblocked stretch that ends at i. */
  function RunStart(line: seq<char>, i: nat): (s: nat)
    requires i <= |line|
    ensures s <= i && Unblocked(line, s, i)
    ensures s == 0 || line[s - 1] == BLOCK
    decreases i
  {
    if i > 0 && line[i - 1] != BLOCK then RunStart(line, i - 1) else i
  }

  /** The walk towards the end of the line over unblocked cells from
      position i: the index of the first blocked cell (or the line's end). */
  function RunEnd(line: seq<char>, i: nat): (e: nat)
    requires i <= |line|
    ensures i <= e <= |line| && Unblocked(line, i, e)
    ensures e == |line| || line[e] == BLOCK
    decreases |line| - i
  {
    if i < |line| && line[i] != BLOCK then RunEnd(line, i + 1) else i
  }

  /** An unblocked stretch grows by an unblocked cell before it. */
  lemma UnblockedDown(line: seq<char>, lo: nat, hi: nat)
    requires lo < hi <= |line| && Unblocked(line, lo + 1, hi) && line[lo] != BLOCK
    ensures Unblocked(line, lo, hi)
  {
  }

  /** A stretch of unblocked cells from lo up to i lies in i's run. */
  lemma RunStartBefore(line: seq<char>, lo: nat, i: nat)
    requires lo <= i <= |line| && Unblocked(line, lo, i)
    ensures RunStart(line, i) <= lo
    decreases i
  {
    if lo < i {
      RunStartBefore(line, lo, i - 1);
    }
  }

  /** The contract of RunStart determines it: any s with the same three
      properties is the result. */
  lemma RunStartIs(line: seq<char>, i: nat, s: nat)
    requires s <= i <= |line| && Unblocked(line, s, i)
    requires s == 0 || line[s - 1] == BLOCK
    ensures RunStart(line, i) == s
  {
  }

  /** The contract of RunEnd determines it. */
  lemma RunEndIs(line: seq<char>, i: nat, e: nat)
    requires i <= e <= |line| && Unblocked(line, i, e)
    requires e == |line| || line[e] == BLOCK
    ensures RunEnd(line, i) == e
  {
  }

  /** Cell k lies in the unblocked run around position j. */
  predicate InRunOf(line: seq<char>, j: nat, k: nat)
    requires j <= |line|
  {
    RunStart(line, j) <= k < RunEnd(line, RunStart(line, j))
  }

  /** An unblocked cell lies in its own run. */
  lemma InOwnRun(line: seq<char>, j: nat)
    requires j < |line| && line[j] != BLOCK
    ensures InRunOf(line, j, j)
  {
  }

  /** Every cell of a run has the run's start as its own start. */
  lemma RunOfCell(line: seq<char>, j: nat, k: nat)
    requires j <= |line| && InRunOf(line, j, k)
    ensures RunStart(line, k) == RunStart(line, j)
  {
    var s := RunStart(line, j);
    assert Unblocked(line, s, k);
    RunStartIs(line, k, s);
  }

  /** Runs that share a cell are one run: an unblocked cell in the run of j1
      that shares a cell with its own run lies in the run of j1. */
  lemma SameRun(line: seq<char>, j1: nat, j2: nat, k: nat)
    requires j1 <= |line| && j2 < |line| && line[j2] != BLOCK
    requires InRunOf(line, j1, k) && InRunOf(line, j2, k)
    ensures InRunOf(line, j1, j2)
  {
    RunOfCell(line, j1, k);
    RunOfCell(line, j2, k);
    InOwnRun(line, j2);
  }

  /** Two lines with their blocked cells in the same places. */
  predicate SameBlocksLine(a: seq<char>, b: seq<char>)
  {
    |a| == |b| && forall k :: 0 <= k < |a| ==> (a[k] == BLOCK <==> b[k] == BLOCK)
  }

  /** The run walks only look at blocked cells, so lines with the same
      blocks have the same runs. */
  lemma RunsOfSameBlocks(a: seq<char>, b: seq<char>, i: nat)
    requires SameBlocksLine(a, b) && i <= |a|
    ensures RunStart(a, i) == RunStart(b, i) && RunEnd(a, i) == RunEnd(b, i)
  {
    RunStartIs(b, i, RunStart(a, i));
    RunEndIs(b, i, RunEnd(a, i));
  }

  /** Number of consecutive open cells from position i (0 past the end). */
  function OpenRunFrom(line: seq<char>, i: nat): (n: nat)
    ensures n > 0 ==> i + n <= |line|
    ensures forall k :: i <= k < i + n ==> line[k] == OPEN
    ensures i + n >= |line| || line[i + n] != OPEN
    decreases |line| - i
  {
    if i < |line| && line[i] == OPEN then 1 + OpenRunFrom(line, i + 1) else 0
  }

  /** The placed letters of line[a..b], in order: every cell that is not
      open contributes its character. */
  function LettersIn(line: seq<char>, a: nat, b: nat): (r: string)
    requires a <= b <= |line|
    ensures |r| <= b - a
    ensures OPEN !in r
    decreases b - a
  {
    if a == b then []
    else LettersIn(line, a, b - 1) + (if line[b - 1] != OPEN then [line[b - 1]] else [])
  }

  /** A stretch without open cells contributes all of its cells, in order. */
  lemma {:induction false} LettersInFull(line: seq<char>, a: nat, b: nat)
    requires a <= b <= |line|
    requires forall k :: a <= k < b ==> line[k] != OPEN
    ensures LettersIn(line, a, b) == line[a..b]
    decreases b - a
  {
    if a < b {
      LettersInFull(line, a, b - 1);
      assert line[a..b] == line[a..b - 1] + [line[b - 1]];
    }
  }

  /** A stretch of open cells contributes no letter. */
  lemma {:induction false} LettersInOpen(line: seq<char>, a: nat, b: nat)
    requires a <= b <= |line|
    requires forall k :: a <= k < b ==> line[k] == OPEN
    ensures LettersIn(line, a, b) == []
    decreases b - a
  {
    if a < b {
      LettersInOpen(line, a, b - 1);
    }
  }

  /** What the vertical scanner reports about the run crossing a cell. */
  datatype VerticalWord = VerticalWord(length: nat, letters: string, downCount: nat)

  /** The run of line through position row: walk back over unblocked cells
      to the run's start, then forward to the first block, counting the
      cells, taking the placed letters in order and counting the cells past
      row. */
  function RunThrough(line: seq<char>, row: nat): (v: VerticalWord)
    requires row <= |line|
    ensures |v.letters| <= v.length
    ensures row < |line| ==> row + v.downCount < |line|
    ensures row < |line| && line[row] != BLOCK ==> v.downCount < v.length
  {
    var s := RunStart(line, row);
    var e := RunEnd(line, s);
    VerticalWord(e - s, LettersIn(line, s, e), if e > row + 1 then e - row - 1 else 0)
  }

  /** The line after writing word into it from position col onwards. */
  function Placed(line: seq<char>, word: string, col: nat): (r: seq<char>)
    requires col + |word| <= |line|
    ensures |r| == |line|
    ensures forall k :: 0 <= k < |word| ==> r[col + k] == word[k]
    ensures forall k :: 0 <= k < |line| && !(col <= k < col + |word|) ==> r[k] == line[k]
  {
    line[..col] + word + line[col + |word|..]
  }

  /** A line after a run was cleared, with the run's previous contents. */
  datatype Cleared = Cleared(line: seq<char>, removed: string)

  /** Clearing the run around position col: the run starts at the first cell
      after the last block before col and extends to the first block at or
      after that start; every cell of it becomes open, and its previous
      contents, open cells included, are returned. */
  function ClearRun(line: seq<char>, col: nat): (r: Cleared)
    requires col <= |line|
    ensures var s := RunStart(line, col); var e := RunEnd(line, s);
      && |r.line| == |line|
      && r.removed == line[s..e]
      && (forall k :: s <= k < e ==> r.line[k] == OPEN)
      && (forall k :: 0 <= k < |line| && !(s <= k < e) ==> r.line[k] == line[k])
    ensures forall k :: 0 <= k < |line| ==>
      r.line[k] == line[k] || (r.line[k] == OPEN && line[k] != BLOCK)
    ensures BLOCK !in r.removed
    ensures col < |line| && line[col] != BLOCK ==> r.removed != []
  {
    var s := RunStart(line, col);
    var e := RunEnd(line, s);
    Cleared(line[..s] + seq(e - s, _ => OPEN) + line[e..], line[s..e])
  }

  /** A line that agrees with ClearRun's description is its result. */
  lemma ClearRunIs(line: seq<char>, now: seq<char>, col: nat, s: nat, e: nat, removed: string)
    requires col <= |line| == |now|
    requires s == RunStart(line, col) && e == RunEnd(line, s)
    requires |removed| == e - s && forall k :: 0 <= k < |removed| ==> removed[k] == line[s + k]
    requires forall k :: 0 <= k < |now| ==> now[k] == if s <= k < e then OPEN else line[k]
    ensures ClearRun(line, col) == Cleared(now, removed)
  {
    assert ClearRun(line, col).line == now;
    assert removed == line[s..e];
  }

  /** Clearing, in a line with the blocks of b, the run around j when that
      run still holds b's cells: the removed string is b's run and exactly
      the cells of that run become open. */
  lemma ClearUntouchedRun(b: seq<char>, cur: seq<char>, j: nat)
    requires j <= |b| && SameBlocksLine(b, cur)
    requires forall k :: 0 <= k < |b| && InRunOf(b, j, k) ==> cur[k] == b[k]
    ensures ClearRun(cur, j).removed == ClearRun(b, j).removed
    ensures forall k :: 0 <= k < |cur| ==> ClearRun(cur, j).line[k] == if InRunOf(b, j, k) then OPEN else cur[k]
  {
    RunsOfSameBlocks(b, cur, j);
    var s := RunStart(b, j);
    RunsOfSameBlocks(b, cur, s);
    var e := RunEnd(b, s);
    assert cur[s..e] == b[s..e];
  }

  /** Writing a word over a maximal run of open cells and then clearing the
      run from any of its cells gives back the word and the original line. */
  lemma {:induction false} PlaceThenClear(line: seq<char>, word: string, s: nat, c: nat)
    requires s <= c < s + |word| <= |line|
    requires forall k :: s <= k < s + |word| ==> line[k] == OPEN
    requires s == 0 || line[s - 1] == BLOCK
    requires s + |word| == |line| || line[s + |word|] == BLOCK
    requires BLOCK !in word
    ensures ClearRun(Placed(line, word, s), c) == Cleared(line, word)
  {
    var p := Placed(line, word, s);
    var e := s + |word|;
    assert RunStart(p, c) == s && RunEnd(p, s) == e by {
      forall k | s <= k < e ensures p[k] != BLOCK {
        assert p[k] == word[k - s];
      }
      RunStartIs(p, c, s);
      RunEndIs(p, s, e);
    }
    ClearRunIs(p, line, c, s, e, word);
  }
}
