/** The answer lists of a filled grid.  Every maximal horizontal or vertical
    run of unblocked cells longer than one cell is an entry, recorded with
    the 1-based row and column of its first cell and its cells' characters.
    Across entries are found row by row, left to right; down entries column
    by column, top to bottom. */
module Answers {
  import opened Lines
  import opened Grid

  /** An entry: 1-based row and column of its first cell, and its cells. */
  datatype Answer = Answer(row: nat, col: nat, word: string)

  /** A run of a line: the index of its first cell and its cells. */
  datatype Run = Run(start: nat, cells: string)

  /** A run of unblocked cells starts at index s: the cell is not blocked and
      it is the first cell or follows a block. */
  predicate StartsRun(line: seq<char>, s: nat)
  {
    s < |line| && line[s] != BLOCK && (s == 0 || line[s - 1] == BLOCK)
  }

  /** An entry of the line: a maximal unblocked run longer than one cell,
      starting at s. */
  predicate IsEntry(line: seq<char>, s: nat, cells: string)
  {
    StartsRun(line, s) && RunEnd(line, s) - s > 1 && cells == line[s..RunEnd(line, s)]
  }

  /** The scan of a line from index c: at the start of a run, take the run
      (when it is longer than one cell) and continue at its end; elsewhere
      move one cell on. */
  function RunsFrom(line: seq<char>, c: nat): (runs: seq<Run>)
    ensures forall i :: 0 <= i < |runs| ==> c <= runs[i].start < |line|
    ensures forall i, j :: 0 <= i < j < |runs| ==> runs[i].start < runs[j].start
    decreases |line| - c
  {
    if c >= |line| then []
    else if StartsRun(line, c) then
      var e := RunEnd(line, c);
      (if e - c > 1 then [Run(c, line[c..e])] else []) + RunsFrom(line, e)
    else RunsFrom(line, c + 1)
  }

  /** The scan from c finds exactly the entries of the line starting at or
      after c. */
  lemma {:induction false} RunsFromMeans(line: seq<char>, c: nat, run: Run)
    ensures run in RunsFrom(line, c) <==> c <= run.start && IsEntry(line, run.start, run.cells)
    decreases |line| - c
  {
    if c < |line| {
      if StartsRun(line, c) {
        var e := RunEnd(line, c);
        RunsFromMeans(line, e, run);
        if c < run.start < e {
          assert line[run.start - 1] != BLOCK;
        }
      } else {
        RunsFromMeans(line, c + 1, run);
      }
    }
  }

  /** The across entries of row r, given the runs of that row. */
  function RowAnswers(r: nat, runs: seq<Run>): seq<Answer>
  {
    seq(|runs|, i requires 0 <= i < |runs| => Answer(r + 1, runs[i].start + 1, runs[i].cells))
  }

  /** The down entries of column c, given the runs of that column. */
  function ColumnAnswers(c: nat, runs: seq<Run>): seq<Answer>
  {
    seq(|runs|, i requires 0 <= i < |runs| => Answer(runs[i].start + 1, c + 1, runs[i].cells))
  }

  /** The across entries of the first n rows, row by row. */
  function AcrossAnswers(cells: seq<seq<char>>, n: nat): seq<Answer>
    requires n <= |cells|
  {
    if n == 0 then [] else AcrossAnswers(cells, n - 1) + RowAnswers(n - 1, RunsFrom(cells[n - 1], 0))
  }

  /** The down entries of the first n columns, column by column. */
  function DownAnswers(cells: seq<seq<char>>, n: nat): seq<Answer>
  {
    if n == 0 then [] else DownAnswers(cells, n - 1) + ColumnAnswers(n - 1, RunsFrom(Column(cells, n - 1), 0))
  }

  /** An across entry of row r is a run of the row, at its 1-based
      position. */
  lemma InRowAnswers(r: nat, runs: seq<Run>, a: Answer)
    ensures a in RowAnswers(r, runs) <==> a.row == r + 1 && 1 <= a.col && Run(a.col - 1, a.word) in runs
  {
    var row := RowAnswers(r, runs);
    if a in row {
      var i :| 0 <= i < |row| && row[i] == a;
      assert runs[i] == Run(a.col - 1, a.word);
    }
    if a.row == r + 1 && 1 <= a.col && Run(a.col - 1, a.word) in runs {
      var i :| 0 <= i < |runs| && runs[i] == Run(a.col - 1, a.word);
      assert row[i] == a;
    }
  }

  /** A down entry of column c is a run of the column, at its 1-based
      position. */
  lemma InColumnAnswers(c: nat, runs: seq<Run>, a: Answer)
    ensures a in ColumnAnswers(c, runs) <==> a.col == c + 1 && 1 <= a.row && Run(a.row - 1, a.word) in runs
  {
    var column := ColumnAnswers(c, runs);
    if a in column {
      var i :| 0 <= i < |column| && column[i] == a;
      assert runs[i] == Run(a.row - 1, a.word);
    }
    if a.col == c + 1 && 1 <= a.row && Run(a.row - 1, a.word) in runs {
      var i :| 0 <= i < |runs| && runs[i] == Run(a.row - 1, a.word);
      assert column[i] == a;
    }
  }

  /** The across entries of one row are exactly the row's entries, at
      their 1-based positions. */
  lemma RowAnswersMeans(line: seq<char>, r: nat, a: Answer)
    ensures a in RowAnswers(r, RunsFrom(line, 0)) <==>
      a.row == r + 1 && 1 <= a.col && IsEntry(line, a.col - 1, a.word)
  {
    InRowAnswers(r, RunsFrom(line, 0), a);
    if 1 <= a.col {
      RunsFromMeans(line, 0, Run(a.col - 1, a.word));
    }
  }

  /** The down entries of one column are exactly the column's entries, at
      their 1-based positions. */
  lemma ColumnAnswersMeans(line: seq<char>, c: nat, a: Answer)
    ensures a in ColumnAnswers(c, RunsFrom(line, 0)) <==>
      a.col == c + 1 && 1 <= a.row && IsEntry(line, a.row - 1, a.word)
  {
    InColumnAnswers(c, RunsFrom(line, 0), a);
    if 1 <= a.row {
      RunsFromMeans(line, 0, Run(a.row - 1, a.word));
    }
  }

  /** An across entry of the first n rows is exactly an entry of one of
      those rows, at its 1-based position. */
  lemma {:induction false} AcrossAnswersMeans(cells: seq<seq<char>>, n: nat, a: Answer)
    requires n <= |cells|
    ensures a in AcrossAnswers(cells, n) <==>
      1 <= a.row <= n && 1 <= a.col && IsEntry(cells[a.row - 1], a.col - 1, a.word)
  {
    if n > 0 {
      var earlier := AcrossAnswers(cells, n - 1);
      var row := RowAnswers(n - 1, RunsFrom(cells[n - 1], 0));
      assert a in earlier + row <==> a in earlier || a in row;
      AcrossAnswersMeans(cells, n - 1, a);
      RowAnswersMeans(cells[n - 1], n - 1, a);
    }
  }

  /** A down entry of the first n columns is exactly an entry of one of
      those columns, at its 1-based position. */
  lemma {:induction false} DownAnswersMeans(cells: seq<seq<char>>, n: nat, a: Answer)
    ensures a in DownAnswers(cells, n) <==>
      1 <= a.col <= n && 1 <= a.row && IsEntry(Column(cells, a.col - 1), a.row - 1, a.word)
  {
    if n > 0 {
      var line := Column(cells, n - 1);
      var earlier := DownAnswers(cells, n - 1);
      var column := ColumnAnswers(n - 1, RunsFrom(line, 0));
      assert DownAnswers(cells, n) == earlier + column;
      assert a in earlier + column <==> a in earlier || a in column;
      DownAnswersMeans(cells, n - 1, a);
      ColumnAnswersMeans(line, n - 1, a);
    }
  }

  /** Every row has the first row's width. */
  predicate Rectangular(cells: seq<seq<char>>)
  {
    |cells| > 0 && forall r :: 0 <= r < |cells| ==> |cells[r]| == |cells[0]|
  }

  /** Concatenation regroups. */
  lemma AppendAssociates(a: seq<Run>, b: seq<Run>, c: seq<Run>)
    ensures a + (b + c) == (a + b) + c
  {
  }

  /** The inner walk over a run from its start: the cells up to the first
      block or the line's end. */
  method ReadRun(line: seq<char>, start: nat) returns (word: string, end: nat)
    requires start <= |line|
    ensures end == RunEnd(line, start) && word == line[start..end]
  {
    word := "";
    end := start;
    while end < |line| && line[end] != BLOCK
      invariant start <= end <= |line|
      invariant Unblocked(line, start, end)
      invariant word == line[start..end]
    {
      word := word + [line[end]];
      end := end + 1;
    }
    RunEndIs(line, start, end);
  }

  /** The scan of one line as the answer extraction does it: the runs the
      loop collects, in order. */
  method ScanLine(line: seq<char>) returns (runs: seq<Run>)
    ensures runs == RunsFrom(line, 0)
  {
    runs := [];
    var c := 0;
    while c < |line|
      invariant c <= |line|
      invariant runs + RunsFrom(line, c) == RunsFrom(line, 0)
    {
      if line[c] != BLOCK && (c == 0 || line[c - 1] == BLOCK) {
        var word, end := ReadRun(line, c);
        ghost var found := if |word| > 1 then [Run(c, word)] else [];
        ghost var rest := RunsFrom(line, end);
        assert RunsFrom(line, c) == found + rest;
        AppendAssociates(runs, found, rest);
        if |word| > 1 {
          runs := runs + [Run(c, word)];
        }
        c := end;
      } else {
        c := c + 1;
      }
    }
  }

  /** The answer extraction: the across entries row by row, then the down
      entries column by column, each row or column scanned by `ScanLine`. */
  method OutputWordlist(cells: seq<seq<char>>) returns (across: seq<Answer>, down: seq<Answer>)
    requires Rectangular(cells)
    ensures across == AcrossAnswers(cells, |cells|)
    ensures down == DownAnswers(cells, |cells[0]|)
  {
    across := [];
    for row := 0 to |cells|
      invariant across == AcrossAnswers(cells, row)
    {
      var runs := ScanLine(cells[row]);
      across := across + RowAnswers(row, runs);
    }
    down := [];
    for col := 0 to |cells[0]|
      invariant down == DownAnswers(cells, col)
    {
      var runs := ScanLine(Column(cells, col));
      down := down + ColumnAnswers(col, runs);
    }
  }

  /** The start of an entry, the key the lists are sorted and numbered by. */
  function Key(a: Answer): (nat, nat)
  {
    (a.row, a.col)
  }

  /** Lexicographic order on starts: by row, then by column. */
  predicate Before(k1: (nat, nat), k2: (nat, nat))
  {
    k1.0 < k2.0 || (k1.0 == k2.0 && k1.1 < k2.1)
  }

  /** Entries in non-decreasing order of their starts. */
  predicate SortedByStart(xs: seq<Answer>)
  {
    forall i, j :: 0 <= i < j < |xs| ==> !Before(Key(xs[j]), Key(xs[i]))
  }

  /** x inserted into a sorted list in front of the first entry that does
      not start before it, so entries with equal starts keep their order. */
  function Insert(x: Answer, xs: seq<Answer>): (r: seq<Answer>)
    ensures multiset(r) == multiset(xs) + multiset{x}
    ensures forall i :: 0 <= i < |r| ==> r[i] == x || r[i] in xs
  {
    if xs == [] || !Before(Key(xs[0]), Key(x)) then [x] + xs
    else
      assert xs == [xs[0]] + xs[1..];
      [xs[0]] + Insert(x, xs[1..])
  }

  /** Insertion keeps a list sorted by start. */
  lemma {:induction false} InsertSorted(x: Answer, xs: seq<Answer>)
    requires SortedByStart(xs)
    ensures SortedByStart(Insert(x, xs))
  {
    var r := Insert(x, xs);
    if xs == [] || !Before(Key(xs[0]), Key(x)) {
      forall i, j | 0 <= i < j < |r| ensures !Before(Key(r[j]), Key(r[i])) {
        if i > 0 {
          assert r[i] == xs[i - 1] && r[j] == xs[j - 1];
        }
      }
    } else {
      var rest := Insert(x, xs[1..]);
      InsertSorted(x, xs[1..]);
      assert r == [xs[0]] + rest;
      forall i, j | 0 <= i < j < |r| ensures !Before(Key(r[j]), Key(r[i])) {
        if i == 0 {
          assert r[j] == rest[j - 1];
          if rest[j - 1] != x {
            var m :| 0 <= m < |xs[1..]| && xs[1..][m] == rest[j - 1];
            assert xs[m + 1] == rest[j - 1];
          }
        } else {
          assert r[i] == rest[i - 1] && r[j] == rest[j - 1];
        }
      }
    }
  }

  /** The entries sorted by start (a stable insertion sort, as Python's sorted
      is stable). */
  function SortByStart(xs: seq<Answer>): (r: seq<Answer>)
    ensures SortedByStart(r)
    ensures multiset(r) == multiset(xs)
  {
    if xs == [] then []
    else
      assert xs == [xs[0]] + xs[1..];
      InsertSorted(xs[0], SortByStart(xs[1..]));
      Insert(xs[0], SortByStart(xs[1..]))
  }

  /** Two different starts are ordered one way or the other. */
  lemma BeforeTotal(k1: (nat, nat), k2: (nat, nat))
    ensures k1 == k2 || Before(k1, k2) || Before(k2, k1)
  {
  }

  /** The numbers given are exactly 1, 2, ..., up to the number of starts
      numbered. */
  predicate Consecutive(numbers: map<(nat, nat), nat>)
  {
    && (forall k :: k in numbers ==> numbers[k] <= |numbers|)
    && (forall n :: 1 <= n <= |numbers| ==> n in numbers.Values)
  }

  /** Numbering a start later than every numbered one with the next number
      keeps the numbering ordered and consecutive. */
  lemma NextNumber(numbers: map<(nat, nat), nat>, key: (nat, nat))
    requires OrderedNumbering(numbers) && Consecutive(numbers)
    requires key !in numbers && forall k :: k in numbers ==> Before(k, key)
    ensures var next := numbers[key := |numbers| + 1];
      |next| == |numbers| + 1 && OrderedNumbering(next) && Consecutive(next)
  {
    var next := numbers[key := |numbers| + 1];
    assert next.Keys == numbers.Keys + {key};
    assert |next| == |numbers| + 1;
    forall n | 1 <= n <= |next| ensures n in next.Values {
      if n == |next| {
        assert next[key] == n;
      } else {
        assert n in numbers.Values;
        var k :| k in numbers && numbers[k] == n;
        assert next[k] == n;
      }
    }
    forall k1, k2 | k1 in next && k2 in next && Before(k1, k2) ensures next[k1] < next[k2] {
      if k2 == key {
        assert k1 in numbers;
      } else if k1 == key {
        assert false;
      }
    }
  }

  /** The numbering loop: walking the entries in order of their starts, each
      start not numbered yet gets the next number, counting from 1.  The
      numbers are then 1, 2, ..., up to the number of distinct starts, given
      in the order of the starts. */
  method AssignNumbers(all: seq<Answer>) returns (numbers: map<(nat, nat), nat>)
    requires SortedByStart(all)
    ensures numbers.Keys == set i | 0 <= i < |all| :: Key(all[i])
    ensures OrderedNumbering(numbers) && Consecutive(numbers)
  {
    numbers := map[];
    var wordNumber := 1;
    for i := 0 to |all|
      invariant wordNumber == |numbers| + 1
      invariant numbers.Keys == set j | 0 <= j < i :: Key(all[j])
      invariant OrderedNumbering(numbers) && Consecutive(numbers)
    {
      var key := Key(all[i]);
      if key !in numbers {
        forall k | k in numbers ensures Before(k, key) {
          assert k in numbers.Keys;
          var j :| 0 <= j < i && Key(all[j]) == k;
          BeforeTotal(k, key);
        }
        NextNumber(numbers, key);
        numbers := numbers[key := wordNumber];
        wordNumber := wordNumber + 1;
      }
    }
  }

  /** Different starts have different numbers. */
  lemma NumbersDistinct(numbers: map<(nat, nat), nat>, k1: (nat, nat), k2: (nat, nat))
    requires forall k1, k2 :: k1 in numbers && k2 in numbers && Before(k1, k2) ==> numbers[k1] < numbers[k2]
    requires k1 in numbers && k2 in numbers
    ensures numbers[k1] == numbers[k2] <==> k1 == k2
  {
    BeforeTotal(k1, k2);
  }

  /** One numbered list: every entry is stored under its start's number, a
      later entry replacing an earlier one with the same number. */
  method NumberEntries(answers: seq<Answer>, numbers: map<(nat, nat), nat>) returns (numbered: map<nat, Answer>)
    requires forall i :: 0 <= i < |answers| ==> Key(answers[i]) in numbers
    ensures numbered.Keys == set i | 0 <= i < |answers| :: numbers[Key(answers[i])]
    ensures forall n :: n in numbered ==>
      exists i :: 0 <= i < |answers| && numbered[n] == answers[i] && numbers[Key(answers[i])] == n
  {
    numbered := map[];
    for i := 0 to |answers|
      invariant numbered.Keys == set j | 0 <= j < i :: numbers[Key(answers[j])]
      invariant forall n :: n in numbered ==>
        exists j :: 0 <= j < i && numbered[n] == answers[j] && numbers[Key(answers[j])] == n
    {
      var a := answers[i];
      numbered := numbered[numbers[Key(a)] := a];
    }
  }

  /** Numbered entries agree with the order of their starts: two entries
      share a number exactly when they share a start, and an entry starting
      earlier has a smaller number. */
  predicate NumberedInOrder(m1: map<nat, Answer>, m2: map<nat, Answer>)
  {
    forall n, m :: n in m1 && m in m2 ==>
      (n == m <==> Key(m1[n]) == Key(m2[m])) && (Before(Key(m1[n]), Key(m2[m])) ==> n < m)
  }

  /** A numbering of starts by positive numbers that follows their order. */
  predicate OrderedNumbering(numbers: map<(nat, nat), nat>)
  {
    && (forall k :: k in numbers ==> numbers[k] >= 1)
    && (forall k1, k2 :: k1 in numbers && k2 in numbers && Before(k1, k2) ==> numbers[k1] < numbers[k2])
  }

  /** Every entry of a numbered list is stored under its start's number. */
  predicate NumberedBy(numbered: map<nat, Answer>, numbers: map<(nat, nat), nat>)
  {
    forall n :: n in numbered ==> Key(numbered[n]) in numbers && numbers[Key(numbered[n])] == n
  }

  /** Entries with the same start are the same entry. */
  predicate KeysDetermine(answers: seq<Answer>)
  {
    forall a, b :: a in answers && b in answers && Key(a) == Key(b) ==> a == b
  }

  /** Within the across list and within the down list a start determines
      the entry. */
  lemma StartsDetermineEntries(cells: seq<seq<char>>)
    requires Rectangular(cells)
    ensures KeysDetermine(AcrossAnswers(cells, |cells|))
    ensures KeysDetermine(DownAnswers(cells, |cells[0]|))
  {
    var across := AcrossAnswers(cells, |cells|);
    forall a, b | a in across && b in across && Key(a) == Key(b) ensures a == b {
      AcrossAnswersMeans(cells, |cells|, a);
      AcrossAnswersMeans(cells, |cells|, b);
    }
    var down := DownAnswers(cells, |cells[0]|);
    forall a, b | a in down && b in down && Key(a) == Key(b) ensures a == b {
      DownAnswersMeans(cells, |cells[0]|, a);
      DownAnswersMeans(cells, |cells[0]|, b);
    }
  }

  /** Numbering a list whose starts determine its entries keeps every entry
      and stores each under its start's number. */
  lemma NumberedList(answers: seq<Answer>, numbers: map<(nat, nat), nat>, numbered: map<nat, Answer>)
    requires forall i :: 0 <= i < |answers| ==> Key(answers[i]) in numbers
    requires OrderedNumbering(numbers)
    requires KeysDetermine(answers)
    requires numbered.Keys == set i | 0 <= i < |answers| :: numbers[Key(answers[i])]
    requires forall n :: n in numbered ==>
      exists i :: 0 <= i < |answers| && numbered[n] == answers[i] && numbers[Key(answers[i])] == n
    ensures forall a :: a in numbered.Values <==> a in answers
    ensures NumberedBy(numbered, numbers)
  {
    forall i | 0 <= i < |answers| ensures answers[i] in numbered.Values {
      var n := numbers[Key(answers[i])];
      assert n in numbered;
      var j :| 0 <= j < |answers| && numbered[n] == answers[j] && numbers[Key(answers[j])] == n;
      NumbersDistinct(numbers, Key(answers[i]), Key(answers[j]));
    }
  }

  /** Two lists numbered by the same ordered numbering of starts agree with
      the order of their starts, and use positive numbers only. */
  lemma SameNumbering(numbers: map<(nat, nat), nat>, m1: map<nat, Answer>, m2: map<nat, Answer>)
    requires OrderedNumbering(numbers)
    requires NumberedBy(m1, numbers) && NumberedBy(m2, numbers)
    ensures NumberedInOrder(m1, m2)
    ensures forall n :: n in m1 ==> n >= 1
  {
    forall n, m | n in m1 && m in m2
      ensures (n == m <==> Key(m1[n]) == Key(m2[m])) && (Before(Key(m1[n]), Key(m2[m])) ==> n < m)
    {
      NumbersDistinct(numbers, Key(m1[n]), Key(m2[m]));
    }
  }

  /** Sequences with the same multiset have the same members. */
  lemma SameMembers(xs: seq<Answer>, ys: seq<Answer>)
    requires multiset(xs) == multiset(ys)
    ensures forall a :: a in xs <==> a in ys
  {
    forall a ensures a in xs <==> a in ys {
      assert a in xs <==> a in multiset(xs);
      assert a in ys <==> a in multiset(ys);
    }
  }

  /** The distinct starts of the entries of both lists. */
  function Starts(across: seq<Answer>, down: seq<Answer>): set<(nat, nat)>
  {
    set a | a in across + down :: Key(a)
  }

  /** The numbering of both lists sorted together by start: the distinct
      starts are numbered 1, 2, ..., up to their count, in their order. */
  method NumberStarts(across: seq<Answer>, down: seq<Answer>) returns (numbers: map<(nat, nat), nat>)
    ensures numbers.Keys == Starts(across, down)
    ensures OrderedNumbering(numbers) && Consecutive(numbers)
  {
    var all := SortByStart(across + down);
    numbers := AssignNumbers(all);
    SameMembers(all, across + down);
    forall k | k in Starts(across, down) ensures k in numbers {
      var a :| a in across + down && Key(a) == k;
      assert a in all;
      var i :| 0 <= i < |all| && all[i] == a;
    }
    forall k | k in numbers ensures k in Starts(across, down) {
      var i :| 0 <= i < |all| && Key(all[i]) == k;
      assert all[i] in across + down;
    }
  }

  /** Two lists numbered by a consecutive numbering of exactly their starts
      use, between them, exactly the numbers 1 up to the count of starts. */
  lemma NumbersCovered(across: seq<Answer>, down: seq<Answer>, numbers: map<(nat, nat), nat>,
                       acrossNumbered: map<nat, Answer>, downNumbered: map<nat, Answer>)
    requires numbers.Keys == Starts(across, down)
    requires OrderedNumbering(numbers) && Consecutive(numbers)
    requires forall a :: a in acrossNumbered.Values <==> a in across
    requires forall a :: a in downNumbered.Values <==> a in down
    requires NumberedBy(acrossNumbered, numbers) && NumberedBy(downNumbered, numbers)
    ensures forall n :: n in acrossNumbered || n in downNumbered <==> 1 <= n <= |Starts(across, down)|
  {
    assert |numbers| == |Starts(across, down)| by {
      assert numbers.Keys == Starts(across, down);
    }
    forall n | n in acrossNumbered || n in downNumbered ensures 1 <= n <= |numbers| {
      var k := if n in acrossNumbered then Key(acrossNumbered[n]) else Key(downNumbered[n]);
      assert k in numbers && numbers[k] == n;
    }
    forall n | 1 <= n <= |numbers| ensures n in acrossNumbered || n in downNumbered {
      assert n in numbers.Values;
      var k :| k in numbers && numbers[k] == n;
      var a :| a in across + down && Key(a) == k;
      if a in across {
        assert a in acrossNumbered.Values;
        var m :| m in acrossNumbered && acrossNumbered[m] == a;
        assert numbers[Key(acrossNumbered[m])] == m;
      } else {
        assert a in downNumbered.Values;
        var m :| m in downNumbered && downNumbered[m] == a;
        assert numbers[Key(downNumbered[m])] == m;
      }
    }
  }

  /** One list numbered by an ordered numbering of starts, when its starts
      determine its entries. */
  method NumberList(answers: seq<Answer>, numbers: map<(nat, nat), nat>) returns (numbered: map<nat, Answer>)
    requires OrderedNumbering(numbers)
    requires KeysDetermine(answers)
    requires forall a :: a in answers ==> Key(a) in numbers
    ensures forall a :: a in numbered.Values <==> a in answers
    ensures NumberedBy(numbered, numbers)
  {
    numbered := NumberEntries(answers, numbers);
    NumberedList(answers, numbers, numbered);
  }

  /** The numbered word lists: the across and down entries sorted together
      by start are numbered 1, 2, ... over their distinct starts; each across
      entry, in list order, and each down entry, in order of start, is stored
      under its start's number. */
  method PrintAndStoreWordLists(cells: seq<seq<char>>) returns (acrossNumbered: map<nat, Answer>, downNumbered: map<nat, Answer>)
    requires Rectangular(cells)
    ensures forall a :: a in acrossNumbered.Values <==> a in AcrossAnswers(cells, |cells|)
    ensures forall a :: a in downNumbered.Values <==> a in DownAnswers(cells, |cells[0]|)
    ensures forall n :: n in acrossNumbered ==> n >= 1
    ensures forall n :: n in downNumbered ==> n >= 1
    ensures NumberedInOrder(acrossNumbered, acrossNumbered) && NumberedInOrder(downNumbered, downNumbered)
    ensures NumberedInOrder(acrossNumbered, downNumbered) && NumberedInOrder(downNumbered, acrossNumbered)
    ensures forall n :: n in acrossNumbered || n in downNumbered <==>
      1 <= n <= |Starts(AcrossAnswers(cells, |cells|), DownAnswers(cells, |cells[0]|))|
  {
    var across, down := OutputWordlist(cells);
    var numbers := NumberStarts(across, down);
    StartsDetermineEntries(cells);
    acrossNumbered := NumberList(across, numbers);
    var sortedDown := SortByStart(down);
    SameMembers(sortedDown, down);
    downNumbered := NumberList(sortedDown, numbers);
    SameNumbering(numbers, acrossNumbered, acrossNumbered);
    SameNumbering(numbers, downNumbered, downNumbered);
    SameNumbering(numbers, acrossNumbered, downNumbered);
    SameNumbering(numbers, downNumbered, acrossNumbered);
    NumbersCovered(across, down, numbers, acrossNumbered, downNumbered);
  }
}
