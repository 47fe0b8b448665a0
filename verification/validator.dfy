/** The intersection validator: before a word goes into a horizontal run,
    every column it crosses must still be completable.  For each offset i of
    the word, the vertical run through that cell is looked up: its placed
    letters followed by the word's i-th letter form a probe, and the bucket
    for the run's length must hold an entry scoring above the complexity
    threshold whose text starts with the probe.  On the top row every word
    is accepted without looking. */
module Validator {
  import opened Lines
  import opened Grid
  import opened WordBank

  /** The first n characters of w, or all of w when it is shorter (Python's
      slice w[:n]). */
  function SlicePrefix(w: string, n: nat): (r: string)
    ensures |r| == if n <= |w| then n else |w|
    ensures r <= w
  {
    if n <= |w| then w[..n] else w
  }

  /** Comparing the slice of w as long as p with p is a prefix test. */
  lemma SliceMatchesIffPrefix(w: string, p: string)
    ensures SlicePrefix(w, |p|) == p <==> p <= w
  {
  }

  /** An entry supports a probe when it scores above the threshold and its
      slice as long as the probe equals the probe. */
  predicate Supports(e: Entry, probe: string, complexity: int)
  {
    e.score > complexity && SlicePrefix(e.text, |probe|) == probe
  }

  /** A crossing run supports a letter when the bucket for the run's length
      holds an entry supporting the run's placed letters followed by that
      letter. */
  predicate Supported(bank: Bank, v: VerticalWord, letter: char, complexity: int)
  {
    var bucket := Bucket(bank, v.length);
    exists m :: 0 <= m < |bucket| && Supports(bucket[m], v.letters + [letter], complexity)
  }

  /** The runs of the columns col, col+1, ..., col+n-1 through row, as the
      vertical scanner describes them. */
  function Crossings(cells: seq<seq<char>>, row: nat, col: nat, n: nat): (vs: seq<VerticalWord>)
    requires row <= |cells|
    ensures |vs| == n
  {
    seq(n, i requires 0 <= i < n => VerticalInfo(cells, row, col + i))
  }

  /** The word may be placed at (row, col) as far as crossing columns go:
      on the top row always, below it when every offset's letter is
      supported by its crossing run. */
  predicate ValidIntersection(cells: seq<seq<char>>, word: string, row: nat, col: nat, bank: Bank, complexity: int)
    requires row > 0 ==> row <= |cells| && forall r :: 0 <= r < |cells| ==> col + |word| <= |cells[r]|
  {
    row == 0 ||
      var vs := Crossings(cells, row, col, |word|);
      forall i :: 0 <= i < |word| ==> Supported(bank, vs[i], word[i], complexity)
  }

  /** Some entry of the run's bucket scores above the threshold and its text
      starts with the run's placed letters followed by the letter. */
  predicate PrefixSupported(bank: Bank, v: VerticalWord, letter: char, complexity: int)
  {
    var bucket := Bucket(bank, v.length);
    exists m :: 0 <= m < |bucket| && bucket[m].score > complexity && v.letters + [letter] <= bucket[m].text
  }

  /** Support in prefix terms: some entry of the run's bucket scores above
      the threshold and its text starts with the run's placed letters
      followed by the letter. */
  lemma SupportedMeans(bank: Bank, v: VerticalWord, letter: char, complexity: int)
    ensures Supported(bank, v, letter, complexity) <==> PrefixSupported(bank, v, letter, complexity)
  {
    var bucket := Bucket(bank, v.length);
    forall m | 0 <= m < |bucket|
      ensures Supports(bucket[m], v.letters + [letter], complexity) <==>
        bucket[m].score > complexity && v.letters + [letter] <= bucket[m].text
    {
      SliceMatchesIffPrefix(bucket[m].text, v.letters + [letter]);
    }
  }

  /** The whole check in prefix terms: below the top row, for every offset i
      there is an entry scoring above the threshold, filed under the length
      of the run of column col + i, whose text starts with that run's placed
      letters followed by the word's i-th letter. */
  lemma ValidIntersectionMeans(cells: seq<seq<char>>, word: string, row: nat, col: nat, bank: Bank, complexity: int)
    requires 0 < row <= |cells| && forall r :: 0 <= r < |cells| ==> col + |word| <= |cells[r]|
    ensures ValidIntersection(cells, word, row, col, bank, complexity) <==>
      forall i :: 0 <= i < |word| ==> PrefixSupported(bank, VerticalInfo(cells, row, col + i), word[i], complexity)
  {
    var vs := Crossings(cells, row, col, |word|);
    forall i | 0 <= i < |word|
      ensures Supported(bank, vs[i], word[i], complexity) <==>
        PrefixSupported(bank, VerticalInfo(cells, row, col + i), word[i], complexity)
    {
      SupportedMeans(bank, vs[i], word[i], complexity);
    }
  }

  /** The scan of one bucket: true as soon as an entry supports the probe. */
  method FindSupport(wordList: seq<Entry>, letters: string, complexity: int) returns (found: bool)
    ensures found <==> exists m :: 0 <= m < |wordList| && Supports(wordList[m], letters, complexity)
  {
    found := false;
    var k := 0;
    while k < |wordList|
      invariant k <= |wordList|
      invariant forall m :: 0 <= m < k ==> !Supports(wordList[m], letters, complexity)
    {
      if wordList[k].score > complexity && SlicePrefix(wordList[k].text, |letters|) == letters {
        found := true;
        return;
      }
      k := k + 1;
    }
  }

  /** The validator: for each offset in turn, look up the run of the column
      under it, scan that run's bucket for an entry supporting the probe, and
      give up at the first offset without one.  The grid is only read, so it
      is passed as its rows of cells. */
  method IsValidIntersection(cells: seq<seq<char>>, word: string, row: nat, col: nat, bank: Bank, complexity: int)
    returns (valid: bool)
    requires row > 0 ==> row <= |cells| && forall r :: 0 <= r < |cells| ==> col + |word| <= |cells[r]|
    ensures valid == ValidIntersection(cells, word, row, col, bank, complexity)
  {
    if row == 0 {
      return true;
    }
    // The scanner only reads the grid, so the runs of all the crossed
    // columns can be described before the offsets are checked in turn.
    var crossings := Crossings(cells, row, col, |word|);
    var i := 0;
    while i < |word|
      invariant i <= |word|
      invariant forall j :: 0 <= j < i ==> Supported(bank, crossings[j], word[j], complexity)
    {
      i := i + 1;
      var v := crossings[i - 1];
      var probe := v.letters + [word[i - 1]];
      var wordList := Bucket(bank, v.length);
      var found := FindSupport(wordList, probe, complexity);
      if !found {
        return false;
      }
    }
    return true;
  }
}
