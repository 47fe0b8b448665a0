# Crossword fill engine

A Dafny model of the crossword fill engine of `demo.py`, with the properties
its code promises proved about the model.

## What the engine does

The grid is a rectangle of one-character cells:

- `'#'` is a blocked cell;
- `'.'` is an open cell;
- any other character is a placed letter.

Candidate words sit in a word bank, a dictionary from word length to a list of
`(word, score)` pairs.

`fill_grid_sam` scans the grid row by row and, within a row, column by column.
At the first cell of a horizontal run of open cells, it:

1. shuffles the bucket for the run's length;
2. places the first candidate that scores above the complexity threshold and
   passes the intersection validator;
3. then drops every entry with the placed word's text from the bucket.

Below the top row, the validator asks, for each letter of the candidate, about
the vertical run crossing that cell. The bucket for that run's length must
hold a high-scoring word that starts with the run's placed letters followed by
the candidate's letter.

When no candidate fits, the repair step runs:

- For each column of the run, it walks up from the lowest cell of the
  column's vertical run to the first block.
- It clears the horizontal word through every letter it meets.
- It files each cleared string back into its bucket with score 50.
- It rewinds the scan to the topmost row it cleared.

Downstream of the fill, the answer extraction does the following:

- It lists the across and down entries: maximal unblocked runs longer than
  one cell, each with the 1-based row and column of its first cell.
- It numbers the distinct starts 1, 2, … in row-then-column order.
- It stores every across entry, and every down entry in order of start, under
  the number of its start.

## How the model is organised

| module (file) | what it holds |
|---|---|
| `Lines` (lines.dfy) | One line of cells, meaning a row, or a column read top to bottom. It holds the run walks and the open-run count. It also gives the meaning of writing a word into a line and of clearing a run out of it, as pure functions. |
| `Grid` (grid.dfy) | The grid as an `array2<char>`. It has the symmetric constructor and the two scanners as loops. The two mutation primitives are methods whose contracts tie the new rows to the `Lines` functions. |
| `WordBank` (bank.dfy) | The bank as `map<nat, seq<Entry>>`. It holds the bucket lookup with its empty fallback and the write-back of a shuffled bucket. It also holds the withdrawal after a placement, the recycling after a repair, and the in-memory length index `build_dictionary`. |
| `Validator` (validator.dfy) | The intersection validator, as a predicate and as the loop that computes it. |
| `Fill` (fill.dfy) | The driver `fill_grid_sam`, split into the candidate search, the placement and the repair step. |
| `Answers` (answers.dfy) | Entry extraction, the sort by start, the numbering and the two numbered lists. |

A few parts of the Python are modelled as follows:

- **The shuffle.** The driver takes a function `shuffle(k, list)` that must
  return a permutation of `list`; the k-th shuffle of the run is `shuffle(k,
  ·)`. The shuffled list is the bank's own bucket object, so the model writes
  the new order back into the bank when the bucket exists.
- **Termination.** The driver takes a `fuel` bound. One unit is spent per row
  and per cell visited.
- **How a fill ends.** A fill ends in one of three outcomes:
  - `Finished(filled)`: the scan ran past the last row;
  - `MissingBucket(length)`: a cleared string's length had no bucket, which is
    the `KeyError` at demo.py:255;
  - `OutOfFuel`.

## Model

| member | source | states |
|---|---|---|
| Lines.RunStart | demo.py:155-157 | The upward or leftward walk stops at the first cell of the unblocked stretch ending at the query cell. Every cell from there to the query is unblocked, and the cell before it is a block or the line's edge. |
| Lines.RunEnd | demo.py:160-161 | The forward walk stops at the first block or at the line's end. Every cell it passes is unblocked. |
| Lines.OpenRunFrom | demo.py:135-139 | The count of open cells from index i. Every counted cell is open, the cell after them is not open or is past the end, and a positive count fits in the line. |
| Lines.LettersIn | demo.py:162 | The collected letters of a stretch are no more than its cells, and none of them is an open cell. |
| Lines.LettersInFull | demo.py:162 | A stretch without open cells contributes all of its cells, in order. |
| Lines.LettersInOpen | demo.py:162 | A stretch of open cells contributes no letter. |
| Lines.RunThrough | demo.py:151-169 | The vertical report of a run has at most as many letters as cells. Its down count stays inside the line. For an unblocked query cell, the down count is less than the run's length. |
| Lines.Placed | demo.py:119-120 | Writing a word keeps the line's length. Position col + k holds the word's k-th letter, and every other position is unchanged. |
| Lines.ClearRun | demo.py:204-215 | Clearing acts on the maximal unblocked run around col: every cell of it becomes open and every cell outside it is unchanged. The returned string is the run's previous contents, open cells included, and it holds no block. It is not empty when the query cell is unblocked. |
| Lines.PlaceThenClear | demo.py:204-215 | Writing a block-free word over a maximal open run and then clearing from any of its cells gives back the original line, and returns exactly the word. |
| Grid.CreateSymmetricalGrid | demo.py:49-56 | A fresh rows × cols grid. A cell is blocked exactly when it or its 180° mirror image is listed, and open otherwise. Blockedness is therefore symmetric under 180° rotation. |
| Grid.FilledIffNoOpenRun | demo.py:129 | The grid is filled exactly when the horizontal scanner finds no open run at any position. |
| Grid.FindOpenSpaceAcross | demo.py:131-139 | The loop returns the open run at (row, col): 0 below the last row, otherwise the count of open cells. All counted cells are open and fit in the row, and the next cell is not open or is past the edge. It modifies nothing. |
| Grid.VerticalInfo | demo.py:141-169 | The scanner's report on the grid's rows. It has no more letters than the run's length, and the down count stays inside the grid. For an unblocked cell, the down count is less than the length. |
| Grid.VerticalInfoIsMaximalRun | demo.py:155-169 | For the maximal unblocked vertical run [s, e) through an unblocked cell: the length is e − s, the letters are the run's placed letters top to bottom, and the down count is e − 1 − row. |
| Grid.VerticalInfoOfArray | demo.py:141-169 | The report read off the grid's rows equals the run of the array's column. |
| Grid.GetVerticalWordInfo | demo.py:141-169 | The two walking loops return the run through (row, col) of column col, and modify nothing. |
| Grid.PlaceWord | demo.py:109-120 | The row becomes the word written from col. All other rows are unchanged. |
| Grid.RemoveHorizontalWord | demo.py:195-215 | The new row and the returned string are the clearing of the old row around col. All other rows are unchanged. |
| WordBank.Bucket | demo.py:230 | A missing length gives the empty list. In a bank filed by length, every entry of bucket k has length k. In a block-free bank, no entry holds a block. |
| WordBank.Reordered | demo.py:230-231 | Shuffling a bucket in place keeps the bank's keys. Afterwards the bucket reads in the new order, every other bucket is unchanged, and the bank invariants are kept. A missing bucket stays missing. |
| WordBank.WithoutText | demo.py:237 | The filtered bucket holds no entry with the text. Every other entry keeps its number of occurrences, and only entries of the original bucket appear. |
| WordBank.Withdraw | demo.py:237 | After a placement, no entry with the placed text is left in its length's bucket. Every other entry of that bucket keeps its multiplicity, and the other buckets and the keys are unchanged. |
| WordBank.RecycledAt | demo.py:253-255 | The entries recycling files under length k have length k and score 50, and their text is one of the cleared strings. |
| WordBank.RecycleOne | demo.py:255 | Appending one more cleared string to its bucket extends the relation "every cleared string filed, in order, at the end of its bucket". |
| WordBank.RecycleKeepsInvariants | demo.py:253-255 | Filing cleared strings keeps the bank filed by length. It keeps the bank block-free when no cleared string holds a block. |
| WordBank.OfLength | demo.py:78-82 | The words of length k: all have length k, and the list is empty exactly when no word has length k. |
| WordBank.OfLengthCounts | demo.py:78-82 | A word occurs among the words of length k as often as in the whole list when its length is k, and otherwise not at all. |
| WordBank.BuildDictionary | demo.py:70-83 | The loop's dictionary has a key exactly for each length some word has. The bucket under that key is the list's words of that length, in list order. |
| WordBank.LengthIndexComplete | demo.py:70-83 | No bucket of the length index is empty. Every word is found in its length's bucket as often as it occurs in the list. |
| Validator.SlicePrefix | demo.py:185 | The slice `w[:n]` is a prefix of w of length min(n, length of w). |
| Validator.SliceMatchesIffPrefix | demo.py:185 | Comparing the slice as long as the probe with the probe is exactly a prefix test. |
| Validator.SupportedMeans | demo.py:182-188 | A crossing run supports a letter exactly when its length's bucket holds an entry scoring above the threshold whose text starts with the run's letters followed by that letter. |
| Validator.ValidIntersectionMeans | demo.py:177-191 | Below the top row, a word is valid exactly when, for every offset i, such an entry exists for the run of column col + i and the word's i-th letter. |
| Validator.FindSupport | demo.py:183-188 | The bucket scan finds a supporting entry exactly when one exists. |
| Validator.IsValidIntersection | demo.py:171-193 | The validator's loop returns true on the top row. Below it, the loop returns exactly the every-offset-supported predicate, stopping at the first failing offset. |
| Fill.FirstAcceptable | demo.py:232-240 | The candidate search returns the index of the first candidate that scores above the threshold and passes the validator. Every earlier candidate fails one of the two tests. If none qualifies, it returns the list's length. |
| Fill.PlaceAcross | demo.py:235 | Writing a block-free word over open cells writes the row and leaves the other rows and the blocked cells as they were. |
| Fill.TryPlace | demo.py:227-240 | A word is placed only if it is the first acceptable candidate of the run's bucket, meaning its score is above the threshold and it passes the validator. The row then holds it and every entry with its text is withdrawn. With no acceptable candidate, neither the grid nor the bank changes. Blocks and bank invariants are kept. |
| Fill.ClearAcross | demo.py:253 | Clearing the word through a letter cell: the row and the returned string are the clearing of the old row around the cell, and other rows are unchanged. The cell lies in no run cleared earlier in the repair, so the string is its run's contents before the repair began, non-empty and block-free. The grid becomes the pre-repair grid with this run cleared as well. |
| Fill.Repair | demo.py:241-258 | The repair returns the list of sites it cleared, paired with the cleared strings. Each site is a letter cell of the vertical run through (row, j), for a column j of the open run, and its string is its horizontal run's old contents. The grid ends as the old grid with exactly those runs cleared. Unless a bucket was missing, every cell of those vertical runs ends open. The lowest row is the topmost site's row, or the grid's height when nothing was cleared. The sites come in walk order: columns left to right, and bottom to top within a column. No site lies in the run of an earlier one, so every run is cleared and filed once. With no report, every cleared string had a bucket and was appended, in order, to its length's bucket with score 50. A report names the length of the last string, which has no bucket and stays unfiled; every earlier string had a bucket and was filed. |
| Fill.RepairColumn | demo.py:245-255 | The walk of one column, from the bottom of its vertical run up to the first block, clears every letter cell it meets. Unless a bucket was missing, every cell of that run is then done. The sites stay in walk order, and the last one lies in this column or an earlier one. |
| Fill.WalkCell | demo.py:248-255 | One step of the column walk: a letter cell is cleared and filed, and an open cell is passed over. Unless a bucket was missing, every cell of the run from its bottom up to this one is then done. The last site lies in an earlier column, or in this column at or below this cell. |
| Fill.RepairCell | demo.py:250-255 | One letter cell: its run is cleared and recorded as a new site after all earlier ones in walk order, and the topmost row is updated. The string is filed when its length has a bucket, and reported missing exactly when it has none. Cells done before stay done. |
| Fill.FileCleared | demo.py:254-255 | A cleared string is appended to its length's bucket with score 50 when that bucket exists. It is reported exactly when the bucket does not exist, and then the bank is unchanged. |
| Fill.FillGrid | demo.py:217-269 | The fill never creates or removes a block and keeps the bank filed by length and block-free with the same keys. A finished scan reports whether the grid is filled. A missing bucket is one the bank never had. |
| Answers.RunsFrom | demo.py:278-289 | The runs the line scan collects start inside the line, at or after the scan's start, in strictly increasing order. |
| Answers.RunsFromMeans | demo.py:278-289 | A run is collected exactly when it is an entry: it starts the line or follows a block, ends at a block or the line's end, is longer than one cell, and starts at or after the scan's start. |
| Answers.RowAnswersMeans | demo.py:285-286 | The across entries of one row are exactly its entries, at 1-based positions. |
| Answers.ColumnAnswersMeans | demo.py:300-301 | The down entries of one column are exactly its entries, at 1-based positions. |
| Answers.AcrossAnswersMeans | demo.py:276-289 | An answer is an across entry exactly when it is an entry of its row at its 1-based start. |
| Answers.DownAnswersMeans | demo.py:291-303 | An answer is a down entry exactly when it is an entry of its column at its 1-based start. |
| Answers.StartsDetermineEntries | demo.py:279-286 | Within the across list, and within the down list, two entries with the same start are the same entry. |
| Answers.ReadRun | demo.py:280-284 | The inner walk stops at the run's end and collects exactly the run's cells. |
| Answers.ScanLine | demo.py:277-289 | One line's scan loop collects exactly the line's entries, in order. |
| Answers.OutputWordlist | demo.py:271-305 | The answer extraction returns exactly the across entries row by row and the down entries column by column. |
| Answers.Insert | demo.py:312 | Insertion adds exactly the new entry to the list's multiset. |
| Answers.InsertSorted | demo.py:312 | Insertion keeps a list sorted by (row, col). |
| Answers.SortByStart | demo.py:312 | The sort returns a permutation of its input, sorted by (row, col). |
| Answers.AssignNumbers | demo.py:313-326 | The numbering loop numbers exactly the starts of the list. The numbers are exactly 1 … the number of distinct starts, and an earlier start gets a smaller number. |
| Answers.NumbersDistinct | demo.py:323-326 | Under such a numbering, two starts share a number only if they are the same start. |
| Answers.NumberEntries | demo.py:330-341 | The numbered list's keys are the numbers of the list's starts. Each key holds some entry of the list with that start's number. |
| Answers.NumberStarts | demo.py:312-326 | The sorted merge of the across and down lists is numbered. Exactly the starts of either list are numbered, with the numbers 1 … the number of distinct starts, and an earlier start gets a smaller number. |
| Answers.NumbersCovered | demo.py:323-341 | Two lists numbered by such a numbering use, between them, exactly the numbers 1 … the number of distinct starts. |
| Answers.NumberList | demo.py:330-341 | When starts determine entries, the numbered list holds exactly the list's entries, each under its start's number. |
| Answers.PrintAndStoreWordLists | demo.py:307-343 | The across map holds exactly the across entries and the down map exactly the down entries, all under positive numbers. Two entries, across or down, share a number exactly when they share a start, and an entry that starts earlier has a smaller number. The two maps' keys together are exactly 1 … the number of distinct starts. |

## Left out

- The tkinter GUI, the clue generation through an external text-generation service and all console output (printing, screen clearing, timing) are not modelled. They are user interface, network and I/O.
- `build_word_dictionary` (reading `word;score` lines from a file) is not modelled, because it is file I/O. The fill takes the bank as a value.
- `create_symmetrical_grid`, a hard-coded 15 × 15 literal, is not modelled. main.py is not part of this model.
- The random number generator is not modelled: the shuffle is a parameter that must return a permutation.
- Fill.FillGrid: termination is not proved; the Python loop has no bound, and the model stops with `OutOfFuel` when its fuel runs out.
- Fill.FillGrid: its contract states what holds across the whole fill: blocks kept, bank invariants kept and the outcome. Which word each step places, and what each repair clears, is stated per step by Fill.TryPlace and Fill.Repair and is not collected into a trace of the fill.
- Fill.Repair: a missing bucket ends the fill with `MissingBucket`, where the Python raises `KeyError`. The grid keeps every clearing made, including the one whose string could not be filed.
- Fill.TryPlace: it requires a bank with no `#` in any word. Crossword word lists hold letters only. A word holding `#` would write a block into the grid, and the model does not follow that case.
- Fill.FillGrid: it requires a bank with no `#` in any word, for the same reason as Fill.TryPlace.
- Grid.CreateSymmetricalGrid: it requires every listed square to lie inside the grid. For every square outside the grid the Python raises `IndexError`; a negative index passes the first write, but its mirror lies past the far edge. Neither case is modelled.
- Validator.IsValidIntersection: it reads the grid as its rows of cells, not as the array. It describes the crossing runs of all offsets before checking them in turn. This does not change the result, because the scanner only reads the grid.
- Validator.IsValidIntersection: the Python's `out_list` of per-offset flags is not modelled. Only the offset being checked can be false when the loop stops, so the result is the same.
- Answers.ScanLine: one method scans both rows and columns, where the Python writes the across and down loops out separately.
- Answers.OutputWordlist: it requires a grid with at least one row. On an empty grid the Python fails when it reads the width from the first row.
- Answers.SortByStart: stability is not stated, although the sort is a stable insertion sort like the Python's key sort. Only sortedness and permutation are proved.

In these places the code behaves unexpectedly; the model follows the code:

- The cleared string includes the run's open cells (demo.py:212). The model recycles it as written.
- A placement removes every entry with the placed text from its bucket, not just one (demo.py:237).
- The validator's probe is made of all placed letters of the crossing run, below the query row as well as above (demo.py:162, 181).
- Filing a cleared string whose length has no bucket fails (demo.py:255). The model reports this as `MissingBucket`.
- `build_dictionary` stores bare words, not `(word, score)` pairs (demo.py:82).
- A repair that clears nothing rewinds to the grid's height (demo.py:243, 257). This ends the scan.
- The fill returns the grid whether or not it is filled (demo.py:264-269). `Finished` carries the filled flag.
