/** The fill driver.  It scans the grid row by row and, within a row, column
    by column.  At the start of every horizontal run of open cells it shuffles
    the bucket for the run's length and places the first candidate that
    scores above the complexity threshold and passes the intersection
    validator.  When no candidate fits, the repair step clears every
    horizontal word crossing the run's columns within their vertical runs
    through the run's row, files the cleared strings back into the bank
    with the recycle score and rewinds the scan to the topmost row it
    touched. */
module Fill {
  import opened Lines
  import opened Grid
  import opened WordBank
  import opened Validator

  datatype Option<T> = None | Some(value: T)

  /** How a fill ends: the scan ran to the end of the grid (and the grid is
      or is not filled), a recycled string had a length with no bucket, or
      the step budget ran out. */
  datatype Outcome = Finished(filled: bool) | MissingBucket(length: nat) | OutOfFuel

  /** A candidate the driver accepts at (row, col): it scores above the
      threshold and passes the intersection validator. */
  predicate Acceptable(cells: seq<seq<char>>, e: Entry, row: nat, col: nat, bank: Bank, complexity: int)
    requires row > 0 ==> row <= |cells| && forall r :: 0 <= r < |cells| ==> col + |e.text| <= |cells[r]|
  {
    e.score > complexity && ValidIntersection(cells, e.text, row, col, bank, complexity)
  }

  /** The candidate search: the index of the first acceptable candidate, or
      the number of candidates when none is acceptable.  The score test comes
      first, so the validator only runs for candidates scoring above the
      threshold. */
  method FirstAcceptable(cells: seq<seq<char>>, candidates: seq<Entry>, row: nat, col: nat, bank: Bank, complexity: int)
    returns (chosen: nat)
    requires row <= |cells|
    requires forall i, r :: 0 <= i < |candidates| && 0 <= r < |cells| ==> col + |candidates[i].text| <= |cells[r]|
    ensures chosen <= |candidates|
    ensures forall j :: 0 <= j < chosen ==> !Acceptable(cells, candidates[j], row, col, bank, complexity)
    ensures chosen < |candidates| ==> Acceptable(cells, candidates[chosen], row, col, bank, complexity)
  {
    chosen := 0;
    while chosen < |candidates|
      invariant chosen <= |candidates|
      invariant forall j :: 0 <= j < chosen ==> !Acceptable(cells, candidates[j], row, col, bank, complexity)
    {
      var e := candidates[chosen];
      if e.score > complexity {
        var valid := IsValidIntersection(cells, e.text, row, col, bank, complexity);
        if valid {
          return;
        }
      }
      chosen := chosen + 1;
    }
  }

  /** `before` has the shape of the grid. */
  predicate Shaped(g: array2<char>, before: seq<seq<char>>)
  {
    |before| == g.Length0 && forall r :: 0 <= r < |before| ==> |before[r]| == g.Length1
  }

  /** Cell (r, c) lies, in `before`, in the horizontal run of one of the
      sites. */
  predicate InSiteRun(before: seq<seq<char>>, sites: seq<(nat, nat)>, r: nat, c: nat)
  {
    exists k :: 0 <= k < |sites| && sites[k].0 == r && r < |before| && sites[k].1 <= |before[r]| &&
      InRunOf(before[r], sites[k].1, c)
  }

  /** One more site adds exactly the cells of its own run. */
  lemma InSiteRunSnoc(before: seq<seq<char>>, sites: seq<(nat, nat)>, site: (nat, nat), r: nat, c: nat)
    ensures InSiteRun(before, sites + [site], r, c) <==>
      InSiteRun(before, sites, r, c) ||
      (site.0 == r && r < |before| && site.1 <= |before[r]| && InRunOf(before[r], site.1, c))
  {
    var more := sites + [site];
    if InSiteRun(before, sites, r, c) {
      var k :| 0 <= k < |sites| && sites[k].0 == r && r < |before| && sites[k].1 <= |before[r]| &&
        InRunOf(before[r], sites[k].1, c);
      assert more[k] == sites[k];
    }
    if site.0 == r && r < |before| && site.1 <= |before[r]| && InRunOf(before[r], site.1, c) {
      assert more[|sites|] == site;
    }
    if InSiteRun(before, more, r, c) {
      var k :| 0 <= k < |more| && more[k].0 == r && r < |before| && more[k].1 <= |before[r]| &&
        InRunOf(before[r], more[k].1, c);
      if k < |sites| {
        assert more[k] == sites[k];
      }
    }
  }

  /** The grid is `before` with the horizontal run of every site cleared. */
  predicate ClearedSites(g: array2<char>, before: seq<seq<char>>, sites: seq<(nat, nat)>)
    reads g
    requires Shaped(g, before)
  {
    forall r, c :: 0 <= r < g.Length0 && 0 <= c < g.Length1 ==>
      g[r, c] == if InSiteRun(before, sites, r, c) then OPEN else before[r][c]
  }

  /** Cell (i, j) lies in the vertical run of column j through row, a cell
      that is not blocked: the cells the repair walks for column j. */
  predicate Walked(before: seq<seq<char>>, row: nat, j: nat, i: nat)
  {
    row < |before| && Column(before, j)[row] != BLOCK && InRunOf(Column(before, j), row, i)
  }

  /** A cell the repair is done with: it was open, or its row's run was
      cleared. */
  predicate Done(before: seq<seq<char>>, sites: seq<(nat, nat)>, i: nat, j: nat)
  {
    i < |before| && j < |before[i]| && (before[i][j] == OPEN || InSiteRun(before, sites, i, j))
  }

  /** Every walked cell of the columns lo up to hi is done. */
  predicate ColumnsDone(before: seq<seq<char>>, sites: seq<(nat, nat)>, row: nat, lo: nat, hi: nat)
  {
    forall i, j :: 0 <= i < |before| && lo <= j < hi && Walked(before, row, j, i) ==> Done(before, sites, i, j)
  }

  /** Every walked cell of column j above row i is done. */
  predicate RowsDone(before: seq<seq<char>>, sites: seq<(nat, nat)>, row: nat, j: nat, i: int)
  {
    forall k: nat :: i < k < |before| && Walked(before, row, j, k) ==> Done(before, sites, k, j)
  }

  /** Every cell done with `sites` is done with `more`. */
  predicate Grows(before: seq<seq<char>>, sites: seq<(nat, nat)>, more: seq<(nat, nat)>)
  {
    forall i, j :: 0 <= i < |before| && 0 <= j < |before[i]| && Done(before, sites, i, j) ==> Done(before, more, i, j)
  }

  /** A site of the repair for the open run of length spaceLength at
      (row, col): a cell holding a letter in `before`, in the vertical run
      through row of one of the run's columns. */
  predicate RepairSite(before: seq<seq<char>>, row: nat, col: nat, spaceLength: nat, site: (nat, nat))
  {
    && col <= site.1 < col + spaceLength
    && site.0 < |before| && site.1 < |before[site.0]|
    && Walked(before, row, site.1, site.0)
    && before[site.0][site.1] != OPEN
  }

  /** The sites are repair sites and each cleared string is the old contents
      of its site's horizontal run. */
  predicate SitesCleared(before: seq<seq<char>>, row: nat, col: nat, spaceLength: nat, sites: seq<(nat, nat)>, cleared: seq<string>)
  {
    && |sites| == |cleared|
    && forall k :: 0 <= k < |sites| ==>
         RepairSite(before, row, col, spaceLength, sites[k]) &&
         cleared[k] == ClearRun(before[sites[k].0], sites[k].1).removed
  }

  /** lowest is the topmost row of a site, or h when there is none. */
  predicate TopmostSite(sites: seq<(nat, nat)>, lowest: nat, h: nat)
  {
    && lowest <= h
    && (sites == [] ==> lowest == h)
    && (forall k :: 0 <= k < |sites| ==> lowest <= sites[k].0)
    && (sites != [] ==> exists k :: 0 <= k < |sites| && sites[k].0 == lowest)
  }

  /** Site a comes before site b in the repair's walk: in an earlier column,
      or in the same column and a lower row. */
  predicate WalkBefore(a: (nat, nat), b: (nat, nat))
  {
    a.1 < b.1 || (a.1 == b.1 && a.0 > b.0)
  }

  /** The last site, if any, comes before cell (i, j) in the walk. */
  predicate LastBefore(sites: seq<(nat, nat)>, i: int, j: nat)
  {
    sites != [] ==> sites[|sites| - 1].1 < j || (sites[|sites| - 1].1 == j && sites[|sites| - 1].0 > i)
  }

  /** Site k comes after site k - 1 in the walk and lies in the run of no
      earlier site, since a cleared run reads as open cells. */
  predicate WalkedAfter(before: seq<seq<char>>, sites: seq<(nat, nat)>, k: nat)
    requires k < |sites|
  {
    && (0 < k ==> WalkBefore(sites[k - 1], sites[k]))
    && !InSiteRun(before, sites[..k], sites[k].0, sites[k].1)
  }

  /** The sites come in the order the walk meets them, each one new. */
  predicate SitesInWalkOrder(before: seq<seq<char>>, sites: seq<(nat, nat)>)
  {
    forall k: nat :: k < |sites| ==> WalkedAfter(before, sites, k)
  }

  /** What the repair step has done to the grid after clearing the runs of
      `sites`, whose old contents are `cleared`. */
  predicate RepairState(g: array2<char>, before: seq<seq<char>>, row: nat, col: nat, spaceLength: nat,
                        lowestRow: nat, sites: seq<(nat, nat)>, cleared: seq<string>)
    reads g
    requires Shaped(g, before)
  {
    && SitesCleared(before, row, col, spaceLength, sites, cleared)
    && SitesInWalkOrder(before, sites)
    && ClearedSites(g, before, sites)
    && TopmostSite(sites, lowestRow, g.Length0)
    && NoBlockIn(cleared)
  }

  /** Every string's length has a bucket in the bank. */
  predicate AllHaveBuckets(bank: Bank, cleared: seq<string>)
  {
    forall w :: w in cleared ==> |w| in bank
  }

  /** The bank after the cleared strings were filed: all of them, each
      having a bucket, or, when a bucket was missing, all but the last,
      whose length is the first with no bucket. */
  predicate BankAfter(bank: Bank, newBank: Bank, missing: Option<nat>, cleared: seq<string>)
  {
    match missing
    case None => RecycledInto(bank, newBank, cleared) && AllHaveBuckets(bank, cleared)
    case Some(length) =>
      && cleared != []
      && length == |cleared[|cleared| - 1]| > 0
      && length !in bank
      && RecycledInto(bank, newBank, cleared[..|cleared| - 1])
      && AllHaveBuckets(bank, cleared[..|cleared| - 1])
  }

  /** The repair step for the open run of length spaceLength at (row, col).
      For each column j of the run, from the lowest cell of the vertical run
      through (row, j) up to the first block above, every cell holding a
      letter has its horizontal word cleared, and the cleared string is
      appended to its length's bucket with the recycle score.  The ghost
      `sites` are the cells whose words were cleared, in order, and
      `cleared` the strings.  The grid ends as it was with every site's run
      cleared; unless a bucket was missing, every walked cell ends open.
      `lowestRow` is the topmost site's row (the number of rows when there
      is none).  A cleared string whose length has no bucket ends the step
      and is reported. */
  method Repair(g: array2<char>, bank: Bank, row: nat, col: nat, spaceLength: nat)
    returns (lowestRow: nat, newBank: Bank, missing: Option<nat>, ghost sites: seq<(nat, nat)>, ghost cleared: seq<string>)
    requires row < g.Length0 && col + spaceLength <= g.Length1
    modifies g
    ensures Shaped(g, old(Cells(g)))
    ensures RepairState(g, old(Cells(g)), row, col, spaceLength, lowestRow, sites, cleared)
    ensures BankAfter(bank, newBank, missing, cleared)
    ensures missing.None? ==>
      forall i, j :: 0 <= i < g.Length0 && col <= j < col + spaceLength && Walked(old(Cells(g)), row, j, i) ==>
        g[i, j] == OPEN
    ensures forall r, c :: 0 <= r < g.Length0 && 0 <= c < g.Length1 ==>
      g[r, c] == old(Cells(g))[r][c] || (lowestRow <= r && old(Cells(g))[r][c] != BLOCK && g[r, c] == OPEN)
  {
    ghost var before := Cells(g);
    lowestRow, newBank, missing, sites, cleared := g.Length0, bank, None, [], [];
    var j := col;
    while j < col + spaceLength && missing.None?
      invariant col <= j <= col + spaceLength && Shaped(g, before)
      invariant RepairState(g, before, row, col, spaceLength, lowestRow, sites, cleared)
      invariant BankAfter(bank, newBank, missing, cleared)
      invariant missing.None? ==> ColumnsDone(before, sites, row, col, j)
      invariant sites != [] ==> sites[|sites| - 1].1 < j
    {
      lowestRow, newBank, missing, sites, cleared :=
        RepairColumn(g, bank, row, col, spaceLength, j, before, lowestRow, newBank, sites, cleared);
      j := j + 1;
    }
    if missing.None? {
      ColumnsOpen(g, before, row, col, spaceLength, sites);
    }
    ChangedBelowTop(g, before, sites, lowestRow);
  }

  /** The walk of column j of the repair step, from the lowest cell of the
      vertical run through (row, j) upwards until a block. */
  method RepairColumn(g: array2<char>, bank: Bank, row: nat, col: nat, spaceLength: nat, j: nat,
                      ghost before: seq<seq<char>>, lowest0: nat, bank0: Bank, ghost sites0: seq<(nat, nat)>, ghost cleared0: seq<string>)
    returns (lowestRow: nat, newBank: Bank, missing: Option<nat>, ghost sites: seq<(nat, nat)>, ghost cleared: seq<string>)
    requires row < g.Length0 && col <= j < col + spaceLength <= g.Length1 && Shaped(g, before)
    requires RepairState(g, before, row, col, spaceLength, lowest0, sites0, cleared0)
    requires BankAfter(bank, bank0, None, cleared0)
    requires ColumnsDone(before, sites0, row, col, j)
    requires sites0 != [] ==> sites0[|sites0| - 1].1 < j
    modifies g
    ensures RepairState(g, before, row, col, spaceLength, lowestRow, sites, cleared)
    ensures BankAfter(bank, newBank, missing, cleared)
    ensures missing.None? ==> ColumnsDone(before, sites, row, col, j + 1)
    ensures LastBefore(sites, -1, j)
  {
    lowestRow, newBank, missing, sites, cleared := lowest0, bank0, None, sites0, cleared0;
    var _, _, downCount := GetVerticalWordInfo(g, row, j);
    ghost var top := WalkTop(g, before, sites, row, j, downCount);
    ghost var line := Column(before, j);
    var i: int := row + downCount;
    while i >= 0
      invariant -1 <= i <= top && |line| == |before|
      invariant Unblocked(line, i + 1, top + 1)
      invariant RepairState(g, before, row, col, spaceLength, lowestRow, sites, cleared)
      invariant missing.None? && BankAfter(bank, newBank, missing, cleared)
      invariant ColumnsDone(before, sites, row, col, j)
      invariant LastBefore(sites, i, j)
      invariant RowsDone(before, sites, row, j, i)
    {
      if g[i, j] == BLOCK {
        WalkStopsAtBlock(g, before, sites, row, j, top, i);
        ColumnFinished(before, sites, row, col, j, i);
        break;
      }
      lowestRow, newBank, missing, sites, cleared :=
        WalkCell(g, bank, row, col, spaceLength, j, i, before, top, lowestRow, newBank, sites, cleared);
      if missing.Some? {
        return;
      }
      i := i - 1;
    }
    if i < 0 {
      ColumnFinished(before, sites, row, col, j, i);
    }
  }

  /** Cell (i, j) of the walk of column j, which has passed every cell of
      the column's run below it: a letter cell is repaired, an open cell
      passed over. */
  method WalkCell(g: array2<char>, bank: Bank, row: nat, col: nat, spaceLength: nat, j: nat, i: nat,
                  ghost before: seq<seq<char>>, ghost top: nat, lowest0: nat, bank0: Bank,
                  ghost sites0: seq<(nat, nat)>, ghost cleared0: seq<string>)
    returns (lowestRow: nat, newBank: Bank, missing: Option<nat>, ghost sites: seq<(nat, nat)>, ghost cleared: seq<string>)
    requires row <= top < g.Length0 && i <= top && col <= j < col + spaceLength <= g.Length1 && Shaped(g, before)
    requires g[i, j] != BLOCK
    requires Column(before, j)[row] == BLOCK ==> top == row
    requires Column(before, j)[row] != BLOCK ==> top + 1 == RunEnd(Column(before, j), RunStart(Column(before, j), row))
    requires Unblocked(Column(before, j), i + 1, top + 1)
    requires RepairState(g, before, row, col, spaceLength, lowest0, sites0, cleared0)
    requires BankAfter(bank, bank0, None, cleared0)
    requires ColumnsDone(before, sites0, row, col, j) && LastBefore(sites0, i, j)
    requires RowsDone(before, sites0, row, j, i)
    modifies g
    ensures RepairState(g, before, row, col, spaceLength, lowestRow, sites, cleared)
    ensures BankAfter(bank, newBank, missing, cleared)
    ensures LastBefore(sites, i - 1, j)
    ensures missing.None? ==> Unblocked(Column(before, j), i, top + 1) && ColumnsDone(before, sites, row, col, j)
    ensures missing.None? ==> RowsDone(before, sites, row, j, i - 1)
  {
    ghost var line := Column(before, j);
    VisitedCell(g, before, sites0, i, j);
    UnblockedDown(line, i, top + 1);
    if g[i, j] != OPEN {
      WalkedSite(before, row, col, spaceLength, j, top, i);
      lowestRow, newBank, missing, sites, cleared :=
        RepairCell(g, bank, row, col, spaceLength, i, j, before, lowest0, bank0, sites0, cleared0);
    } else {
      NoGrowth(before, sites0);
      lowestRow, newBank, missing, sites, cleared := lowest0, bank0, None, sites0, cleared0;
    }
    if missing.None? {
      ColumnStep(before, row, j, i, sites0, sites);
    }
  }

  /** One letter cell met by the repair step: its horizontal word is
      cleared and filed into its length's bucket with the recycle score, or
      reported when there is no such bucket.  The cleared string is never
      empty, since the cell itself holds a letter. */
  method RepairCell(g: array2<char>, bank: Bank, row: nat, col: nat, spaceLength: nat, i: nat, j: nat,
                    ghost before: seq<seq<char>>, lowest0: nat, bank0: Bank, ghost sites0: seq<(nat, nat)>, ghost cleared0: seq<string>)
    returns (lowestRow: nat, newBank: Bank, missing: Option<nat>, ghost sites: seq<(nat, nat)>, ghost cleared: seq<string>)
    requires i < g.Length0 && j < g.Length1 && Shaped(g, before)
    requires g[i, j] != BLOCK && g[i, j] != OPEN
    requires RepairSite(before, row, col, spaceLength, (i, j))
    requires RepairState(g, before, row, col, spaceLength, lowest0, sites0, cleared0)
    requires BankAfter(bank, bank0, None, cleared0)
    requires LastBefore(sites0, i, j)
    modifies g
    ensures LastBefore(sites, i - 1, j)
    ensures RepairState(g, before, row, col, spaceLength, lowestRow, sites, cleared)
    ensures BankAfter(bank, newBank, missing, cleared)
    ensures Done(before, sites, i, j) && Grows(before, sites0, sites)
  {
    lowestRow := if i < lowest0 then i else lowest0;
    var removed := ClearAcross(g, i, j, before, sites0);
    SiteAdded(before, row, col, spaceLength, lowest0, sites0, cleared0, (i, j), removed, g.Length0);
    sites, cleared := sites0 + [(i, j)], cleared0 + [removed];
    LastIsCell(sites0, sites, i, j);
    newBank, missing := FileCleared(bank, bank0, cleared0, removed);
  }

  /** Filing one cleared string: appended to its length's bucket with the
      recycle score, or reported when that bucket does not exist. */
  method FileCleared(bank: Bank, bank0: Bank, ghost cleared0: seq<string>, removed: string)
    returns (newBank: Bank, missing: Option<nat>)
    requires BankAfter(bank, bank0, None, cleared0) && removed != []
    ensures BankAfter(bank, newBank, missing, cleared0 + [removed])
  {
    var length := |removed|;
    if length !in bank0 {
      assert (cleared0 + [removed])[..|cleared0|] == cleared0;
      return bank0, Some(length);
    }
    assert AllHaveBuckets(bank, cleared0 + [removed]) by {
      assert forall k :: 0 <= k < |cleared0| ==> (cleared0 + [removed])[k] == cleared0[k];
    }
    RecycleOne(bank, bank0, cleared0, removed);
    newBank := bank0[length := bank0[length] + [Entry(removed, RECYCLE_SCORE)]];
    missing := None;
  }

  /** Adding the site (i, j), whose run held `removed`, to the repair's
      record: the sites stay paired with their strings, the topmost row is
      updated, (i, j) is done and every cell done before stays done. */
  lemma SiteAdded(before: seq<seq<char>>, row: nat, col: nat, spaceLength: nat, lowest0: nat,
                  sites0: seq<(nat, nat)>, cleared0: seq<string>, site: (nat, nat), removed: string, h: nat)
    requires SitesCleared(before, row, col, spaceLength, sites0, cleared0)
    requires TopmostSite(sites0, lowest0, h) && NoBlockIn(cleared0)
    requires RepairSite(before, row, col, spaceLength, site) && site.0 < h
    requires removed == ClearRun(before[site.0], site.1).removed && BLOCK !in removed
    requires SitesInWalkOrder(before, sites0) && !InSiteRun(before, sites0, site.0, site.1)
    requires LastBefore(sites0, site.0, site.1)
    ensures SitesCleared(before, row, col, spaceLength, sites0 + [site], cleared0 + [removed])
    ensures SitesInWalkOrder(before, sites0 + [site])
    ensures TopmostSite(sites0 + [site], if site.0 < lowest0 then site.0 else lowest0, h)
    ensures NoBlockIn(cleared0 + [removed])
    ensures Done(before, sites0 + [site], site.0, site.1) && Grows(before, sites0, sites0 + [site])
  {
    SitesClearedSnoc(before, row, col, spaceLength, sites0, cleared0, site, removed);
    WalkOrderSnoc(before, sites0, site);
    TopmostSnoc(sites0, lowest0, h, site);
    NoBlockInSnoc(cleared0, removed);
    DoneGrows(before, sites0, site);
    InOwnRun(before[site.0], site.1);
    InSiteRunSnoc(before, sites0, site, site.0, site.1);
  }

  /** One more repair site keeps the sites and cleared strings paired. */
  lemma SitesClearedSnoc(before: seq<seq<char>>, row: nat, col: nat, spaceLength: nat, sites: seq<(nat, nat)>,
                         cleared: seq<string>, site: (nat, nat), removed: string)
    requires SitesCleared(before, row, col, spaceLength, sites, cleared)
    requires RepairSite(before, row, col, spaceLength, site)
    requires removed == ClearRun(before[site.0], site.1).removed
    ensures SitesCleared(before, row, col, spaceLength, sites + [site], cleared + [removed])
  {
    var more, strings := sites + [site], cleared + [removed];
    forall k | 0 <= k < |more|
      ensures RepairSite(before, row, col, spaceLength, more[k]) &&
              strings[k] == ClearRun(before[more[k].0], more[k].1).removed
    {
      if k < |sites| {
        assert more[k] == sites[k] && strings[k] == cleared[k];
      }
    }
  }

  /** After the site (i, j) is added, the walk below row i has not been
      visited yet. */
  lemma LastIsCell(sites0: seq<(nat, nat)>, sites: seq<(nat, nat)>, i: nat, j: nat)
    requires sites == sites0 + [(i, j)]
    ensures LastBefore(sites, i - 1, j)
  {
  }

  /** A site met later in the walk, outside every earlier site's run, keeps
      the sites in walk order. */
  lemma WalkOrderSnoc(before: seq<seq<char>>, sites: seq<(nat, nat)>, site: (nat, nat))
    requires SitesInWalkOrder(before, sites) && !InSiteRun(before, sites, site.0, site.1)
    requires LastBefore(sites, site.0, site.1)
    ensures SitesInWalkOrder(before, sites + [site])
  {
    var more := sites + [site];
    forall k: nat | k < |more| ensures WalkedAfter(before, more, k) {
      if k < |sites| {
        assert WalkedAfter(before, sites, k);
        assert more[..k] == sites[..k] && more[k] == sites[k];
        assert 0 < k ==> more[k - 1] == sites[k - 1];
      } else {
        assert more[..k] == sites;
      }
    }
  }

  /** One more site moves the topmost row up to its row when it is higher. */
  lemma TopmostSnoc(sites: seq<(nat, nat)>, lowest: nat, h: nat, site: (nat, nat))
    requires TopmostSite(sites, lowest, h) && site.0 < h
    ensures TopmostSite(sites + [site], if site.0 < lowest then site.0 else lowest, h)
  {
    var more := sites + [site];
    assert more[|sites|] == site;
    assert forall k :: 0 <= k < |sites| ==> more[k] == sites[k];
  }

  /** Where the walk of column j starts: the vertical scanner on the current
      grid reports the same run as on `before`, since only open cells were
      written; the walk starts at the run's last cell, or at row itself when
      that cell is blocked. */
  lemma WalkTop(g: array2<char>, before: seq<seq<char>>, sites: seq<(nat, nat)>, row: nat, j: nat, downCount: nat)
    returns (top: nat)
    requires row < g.Length0 && j < g.Length1 && Shaped(g, before)
    requires ClearedSites(g, before, sites)
    requires downCount == RunThrough(ColumnOf(g, j), row).downCount
    ensures top == row + downCount < g.Length0
    ensures Column(before, j)[row] == BLOCK ==> top == row
    ensures Column(before, j)[row] != BLOCK ==> top + 1 == RunEnd(Column(before, j), RunStart(Column(before, j), row))
  {
    var line := Column(before, j);
    var now := ColumnOf(g, j);
    forall r | 0 <= r < |line| ensures line[r] == BLOCK <==> now[r] == BLOCK {
      assert line[r] == before[r][j];
    }
    RunsOfSameBlocks(line, now, row);
    var s := RunStart(line, row);
    RunsOfSameBlocks(line, now, s);
    top := row + downCount;
    if line[row] != BLOCK {
      InOwnRun(line, row);
    } else {
      RunEndIs(line, s, row);
    }
  }

  /** Once the cell at row i of column j is done, the walked cells of the
      column from row i downwards are done. */
  lemma ColumnStep(before: seq<seq<char>>, row: nat, j: nat, i: nat, sites0: seq<(nat, nat)>, sites: seq<(nat, nat)>)
    requires RowsDone(before, sites0, row, j, i)
    requires Grows(before, sites0, sites) && Done(before, sites, i, j)
    ensures RowsDone(before, sites, row, j, i - 1)
  {
  }

  /** Without a new site, nothing changes. */
  lemma NoGrowth(before: seq<seq<char>>, sites: seq<(nat, nat)>)
    ensures Grows(before, sites, sites)
  {
  }

  /** A cell the walk visits that is not blocked was not blocked in
      `before`; when it is open, the repair is done with it. */
  lemma VisitedCell(g: array2<char>, before: seq<seq<char>>, sites: seq<(nat, nat)>, i: nat, j: nat)
    requires i < g.Length0 && j < g.Length1 && Shaped(g, before)
    requires ClearedSites(g, before, sites) && g[i, j] != BLOCK
    ensures Column(before, j)[i] != BLOCK
    ensures g[i, j] == OPEN ==> Done(before, sites, i, j)
    ensures g[i, j] != OPEN ==> before[i][j] == g[i, j]
  {
    assert Column(before, j)[i] == before[i][j];
  }

  /** A column whose walked cells above row i are done, with none walked at
      or below i, joins the done columns. */
  lemma ColumnFinished(before: seq<seq<char>>, sites: seq<(nat, nat)>, row: nat, col: nat, j: nat, i: int)
    requires ColumnsDone(before, sites, row, col, j) && RowsDone(before, sites, row, j, i)
    requires forall k :: 0 <= k <= i ==> !Walked(before, row, j, k)
    ensures ColumnsDone(before, sites, row, col, j + 1)
  {
  }

  /** A walk of column j that meets a block has passed every walked cell. */
  lemma WalkStopsAtBlock(g: array2<char>, before: seq<seq<char>>, sites: seq<(nat, nat)>, row: nat, j: nat, top: nat, i: nat)
    requires row < g.Length0 && j < g.Length1 && Shaped(g, before)
    requires ClearedSites(g, before, sites)
    requires i <= top < g.Length0 && g[i, j] == BLOCK
    requires Column(before, j)[row] != BLOCK ==> top + 1 == RunEnd(Column(before, j), RunStart(Column(before, j), row))
    ensures forall k :: 0 <= k <= i ==> !Walked(before, row, j, k)
  {
    var line := Column(before, j);
    assert line[i] == before[i][j] == BLOCK;
    if line[row] != BLOCK {
      var s := RunStart(line, row);
      assert Unblocked(line, s, RunEnd(line, s));
      assert i < s;
    }
  }

  /** A letter cell met by the walk of column j, below which only unblocked
      cells were walked, is a repair site. */
  lemma WalkedSite(before: seq<seq<char>>, row: nat, col: nat, spaceLength: nat, j: nat, top: nat, i: nat)
    requires col <= j < col + spaceLength && row <= top < |before| && i <= top
    requires i < |before| && j < |before[i]| && before[i][j] != OPEN
    requires Column(before, j)[row] == BLOCK ==> top == row
    requires Column(before, j)[row] != BLOCK ==> top + 1 == RunEnd(Column(before, j), RunStart(Column(before, j), row))
    requires Unblocked(Column(before, j), i, top + 1)
    ensures RepairSite(before, row, col, spaceLength, (i, j))
  {
    var line := Column(before, j);
    assert line[row] != BLOCK;
    if i <= row {
      RunStartBefore(line, i, row);
    }
  }

  /** Cells already done stay done when a site is added. */
  lemma DoneGrows(before: seq<seq<char>>, sites: seq<(nat, nat)>, site: (nat, nat))
    ensures Grows(before, sites, sites + [site])
  {
    forall i, j | 0 <= i < |before| && 0 <= j < |before[i]| && Done(before, sites, i, j)
      ensures Done(before, sites + [site], i, j)
    {
      InSiteRunSnoc(before, sites, site, i, j);
    }
  }

  /** After all columns are walked, every walked cell is open. */
  lemma ColumnsOpen(g: array2<char>, before: seq<seq<char>>, row: nat, col: nat, spaceLength: nat, sites: seq<(nat, nat)>)
    requires Shaped(g, before) && ClearedSites(g, before, sites)
    requires ColumnsDone(before, sites, row, col, col + spaceLength)
    ensures forall i, j ::
      (0 <= i < g.Length0 && col <= j < col + spaceLength && j < g.Length1 && Walked(before, row, j, i)) ==> g[i, j] == OPEN
  {
  }

  /** A repaired grid differs from `before` only by open cells, at or below
      the topmost site's row, in place of unblocked cells. */
  lemma ChangedBelowTop(g: array2<char>, before: seq<seq<char>>, sites: seq<(nat, nat)>, lowestRow: nat)
    requires Shaped(g, before) && ClearedSites(g, before, sites) && TopmostSite(sites, lowestRow, g.Length0)
    ensures forall r, c :: 0 <= r < g.Length0 && 0 <= c < g.Length1 ==>
      g[r, c] == before[r][c] || (lowestRow <= r && before[r][c] != BLOCK && g[r, c] == OPEN)
  {
    forall r, c | 0 <= r < g.Length0 && 0 <= c < g.Length1 && InSiteRun(before, sites, r, c)
      ensures lowestRow <= r && before[r][c] != BLOCK
    {
      var k :| 0 <= k < |sites| && sites[k].0 == r && r < |before| && sites[k].1 <= |before[r]| &&
        InRunOf(before[r], sites[k].1, c);
      var s := RunStart(before[r], sites[k].1);
      assert Unblocked(before[r], s, RunEnd(before[r], s));
    }
  }

  /** One clearing of the repair step: the horizontal word through (i, j), a
      cell holding a letter, is cleared as `remove_horizontal_word` does.
      That cell lies in no run cleared before, so it still holds its letter
      from `before`, its whole run still holds `before`'s cells, and the
      grid becomes `before` with one more site's run cleared. */
  method ClearAcross(g: array2<char>, i: nat, j: nat, ghost before: seq<seq<char>>, ghost sites: seq<(nat, nat)>)
    returns (removed: string)
    requires i < g.Length0 && j < g.Length1 && g[i, j] != BLOCK && g[i, j] != OPEN
    requires Shaped(g, before) && ClearedSites(g, before, sites)
    modifies g
    ensures ClearRun(old(Row(g, i)), j) == Cleared(Row(g, i), removed)
    ensures forall r, c :: 0 <= r < g.Length0 && r != i && 0 <= c < g.Length1 ==> g[r, c] == old(g[r, c])
    ensures before[i][j] == old(g[i, j])
    ensures removed == ClearRun(before[i], j).removed
    ensures removed != [] && BLOCK !in removed
    ensures !InSiteRun(before, sites, i, j)
    ensures ClearedSites(g, before, sites + [(i, j)])
  {
    ghost var b := before[i];
    ghost var cur := Row(g, i);
    assert !InSiteRun(before, sites, i, j);
    assert SameBlocksLine(b, cur) by {
      forall k | 0 <= k < |b| ensures b[k] == BLOCK <==> cur[k] == BLOCK {
        assert cur[k] == g[i, k];
      }
    }
    forall k | 0 <= k < |b| && InRunOf(b, j, k) ensures cur[k] == b[k] {
      assert cur[k] == g[i, k];
      if InSiteRun(before, sites, i, k) {
        var m :| 0 <= m < |sites| && sites[m].0 == i && i < |before| && sites[m].1 <= |before[i]| &&
          InRunOf(before[i], sites[m].1, k);
        SameRun(b, sites[m].1, j, k);
        assert false;
      }
    }
    ClearUntouchedRun(b, cur, j);
    removed := RemoveHorizontalWord(g, i, j);
    forall r, c | 0 <= r < g.Length0 && 0 <= c < g.Length1
      ensures g[r, c] == if InSiteRun(before, sites + [(i, j)], r, c) then OPEN else before[r][c]
    {
      InSiteRunSnoc(before, sites, (i, j), r, c);
      if r == i {
        assert g[r, c] == Row(g, i)[c];
      }
    }
  }

  /** The blocked cells of the grid are those of `before`. */
  predicate SameBlocks(g: array2<char>, before: seq<seq<char>>)
    reads g
    requires |before| == g.Length0 && forall r :: 0 <= r < |before| ==> |before[r]| == g.Length1
  {
    forall r, c :: 0 <= r < g.Length0 && 0 <= c < g.Length1 ==> (g[r, c] == BLOCK <==> before[r][c] == BLOCK)
  }

  /** The grid's cells, whose blocked cells are those of `before`. */
  lemma Snapshot(g: array2<char>, before: seq<seq<char>>) returns (pre: seq<seq<char>>)
    requires Shaped(g, before) && SameBlocks(g, before)
    ensures pre == Cells(g) && Shaped(g, pre)
    ensures forall r, c :: 0 <= r < g.Length0 && 0 <= c < g.Length1 ==> (pre[r][c] == BLOCK <==> before[r][c] == BLOCK)
  {
    pre := Cells(g);
  }

  /** A grid that differs from `pre` only by open cells in place of
      unblocked ones has the blocked cells of `pre`. */
  lemma BlocksAfterRepair(g: array2<char>, before: seq<seq<char>>, pre: seq<seq<char>>, lowestRow: nat)
    requires Shaped(g, before) && Shaped(g, pre)
    requires forall r, c :: 0 <= r < g.Length0 && 0 <= c < g.Length1 ==> (pre[r][c] == BLOCK <==> before[r][c] == BLOCK)
    requires forall r, c :: 0 <= r < g.Length0 && 0 <= c < g.Length1 ==>
      g[r, c] == pre[r][c] || (lowestRow <= r && pre[r][c] != BLOCK && g[r, c] == OPEN)
    ensures SameBlocks(g, before)
  {
  }

  /** Writing a word without blocks over open cells keeps the blocked cells
      as they were. */
  method PlaceAcross(g: array2<char>, word: string, row: nat, col: nat, ghost before: seq<seq<char>>)
    requires row < g.Length0 && col + |word| <= g.Length1
    requires forall c :: col <= c < col + |word| ==> g[row, c] == OPEN
    requires BLOCK !in word
    requires |before| == g.Length0 && forall r :: 0 <= r < |before| ==> |before[r]| == g.Length1
    requires SameBlocks(g, before)
    modifies g
    ensures Row(g, row) == Placed(old(Row(g, row)), word, col)
    ensures forall r, c :: 0 <= r < g.Length0 && r != row && 0 <= c < g.Length1 ==> g[r, c] == old(g[r, c])
    ensures SameBlocks(g, before)
  {
    PlaceWord(g, word, row, col);
    forall c | 0 <= c < g.Length1
      ensures g[row, c] == BLOCK <==> old(g[row, c]) == BLOCK
    {
      assert g[row, c] == Row(g, row)[c];
      if col <= c < col + |word| {
        assert g[row, c] == word[c - col];
      }
    }
  }

  /** The placement attempt at the open run of length spaceLength starting
      at (row, col), whose bucket is in its shuffled order: the first
      acceptable candidate is written into the run and every entry with its
      text is withdrawn from the bank; when no candidate is acceptable
      nothing changes.  Returns the candidate's index in the bucket, or the
      bucket's size. */
  method TryPlace(g: array2<char>, bank: Bank, row: nat, col: nat, spaceLength: nat, complexity: int, ghost before: seq<seq<char>>)
    returns (chosen: nat, newBank: Bank)
    requires 0 < spaceLength && row < g.Length0 && col + spaceLength <= g.Length1
    requires forall c :: col <= c < col + spaceLength ==> g[row, c] == OPEN
    requires WellFormed(bank) && BlockFree(bank)
    requires |before| == g.Length0 && forall r :: 0 <= r < |before| ==> |before[r]| == g.Length1
    requires SameBlocks(g, before)
    modifies g
    ensures var wordList := Bucket(bank, spaceLength);
      && chosen <= |wordList|
      && (forall j :: 0 <= j < chosen ==> !Acceptable(old(Cells(g)), wordList[j], row, col, bank, complexity))
      && (chosen < |wordList| ==>
            && Acceptable(old(Cells(g)), wordList[chosen], row, col, bank, complexity)
            && Row(g, row) == Placed(old(Row(g, row)), wordList[chosen].text, col)
            && newBank == Withdraw(bank, wordList[chosen].text))
      && (chosen == |wordList| ==> newBank == bank && unchanged(g))
    ensures forall r, c :: 0 <= r < g.Length0 && r != row && 0 <= c < g.Length1 ==> g[r, c] == old(g[r, c])
    ensures WellFormed(newBank) && BlockFree(newBank) && newBank.Keys == bank.Keys
    ensures SameBlocks(g, before)
  {
    var wordList := Bucket(bank, spaceLength);
    // The run fits in the row.
    assert col + spaceLength - 1 < g.Length1;
    chosen := FirstAcceptable(Cells(g), wordList, row, col, bank, complexity);
    newBank := bank;
    if chosen < |wordList| {
      var word := wordList[chosen].text;
      PlaceAcross(g, word, row, col, before);
      newBank := Withdraw(bank, word);
    }
  }

  /** The fill driver.  Row by row, column by column: at an open run it
      shuffles the run's bucket (the k-th shuffle is `shuffle(k, .)`; a
      bucket that exists is left in its shuffled order), places the first
      acceptable candidate and withdraws its text from the bank, then moves
      to the run's last cell; when no candidate is acceptable it repairs and
      rewinds to the topmost row the repair cleared (past the last row when
      it cleared nothing, which ends the scan).  Every row and every cell
      visited costs one unit of `fuel`. */
  method FillGrid(g: array2<char>, bank: Bank, complexity: int, shuffle: (nat, seq<Entry>) -> seq<Entry>, fuel: nat)
    returns (outcome: Outcome, newBank: Bank)
    requires WellFormed(bank) && BlockFree(bank)
    requires forall k: nat, s: seq<Entry> :: multiset(shuffle(k, s)) == multiset(s)
    modifies g
    ensures WellFormed(newBank) && BlockFree(newBank) && newBank.Keys == bank.Keys
    ensures forall r, c :: 0 <= r < g.Length0 && 0 <= c < g.Length1 ==> (g[r, c] == BLOCK <==> old(g[r, c]) == BLOCK)
    ensures outcome.Finished? ==> outcome.filled == IsGridFilled(Cells(g))
    ensures outcome.MissingBucket? ==> outcome.length !in bank
  {
    ghost var before := Cells(g);
    newBank := bank;
    var draws: nat := 0;
    var steps := fuel;
    var row: nat := 0;
    while row < g.Length0
      invariant row <= g.Length0 + 1
      invariant WellFormed(newBank) && BlockFree(newBank) && newBank.Keys == bank.Keys
      invariant SameBlocks(g, before)
      decreases steps
    {
      if steps == 0 {
        return OutOfFuel, newBank;
      }
      steps := steps - 1;
      var col: nat := 0;
      while col < g.Length1
        invariant row <= g.Length0
        invariant WellFormed(newBank) && BlockFree(newBank) && newBank.Keys == bank.Keys
        invariant SameBlocks(g, before)
        decreases steps
      {
        if steps == 0 {
          return OutOfFuel, newBank;
        }
        steps := steps - 1;
        var spaceLength := FindOpenSpaceAcross(g, row, col);
        if spaceLength > 0 {
          var wordList := shuffle(draws, Bucket(newBank, spaceLength));
          draws := draws + 1;
          newBank := Reordered(newBank, spaceLength, wordList);
          var chosen;
          chosen, newBank := TryPlace(g, newBank, row, col, spaceLength, complexity, before);
          if chosen < |wordList| {
            col := col + spaceLength - 1;
          } else {
            ghost var sites, cleared;
            ghost var pre := Snapshot(g, before);
            var lowestRow, recycled, missing;
            lowestRow, recycled, missing, sites, cleared := Repair(g, newBank, row, col, spaceLength);
            BlocksAfterRepair(g, before, pre, lowestRow);
            if missing.Some? {
              RecycleKeepsInvariants(newBank, recycled, cleared[..|cleared| - 1]);
              return MissingBucket(missing.value), recycled;
            }
            RecycleKeepsInvariants(newBank, recycled, cleared);
            newBank := recycled;
            row, col := lowestRow, 0;
          }
        } else {
          col := col + 1;
        }
      }
      row := row + 1;
    }
    outcome := Finished(IsGridFilled(Cells(g)));
  }
}
