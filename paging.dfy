/**
 * The paging arithmetic of `Map_display::checkPage` and
 * `Map_display::searchHandler`: pages of 20 events, a running count of the
 * results seen, and the neighbouring-page indices derived from that count.
 */
module Paging {

  /** Events per page requested from the event directory. */
  const PageSize: nat := 20

  /** The page `checkPage` takes to be current: the number of full pages of results seen, less one. */
  function CurrentPage(results: nat): int {
    results / PageSize - 1
  }

  /**
   * `checkPage(true)`: the index of the following page when the current page
   * is exactly full and the one-record probe for the following page found a
   * record; -1 (no such page) otherwise.
   */
  function NextPage(results: nat, probeCount: nat): (r: int)
    ensures r != -1 <==> results % PageSize == 0 && probeCount >= 1
    ensures r != -1 ==> r == CurrentPage(results) + 1 && r >= 0
  {
    var page := CurrentPage(results);
    if results % PageSize == 0 && probeCount >= 1 then page + 1 else -1
  }

  /**
   * `checkPage(false)`: the index of the preceding page when the current page
   * is not the first; -1 (no such page) otherwise. No remote call is made.
   */
  function PreviousPage(results: nat): (r: int)
    ensures r != -1 <==> results >= 2 * PageSize
    ensures r != -1 ==> r == CurrentPage(results) - 1 && r >= 0
  {
    var page := CurrentPage(results);
    if page > 0 then page - 1 else -1
  }

  /** The running count as `searchHandler` leaves it before fetching `page`: zeroed when `page > 0`. */
  function ResetOnSearch(results: nat, page: int): nat {
    if page > 0 then 0 else results
  }

  /** The reset that keeps the count in step with the page: a new search (page 0) starts the count afresh. */
  function ResetOnNewSearch(results: nat, page: int): nat {
    if page == 0 then 0 else results
  }

  /**
   * The count a search leaves before fetching `page` when each search sets it
   * from the page instead of zeroing or keeping it: the records of the
   * pages before `page`, all full.
   */
  function ResetToPage(results: nat, page: int): nat {
    if page > 0 then page * PageSize else 0
  }

  /** One call of `searchHandler`: the page asked for and the number of records it returned. */
  datatype Visit = Visit(page: nat, count: nat)

  /**
   * The running count after `searchHandler` has been called for each of
   * `visits` in turn, with `reset` applied to the count on entry to each
   * call (line 166 as written is `ResetOnSearch`).
   */
  function Replay(results: nat, visits: seq<Visit>, reset: (nat, int) -> nat): nat
    decreases |visits|
  {
    if |visits| == 0 then results
    else
      var last := visits[|visits| - 1];
      reset(Replay(results, visits[..|visits| - 1], reset), last.page) + last.count
  }

  /** Pages 0, 1, ..., |visits| - 1 were visited in that order and each came back full. */
  ghost predicate FullForward(visits: seq<Visit>) {
    forall i :: 0 <= i < |visits| ==> visits[i] == Visit(i, PageSize)
  }

  // ---------------------------------------------------------------------
  // The reset as written (line 166) loses track of the page.

  /**
   * With the reset as written, after two or more full pages visited forward
   * the count is a single page's worth, whatever came before.
   */
  lemma AsWrittenCountsOnePage(results: nat, visits: seq<Visit>)
    requires |visits| >= 2 && FullForward(visits)
    ensures Replay(results, visits, ResetOnSearch) == PageSize
  {
  }

  /**
   * So on page |visits| - 1 >= 1, `checkPage(true)` offers page 1 instead of
   * page |visits|, and `checkPage(false)` reports no previous page although
   * page |visits| - 2 exists.
   */
  lemma AsWrittenPagingLosesPlace(results: nat, visits: seq<Visit>, probeCount: nat)
    requires |visits| >= 2 && FullForward(visits) && probeCount >= 1
    ensures NextPage(Replay(results, visits, ResetOnSearch), probeCount) == 1
    ensures PreviousPage(Replay(results, visits, ResetOnSearch)) == -1
  {
    AsWrittenCountsOnePage(results, visits);
  }

  /**
   * And a fresh search for page 0 after a full first page keeps counting:
   * `checkPage(false)` then offers page 0 as the previous page of page 0.
   */
  lemma AsWrittenNewSearchKeepsCount()
    ensures PreviousPage(Replay(PageSize, [Visit(0, PageSize)], ResetOnSearch)) == 0
  {
  }

  // ---------------------------------------------------------------------
  // With a reset on page 0 the count tracks the page while paging forward.

  lemma {:induction false} CorrectedCountsAllPages(results: nat, visits: seq<Visit>)
    requires |visits| >= 1 && FullForward(visits)
    ensures Replay(results, visits, ResetOnNewSearch) == PageSize * |visits|
    decreases |visits|
  {
    var n := |visits| - 1;
    assert visits[n] == Visit(n, PageSize);
    if n > 0 {
      assert FullForward(visits[..n]) by {
        forall i | 0 <= i < n ensures visits[..n][i] == Visit(i, PageSize) {
          assert visits[..n][i] == visits[i];
        }
      }
      CorrectedCountsAllPages(results, visits[..n]);
    }
  }

  /**
   * With a reset on page 0, after full pages 0 .. |visits| - 1 visited in
   * order the current page is |visits| - 1, `checkPage(true)` offers page
   * |visits| exactly when the probe finds a record, and `checkPage(false)`
   * offers page |visits| - 2 exactly when there is one.
   */
  lemma CorrectedPagingTracksPage(results: nat, visits: seq<Visit>, probeCount: nat)
    requires |visits| >= 1 && FullForward(visits)
    ensures CurrentPage(Replay(results, visits, ResetOnNewSearch)) == |visits| - 1
    ensures NextPage(Replay(results, visits, ResetOnNewSearch), probeCount)
         == if probeCount >= 1 then |visits| else -1
    ensures PreviousPage(Replay(results, visits, ResetOnNewSearch))
         == if |visits| >= 2 then |visits| - 2 else -1
  {
    CorrectedCountsAllPages(results, visits);
  }

  /**
   * Stepping back breaks the count under either reset: after full pages 0,
   * 1 and 2, a search for page 1 (the page `checkPage(false)` offers) leaves
   * a count whose current page is 0 as written and 3 with the page-0 reset.
   */
  lemma StepBackLosesPlace()
    ensures var visits := [Visit(0, PageSize), Visit(1, PageSize), Visit(2, PageSize), Visit(1, PageSize)];
      && CurrentPage(Replay(0, visits, ResetOnSearch)) == 0
      && CurrentPage(Replay(0, visits, ResetOnNewSearch)) == 3
      && PreviousPage(Replay(0, visits, ResetOnNewSearch)) == 2
      && NextPage(Replay(0, visits, ResetOnNewSearch), 1) == 4
  {
    var visits := [Visit(0, PageSize), Visit(1, PageSize), Visit(2, PageSize), Visit(1, PageSize)];
    assert visits[..3][..2][..1][..0] == [];
    assert Replay(0, visits[..3][..2][..1], ResetOnNewSearch) == 20;
    assert Replay(0, visits[..3][..2], ResetOnNewSearch) == 40;
    assert Replay(0, visits[..3], ResetOnNewSearch) == 60;
    assert Replay(0, visits[..3][..2][..1], ResetOnSearch) == 20;
    assert Replay(0, visits[..3][..2], ResetOnSearch) == 20;
    assert Replay(0, visits[..3], ResetOnSearch) == 20;
  }

  // ---------------------------------------------------------------------
  // A count set from the page tracks the page in any order of visits.

  /**
   * When each search sets the count to the records of the pages before it,
   * then after any sequence of searches whose last page came back full the
   * current page is that page, `checkPage(true)` offers the following page
   * exactly when the probe finds a record, and `checkPage(false)` offers the
   * preceding page exactly when there is one.
   */
  lemma AnchoredTracksAnyOrder(results: nat, visits: seq<Visit>, probeCount: nat)
    requires |visits| >= 1 && visits[|visits| - 1].count == PageSize
    ensures var p := visits[|visits| - 1].page;
      && CurrentPage(Replay(results, visits, ResetToPage)) == p
      && NextPage(Replay(results, visits, ResetToPage), probeCount) == (if probeCount >= 1 then p + 1 else -1)
      && PreviousPage(Replay(results, visits, ResetToPage)) == (if p >= 1 then p - 1 else -1)
  {
    var p := visits[|visits| - 1].page;
    assert Replay(results, visits, ResetToPage) == (p + 1) * PageSize;
  }
}
