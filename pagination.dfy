/**
 * Paging through the deceased records in the first CRM (app_legacy.py):
 * the offset kept between reruns, the buttons that move it, the page
 * number shown, the inclusive row range requested from the database and
 * the "Showing first-last of total" caption.
 */
module Pagination {
  import opened Wrappers

  /** Records per page. */
  const PageSize: nat := 20

  function Min(a: int, b: int): int {
    if a < b then a else b
  }

  // ---------------------------------------------------------------------------
  // The requested range
  // ---------------------------------------------------------------------------

  /** The inclusive row range `.range(first, last)` of a query. */
  datatype Bounds = Bounds(first: int, last: int)

  /** The range a page request asks for: `offset` to `offset + limit - 1`, both included. */
  function RangeBounds(offset: nat, limit: nat): (b: Bounds)
    ensures b.first == offset
    ensures b.last - b.first + 1 == limit
  {
    Bounds(offset, offset + limit - 1)
  }

  /** The rows an inclusive range selects from the ordered result: those whose index lies in `first..last`. */
  function RangeRows<T>(rows: seq<T>, b: Bounds): (r: seq<T>)
    requires 0 <= b.first
    ensures |r| == if b.first >= |rows| || b.last < b.first then 0 else Min(b.last + 1, |rows|) - b.first
    ensures forall i :: 0 <= i < |r| ==> r[i] == rows[b.first + i]
  {
    if b.first >= |rows| || b.last < b.first then [] else rows[b.first..Min(b.last + 1, |rows|)]
  }

  /**
   * `fetch_casos_paginated` after filtering and ordering: the page of
   * `limit` rows starting at `offset`. It holds at most `limit` rows, each
   * the row at its offset, and is full unless it reaches the end.
   */
  function FetchPage<T>(rows: seq<T>, offset: nat, limit: nat): (r: seq<T>)
    ensures |r| <= limit
    ensures offset + limit <= |rows| ==> |r| == limit
    ensures offset >= |rows| ==> r == []
    ensures r != [] ==> offset + |r| <= |rows|
    ensures forall i :: 0 <= i < |r| ==> r[i] == rows[offset + i]
  {
    RangeRows(rows, RangeBounds(offset, limit))
  }

  /** The pages from `offset` on, stepping by `limit`, until the rows run out. */
  function PagesFrom<T>(rows: seq<T>, offset: nat, limit: nat): seq<seq<T>>
    requires limit > 0
    decreases |rows| - offset
  {
    if offset >= |rows| then [] else [FetchPage(rows, offset, limit)] + PagesFrom(rows, offset + limit, limit)
  }

  function Flatten<T>(pages: seq<seq<T>>): seq<T> {
    if pages == [] then [] else pages[0] + Flatten(pages[1..])
  }

  /** Flattening a page followed by more pages puts that page first. */
  lemma FlattenCons<T>(page: seq<T>, pages: seq<seq<T>>)
    ensures Flatten([page] + pages) == page + Flatten(pages)
  {
    assert ([page] + pages)[1..] == pages;
  }

  lemma SliceSplit<T>(s: seq<T>, i: nat, j: nat)
    requires i <= j <= |s|
    ensures s[i..j] + s[j..] == s[i..]
  {
  }

  /** The first page from `offset` is the slice up to the next offset or the end. */
  lemma PagesFromStep<T>(rows: seq<T>, offset: nat, limit: nat)
    requires limit > 0 && offset < |rows|
    ensures PagesFrom(rows, offset, limit) == [rows[offset..Min(offset + limit, |rows|)]] + PagesFrom(rows, offset + limit, limit)
  {
    assert FetchPage(rows, offset, limit) == rows[offset..Min(offset + limit, |rows|)];
  }

  /** Stepping page by page from `offset` shows every remaining row once, in order. */
  lemma {:induction false} PagesTile<T>(rows: seq<T>, offset: nat, limit: nat)
    requires limit > 0 && offset <= |rows|
    ensures Flatten(PagesFrom(rows, offset, limit)) == rows[offset..]
    decreases |rows| - offset
  {
    if offset < |rows| {
      var next := Min(offset + limit, |rows|);
      var rest := PagesFrom(rows, offset + limit, limit);
      PagesFromStep(rows, offset, limit);
      FlattenCons(rows[offset..next], rest);
      if offset + limit <= |rows| {
        PagesTile(rows, offset + limit, limit);
      } else {
        assert rest == [];
      }
      SliceSplit(rows, offset, next);
    }
  }

  /** Row `i` is on the page that starts at the multiple of `limit` at or below it. */
  lemma RowOnItsPage<T>(rows: seq<T>, limit: nat, i: nat)
    requires limit > 0 && i < |rows|
    ensures var o := i / limit * limit;
      o <= i < o + limit && i - o < |FetchPage(rows, o, limit)| && FetchPage(rows, o, limit)[i - o] == rows[i]
  {
    var o := i / limit * limit;
    assert o == i - i % limit;
  }

  // ---------------------------------------------------------------------------
  // Offsets, page numbers and the caption
  // ---------------------------------------------------------------------------

  /** The page number shown: `offset // PAGE_SIZE + 1`. */
  function CurrentPage(offset: nat): (r: nat)
    ensures r >= 1
    ensures (r - 1) * PageSize <= offset < r * PageSize
  {
    offset / PageSize + 1
  }

  /** The offset after Previous: `max(0, offset - PAGE_SIZE)`. */
  function PreviousOffset(offset: nat): (r: nat)
    ensures r <= offset && offset - r <= PageSize
    ensures r == 0 || offset - r == PageSize
  {
    if offset >= PageSize then offset - PageSize else 0
  }

  /** An offset the buttons can produce: a whole number of pages. */
  predicate Aligned(offset: nat) {
    offset % PageSize == 0
  }

  /** Previous undoes Next. */
  lemma PreviousUndoesNext(offset: nat)
    ensures PreviousOffset(offset + PageSize) == offset
  {
  }

  /** Next shows the following page number, Previous the preceding one, never below page 1. */
  lemma PageNumbers(offset: nat)
    ensures CurrentPage(offset + PageSize) == CurrentPage(offset) + 1
    ensures offset >= PageSize ==> CurrentPage(PreviousOffset(offset)) == CurrentPage(offset) - 1
    ensures offset < PageSize ==> CurrentPage(PreviousOffset(offset)) == 1
  {
  }

  /** The caption's first and last record numbers, counted from 1. */
  datatype Showing = Showing(first: int, last: int)

  /** "Showing {offset + 1}-{min(offset + len(casos), total)} of {total}". */
  function ShowingRange(offset: nat, shown: nat, total: nat): (r: Showing)
    ensures r.first == offset + 1
    ensures r.last <= total && r.last <= offset + shown
    ensures r.last == total || r.last == offset + shown
  {
    Showing(offset + 1, Min(offset + shown, total))
  }

  // ---------------------------------------------------------------------------
  // The buttons
  // ---------------------------------------------------------------------------

  /** The part of the session state the buttons change. */
  datatype PageState = PageState(offset: nat, selectedCaso: Option<string>)

  datatype PageAction = Previous | Next | ResetFilters

  /**
   * The buttons as written: Previous is disabled on the first page and
   * otherwise moves one page back; Next is never disabled and always moves
   * one page on; Reset returns to the first page. Every move clears the
   * selected case.
   */
  function StepAsWritten(s: PageState, a: PageAction): (r: PageState)
    ensures a == Previous && s.offset == 0 ==> r == s
    ensures r != s ==> r.selectedCaso == None
    ensures a == Next ==> r.offset == s.offset + PageSize
  {
    match a
    case Previous => if s.offset == 0 then s else PageState(PreviousOffset(s.offset), None)
    case Next => PageState(s.offset + PageSize, None)
    case ResetFilters => PageState(0, None)
  }

  /**
   * Next, as written, moves past the last record: with 25 records, from the
   * second page it moves to offset 40, where the page query yields no rows.
   * The last clause is the caption arithmetic of the model for that offset;
   * how the database answers a range past the end is not modelled.
   */
  lemma NextPastLastPage<T>(rows: seq<T>)
    requires |rows| == 25
    ensures StepAsWritten(PageState(20, None), Next).offset == 40
    ensures FetchPage(rows, 40, PageSize) == []
    ensures ShowingRange(40, 0, |rows|) == Showing(41, 25)
  {
  }

  /**
   * The buttons as intended: Next is disabled once `offset + PAGE_SIZE`
   * reaches the total, so it never opens a page past the last record.
   */
  function Step(s: PageState, a: PageAction, total: nat): (r: PageState)
    ensures a == Previous && s.offset == 0 ==> r == s
    ensures a == Next && s.offset + PageSize >= total ==> r == s
    ensures r != s ==> r.selectedCaso == None
  {
    match a
    case Previous => if s.offset == 0 then s else PageState(PreviousOffset(s.offset), None)
    case Next => if s.offset + PageSize >= total then s else PageState(s.offset + PageSize, None)
    case ResetFilters => PageState(0, None)
  }

  /** A sequence of button presses. */
  function Run(s: PageState, actions: seq<PageAction>, total: nat): PageState
    decreases |actions|
  {
    if actions == [] then s else Run(Step(s, actions[0], total), actions[1..], total)
  }

  /** An offset the intended buttons keep: a whole number of pages, on a page that has records unless there are none. */
  predicate OnSomePage(offset: nat, total: nat) {
    Aligned(offset) && (offset == 0 || offset < total)
  }

  /** Each button press keeps the offset on an existing page; as written, alignment alone is kept. */
  lemma StepKeepsPage(s: PageState, a: PageAction, total: nat)
    ensures OnSomePage(s.offset, total) ==> OnSomePage(Step(s, a, total).offset, total)
    ensures Aligned(s.offset) ==> Aligned(StepAsWritten(s, a).offset)
  {
  }

  /** However the buttons are pressed, the offset stays on an existing page. */
  lemma {:induction false} RunKeepsPage(s: PageState, actions: seq<PageAction>, total: nat)
    requires OnSomePage(s.offset, total)
    ensures OnSomePage(Run(s, actions, total).offset, total)
    decreases |actions|
  {
    if actions != [] {
      StepKeepsPage(s, actions[0], total);
      RunKeepsPage(Step(s, actions[0], total), actions[1..], total);
    }
  }

  /**
   * On an existing page the caption names exactly the records shown: its
   * first number is the first record of the page and it spans the page.
   */
  lemma CaptionMatchesPage<T>(rows: seq<T>, offset: nat)
    requires OnSomePage(offset, |rows|) && rows != []
    ensures var page := FetchPage(rows, offset, PageSize);
      var c := ShowingRange(offset, |page|, |rows|);
      page != [] && c.first <= c.last && c.last - c.first + 1 == |page| && page[0] == rows[c.first - 1]
  {
  }
}
