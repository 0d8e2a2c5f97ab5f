/**
 * The page controls of the directory screen: the list of numbered page
 * buttons with `...` markers for large page counts, the rule that hides the
 * controls when there is at most one page, and when "previous" and "next"
 * are disabled.
 */
module Pagination {

  /** One entry of the button list: a page number or a `'...'` marker. */
  datatype Entry = Num(page: int) | Ellipsis

  /** Above this many pages the list is compacted. */
  const MaxPagesToShow := 7

  /** The entries `lo`, `lo + 1`, ..., `hi` (none when `hi < lo`). */
  function Run(lo: int, hi: int): (r: seq<Entry>)
    ensures |r| == if hi < lo then 0 else hi - lo + 1
    ensures forall k :: 0 <= k < |r| ==> r[k] == Num(lo + k)
  {
    if hi < lo then [] else seq(hi - lo + 1, k => Num(lo + k))
  }

  /** Pushing the next number onto a run extends the run. */
  lemma RunExtend(lo: int, hi: int)
    requires lo <= hi + 1
    ensures Run(lo, hi + 1) == Run(lo, hi) + [Num(hi + 1)]
  {
    assert Run(lo, hi + 1)[hi + 1 - lo] == Num(hi + 1);
  }

  /** Pushing the next number onto a list that ends in a run extends that run. */
  lemma RunPush(prefix: seq<Entry>, lo: int, hi: int)
    requires lo <= hi + 1
    ensures (prefix + Run(lo, hi)) + [Num(hi + 1)] == prefix + Run(lo, hi + 1)
  {
    RunExtend(lo, hi);
  }

  /**
   * The button list as a closed formula: every page up to 7 pages; beyond
   * that the first page, a window of pages, `...` markers and the last page.
   * It never has more than 7 entries, and runs from page 1 to the last page.
   */
  function Buttons(currentPage: int, totalPages: int): (r: seq<Entry>)
    ensures |r| <= MaxPagesToShow
    ensures totalPages >= 1 ==> |r| > 0 && r[0] == Num(1) && r[|r| - 1] == Num(totalPages)
  {
    if totalPages <= MaxPagesToShow then Run(1, totalPages)
    else if currentPage <= 3 then [Num(1)] + Run(2, 4) + [Ellipsis, Num(totalPages)]
    else if currentPage >= totalPages - 2 then [Num(1), Ellipsis] + Run(totalPages - 3, totalPages)
    else [Num(1), Ellipsis] + Run(currentPage - 1, currentPage + 1) + [Ellipsis, Num(totalPages)]
  }

  /** The `pageNumbers` computation: builds the list by pushing entries in loops. */
  method PageNumbers(currentPage: int, totalPages: int) returns (pages: seq<Entry>)
    ensures pages == Buttons(currentPage, totalPages)
  {
    pages := [];
    if totalPages <= MaxPagesToShow {
      var i := 1;
      while i <= totalPages
        invariant i == 1 || 1 < i <= totalPages + 1
        invariant pages == [] + Run(1, i - 1)
      {
        RunPush([], 1, i - 1);
        pages := pages + [Num(i)];
        i := i + 1;
      }
    } else {
      pages := pages + [Num(1)];
      if currentPage <= 3 {
        var i := 2;
        while i <= 4
          invariant 2 <= i <= 5
          invariant pages == [Num(1)] + Run(2, i - 1)
        {
          RunPush([Num(1)], 2, i - 1);
          pages := pages + [Num(i)];
          i := i + 1;
        }
        pages := pages + [Ellipsis];
        pages := pages + [Num(totalPages)];
        assert pages == [Num(1)] + Run(2, 4) + [Ellipsis, Num(totalPages)];
      } else if currentPage >= totalPages - 2 {
        pages := pages + [Ellipsis];
        var i := totalPages - 3;
        while i <= totalPages
          invariant totalPages - 3 <= i <= totalPages + 1
          invariant pages == [Num(1), Ellipsis] + Run(totalPages - 3, i - 1)
        {
          RunPush([Num(1), Ellipsis], totalPages - 3, i - 1);
          pages := pages + [Num(i)];
          i := i + 1;
        }
      } else {
        pages := pages + [Ellipsis];
        var i := currentPage - 1;
        while i <= currentPage + 1
          invariant currentPage - 1 <= i <= currentPage + 2
          invariant pages == [Num(1), Ellipsis] + Run(currentPage - 1, i - 1)
        {
          RunPush([Num(1), Ellipsis], currentPage - 1, i - 1);
          pages := pages + [Num(i)];
          i := i + 1;
        }
        pages := pages + [Ellipsis];
        pages := pages + [Num(totalPages)];
        assert pages == [Num(1), Ellipsis] + Run(currentPage - 1, currentPage + 1) + [Ellipsis, Num(totalPages)];
      }
    }
  }

  /** Up to 7 pages, the list is exactly the pages 1 to `totalPages`, without markers. */
  lemma ButtonsFull(currentPage: int, totalPages: int)
    requires totalPages <= MaxPagesToShow
    ensures var b := Buttons(currentPage, totalPages);
      && |b| == (if totalPages < 1 then 0 else totalPages)
      && (forall k :: 0 <= k < |b| ==> b[k] == Num(k + 1))
  {
  }

  /** Beyond 7 pages, at most 7 entries, from page 1 to the last page. */
  lemma ButtonsCompact(currentPage: int, totalPages: int)
    requires totalPages > MaxPagesToShow
    ensures var b := Buttons(currentPage, totalPages);
      && 6 <= |b| <= MaxPagesToShow
      && b[0] == Num(1) && b[|b| - 1] == Num(totalPages)
      && Ellipsis in b
  {
  }

  /** The three windows, spelled out. */
  lemma ButtonsWindows(currentPage: int, totalPages: int)
    requires totalPages > MaxPagesToShow
    ensures currentPage <= 3 ==>
      Buttons(currentPage, totalPages) == [Num(1), Num(2), Num(3), Num(4), Ellipsis, Num(totalPages)]
    ensures 3 < currentPage && currentPage >= totalPages - 2 ==>
      Buttons(currentPage, totalPages) ==
        [Num(1), Ellipsis, Num(totalPages - 3), Num(totalPages - 2), Num(totalPages - 1), Num(totalPages)]
    ensures 3 < currentPage < totalPages - 2 ==>
      Buttons(currentPage, totalPages) ==
        [Num(1), Ellipsis, Num(currentPage - 1), Num(currentPage), Num(currentPage + 1), Ellipsis, Num(totalPages)]
  {
  }

  /** Page numbers strictly increase along the list, so none appears twice. */
  lemma ButtonsIncreasing(currentPage: int, totalPages: int)
    ensures var b := Buttons(currentPage, totalPages);
      forall k, l :: 0 <= k < l < |b| && b[k].Num? && b[l].Num? ==> b[k].page < b[l].page
  {
  }

  /** Every listed number is a page between 1 and `totalPages`. */
  lemma ButtonsInRange(currentPage: int, totalPages: int)
    ensures var b := Buttons(currentPage, totalPages);
      forall k :: 0 <= k < |b| && b[k].Num? ==> 1 <= b[k].page <= totalPages
  {
  }

  /** A current page between 1 and `totalPages` always has its own button. */
  lemma ButtonsShowCurrent(currentPage: int, totalPages: int)
    requires 1 <= currentPage <= totalPages
    ensures Num(currentPage) in Buttons(currentPage, totalPages)
  {
    var b := Buttons(currentPage, totalPages);
    if totalPages <= MaxPagesToShow {
      assert b[currentPage - 1] == Num(currentPage);
    } else if currentPage <= 3 {
      assert b[currentPage - 1] == Num(currentPage);
    } else if currentPage >= totalPages - 2 {
      assert b[currentPage - totalPages + 5] == Num(currentPage);
    } else {
      assert b[3] == Num(currentPage);
    }
  }

  /** A marker is never first or last, and two markers are never adjacent. */
  lemma ButtonsEllipsisPlacement(currentPage: int, totalPages: int)
    ensures var b := Buttons(currentPage, totalPages);
      && (|b| > 0 ==> b[0].Num? && b[|b| - 1].Num?)
      && (forall k :: 0 <= k < |b| - 1 ==> b[k].Num? || b[k + 1].Num?)
  {
  }

  /** What the component renders. */
  datatype Controls =
    | Hidden
    | Shown(previousDisabled: bool, pages: seq<Entry>, nextDisabled: bool)

  /**
   * The component: nothing at all for at most one page; otherwise
   * "previous", the page buttons and "next".
   */
  method Render(currentPage: int, totalPages: int) returns (r: Controls)
    ensures r.Hidden? <==> totalPages <= 1
    ensures r.Shown? ==> r.pages == Buttons(currentPage, totalPages)
    ensures r.Shown? ==> (r.previousDisabled <==> currentPage == 1)
    ensures r.Shown? ==> (r.nextDisabled <==> currentPage == totalPages)
  {
    var pageNumbers := PageNumbers(currentPage, totalPages);
    if totalPages <= 1 {
      return Hidden;
    }
    r := Shown(currentPage == 1, pageNumbers, currentPage == totalPages);
  }
}
