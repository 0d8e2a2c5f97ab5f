/**
 * The derived state of the `usePaginatedUsers` hook: the search filter over
 * the fetched users, the page count, the clamped page and the slice of users
 * shown on it, and the raw `currentPage` that the navigation callbacks and
 * the query-change reset update.
 */
module PaginatedUsers {
  import opened Text

  /** A user record as the directory endpoint returns it. */
  datatype User = User(id: int, name: string, email: string, companyName: string)

  function Min(a: int, b: int): int { if a <= b then a else b }
  function Max(a: int, b: int): int { if a <= b then b else a }

  // ---------------------------------------------------------------------
  // The search filter
  // ---------------------------------------------------------------------

  /** What the filter looks for: the query lower-cased, then trimmed. */
  function Needle(query: string): (r: string)
  {
    Trim(LowerStr(query))
  }

  /** A user is kept when the needle occurs somewhere in the lower-cased name or e-mail. */
  predicate Matches(u: User, needle: string)
  {
    Contains(LowerStr(u.name), needle) || Contains(LowerStr(u.email), needle)
  }

  /** Matching is the search for an occurrence of the needle in the lower-cased name or e-mail. */
  lemma MatchesIff(u: User, needle: string)
    ensures Matches(u, needle) <==>
      (exists i :: OccursAt(LowerStr(u.name), needle, i)) || (exists i :: OccursAt(LowerStr(u.email), needle, i))
  {
    ContainsIff(LowerStr(u.name), needle);
    ContainsIff(LowerStr(u.email), needle);
  }

  /** `users.filter(...)` from index `i` on, visiting the users left to right. */
  function SelectFrom(users: seq<User>, needle: string, i: nat): (r: seq<User>)
    requires i <= |users|
    ensures |r| <= |users| - i
    decreases |users| - i
  {
    if i == |users| then []
    else if Matches(users[i], needle) then [users[i]] + SelectFrom(users, needle, i + 1)
    else SelectFrom(users, needle, i + 1)
  }

  /** The positions, from `i` on and in increasing order, of the users the filter keeps. */
  function MatchingIndicesFrom(users: seq<User>, needle: string, i: nat): seq<nat>
    requires i <= |users|
    decreases |users| - i
  {
    if i == |users| then []
    else if Matches(users[i], needle) then [i] + MatchingIndicesFrom(users, needle, i + 1)
    else MatchingIndicesFrom(users, needle, i + 1)
  }

  /** The positions in `users` of the users the filter keeps. */
  function MatchingIndices(users: seq<User>, needle: string): seq<nat>
  {
    MatchingIndicesFrom(users, needle, 0)
  }

  /** The matching positions from `i` on lie in `[i, |users|)` and increase strictly. */
  lemma {:induction false} MatchingIndicesFromIncrease(users: seq<User>, needle: string, i: nat)
    requires i <= |users|
    ensures forall k :: 0 <= k < |MatchingIndicesFrom(users, needle, i)| ==>
      i <= MatchingIndicesFrom(users, needle, i)[k] < |users|
    ensures forall k, l :: 0 <= k < l < |MatchingIndicesFrom(users, needle, i)| ==>
      MatchingIndicesFrom(users, needle, i)[k] < MatchingIndicesFrom(users, needle, i)[l]
    decreases |users| - i
  {
    if i < |users| {
      MatchingIndicesFromIncrease(users, needle, i + 1);
    }
  }

  /** A position from `i` on is a matching position exactly when the user there matches. */
  lemma {:induction false} MatchingIndicesFromExact(users: seq<User>, needle: string, i: nat)
    requires i <= |users|
    ensures forall j :: i <= j < |users| ==>
      (j in MatchingIndicesFrom(users, needle, i) <==> Matches(users[j], needle))
    decreases |users| - i
  {
    if i < |users| {
      MatchingIndicesFromExact(users, needle, i + 1);
      MatchingIndicesFromIncrease(users, needle, i + 1);
      assert i !in MatchingIndicesFrom(users, needle, i + 1);
    }
  }

  /** The k-th user the filter keeps from `i` on is the user at the k-th matching position. */
  lemma {:induction false} SelectFromAtIndices(users: seq<User>, needle: string, i: nat)
    requires i <= |users|
    ensures var r, idx := SelectFrom(users, needle, i), MatchingIndicesFrom(users, needle, i);
      && |r| == |idx|
      && (forall k :: 0 <= k < |idx| ==> idx[k] < |users| && r[k] == users[idx[k]])
    decreases |users| - i
  {
    MatchingIndicesFromIncrease(users, needle, i);
    if i < |users| {
      SelectFromAtIndices(users, needle, i + 1);
    }
  }

  /** The list the hook filters to: everything for a blank query, else the matching users. */
  function FilterUsers(allUsers: seq<User>, searchQuery: string): (r: seq<User>)
    ensures |r| <= |allUsers|
    ensures IsBlank(searchQuery) ==> r == allUsers
  {
    if IsBlank(searchQuery) then allUsers
    else SelectFrom(allUsers, Needle(searchQuery), 0)
  }

  /** The needle is the trimmed query, lower-cased; it is empty exactly for a blank query. */
  lemma NeedleIsTrimmedQuery(query: string)
    ensures Needle(query) == LowerStr(Trim(query))
    ensures |Needle(query)| == 0 <==> IsBlank(query)
  {
    TrimLowerCommute(query);
  }

  /**
   * The selection by `needle` is the order-preserving selection of exactly
   * the users that match it.
   */
  lemma SelectionIsOrdered(users: seq<User>, needle: string)
    ensures var r, idx := SelectFrom(users, needle, 0), MatchingIndices(users, needle);
      && |r| == |idx|
      && (forall k :: 0 <= k < |idx| ==> idx[k] < |users| && r[k] == users[idx[k]])
      && (forall k, l :: 0 <= k < l < |idx| ==> idx[k] < idx[l])
      && (forall j :: 0 <= j < |users| ==> (j in idx <==> Matches(users[j], needle)))
  {
    MatchingIndicesFromIncrease(users, needle, 0);
    MatchingIndicesFromExact(users, needle, 0);
    SelectFromAtIndices(users, needle, 0);
  }

  /**
   * For a query that is not blank, the filtered list is the order-preserving
   * selection of exactly those users whose lower-cased name or email includes
   * the lower-cased, trimmed query.
   */
  lemma FilterIsOrderedSelection(allUsers: seq<User>, searchQuery: string)
    requires !IsBlank(searchQuery)
    ensures var r, n := FilterUsers(allUsers, searchQuery), Needle(searchQuery);
      var idx := MatchingIndices(allUsers, n);
      && |r| == |idx|
      && (forall k :: 0 <= k < |idx| ==> idx[k] < |allUsers| && r[k] == allUsers[idx[k]])
      && (forall k, l :: 0 <= k < l < |idx| ==> idx[k] < idx[l])
      && (forall j :: 0 <= j < |allUsers| ==> (j in idx <==> Matches(allUsers[j], n)))
  {
    SelectionIsOrdered(allUsers, Needle(searchQuery));
  }

  /** A user is in the filtered list exactly when it is in the full list and matches. */
  lemma FilterMembership(allUsers: seq<User>, searchQuery: string, u: User)
    requires !IsBlank(searchQuery)
    ensures u in FilterUsers(allUsers, searchQuery) <==> u in allUsers && Matches(u, Needle(searchQuery))
  {
    var n := Needle(searchQuery);
    FilterIsOrderedSelection(allUsers, searchQuery);
    if u in allUsers && Matches(u, n) {
      var j :| 0 <= j < |allUsers| && allUsers[j] == u;
      var idx := MatchingIndices(allUsers, n);
      assert j in idx;
      var k :| 0 <= k < |idx| && idx[k] == j;
      assert FilterUsers(allUsers, searchQuery)[k] == u;
    }
  }

  // ---------------------------------------------------------------------
  // Page arithmetic and the page slice
  // ---------------------------------------------------------------------

  lemma MulMono(a: int, b: int, c: nat)
    requires a <= b
    ensures a * c <= b * c
  {
  }

  /** `Math.ceil(totalCount / pageSize)`. */
  function TotalPages(totalCount: nat, pageSize: nat): (r: nat)
    requires pageSize > 0
    ensures r * pageSize >= totalCount
    ensures r > 0 ==> (r - 1) * pageSize < totalCount
    ensures r == 0 <==> totalCount == 0
  {
    (totalCount + pageSize - 1) / pageSize
  }

  /** `Math.min(currentPage, Math.max(1, totalPages))`. */
  function ClampPage(currentPage: int, totalPages: nat): (r: int)
    ensures r <= Max(1, totalPages)
    ensures currentPage >= 1 ==> r >= 1
    ensures currentPage <= Max(1, totalPages) ==> r == currentPage
    ensures currentPage > Max(1, totalPages) ==> r == Max(1, totalPages)
  {
    Min(currentPage, Max(1, totalPages))
  }

  /**
   * `filtered.slice(start, start + pageSize)` with `start = (page - 1) * pageSize`:
   * the contiguous run of at most `pageSize` users from `start`, cut at the end of the list.
   */
  function PageSlice(filtered: seq<User>, page: int, pageSize: nat): (r: seq<User>)
    requires pageSize > 0 && page >= 1
    ensures |r| <= pageSize
    ensures |r| == Max(0, Min(pageSize, |filtered| - (page - 1) * pageSize))
    ensures forall k :: 0 <= k < |r| ==> r[k] == filtered[(page - 1) * pageSize + k]
  {
    var start: nat := (page - 1) * pageSize;
    if start >= |filtered| then []
    else filtered[start..Min(start + pageSize, |filtered|)]
  }

  /** The pages `page`, `page + 1`, ..., `last`, one after the other. */
  function PagesFrom(filtered: seq<User>, pageSize: nat, page: nat, last: nat): seq<User>
    requires pageSize > 0 && page >= 1
    decreases last + 1 - page
  {
    if page > last then []
    else PageSlice(filtered, page, pageSize) + PagesFrom(filtered, pageSize, page + 1, last)
  }

  lemma NextPageStart(page: int, pageSize: nat)
    ensures page * pageSize == (page - 1) * pageSize + pageSize
  {
  }

  lemma {:induction false} PagesFromIsSuffix(filtered: seq<User>, pageSize: nat, page: nat, last: nat)
    requires pageSize > 0 && last == TotalPages(|filtered|, pageSize) && 1 <= page <= last + 1
    ensures PagesFrom(filtered, pageSize, page, last) == filtered[Min((page - 1) * pageSize, |filtered|)..]
    decreases last + 1 - page
  {
    var start := (page - 1) * pageSize;
    if page <= last {
      MulMono(page - 1, last - 1, pageSize);
      var cut := Min(start + pageSize, |filtered|);
      assert PageSlice(filtered, page, pageSize) == filtered[start..cut];
      NextPageStart(page, pageSize);
      PagesFromIsSuffix(filtered, pageSize, page + 1, last);
      assert filtered[start..cut] + filtered[cut..] == filtered[start..];
    } else {
      assert start == last * pageSize;
    }
  }

  /** Concatenating pages 1 to `totalPages` gives back the filtered list. */
  lemma PagesReassemble(filtered: seq<User>, pageSize: nat)
    requires pageSize > 0
    ensures PagesFrom(filtered, pageSize, 1, TotalPages(|filtered|, pageSize)) == filtered
  {
    PagesFromIsSuffix(filtered, pageSize, 1, TotalPages(|filtered|, pageSize));
  }

  /** Every page from 1 to `totalPages` holds at least one user. */
  lemma PageInRangeNotEmpty(filtered: seq<User>, page: int, pageSize: nat)
    requires pageSize > 0 && 1 <= page <= TotalPages(|filtered|, pageSize)
    ensures PageSlice(filtered, page, pageSize) != []
  {
    MulMono(page - 1, TotalPages(|filtered|, pageSize) - 1, pageSize);
  }

  /** The clamped page is empty only when there is nothing to show. */
  lemma ShownPageNotEmpty(filtered: seq<User>, page: int, pageSize: nat)
    requires pageSize > 0 && 1 <= page <= Max(1, TotalPages(|filtered|, pageSize))
    ensures PageSlice(filtered, page, pageSize) == [] <==> |filtered| == 0
  {
    if |filtered| > 0 {
      PageInRangeNotEmpty(filtered, page, pageSize);
    }
  }

  /** What the hook returns for rendering. */
  datatype PageView = PageView(users: seq<User>, currentPage: int, totalPages: nat, totalCount: nat)

  /** The hook's derived values for a given raw `currentPage`. */
  function View(allUsers: seq<User>, searchQuery: string, currentPage: int, pageSize: nat): (v: PageView)
    requires pageSize > 0 && currentPage >= 1
    ensures v.totalCount <= |allUsers|
    ensures v.totalPages == 0 <==> v.totalCount == 0
    ensures 1 <= v.currentPage <= Max(1, v.totalPages)
    ensures |v.users| <= pageSize
    ensures v.users == [] <==> v.totalCount == 0
  {
    var filtered := FilterUsers(allUsers, searchQuery);
    var totalPages := TotalPages(|filtered|, pageSize);
    var safeCurrentPage := ClampPage(currentPage, totalPages);
    ShownPageNotEmpty(filtered, safeCurrentPage, pageSize);
    PageView(PageSlice(filtered, safeCurrentPage, pageSize), safeCurrentPage, totalPages, |filtered|)
  }

  // ---------------------------------------------------------------------
  // The updaters passed to setCurrentPage
  // ---------------------------------------------------------------------

  /** `goToPage(pageNum)`: moves to `pageNum` only when it is a page between 1 and `totalPages`. */
  function GoToPageUpdate(prev: int, pageNum: int, totalPages: nat): (r: int)
    ensures 1 <= pageNum <= totalPages ==> r == pageNum
    ensures !(1 <= pageNum <= totalPages) ==> r == prev
  {
    if 1 <= pageNum <= totalPages && pageNum != prev then pageNum else prev
  }

  /** `nextPage()`: one page on, unless the raw page is already at `totalPages` or beyond. */
  function NextPageUpdate(prev: int, totalPages: nat): (r: int)
    ensures prev < totalPages ==> r == prev + 1
    ensures prev >= totalPages ==> r == prev
  {
    if prev < totalPages then prev + 1 else prev
  }

  /** `previousPage()`: one page back, unless the raw page is already 1 or below. */
  function PreviousPageUpdate(prev: int): (r: int)
    ensures prev > 1 ==> r == prev - 1
    ensures prev <= 1 ==> r == prev
  {
    if prev > 1 then prev - 1 else prev
  }

  /** None of the updaters can take a raw page of at least 1 below 1. */
  lemma UpdatesKeepPagePositive(prev: int, pageNum: int, totalPages: nat)
    requires prev >= 1
    ensures GoToPageUpdate(prev, pageNum, totalPages) >= 1
    ensures NextPageUpdate(prev, totalPages) >= 1
    ensures PreviousPageUpdate(prev) >= 1
  {
  }

  /**
   * While the raw page is a valid page, every update keeps it valid, and the
   * page shown is then the raw page itself.
   */
  lemma UpdatesKeepPageInRange(prev: int, pageNum: int, totalPages: nat)
    requires 1 <= prev <= Max(1, totalPages)
    ensures var g, n, p := GoToPageUpdate(prev, pageNum, totalPages), NextPageUpdate(prev, totalPages), PreviousPageUpdate(prev);
      && 1 <= g <= Max(1, totalPages) && ClampPage(g, totalPages) == g
      && 1 <= n <= Max(1, totalPages) && ClampPage(n, totalPages) == n
      && 1 <= p <= Max(1, totalPages) && ClampPage(p, totalPages) == p
  {
  }

  /**
   * The navigation callbacks read the raw page, the screen shows the clamped
   * one. Once the list has shrunk so that the raw page lies two or more beyond
   * the last page, "previous" changes the raw page but not the page shown,
   * and "next" changes nothing.
   */
  lemma StaleRawPage(prev: int, totalPages: nat)
    requires prev > Max(1, totalPages) + 1
    ensures PreviousPageUpdate(prev) != prev
    ensures ClampPage(PreviousPageUpdate(prev), totalPages) == ClampPage(prev, totalPages)
    ensures NextPageUpdate(prev, totalPages) == prev
  {
  }

  // ---------------------------------------------------------------------
  // The hook's state
  // ---------------------------------------------------------------------

  /**
   * The state the hook keeps between renders: the fetched users, the search
   * query it was last rendered with, the page size and the raw `currentPage`.
   */
  class UsersPager {
    var allUsers: seq<User>
    var searchQuery: string
    var currentPage: int
    const pageSize: nat

    ghost predicate Valid()
      reads this
    {
      pageSize > 0 && currentPage >= 1
    }

    /** First render: page 1 over the initial users. */
    constructor (searchQuery: string, pageSize: nat, initialUsers: seq<User>)
      requires pageSize > 0
      ensures Valid()
      ensures this.allUsers == initialUsers && this.searchQuery == searchQuery
      ensures this.pageSize == pageSize && currentPage == 1
    {
      this.allUsers := initialUsers;
      this.searchQuery := searchQuery;
      this.pageSize := pageSize;
      this.currentPage := 1;
    }

    /**
     * What the hook returns on the current render: the count and page count
     * of the filtered list, and the raw page clamped into range, which is the
     * raw page itself whenever that is in range.
     */
    function Result(): (r: PageView)
      reads this
      requires Valid()
      ensures r.totalCount == |FilterUsers(allUsers, searchQuery)|
      ensures r.totalPages == TotalPages(r.totalCount, pageSize)
      ensures r.currentPage == ClampPage(currentPage, r.totalPages)
      ensures currentPage <= Max(1, r.totalPages) ==> r.currentPage == currentPage
      ensures r.users == PageSlice(FilterUsers(allUsers, searchQuery), r.currentPage, pageSize)
    {
      View(allUsers, searchQuery, currentPage, pageSize)
    }

    method GoToPage(pageNum: int)
      requires Valid()
      modifies this`currentPage
      ensures Valid()
      ensures currentPage == GoToPageUpdate(old(currentPage), pageNum, Result().totalPages)
    {
      currentPage := GoToPageUpdate(currentPage, pageNum, Result().totalPages);
    }

    method NextPage()
      requires Valid()
      modifies this`currentPage
      ensures Valid()
      ensures currentPage == NextPageUpdate(old(currentPage), Result().totalPages)
    {
      currentPage := NextPageUpdate(currentPage, Result().totalPages);
    }

    method PreviousPage()
      requires Valid()
      modifies this`currentPage
      ensures Valid()
      ensures currentPage == PreviousPageUpdate(old(currentPage))
    {
      currentPage := PreviousPageUpdate(currentPage);
    }

    /** A render with a new search query; the effect keyed on the query resets the page to 1. */
    method SetSearchQuery(query: string)
      requires Valid()
      modifies this`searchQuery, this`currentPage
      ensures Valid()
      ensures searchQuery == query
      ensures currentPage == if query != old(searchQuery) then 1 else old(currentPage)
    {
      if query != searchQuery {
        currentPage := 1;
      }
      searchQuery := query;
    }

    /** The state update of a successful fetch: the users are replaced, the page is left alone. */
    method ReceiveUsers(data: seq<User>)
      requires Valid()
      modifies this`allUsers
      ensures Valid()
      ensures allUsers == data
    {
      allUsers := data;
    }
  }

  /** After the query changes, the first page of the new results is shown. */
  lemma QueryChangeShowsFirstPage(allUsers: seq<User>, searchQuery: string, pageSize: nat)
    requires pageSize > 0
    ensures var v, f := View(allUsers, searchQuery, 1, pageSize), FilterUsers(allUsers, searchQuery);
      v.currentPage == 1 && v.users == f[..Min(pageSize, |f|)]
  {
  }
}
