# User directory: filter, pages, page buttons and highlighting

A Dafny model of the logic behind the user directory screen. The screen
lists users fetched from a directory endpoint. A search box filters them by
name or e-mail, the list is shown five users to a page with numbered page
buttons, and every occurrence of the query in a name or e-mail is
highlighted.

The model has five modules:

- `Text` (`Text.dfy`) covers the JavaScript string operations the screen
  relies on, on strings of Unicode characters (`seq<char>`):
  - per-character lower-casing `Lower`;
  - `trim`, over the ECMAScript WhiteSpace and LineTerminator characters;
  - the blank-query test `!query.trim()`;
  - `includes`, with a proof that it holds exactly when there is a
    position where the needle occurs.
- `PaginatedUsers` (`PaginatedUsers.dfy`) models the `usePaginatedUsers`
  hook:
  - the derived values are pure functions: the filter, `totalPages`
    (`Math.ceil`), the clamped `safeCurrentPage` and the page slice;
  - the three updater functions passed to `setCurrentPage`;
  - the class `UsersPager`, which holds the hook's state: the users, the
    query it last saw and the raw `currentPage`;
  - its methods are the navigation callbacks, the reset to page 1 when the
    query changes, and the arrival of fetched users.
- `Pagination` (`Pagination.dfy`) models the page controls:
  - `PageNumbers` builds the button list with loops that push entries, as
    the component does, and is proved equal to the closed formula
    `Buttons`;
  - lemmas give the structure of the list;
  - `Render` gives the rule that hides the controls and the conditions
    that disable "previous" and "next".
- `HighlightText` (`HighlightText.dfy`) models how the highlighting
  component computes its parts:
  - the escape of regular-expression meta characters, with a reader for the
    escaped pattern proving that every character is then matched literally;
  - `split` on the capturing group, as a left-to-right scan, including the
    special case `split` makes for an empty string;
  - labelling by index parity and dropping empty parts.
- `Directory` (`Directory.dfy`) holds lemmas about how the screen wires
  these together:
  - the disabled buttons are exactly the no-op callbacks;
  - the page shown always has its button;
  - the filter trims the query but the highlighting does not;
  - two concrete walks through twelve users.

Two behaviours of the code are worth knowing:

- The filter looks for the lower-cased, trimmed query (`Needle`), but the
  highlighting splits on the query as typed
  (`TrimmedFilterUntrimmedHighlight`, `HighlightedLength`).
- Back-to-back occurrences give adjacent highlighted parts
  (`AdjacentHighlights`), because the empty piece between them is dropped.

## Model

| member | source | states |
|---|---|---|
| Text.TrimStart | src/hooks/usePaginatedUsers.ts:64 | the start-trimmed string is a suffix of the input that is empty or starts with a non-space, and every removed character is white space |
| Text.TrimEnd | src/hooks/usePaginatedUsers.ts:64 | the end-trimmed string is a prefix of the input that is empty or ends with a non-space, and every removed character is white space |
| Text.Lower | src/hooks/usePaginatedUsers.ts:66 | an ASCII upper-case letter becomes its lower-case letter, every other character is unchanged, and no result is an upper-case ASCII letter |
| Text.LowerStr | src/hooks/usePaginatedUsers.ts:66 | `toLowerCase` keeps the length and lower-cases each character in place |
| Text.Trim | src/hooks/usePaginatedUsers.ts:64 | `trim` never lengthens the string, leaves no white space at either end, and is empty only when every character is white space |
| Text.IsBlank | src/hooks/usePaginatedUsers.ts:64 | a query is blank (empty after `trim`) exactly when every character of it is white space |
| Text.TrimIsSlice | src/hooks/usePaginatedUsers.ts:66 | the trimmed query is a contiguous slice of the query, with nothing inside changed |
| Text.TrimLowerCommute | src/hooks/usePaginatedUsers.ts:66 | lower-casing then trimming, as the filter does, equals trimming then lower-casing |
| Text.Contains | src/hooks/usePaginatedUsers.ts:68-69 | `includes` finds the empty string in every string and never finds a string longer than the one searched |
| Text.ContainsIff | src/hooks/usePaginatedUsers.ts:68-69 | `includes` holds exactly when the needle occurs at some position |
| PaginatedUsers.NeedleIsTrimmedQuery | src/hooks/usePaginatedUsers.ts:66 | the needle, the query lower-cased then trimmed, is the trimmed query lower-cased, and it is empty exactly for a blank query |
| PaginatedUsers.MatchesIff | src/hooks/usePaginatedUsers.ts:68-69 | a user matches exactly when the needle occurs in its lower-cased name or in its lower-cased e-mail |
| PaginatedUsers.MatchingIndicesFromIncrease | src/hooks/usePaginatedUsers.ts:67-70 | the positions of the kept users lie inside the list and strictly increase |
| PaginatedUsers.MatchingIndicesFromExact | src/hooks/usePaginatedUsers.ts:67-70 | a position is among the kept positions exactly when the user there matches |
| PaginatedUsers.SelectFromAtIndices | src/hooks/usePaginatedUsers.ts:67-70 | the k-th kept user is the user at the k-th matching position, and there are as many of them as positions |
| PaginatedUsers.SelectionIsOrdered | src/hooks/usePaginatedUsers.ts:67-70 | `filter` keeps, in their original order, exactly the users that match the needle |
| PaginatedUsers.FilterUsers | src/hooks/usePaginatedUsers.ts:63-71 | a blank query returns the whole list unchanged, in the same order; the result is never longer than the list |
| PaginatedUsers.FilterIsOrderedSelection | src/hooks/usePaginatedUsers.ts:66-70 | for a query that is not blank, the result is an order-preserving subsequence holding exactly the users whose lower-cased name or e-mail includes the needle |
| PaginatedUsers.FilterMembership | src/hooks/usePaginatedUsers.ts:66-70 | a user is in the result exactly when it is in the list and its name or e-mail includes the needle |
| PaginatedUsers.TotalPages | src/hooks/usePaginatedUsers.ts:73-74 | the page count is the ceiling of count / pageSize: `totalPages * pageSize >= count > (totalPages - 1) * pageSize`, and it is 0 exactly when the count is 0 |
| PaginatedUsers.ClampPage | src/hooks/usePaginatedUsers.ts:77 | the safe page is at most `max(1, totalPages)`, at least 1 for a raw page of at least 1, equal to the raw page when that is in range and to `max(1, totalPages)` when it is beyond |
| PaginatedUsers.PageSlice | src/hooks/usePaginatedUsers.ts:79-82 | the page holds at most pageSize users; they are the contiguous run starting at `(page - 1) * pageSize`, cut at the end of the list |
| PaginatedUsers.PagesFromIsSuffix | src/hooks/usePaginatedUsers.ts:79-82 | the pages from `page` to the last one, put together, are the filtered list from the start of `page` on |
| PaginatedUsers.PagesReassemble | src/hooks/usePaginatedUsers.ts:79-82 | pages 1 to `totalPages` put together give the filtered list back |
| PaginatedUsers.PageInRangeNotEmpty | src/hooks/usePaginatedUsers.ts:79-82 | every page from 1 to `totalPages` holds at least one user |
| PaginatedUsers.ShownPageNotEmpty | src/hooks/usePaginatedUsers.ts:77-82 | the clamped page is empty exactly when the filtered list is empty |
| PaginatedUsers.View | src/hooks/usePaginatedUsers.ts:73-112 | the returned page lies in `[1, max(1, totalPages)]`; `totalPages` is 0 exactly when `totalCount` is 0, and so is an empty page; the page holds at most pageSize users; the count is at most the number of users |
| PaginatedUsers.GoToPageUpdate | src/hooks/usePaginatedUsers.ts:84-91 | the raw page becomes `pageNum` when that is between 1 and `totalPages`, and is otherwise unchanged |
| PaginatedUsers.NextPageUpdate | src/hooks/usePaginatedUsers.ts:93-95 | the raw page goes one on when it is below `totalPages`, and is otherwise unchanged |
| PaginatedUsers.PreviousPageUpdate | src/hooks/usePaginatedUsers.ts:97-99 | the raw page goes one back when it is above 1, and is otherwise unchanged |
| PaginatedUsers.UpdatesKeepPagePositive | src/hooks/usePaginatedUsers.ts:84-99 | none of the three updates takes a raw page of at least 1 below 1 |
| PaginatedUsers.UpdatesKeepPageInRange | src/hooks/usePaginatedUsers.ts:77-99 | from a raw page in range, every update stays in range, so the page shown is the raw page |
| PaginatedUsers.StaleRawPage | src/hooks/usePaginatedUsers.ts:77-99 | with the raw page two or more beyond the last page, "previous" changes the raw page but not the page shown, and "next" changes nothing |
| PaginatedUsers.UsersPager.constructor | src/hooks/usePaginatedUsers.ts:11-14 | the first render starts on raw page 1 with the initial users |
| PaginatedUsers.UsersPager.Result | src/hooks/usePaginatedUsers.ts:101-112 | the hook returns the filtered count, its page count, the raw page clamped into range (the raw page itself when in range) and that page's slice of the filtered list |
| PaginatedUsers.UsersPager.GoToPage | src/hooks/usePaginatedUsers.ts:84-91 | only the raw page changes, as `GoToPageUpdate` with this render's `totalPages` says |
| PaginatedUsers.UsersPager.NextPage | src/hooks/usePaginatedUsers.ts:93-95 | only the raw page changes, as `NextPageUpdate` with this render's `totalPages` says |
| PaginatedUsers.UsersPager.PreviousPage | src/hooks/usePaginatedUsers.ts:97-99 | only the raw page changes, as `PreviousPageUpdate` says |
| PaginatedUsers.UsersPager.SetSearchQuery | src/hooks/usePaginatedUsers.ts:59-61 | a different query resets the raw page to 1; the same query leaves it |
| PaginatedUsers.UsersPager.ReceiveUsers | src/hooks/usePaginatedUsers.ts:36-37 | fetched users replace the list and the raw page is left as it was |
| PaginatedUsers.QueryChangeShowsFirstPage | src/hooks/usePaginatedUsers.ts:59-82 | on raw page 1 the page shown is 1 and holds the first pageSize users of the filtered list |
| Pagination.Buttons | src/components/Pagination.tsx:19-52 | the list never has more than 7 entries and, for at least one page, runs from page 1 to the last page |
| Pagination.PageNumbers | src/components/Pagination.tsx:19-52 | the list the loops push is `Buttons(currentPage, totalPages)` |
| Pagination.ButtonsFull | src/components/Pagination.tsx:23-26 | up to 7 pages, the list is exactly 1 to `totalPages` with no marker |
| Pagination.ButtonsCompact | src/components/Pagination.tsx:27-48 | beyond 7 pages, the list has 6 or 7 entries, starts with 1, ends with `totalPages` and has a marker |
| Pagination.ButtonsWindows | src/components/Pagination.tsx:30-47 | the three windows, entry by entry |
| Pagination.ButtonsIncreasing | src/components/Pagination.tsx:28-48 | page numbers strictly increase along the list, so none appears twice |
| Pagination.ButtonsInRange | src/components/Pagination.tsx:23-48 | every listed number is between 1 and `totalPages` |
| Pagination.ButtonsShowCurrent | src/components/Pagination.tsx:30-47 | a current page between 1 and `totalPages` is always listed |
| Pagination.ButtonsEllipsisPlacement | src/components/Pagination.tsx:34-47 | a marker is never first or last, and two markers are never adjacent |
| Pagination.Render | src/components/Pagination.tsx:55-120 | nothing is shown exactly when `totalPages <= 1`; otherwise the buttons are `Buttons`, "previous" is disabled exactly on page 1 and "next" exactly on page `totalPages` |
| HighlightText.Escape | src/components/HighlightText.tsx:12 | escaping at most doubles the query's length and never shortens it |
| HighlightText.EscapeReadsLiterally | src/components/HighlightText.tsx:12-13 | the escaped query reads back as exactly the query, every character a literal |
| HighlightText.SplitFrom | src/components/HighlightText.tsx:13-14 | the scan from any position gives an odd number of pieces |
| HighlightText.Split | src/components/HighlightText.tsx:13-14 | `split` on the capturing group gives an odd number of pieces which put together give back the text; the pieces alternate, every even-indexed piece holding no occurrence of the literal and every odd-indexed piece equal to it, ignoring case |
| HighlightText.LabelFrom | src/components/HighlightText.tsx:16-20 | each segment becomes a part with the same text, highlighted exactly at odd indices |
| HighlightText.DropEmpty | src/components/HighlightText.tsx:21 | the kept parts come from the input and are non-empty, and the text they show is unchanged |
| HighlightText.DropEmptyAppend | src/components/HighlightText.tsx:21 | dropping empty parts distributes over putting lists together, so the kept parts keep their order |
| HighlightText.DropEmptyOne | src/components/HighlightText.tsx:21 | a single part is kept exactly when its text is not empty |
| HighlightText.NoMatchInside | src/components/HighlightText.tsx:13-14 | a stretch with no match at any of its positions contains no occurrence of the query, ignoring case |
| HighlightText.SplitFromConcat | src/components/HighlightText.tsx:14 | the split segments put together give back the text |
| HighlightText.SplitFromAlternates | src/components/HighlightText.tsx:13-14 | the pieces of the scan alternate: every even-indexed piece contains no occurrence of the literal and every odd-indexed piece equals it, ignoring case |
| HighlightText.SplitFromFollowsMatches | src/components/HighlightText.tsx:13-14 | laid out from where the scan starts, each matched piece starts at a match and no match starts inside a plain piece: the scan takes the leftmost matches |
| HighlightText.DropEmptyFollowsMatches | src/components/HighlightText.tsx:21 | dropping empty parts keeps the layout that follows the matches |
| HighlightText.LabelFromConcat | src/components/HighlightText.tsx:16-20 | labelling keeps the segments' texts in order |
| HighlightText.HighlightBlankQuery | src/components/HighlightText.tsx:10 | a whitespace-only query gives one plain part holding the whole text, even an empty one |
| HighlightText.Highlight | src/components/HighlightText.tsx:9-23 | the parts put together are the original text, casing included, for every query |
| HighlightText.HighlightParts | src/components/HighlightText.tsx:9-23 | for a query that is not blank: no part is empty, each highlighted part equals the query ignoring case, and no plain part contains it |
| HighlightText.HighlightFollowsMatches | src/components/HighlightText.tsx:13-21 | for a query that is not blank, each highlighted part starts at a match and no match starts inside a plain part, counted from the start of the text |
| HighlightText.HighlightPlainNotAdjacent | src/components/HighlightText.tsx:14-21 | for a query that is not blank, two plain parts are never next to each other: the filter removes only empty plain pieces, since matched pieces are never empty |
| HighlightText.HighlightedLength | src/components/HighlightText.tsx:12-20 | for a query that is not blank, every highlighted part is as long as the query as typed, trailing white space included |
| HighlightText.SplitBackToBack | src/components/HighlightText.tsx:14 | splitting "aa" on "a" gives "", "a", "", "a", "" |
| HighlightText.LabelBackToBack | src/components/HighlightText.tsx:16-21 | labelling and dropping the empties of that split leaves two highlighted "a" parts |
| HighlightText.DropBackToBack | src/components/HighlightText.tsx:21 | dropping the empty parts of the labelled split of "aa" leaves two adjacent highlighted parts |
| HighlightText.AdjacentHighlights | src/components/HighlightText.tsx:16-21 | highlighting "a" in "aa" gives two adjacent highlighted parts, so parts need not alternate |
| Directory.DisabledButtonsAreNoOps | src/app/HomeClient.tsx:81-87 | with the controls shown, "previous" is disabled exactly when `previousPage` is a no-op and "next" exactly when `nextPage` is |
| Directory.ShownPageHasButton | src/app/HomeClient.tsx:81-83 | the page the hook returns always has its own button when the controls are shown |
| Directory.ClickedButtonIsShown | src/app/HomeClient.tsx:84 | clicking a numbered button makes that page both the raw page and the page shown |
| Directory.TrimmedFilterUntrimmedHighlight | src/components/UserCard.tsx:15 | with the query "b ", the user "ab" is kept by the filter, yet nothing in the name is highlighted |
| Directory.TwelveUsersWalk | src/hooks/usePaginatedUsers.ts:73-95 | twelve users, five to a page, no query: pages of 5, 5 and 2 users, reached with "next", which then stops |
| Directory.QueryU1 | src/hooks/usePaginatedUsers.ts:63-74 | the query "U1" against U1 to U12 keeps U1, U10, U11 and U12, on one page |

## Left out

- Fetching the users is not modelled. This covers `fetchUsers` with its
  abort controller, the loading and error states, the mount effect and
  `retry`: they are asynchronous network I/O. A successful fetch appears
  only as `UsersPager.ReceiveUsers`.
- The server-side initial fetch in `src/app/page.tsx` is network I/O and is
  not part of this model.
- The deferred search value and the "searching" flag of `HomeClient` are
  not modelled: they depend on React's scheduler. The hook is modelled with
  the query it is given.
- Rendering is not modelled: markup, CSS classes, ARIA attributes and
  `toLocaleString` are presentation. `memo` and `useMemo` are caching and do
  not change results.
- React runs the query-reset effect after the render that saw the new query.
  That in-between render is not modelled: `SetSearchQuery` resets in the
  same step. The render in between shows a clamped page, as
  `View` states for any raw page.
- Lower: case folding covers the ASCII letters only. JavaScript's
  `toLowerCase` folds all of Unicode, and the regular-expression `i` flag
  compares by canonicalising to upper case. The two agree on ASCII, which is
  all this model claims.
- Split: the regular-expression engine is modelled only for the one pattern
  the component builds, a capturing group around a run of literal
  characters.
- Strings: the source works on UTF-16 code units, while the model's strings
  are sequences of Unicode scalar values. The two agree on well-formed text.
  A character outside the Basic Multilingual Plane is two code units in the
  source and one character here. Lone surrogates cannot be represented.
- TotalPages: requires a page size of at least 1. The screen always passes 5.
  A page size of 0 would make JavaScript compute `Infinity` or `NaN`, which
  the model does not represent.
- Integers are unbounded. JavaScript numbers are doubles, but page numbers
  and counts here stay far below 2^53, where doubles are exact.
- UsersPager.GoToPage and NextPage: these take `totalPages` from the current
  state. The source callbacks capture it when the render that created them
  ran. The two differ only when a callback from an older render is invoked.
  `PreviousPage` does not read `totalPages`, as in the source.
