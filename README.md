# Blog listing page: verified model

This project models the logic of the `BlogList` page component of a
freelance-collaboration front end. The page fetches every blog post from the
backend and keeps them in component state. It derives the list it shows on
every render: a case-insensitive search over title and content, an exact
category filter, then a window of three posts for the current page. The page
also has a sort-direction button, an in-place date sort, a table of author
profiles built from one lookup per post, and a creation dialog. The dialog can
only be opened by a signed-in user, and it resets its draft when it opens.

Modules, one per concern:

- `Posts`: the post record (integer `date`, optional `category`), the author profile, and `Option`.
- `Text`: `toLowerCase` (ASCII letters) and `includes`.
- `Sequences`: order-preserving `filter` and the subsequence relation.
- `Paging`: JavaScript `slice` with its negative-index rules, the three-post window, `Math.ceil(n / 3)` page buttons, and the Previous/Next disabled conditions.
- `DateSort`: the comparator of `sortBlogsByDate` and the stable sort it produces.
- `Listing`: the search and category filters, the rendered list `currentPosts`, and the `userDataMap` fold.
- `BlogListComponent`: class `BlogList`. Each React state variable is a field, and each handler is a method. `blogs` is an `array<Post>`: a successful fetch installs a fresh array, and `sortBlogsByDate` sorts that array in place.

The rendered list is `BlogList.Rendered()`, which is `Listing.VisiblePosts(blogs[..], searchTerm, selectedCategory, currentPage)`.
No sort takes part in it: `sortBlogsByDate` has no caller, so posts are shown in fetch order.

The model follows the code wherever the page's intended design says otherwise:

- Author lookups are not deduplicated. There is one lookup per post, and a later post's result overwrites an earlier one for the same author.
- The page number is never clamped when the filters shrink the list.
- A failed submission still toggles the dialog, so an open dialog closes.
- No sort is applied before paging.
- Responses carry no generation check: the last response to arrive wins.

## Model

| member | source | states |
|---|---|---|
| `Text.ToLower` | src/Components/Blog/BlogList.jsx:108-109 | lower-casing keeps the length, maps each character on its own, and leaves no upper-case letter |
| `Text.ToLowerIdempotent` | src/Components/Blog/BlogList.jsx:108-109 | lower-casing an already lower-cased string changes nothing |
| `Text.Includes` | src/Components/Blog/BlogList.jsx:108-109 | definition of `includes`; its meaning is stated by `Text.IncludesIffOccurs` |
| `Text.IncludesIffOccurs` | src/Components/Blog/BlogList.jsx:108-109 | `includes` is true exactly when the needle occurs at some index; both directions are proved |
| `Text.IncludesEmpty` | src/Components/Blog/BlogList.jsx:108-109 | the empty search string is contained in every string |
| `Sequences.Filter` | src/Components/Blog/BlogList.jsx:107-114 | the result is no longer than the input, and every kept element is from the input and passes the test |
| `Listing.SearchFilter` | src/Components/Blog/BlogList.jsx:107-110 | `filteredBlogs` is no longer than `blogs`, and each post it keeps is from `blogs` and matches the term case-insensitively in its title or content |
| `Listing.SearchFilterExact` | src/Components/Blog/BlogList.jsx:107-110 | `filteredBlogs` is a subsequence of `blogs` in their order; each post occurs as often as in `blogs` if its lower-cased title or content contains the lower-cased term, otherwise not at all |
| `Listing.SearchEmptyKeepsAll` | src/Components/Blog/BlogList.jsx:107-110 | an empty search term keeps every post, in order |
| `Listing.SearchIgnoresTermCase` | src/Components/Blog/BlogList.jsx:107-110 | lower-casing the term first gives the same list, so the search ignores the term's case |
| `Listing.CategoryFilter` | src/Components/Blog/BlogList.jsx:112-114 | `filteredByCategory` is no longer than its input and keeps only posts of it; with a category selected, every kept post has exactly that category |
| `Listing.CategoryFilterExact` | src/Components/Blog/BlogList.jsx:112-114 | the empty selection returns the list unchanged; any other selection keeps, in order and with every occurrence, exactly the posts whose category equals it, and a post without a category never survives |
| `Listing.VisiblePosts` | src/Components/Blog/BlogList.jsx:107-118 | `currentPosts`: every rendered post is from `blogs` and matches the term, has the selected category when one is selected, and a page of number 1 or more holds at most 3 posts |
| `Listing.VisiblePostsSound` | src/Components/Blog/BlogList.jsx:107-118 | every shown post is a subsequence of `blogs` in fetch order (nothing sorts it), matches the term and the selected category, and a page of number 1 or more holds at most 3 posts |
| `Listing.StrandedPageRendersNothing` | src/Components/Blog/BlogList.jsx:116-118 | when the page number is past `Math.ceil(n/3)` for the filtered list, nothing is rendered, Next is still enabled (the empty page falls to the layout at lines 274 and 398-445, whose Next guard at line 433 is the same as line 338), and the next page is empty too |
| `Listing.NarrowedSearchStrandsPage` | src/Components/Blog/BlogList.jsx:207 | with four posts and no filter, page 2 shows the fourth post and has Next disabled; after a term that no post matches, page 2 shows nothing with Next enabled |
| `Listing.UserDataMap` | src/Components/Blog/BlogList.jsx:88-91 | the keys of `userDataMap` are exactly the `userId`s of the posts |
| `Listing.UserDataMapLastWins` | src/Components/Blog/BlogList.jsx:88-91 | each author maps to the lookup result at the last index carrying that author |
| `Paging.RelativeIndex` | src/Components/Blog/BlogList.jsx:118 | definition of how `Array.prototype.slice` resolves a bound; it always lands in [0, length], and its consequences are `Paging.SliceFromEnd`, `Paging.SliceIsSubsequence` and `Paging.CurrentPostsWindow` |
| `Paging.SliceFromEnd` | src/Components/Blog/BlogList.jsx:118 | a negative start -k takes the last k elements (the whole list when k exceeds the length), and a start at or past the end takes nothing |
| `Paging.Slice` | src/Components/Blog/BlogList.jsx:118 | `slice` returns at most the list's length, and only elements of the list |
| `Paging.SliceIsSubsequence` | src/Components/Blog/BlogList.jsx:118 | for any bounds, even negative ones, a slice keeps the order of the list |
| `Paging.CurrentPosts` | src/Components/Blog/BlogList.jsx:116-118 | the page holds only posts of the filtered list, and at most 3 for a page number of 1 or more |
| `Paging.CurrentPostsWindow` | src/Components/Blog/BlogList.jsx:116-118 | for page p ≥ 1, `currentPosts` is exactly `filtered[(p-1)*3 .. min(3p, n)]`; it is empty once (p-1)*3 ≥ n and never holds more than 3 posts |
| `Paging.PageCount` | src/Components/Blog/BlogList.jsx:319 | `Math.ceil(n/3)` is the fewest pages that hold n posts: count·3 ≥ n, and (count-1)·3 < n when count > 0 |
| `Paging.AllPagesArePrefix` | src/Components/Blog/BlogList.jsx:116-118 | pages 1..k concatenated are the first min(3k, n) posts |
| `Paging.PagesPartitionList` | src/Components/Blog/BlogList.jsx:319 | pages 1..ceil(n/3) concatenated reproduce the filtered list exactly |
| `Paging.LastPageSize` | src/Components/Blog/BlogList.jsx:319 | for a non-empty list the last numbered page holds n - (count-1)·3 posts, between 1 and 3 |
| `Paging.PagesPastEndAreEmpty` | src/Components/Blog/BlogList.jsx:116-118 | any page after the last numbered one shows nothing |
| `Paging.PrevDisabled` | src/Components/Blog/BlogList.jsx:309 | definition of the Previous button's disabled condition (page 1 only); its property is `Paging.PrevLeadsToFullPage` |
| `Paging.PrevLeadsToFullPage` | src/Components/Blog/BlogList.jsx:309 | from a numbered page other than 1, Previous is enabled and leads to page p-1, which is still 1 or more and full (3 posts) |
| `Paging.NextDisabled` | src/Components/Blog/BlogList.jsx:338 | definition of the Next button's disabled condition as written (`currentPage === Math.ceil(n/3)`); its consequences are `Paging.NextEnabledPastLastPage` and `Listing.StrandedPageRendersNothing` |
| `Paging.NextEnabledPastLastPage` | src/Components/Blog/BlogList.jsx:336-338 | as written, past the last page the Next button stays enabled and leads to another empty page |
| `Paging.NextAtEndLeadsToNonEmptyPage` | src/Components/Blog/BlogList.jsx:336-338 | with the guard disabled "at or past the last page", an enabled Next always leads to a non-empty page of at most 3 posts |
| `DateSort.Compare` | src/Components/Blog/BlogList.jsx:103 | definition of the comparator; what it orders is stated by `DateSort.SortedByMeansDateOrder` |
| `DateSort.SortedByMeansDateOrder` | src/Components/Blog/BlogList.jsx:103 | order under the comparator means non-decreasing dates for "asc" and non-increasing dates for any other direction |
| `DateSort.SortByDate` | src/Components/Blog/BlogList.jsx:98-105 | definition of the stable sort under the comparator; its properties are `DateSort.SortByDateSorted`, `DateSort.SortByDatePermutes` and `DateSort.SortByDateStable` |
| `DateSort.InsertLandsAt` | src/Components/Blog/BlogList.jsx:98-105 | one insertion puts the post right after the last earlier post that does not compare greater than it, when every later post does |
| `DateSort.SortByDateSorted` | src/Components/Blog/BlogList.jsx:98-105 | the sorted posts are ordered by the comparator |
| `DateSort.SortByDatePermutes` | src/Components/Blog/BlogList.jsx:98-105 | the sorted posts are a permutation of the input |
| `DateSort.SortByDateStable` | src/Components/Blog/BlogList.jsx:98-105 | the sort is stable: posts of equal date keep their input order |
| `BlogListComponent.ShiftInto` | src/Components/Blog/BlogList.jsx:98-105 | the in-place shifting loop: the posts from the returned index j to i-1 compared greater than `a[i]` and moved one place right, the post before j did not, `a[i]` lands at j, and the rest of the array is unchanged |
| `BlogListComponent.InsertIntoSortedPrefix` | src/Components/Blog/BlogList.jsx:98-105 | one in-place insertion step: the first i+1 array cells become the first i with the i-th post inserted, and the rest is untouched |
| `BlogListComponent.BlogList.SortBlogsByDate` | src/Components/Blog/BlogList.jsx:98-105 | sorts the `blogs` array in place into the stable date sort of its old contents, for the current direction |
| `BlogListComponent.NextSortOrder` | src/Components/Blog/BlogList.jsx:77-79 | the toggle always yields "asc" or "desc", and it changes either of those two values |
| `BlogListComponent.NextSortOrderTwice` | src/Components/Blog/BlogList.jsx:77-79 | toggling twice restores "asc" or "desc"; any other value ends as "desc" |
| `BlogListComponent.BlogList.constructor` | src/Components/Blog/BlogList.jsx:17-30 | the initial state: no posts, "asc", page 1, empty search and category, dialog closed with an empty draft, empty author table |
| `BlogListComponent.BlogList.FetchBlogsCompleted` | src/Components/Blog/BlogList.jsx:64-71 | a successful fetch replaces the whole list with a fresh array of the response; a failed one changes nothing; the page is not reset |
| `BlogListComponent.BlogList.ApplyUserData` | src/Components/Blog/BlogList.jsx:88-92 | `userDataMap` becomes the fold of the lookup results over the current posts; nothing else changes |
| `BlogListComponent.BlogList.ToggleSortOrder` | src/Components/Blog/BlogList.jsx:77-79 | only the sort direction changes, to the toggled value, and the direction stays "asc" or "desc" |
| `BlogListComponent.BlogList.Paginate` | src/Components/Blog/BlogList.jsx:120 | the page becomes k with no bounds check; nothing else changes |
| `BlogListComponent.BlogList.NextPage` | src/Components/Blog/BlogList.jsx:122 | the page goes up by exactly 1, unclamped; nothing else changes |
| `BlogListComponent.BlogList.PrevPage` | src/Components/Blog/BlogList.jsx:124 | the page goes down by exactly 1, unclamped; nothing else changes |
| `BlogListComponent.BlogList.SetSearchTerm` | src/Components/Blog/BlogList.jsx:207 | only the search term changes and the page number is kept; if the page is then past the last page, `Rendered()` is empty while Next stays enabled |
| `BlogListComponent.BlogList.HandleCategoryChange` | src/Components/Blog/BlogList.jsx:216-266 | a category button (`setSelectedCategory` directly; `handleCategoryChange` at lines 170-172 does the same but has no caller): only the selected category changes and the page number is kept; if the page is then past the last page, `Rendered()` is empty while Next stays enabled |
| `BlogListComponent.BlogList.HandleToggleModal` | src/Components/Blog/BlogList.jsx:129-142 | with a user, the dialog flips, and the draft is reset to three empty fields only when the dialog was closed; without a user, nothing changes |
| `BlogListComponent.BlogList.HandleFormChange` | src/Components/Blog/BlogList.jsx:144-150 | only the named draft field takes the new value; every other field and all other state are unchanged |
| `BlogListComponent.BlogList.HandleFormSubmit` | src/Components/Blog/BlogList.jsx:152-168 | with a user, sends the draft plus `userId` and asks for a refetch only on success; without a user, sends nothing; in every case it toggles the dialog once, so an open dialog closes with its draft kept |

## Left out

- Network I/O is not modelled. This covers the `axios.get` of the post list, `handleScrape`, the `axios.post` of a new post and `getUserById`. Their outcomes are inputs instead: the fetched sequence or a failure (`FetchBlogsCompleted`), the lookup results (`ApplyUserData`), and the success flag of the submission (`HandleFormSubmit`). The request body and the refetch request are returned as values.
- The `useEffect` scheduling and the `Promise.all` fan-out are not modelled, because they are async orchestration. If any lookup fails, the source never sets `userDataMap`; the model covers only the case where every lookup returns.
- Each handler is modelled as one atomic update of the current state. React's batched, closure-captured updates and interleaved async completions are not modelled.
- Rendering is not modelled: JSX, styling, the two layouts (the page-1 layout with the video), the fallback avatar and name, links, the footer, the title, the chat widget and the unused `Fuse` import.
- Dates are integer timestamps. `new Date(...)` parsing, NaN comparisons for invalid dates and `date-fns` `format` are not modelled.
- Text.ToLower: lower-cases ASCII letters only, not full Unicode case mapping. `includes` compares characters exactly.
- Every post is assumed to have a string `title` and `content`. In the source a missing one makes the filter throw; the model does not cover that.
- SortBlogsByDate: the return value of `sortBlogsByDate` (the same array) is not modelled. The model sorts by insertion; a stable sort under a consistent comparator has a single possible result, so this matches the engine's sort.
- ApplyUserData: requires one lookup result per post, which `Promise.all` over `blogs.map` guarantees in the source.
- src/routes.jsx is not part of this model: it is a static table of paths and page components, with no logic.

## Findings

| source | as written | input that shows it | evidently intended | confidence | as-written member | corrected member |
|---|---|---|---|---|---|---|
| src/Components/Blog/BlogList.jsx:338 | Next is disabled only when `currentPage === Math.ceil(n / 3)`; the layout rendered when the page is empty (line 274 falls through to lines 398-445) repeats this guard at line 433 | no post matches the filters (n = 0) and the page is 1: the page count is 0, so Next is enabled and moves to page 2, 3, … Each of those pages is empty. The same happens whenever a filter change leaves the page past the last page. | Next disabled when the page is at or past the last page (`currentPage >= Math.ceil(n / 3)`) | medium; not executed | `Paging.NextEnabledPastLastPage` | `Paging.NextAtEndLeadsToNonEmptyPage` |

The second case is proved on the state transitions: `BlogList.SetSearchTerm` and `BlogList.HandleCategoryChange` keep the page number, and when it ends up past the last page their contracts say that nothing is rendered while Next stays enabled. `Listing.NarrowedSearchStrandsPage` shows that a search can reach that state from page 2.

The disabled state is presentation only: the `nextPage` handler itself does no clamping. `BlogList.NextPage` therefore models the handler as written, and the guard appears only in the two `Paging` members above.
