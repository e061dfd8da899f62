/**
 * Client-side pagination of the filtered blog list: a window of three posts
 * taken with `Array.prototype.slice`, the number of page buttons, and the
 * conditions that disable the Previous and Next buttons.
 */
module Paging {
  import opened Sequences

  /** `postsPerPage` */
  const PostsPerPage: nat := 3

  function Min(a: int, b: int): int
  {
    if a <= b then a else b
  }

  /**
   * How `slice` resolves one of its bounds against the length: a negative
   * bound counts back from the end, and the result is clamped to [0, len].
   */
  function RelativeIndex(i: int, len: nat): (r: nat)
    ensures r <= len
  {
    if i < 0 then (if len + i < 0 then 0 else len + i)
    else if i < len then i
    else len
  }

  /** `s.slice(start, end)`: empty when the resolved end is not past the resolved start. */
  function Slice<T>(s: seq<T>, start: int, end: int): (r: seq<T>)
    ensures |r| <= |s|
    ensures forall x :: x in r ==> x in s
  {
    var from := RelativeIndex(start, |s|);
    var to := RelativeIndex(end, |s|);
    if from < to then s[from..to] else []
  }

  /**
   * Slicing from a negative start takes the last posts: from -k (0 < k <= |s|)
   * to the end it is the last k elements, and from a start before -|s| it is
   * the whole list; a start at or past the end gives nothing.
   */
  lemma SliceFromEnd<T>(s: seq<T>, k: nat)
    ensures 0 < k <= |s| ==> Slice(s, -(k as int), |s|) == s[|s| - k..]
    ensures k > |s| ==> Slice(s, -(k as int), |s|) == s
    ensures Slice(s, |s| + k, |s| + k + PostsPerPage) == []
  {
    assert s[0..|s|] == s;
  }

  /** Whatever its bounds, a slice is a contiguous run of `s`, so it keeps `s`'s order. */
  lemma SliceIsSubsequence<T>(s: seq<T>, start: int, end: int)
    ensures IsSubsequence(Slice(s, start, end), s)
  {
    var from := RelativeIndex(start, |s|);
    var to := RelativeIndex(end, |s|);
    if from < to {
      WindowIsSubsequence(s, from, to);
    }
  }

  /** `currentPosts`: the posts shown on page `currentPage` (1-based) of `filtered`. */
  function CurrentPosts<T>(filtered: seq<T>, currentPage: int): (r: seq<T>)
    ensures forall x :: x in r ==> x in filtered
    ensures currentPage >= 1 ==> |r| <= PostsPerPage
  {
    var indexOfLastPost := currentPage * PostsPerPage;
    var indexOfFirstPost := indexOfLastPost - PostsPerPage;
    Slice(filtered, indexOfFirstPost, indexOfLastPost)
  }

  /**
   * For a page number of at least 1 the shown posts are exactly the window
   * starting at (page - 1) * 3, cut at the end of the list: at most three
   * posts, none once the window starts past the end.
   */
  lemma CurrentPostsWindow<T>(filtered: seq<T>, currentPage: int)
    requires currentPage >= 1
    ensures var lo := (currentPage - 1) * PostsPerPage;
            CurrentPosts(filtered, currentPage)
            == if lo >= |filtered| then [] else filtered[lo..Min(currentPage * PostsPerPage, |filtered|)]
    ensures |CurrentPosts(filtered, currentPage)| <= PostsPerPage
  {
  }

  /** `Math.ceil(n / postsPerPage)`: the fewest pages that hold n posts. */
  function PageCount(n: nat): (count: nat)
    ensures count * PostsPerPage >= n
    ensures count > 0 ==> (count - 1) * PostsPerPage < n
  {
    (n + PostsPerPage - 1) / PostsPerPage
  }

  /** Pages 1..k of `filtered`, concatenated in order. */
  function AllPages<T>(filtered: seq<T>, k: nat): seq<T>
  {
    if k == 0 then [] else AllPages(filtered, k - 1) + CurrentPosts(filtered, k)
  }

  /** The first k pages together are the first 3k posts (or all of them). */
  lemma {:induction false} AllPagesArePrefix<T>(filtered: seq<T>, k: nat)
    ensures AllPages(filtered, k) == filtered[..Min(k * PostsPerPage, |filtered|)]
  {
    if k > 0 {
      AllPagesArePrefix(filtered, k - 1);
      CurrentPostsWindow(filtered, k);
      var lo := Min((k - 1) * PostsPerPage, |filtered|);
      var hi := Min(k * PostsPerPage, |filtered|);
      assert filtered[..hi] == filtered[..lo] + filtered[lo..hi];
    }
  }

  /**
   * The page buttons partition the list: pages 1..ceil(n/3) concatenated give
   * back the filtered list exactly, with nothing missing or repeated.
   */
  lemma PagesPartitionList<T>(filtered: seq<T>)
    ensures AllPages(filtered, PageCount(|filtered|)) == filtered
  {
    AllPagesArePrefix(filtered, PageCount(|filtered|));
    assert filtered[..|filtered|] == filtered;
  }

  /** The last page holds the remaining n - (count - 1) * 3 posts: between one and three. */
  lemma LastPageSize<T>(filtered: seq<T>)
    requires |filtered| > 0
    ensures var count := PageCount(|filtered|);
            count >= 1 &&
            |CurrentPosts(filtered, count)| == |filtered| - (count - 1) * PostsPerPage &&
            1 <= |CurrentPosts(filtered, count)| <= PostsPerPage
  {
    CurrentPostsWindow(filtered, PageCount(|filtered|));
  }

  /** Every page after the last numbered one is empty. */
  lemma PagesPastEndAreEmpty<T>(filtered: seq<T>, currentPage: int)
    requires currentPage > PageCount(|filtered|)
    ensures CurrentPosts(filtered, currentPage) == []
  {
    CurrentPostsWindow(filtered, currentPage);
  }

  /** The Previous button is disabled on page 1 only. */
  predicate PrevDisabled(currentPage: int)
  {
    currentPage == 1
  }

  /**
   * From a numbered page other than page 1, Previous is enabled and leads to a
   * page that is still numbered and full: three posts.
   */
  lemma PrevLeadsToFullPage<T>(filtered: seq<T>, currentPage: int)
    requires 1 <= currentPage <= PageCount(|filtered|) && !PrevDisabled(currentPage)
    ensures currentPage - 1 >= 1
    ensures |CurrentPosts(filtered, currentPage - 1)| == PostsPerPage
  {
    CurrentPostsWindow(filtered, currentPage - 1);
  }

  /** The Next button as written: disabled only when the page equals the page count. */
  predicate NextDisabled(currentPage: int, filteredCount: nat)
  {
    currentPage == PageCount(filteredCount)
  }

  /**
   * As written, once the page is past the last page (always the case on page 1
   * when nothing matches, since the page count is then 0) Next stays enabled
   * and leads to yet another empty page.
   */
  lemma NextEnabledPastLastPage<T>(filtered: seq<T>, currentPage: int)
    requires currentPage > PageCount(|filtered|)
    ensures !NextDisabled(currentPage, |filtered|)
    ensures CurrentPosts(filtered, currentPage + 1) == []
  {
    PagesPastEndAreEmpty(filtered, currentPage + 1);
  }

  /** The guard evidently intended: Next is disabled on the last page and beyond. */
  predicate NextDisabledAtEnd(currentPage: int, filteredCount: nat)
  {
    currentPage >= PageCount(filteredCount)
  }

  /** With the intended guard, an enabled Next button always leads to a non-empty page. */
  lemma NextAtEndLeadsToNonEmptyPage<T>(filtered: seq<T>, currentPage: int)
    requires currentPage >= 1 && !NextDisabledAtEnd(currentPage, |filtered|)
    ensures CurrentPosts(filtered, currentPage + 1) != []
    ensures |CurrentPosts(filtered, currentPage + 1)| <= PostsPerPage
  {
    CurrentPostsWindow(filtered, currentPage + 1);
  }
}
