/**
 * The list the blog page renders, derived from the fetched posts on every
 * render: search filter, then category filter, then the page window. No sort
 * takes part, so the posts stay in the order the backend returned them.
 * Also the table of author profiles built from the per-post user lookups.
 */
module Listing {
  import opened Posts
  import opened Text
  import opened Sequences
  import opened Paging

  /** The search test: the lower-cased term occurs in the lower-cased title or content. */
  predicate MatchesSearch(p: Post, searchTerm: string)
  {
    Includes(ToLower(p.title), ToLower(searchTerm)) || Includes(ToLower(p.content), ToLower(searchTerm))
  }

  function SearchKeep(searchTerm: string): Post -> bool
  {
    (p: Post) => MatchesSearch(p, searchTerm)
  }

  /** `filteredBlogs` */
  function SearchFilter(blogs: seq<Post>, searchTerm: string): (r: seq<Post>)
    ensures |r| <= |blogs|
    ensures forall p :: p in r ==> p in blogs && MatchesSearch(p, searchTerm)
  {
    Filter(blogs, SearchKeep(searchTerm))
  }

  /**
   * The search filter keeps, in order, every post (every occurrence of it) whose
   * title or content contains the term case-insensitively, and nothing else.
   */
  lemma SearchFilterExact(blogs: seq<Post>, searchTerm: string)
    ensures IsSubsequence(SearchFilter(blogs, searchTerm), blogs)
    ensures forall p :: multiset(SearchFilter(blogs, searchTerm))[p]
                        == if MatchesSearch(p, searchTerm) then multiset(blogs)[p] else 0
  {
    FilterIsSubsequence(blogs, SearchKeep(searchTerm));
    forall p ensures multiset(SearchFilter(blogs, searchTerm))[p]
                     == if MatchesSearch(p, searchTerm) then multiset(blogs)[p] else 0 {
      FilterCount(blogs, SearchKeep(searchTerm), p);
    }
  }

  /** An empty search box keeps every post. */
  lemma SearchEmptyKeepsAll(blogs: seq<Post>)
    ensures SearchFilter(blogs, "") == blogs
  {
    forall p | p in blogs ensures SearchKeep("")(p) {
      assert ToLower("") == "";
      IncludesEmpty(ToLower(p.title));
    }
    FilterKeepsAll(blogs, SearchKeep(""));
  }

  /** Searching is case-insensitive: lower-casing the term first changes nothing. */
  lemma SearchIgnoresTermCase(blogs: seq<Post>, searchTerm: string)
    ensures SearchFilter(blogs, ToLower(searchTerm)) == SearchFilter(blogs, searchTerm)
  {
    ToLowerIdempotent(searchTerm);
    FilterAgreeing(blogs, SearchKeep(ToLower(searchTerm)), SearchKeep(searchTerm));
  }

  function CategoryKeep(selectedCategory: string): Post -> bool
  {
    (p: Post) => p.category == Some(selectedCategory)
  }

  /** `filteredByCategory`: the empty selection is "All" and filters nothing. */
  function CategoryFilter(filtered: seq<Post>, selectedCategory: string): (r: seq<Post>)
    ensures |r| <= |filtered|
    ensures forall p :: p in r ==> p in filtered
    ensures selectedCategory != "" ==> forall p :: p in r ==> p.category == Some(selectedCategory)
  {
    if selectedCategory == "" then filtered else Filter(filtered, CategoryKeep(selectedCategory))
  }

  /**
   * With a category selected, exactly the posts of that category survive, in
   * order; a post without a category never does. With none selected the list
   * passes through unchanged.
   */
  lemma CategoryFilterExact(filtered: seq<Post>, selectedCategory: string)
    ensures selectedCategory == "" ==> CategoryFilter(filtered, selectedCategory) == filtered
    ensures IsSubsequence(CategoryFilter(filtered, selectedCategory), filtered)
    ensures selectedCategory != "" ==>
              forall p :: multiset(CategoryFilter(filtered, selectedCategory))[p]
                          == if p.category == Some(selectedCategory) then multiset(filtered)[p] else 0
    ensures selectedCategory != "" ==>
              forall p :: p in CategoryFilter(filtered, selectedCategory) ==> p.category.Some?
  {
    if selectedCategory == "" {
      WindowIsSubsequence(filtered, 0, |filtered|);
      assert filtered[0..|filtered|] == filtered;
    } else {
      FilterIsSubsequence(filtered, CategoryKeep(selectedCategory));
      forall p ensures multiset(CategoryFilter(filtered, selectedCategory))[p]
                       == if p.category == Some(selectedCategory) then multiset(filtered)[p] else 0 {
        FilterCount(filtered, CategoryKeep(selectedCategory), p);
      }
    }
  }

  /** Both filters, in the order the page applies them. */
  function FilteredByCategory(blogs: seq<Post>, searchTerm: string, selectedCategory: string): seq<Post>
  {
    CategoryFilter(SearchFilter(blogs, searchTerm), selectedCategory)
  }

  /** `currentPosts`: the posts rendered for the current query state. */
  function VisiblePosts(blogs: seq<Post>, searchTerm: string, selectedCategory: string, currentPage: int): (r: seq<Post>)
    ensures forall p :: p in r ==> p in blogs && MatchesSearch(p, searchTerm)
    ensures selectedCategory != "" ==> forall p :: p in r ==> p.category == Some(selectedCategory)
    ensures currentPage >= 1 ==> |r| <= PostsPerPage
  {
    CurrentPosts(FilteredByCategory(blogs, searchTerm, selectedCategory), currentPage)
  }

  /**
   * Every rendered post comes from the fetched list, in the fetched order (no
   * sort is applied), matches the search term and the selected category, and
   * a page holds at most three posts.
   */
  lemma VisiblePostsSound(blogs: seq<Post>, searchTerm: string, selectedCategory: string, currentPage: int)
    ensures var r := VisiblePosts(blogs, searchTerm, selectedCategory, currentPage);
            IsSubsequence(r, blogs) &&
            (forall p :: p in r ==> p in blogs && MatchesSearch(p, searchTerm)) &&
            (selectedCategory != "" ==> forall p :: p in r ==> p.category == Some(selectedCategory)) &&
            (currentPage >= 1 ==> |r| <= PostsPerPage)
  {
    var searched := SearchFilter(blogs, searchTerm);
    var filtered := CategoryFilter(searched, selectedCategory);
    SearchFilterExact(blogs, searchTerm);
    CategoryFilterExact(searched, selectedCategory);
    SubsequenceTransitive(filtered, searched, blogs);
    SliceIsSubsequence(filtered, (currentPage - 1) * PostsPerPage, currentPage * PostsPerPage);
    SubsequenceTransitive(CurrentPosts(filtered, currentPage), filtered, blogs);
  }

  /**
   * When the page number is past the last page of the filtered list (as a
   * narrower search or category can leave it, since neither resets the page),
   * nothing is rendered, the Next button is still enabled, and it leads to
   * another empty page.
   */
  lemma StrandedPageRendersNothing(blogs: seq<Post>, searchTerm: string, selectedCategory: string, currentPage: int)
    requires currentPage > PageCount(|FilteredByCategory(blogs, searchTerm, selectedCategory)|)
    ensures VisiblePosts(blogs, searchTerm, selectedCategory, currentPage) == []
    ensures !NextDisabled(currentPage, |FilteredByCategory(blogs, searchTerm, selectedCategory)|)
    ensures VisiblePosts(blogs, searchTerm, selectedCategory, currentPage + 1) == []
  {
    NextEnabledPastLastPage(FilteredByCategory(blogs, searchTerm, selectedCategory), currentPage);
    PagesPastEndAreEmpty(FilteredByCategory(blogs, searchTerm, selectedCategory), currentPage);
  }

  /**
   * It does happen: with four posts, no search and no category, page 2 is the
   * last page, shows the fourth post and has Next disabled; after typing a term
   * that no post matches the page stays 2, shows nothing, and Next is enabled.
   */
  lemma NarrowedSearchStrandsPage(blogs: seq<Post>, term: string)
    requires |blogs| == 4
    requires forall p :: p in blogs ==> !MatchesSearch(p, term)
    ensures VisiblePosts(blogs, "", "", 2) == [blogs[3]]
    ensures NextDisabled(2, |FilteredByCategory(blogs, "", "")|)
    ensures VisiblePosts(blogs, term, "", 2) == []
    ensures !NextDisabled(2, |FilteredByCategory(blogs, term, "")|)
  {
    SearchEmptyKeepsAll(blogs);
    CurrentPostsWindow(blogs, 2);
    assert blogs[3..4] == [blogs[3]];
    FilterKeepsNone(blogs, SearchKeep(term));
    CurrentPostsWindow(SearchFilter(blogs, term), 2);
  }

  /**
   * `userDataMap`: the lookup results folded into a table keyed by each post's
   * author, a later post overwriting an earlier one with the same author.
   * `users[i]` is the lookup result for `blogs[i]`.
   */
  function UserDataMap(blogs: seq<Post>, users: seq<UserProfile>): (m: map<string, UserProfile>)
    requires |users| == |blogs|
    ensures m.Keys == set i | 0 <= i < |blogs| :: blogs[i].userId
  {
    if blogs == [] then map[]
    else
      var n := |blogs| - 1;
      var m := UserDataMap(blogs[..n], users[..n]);
      assert (set i | 0 <= i < |blogs| :: blogs[i].userId) == m.Keys + {blogs[n].userId} by {
        assert forall i | 0 <= i < n :: blogs[..n][i] == blogs[i];
      }
      m[blogs[n].userId := users[n]]
  }

  /** Each author maps to the lookup result of the last post carrying that author. */
  lemma {:induction false} UserDataMapLastWins(blogs: seq<Post>, users: seq<UserProfile>, i: nat)
    requires |users| == |blogs| && i < |blogs|
    requires forall j :: i < j < |blogs| ==> blogs[j].userId != blogs[i].userId
    ensures UserDataMap(blogs, users)[blogs[i].userId] == users[i]
  {
    var n := |blogs| - 1;
    var earlier := UserDataMap(blogs[..n], users[..n]);
    assert UserDataMap(blogs, users) == earlier[blogs[n].userId := users[n]];
    if i < n {
      assert blogs[..n][i] == blogs[i];
      assert blogs[n].userId != blogs[i].userId;
      UserDataMapLastWins(blogs[..n], users[..n], i);
    }
  }
}
