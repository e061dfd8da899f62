/**
 * The state of the blog page component and the handlers that update it. Each
 * React state variable is a field; each handler is a method that updates the
 * fields as the corresponding setter calls do. The list the page renders is
 * `Listing.VisiblePosts` applied to the fields.
 */
module BlogListComponent {
  import opened Posts
  import opened Paging
  import opened DateSort
  import opened Listing
  import opened Sequences

  /** The query state the rendered list is derived from. */
  datatype ListingQuery = ListingQuery(searchTerm: string, selectedCategory: string, sortByDate: string, currentPage: int)

  /** The creation dialog: whether it is shown, and the draft typed into it. */
  datatype Dialog = Dialog(isModalOpen: bool, formData: map<string, string>)

  /** The draft installed when the dialog opens: three empty fields. */
  const EmptyDraft: map<string, string> := map["title" := "", "description" := "", "content" := ""]

  /** The draft carries the three fields the creation form edits and submits. */
  predicate HasDraftFields(formData: map<string, string>)
  {
    "title" in formData && "description" in formData && "content" in formData
  }

  /** The updater passed to `setSortByDate` by the sort button. */
  function NextSortOrder(sortByDate: string): (r: string)
    ensures r == Ascending || r == Descending
    ensures sortByDate == Ascending || sortByDate == Descending ==> r != sortByDate
  {
    if sortByDate == Ascending then Descending else Ascending
  }

  /** Pressing the sort button twice restores either direction; any other value becomes "desc". */
  lemma NextSortOrderTwice(sortByDate: string)
    ensures sortByDate == Ascending || sortByDate == Descending ==> NextSortOrder(NextSortOrder(sortByDate)) == sortByDate
    ensures sortByDate != Ascending && sortByDate != Descending ==> NextSortOrder(NextSortOrder(sortByDate)) == Descending
  {
  }

  /**
   * The shifting loop of one insertion step: moves the posts before `a[i]` that
   * compare greater than it one place right, from the back, and puts `a[i]` in
   * the gap at the returned index j. Every post from j on compared greater, and
   * the post before j (if any) did not.
   */
  method ShiftInto(a: array<Post>, sortByDate: string, i: nat) returns (j: nat)
    requires i < a.Length
    modifies a
    ensures j <= i && a[j] == old(a[i])
    ensures forall k :: 0 <= k < j ==> a[k] == old(a[k])
    ensures forall k :: j < k <= i ==> a[k] == old(a[k - 1])
    ensures forall k :: j <= k < i ==> Compare(old(a[k]), old(a[i]), sortByDate) > 0
    ensures j == 0 || Compare(old(a[j - 1]), old(a[i]), sortByDate) <= 0
    ensures forall k :: i < k < a.Length ==> a[k] == old(a[k])
  {
    var x := a[i];
    j := i;
    while j > 0 && Compare(a[j - 1], x, sortByDate) > 0
      invariant 0 <= j <= i
      invariant forall k :: 0 <= k < j ==> a[k] == old(a[k])
      invariant forall k :: j < k <= i ==> a[k] == old(a[k - 1])
      invariant forall k :: j <= k < i ==> Compare(old(a[k]), x, sortByDate) > 0
      invariant forall k :: i < k < a.Length ==> a[k] == old(a[k])
    {
      a[j] := a[j - 1];
      j := j - 1;
    }
    a[j] := x;
  }

  /**
   * One step of `sortBlogsByDate`: the first i + 1 posts become the first i with
   * `a[i]` inserted; the rest of the array is untouched.
   */
  method InsertIntoSortedPrefix(a: array<Post>, sortByDate: string, i: nat)
    requires i < a.Length
    modifies a
    ensures a[..i + 1] == Insert(old(a[..i]), old(a[i]), sortByDate)
    ensures forall k :: i < k < a.Length ==> a[k] == old(a[k])
  {
    ghost var sorted := a[..i];
    ghost var x := a[i];
    var j := ShiftInto(a, sortByDate, i);
    ghost var inserted := a[..i + 1];
    ShiftedLayout(inserted, sorted, x, j);
    InsertLandsAt(sorted, x, sortByDate, j);
  }

  class BlogList {
    var blogs: array<Post>
    var sortByDate: string
    var currentPage: int
    var searchTerm: string
    var isModalOpen: bool
    var selectedCategory: string
    var userDataMap: map<string, UserProfile>
    var formData: map<string, string>

    ghost function Query(): ListingQuery
      reads this
    {
      ListingQuery(searchTerm, selectedCategory, sortByDate, currentPage)
    }

    ghost function DialogState(): Dialog
      reads this
    {
      Dialog(isModalOpen, formData)
    }

    /** `currentPosts`: the posts the page renders for the current state. */
    ghost function Rendered(): seq<Post>
      reads this, blogs
    {
      VisiblePosts(blogs[..], searchTerm, selectedCategory, currentPage)
    }

    /** The number of posts matching both filters, from which the page buttons are counted. */
    ghost function MatchCount(): nat
      reads this, blogs
    {
      |FilteredByCategory(blogs[..], searchTerm, selectedCategory)|
    }

    /** The sort direction is one the sort button produces, and the draft has its three fields. */
    ghost predicate Valid()
      reads this
    {
      (sortByDate == Ascending || sortByDate == Descending) && HasDraftFields(formData)
    }

    /** The initial state of every `useState`. */
    constructor ()
      ensures Valid()
      ensures fresh(blogs) && blogs[..] == [] && userDataMap == map[]
      ensures Query() == ListingQuery("", "", Ascending, 1)
      ensures DialogState() == Dialog(false, EmptyDraft)
    {
      blogs := new Post[0];
      sortByDate := Ascending;
      currentPage := 1;
      searchTerm := "";
      isModalOpen := false;
      selectedCategory := "";
      userDataMap := map[];
      formData := EmptyDraft;
    }

    /**
     * The end of `fetchBlogs`: a successful response replaces the whole list by a
     * fresh array of the fetched posts; a failed one leaves every field as it was.
     * The page number is not reset.
     */
    method FetchBlogsCompleted(response: Option<seq<Post>>)
      requires Valid()
      modifies this
      ensures Valid()
      ensures response.Some? ==> fresh(blogs) && blogs[..] == response.value
      ensures response.None? ==> blogs == old(blogs)
      ensures Query() == old(Query()) && DialogState() == old(DialogState()) && userDataMap == old(userDataMap)
    {
      if response.Some? {
        var data := response.value;
        blogs := new Post[|data|](i requires 0 <= i < |data| => data[i]);
      }
    }

    /**
     * The end of the author lookup effect: `users[i]` is the lookup result for
     * the i-th post, and the folded table replaces `userDataMap`.
     */
    method ApplyUserData(users: seq<UserProfile>)
      requires Valid()
      requires |users| == blogs.Length
      modifies this
      ensures Valid()
      ensures blogs == old(blogs) && Query() == old(Query()) && DialogState() == old(DialogState())
      ensures userDataMap == UserDataMap(blogs[..], users)
    {
      userDataMap := UserDataMap(blogs[..], users);
    }

    /** `toggleSortOrder`: "asc" becomes "desc", anything else becomes "asc". */
    method ToggleSortOrder()
      requires Valid()
      modifies this
      ensures Valid()
      ensures Query() == old(Query()).(sortByDate := NextSortOrder(old(sortByDate)))
      ensures blogs == old(blogs) && userDataMap == old(userDataMap) && DialogState() == old(DialogState())
    {
      sortByDate := NextSortOrder(sortByDate);
    }

    /**
     * `sortBlogsByDate`: sorts the posts array in place with the date comparator
     * for the current direction (the array is not replaced; no other field changes).
     */
    method SortBlogsByDate()
      modifies blogs
      ensures blogs[..] == SortByDate(old(blogs[..]), sortByDate)
    {
      ghost var input := blogs[..];
      var i := 0;
      while i < blogs.Length
        invariant 0 <= i <= blogs.Length
        invariant blogs[..i] == SortByDate(input[..i], sortByDate)
        invariant forall k :: i <= k < blogs.Length ==> blogs[k] == input[k]
      {
        assert input[..i + 1][..i] == input[..i];
        InsertIntoSortedPrefix(blogs, sortByDate, i);
        i := i + 1;
      }
      assert input[..blogs.Length] == input;
    }

    /** `paginate`: a page button sets the page number, with no bounds check. */
    method Paginate(pageNumber: int)
      requires Valid()
      modifies this
      ensures Valid()
      ensures Query() == old(Query()).(currentPage := pageNumber)
      ensures blogs == old(blogs) && userDataMap == old(userDataMap) && DialogState() == old(DialogState())
    {
      currentPage := pageNumber;
    }

    /** `nextPage`: one page forward, with no upper bound. */
    method NextPage()
      requires Valid()
      modifies this
      ensures Valid()
      ensures Query() == old(Query()).(currentPage := old(currentPage) + 1)
      ensures blogs == old(blogs) && userDataMap == old(userDataMap) && DialogState() == old(DialogState())
    {
      currentPage := currentPage + 1;
    }

    /** `prevPage`: one page back, with no lower bound. */
    method PrevPage()
      requires Valid()
      modifies this
      ensures Valid()
      ensures Query() == old(Query()).(currentPage := old(currentPage) - 1)
      ensures blogs == old(blogs) && userDataMap == old(userDataMap) && DialogState() == old(DialogState())
    {
      currentPage := currentPage - 1;
    }

    /**
     * Typing in the search box: only the term changes. The page number is kept,
     * so a narrower term can leave it past the last page: the page then renders
     * nothing while Next stays enabled.
     */
    method SetSearchTerm(term: string)
      requires Valid()
      modifies this
      ensures Valid()
      ensures Query() == old(Query()).(searchTerm := term)
      ensures blogs == old(blogs) && userDataMap == old(userDataMap) && DialogState() == old(DialogState())
      ensures currentPage > PageCount(MatchCount()) ==> Rendered() == [] && !NextDisabled(currentPage, MatchCount())
    {
      searchTerm := term;
      if currentPage > PageCount(MatchCount()) {
        StrandedPageRendersNothing(blogs[..], searchTerm, selectedCategory, currentPage);
      }
    }

    /**
     * `handleCategoryChange` and the category buttons ("" is "All"). The page
     * number is kept, with the same consequence as for the search term.
     */
    method HandleCategoryChange(category: string)
      requires Valid()
      modifies this
      ensures Valid()
      ensures Query() == old(Query()).(selectedCategory := category)
      ensures blogs == old(blogs) && userDataMap == old(userDataMap) && DialogState() == old(DialogState())
      ensures currentPage > PageCount(MatchCount()) ==> Rendered() == [] && !NextDisabled(currentPage, MatchCount())
    {
      selectedCategory := category;
      if currentPage > PageCount(MatchCount()) {
        StrandedPageRendersNothing(blogs[..], searchTerm, selectedCategory, currentPage);
      }
    }

    /**
     * `handleToggleModal`: with a signed-in user the dialog flips, and the draft is
     * reset to three empty fields only when the dialog was closed (it is opening).
     * Without a user nothing changes. `user` is the signed-in user's id, if any.
     */
    method HandleToggleModal(user: Option<string>)
      requires Valid()
      modifies this
      ensures Valid()
      ensures user.None? ==> DialogState() == old(DialogState())
      ensures user.Some? ==> isModalOpen == !old(isModalOpen)
      ensures user.Some? && !old(isModalOpen) ==> formData == EmptyDraft
      ensures old(isModalOpen) ==> formData == old(formData)
      ensures blogs == old(blogs) && userDataMap == old(userDataMap) && Query() == old(Query())
    {
      if user.Some? {
        var wasOpen := isModalOpen;
        isModalOpen := !wasOpen;
        if !wasOpen {
          formData := EmptyDraft;
        }
      }
    }

    /** `handleFormChange`: the input named `name` replaces that draft field and only that one. */
    method HandleFormChange(name: string, value: string)
      requires Valid()
      modifies this
      ensures Valid()
      ensures formData == old(formData)[name := value]
      ensures formData.Keys == old(formData).Keys + {name}
      ensures forall k :: k in old(formData) && k != name ==> formData[k] == old(formData)[k]
      ensures isModalOpen == old(isModalOpen)
      ensures blogs == old(blogs) && userDataMap == old(userDataMap) && Query() == old(Query())
    {
      formData := formData[name := value];
    }

    /**
     * `handleFormSubmit`. With a signed-in user it sends the draft plus the user's
     * id as the new post (`request`), and on success asks for a refetch; without
     * one, reading the id fails inside the same `try`, so nothing is sent. Either
     * way it then toggles the dialog exactly once, whatever the outcome:
     * `requestSucceeded` is the network's answer and does not affect the dialog.
     */
    method HandleFormSubmit(user: Option<string>, requestSucceeded: bool)
      returns (request: Option<map<string, string>>, refetch: bool)
      requires Valid()
      modifies this
      ensures Valid()
      ensures request == if user.Some? then Some(old(formData)["userId" := user.value]) else None
      ensures refetch <==> user.Some? && requestSucceeded
      ensures user.None? ==> DialogState() == old(DialogState())
      ensures user.Some? ==> isModalOpen == !old(isModalOpen)
      ensures user.Some? && !old(isModalOpen) ==> formData == EmptyDraft
      ensures old(isModalOpen) ==> formData == old(formData)
      ensures user.Some? && old(isModalOpen) ==> !isModalOpen && formData == old(formData)
      ensures blogs == old(blogs) && userDataMap == old(userDataMap) && Query() == old(Query())
    {
      if user.Some? {
        request := Some(formData["userId" := user.value]);
        refetch := requestSucceeded;
      } else {
        request := None;
        refetch := false;
      }
      HandleToggleModal(user);
    }
  }
}
