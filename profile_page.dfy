/** The profile page: the signed-in user's own posts, ten per page, newest
    first, with Prev/Next controls that keep the page within range. */
module Profile {
  import opened Wrappers
  import opened Backend
  import opened Listing

  /** Posts per page on the profile page. */
  const PageSize := 10

  function Max(a: int, b: int): int { if a >= b then a else b }

  /** The page Prev moves to: one back, but never below 1. */
  function PrevPage(page: int): (p: int)
    ensures p >= 1
    ensures page > 1 ==> p == page - 1
    ensures page <= 1 ==> p == 1
  {
    Max(1, page - 1)
  }

  /** The page Next moves to: one on, but never beyond the last page. */
  function NextPage(page: int, totalPages: nat): (p: int)
    ensures p <= totalPages
    ensures page < totalPages ==> p == page + 1
    ensures page >= totalPages ==> p == totalPages
  {
    Min(totalPages, page + 1)
  }

  /** Within the pages that exist, a control is disabled exactly when using it
      would leave the page where it is, and using it never leaves the range. */
  lemma ControlsStayInRange(page: int, totalPages: nat)
    requires 1 <= page <= totalPages
    ensures 1 <= PrevPage(page) <= totalPages && 1 <= NextPage(page, totalPages) <= totalPages
    ensures PrevPage(page) == page <==> page == 1
    ensures NextPage(page, totalPages) == page <==> page == totalPages
  {
  }

  /** The controls are shown only when there is more than one page, that is
      when the user has more than ten posts. */
  predicate ShowsPagination(total: nat)
  {
    PageCount(total, PageSize) > 1
  }

  lemma PaginationIffMoreThanOnePage(total: nat)
    ensures ShowsPagination(total) <==> total > PageSize
  {
    var n := PageCount(total, PageSize);
    if n > 1 {
      assert (n - 1) * PageSize >= PageSize;
    }
  }

  /** What the page's query returns when the store accepts it: at most ten of
      the user's own posts and no other, newest first, a full page whenever
      enough posts follow the window's start, and the number of all the
      user's posts as the count. */
  lemma OwnPostsPage(st: Store, userId: string, page: int)
    requires page >= 1
    requires SelectBlogs(Some(userId), (page - 1) * PageSize, (page - 1) * PageSize + PageSize - 1) !in st.faults
    ensures var w := Window(page, PageSize);
      var q := ReadBlogs(st, Some(userId), w.0, w.1);
      && q.Ok?
      && |q.value.rows| <= PageSize
      && (forall b :: b in q.value.rows ==> b in st.blogs && b.authorId == userId)
      && (forall i, j :: 0 <= i < j < |q.value.rows| ==> q.value.rows[i].createdAt >= q.value.rows[j].createdAt)
      && q.value.count == Some(|ByAuthor(st.blogs, Some(userId))|)
      && (w.0 < |ByAuthor(st.blogs, Some(userId))| ==>
            |q.value.rows| == Min(PageSize, |ByAuthor(st.blogs, Some(userId))| - w.0))
  {
    var w := Window(page, PageSize);
    assert w.0 == (page - 1) * PageSize >= 0;
  }

  /** Which posts that page holds: the user's posts in newest-first order, from
      the window's start on. */
  lemma OwnPostsPageRows(st: Store, userId: string, page: int)
    requires page >= 1
    requires SelectBlogs(Some(userId), (page - 1) * PageSize, (page - 1) * PageSize + PageSize - 1) !in st.faults
    ensures var w := Window(page, PageSize);
      var q := ReadBlogs(st, Some(userId), w.0, w.1);
      var ordered := NewestFirst(ByAuthor(st.blogs, Some(userId)));
      && q.Ok?
      && forall i :: 0 <= i < |q.value.rows| ==> w.0 + i < |ordered| && q.value.rows[i] == ordered[w.0 + i]
  {
    var w := Window(page, PageSize);
    var q := ReadBlogs(st, Some(userId), w.0, w.1);
    assert q.Ok? by {
      assert w.0 == (page - 1) * PageSize >= 0;
    }
    ReadBlogsRows(st, Some(userId), w.0, w.1);
  }

  /** The rows of the list, each with the first 100 characters of its content. */
  function Excerpts(blogs: seq<BlogRow>): (r: seq<string>)
    ensures |r| == |blogs|
    ensures forall i :: 0 <= i < |blogs| ==> r[i] <= blogs[i].content && |r[i]| == Min(100, |blogs[i].content|)
  {
    seq(|blogs|, i requires 0 <= i < |blogs| => Excerpt(blogs[i].content))
  }

  /** The page's own state for one signed-in user. */
  class ProfilePage {
    const userId: string
    var page: int
    var blogs: seq<BlogRow>
    var total: nat
    var loading: bool

    /** The page is never below 1. */
    predicate Valid()
      reads this
    {
      page >= 1
    }

    constructor(userId: string)
      ensures this.userId == userId && page == 1 && blogs == [] && total == 0 && !loading
      ensures Valid()
    {
      this.userId := userId;
      page := 1;
      blogs := [];
      total := 0;
      loading := false;
    }

    function TotalPages(): nat
      reads this
    {
      PageCount(total, PageSize)
    }

    predicate PrevDisabled()
      reads this
    {
      page == 1
    }

    predicate NextDisabled()
      reads this
    {
      page == TotalPages()
    }

    /** Whether the "no posts yet" notice shows. */
    predicate ShowsEmptyNotice()
      reads this
    {
      !loading && blogs == []
    }

    /** `fetchBlogs`: loads the current page's window of the user's posts. A
        failed query keeps the posts and total shown; a successful one shows
        its rows and takes its count as the total (0 when missing). Loading
        ends either way. */
    method FetchBlogs(st: Store)
      modifies this
      ensures page == old(page) && !loading
      ensures var w := Window(page, PageSize);
        var q := ReadBlogs(st, Some(userId), w.0, w.1);
        && (q.Ok? ==> blogs == q.value.rows && total == q.value.count.GetOr(0))
        && (q.Err? ==> blogs == old(blogs) && total == old(total))
    {
      loading := true;
      var from := (page - 1) * PageSize;
      var to := from + PageSize - 1;
      assert (from, to) == Window(page, PageSize);
      var q := ReadBlogs(st, Some(userId), from, to);
      if q.Ok? {
        blogs := q.value.rows;
        total := if q.value.count.Some? && q.value.count.value != 0 then q.value.count.value else 0;
      }
      loading := false;
    }

    /** Prev: only when the controls are shown and it is enabled; moves to
        `max(1, page - 1)`. */
    method Prev()
      requires Valid()
      modifies this
      ensures Valid()
      ensures blogs == old(blogs) && total == old(total) && loading == old(loading)
      ensures page == if ShowsPagination(total) && old(page) != 1 then PrevPage(old(page)) else old(page)
    {
      if ShowsPagination(total) && !PrevDisabled() {
        page := Max(1, page - 1);
      }
    }

    /** Next: only when the controls are shown and it is enabled; moves to
        `min(totalPages, page + 1)`, so it never passes the last page. */
    method Next()
      requires Valid()
      modifies this
      ensures Valid()
      ensures blogs == old(blogs) && total == old(total) && loading == old(loading)
      ensures page == if ShowsPagination(total) && old(page) != TotalPages() then NextPage(old(page), TotalPages())
                      else old(page)
      ensures old(page) <= TotalPages() ==> page <= TotalPages()
    {
      if ShowsPagination(total) && !NextDisabled() {
        page := Min(TotalPages(), page + 1);
      }
    }
  }
}
