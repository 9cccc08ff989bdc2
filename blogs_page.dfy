/** The list of all posts: what it shows for a state of the blog slice, and
    the page changes its Prev/Next controls dispatch. The controls do not
    clamp: the page they ask for is one back or one on, and only the disabled
    state of a button stops a click. */
module BlogsPage {
  import opened Wrappers
  import opened Listing
  import opened BlogService
  import BlogSlice

  /** `Math.ceil(total / pageSize)`; a negative total counts as none. The page
      size is positive in every state the slice reaches (it stays 5). */
  function TotalPages(s: BlogSlice.State): nat
    requires s.pageSize >= 1
  {
    PageCount(if s.total >= 0 then s.total else 0, s.pageSize)
  }

  /** The page count shown: `totalPages || 1`. */
  function DisplayedPages(s: BlogSlice.State): (n: nat)
    requires s.pageSize >= 1
    ensures n >= 1
    ensures n == 1 <==> s.total <= s.pageSize
    ensures n > 1 ==> n == TotalPages(s)
  {
    var tp := TotalPages(s);
    PageCountAtMostOne(if s.total >= 0 then s.total else 0, s.pageSize);
    if tp == 0 then 1 else tp
  }

  predicate PrevDisabled(s: BlogSlice.State)
  {
    s.page == 1
  }

  predicate NextDisabled(s: BlogSlice.State)
    requires s.pageSize >= 1
  {
    s.page == TotalPages(s)
  }

  /** The action a click on Prev dispatches, none when Prev is disabled. */
  function PrevClick(s: BlogSlice.State): (a: Option<BlogSlice.Action>)
    ensures a.None? <==> s.page == 1
    ensures a.Some? ==> a.value == BlogSlice.SetPage(s.page - 1)
  {
    if PrevDisabled(s) then None else Some(BlogSlice.SetPage(s.page - 1))
  }

  /** The action a click on Next dispatches, none when Next is disabled. */
  function NextClick(s: BlogSlice.State): (a: Option<BlogSlice.Action>)
    requires s.pageSize >= 1
    ensures a.None? <==> s.page == TotalPages(s)
    ensures a.Some? ==> a.value == BlogSlice.SetPage(s.page + 1)
  {
    if NextDisabled(s) then None else Some(BlogSlice.SetPage(s.page + 1))
  }

  /** The state after clicking Next `n` times, each click applied by the slice
      when the button is enabled. */
  function AfterNextClicks(s: BlogSlice.State, n: nat): BlogSlice.State
    requires s.pageSize >= 1
    decreases n
  {
    if n == 0 then s
    else
      var t := match NextClick(s) case Some(a) => BlogSlice.Reduce(s, a) case None => s;
      AfterNextClicks(t, n - 1)
  }

  /** With no posts there are no pages, so Next is never disabled on a page
      from 1 on: every click moves one page further, past any page that
      exists, while the page count shown stays 1. */
  lemma {:induction false} NextUnboundedWithoutPosts(s: BlogSlice.State, n: nat)
    requires s.pageSize >= 1 && s.total == 0 && s.page >= 1
    ensures var t := AfterNextClicks(s, n);
      && t.pageSize == s.pageSize && t.total == 0
      && t.page == s.page + n
      && !NextDisabled(t)
      && DisplayedPages(t) == 1
    decreases n
  {
    if n > 0 {
      var t := BlogSlice.Reduce(s, BlogSlice.SetPage(s.page + 1));
      assert AfterNextClicks(s, n) == AfterNextClicks(t, n - 1);
      NextUnboundedWithoutPosts(t, n - 1);
    }
  }

  /** Once the page is past the last page (the total fell, say), Next stays
      enabled and moves further away. */
  lemma NextPastLastPage(s: BlogSlice.State)
    requires s.pageSize >= 1 && s.page > TotalPages(s)
    ensures NextClick(s) == Some(BlogSlice.SetPage(s.page + 1))
    ensures BlogSlice.Reduce(s, NextClick(s).value).page > TotalPages(s)
  {
  }

  /** From any page from 1 on, Prev never takes the page below 1: page 1 has it
      disabled. From a page below 1 it moves further down. */
  lemma PrevBounds(s: BlogSlice.State)
    ensures s.page >= 1 && PrevClick(s).Some? ==> BlogSlice.Reduce(s, PrevClick(s).value).page >= 1
    ensures s.page < 1 ==> PrevClick(s).Some? && BlogSlice.Reduce(s, PrevClick(s).value).page < s.page
  {
  }

  /** The "no posts yet" notice shows exactly when not loading and the list is
      empty. */
  predicate ShowsEmptyNotice(s: BlogSlice.State)
  {
    !s.loading && s.items == []
  }

  /** The cards shown: none while loading; otherwise one per post, in list
      order, with its title and the first 100 characters of its content. */
  function Cards(s: BlogSlice.State): (cards: seq<(string, string)>)
    ensures s.loading ==> cards == []
    ensures !s.loading ==> |cards| == |s.items|
    ensures !s.loading ==> forall i :: 0 <= i < |s.items| ==>
      var content := s.items[i].row.content;
      && cards[i].0 == s.items[i].row.title
      && cards[i].1 <= content
      && |cards[i].1| == (if |content| < 100 then |content| else 100)
  {
    if s.loading then []
    else seq(|s.items|, i requires 0 <= i < |s.items| => (s.items[i].row.title, Excerpt(s.items[i].row.content)))
  }

  /** The notice and the cards never show together, and with nothing loading
      one of them shows unless the list is not empty. */
  lemma NoticeOrCards(s: BlogSlice.State)
    ensures ShowsEmptyNotice(s) ==> Cards(s) == []
    ensures !s.loading ==> (ShowsEmptyNotice(s) <==> Cards(s) == [])
  {
  }
}
