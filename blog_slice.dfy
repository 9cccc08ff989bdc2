/** The blog slice of the client's state: one page of posts, the total count,
    the current page and page size, a loading flag and the last error; and the
    requests whose outcomes it records (load, add, edit, remove). */
module BlogSlice {
  import opened Wrappers
  import opened Seqs
  import opened Backend
  import opened BlogService

  datatype State = State(items: seq<BlogView>, total: int, page: int, pageSize: int, loading: bool,
                         error: Option<string>)

  /** No posts, a total of 0, page 1 of 5 posts, not loading, no error. */
  const Initial := State([], 0, 1, 5, false, None)

  /** The actions the slice handles. A rejected action carries the message of
      the thrown error, `None` when it has none. `AddFulfilled`,
      `EditFulfilled` and `Other` (any other action) change nothing. */
  datatype Action =
    | SetPage(newPage: int)
    | LoadPending
    | LoadFulfilled(payload: BlogList)
    | LoadRejected(message: Option<string>)
    | AddFulfilled
    | AddRejected(message: Option<string>)
    | EditFulfilled
    | EditRejected(message: Option<string>)
    | RemoveFulfilled
    | RemoveRejected(message: Option<string>)
    | Other

  /** `message || fallback`: the message when it is present and not empty. */
  function ErrorText(message: Option<string>, fallback: string): (r: string)
    ensures message.Some? && message.value != "" ==> r == message.value
    ensures !(message.Some? && message.value != "") ==> r == fallback
  {
    if message.Some? && message.value != "" then message.value else fallback
  }

  /** `s.items.filter(b => b.id !== s.items[0]?.id)`: drops every post that
      has the id of the first post; with no posts there is nothing to drop. */
  function DropFirstId(items: seq<BlogView>): seq<BlogView>
  {
    if items == [] then [] else Filter((b: BlogView) => b.row.id != items[0].row.id, items)
  }

  /** The state after one action. */
  function Reduce(s: State, a: Action): (t: State)
    ensures t.pageSize == s.pageSize
    ensures t.page == if a.SetPage? then a.newPage else s.page
    ensures a.Other? || a.AddFulfilled? || a.EditFulfilled? ==> t == s
  {
    match a
    case SetPage(p) => s.(page := p)
    case LoadPending => s.(loading := true)
    case LoadFulfilled(payload) =>
      s.(loading := false, items := payload.data,
         total := if payload.count.Some? && payload.count.value != 0 then payload.count.value else 0)
    case LoadRejected(m) => s.(loading := false, error := Some(ErrorText(m, "Failed to load blogs")))
    case RemoveFulfilled => s.(items := DropFirstId(s.items))
    case AddRejected(m) => s.(error := Some(ErrorText(m, "Failed to create blog")))
    case EditRejected(m) => s.(error := Some(ErrorText(m, "Failed to update blog")))
    case RemoveRejected(m) => s.(error := Some(ErrorText(m, "Failed to delete blog")))
    case AddFulfilled => s
    case EditFulfilled => s
    case Other => s
  }

  /** The state after a sequence of actions, oldest first. */
  function ReduceAll(s: State, trace: seq<Action>): State
    decreases |trace|
  {
    if trace == [] then s else ReduceAll(Reduce(s, trace[0]), trace[1..])
  }

  /** No action changes the page size, so it stays 5 from the initial state on. */
  lemma {:induction false} PageSizeFixed(s: State, trace: seq<Action>)
    ensures ReduceAll(s, trace).pageSize == s.pageSize
    ensures ReduceAll(Initial, trace).pageSize == 5
    decreases |trace|
  {
    if trace != [] {
      PageSizeFixed(Reduce(s, trace[0]), trace[1..]);
      PageSizeFixed(Reduce(Initial, trace[0]), trace[1..]);
    }
  }

  /** `setPage` sets the page to the payload, whatever it is, and nothing else. */
  lemma SetPageOnlyPage(s: State, p: int)
    ensures Reduce(s, SetPage(p)) == s.(page := p)
  {
  }

  /** `loadBlogs.fulfilled` shows the page's posts, takes the count as total (0
      when it is missing or 0) and ends loading; the error is kept. */
  lemma LoadFulfilledEffect(s: State, payload: BlogList)
    ensures var t := Reduce(s, LoadFulfilled(payload));
      && t.items == payload.data && !t.loading && t.error == s.error
      && t.total == payload.count.GetOr(0)
      && t.page == s.page && t.pageSize == s.pageSize
  {
  }

  /** `removeBlog.fulfilled` carries no id: it drops the posts that share the
      first post's id, whichever post was deleted, keeps the rest in order, and
      leaves an empty list empty. */
  lemma RemoveDropsFirst(s: State)
    ensures var t := Reduce(s, RemoveFulfilled);
      && (s.items == [] ==> t.items == [])
      && (s.items != [] ==> forall b :: b in t.items <==> b in s.items && b.row.id != s.items[0].row.id)
      && IsSubseq(t.items, s.items)
      && t == s.(items := t.items)
  {
  }

  /** So when the deleted post is not the first one shown, it stays in the list
      and the first post disappears instead. */
  lemma RemoveKeepsDeletedPost(s: State, deleted: BlogView)
    requires deleted in s.items && s.items[0].row.id != deleted.row.id
    ensures deleted in Reduce(s, RemoveFulfilled).items
    ensures s.items[0] !in Reduce(s, RemoveFulfilled).items
  {
  }

  /** Each rejection sets the error to the thrown message, or to its own
      default when the message is missing or empty; only a load rejection also
      ends loading. */
  lemma RejectionMessages(s: State, m: Option<string>)
    ensures Reduce(s, LoadRejected(m)) == s.(loading := false, error := Some(ErrorText(m, "Failed to load blogs")))
    ensures Reduce(s, AddRejected(m)) == s.(error := Some(ErrorText(m, "Failed to create blog")))
    ensures Reduce(s, EditRejected(m)) == s.(error := Some(ErrorText(m, "Failed to update blog")))
    ensures Reduce(s, RemoveRejected(m)) == s.(error := Some(ErrorText(m, "Failed to delete blog")))
    ensures m.Some? && m.value != "" ==> Reduce(s, LoadRejected(m)).error == m
  {
  }

  // ---------------------------------------------------------------- requests

  /** `loadBlogs`: fetches page `page` and ends with its outcome. */
  function LoadBlogs(st: Store, page: int, pageSize: int): (a: Action)
    ensures a.LoadFulfilled? <==> FetchBlogs(st, page, pageSize).Ok?
    ensures a.LoadFulfilled? ==> a.payload == FetchBlogs(st, page, pageSize).value
    ensures a.LoadRejected? ==> a.message == Some(FetchBlogs(st, page, pageSize).message)
    ensures a.LoadFulfilled? || a.LoadRejected?
  {
    match FetchBlogs(st, page, pageSize)
    case Ok(list) => LoadFulfilled(list)
    case Err(m) => LoadRejected(Some(m))
  }

  /** `addBlog`: forwards title, content and author only, so the new row never
      has images. */
  function AddBlog(st: Store, id: string, now: int, title: string, content: string, userId: string): (r: (Store, Action))
    ensures r.0 == CreateBlog(st, id, now, title, content, userId, None).0
    ensures r.1.AddFulfilled? || r.1.AddRejected?
    ensures r.1.AddFulfilled? ==> r.0.blogs == st.blogs + [BlogRow(id, title, content, userId, JNull, now, None)]
  {
    var res := CreateBlog(st, id, now, title, content, userId, None);
    (res.0, if res.1.Ok? then AddFulfilled else AddRejected(Some(res.1.message)))
  }

  /** `editBlog`: forwards id, title and content only, so a post's images are
      never changed by an edit. */
  function EditBlog(st: Store, id: string, title: string, content: string, now: int): (r: (Store, Action))
    ensures r.0 == UpdateBlog(st, id, title, content, None, now).0
    ensures r.1.EditFulfilled? || r.1.EditRejected?
    ensures |r.0.blogs| == |st.blogs|
    ensures forall i :: 0 <= i < |st.blogs| ==> r.0.blogs[i].images == st.blogs[i].images
  {
    var res := UpdateBlog(st, id, title, content, None, now);
    (res.0, if res.1.Ok? then EditFulfilled else EditRejected(Some(res.1.message)))
  }

  /** `removeBlog`: deletes the post without its image list, and ends with an
      action that does not name the post. */
  method RemoveBlog(st: Store, id: string) returns (st': Store, a: Action)
    ensures SelectComments(id) in st.faults ==> st' == st && a == RemoveRejected(Some(st.faults[SelectComments(id)]))
    ensures SelectComments(id) !in st.faults ==>
      var run := RunPlan(st, CascadePlan(st, id, None));
      && st' == run.0
      && a == if run.1.Ok? then RemoveFulfilled else RemoveRejected(Some(run.1.message))
  {
    var r;
    st', r := DeleteBlog(st, id, None);
    a := if r.Ok? then RemoveFulfilled else RemoveRejected(Some(r.message));
  }

  /** Removing a post through the slice sends no removal for the post's own
      images: only the removal of the comments' images and the deletion of
      the row. */
  lemma RemoveBlogPlan(st: Store, id: string)
    ensures CascadePlan(st, id, None) == Removal(CommentImages(CommentsOf(st, id))) + [DeleteBlogRows(id)]
  {
    assert StoragePaths(PostImages(None)) == [];
  }

  /** So every object that no comment image names stays in the bucket,
      whatever the outcome. */
  lemma RemoveBlogKeepsPostImages(st: Store, id: string, k: string)
    requires k in st.objects && k !in StoragePaths(CommentImages(CommentsOf(st, id)))
    ensures k in RunPlan(st, CascadePlan(st, id, None)).0.objects
  {
    var plan := CascadePlan(st, id, None);
    RemoveBlogPlan(st, id);
    forall q | q in plan && q.RemoveObjects? ensures k !in q.keys {
      assert q in Removal(CommentImages(CommentsOf(st, id)));
    }
    PlanKeepsObject(st, plan, k);
  }

  // ---------------------------------------------------------------- the slice as an object

  /** The slice's state held in place; `Dispatch` applies one action to it. */
  class BlogStore {
    var items: seq<BlogView>
    var total: int
    var page: int
    var pageSize: int
    var loading: bool
    var error: Option<string>

    function Snapshot(): State
      reads this
    {
      State(items, total, page, pageSize, loading, error)
    }

    constructor()
      ensures Snapshot() == Initial
    {
      items := [];
      total := 0;
      page := 1;
      pageSize := 5;
      loading := false;
      error := None;
    }

    method Dispatch(a: Action)
      modifies this
      ensures Snapshot() == Reduce(old(Snapshot()), a)
    {
      match a
      case SetPage(p) =>
        page := p;
      case LoadPending =>
        loading := true;
      case LoadFulfilled(payload) =>
        loading := false;
        items := payload.data;
        total := if payload.count.Some? && payload.count.value != 0 then payload.count.value else 0;
      case LoadRejected(m) =>
        loading := false;
        error := Some(ErrorText(m, "Failed to load blogs"));
      case RemoveFulfilled =>
        if items != [] {
          var firstId := items[0].row.id;
          items := Filter((b: BlogView) => b.row.id != firstId, items);
        }
      case AddRejected(m) =>
        error := Some(ErrorText(m, "Failed to create blog"));
      case EditRejected(m) =>
        error := Some(ErrorText(m, "Failed to update blog"));
      case RemoveRejected(m) =>
        error := Some(ErrorText(m, "Failed to delete blog"));
      case AddFulfilled =>
      case EditFulfilled =>
      case Other =>
    }
  }
}
