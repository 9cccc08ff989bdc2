/** An in-memory stand-in for the hosted services the client talks to: the
    `blogs`, `comments` and `profiles` tables and the `blog-images` storage
    bucket. Which requests the services reject is an explicit part of the
    state (`faults`, with the error message each rejection carries), and every
    mutating request the client sends is recorded in order (`sent`), so that
    ordering and "no call was made" can be stated. */
module Backend {
  import opened Wrappers
  import opened Seqs

  /** A value of a JSON column. Arrays are arrays of strings (image URLs). */
  datatype Json =
    | JNull
    | JBool(b: bool)
    | JNumber(n: int)
    | JString(text: string)
    | JArray(items: seq<string>)
    | JObject

  /** JavaScript truthiness of a column value. */
  predicate Truthy(v: Json)
  {
    match v
    case JNull => false
    case JBool(b) => b
    case JNumber(n) => n != 0
    case JString(t) => t != ""
    case JArray(_) => true
    case JObject => true
  }

  datatype BlogRow = BlogRow(
    id: string, title: string, content: string, authorId: string,
    images: Json, createdAt: int, updatedAt: Option<int>)

  datatype CommentRow = CommentRow(
    id: string, blogId: string, authorId: string, content: string,
    parentId: Option<string>, images: Json, createdAt: int)

  /** The columns an update of a blog row sends; `images` is left out of the
      update when it is `None` (an `undefined` key is not serialised). */
  datatype BlogPatch = BlogPatch(title: string, content: string, images: Option<seq<string>>, updatedAt: int)

  /** What an update does to a comment's `images` column. */
  datatype ImagesUpdate = KeepImages | ClearImages | SetImages(urls: seq<string>)

  datatype CommentPatch = CommentPatch(content: string, images: ImagesUpdate)

  datatype Request =
    // reads
    | SelectBlogs(authorId: Option<string>, from: int, to: int)
    | SelectBlog(id: string)
    | SelectComments(blogId: string)
    | SelectProfile(userId: string)
    | PublicUrlOf(key: string)
    // writes
    | UploadObject(key: string)
    | RemoveObjects(keys: seq<string>)
    | InsertBlogRow(blog: BlogRow)
    | UpdateBlogRows(id: string, blogPatch: BlogPatch)
    | DeleteBlogRows(id: string)
    | InsertCommentRow(comment: CommentRow)
    | UpdateCommentRows(id: string, commentPatch: CommentPatch)
    | DeleteCommentRows(id: string)
    | InsertProfileRow(userId: string, name: string)

  datatype Store = Store(
    objects: set<string>,          // object keys in the `blog-images` bucket
    publicBase: string,            // public URL of an object, up to the bucket name
    blogs: seq<BlogRow>,
    comments: seq<CommentRow>,
    profiles: map<string, Option<string>>,  // user id to (nullable) name
    faults: map<Request, string>,  // requests that are rejected, with the message
    sent: seq<Request>)            // mutating requests sent, oldest first

  /** A page of rows and the total number of rows matching the query. */
  datatype Page<T> = Page(rows: seq<T>, count: Option<nat>)

  function Min(a: int, b: int): int { if a <= b then a else b }

  function ToSet(s: seq<string>): (r: set<string>)
    ensures forall x :: x in r <==> x in s
  {
    set x | x in s
  }

  /** `.range(from, to)`: the rows at positions `from` to `to` inclusive. */
  function Range<T>(rows: seq<T>, from: nat, to: int): (r: seq<T>)
    ensures |r| <= if to < from then 0 else to - from + 1
    ensures forall k :: 0 <= k < |r| ==> from + k < |rows| && r[k] == rows[from + k]
    ensures from < |rows| && from <= to ==> |r| == Min(to + 1, |rows|) - from
  {
    if to < from || from >= |rows| then [] else rows[from..Min(to + 1, |rows|)]
  }

  /** `profiles?.name` of the profile embedded for `userId`. */
  function JoinedName(st: Store, userId: string): (r: Option<string>)
    ensures r.Some? ==> userId in st.profiles && st.profiles[userId] == r
  {
    if userId in st.profiles then st.profiles[userId] else None
  }

  /** `profiles?.name ?? 'Unknown'`: the author's name, or `Unknown` when the
      profile is missing or has no name. */
  function AuthorName(st: Store, userId: string): (r: string)
    ensures userId in st.profiles && st.profiles[userId].Some? ==> r == st.profiles[userId].value
    ensures !(userId in st.profiles && st.profiles[userId].Some?) ==> r == "Unknown"
  {
    JoinedName(st, userId).GetOr("Unknown")
  }

  /** Blog rows newest first: a permutation of `rows`, descending `created_at`. */
  function NewestFirst(rows: seq<BlogRow>): (r: seq<BlogRow>)
    ensures multiset(r) == multiset(rows)
    ensures forall i, j :: 0 <= i < j < |r| ==> r[i].createdAt >= r[j].createdAt
  {
    var sorted := SortBy(rows, (b: BlogRow) => -b.createdAt);
    assert SortedBy(sorted, (b: BlogRow) => -b.createdAt);
    sorted
  }

  /** The window `from`..`to` of rows already in newest-first order. */
  function BlogWindow(ordered: seq<BlogRow>, from: nat, to: int): (r: seq<BlogRow>)
    requires forall i, j :: 0 <= i < j < |ordered| ==> ordered[i].createdAt >= ordered[j].createdAt
    ensures forall b :: b in r ==> b in ordered
    ensures |r| <= if to < from then 0 else to - from + 1
    ensures from < |ordered| && from <= to ==> |r| == Min(to + 1, |ordered|) - from
    ensures (from >= |ordered| || to < from) ==> r == []
    ensures forall k :: 0 <= k < |r| ==> from + k < |ordered| && r[k] == ordered[from + k]
    ensures forall i, j :: 0 <= i < j < |r| ==> r[i].createdAt >= r[j].createdAt
  {
    var r := Range(ordered, from, to);
    assert forall i :: 0 <= i < |r| ==> r[i] == ordered[from + i];
    r
  }

  /** The blog rows an author filter selects: all of them, or one author's. */
  function ByAuthor(blogs: seq<BlogRow>, authorId: Option<string>): (r: seq<BlogRow>)
    ensures forall b :: b in r <==> b in blogs && (authorId.None? || b.authorId == authorId.value)
    ensures authorId.None? ==> r == blogs
  {
    if authorId.None? then blogs else Filter((b: BlogRow) => b.authorId == authorId.value, blogs)
  }

  /** Blog rows (all, or one author's), newest first, restricted to the window
      `from`..`to`, with the exact count of matching rows. */
  function ReadBlogs(st: Store, authorId: Option<string>, from: int, to: int): (r: Result<Page<BlogRow>>)
    ensures r.Err? <==> SelectBlogs(authorId, from, to) in st.faults || from < 0
    ensures r.Ok? ==> r.value.count == Some(|ByAuthor(st.blogs, authorId)|)
    ensures r.Ok? ==> forall b :: b in r.value.rows ==> b in st.blogs && (authorId.None? || b.authorId == authorId.value)
    ensures r.Ok? ==> |r.value.rows| <= if to < from then 0 else to - from + 1
    ensures r.Ok? && from < |ByAuthor(st.blogs, authorId)| && from <= to ==>
      |r.value.rows| == Min(to + 1, |ByAuthor(st.blogs, authorId)|) - from
    ensures r.Ok? ==> forall i, j :: 0 <= i < j < |r.value.rows| ==> r.value.rows[i].createdAt >= r.value.rows[j].createdAt
    ensures r.Ok? ==> from >= 0 && r.value.rows == BlogWindow(NewestFirst(ByAuthor(st.blogs, authorId)), from, to)
  {
    var req := SelectBlogs(authorId, from, to);
    if req in st.faults then Err(st.faults[req])
    else if from < 0 then Err("Requested range not satisfiable")
    else
      var matching := ByAuthor(st.blogs, authorId);
      var ordered := NewestFirst(matching);
      assert |ordered| == |multiset(ordered)| == |matching|;
      var rows := BlogWindow(ordered, from, to);
      assert forall b :: b in rows ==> b in multiset(matching);
      Ok(Page(rows, Some(|matching|)))
  }

  /** Row `k` of an accepted window is row `from + k` of the newest-first order. */
  lemma ReadBlogsRows(st: Store, authorId: Option<string>, from: int, to: int)
    requires ReadBlogs(st, authorId, from, to).Ok?
    ensures var rows, ordered := ReadBlogs(st, authorId, from, to).value.rows, NewestFirst(ByAuthor(st.blogs, authorId));
      forall k :: 0 <= k < |rows| ==> from + k < |ordered| && rows[k] == ordered[from + k]
  {
    var ordered := NewestFirst(ByAuthor(st.blogs, authorId));
    assert ReadBlogs(st, authorId, from, to).value.rows == BlogWindow(ordered, from, to);
  }

  /** `.eq('id', id).single()`: the one row with that id; anything else is an error. */
  function ReadBlog(st: Store, id: string): (r: Result<BlogRow>)
    ensures r.Err? <==> SelectBlog(id) in st.faults || |Filter((b: BlogRow) => b.id == id, st.blogs)| != 1
    ensures r.Ok? ==> r.value in st.blogs && r.value.id == id
  {
    var req := SelectBlog(id);
    var matching := Filter((b: BlogRow) => b.id == id, st.blogs);
    if req in st.faults then Err(st.faults[req])
    else if |matching| != 1 then Err("JSON object requested, multiple (or no) rows returned")
    else
      assert matching[0] in matching;
      Ok(matching[0])
  }

  /** The comment rows of one blog, in table order. */
  function CommentsOf(st: Store, blogId: string): (r: seq<CommentRow>)
    ensures forall c :: c in r <==> c in st.comments && c.blogId == blogId
    ensures IsSubseq(r, st.comments)
  {
    Filter((c: CommentRow) => c.blogId == blogId, st.comments)
  }

  /** The comment rows of one blog in table order, or the store's error. */
  function ReadComments(st: Store, blogId: string): (r: Result<seq<CommentRow>>)
    ensures r.Err? <==> SelectComments(blogId) in st.faults
    ensures r.Ok? ==> r.value == CommentsOf(st, blogId)
  {
    if SelectComments(blogId) in st.faults then Err(st.faults[SelectComments(blogId)])
    else Ok(CommentsOf(st, blogId))
  }

  /** The comment rows of one blog ordered by `created_at` ascending. */
  function ReadCommentsOldestFirst(st: Store, blogId: string): (r: Result<seq<CommentRow>>)
    ensures r.Err? <==> SelectComments(blogId) in st.faults
    ensures r.Ok? ==> multiset(r.value) == multiset(CommentsOf(st, blogId))
    ensures r.Ok? ==> forall i, j :: 0 <= i < j < |r.value| ==> r.value[i].createdAt <= r.value[j].createdAt
  {
    if SelectComments(blogId) in st.faults then Err(st.faults[SelectComments(blogId)])
    else Ok(SortBy(CommentsOf(st, blogId), (c: CommentRow) => c.createdAt))
  }

  /** `.maybeSingle()` on the profile of `userId`: no row is `None`, a row is its
      (nullable) name. */
  function ReadProfile(st: Store, userId: string): (r: Result<Option<Option<string>>>)
    ensures r.Err? <==> SelectProfile(userId) in st.faults
    ensures r.Ok? ==> (r.value.Some? <==> userId in st.profiles)
    ensures r.Ok? && r.value.Some? ==> r.value.value == st.profiles[userId]
  {
    if SelectProfile(userId) in st.faults then Err(st.faults[SelectProfile(userId)])
    else if userId in st.profiles then Ok(Some(st.profiles[userId]))
    else Ok(None)
  }

  function PatchBlog(b: BlogRow, p: BlogPatch): BlogRow
  {
    b.(title := p.title, content := p.content,
       images := if p.images.Some? then JArray(p.images.value) else b.images,
       updatedAt := Some(p.updatedAt))
  }

  function PatchComment(c: CommentRow, p: CommentPatch): CommentRow
  {
    c.(content := p.content,
       images := match p.images
                 case KeepImages => c.images
                 case ClearImages => JNull
                 case SetImages(urls) => JArray(urls))
  }

  /** The change an accepted write makes; reads change nothing. */
  function Effect(st: Store, req: Request): (r: Store)
    ensures r.faults == st.faults && r.publicBase == st.publicBase && r.sent == st.sent
  {
    match req
    case UploadObject(key) => st.(objects := st.objects + {key})
    case RemoveObjects(keys) => st.(objects := st.objects - ToSet(keys))
    case InsertBlogRow(row) => st.(blogs := st.blogs + [row])
    case UpdateBlogRows(id, p) =>
      st.(blogs := seq(|st.blogs|, i requires 0 <= i < |st.blogs| =>
                       if st.blogs[i].id == id then PatchBlog(st.blogs[i], p) else st.blogs[i]))
    case DeleteBlogRows(id) => st.(blogs := Filter((b: BlogRow) => b.id != id, st.blogs))
    case InsertCommentRow(row) => st.(comments := st.comments + [row])
    case UpdateCommentRows(id, p) =>
      st.(comments := seq(|st.comments|, i requires 0 <= i < |st.comments| =>
                          if st.comments[i].id == id then PatchComment(st.comments[i], p) else st.comments[i]))
    case DeleteCommentRows(id) => st.(comments := Filter((c: CommentRow) => c.id != id, st.comments))
    case InsertProfileRow(userId, name) => st.(profiles := st.profiles[userId := Some(name)])
    case _ => st
  }

  /** Sends one write: it is recorded, then applied unless the store rejects it. */
  function Execute(st: Store, req: Request): (r: (Store, Result<()>))
    ensures r.0.sent == st.sent + [req] && r.0.faults == st.faults
    ensures r.1.Err? <==> req in st.faults
    ensures r.1.Err? ==> r.0 == st.(sent := st.sent + [req]) && r.1.message == st.faults[req]
    ensures r.1.Ok? ==> r.0 == Effect(st, req).(sent := st.sent + [req])
  {
    var st1 := st.(sent := st.sent + [req]);
    if req in st.faults then (st1, Err(st.faults[req])) else (Effect(st1, req), Ok(()))
  }

  /** How many leading requests of `plan` the store accepts. */
  function Accepted(faults: map<Request, string>, plan: seq<Request>): (n: nat)
    ensures n <= |plan|
    ensures forall k :: 0 <= k < n ==> plan[k] !in faults
    ensures n < |plan| ==> plan[n] in faults
  {
    if plan == [] || plan[0] in faults then 0
    else 1 + Accepted(faults, plan[1..])
  }

  /** Sends the writes of `plan` in order and stops at the first rejected one,
      whose error becomes the result. */
  function RunPlan(st: Store, plan: seq<Request>): (r: (Store, Result<()>))
    ensures r.0.faults == st.faults && r.0.publicBase == st.publicBase
    decreases |plan|
  {
    if plan == [] then (st, Ok(()))
    else
      var (st1, res) := Execute(st, plan[0]);
      if res.Err? then (st1, res) else RunPlan(st1, plan[1..])
  }

  /** A plan reaches its end exactly when no request of it is rejected;
      otherwise its error is that of the first rejected request. */
  lemma {:induction false} RunPlanOutcome(st: Store, plan: seq<Request>)
    ensures var r := RunPlan(st, plan).1;
      var n := Accepted(st.faults, plan);
      && (r.Ok? <==> n == |plan|)
      && (r.Err? ==> n < |plan| && r.message == st.faults[plan[n]])
    decreases |plan|
  {
    if plan != [] {
      var (st1, res) := Execute(st, plan[0]);
      if res.Ok? {
        assert RunPlan(st, plan) == RunPlan(st1, plan[1..]);
        RunPlanOutcome(st1, plan[1..]);
        assert Accepted(st.faults, plan) == 1 + Accepted(st1.faults, plan[1..]);
      }
    }
  }

  /** The requests of `plan` up to and including the first rejected one. */
  function Attempted(faults: map<Request, string>, plan: seq<Request>): (r: seq<Request>)
    ensures r == plan[..if Accepted(faults, plan) < |plan| then Accepted(faults, plan) + 1 else |plan|]
  {
    if plan == [] then []
    else if plan[0] in faults then [plan[0]]
    else
      var rest := Attempted(faults, plan[1..]);
      assert [plan[0]] + plan[1..][..|rest|] == plan[..|rest| + 1];
      [plan[0]] + rest
  }

  /** The requests a plan sends are the accepted ones and the rejected one,
      in plan order. */
  lemma {:induction false} RunPlanSent(st: Store, plan: seq<Request>)
    ensures RunPlan(st, plan).0.sent == st.sent + Attempted(st.faults, plan)
    decreases |plan|
  {
    if plan != [] {
      var r := Execute(st, plan[0]);
      assert r.0.faults == st.faults && r.0.sent == st.sent + [plan[0]];
      if r.1.Ok? {
        assert RunPlan(st, plan) == RunPlan(r.0, plan[1..]);
        RunPlanSent(r.0, plan[1..]);
        var rest := Attempted(st.faults, plan[1..]);
        assert Attempted(st.faults, plan) == [plan[0]] + rest;
        assert st.sent + [plan[0]] + rest == st.sent + ([plan[0]] + rest);
      } else {
        assert RunPlan(st, plan) == r;
        assert Attempted(st.faults, plan) == [plan[0]];
      }
    }
  }

  /** A plan reaches its end exactly when the store rejects none of its requests. */
  lemma PlanOkIffNoFault(st: Store, plan: seq<Request>)
    ensures RunPlan(st, plan).1.Ok? <==> forall q :: q in plan ==> q !in st.faults
  {
    RunPlanOutcome(st, plan);
    var n := Accepted(st.faults, plan);
    if n == |plan| {
      forall q | q in plan ensures q !in st.faults {
        var k :| 0 <= k < |plan| && plan[k] == q;
      }
    } else {
      assert plan[n] in plan;
    }
  }

  /** A request that occurs only last in a plan is sent only when every
      request before it was accepted. */
  lemma LastSentAfterAccepted(faults: map<Request, string>, plan: seq<Request>)
    requires plan != [] && plan[|plan| - 1] !in plan[..|plan| - 1]
    ensures plan[|plan| - 1] in Attempted(faults, plan) ==>
      forall q :: q in plan[..|plan| - 1] ==> q !in faults
  {
    var last := plan[|plan| - 1];
    var att := Attempted(faults, plan);
    var n := Accepted(faults, plan);
    if last in att {
      var k :| 0 <= k < |att| && att[k] == last;
      assert n >= |plan| - 1;
      forall q | q in plan[..|plan| - 1] ensures q !in faults {
        var j :| 0 <= j < |plan| - 1 && plan[j] == q;
      }
    }
  }

  /** An object stays in the bucket through any plan none of whose removals
      names it. */
  lemma {:induction false} PlanKeepsObject(st: Store, plan: seq<Request>, k: string)
    requires k in st.objects
    requires forall q :: q in plan && q.RemoveObjects? ==> k !in q.keys
    ensures k in RunPlan(st, plan).0.objects
    decreases |plan|
  {
    if plan != [] {
      assert plan[0] in plan;
      var (st1, res) := Execute(st, plan[0]);
      if res.Ok? {
        forall q | q in plan[1..] ensures q in plan { }
        PlanKeepsObject(st1, plan[1..], k);
      }
    }
  }

  /** A write to the tables leaves the bucket as it was. */
  lemma RowWriteKeepsObjects(st: Store, req: Request)
    requires !req.UploadObject? && !req.RemoveObjects?
    ensures Execute(st, req).0.objects == st.objects
  {
    match req
    case DeleteBlogRows(id) =>
      assert Effect(st, req).objects == st.objects;
    case _ =>
  }

  /** Running `a + b` runs `a`, then `b` if `a` reached its end. */
  lemma {:induction false} RunPlanAppend(st: Store, a: seq<Request>, b: seq<Request>)
    ensures RunPlan(st, a + b) ==
      var (st1, r1) := RunPlan(st, a);
      if r1.Err? then (st1, r1) else RunPlan(st1, b)
    decreases |a|
  {
    if a == [] {
      assert a + b == b;
    } else {
      assert (a + b)[0] == a[0] && (a + b)[1..] == a[1..] + b;
      var (st1, res) := Execute(st, a[0]);
      if res.Ok? {
        RunPlanAppend(st1, a[1..], b);
      }
    }
  }

  /** A plan made only of removals never adds an object, and when it reaches its
      end every key it asked to remove is gone. */
  lemma {:induction false} RemovalsRemove(st: Store, plan: seq<Request>)
    requires forall q :: q in plan ==> q.RemoveObjects?
    ensures var (st', r) := RunPlan(st, plan);
      && st'.objects <= st.objects
      && st'.blogs == st.blogs && st'.comments == st.comments && st'.profiles == st.profiles
      && (r.Ok? ==> forall q, k :: q in plan && k in q.keys ==> k !in st'.objects)
    decreases |plan|
  {
    if plan != [] {
      var (st1, res) := Execute(st, plan[0]);
      if res.Ok? {
        assert plan[0] in plan;
        RemovalsRemove(st1, plan[1..]);
        forall q | q in plan[1..] ensures q in plan { }
        var (st', r) := RunPlan(st, plan);
        if r.Ok? {
          forall q, k | q in plan && k in q.keys ensures k !in st'.objects {
            if q != plan[0] {
              var i :| 0 <= i < |plan| && plan[i] == q;
              assert plan[1..][i - 1] == q;
            }
          }
        }
      }
    }
  }
}
