/** The comment service: the comments of a post oldest first with author names,
    the row a new comment or reply is stored as, the update of a comment's text
    and images with its "no row affected" failure, and the deletion of a row. */
module CommentService {
  import opened Wrappers
  import opened Seqs
  import opened Backend

  /** A comment as the client holds it: the row and its author's name. */
  datatype Comment = Comment(row: CommentRow, authorName: string)

  /** `fetchComments`: the post's comments ordered by `created_at` ascending,
      each with its author's name or `Unknown`. */
  function FetchComments(st: Store, blogId: string): (r: Result<seq<Comment>>)
    ensures var q := ReadCommentsOldestFirst(st, blogId);
      && (r.Err? <==> q.Err?)
      && (r.Err? ==> r.message == q.message)
      && (r.Ok? ==> |r.value| == |q.value|)
      && (r.Ok? ==> forall i :: 0 <= i < |r.value| ==>
            r.value[i].row == q.value[i] && r.value[i].authorName == AuthorName(st, q.value[i].authorId))
  {
    match ReadCommentsOldestFirst(st, blogId)
    case Err(m) => Err(m)
    case Ok(rows) => Ok(seq(|rows|, i requires 0 <= i < |rows| => Comment(rows[i], AuthorName(st, rows[i].authorId))))
  }

  function RowsOf(cs: seq<Comment>): (rows: seq<CommentRow>)
    ensures |rows| == |cs| && forall i :: 0 <= i < |cs| ==> rows[i] == cs[i].row
  {
    seq(|cs|, i requires 0 <= i < |cs| => cs[i].row)
  }

  /** What a successful fetch holds: every comment of the post exactly as often
      as it is stored, no other comment, oldest first. */
  lemma FetchCommentsOrder(st: Store, blogId: string)
    requires SelectComments(blogId) !in st.faults
    ensures var r := FetchComments(st, blogId);
      && r.Ok?
      && multiset(RowsOf(r.value)) == multiset(CommentsOf(st, blogId))
      && (forall c :: c in RowsOf(r.value) <==> c in st.comments && c.blogId == blogId)
      && (forall i, j :: 0 <= i < j < |r.value| ==> r.value[i].row.createdAt <= r.value[j].row.createdAt)
  {
    var r := FetchComments(st, blogId);
    var q := ReadCommentsOldestFirst(st, blogId);
    assert RowsOf(r.value) == q.value;
    forall c ensures c in RowsOf(r.value) <==> c in CommentsOf(st, blogId) {
      assert c in q.value <==> c in multiset(q.value);
      assert c in CommentsOf(st, blogId) <==> c in multiset(CommentsOf(st, blogId));
    }
  }

  /** The row `createComment` inserts: `parent_id` is the parent id when it is
      non-empty and `null` otherwise; `images` is the given list (an empty list
      included) and `null` when none is given. The id and creation time are the
      database's defaults, given as `id` and `now`. */
  function NewCommentRow(id: string, now: int, blogId: string, authorId: string, content: string,
                         parentId: Option<string>, images: Option<seq<string>>): (c: CommentRow)
    ensures c.id == id && c.blogId == blogId && c.authorId == authorId && c.content == content && c.createdAt == now
    ensures c.parentId.Some? <==> parentId.Some? && parentId.value != ""
    ensures c.parentId.Some? ==> c.parentId == parentId
    ensures c.images.JNull? <==> images.None?
    ensures images.Some? ==> c.images == JArray(images.value)
  {
    CommentRow(id, blogId, authorId, content,
               if parentId.Some? && parentId.value != "" then parentId else None,
               if images.Some? then JArray(images.value) else JNull,
               now)
  }

  /** `createComment`: inserts the row, or fails with the store's error. */
  function CreateComment(st: Store, id: string, now: int, blogId: string, authorId: string, content: string,
                         parentId: Option<string>, images: Option<seq<string>>): (r: (Store, Result<()>))
    ensures var row := NewCommentRow(id, now, blogId, authorId, content, parentId, images);
      && r.0.sent == st.sent + [InsertCommentRow(row)]
      && (r.1.Err? <==> InsertCommentRow(row) in st.faults)
      && (r.1.Err? ==> r.1.message == st.faults[InsertCommentRow(row)] && r.0.comments == st.comments)
      && (r.1.Ok? ==> r.0.comments == st.comments + [row])
      && r.0.blogs == st.blogs && r.0.objects == st.objects
  {
    Execute(st, InsertCommentRow(NewCommentRow(id, now, blogId, authorId, content, parentId, images)))
  }

  /** The update `updateComment` sends: the content always; the images left
      alone when no list is given, cleared for an empty list, set otherwise. */
  function UpdatePayload(content: string, images: Option<seq<string>>): (p: CommentPatch)
    ensures p.content == content
    ensures p.images.KeepImages? <==> images.None?
    ensures p.images.ClearImages? <==> images == Some([])
    ensures p.images.SetImages? ==> images.Some? && images.value != [] && p.images.urls == images.value
  {
    CommentPatch(content,
      if images.None? then KeepImages else if images.value == [] then ClearImages else SetImages(images.value))
  }

  /** Whether a comment row with this id exists. */
  predicate HasComment(st: Store, id: string)
  {
    exists c :: c in st.comments && c.id == id
  }

  /** An accepted update patches exactly the rows with the id, in place. */
  lemma PatchedComments(st: Store, id: string, p: CommentPatch)
    ensures var cs := Effect(st, UpdateCommentRows(id, p)).comments;
      && |cs| == |st.comments|
      && forall i :: 0 <= i < |cs| ==>
           cs[i] == if st.comments[i].id == id then PatchComment(st.comments[i], p) else st.comments[i]
    ensures Effect(st, UpdateCommentRows(id, p)).blogs == st.blogs
    ensures Effect(st, UpdateCommentRows(id, p)).objects == st.objects
  {
  }

  /** What the update payload does to one row. */
  lemma PatchedRow(c: CommentRow, content: string, images: Option<seq<string>>)
    ensures var d := PatchComment(c, UpdatePayload(content, images));
      && d.content == content
      && d.id == c.id && d.authorId == c.authorId && d.parentId == c.parentId
      && (images.None? ==> d.images == c.images)
      && (images == Some([]) ==> d.images == JNull)
      && (images.Some? && images.value != [] ==> d.images == JArray(images.value))
  {
  }

  /** `updateComment`: builds the update and sends it. It fails when the store
      rejects it or when no row was updated. An accepted update gives the rows
      with the id the new content and the images the payload asks for, and
      leaves every other row, and the order of rows, as it was. */
  method UpdateComment(st: Store, id: string, content: string, images: Option<seq<string>>)
    returns (st': Store, r: Result<()>)
    ensures var req := UpdateCommentRows(id, UpdatePayload(content, images));
      && st'.sent == st.sent + [req]
      && (r.Ok? <==> req !in st.faults && HasComment(st, id))
      && (r.Err? ==> r.message == if req in st.faults then st.faults[req] else "Update did not affect any rows")
      && (req in st.faults ==> st'.comments == st.comments)
    ensures |st'.comments| == |st.comments|
    ensures forall i :: 0 <= i < |st.comments| && st.comments[i].id != id ==> st'.comments[i] == st.comments[i]
    ensures UpdateCommentRows(id, UpdatePayload(content, images)) !in st.faults ==>
      forall i :: 0 <= i < |st.comments| && st.comments[i].id == id ==>
        var c := st'.comments[i];
        && c.content == content
        && c.id == id && c.authorId == st.comments[i].authorId && c.parentId == st.comments[i].parentId
        && (images.None? ==> c.images == st.comments[i].images)
        && (images == Some([]) ==> c.images == JNull)
        && (images.Some? && images.value != [] ==> c.images == JArray(images.value))
    ensures st'.blogs == st.blogs && st'.objects == st.objects
  {
    var updateData := CommentPatch(content, KeepImages);
    if images.Some? {
      updateData := updateData.(images := if |images.value| > 0 then SetImages(images.value) else ClearImages);
    }
    assert updateData == UpdatePayload(content, images);
    var res := Execute(st, UpdateCommentRows(id, updateData));
    st' := res.0;
    PatchedComments(st, id, updateData);
    forall i | 0 <= i < |st.comments| && st.comments[i].id == id {
      PatchedRow(st.comments[i], content, images);
    }
    if res.1.Err? {
      return st', Err(res.1.message);
    }
    var updated := Filter((c: CommentRow) => c.id == id, st.comments);
    if |updated| == 0 {
      assert !HasComment(st, id);
      return st', Err("Update did not affect any rows");
    }
    assert updated[0] in updated;
    r := Ok(());
  }

  /** `deleteComment`: deletes the rows with the id; the comment's images are
      left in the bucket. */
  function DeleteComment(st: Store, id: string): (r: (Store, Result<()>))
    ensures r.0.sent == st.sent + [DeleteCommentRows(id)]
    ensures r.1.Err? <==> DeleteCommentRows(id) in st.faults
    ensures r.1.Err? ==> r.1.message == st.faults[DeleteCommentRows(id)] && r.0.comments == st.comments
    ensures r.1.Ok? ==> forall c :: c in r.0.comments <==> c in st.comments && c.id != id
    ensures r.1.Ok? ==> IsSubseq(r.0.comments, st.comments)
    ensures r.0.objects == st.objects && r.0.blogs == st.blogs
  {
    Execute(st, DeleteCommentRows(id))
  }
}
