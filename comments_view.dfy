/** The comments panel of a post: the two-level tree it shows (top-level
    comments, each followed by its replies), who sees a delete control, and the
    handlers that post, reply and delete. */
module CommentsView {
  import opened Wrappers
  import opened Seqs
  import opened Text
  import opened Backend
  import opened CommentService
  import CommentSlice

  /** `!c.parent_id`: no parent, or an empty parent id. */
  predicate IsTopLevel(c: Comment)
  {
    c.row.parentId.None? || c.row.parentId.value == ""
  }

  /** `c.parent_id === parent.id`. */
  predicate IsReplyTo(c: Comment, parent: Comment)
  {
    c.row.parentId == Some(parent.row.id)
  }

  /** `user?.id === authorId`: only a signed-in author owns a comment. */
  predicate Owns(user: Option<string>, authorId: string)
  {
    user == Some(authorId)
  }

  /** The top-level comments, in list order. */
  function TopLevel(comments: seq<Comment>): (r: seq<Comment>)
    ensures forall c :: c in r <==> c in comments && IsTopLevel(c)
    ensures forall c :: multiset(r)[c] == if IsTopLevel(c) then multiset(comments)[c] else 0
    ensures IsSubseq(r, comments)
  {
    Filter((c: Comment) => IsTopLevel(c), comments)
  }

  /** The replies to `parent`, in list order. */
  function Replies(comments: seq<Comment>, parent: Comment): (r: seq<Comment>)
    ensures forall c :: c in r <==> c in comments && IsReplyTo(c, parent)
    ensures forall c :: multiset(r)[c] == if IsReplyTo(c, parent) then multiset(comments)[c] else 0
    ensures IsSubseq(r, comments)
  {
    Filter((c: Comment) => IsReplyTo(c, parent), comments)
  }

  datatype ReplyItem = ReplyItem(comment: Comment, canDelete: bool)

  /** A top-level comment as shown: the comment, whether its delete control is
      shown, and its replies. */
  datatype Thread = Thread(comment: Comment, canDelete: bool, replies: seq<ReplyItem>)

  function ReplyItems(replies: seq<Comment>, user: Option<string>): (r: seq<ReplyItem>)
    ensures |r| == |replies|
    ensures forall j :: 0 <= j < |r| ==> r[j].comment == replies[j]
    ensures forall j :: 0 <= j < |r| ==> (r[j].canDelete <==> Owns(user, replies[j].row.authorId))
  {
    seq(|replies|, j requires 0 <= j < |replies| => ReplyItem(replies[j], Owns(user, replies[j].row.authorId)))
  }

  /** One thread per comment of `tops`, each with its replies from `comments`. */
  function Threads(tops: seq<Comment>, comments: seq<Comment>, user: Option<string>): (r: seq<Thread>)
    ensures |r| == |tops|
    ensures forall i :: 0 <= i < |r| ==> r[i].comment == tops[i]
    ensures forall th :: th in r ==> (th.canDelete <==> Owns(user, th.comment.row.authorId))
    ensures forall th, rp :: th in r && rp in th.replies ==> (rp.canDelete <==> Owns(user, rp.comment.row.authorId))
  {
    if tops == [] then []
    else
      var t := tops[0];
      var th := Thread(t, Owns(user, t.row.authorId), ReplyItems(Replies(comments, t), user));
      assert forall rp :: rp in th.replies ==> (rp.canDelete <==> Owns(user, rp.comment.row.authorId));
      [th] + Threads(tops[1..], comments, user)
  }

  /** Each thread holds the replies to its own comment, in list order. */
  lemma {:induction false} ThreadReplies(tops: seq<Comment>, comments: seq<Comment>, user: Option<string>)
    ensures var r := Threads(tops, comments, user);
      forall i :: 0 <= i < |r| ==> r[i].replies == ReplyItems(Replies(comments, tops[i]), user)
    decreases |tops|
  {
    if tops != [] {
      ThreadReplies(tops[1..], comments, user);
      var r := Threads(tops, comments, user);
      assert r[1..] == Threads(tops[1..], comments, user);
      forall i | 1 <= i < |r| ensures r[i].replies == ReplyItems(Replies(comments, tops[i]), user) {
        assert r[i] == r[1..][i - 1] && tops[i] == tops[1..][i - 1];
      }
    }
  }

  /** The tree the panel renders: nothing but the loading notice while the
      comments load (and the "be the first" notice when there is no top-level
      comment); otherwise one thread per top-level comment, in list order, each
      with its replies in list order. */
  function Render(comments: seq<Comment>, loading: bool, user: Option<string>): (r: seq<Thread>)
    ensures loading ==> r == []
    ensures !loading ==> |r| == |TopLevel(comments)|
    ensures !loading ==> forall i :: 0 <= i < |r| ==>
      r[i].comment == TopLevel(comments)[i] && r[i].replies == ReplyItems(Replies(comments, r[i].comment), user)
  {
    if loading then []
    else
      ThreadReplies(TopLevel(comments), comments, user);
      Threads(TopLevel(comments), comments, user)
  }

  /** Every comment the tree shows, in display order. */
  function Shown(threads: seq<Thread>): seq<Comment>
  {
    if threads == [] then []
    else [threads[0].comment] + ReplyComments(threads[0].replies) + Shown(threads[1..])
  }

  function ReplyComments(items: seq<ReplyItem>): (r: seq<Comment>)
    ensures |r| == |items| && forall j :: 0 <= j < |r| ==> r[j] == items[j].comment
  {
    seq(|items|, j requires 0 <= j < |items| => items[j].comment)
  }

  /** Each of `tops` followed by its replies. */
  function Flat(tops: seq<Comment>, comments: seq<Comment>): seq<Comment>
  {
    if tops == [] then [] else [tops[0]] + Replies(comments, tops[0]) + Flat(tops[1..], comments)
  }

  lemma {:induction false} ShownIsFlat(tops: seq<Comment>, comments: seq<Comment>, user: Option<string>)
    ensures Shown(Threads(tops, comments, user)) == Flat(tops, comments)
    decreases |tops|
  {
    if tops != [] {
      var r := Threads(tops, comments, user);
      assert r[1..] == Threads(tops[1..], comments, user);
      assert ReplyComments(r[0].replies) == Replies(comments, tops[0]);
      ShownIsFlat(tops[1..], comments, user);
    }
  }

  lemma {:induction false} FlatMembers(tops: seq<Comment>, comments: seq<Comment>, x: Comment)
    ensures x in Flat(tops, comments) <==> x in tops || (x in comments && exists t :: t in tops && IsReplyTo(x, t))
    decreases |tops|
  {
    if tops != [] {
      FlatMembers(tops[1..], comments, x);
      assert forall t :: t in tops <==> t == tops[0] || t in tops[1..];
    }
  }

  /** The tree shows exactly the top-level comments and the replies to a
      top-level comment: a reply to a reply, or to a comment that is not
      loaded, is shown nowhere. */
  lemma ShownExactly(comments: seq<Comment>, loading: bool, user: Option<string>, x: Comment)
    ensures x in Shown(Render(comments, loading, user)) <==>
      !loading && x in comments && (IsTopLevel(x) || exists t :: t in comments && IsTopLevel(t) && IsReplyTo(x, t))
  {
    if !loading {
      var tops := TopLevel(comments);
      ShownIsFlat(tops, comments, user);
      FlatMembers(tops, comments, x);
    }
  }

  /** Some comment of `tops` is the parent of `x`. */
  predicate HasParentIn(x: Comment, tops: seq<Comment>)
  {
    exists t :: t in tops && IsReplyTo(x, t)
  }

  /** A top-level comment is shown once per occurrence in `tops`: it is no
      one's reply, since the ids of `tops` are not empty. */
  lemma {:induction false} FlatCountTop(tops: seq<Comment>, comments: seq<Comment>, x: Comment)
    requires forall t :: t in tops ==> t.row.id != ""
    requires IsTopLevel(x)
    ensures multiset(Flat(tops, comments))[x] == multiset(tops)[x]
    decreases |tops|
  {
    if tops != [] {
      var t, rest := tops[0], tops[1..];
      assert tops == [t] + rest;
      FlatCountTop(rest, comments, x);
      assert !IsReplyTo(x, t);
      assert multiset(Flat(tops, comments))[x] ==
        multiset([t])[x] + multiset(Replies(comments, t))[x] + multiset(Flat(rest, comments))[x];
    }
  }

  /** A reply is shown as often as it is loaded when its parent is among
      `tops`, and not at all otherwise, provided the ids of `tops` are distinct. */
  lemma {:induction false} FlatCountReply(tops: seq<Comment>, comments: seq<Comment>, x: Comment)
    requires forall t :: t in tops ==> IsTopLevel(t)
    requires DistinctBy(tops, (c: Comment) => c.row.id)
    requires !IsTopLevel(x)
    ensures multiset(Flat(tops, comments))[x] == if HasParentIn(x, tops) then multiset(comments)[x] else 0
    decreases |tops|
  {
    if tops != [] {
      var t, rest := tops[0], tops[1..];
      assert tops == [t] + rest;
      DistinctByTail(tops, (c: Comment) => c.row.id);
      FlatCountReply(rest, comments, x);
      assert t in tops && x != t;
      assert Flat(tops, comments) == [t] + Replies(comments, t) + Flat(rest, comments);
      assert multiset(Flat(tops, comments))[x] ==
        multiset(Replies(comments, t))[x] + multiset(Flat(rest, comments))[x];
      if IsReplyTo(x, t) {
        assert HasParentIn(x, tops);
        forall u | u in rest ensures !IsReplyTo(x, u) {
          var k :| 0 <= k < |rest| && rest[k] == u;
          assert tops[k + 1] == u;
        }
      } else {
        assert HasParentIn(x, tops) == HasParentIn(x, rest);
      }
    }
  }

  /** When comment ids are unique and non-empty, no comment is shown twice. */
  lemma ShownAtMostOnce(comments: seq<Comment>, loading: bool, user: Option<string>, x: Comment)
    requires DistinctBy(comments, (c: Comment) => c.row.id)
    requires forall c :: c in comments ==> c.row.id != ""
    ensures multiset(Shown(Render(comments, loading, user)))[x] <= 1
  {
    if loading {
      return;
    }
    var tops := TopLevel(comments);
    ShownIsFlat(tops, comments, user);
    FilterDistinctBy((c: Comment) => IsTopLevel(c), comments, (c: Comment) => c.row.id);
    if IsTopLevel(x) {
      FlatCountTop(tops, comments, x);
    } else {
      FlatCountReply(tops, comments, x);
    }
    DistinctByOccursOnce(tops, (c: Comment) => c.row.id, x);
    DistinctByOccursOnce(comments, (c: Comment) => c.row.id, x);
  }

  /** The delete control is shown on a comment or reply exactly when the
      signed-in user wrote it. */
  lemma DeleteControlOnlyForAuthor(comments: seq<Comment>, loading: bool, user: Option<string>)
    ensures forall th :: th in Render(comments, loading, user) ==> (th.canDelete <==> user.Some? && user.value == th.comment.row.authorId)
    ensures forall th, rp :: th in Render(comments, loading, user) && rp in th.replies ==>
      (rp.canDelete <==> user.Some? && user.value == rp.comment.row.authorId)
  {
    var r := Render(comments, loading, user);
    forall th | th in r ensures th.canDelete <==> user.Some? && user.value == th.comment.row.authorId {
      assert th.canDelete <==> Owns(user, th.comment.row.authorId);
    }
    forall th, rp | th in r && rp in th.replies
      ensures rp.canDelete <==> user.Some? && user.value == rp.comment.row.authorId
    {
      assert rp.canDelete <==> Owns(user, rp.comment.row.authorId);
    }
  }

  // ---------------------------------------------------------------- handlers

  /** `!user || !text.trim()` guards posting: a signed-in user and some
      non-blank text are needed. */
  predicate CanPost(user: Option<string>, text: string)
  {
    user.Some? && Trim(text) != []
  }

  /** Posting needs exactly a signed-in user and text that is not all white space. */
  lemma CanPostIffNotBlank(user: Option<string>, text: string)
    ensures CanPost(user, text) <==> user.Some? && !IsBlank(text)
  {
    TrimEmptyIffBlank(text);
  }

  /** What a handler asks of the comments slice, in order. `AddCommentOf` sends
      the text as typed, untrimmed. */
  datatype Dispatched =
    | LoadCommentsOf(blogId: string)
    | AddCommentOf(blogId: string, authorId: string, content: string, parentId: Option<string>)
    | RemoveCommentOf(id: string)

  /** The panel's own state: the new-comment text, the comment being replied
      to, and the reply text. */
  class CommentsPanel {
    const blogId: string
    var newComment: string
    var replyTo: Option<string>
    var replyContent: string

    constructor(blogId: string)
      ensures this.blogId == blogId && newComment == "" && replyTo == None && replyContent == ""
    {
      this.blogId := blogId;
      newComment := "";
      replyTo := None;
      replyContent := "";
    }

    /** The load the panel dispatches when it is shown for a post. */
    method Mount() returns (sent: seq<Dispatched>)
      ensures sent == [LoadCommentsOf(blogId)]
    {
      sent := [LoadCommentsOf(blogId)];
    }

    method EditNewComment(text: string)
      modifies this
      ensures newComment == text && replyTo == old(replyTo) && replyContent == old(replyContent)
    {
      newComment := text;
    }

    method EditReply(text: string)
      modifies this
      ensures replyContent == text && replyTo == old(replyTo) && newComment == old(newComment)
    {
      replyContent := text;
    }

    /** The Reply button opens the reply box of one comment. */
    method OpenReply(id: string)
      modifies this
      ensures replyTo == Some(id) && newComment == old(newComment) && replyContent == old(replyContent)
    {
      replyTo := Some(id);
    }

    /** The Cancel button closes the reply box and keeps the reply text. */
    method CancelReply()
      modifies this
      ensures replyTo == None && newComment == old(newComment) && replyContent == old(replyContent)
    {
      replyTo := None;
    }

    /** `handlePostComment`: without a user or with blank text, nothing happens;
      otherwise a top-level comment is added, the text box is emptied (whether
      or not the add succeeded) and the comments are reloaded. */
    method PostComment(user: Option<string>) returns (sent: seq<Dispatched>)
      modifies this
      ensures !CanPost(user, old(newComment)) ==> sent == [] && newComment == old(newComment)
      ensures CanPost(user, old(newComment)) ==>
        && sent == [AddCommentOf(blogId, user.value, old(newComment), None), LoadCommentsOf(blogId)]
        && newComment == ""
      ensures replyTo == old(replyTo) && replyContent == old(replyContent)
    {
      if user.None? || Trim(newComment) == [] {
        return [];
      }
      sent := [AddCommentOf(blogId, user.value, newComment, None)];
      newComment := "";
      sent := sent + [LoadCommentsOf(blogId)];
    }

    /** `handlePostReply`: without a user or with blank reply text, nothing
      happens; otherwise the reply is added under `parentId`, the reply text is
      emptied, the reply box closed and the comments reloaded. */
    method PostReply(user: Option<string>, parentId: string) returns (sent: seq<Dispatched>)
      modifies this
      ensures !CanPost(user, old(replyContent)) ==>
        sent == [] && replyContent == old(replyContent) && replyTo == old(replyTo)
      ensures CanPost(user, old(replyContent)) ==>
        && sent == [AddCommentOf(blogId, user.value, old(replyContent), Some(parentId)), LoadCommentsOf(blogId)]
        && replyContent == "" && replyTo == None
      ensures newComment == old(newComment)
    {
      if user.None? || Trim(replyContent) == [] {
        return [];
      }
      sent := [AddCommentOf(blogId, user.value, replyContent, Some(parentId))];
      replyContent := "";
      replyTo := None;
      sent := sent + [LoadCommentsOf(blogId)];
    }

    /** `handleDeleteComment`: nothing without the user's confirmation;
      otherwise the removal is dispatched and runs against the store, and the
      comments are reloaded only when it was fulfilled (`unwrap` throws on a
      rejected removal before the reload). */
    method DeleteComment(st: Store, id: string, confirmed: bool) returns (st': Store, sent: seq<Dispatched>)
      ensures !confirmed ==> st' == st && sent == []
      ensures confirmed ==> st' == CommentSlice.RemoveComment(st, id).0
      ensures confirmed && DeleteCommentRows(id) !in st.faults ==> sent == [RemoveCommentOf(id), LoadCommentsOf(blogId)]
      ensures confirmed && DeleteCommentRows(id) in st.faults ==> sent == [RemoveCommentOf(id)]
    {
      if !confirmed {
        return st, [];
      }
      sent := [RemoveCommentOf(id)];
      var res := CommentSlice.RemoveComment(st, id);
      st' := res.0;
      if !res.1.RemoveFulfilled? {
        return;
      }
      sent := sent + [LoadCommentsOf(blogId)];
    }
  }

  /** A top-level comment posted from the panel is stored without a parent,
      and a reply under its parent, since a comment id is never empty. */
  lemma PostedParentStored(d: Dispatched, id: string, now: int)
    requires d.AddCommentOf?
    requires d.parentId.Some? ==> d.parentId.value != ""
    ensures NewCommentRow(id, now, d.blogId, d.authorId, d.content, d.parentId, None).parentId == d.parentId
  {
  }
}
