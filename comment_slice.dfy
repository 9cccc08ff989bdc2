/** The comments slice of the client's state: the loaded comments, a loading
    flag and the last error, updated by the outcomes of the load, add and
    remove requests. */
module CommentSlice {
  import opened Wrappers
  import opened Seqs
  import opened Backend
  import opened CommentService

  datatype State = State(items: seq<Comment>, loading: bool, error: Option<string>)

  /** No comments, not loading, no error. */
  const Initial := State([], false, None)

  /** The actions the slice handles, and `Other` for every action it ignores
      (such as the pending action of a removal). A rejected action carries the
      message its request failed with. */
  datatype Action =
    | LoadPending
    | LoadFulfilled(comments: seq<Comment>)
    | LoadRejected(message: string)
    | AddPending
    | AddFulfilled
    | AddRejected(message: string)
    | RemoveFulfilled(removedId: string)
    | RemoveRejected(message: string)
    | Other

  predicate IsAddAction(a: Action)
  {
    a.AddPending? || a.AddFulfilled? || a.AddRejected?
  }

  /** The state after one action. */
  function Reduce(s: State, a: Action): (t: State)
    ensures t.items != s.items ==> a.LoadFulfilled? || (a.RemoveFulfilled? && a.removedId != "")
    ensures t.error == if a.LoadRejected? || a.AddRejected? || a.RemoveRejected? then Some(a.message) else s.error
    ensures a.Other? ==> t == s
  {
    match a
    case LoadPending => s.(loading := true)
    case LoadFulfilled(cs) => s.(loading := false, items := cs)
    case LoadRejected(m) => s.(loading := false, error := Some(m))
    case AddPending => s.(loading := true)
    case AddFulfilled => s.(loading := false)
    case AddRejected(m) => s.(loading := false, error := Some(m))
    case RemoveFulfilled(id) =>
      if id != "" then s.(items := Filter((c: Comment) => c.row.id != id, s.items)) else s
    case RemoveRejected(m) => s.(error := Some(m))
    case Other => s
  }

  /** The state after a sequence of actions, oldest first. */
  function ReduceAll(s: State, trace: seq<Action>): State
    decreases |trace|
  {
    if trace == [] then s else ReduceAll(Reduce(s, trace[0]), trace[1..])
  }

  /** The message of the last rejected action of a trace, if any. */
  function LastError(trace: seq<Action>): (m: Option<string>)
    ensures m.Some? ==> exists a :: a in trace && (a.LoadRejected? || a.AddRejected? || a.RemoveRejected?) && a.message == m.value
  {
    if trace == [] then None
    else
      var a := trace[|trace| - 1];
      if a.LoadRejected? || a.AddRejected? || a.RemoveRejected? then Some(a.message)
      else LastError(trace[..|trace| - 1])
  }

  /** Running a trace of two parts runs the first part, then the second. */
  lemma {:induction false} ReduceAllAppend(s: State, t: seq<Action>, u: seq<Action>)
    ensures ReduceAll(s, t + u) == ReduceAll(ReduceAll(s, t), u)
    decreases |t|
  {
    if t == [] {
      assert t + u == u;
    } else {
      assert (t + u)[1..] == t[1..] + u;
      ReduceAllAppend(Reduce(s, t[0]), t[1..], u);
    }
  }

  /** `loadComments.fulfilled` replaces the items by the payload and ends loading. */
  lemma LoadReplacesItems(s: State, cs: seq<Comment>)
    ensures Reduce(s, LoadFulfilled(cs)).items == cs
    ensures !Reduce(s, LoadFulfilled(cs)).loading
    ensures Reduce(s, LoadFulfilled(cs)).error == s.error
  {
  }

  /** `removeComment.fulfilled` keeps, in order, exactly the items whose id
      differs from the payload, each as often as before; an empty payload
      changes nothing. Loading and error are left as they were. */
  lemma RemoveFiltersById(s: State, id: string)
    ensures var t := Reduce(s, RemoveFulfilled(id));
      && t.loading == s.loading && t.error == s.error
      && (id == "" ==> t.items == s.items)
      && (id != "" ==> forall c :: c in t.items <==> c in s.items && c.row.id != id)
      && (id != "" ==> forall c :: multiset(t.items)[c] == if c.row.id != id then multiset(s.items)[c] else 0)
      && IsSubseq(t.items, s.items)
  {
    if id == "" {
      IsSubseqRefl(s.items);
    }
  }

  /** `removeComment.rejected` sets the error and changes nothing else. */
  lemma RemoveRejectedOnlySetsError(s: State, m: string)
    ensures Reduce(s, RemoveRejected(m)) == s.(error := Some(m))
  {
  }

  /** The add cases never touch the items, and no trace of add actions does. */
  lemma {:induction false} AddKeepsItems(s: State, trace: seq<Action>)
    requires forall a :: a in trace ==> IsAddAction(a)
    ensures ReduceAll(s, trace).items == s.items
    decreases |trace|
  {
    if trace != [] {
      assert trace[0] in trace;
      assert forall a :: a in trace[1..] ==> a in trace;
      AddKeepsItems(Reduce(s, trace[0]), trace[1..]);
    }
  }

  /** After any trace, the error is the message of the last rejection in it, or
      the error before the trace when there was none: no case clears it. */
  lemma {:induction false} ErrorIsLastRejection(s: State, trace: seq<Action>)
    ensures ReduceAll(s, trace).error == if LastError(trace).Some? then LastError(trace) else s.error
    decreases |trace|
  {
    if trace != [] {
      var init, last := trace[..|trace| - 1], trace[|trace| - 1];
      assert trace == init + [last];
      ReduceAllAppend(s, init, [last]);
      ErrorIsLastRejection(s, init);
      assert ReduceAll(ReduceAll(s, init), [last]) == Reduce(ReduceAll(s, init), last);
      RejectionSetsError(ReduceAll(s, init), last);
    }
  }

  /** A rejection sets the error to its message; every other action keeps it. */
  lemma RejectionSetsError(s: State, a: Action)
    ensures Reduce(s, a).error ==
      if a.LoadRejected? || a.AddRejected? || a.RemoveRejected? then Some(a.message) else s.error
  {
  }

  /** Once set, the error stays set whatever follows. */
  lemma ErrorNeverCleared(s: State, trace: seq<Action>)
    requires s.error.Some?
    ensures ReduceAll(s, trace).error.Some?
  {
    ErrorIsLastRejection(s, trace);
  }

  // ---------------------------------------------------------------- requests

  /** `loadComments`: the action the load request ends with. */
  function LoadComments(st: Store, blogId: string): (a: Action)
    ensures a.LoadFulfilled? <==> SelectComments(blogId) !in st.faults
    ensures a.LoadFulfilled? ==> a.comments == FetchComments(st, blogId).value
    ensures a.LoadRejected? ==> a.message == st.faults[SelectComments(blogId)]
    ensures a.LoadFulfilled? || a.LoadRejected?
  {
    match FetchComments(st, blogId)
    case Ok(cs) => LoadFulfilled(cs)
    case Err(m) => LoadRejected(m)
  }

  /** `addComment`: inserts the comment or reply, then ends with an action that
      carries no comment. */
  function AddComment(st: Store, id: string, now: int, blogId: string, authorId: string, content: string,
                      parentId: Option<string>, images: Option<seq<string>>): (r: (Store, Action))
    ensures r.0 == CreateComment(st, id, now, blogId, authorId, content, parentId, images).0
    ensures r.1.AddFulfilled? <==> CreateComment(st, id, now, blogId, authorId, content, parentId, images).1.Ok?
    ensures r.1.AddFulfilled? || r.1.AddRejected?
  {
    var res := CreateComment(st, id, now, blogId, authorId, content, parentId, images);
    (res.0, if res.1.Ok? then AddFulfilled else AddRejected(res.1.message))
  }

  /** `removeComment`: deletes the comment and ends with its id, or with the
      store's error. */
  function RemoveComment(st: Store, id: string): (r: (Store, Action))
    ensures r.0 == DeleteComment(st, id).0
    ensures r.1 == if DeleteCommentRows(id) in st.faults then RemoveRejected(st.faults[DeleteCommentRows(id)])
                   else RemoveFulfilled(id)
  {
    var res := DeleteComment(st, id);
    (res.0, if res.1.Ok? then RemoveFulfilled(id) else RemoveRejected(res.1.message))
  }

  // ---------------------------------------------------------------- the slice as an object

  /** The slice's state held in place; `Dispatch` applies one action to it. */
  class CommentStore {
    var items: seq<Comment>
    var loading: bool
    var error: Option<string>

    function Snapshot(): State
      reads this
    {
      State(items, loading, error)
    }

    constructor()
      ensures Snapshot() == Initial
    {
      items := [];
      loading := false;
      error := None;
    }

    method Dispatch(a: Action)
      modifies this
      ensures Snapshot() == Reduce(old(Snapshot()), a)
    {
      match a
      case LoadPending =>
        loading := true;
      case LoadFulfilled(cs) =>
        loading := false;
        items := cs;
      case LoadRejected(m) =>
        loading := false;
        error := Some(m);
      case AddPending =>
        loading := true;
      case AddFulfilled =>
        loading := false;
      case AddRejected(m) =>
        loading := false;
        error := Some(m);
      case RemoveFulfilled(id) =>
        if id != "" {
          items := Filter((c: Comment) => c.row.id != id, items);
        }
      case RemoveRejected(m) =>
        error := Some(m);
      case Other =>
    }
  }
}
