# MyBlog client core in Dafny

This project models the logic of the MyBlog web client, a React and Redux application on top of a
hosted Postgres database and an object-storage bucket (`blog-images`). It covers:

- **blog service**: the paged list of posts with author names, a single post with its `images`
  column normalised, creating and updating a post, uploading images under fresh keys, turning
  public image URLs back into storage keys, and deleting a post together with its comments' images
  and its own images;
- **comment service**: a post's comments oldest first with author names, the row a new comment or
  reply is stored as, updating a comment with its "no row affected" failure, and deleting one;
- **comments panel**: the two-level tree it renders, who sees a delete control, and the post, reply
  and delete handlers with their guards and state resets;
- **the three Redux slices** (`blog`, `comments`, `auth`): each reducer is a function
  `Reduce(state, action)`, and a class holds the same fields and applies an action in place with
  `Dispatch`; the thunks map a store outcome to the action they end with;
- **the two paged lists**: the profile page (ten of the user's own posts per page, clamped Prev/Next)
  and the list of all posts (five per page, unclamped Prev/Next).

The database and the bucket are one value, `Backend.Store`. It holds the bucket's object keys, the
public URL base, the `blogs` and `comments` rows in table order, the profile names, the requests the
store rejects (`faults`, each with its error message) and the log of writes sent, oldest first.
Service calls take the store and return the new store with their result. So "no storage call is
made", "the row is deleted only after both removals" and "a failed upload leaves earlier files in
the bucket" are statements about `sent` and `objects`. The generated UUIDs, `JSON.parse`, the
current time and the authentication service's answers are parameters.

Modules: `Wrappers` (Option, Result), `Seqs` (filter, insertion sort, subsequence), `Text` (split,
last piece, trim), `Backend`, `Listing` (window, page count, excerpt), `BlogService`,
`CommentService`, `CommentSlice`, `CommentsView`, `BlogSlice`, `AuthSlice`, `Profile`,
`BlogsPage`.

Behaviour that looks unintended is modelled as written, and lemmas show what it means:

- `login.fulfilled` does not end loading (`AuthSlice.LoginFulfilledKeepsLoading`).
- `removeBlog.fulfilled` drops the first post shown, whichever post was deleted
  (`BlogSlice.RemoveKeepsDeletedPost`).
- `addBlog` and `editBlog` forward no images (`BlogSlice.AddBlog`, `BlogSlice.EditBlog`).
- `removeBlog` never removes the post's own images (`BlogSlice.RemoveBlogKeepsPostImages`).
- With no posts, Next on the list of all posts is never disabled (`BlogsPage.NextUnboundedWithoutPosts`).
- A failed image removal ends `deleteBlog` with that error before the row is deleted
  (`BlogService.CascadeStopsAtFirstError`).
- `updateBlog` has no reconciliation of removed images: it replaces the `images` column only when a
  list is given (`BlogService.UpdateBlog`), and `editBlog` never gives one (`BlogSlice.EditBlog`).
- `deleteComment` deletes the row only and leaves the comment's images in the bucket
  (`CommentService.DeleteComment`).
- No service checks ownership, an empty title or that a parent is a top-level comment of the same
  post. A reply to a reply is stored and then shown nowhere (`CommentsView.ShownExactly`).

## Model

| member | source | states |
|---|---|---|
| Listing.Window | src/features/blog/blogService.ts:7-10 | the inclusive window of a page spans exactly `pageSize` rows and page 1 starts at row 0 |
| Listing.WindowsTile | src/features/blog/blogService.ts:7-10 | consecutive pages request adjacent windows, so no row is skipped or repeated |
| Listing.RowOnItsPage | src/features/blog/blogService.ts:7-10 | every row lies in the window of page `k / pageSize + 1` |
| Listing.PageCount | src/pages/Blogs.tsx:29 | `ceil(total/pageSize)` is the fewest pages that hold `total` rows |
| Listing.PageCountZero | src/pages/Blogs.tsx:29 | there are no pages exactly when there are no rows |
| Listing.PageCountAtMostOne | src/pages/Profile.tsx:78 | at most one page exactly when the rows fit in one page |
| Listing.Excerpt | src/pages/Blogs.tsx:64 | the excerpt is the first 100 characters, or all of a shorter text |
| Text.Split | src/features/blog/blogService.ts:200 | `split` yields at least one piece and no piece contains the separator |
| Text.JoinSplit | src/features/blog/blogService.ts:200 | joining the pieces with the separator gives the text back |
| Text.LastPieceIsTail | src/features/blog/blogService.ts:117 | `split('.').pop()` is a suffix of the name holding no dot; when the name has a dot, a dot comes right before it; the whole name when it has no dot |
| Text.Trim | src/features/comments/Comments.tsx:26 | the trimmed text is no longer than the text and neither starts nor ends with white space |
| Text.TrimIsSlice | src/features/comments/Comments.tsx:26 | the trimmed text is the slice of the text between a blank prefix and a blank suffix |
| Text.TrimEmptyIffBlank | src/features/comments/Comments.tsx:26 | `trim()` gives the empty string exactly for text made only of white space |
| Backend.AuthorName | src/features/blog/blogService.ts:25 | the joined profile's name, or `Unknown` when the profile or its name is missing |
| Backend.NewestFirst | src/features/blog/blogService.ts:17 | the rows are a permutation of the input, in descending `created_at` order |
| Backend.ByAuthor | src/pages/Profile.tsx:55 | exactly the rows of the author, or all rows without a filter |
| Backend.BlogWindow | src/features/blog/blogService.ts:16-17 | row `k` of the window is row `from + k` of the ordered rows; empty when the window starts past the end or is empty; at most a window's worth, full when enough rows follow |
| Backend.ReadBlogs | src/features/blog/blogService.ts:13-20 | fails on a store error (or a negative start, see below); otherwise exactly the window of the author's rows sorted newest first, and the exact count |
| Backend.ReadBlogsRows | src/features/blog/blogService.ts:13-20 | row `k` of a successful read is row `from + k` of the author's rows, newest first |
| Backend.ReadBlog | src/features/blog/blogService.ts:34-41 | `.single()` fails unless exactly one row has the id, and yields that row |
| Backend.CommentsOf | src/features/blog/blogService.ts:150-153 | exactly the post's comment rows, in table order |
| Backend.ReadComments | src/features/blog/blogService.ts:150-155 | the post's comment rows, or the store's error |
| Backend.ReadCommentsOldestFirst | src/features/comments/commentService.ts:16-22 | the post's comment rows as a permutation, in ascending `created_at` order |
| Backend.ReadProfile | src/features/auth/authSlice.ts:89-93 | `maybeSingle()` yields no row, or the row's nullable name, or the store's error |
| Backend.Execute | src/features/blog/blogService.ts:178-179 | a write is logged; it fails with the store's error and changes nothing, or takes effect |
| Backend.RunPlan | src/features/blog/blogService.ts:167-179 | awaiting the writes one after the other never changes which requests the store rejects or the public URL base |
| Backend.RunPlanOutcome | src/features/blog/blogService.ts:167-179 | a sequence of writes reaches its end exactly when none is rejected, else fails with the first rejection |
| Backend.RunPlanSent | src/features/blog/blogService.ts:167-179 | the writes sent are those up to and including the first rejected one |
| Backend.RemovalsRemove | src/features/blog/blogService.ts:167-175 | removals never add an object and, when all are accepted, every key they name is gone |
| BlogService.FetchBlogs | src/features/blog/blogService.ts:4-30 | the query result of the page's window, each row with its author's name or `Unknown`, or the store's error |
| BlogService.FetchBlogsPage | src/features/blog/blogService.ts:7-17 | for page >= 1 without a store error: at most `pageSize` posts of the table, newest first, a full page when enough posts follow, and the count of all posts |
| BlogService.FetchBlogsPageRows | src/features/blog/blogService.ts:7-17 | post `i` of page `p` is post `(p-1)*pageSize + i` of all posts, newest first |
| BlogService.PostOnItsPage | src/features/blog/blogService.ts:7-17 | post `q*pageSize + m` of all posts, newest first, is entry `m` of page `q + 1` |
| BlogService.FetchBlogById | src/features/blog/blogService.ts:33-67 | `images` is the stored array, the parsed string, or `[]` for a failed parse or a falsy or other value; the author name is the profile's or null |
| BlogService.NewBlogRow | src/features/blog/blogService.ts:73-78 | the inserted row has the given fields, and `images` is null exactly when no list is given |
| BlogService.CreateBlog | src/features/blog/blogService.ts:70-81 | one insert is sent; it adds the row, or fails with the store's error and adds nothing |
| BlogService.UpdateBlog | src/features/blog/blogService.ts:84-105 | every row with the id gets title, content and `updated_at`; its images are replaced only when a list is given; other rows stay; matching no row is no error |
| BlogService.PublicUrls | src/features/blog/blogService.ts:131-133 | one public URL per key, in key order |
| BlogService.StoragePath | src/features/blog/blogService.ts:197-207 | the text between the first `/blog-images/` and the next one or the end; none without the marker or for an empty segment |
| BlogService.StoragePathIsSecondPiece | src/features/blog/blogService.ts:200-203 | the key is exactly `parts[1]` of splitting the URL at the marker, when there is such a piece and it is non-empty |
| BlogService.UrlRoundTrip | src/features/blog/blogService.ts:197-207 | the key is read back from a public URL made from it |
| BlogService.ObjectKey | src/features/blog/blogService.ts:117-120 | the key is the user id, a slash, the UUID, a dot and the extension, in that order |
| BlogService.ObjectKeySlashes | src/features/blog/blogService.ts:117-120 | `userId/uuid.ext` from slash-free parts has its only slash after the user id |
| BlogService.ObjectKeyHasNoMarker | src/features/blog/blogService.ts:117-120 | such a key is non-empty and never contains `/blog-images/` |
| BlogService.UploadedUrlsNameTheirKeys | src/features/blog/blogService.ts:117-139 | the URLs returned by an upload name exactly the uploaded keys, in order |
| BlogService.StoragePathsOfKeys | src/features/blog/blogService.ts:197-207 | URLs that each name a key give exactly those keys, in order |
| BlogService.StoragePaths | src/features/blog/blogService.ts:197-207 | the keys named by the URLs, each from some URL, none for URLs that name none |
| BlogService.Completed | src/features/blog/blogService.ts:114-140 | the number of leading files whose upload and URL lookup both succeed |
| BlogService.UploadBlogImages | src/features/blog/blogService.ts:108-144 | succeeds exactly when every file uploads and resolves, with one URL per file in file order; otherwise fails with the first error, and earlier uploads stay stored |
| BlogService.Removal | src/features/blog/blogService.ts:209-215 | at most one removal request, naming the keys of the URLs, and none when no URL names a key |
| BlogService.DeleteBlogImages | src/features/blog/blogService.ts:188-227 | no call for an empty list or when no URL names a key; otherwise one removal that clears every named key or fails; rows untouched |
| BlogService.CommentImages | src/features/blog/blogService.ts:157-165 | exactly the URLs in the `images` arrays of the rows, skipping non-array values |
| BlogService.CascadePlan | src/features/blog/blogService.ts:167-179 | the writes of a post deletion end with the deletion of the row |
| BlogService.CollectCommentImages | src/features/blog/blogService.ts:157-165 | the loop gathers, in row order, the array of every comment whose `images` column is an array |
| BlogService.RemoveImages | src/features/blog/blogService.ts:167-175 | a guarded `deleteBlogImages` call does what the removal plan for those URLs does, nothing when the list is empty |
| BlogService.DeleteBlog | src/features/blog/blogService.ts:147-185 | a comment-fetch error changes nothing; otherwise the comments' images are removed, then the post's, then the row, and the first error ends it |
| BlogService.CascadeAborts | src/features/blog/blogService.ts:167-184 | deletion never adds objects, and on any error the post rows are unchanged |
| BlogService.CascadeSteps | src/features/blog/blogService.ts:167-179 | the deletion is comment-image removal, then post-image removal, then the row deletion, stopping at the first error |
| BlogService.CascadeDeletesRow | src/features/blog/blogService.ts:177-179 | when all writes succeed, the rows left are exactly the other posts |
| BlogService.CascadeAfterCommentRemoval | src/features/blog/blogService.ts:167-170 | a successful deletion removed the comments' images first and put nothing back |
| BlogService.CommentImageListed | src/features/blog/blogService.ts:157-165 | each image of each comment of the post is collected |
| BlogService.CascadeClearsCommentImages | src/features/blog/blogService.ts:157-170 | after a successful deletion, no key named by a comment image remains |
| BlogService.CascadeClearsPostImages | src/features/blog/blogService.ts:172-175 | after a successful deletion, no key named by a given post image remains |
| BlogService.CascadeStopsAtFirstError | src/features/blog/blogService.ts:147-185 | the writes sent stop at the first rejection; success iff no write is rejected; the row deletion is sent only after both removals succeeded |
| CommentService.FetchComments | src/features/comments/commentService.ts:15-28 | the comments oldest first, each with its author's name or `Unknown`, or the store's error |
| CommentService.FetchCommentsOrder | src/features/comments/commentService.ts:16-27 | without an error: every comment of the post exactly as often as stored, no other, in ascending `created_at` |
| CommentService.NewCommentRow | src/features/comments/commentService.ts:37-43 | `parent_id` is kept exactly when it is non-empty; `images` is null exactly when no list is given |
| CommentService.CreateComment | src/features/comments/commentService.ts:31-46 | one insert; it adds the row or fails with the store's error |
| CommentService.UpdatePayload | src/features/comments/commentService.ts:50-54 | content always; images left out for no list, null for an empty list, the list otherwise |
| CommentService.UpdateComment | src/features/comments/commentService.ts:49-67 | fails with the store's error or `Update did not affect any rows` when no row has the id; otherwise the matching rows get the content and images asked for, and the others stay |
| CommentService.DeleteComment | src/features/comments/commentService.ts:70-73 | deletes exactly the rows with the id, keeps the rest in order, leaves the bucket unchanged, or fails with the store's error |
| CommentSlice.Reduce | src/features/comments/commentSlice.ts:64-89 | only a load or a removal of a non-empty id changes the items; the error is each rejection's message and is kept otherwise; other actions change nothing |
| CommentSlice.LoadReplacesItems | src/features/comments/commentSlice.ts:65-68 | `loadComments.fulfilled` replaces the items, ends loading and keeps the error |
| CommentSlice.RemoveFiltersById | src/features/comments/commentSlice.ts:81-85 | `removeComment.fulfilled` keeps exactly the items with another id, in order and with their multiplicity; an empty id changes nothing |
| CommentSlice.RemoveRejectedOnlySetsError | src/features/comments/commentSlice.ts:87-89 | `removeComment.rejected` sets the error and nothing else |
| CommentSlice.AddKeepsItems | src/features/comments/commentSlice.ts:74-79 | no trace of add actions changes the items |
| CommentSlice.ErrorIsLastRejection | src/features/comments/commentSlice.ts:64-89 | after any trace the error is the last rejection's message, or the earlier error |
| CommentSlice.ErrorNeverCleared | src/features/comments/commentSlice.ts:64-89 | once set, the error is never cleared |
| CommentSlice.LoadComments | src/features/comments/commentSlice.ts:18-27 | the load ends fulfilled with the fetched comments exactly when the fetch succeeds, else rejected with its message |
| CommentSlice.AddComment | src/features/comments/commentSlice.ts:30-43 | the insert is sent and the add ends fulfilled exactly when it succeeds |
| CommentSlice.RemoveComment | src/features/comments/commentSlice.ts:46-56 | the delete ends fulfilled with the id, or rejected with the store's error |
| CommentSlice.CommentStore.constructor | src/features/comments/commentSlice.ts:11-15 | no items, not loading, no error |
| CommentSlice.CommentStore.Dispatch | src/features/comments/commentSlice.ts:64-89 | the fields after an action are those `Reduce` gives |
| CommentsView.TopLevel | src/features/comments/Comments.tsx:48 | exactly the comments with a falsy parent id, in list order |
| CommentsView.Replies | src/features/comments/Comments.tsx:73 | exactly the comments whose parent id is the comment's id, in list order |
| CommentsView.ReplyItems | src/features/comments/Comments.tsx:107-117 | one entry per reply, with a delete control exactly when the user wrote it |
| CommentsView.Render | src/features/comments/Comments.tsx:48-73 | nothing while loading; otherwise one thread per top-level comment, in order, holding exactly its replies |
| CommentsView.Threads | src/features/comments/Comments.tsx:72-84 | one thread per top-level comment, in order, with its replies; delete controls exactly for the user's own comments |
| CommentsView.ShownIsFlat | src/features/comments/Comments.tsx:72-122 | the rendered tree lists each top-level comment followed by its replies |
| CommentsView.ThreadReplies | src/features/comments/Comments.tsx:72-73 | thread `i` holds exactly the replies to top-level comment `i` |
| CommentsView.ShownExactly | src/features/comments/Comments.tsx:48-73 | a comment is shown iff the list is not loading and it is top-level or replies to a top-level comment |
| CommentsView.ShownAtMostOnce | src/features/comments/Comments.tsx:48-73 | with unique non-empty ids, no comment is shown twice |
| CommentsView.DeleteControlOnlyForAuthor | src/features/comments/Comments.tsx:74-84 | the delete control shows exactly when the signed-in user's id is the author's |
| CommentsView.CanPostIffNotBlank | src/features/comments/Comments.tsx:26 | posting needs a user and text that is not all white space |
| CommentsView.CommentsPanel.constructor | src/features/comments/Comments.tsx:16-18 | both texts empty, no reply box open |
| CommentsView.CommentsPanel.Mount | src/features/comments/Comments.tsx:21-23 | showing the panel loads the post's comments |
| CommentsView.CommentsPanel.EditNewComment | src/features/comments/Comments.tsx:59 | typing sets the new-comment text only |
| CommentsView.CommentsPanel.EditReply | src/features/comments/Comments.tsx:94 | typing sets the reply text only |
| CommentsView.CommentsPanel.OpenReply | src/features/comments/Comments.tsx:83 | Reply opens the box of that comment only |
| CommentsView.CommentsPanel.CancelReply | src/features/comments/Comments.tsx:99 | Cancel closes the box and keeps the reply text |
| CommentsView.CommentsPanel.PostComment | src/features/comments/Comments.tsx:25-30 | nothing without a user or with blank text; else a top-level add, the text cleared, then a reload |
| CommentsView.CommentsPanel.PostReply | src/features/comments/Comments.tsx:32-38 | nothing without a user or with blank text; else a reply add, the reply text cleared and the box closed, then a reload |
| CommentsView.CommentsPanel.DeleteComment | src/features/comments/Comments.tsx:40-44 | nothing unless confirmed; else the store after the removal, and the reload is dispatched exactly when the store accepts the delete |
| CommentsView.PostedParentStored | src/features/comments/commentService.ts:41 | a posted reply is stored under its parent and a top-level post with no parent |
| BlogSlice.Reduce | src/features/blog/blogSlice.ts:64-99 | the page size never changes; the page changes only by `setPage`; `addBlog.fulfilled`, `editBlog.fulfilled` and unrelated actions change nothing |
| BlogSlice.ErrorText | src/features/blog/blogSlice.ts:82 | the thrown message when present and non-empty, else the fallback |
| BlogSlice.PageSizeFixed | src/features/blog/blogSlice.ts:26-99 | no action changes the page size, so it stays 5 |
| BlogSlice.SetPageOnlyPage | src/features/blog/blogSlice.ts:68-70 | `setPage` sets the page to the payload and nothing else |
| BlogSlice.LoadFulfilledEffect | src/features/blog/blogSlice.ts:75-79 | items become the data, total the count or 0, loading ends, the error is kept |
| BlogSlice.RemoveDropsFirst | src/features/blog/blogSlice.ts:84-86 | `removeBlog.fulfilled` keeps exactly the posts whose id differs from the first post's, in order; nothing else changes |
| BlogSlice.RemoveKeepsDeletedPost | src/features/blog/blogSlice.ts:84-86 | a deleted post other than the first stays listed and the first post goes |
| BlogSlice.RejectionMessages | src/features/blog/blogSlice.ts:80-95 | each rejection sets the message or its own default; only a load rejection ends loading |
| BlogSlice.LoadBlogs | src/features/blog/blogSlice.ts:35-39 | the load ends fulfilled with the fetched page exactly when the fetch succeeds |
| BlogSlice.AddBlog | src/features/blog/blogSlice.ts:41-48 | the created row never has images |
| BlogSlice.EditBlog | src/features/blog/blogSlice.ts:50-55 | an edit never changes any post's images |
| BlogSlice.RemoveBlog | src/features/blog/blogSlice.ts:57-62 | the post is deleted without its image list, and the action names no post |
| BlogSlice.RemoveBlogPlan | src/features/blog/blogSlice.ts:57-62 | the writes are the comment-image removal and the row deletion only |
| BlogSlice.RemoveBlogKeepsPostImages | src/features/blog/blogSlice.ts:57-62 | every object no comment image names stays in the bucket |
| BlogSlice.BlogStore.constructor | src/features/blog/blogSlice.ts:26-33 | no posts, total 0, page 1 of 5, not loading, no error |
| BlogSlice.BlogStore.Dispatch | src/features/blog/blogSlice.ts:64-99 | the fields after an action are those `Reduce` gives |
| AuthSlice.Reduce | src/features/auth/authSlice.ts:164-222 | `hydrated` holds after an action iff it held before or the action is a logout or restore outcome; `login.fulfilled` and unrelated actions leave loading as it was; unrelated actions change nothing |
| AuthSlice.HydratedOnlyRises | src/features/auth/authSlice.ts:196-221 | `hydrated` holds after a trace iff it held before or the trace has a logout or restore outcome |
| AuthSlice.PendingClearsError | src/features/auth/authSlice.ts:168-185 | register and login pending set loading and clear the error only |
| AuthSlice.LoginFulfilledKeepsLoading | src/features/auth/authSlice.ts:186-189 | `login.fulfilled` sets the user and clears the error, but loading stays set |
| AuthSlice.LoginRejectedMessage | src/features/auth/authSlice.ts:190-193 | the payload, or `Invalid credentials` when it is missing or empty; loading ends |
| AuthSlice.LogoutClears | src/features/auth/authSlice.ts:199-204 | no user, no error, not loading, restored |
| AuthSlice.HydrateOutcomes | src/features/auth/authSlice.ts:213-221 | the payload becomes the user; both outcomes end loading and mark the session restored |
| AuthSlice.ResolveProfileName | src/features/auth/authSlice.ts:84-101 | the stored name, or `Unknown` when missing, null or on a lookup error |
| AuthSlice.Register | src/features/auth/authSlice.ts:29-69 | `Registration failed` without a user and before any insert; else the profile insert, then the user or the store's error |
| AuthSlice.RegisteredNameResolves | src/features/auth/authSlice.ts:47-62 | after a registration that ends well, the profile name read back is the given name |
| AuthSlice.Login | src/features/auth/authSlice.ts:72-110 | a failed sign-in rejects with no payload; else the user with the resolved name |
| AuthSlice.FailedLoginMessage | src/features/auth/authSlice.ts:190-193 | a login rejected by a throw always shows `Invalid credentials` |
| AuthSlice.Hydrate | src/features/auth/authSlice.ts:113-152 | null without a session; else the session's user with the resolved name |
| AuthSlice.Logout | src/features/auth/authSlice.ts:155-157 | fulfilled exactly when signing out raises no error |
| AuthSlice.AuthStore.constructor | src/features/auth/authSlice.ts:21-26 | no user, not loading, not restored, no error |
| AuthSlice.AuthStore.Dispatch | src/features/auth/authSlice.ts:164-222 | the fields after an action are those `Reduce` gives |
| Profile.PrevPage | src/pages/Profile.tsx:116 | one page back, never below 1 |
| Profile.NextPage | src/pages/Profile.tsx:123 | one page on, never beyond the last page |
| Profile.ControlsStayInRange | src/pages/Profile.tsx:114-126 | within the pages, each control keeps the page in range and is disabled exactly when it would not move |
| Profile.PaginationIffMoreThanOnePage | src/pages/Profile.tsx:112 | the controls show exactly when the user has more than ten posts |
| Profile.OwnPostsPageRows | src/pages/Profile.tsx:46-57 | post `i` of a page is post `(page-1)*10 + i` of the user's posts, newest first |
| Profile.OwnPostsPage | src/pages/Profile.tsx:46-57 | at most ten of the user's own posts, newest first, a full page when enough follow, and the count of all the user's posts |
| Profile.Excerpts | src/pages/Profile.tsx:101-108 | each post shows the first 100 characters of its content |
| Profile.ProfilePage.constructor | src/pages/Profile.tsx:25-34 | page 1, no posts, total 0, not loading |
| Profile.ProfilePage.FetchBlogs | src/pages/Profile.tsx:40-70 | the window of the current page; on success the rows and the count or 0, on error both kept; loading ends |
| Profile.ProfilePage.Prev | src/pages/Profile.tsx:114-116 | when shown and enabled, `max(1, page - 1)`; the page stays at least 1 |
| Profile.ProfilePage.Next | src/pages/Profile.tsx:121-123 | when shown and enabled, `min(totalPages, page + 1)`; never past the last page |
| BlogsPage.DisplayedPages | src/pages/Blogs.tsx:80 | `totalPages \|\| 1` is at least 1, and 1 exactly when the posts fit in one page |
| BlogsPage.PrevClick | src/pages/Blogs.tsx:73-74 | disabled exactly on page 1; otherwise `setPage(page - 1)` |
| BlogsPage.NextClick | src/pages/Blogs.tsx:84-85 | disabled exactly on page `totalPages`; otherwise `setPage(page + 1)` |
| BlogsPage.NextUnboundedWithoutPosts | src/pages/Blogs.tsx:84-85 | with no posts, every Next click moves one page on, Next stays enabled and the count shown stays 1 |
| BlogsPage.NextPastLastPage | src/pages/Blogs.tsx:84-85 | past the last page, Next stays enabled and moves further |
| BlogsPage.PrevBounds | src/pages/Blogs.tsx:73-74 | from page 1 on, Prev never goes below 1 |
| BlogsPage.Cards | src/pages/Blogs.tsx:58-67 | no cards while loading; otherwise one per post in order, with its title and the first 100 characters |
| BlogsPage.NoticeOrCards | src/pages/Blogs.tsx:53-67 | when not loading, the empty notice shows exactly when there are no cards |

## Left out

- Network and services: the database, storage and authentication calls are modelled by `Backend.Store` and by outcome parameters. Latency, retries and transport errors other than a rejected request are not modelled.
- Row-level security and foreign keys are not modelled. Any signed-in user's update or delete reaches every row with the id. Deleting a post removes only its row: the database's cascade of comment rows is not part of this model.
- Asynchrony: the order in which thunks, effects and reducers interleave, and concurrent requests, are not modelled. Each handler is one step that returns the actions it dispatches, in order.
- React rendering: markup, routing and the `if (!user) return null` guard of the profile page are not modelled. A profile page exists only for a user id. The Blogs page's error paragraph (src/pages/Blogs.tsx:41) is never rendered and is not modelled.
- Logging (`console.error`) is left out. It changes no state.
- `crypto.randomUUID`, `JSON.parse` and `new Date()` are parameters (`uuids`, `parse`, `now`).
- The storage `upload` call with the file body is not modelled. Only its key and success are.
- `getPublicUrl` is `base + "/blog-images/" + key`. Its missing-URL failure is a rejected `PublicUrlOf(key)` request.
- JSON columns hold null, booleans, numbers, strings, arrays of strings, or an object. Arrays of other values are not modelled.
- Strings are sequences of characters. JavaScript counts UTF-16 code units in `slice(0, 100)` and in `trim`, which differs for characters outside the Basic Multilingual Plane.
- `updateBlog` builds a `payload` object (src/features/blog/blogService.ts:86-95) that it never uses. The update sends `images` as given, and a missing list is left out of the update.
- A rejected thunk whose error has no message (`rejectWithValue(undefined)`) is not modelled: every store error carries a message string. `AuthSlice.RegisterRejected` keeps an optional payload.
- `hydrateUser` is not modelled as rejecting, since its body never throws without a network failure. The reducer's `hydrateUser.rejected` case is modelled.
- `Math.ceil(total / pageSize)` with a page size of 0 is not modelled. The page size is 5 in every state of the blog slice (`BlogSlice.PageSizeFixed`) and the constant 10 on the profile page.
- The Blogs page's effect that reloads on page change is `BlogSlice.LoadBlogs` for the current page and page size. It is not modelled as a separate operation.
- Backend.ReadBlogs: a negative window start is modelled as a failure (`Requested range not satisfiable`). No caller produces one, since both pages start at 1, and the client code has no such check.
- Backend.ReadCommentsOldestFirst: rows with equal `created_at` come in an order the model fixes (a stable insertion sort); the database leaves their order open.
- Backend.NewestFirst: the same holds for posts with equal `created_at`.
- Profile.ProfilePage.Prev: a click is modelled only when the controls are shown and the button is enabled. A disabled or hidden button cannot be clicked.
- Profile.ProfilePage.Next: the same holds for Next.
