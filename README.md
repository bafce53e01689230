# Social media backend: routes over the relational store

This project models the backend route handlers of a small social network in Dafny.
- Users publish posts with text and/or an image.
- Other users comment on posts and like them.
- Users follow one another.

The handlers in `backend/routes/posts.js`, `users.js` and `comments.js` work against one shared store of five tables: users, posts, comments, likes and follows. Each handler runs its guard checks in a fixed order, usually content validation, then existence, then ownership or uniqueness. The follow route differs: it rejects a self-follow before any lookup. It then either answers an error status with the store untouched, or performs exactly one insert, update or delete. Read handlers answer filtered, ordered projections of the tables, joined with the author's columns and live counts.

Modules:

- `Tables` (tables.dfy) holds the relational operations on tables kept as sequences in insertion order:
  - `Select` (`WHERE key = v`) and `Reject` (the rows a `DELETE ... WHERE key = v` keeps);
  - `Reverse` (newest-first order);
  - the predicates for ordering, uniqueness and bounds;
  - generic lemmas about counting, uniqueness and order preservation.
- `Text` (text.dfy) holds JavaScript falsiness of a body field and `String.prototype.trim`.
- `Store` (store.dfy) holds:
  - the row records and the whole-database `State`;
  - the schema's integrity constraints as the invariant `Consistent`: primary keys, unique (user, post) likes, unique (follower, following) follows, no self-follow, foreign keys, and timestamps in insertion order;
  - the read-model joins;
  - the class `Db`, whose fields are the five tables.
- `PostRoutes`, `UserRoutes` and `CommentRoutes` (posts.dfy, users.dfy, comments.dfy) hold one member per route handler:
  - Mutating routes are methods on a `Db`. Each returns `Ok(body)` or `Err(status, error)`. Each keeps `Valid()` and states its whole new state as a function of the old one (`AfterLike`, `AfterDelete`, ...). On every error path the state is unchanged, except that a failed post or comment insert still advances its id sequence.
  - Read routes are functions of the `State`.

`CURRENT_TIMESTAMP` is a monotone `clock`. Every insert or update stamps its row and advances the clock, so `ORDER BY created_at` is insertion order. The SERIAL id sequences of posts and comments are `nextPostId` and `nextCommentId`.

The route's request parameters are arguments:
- the authenticated caller's id;
- path ids, parsed as integers;
- body fields, as `Option<string>`, where `None` is a missing or `null` field;
- for uploads, the URL the image store returned, or `None` when no file came with the request.

The model follows the code, including these quirks:
- Feed pagination falls back to page 1 and limit 20 only when the parsed value is NaN or 0 (`parseInt(x) || d`), not for every non-positive value. A negative limit, or a page that makes the offset negative, reaches PostgreSQL. PostgreSQL rejects a negative `LIMIT` or `OFFSET`, so the handler answers 500.
- Editing a post does not re-check the content-or-image rule. A missing `content` stores NULL.
- Unlike does not look the post up. A missing post answers "Post not liked yet".
- Comment validation runs before the post (or comment) lookup.
- Profile edits (`PUT /api/users/me`, `PUT /api/users/profile-picture`) never answer 404. When the caller's row is gone, the `UPDATE` matches nothing and the handler answers `res.json(undefined)`, modelled as `Ok(None)`.
- An insert whose caller has no users row violates the foreign key, and the handler answers 500 "Server error". This applies to creating a post, liking, following and commenting. No row is added. A failed post or comment insert has already drawn its id from the SERIAL sequence, which PostgreSQL does not give back, so `nextPostId` or `nextCommentId` still advances.

## Model

| member | source | states |
|---|---|---|
| Text.MissingOrBlankMeaning | backend/routes/comments.js:35-37 | the comment check `!content \|\| content.trim() === ''` rejects exactly a missing field and strings made only of white space (the empty string included) |
| Text.Trim | backend/routes/comments.js:35 | `trim()` returns the part of the string left after its leading and trailing white space; the result neither starts nor ends with white space |
| Store.FindPost | backend/routes/posts.js:200-204 | the lookup finds a row exactly when a post with that id exists, and the row it finds has that id |
| Store.FindUser | backend/routes/users.js:14-16 | the lookup finds a row exactly when a user with that id exists, and the row it finds has that id |
| Store.FindComment | backend/routes/comments.js:83-86 | the lookup finds a row exactly when a comment with that id exists, and the row it finds has that id |
| Store.AuthorColumns | backend/routes/posts.js:20-24 | `INNER JOIN users u` yields the username, full name and picture of a user row with the owner's id |
| PostRoutes.OrDefault | backend/routes/posts.js:14-15 | the parsed query value is kept unless it is NaN or 0, which fall back to the default; negative values pass through |
| PostRoutes.PageSize | backend/routes/posts.js:15 | the page size is the parsed limit unless that is NaN or 0, which give 20 |
| PostRoutes.PageOffset | backend/routes/posts.js:14-16 | the offset is `(page-1)` times the page size, and 0 when the page is NaN, 0 or 1 |
| PostRoutes.Feed | backend/routes/posts.js:12-35 | 500 exactly when the limit or the offset `(page-1)*limit` is negative; otherwise at most `limit` rows, the i-th being the post at position `offset + i` from the newest, with the username, full name and picture of the user row that owns it, and likes and comments counts equal to the number of like and comment rows for that post |
| PostRoutes.FeedNewestFirst | backend/routes/posts.js:18-27 | a feed page lists posts in strictly decreasing creation order |
| PostRoutes.FeedPagesAdjacent | backend/routes/posts.js:14-27 | when page k is full, page k+1 is well-formed and holds only posts older than the last post of page k |
| PostRoutes.GetPost | backend/routes/posts.js:40-62 | 404 "Post not found" exactly when no post has the id, and a post row exactly when one does: the post with that id, its owner's username, full name and picture, and its live likes and comments counts |
| PostRoutes.InsertPostKeeps | backend/routes/posts.js:87-92 | inserting a post owned by a registered caller keeps every integrity constraint |
| PostRoutes.DrawPostIdKeeps | backend/routes/posts.js:87-92 | a post insert that fails after drawing its id from the sequence keeps every constraint |
| PostRoutes.NewPostHasNoReactions | backend/routes/posts.js:95-104 | no like and no comment refers to the id the next post receives, so the zero counts the create route answers are the live counts |
| PostRoutes.CreatePost | backend/routes/posts.js:67-114 | 400 "Post must have content or an image" when content is falsy and there is no image, with no change; 500 when the caller is not a registered user, with no row added but the id sequence advanced; otherwise exactly one post appended with `content \|\| ''`, the image URL and the current stamp, answered joined with the caller's columns and both counts 0 |
| PostRoutes.EditPost | backend/routes/posts.js:138-144 | the update keeps every row's id, owner and creation stamp; it replaces content and `updated_at` of the row with the id and leaves every other row as it was |
| PostRoutes.EditPostKeeps | backend/routes/posts.js:138-144 | editing a post keeps every integrity constraint |
| PostRoutes.EditReadsBack | backend/routes/posts.js:138-156 | after the edit the post reads back with the new content and stamp, the same owner, author columns and counts |
| PostRoutes.EditLeavesOthers | backend/routes/posts.js:138-144 | the edit leaves every other post reading as before |
| PostRoutes.UpdatePost | backend/routes/posts.js:119-163 | 404 "Post not found", then 403 "Not authorized to edit this post" for a non-owner, no change on either; otherwise the post's content (not re-validated) and stamp change and the answer is the post as the single-post route reads it |
| PostRoutes.DeletePostKeeps | backend/routes/posts.js:184-185 | deleting a post with its comments and likes keeps every constraint, including the foreign keys |
| PostRoutes.DeleteCascades | backend/routes/posts.js:184-185 | after the delete the post is gone and has no likes or comments left; every other post keeps its existence and its counts |
| PostRoutes.DeletePost | backend/routes/posts.js:168-192 | 404 "Post not found", then 403 "Not authorized to delete this post", no change on either; otherwise the post, its comments and its likes are removed and "Post deleted successfully" answered |
| PostRoutes.LikeKeeps | backend/routes/posts.js:216-220 | a like of an existing post by a registered user who has not liked it keeps every constraint, in particular one like per (user, post) |
| PostRoutes.LikeCounts | backend/routes/posts.js:216-226 | a like makes the caller a liker and raises that post's count by one and no other post's |
| PostRoutes.AddLike | backend/routes/posts.js:197-236 | 404 "Post not found", then 400 "Post already liked", then 500 for an unregistered caller, no change on any; otherwise one like appended and the answered count is the old count plus one |
| PostRoutes.UnlikeKeeps | backend/routes/posts.js:243-246 | removing a like keeps every constraint |
| PostRoutes.UnlikeCounts | backend/routes/posts.js:243-256 | removing an existing like lowers that post's count by one and no other post's; afterwards the caller has not liked the post, so a second unlike fails |
| PostRoutes.UnlikeLeavesOthers | backend/routes/posts.js:243-246 | unlike removes exactly the caller's like of that post: every other (user, post) pair is liked afterwards exactly when it was before |
| PostRoutes.UnlikeUndoesLike | backend/routes/posts.js:216-220 | unliking right after liking restores the likes table |
| PostRoutes.RemoveLike | backend/routes/posts.js:241-266 | 400 "Post not liked yet" exactly when the caller has not liked the post (whether or not the post exists), with no change; success exactly when they have, and then that like is removed and the answered count plus one is the old count |
| PostRoutes.Likers | backend/routes/posts.js:271-287 | as many likers as like rows for the post; each one a registered user who liked it, with that user's username, full name and picture and the `created_at` of their like |
| PostRoutes.LikersNewestFirst | backend/routes/posts.js:273-278 | the likers come in strictly decreasing order of the `created_at` of their like rows |
| PostRoutes.LikersAreTheLikers | backend/routes/posts.js:273-278 | a user is listed exactly when they have liked the post |
| PostRoutes.LikersDistinct | backend/routes/posts.js:273-278 | no user is listed twice |
| PostRoutes.LikesCountIsLikers | backend/routes/posts.js:223-230 | a post's likes count equals the number of distinct users who liked it |
| PostRoutes.LikersOfMissingPost | backend/routes/posts.js:271-287 | a post that does not exist has an empty likers list, not an error |
| UserRoutes.GetMe | backend/routes/users.js:12-28 | 404 "User not found" exactly when the caller has no row, and an account exactly when they have one: the caller's own row, email included |
| UserRoutes.GetProfile | backend/routes/users.js:33-72 | 404 "User not found" exactly when the id is unknown, and a profile exactly when it is known: the user's public columns with posts count = posts with that owner, followers count = follows with that `following_id`, following count = follows with that `follower_id` |
| UserRoutes.SetProfile | backend/routes/users.js:81-84 | the update keeps every user id; it sets full name, bio and stamp of the caller's row and leaves every other row as it was |
| UserRoutes.SetPicture | backend/routes/users.js:112-115 | the update keeps every user id; it sets picture and stamp of the caller's row and leaves every other row as it was |
| UserRoutes.UsersRewriteKeeps | backend/routes/users.js:81-84 | rewriting user rows without touching ids keeps every constraint (all foreign keys still resolve) |
| UserRoutes.ProfileReadsBack | backend/routes/users.js:79-86 | after a profile edit the caller's account has both new fields, overwritten with no merge, and the same username, email and picture |
| UserRoutes.PictureReadsBack | backend/routes/users.js:112-117 | after a picture change the caller's account differs only in the picture |
| UserRoutes.UpdateProfile | backend/routes/users.js:77-91 | always a 2xx answer; nothing (`undefined`) when the caller has no row, with no change; otherwise full name and bio overwritten and the updated row answered |
| UserRoutes.UpdatePicture | backend/routes/users.js:96-125 | 400 "Please upload an image" exactly when no file came, with no change; a 2xx answer exactly when one came, and then only the picture changes and `id, username, profile_picture` are answered |
| UserRoutes.FollowKeeps | backend/routes/users.js:155-159 | a follow between distinct registered users that are not yet following keeps every constraint: no duplicate edge, no self-edge |
| UserRoutes.NoSelfFollow | backend/routes/users.js:135-137 | in a consistent store nobody follows themselves |
| UserRoutes.FollowCounts | backend/routes/users.js:155-159 | a follow makes the caller follow the target, adds one to the target's followers count and to the caller's following count, and leaves the caller's followers count and the target's following count alone |
| UserRoutes.UnfollowCounts | backend/routes/users.js:176-185 | removing an existing follow ends it and takes one from each of the two counts |
| UserRoutes.UnfollowKeeps | backend/routes/users.js:176-179 | removing a follow keeps every constraint |
| UserRoutes.UnfollowLeavesOthers | backend/routes/users.js:176-179 | unfollow removes exactly that edge: every other edge is present afterwards exactly when it was before |
| UserRoutes.UnfollowUndoesFollow | backend/routes/users.js:155-159 | unfollowing right after following restores the follows table |
| UserRoutes.FollowUser | backend/routes/users.js:130-166 | 400 "You cannot follow yourself" before any lookup, then 404 "User not found", then 400 "Already following this user", then 500 for an unregistered caller, no change on any; otherwise one edge appended and "Successfully followed user" answered |
| UserRoutes.UnfollowUser | backend/routes/users.js:171-190 | 400 "You are not following this user" exactly when the edge is absent, with no change; success exactly when it is present, and then the edge is removed and "Successfully unfollowed user" answered |
| UserRoutes.Followers | backend/routes/users.js:195-211 | as many rows as followers; each one a registered user who follows the id, with that user's username, full name and picture |
| UserRoutes.Following | backend/routes/users.js:216-232 | as many rows as users followed; each one a registered user followed by the id, with that user's username, full name and picture |
| UserRoutes.FollowersListed | backend/routes/users.js:197-203 | a user is listed exactly when they follow the id, in strictly decreasing order of the follow's creation |
| UserRoutes.FollowingListed | backend/routes/users.js:218-224 | a user is listed exactly when the id follows them, in strictly decreasing order of the follow's creation |
| UserRoutes.UserPosts | backend/routes/users.js:237-255 | as many rows as posts the user owns; each one the user's post with the user's username, full name and picture and its live counts |
| UserRoutes.UserPostsListed | backend/routes/users.js:239-247 | the user's posts come newest first and every post of the user is listed |
| CommentRoutes.CommentsOf | backend/routes/comments.js:9-26 | as many rows as comments on the post; each one a comment on that post with its author's username, full name and picture |
| CommentRoutes.CommentsListed | backend/routes/comments.js:11-17 | the comments come oldest first and every comment on the post is listed |
| CommentRoutes.CommentsOfMissingPost | backend/routes/comments.js:9-26 | a post that does not exist has an empty comment list, not an error |
| CommentRoutes.CommentKeeps | backend/routes/comments.js:47-52 | a comment by a registered user on an existing post keeps every constraint |
| CommentRoutes.NewCommentIdFresh | backend/routes/comments.js:47-52 | the id the next comment receives is not in use by any comment |
| CommentRoutes.CommentCounts | backend/routes/comments.js:47-52 | a new comment adds one to its post's comment count and to no other post's |
| CommentRoutes.CommentAppends | backend/routes/comments.js:47-64 | the new comment comes last in its post's list, which is otherwise unchanged |
| CommentRoutes.CreateComment | backend/routes/comments.js:31-69 | 400 "Comment content is required" before the post lookup, then 404 "Post not found", no change on either; then 500 for an unregistered caller, with no row added but the id sequence advanced; otherwise one comment appended, owned by the caller, on that post, with the content as sent, answered joined with the caller's columns |
| CommentRoutes.EditComment | backend/routes/comments.js:97-103 | the update keeps every comment's id and creation stamp; it replaces content and stamp of the row with the id and leaves every other row as it was |
| CommentRoutes.CommentEditKeeps | backend/routes/comments.js:97-103 | editing a comment keeps every constraint |
| CommentRoutes.CommentEditReadsBack | backend/routes/comments.js:97-115 | after the edit the comment still exists, with new content and stamp and the same author, post and creation stamp |
| CommentRoutes.UpdateComment | backend/routes/comments.js:74-120 | 400, then 404 "Comment not found", then 403 "Not authorized to edit this comment", no change on any; otherwise only content and stamp of that comment change, and it is answered with its author's username, full name and picture |
| CommentRoutes.CommentDeleteKeeps | backend/routes/comments.js:141-142 | deleting a comment keeps every constraint |
| CommentRoutes.CommentDeleteCounts | backend/routes/comments.js:141-142 | after the delete the comment is gone and its post's comment count is one less |
| CommentRoutes.CommentDeleteLeavesOthers | backend/routes/comments.js:141-142 | every other comment reads exactly as before |
| CommentRoutes.DeleteComment | backend/routes/comments.js:125-149 | 404 "Comment not found", then 403 "Not authorized to delete this comment", no change on either; otherwise exactly that comment is removed |

## Left out

- Image uploads to the image store and deletion of the local temporary file (`cloudinary.uploader.upload`, `fs.unlinkSync`) are foreign I/O. The URL the upload returns is a parameter.
- CreatePost: when an image came with the request and the insert then fails, the handler's catch block deletes the temporary file a second time. That file is already gone, so the call throws inside the catch block and no 500 is sent. The model answers 500 there.
- Express routing and the authentication middleware are not modelled. The caller's id is an argument.
- SQL text, the connection pool and the catch-all 500 answers for store failures are not modelled. The model keeps only the 500s that follow from the model's own state: a foreign-key violation by an unregistered caller, and a negative `LIMIT`/`OFFSET` in the feed.
- Concurrency is not modelled. Requests run one at a time, so the racy check-then-insert of like and follow is not modelled. The uniqueness constraints are kept as invariants.
- Real timestamps are not modelled. A monotone counter stamps rows; `updated_at` takes the same counter.
- Text parsing of ids is not modelled. Path ids are integers. A non-numeric id, which PostgreSQL rejects with a 500, is not modelled. For the feed, the parsed page and limit are `Option<int>`, with `None` for NaN.
- JSON bodies whose fields are not strings are not modelled (numbers, objects). Body fields are strings or missing.
- Counts are modelled as numbers. The feed, single-post, edit and user-posts rows carry PostgreSQL `COUNT(*)` as a `bigint`, which the driver sends as a decimal string.
- Integer widths are not modelled. SERIAL ids and counts are unbounded integers.
- Creating and deleting accounts belongs to other routes. `Db`'s constructor takes the registered users.
- The `id` column of the likes and follows tables is not modelled, because no modelled route reads it.
- PostRoutes.Likers, UserRoutes.Followers, UserRoutes.Following, UserRoutes.UserPosts, CommentRoutes.CommentsOf, PostRoutes.Feed and PostRoutes.GetPost require the foreign-key part of the invariant. With it, the `INNER JOIN users` never drops a row, so the join is modelled as a lookup. PostRoutes.Likers also requires the unique (user, post) constraint on likes, so that each listed time is the time of that user's one like.
