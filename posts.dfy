/** The post routes: the global feed, a single post, creating, editing and deleting a post,
    liking and unliking it, and the list of its likers. */
module PostRoutes {
  import opened Tables
  import opened Text
  import opened Store

  /** `{ message, likes_count }` of the like and unlike routes. */
  datatype LikeReply = LikeReply(message: string, likesCount: nat)

  /** A row of the likers list: `u.id, u.username, u.full_name, u.profile_picture, l.created_at`. */
  datatype Liker = Liker(id: int, author: Author, likedAt: int)

  // ---------------------------------------------------------------------------------------
  // Feed

  /** `parseInt(raw) || fallback`, the parsed query parameter given as `None` for NaN:
      the fallback replaces NaN and 0 only, so negative values pass through. */
  function OrDefault(parsed: Option<int>, fallback: int): (r: int)
    ensures parsed.Some? && parsed.value != 0 ==> r == parsed.value
    ensures parsed.None? || parsed.value == 0 ==> r == fallback
  {
    if parsed.None? || parsed.value == 0 then fallback else parsed.value
  }

  /** The feed's page size: `parseInt(req.query.limit) || 20`. */
  function PageSize(limit: Option<int>): (r: int)
    ensures limit.Some? && limit.value != 0 ==> r == limit.value
    ensures limit.None? || limit.value == 0 ==> r == 20
  {
    OrDefault(limit, 20)
  }

  /** The feed's offset: `(page - 1) * limit`, with page 1 when the page is NaN or 0. */
  function PageOffset(page: Option<int>, limit: Option<int>): (r: int)
    ensures page.None? || page.value == 0 || page.value == 1 ==> r == 0
    ensures page.Some? && page.value != 0 ==> r == (page.value - 1) * PageSize(limit)
  {
    (OrDefault(page, 1) - 1) * PageSize(limit)
  }

  /** GET /api/posts/feed: every post, newest first, `LIMIT size OFFSET offset`. PostgreSQL
      rejects a negative LIMIT or OFFSET, which the handler reports as a 500. */
  function Feed(st: State, page: Option<int>, limit: Option<int>): (r: Response<seq<PostRow>>)
    requires PostsAuthored(st)
    ensures var size, offset := PageSize(limit), PageOffset(page, limit);
      && (r.Err? <==> size < 0 || offset < 0)
      && (r.Err? ==> r == Err(500, "Server error"))
      && (r.Ok? ==>
            && |r.value| <= size
            && |r.value| == (if offset >= |st.posts| then 0 else Min(size, |st.posts| - offset))
            && forall i :: 0 <= i < |r.value| ==>
                 && r.value[i].post == st.posts[|st.posts| - 1 - offset - i]
                 && r.value[i].author == AuthorColumns(st.users, r.value[i].post.userId)
                 && r.value[i].likesCount == LikesCount(st.likes, r.value[i].post.id)
                 && r.value[i].commentsCount == CommentsCount(st.comments, r.value[i].post.id))
  {
    var size, offset := PageSize(limit), PageOffset(page, limit);
    if size < 0 || offset < 0 then Err(500, "Server error")
    else
      var window := Window(st.posts, offset, size);
      assert forall i :: 0 <= i < |window| ==> HasUser(st.users, window[i].userId);
      Ok(seq(|window|, i requires 0 <= i < |window| => JoinPost(st, window[i])))
  }

  function Min(a: int, b: int): int { if a <= b then a else b }

  /** Helper: `ORDER BY created_at DESC LIMIT size OFFSET offset` on the posts, which are kept
      in creation order. */
  function Window(posts: seq<Post>, offset: nat, size: nat): (w: seq<Post>)
    ensures |w| == (if offset >= |posts| then 0 else Min(size, |posts| - offset))
    ensures forall i :: 0 <= i < |w| ==> w[i] == posts[|posts| - 1 - offset - i]
  {
    var newest := Reverse(posts);
    var lo := Min(offset, |newest|);
    newest[lo..lo + Min(size, |newest| - lo)]
  }

  /** A feed page lists its posts strictly newest first. */
  lemma FeedNewestFirst(st: State, page: Option<int>, limit: Option<int>)
    requires PostsAuthored(st) && Increasing(st.posts, PostCreated)
    requires Feed(st, page, limit).Ok?
    ensures Decreasing(Feed(st, page, limit).value, PostRowCreated)
  {
    var rows := Feed(st, page, limit).value;
    var offset, n := PageOffset(page, limit), |st.posts|;
    assert 0 <= offset && (|rows| > 0 ==> |rows| <= n - offset);
    forall i, j | 0 <= i < j < |rows| ensures PostRowCreated(rows[i]) > PostRowCreated(rows[j]) {
      FeedAt(st, page, limit, i);
      FeedAt(st, page, limit, j);
      assert 0 <= n - 1 - offset - j < n - 1 - offset - i < n;
    }
  }

  lemma FeedAt(st: State, page: Option<int>, limit: Option<int>, j: int)
    requires PostsAuthored(st) && Feed(st, page, limit).Ok? && 0 <= j < |Feed(st, page, limit).value|
    ensures Feed(st, page, limit).value[j].post == st.posts[|st.posts| - 1 - PageOffset(page, limit) - j]
  {
  }

  /** Helper: a page whose offset is where a non-empty page `p` ends holds only posts older
      than the last post of `p`. */
  lemma FeedFollows(st: State, p: Option<int>, q: Option<int>, limit: Option<int>)
    requires PostsAuthored(st) && Increasing(st.posts, PostCreated)
    requires Feed(st, p, limit).Ok? && Feed(st, q, limit).Ok? && Feed(st, p, limit).value != []
    requires PageOffset(q, limit) == PageOffset(p, limit) + |Feed(st, p, limit).value|
    ensures var a := Feed(st, p, limit).value;
            forall first :: first in Feed(st, q, limit).value ==> PostRowCreated(first) < PostRowCreated(a[|a| - 1])
  {
    var a, b := Feed(st, p, limit).value, Feed(st, q, limit).value;
    var n, oa, ob := |st.posts|, PageOffset(p, limit), PageOffset(q, limit);
    FeedAt(st, p, limit, |a| - 1);
    forall first | first in b ensures PostRowCreated(first) < PostRowCreated(a[|a| - 1]) {
      var j :| 0 <= j < |b| && b[j] == first;
      FeedAt(st, q, limit, j);
      assert 0 <= n - 1 - ob - j < n - 1 - oa - (|a| - 1);
    }
  }

  /** Consecutive full pages of the same size tile the newest-first order: everything on
      page `k + 1` is older than the last post of page `k`. */
  lemma FeedPagesAdjacent(st: State, k: int, size: int)
    requires PostsAuthored(st) && Increasing(st.posts, PostCreated)
    requires k >= 1 && size >= 1
    requires |Feed(st, Some(k), Some(size)).value| == size
    ensures Feed(st, Some(k + 1), Some(size)).Ok?
    ensures var last := Feed(st, Some(k), Some(size)).value[size - 1];
            forall first :: first in Feed(st, Some(k + 1), Some(size)).value ==>
              PostRowCreated(first) < PostRowCreated(last)
  {
    PageOffsetNext(k, size);
    FeedFollows(st, Some(k), Some(k + 1), Some(size));
  }

  /** Helper: with positive page and size, page `k + 1` starts `size` rows after page `k`. */
  lemma PageOffsetNext(k: int, size: int)
    requires k >= 1 && size >= 1
    ensures PageSize(Some(size)) == size
    ensures 0 <= PageOffset(Some(k), Some(size))
    ensures PageOffset(Some(k + 1), Some(size)) == PageOffset(Some(k), Some(size)) + size
  {
    var o := (k - 1) * size;
    assert 0 <= o by {
      assert 0 <= k - 1;
    }
    assert k * size == o + size;
  }

  // ---------------------------------------------------------------------------------------
  // Single post

  /** GET /api/posts/:id: the post with its author columns and live counts, or 404. */
  function GetPost(st: State, id: int): (r: Response<PostRow>)
    requires PostsAuthored(st)
    ensures !HasPost(st.posts, id) <==> r == Err(404, "Post not found")
    ensures r.Ok? <==> HasPost(st.posts, id)
    ensures r.Ok? ==> && r.value.post in st.posts && r.value.post.id == id
                      && r.value.author == AuthorColumns(st.users, r.value.post.userId)
                      && r.value.likesCount == LikesCount(st.likes, id)
                      && r.value.commentsCount == CommentsCount(st.comments, id)
  {
    match FindPost(st.posts, id)
    case None => Err(404, "Post not found")
    case Some(p) => Ok(JoinPost(st, p))
  }

  // ---------------------------------------------------------------------------------------
  // Create

  /** The row a successful create inserts: owned by the caller, `content || ''`, the uploaded
      image's URL (or none), stamped with the current clock. */
  function NewPost(st: State, caller: int, content: Option<string>, image: Option<string>): Post {
    Post(st.nextPostId, caller, Some(if Falsy(content) then "" else content.value), image, st.clock, st.clock)
  }

  /** The state after the new post is inserted. */
  function AfterPost(st: State, caller: int, content: Option<string>, image: Option<string>): State {
    st.(posts := st.posts + [NewPost(st, caller, content, image)], clock := st.clock + 1,
        nextPostId := st.nextPostId + 1)
  }

  /** Inserting a new post keeps every constraint. */
  lemma InsertPostKeeps(st: State, caller: int, content: Option<string>, image: Option<string>)
    requires Consistent(st) && HasUser(st.users, caller)
    ensures Consistent(AfterPost(st, caller, content, image))
  {
    var p := NewPost(st, caller, content, image);
    var st' := AfterPost(st, caller, content, image);
    assert PostsOrdered(st') by {
      IncreasingSnoc(st.posts, p, PostId);
      IncreasingSnoc(st.posts, p, PostCreated);
    }
    PostsGrowLinks(st, st', p);
  }

  /** Helper: appending a post keeps every comment's and like's reference to its post. */
  lemma PostsGrowLinks(st: State, st': State, p: Post)
    requires CommentsLinked(st) && LikesLinked(st)
    requires st'.users == st.users && st'.posts == st.posts + [p]
    requires st'.comments == st.comments && st'.likes == st.likes
    ensures CommentsLinked(st') && LikesLinked(st')
  {
    SelectGrows(st.posts, p, PostId);
  }

  /** An insert that fails after drawing its id from the sequence keeps every constraint. */
  lemma DrawPostIdKeeps(st: State)
    requires Consistent(st)
    ensures Consistent(st.(nextPostId := st.nextPostId + 1))
  {
    assert Bounded(st.posts, PostId, st.nextPostId + 1);
  }

  /** A post that has just been inserted has no likes and no comments: no like or comment
      refers to an id the sequence has not yet handed out. */
  lemma NewPostHasNoReactions(st: State)
    requires PostsOrdered(st) && LikesLinked(st) && CommentsLinked(st)
    ensures LikesCount(st.likes, st.nextPostId) == 0 && CommentsCount(st.comments, st.nextPostId) == 0
  {
    forall l | l in st.likes ensures LikePost(l) != st.nextPostId {
      PostIdBelowNext(st, l.postId);
    }
    forall c | c in st.comments ensures CommentPost(c) != st.nextPostId {
      PostIdBelowNext(st, c.postId);
    }
    SelectNone(st.likes, LikePost, st.nextPostId);
    SelectNone(st.comments, CommentPost, st.nextPostId);
  }

  /** POST /api/posts. `image` is the URL the image store returned for the uploaded file, or
      `None` when no file came with the request. */
  method CreatePost(db: Db, caller: int, content: Option<string>, image: Option<string>)
    returns (r: Response<PostRow>)
    requires db.Valid()
    modifies db
    ensures db.Valid()
    ensures var st := old(db.Snapshot());
      && (Falsy(content) && image.None? ==>
            r == Err(400, "Post must have content or an image") && db.Snapshot() == st)
      && (!(Falsy(content) && image.None?) && !HasUser(st.users, caller) ==>
            r == Err(500, "Server error") && db.Snapshot() == st.(nextPostId := st.nextPostId + 1))
      && (r.Ok? <==> !(Falsy(content) && image.None?) && HasUser(st.users, caller))
      && (r.Ok? ==>
            var p := NewPost(st, caller, content, image);
            && db.Snapshot() == AfterPost(st, caller, content, image)
            && r.value.post == p && r.value.likesCount == 0 && r.value.commentsCount == 0
            && r.value == JoinPost(db.Snapshot(), p))
  {
    if Falsy(content) && image.None? {
      return Err(400, "Post must have content or an image");
    }
    var st := db.Snapshot();
    if !HasUser(db.users, caller) {
      // posts.user_id references users(id): the insert fails, having drawn its id from
      // the sequence, and the handler answers 500
      DrawPostIdKeeps(st);
      db.nextPostId := db.nextPostId + 1;
      assert db.Snapshot() == st.(nextPostId := st.nextPostId + 1);
      return Err(500, "Server error");
    }
    var p := NewPost(st, caller, content, image);
    var st' := AfterPost(st, caller, content, image);
    InsertPostKeeps(st, caller, content, image);
    NewPostHasNoReactions(st);
    db.posts, db.clock, db.nextPostId := st'.posts, st'.clock, st'.nextPostId;
    assert db.Snapshot() == st';
    r := Ok(JoinPost(st', p));
  }

  // ---------------------------------------------------------------------------------------
  // Edit

  /** `UPDATE posts SET content = $1, updated_at = CURRENT_TIMESTAMP WHERE id = $2`. */
  function EditPost(posts: seq<Post>, id: int, content: Option<string>, stamp: int): (r: seq<Post>)
    ensures SameKeys(posts, r, PostId) && SameKeys(posts, r, PostAuthor) && SameKeys(posts, r, PostCreated)
    ensures forall i :: 0 <= i < |r| && r[i].id != id ==> r[i] == posts[i]
    ensures forall i :: 0 <= i < |r| && r[i].id == id ==>
              r[i] == posts[i].(content := content, updatedAt := stamp)
  {
    seq(|posts|, i requires 0 <= i < |posts| =>
      if posts[i].id == id then posts[i].(content := content, updatedAt := stamp) else posts[i])
  }

  /** The state after editing post `id`. */
  function AfterEdit(st: State, id: int, content: Option<string>): State {
    st.(posts := EditPost(st.posts, id, content, st.clock), clock := st.clock + 1)
  }

  /** Editing a post keeps every constraint: ids, owners and creation stamps do not change. */
  lemma EditPostKeeps(st: State, id: int, content: Option<string>)
    requires Consistent(st)
    ensures Consistent(AfterEdit(st, id, content))
  {
    var st' := AfterEdit(st, id, content);
    SameKeysKeep(st.posts, st'.posts, PostId, PostId);
    SameKeysKeep(st.posts, st'.posts, PostCreated, PostId);
    SameKeysPresent(st.posts, st'.posts, PostId);
    assert PostsOrdered(st');
    EditKeepsAuthors(st, id, content);
    assert CommentsLinked(st');
    assert LikesLinked(st');
  }

  /** The edited state still has every post's author. */
  lemma EditKeepsAuthors(st: State, id: int, content: Option<string>)
    requires PostsAuthored(st)
    ensures PostsAuthored(AfterEdit(st, id, content))
  {
    var st' := AfterEdit(st, id, content);
    forall p | p in st'.posts ensures HasUser(st'.users, p.userId) {
      var i :| 0 <= i < |st'.posts| && st'.posts[i] == p;
      assert st.posts[i] in st.posts;
    }
  }

  /** After an edit the post reads back with the new content, the same owner and creation
      stamp, and the same counts. */
  lemma EditReadsBack(st: State, id: int, content: Option<string>)
    requires PostsAuthored(st) && Increasing(st.posts, PostId) && HasPost(st.posts, id)
    ensures PostsAuthored(AfterEdit(st, id, content))
    ensures var before, after := GetPost(st, id), GetPost(AfterEdit(st, id, content), id);
            && after.Ok?
            && after.value.post == before.value.post.(content := content, updatedAt := st.clock)
            && after.value.author == before.value.author
            && after.value.likesCount == before.value.likesCount
            && after.value.commentsCount == before.value.commentsCount
  {
    var st' := AfterEdit(st, id, content);
    EditKeepsAuthors(st, id, content);
    IncreasingDistinct(st.posts, PostId);
    SameKeysPresent(st.posts, st'.posts, PostId);
    var p, p' := FindPost(st.posts, id).value, FindPost(st'.posts, id).value;
    var i :| 0 <= i < |st'.posts| && st'.posts[i] == p';
    assert st.posts[i] in st.posts;
    DistinctSame(st.posts, PostId, st.posts[i], p);
  }

  /** An edit leaves every other post as it reads. */
  lemma EditLeavesOthers(st: State, id: int, content: Option<string>, other: int)
    requires PostsAuthored(st) && Increasing(st.posts, PostId) && other != id
    ensures PostsAuthored(AfterEdit(st, id, content))
    ensures GetPost(AfterEdit(st, id, content), other) == GetPost(st, other)
  {
    var st' := AfterEdit(st, id, content);
    EditKeepsAuthors(st, id, content);
    IncreasingDistinct(st.posts, PostId);
    SameKeysPresent(st.posts, st'.posts, PostId);
    if HasPost(st.posts, other) {
      var q, q' := FindPost(st.posts, other).value, FindPost(st'.posts, other).value;
      var j :| 0 <= j < |st'.posts| && st'.posts[j] == q';
      assert st.posts[j] in st.posts;
      DistinctSame(st.posts, PostId, st.posts[j], q);
    }
  }

  /** PUT /api/posts/:id: only the owner may replace the content (which is not re-validated:
      a missing field stores NULL). */
  method UpdatePost(db: Db, caller: int, id: int, content: Option<string>) returns (r: Response<PostRow>)
    requires db.Valid()
    modifies db
    ensures db.Valid()
    ensures var st := old(db.Snapshot());
      && (!HasPost(st.posts, id) ==> r == Err(404, "Post not found"))
      && (HasPost(st.posts, id) && FindPost(st.posts, id).value.userId != caller ==>
            r == Err(403, "Not authorized to edit this post"))
      && (r.Ok? <==> HasPost(st.posts, id) && FindPost(st.posts, id).value.userId == caller)
      && (r.Err? ==> db.Snapshot() == st)
      && (r.Ok? ==> db.Snapshot() == AfterEdit(st, id, content) && r == GetPost(db.Snapshot(), id)
                    && r.value.post.content == content && r.value.post.userId == caller)
  {
    var found := FindPost(db.posts, id);
    if found.None? {
      return Err(404, "Post not found");
    }
    if found.value.userId != caller {
      return Err(403, "Not authorized to edit this post");
    }
    var st := db.Snapshot();
    var st' := AfterEdit(st, id, content);
    EditPostKeeps(st, id, content);
    EditReadsBack(st, id, content);
    db.posts, db.clock := st'.posts, st'.clock;
    assert db.Snapshot() == st';
    r := GetPost(st', id);
  }

  // ---------------------------------------------------------------------------------------
  // Delete

  /** The state after `DELETE FROM posts WHERE id = $1`, with the schema's `ON DELETE CASCADE`
      removing the post's comments and likes. */
  function AfterDelete(st: State, id: int): State {
    st.(posts := Reject(st.posts, PostId, id),
        comments := Reject(st.comments, CommentPost, id),
        likes := Reject(st.likes, LikePost, id))
  }

  /** Deleting a post with its comments and likes keeps every constraint: nothing is left
      referring to the deleted post. */
  lemma DeletePostKeeps(st: State, id: int)
    requires Consistent(st)
    ensures Consistent(AfterDelete(st, id))
  {
    var st' := AfterDelete(st, id);
    RejectIncreasing(st.posts, PostId, id, PostId);
    RejectIncreasing(st.posts, PostId, id, PostCreated);
    RejectBounded(st.posts, PostId, id, PostId, st.nextPostId);
    RejectBounded(st.posts, PostId, id, PostCreated, st.clock);
    forall i | 0 <= i < |st'.posts| ensures HasUser(st'.users, st'.posts[i].userId) {
      assert st'.posts[i] in st'.posts;
      var j :| 0 <= j < |st.posts| && st.posts[j] == st'.posts[i];
    }
    RejectIncreasing(st.comments, CommentPost, id, CommentId);
    RejectIncreasing(st.comments, CommentPost, id, CommentCreated);
    RejectBounded(st.comments, CommentPost, id, CommentId, st.nextCommentId);
    RejectBounded(st.comments, CommentPost, id, CommentCreated, st.clock);
    RejectIncreasing(st.likes, LikePost, id, LikeCreated);
    RejectBounded(st.likes, LikePost, id, LikeCreated, st.clock);
    RejectDistinct(st.likes, LikePost, id, LikePair);
    RejectKeepsOthers(st.posts, PostId, id);
    forall i | 0 <= i < |st'.comments|
      ensures HasUser(st'.users, st'.comments[i].userId) && HasPost(st'.posts, st'.comments[i].postId)
    {
      assert st'.comments[i] in st'.comments;
      var j :| 0 <= j < |st.comments| && st.comments[j] == st'.comments[i];
    }
    forall i | 0 <= i < |st'.likes|
      ensures HasUser(st'.users, st'.likes[i].userId) && HasPost(st'.posts, st'.likes[i].postId)
    {
      assert st'.likes[i] in st'.likes;
      var j :| 0 <= j < |st.likes| && st.likes[j] == st'.likes[i];
    }
  }

  /** After a delete the post is gone with all its likes and comments, and every other post
      keeps its existence and its counts. */
  lemma DeleteCascades(st: State, id: int, other: int)
    requires other != id
    ensures var st' := AfterDelete(st, id);
            && !HasPost(st'.posts, id)
            && LikesCount(st'.likes, id) == 0 && CommentsCount(st'.comments, id) == 0
            && (HasPost(st'.posts, other) <==> HasPost(st.posts, other))
            && LikesCount(st'.likes, other) == LikesCount(st.likes, other)
            && CommentsCount(st'.comments, other) == CommentsCount(st.comments, other)
  {
    RejectRemoves(st.posts, PostId, id);
    RejectRemoves(st.likes, LikePost, id);
    RejectRemoves(st.comments, CommentPost, id);
    RejectOtherCount(st.posts, PostId, other, id);
    RejectOtherCount(st.likes, LikePost, other, id);
    RejectOtherCount(st.comments, CommentPost, other, id);
  }

  /** DELETE /api/posts/:id: only the owner may delete; the post's comments and likes go
      with it. */
  method DeletePost(db: Db, caller: int, id: int) returns (r: Response<string>)
    requires db.Valid()
    modifies db
    ensures db.Valid()
    ensures var st := old(db.Snapshot());
      && (!HasPost(st.posts, id) ==> r == Err(404, "Post not found"))
      && (HasPost(st.posts, id) && FindPost(st.posts, id).value.userId != caller ==>
            r == Err(403, "Not authorized to delete this post"))
      && (r.Ok? <==> HasPost(st.posts, id) && FindPost(st.posts, id).value.userId == caller)
      && (r.Err? ==> db.Snapshot() == st)
      && (r.Ok? ==> db.Snapshot() == AfterDelete(st, id) && r.value == "Post deleted successfully")
  {
    var found := FindPost(db.posts, id);
    if found.None? {
      return Err(404, "Post not found");
    }
    if found.value.userId != caller {
      return Err(403, "Not authorized to delete this post");
    }
    var st := db.Snapshot();
    DeletePostKeeps(st, id);
    var st' := AfterDelete(st, id);
    db.posts, db.comments, db.likes := st'.posts, st'.comments, st'.likes;
    assert db.Snapshot() == st';
    r := Ok("Post deleted successfully");
  }

  // ---------------------------------------------------------------------------------------
  // Like and unlike

  /** The state after the caller's like of post `id` is inserted. */
  function AfterLike(st: State, caller: int, id: int): State {
    st.(likes := st.likes + [Like(caller, id, st.clock)], clock := st.clock + 1)
  }

  /** The state after `DELETE FROM likes WHERE user_id = $1 AND post_id = $2`. */
  function AfterUnlike(st: State, caller: int, id: int): State {
    st.(likes := Reject(st.likes, LikePair, (caller, id)))
  }

  /** A like by a registered user, of an existing post, not liked by them before, keeps every
      constraint, and in particular the one like per (user, post). */
  lemma LikeKeeps(st: State, caller: int, id: int)
    requires Consistent(st) && HasUser(st.users, caller) && HasPost(st.posts, id) && !HasLiked(st.likes, caller, id)
    ensures Consistent(AfterLike(st, caller, id))
  {
    var l := Like(caller, id, st.clock);
    IncreasingSnoc(st.likes, l, LikeCreated);
    DistinctSnoc(st.likes, l, LikePair);
  }

  /** Removing a like keeps every constraint. */
  lemma UnlikeKeeps(st: State, caller: int, id: int)
    requires Consistent(st)
    ensures Consistent(AfterUnlike(st, caller, id))
  {
    var st' := AfterUnlike(st, caller, id);
    RejectIncreasing(st.likes, LikePair, (caller, id), LikeCreated);
    RejectBounded(st.likes, LikePair, (caller, id), LikeCreated, st.clock);
    RejectDistinct(st.likes, LikePair, (caller, id), LikePair);
    forall i | 0 <= i < |st'.likes|
      ensures HasUser(st'.users, st'.likes[i].userId) && HasPost(st'.posts, st'.likes[i].postId)
    {
      assert st'.likes[i] in st'.likes;
      var j :| 0 <= j < |st.likes| && st.likes[j] == st'.likes[i];
    }
  }

  /** A like raises the post's count by one, and only that post's; afterwards the caller has
      liked it. */
  lemma LikeCounts(st: State, caller: int, id: int, other: int)
    requires other != id
    ensures var st' := AfterLike(st, caller, id);
            && HasLiked(st'.likes, caller, id)
            && LikesCount(st'.likes, id) == LikesCount(st.likes, id) + 1
            && LikesCount(st'.likes, other) == LikesCount(st.likes, other)
  {
    var l := Like(caller, id, st.clock);
    SelectSnoc(st.likes, l, LikePair, (caller, id));
    SelectSnoc(st.likes, l, LikePost, id);
    SelectSnoc(st.likes, l, LikePost, other);
  }

  /** Removing an existing like lowers the post's count by one and leaves other posts'
      counts alone; afterwards the caller no longer likes the post. */
  lemma UnlikeCounts(st: State, caller: int, id: int, other: int)
    requires LikesUnique(st) && HasLiked(st.likes, caller, id) && other != id
    ensures var st' := AfterUnlike(st, caller, id);
            && !HasLiked(st'.likes, caller, id)
            && LikesCount(st'.likes, id) == LikesCount(st.likes, id) - 1
            && LikesCount(st'.likes, other) == LikesCount(st.likes, other)
  {
    RejectRemoves(st.likes, LikePair, (caller, id));
    RejectOneCount(st.likes, LikePair, (caller, id), LikePost, id);
    SelectSplit(st.likes, LikePost, other, LikePair, (caller, id));
    SelectNone(Select(st.likes, LikePair, (caller, id)), LikePost, other);
  }

  /** Unliking removes exactly the caller's like of the post: every other (user, post) pair
      is liked afterwards exactly when it was before. */
  lemma UnlikeLeavesOthers(st: State, caller: int, id: int, u: int, p: int)
    requires (u, p) != (caller, id)
    ensures HasLiked(AfterUnlike(st, caller, id).likes, u, p) <==> HasLiked(st.likes, u, p)
  {
    SelectRejectOther(st.likes, LikePair, (u, p), (caller, id));
  }

  /** Unliking right after liking restores the likes table (the clock has moved on). */
  lemma UnlikeUndoesLike(st: State, caller: int, id: int)
    requires !HasLiked(st.likes, caller, id)
    ensures AfterUnlike(AfterLike(st, caller, id), caller, id).likes == st.likes
  {
    RejectUndoesInsert(st.likes, Like(caller, id, st.clock), LikePair);
  }

  /** POST /api/posts/:id/like. The like is refused for a missing post and for a second like
      by the same user; `likes.user_id` references `users(id)`, so an unregistered caller's
      insert fails and the handler answers 500. */
  method AddLike(db: Db, caller: int, id: int) returns (r: Response<LikeReply>)
    requires db.Valid()
    modifies db
    ensures db.Valid()
    ensures var st := old(db.Snapshot());
      && (!HasPost(st.posts, id) ==> r == Err(404, "Post not found"))
      && (HasPost(st.posts, id) && HasLiked(st.likes, caller, id) ==> r == Err(400, "Post already liked"))
      && (HasPost(st.posts, id) && !HasLiked(st.likes, caller, id) && !HasUser(st.users, caller) ==>
            r == Err(500, "Server error"))
      && (r.Ok? <==> HasPost(st.posts, id) && !HasLiked(st.likes, caller, id) && HasUser(st.users, caller))
      && (r.Err? ==> db.Snapshot() == st)
      && (r.Ok? ==> db.Snapshot() == AfterLike(st, caller, id)
                    && r.value == LikeReply("Post liked successfully", LikesCount(st.likes, id) + 1))
  {
    if !HasPost(db.posts, id) {
      return Err(404, "Post not found");
    }
    if HasLiked(db.likes, caller, id) {
      return Err(400, "Post already liked");
    }
    if !HasUser(db.users, caller) {
      return Err(500, "Server error");
    }
    var st := db.Snapshot();
    LikeKeeps(st, caller, id);
    LikeCounts(st, caller, id, id + 1);
    db.likes, db.clock := db.likes + [Like(caller, id, db.clock)], db.clock + 1;
    assert db.Snapshot() == AfterLike(st, caller, id);
    r := Ok(LikeReply("Post liked successfully", LikesCount(db.likes, id)));
  }

  /** DELETE /api/posts/:id/unlike: removes the caller's like; the post itself is not looked
      up, so a missing post answers like a post not liked. */
  method RemoveLike(db: Db, caller: int, id: int) returns (r: Response<LikeReply>)
    requires db.Valid()
    modifies db
    ensures db.Valid()
    ensures var st := old(db.Snapshot());
      && (!HasLiked(st.likes, caller, id) <==> r == Err(400, "Post not liked yet"))
      && (r.Ok? <==> HasLiked(st.likes, caller, id))
      && (r.Err? ==> db.Snapshot() == st)
      && (r.Ok? ==> db.Snapshot() == AfterUnlike(st, caller, id)
                    && r.value.message == "Post unliked successfully"
                    && r.value.likesCount + 1 == LikesCount(st.likes, id))
  {
    if !HasLiked(db.likes, caller, id) {
      return Err(400, "Post not liked yet");
    }
    var st := db.Snapshot();
    UnlikeKeeps(st, caller, id);
    UnlikeCounts(st, caller, id, id + 1);
    db.likes := Reject(db.likes, LikePair, (caller, id));
    assert db.Snapshot() == AfterUnlike(st, caller, id);
    r := Ok(LikeReply("Post unliked successfully", LikesCount(db.likes, id)));
  }

  // ---------------------------------------------------------------------------------------
  // Likers

  /** A like joined with its user's columns. */
  function LikerOf(st: State, l: Like): Liker
    requires HasUser(st.users, l.userId)
  {
    Liker(l.userId, AuthorColumns(st.users, l.userId), l.createdAt)
  }

  /** The `created_at` of the like of post `postId` by `userId`. */
  function LikedAt(likes: seq<Like>, userId: int, postId: int): int
    requires HasLiked(likes, userId, postId)
  {
    Select(likes, LikePair, (userId, postId))[0].createdAt
  }

  /** Helper: under the uniqueness constraint, the stamp of the like with `l`'s pair is
      `l`'s own. */
  lemma LikedAtLike(likes: seq<Like>, l: Like)
    requires Distinct(likes, LikePair) && l in likes
    ensures HasLiked(likes, l.userId, l.postId)
    ensures LikedAt(likes, l.userId, l.postId) == l.createdAt
  {
    var m := Select(likes, LikePair, (l.userId, l.postId));
    assert l in m;
    assert m[0] in m;
    DistinctSame(likes, LikePair, m[0], l);
  }

  /** GET /api/posts/:id/likes: the users who liked the post, most recent like first, each
      with its user's columns and the time of the like. No existence check: a missing post
      has no likers. */
  function Likers(st: State, id: int): (r: seq<Liker>)
    requires LikesLinked(st) && LikesUnique(st)
    ensures |r| == LikesCount(st.likes, id)
    ensures forall i :: 0 <= i < |r| ==>
              && HasLiked(st.likes, r[i].id, id) && HasUser(st.users, r[i].id)
              && r[i].author == AuthorColumns(st.users, r[i].id)
              && r[i].likedAt == LikedAt(st.likes, r[i].id, id)
  {
    var m := Select(st.likes, LikePost, id);
    var liked := Reverse(m);
    forall i | 0 <= i < |liked|
      ensures && HasUser(st.users, liked[i].userId) && HasLiked(st.likes, liked[i].userId, id)
              && LikedAt(st.likes, liked[i].userId, id) == liked[i].createdAt
    {
      var l := m[|m| - 1 - i];
      assert liked[i] == l && l in m;
      var j :| 0 <= j < |st.likes| && st.likes[j] == l;
      LikedAtLike(st.likes, l);
    }
    seq(|liked|, i requires 0 <= i < |liked| => LikerOf(st, liked[i]))
  }

  function LikerTime(l: Liker): int { l.likedAt }
  function LikerId(l: Liker): int { l.id }

  /** The likers come most recent like first. */
  lemma LikersNewestFirst(st: State, id: int)
    requires LikesLinked(st) && LikesUnique(st) && Increasing(st.likes, LikeCreated)
    ensures Decreasing(Likers(st, id), LikerTime)
    ensures var r := Likers(st, id);
            forall i, j :: 0 <= i < j < |r| ==> LikedAt(st.likes, r[i].id, id) > LikedAt(st.likes, r[j].id, id)
  {
    NewestFirstOrder(st.likes, LikePost, id, LikeCreated);
  }

  /** A user is listed exactly when they have liked the post. */
  lemma LikersAreTheLikers(st: State, id: int, u: int)
    requires LikesLinked(st) && LikesUnique(st)
    ensures (exists i :: 0 <= i < |Likers(st, id)| && Likers(st, id)[i].id == u) <==> HasLiked(st.likes, u, id)
  {
    var m := Select(st.likes, LikePost, id);
    var liked := Reverse(m);
    var r := Likers(st, id);
    if HasLiked(st.likes, u, id) {
      var mine := Select(st.likes, LikePair, (u, id));
      assert mine[0] in mine;
      var l := mine[0];
      assert l in m;
      var k :| 0 <= k < |m| && m[k] == l;
      assert r[|m| - 1 - k] == LikerOf(st, liked[|m| - 1 - k]);
      assert liked[|m| - 1 - k] == l;
    }
  }

  /** No user is listed twice: one like per (user, post). */
  lemma LikersDistinct(st: State, id: int)
    requires LikesLinked(st) && LikesUnique(st)
    ensures Distinct(Likers(st, id), LikerId)
  {
    var m := Select(st.likes, LikePost, id);
    var liked := Reverse(m);
    var r := Likers(st, id);
    SelectDistinct(st.likes, LikePost, id, LikePair);
    forall i, j | 0 <= i < j < |r| ensures LikerId(r[i]) != LikerId(r[j]) {
      var a, b := |m| - 1 - j, |m| - 1 - i;
      assert liked[i] == m[b] && liked[j] == m[a];
      assert m[a] in m && m[b] in m;
      assert LikePair(m[a]) != LikePair(m[b]);
    }
  }

  /** A post's like count is the number of distinct users who liked it. */
  lemma LikesCountIsLikers(st: State, id: int)
    requires LikesUnique(st)
    ensures LikesCount(st.likes, id) == |Image(Select(st.likes, LikePost, id), LikeUser)|
  {
    DistinctCount(st.likes, LikePost, id, LikeUser, LikePair);
  }

  /** A post that does not exist has no likers (an empty list, not an error). */
  lemma LikersOfMissingPost(st: State, id: int)
    requires LikesLinked(st) && LikesUnique(st) && !HasPost(st.posts, id)
    ensures Likers(st, id) == []
  {
    forall l | l in st.likes ensures LikePost(l) != id {
      var j :| 0 <= j < |st.likes| && st.likes[j] == l;
    }
    SelectNone(st.likes, LikePost, id);
  }
}
