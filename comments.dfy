/** The comment routes: a post's comments in conversation order, and adding, editing and
    deleting a comment. */
module CommentRoutes {
  import opened Tables
  import opened Text
  import opened Store

  // ---------------------------------------------------------------------------------------
  // Listing

  /** GET /api/comments/post/:postId: the post's comments, oldest first, each with its
      author's columns. No existence check: a missing post has no comments. */
  function CommentsOf(st: State, postId: int): (r: seq<CommentRow>)
    requires CommentsLinked(st)
    ensures |r| == CommentsCount(st.comments, postId)
    ensures forall i :: 0 <= i < |r| ==>
              && r[i].comment in st.comments && r[i].comment.postId == postId
              && r[i].author == AuthorColumns(st.users, r[i].comment.userId)
  {
    var m := Select(st.comments, CommentPost, postId);
    assert forall i :: 0 <= i < |m| ==> HasUser(st.users, m[i].userId) by {
      forall i | 0 <= i < |m| ensures HasUser(st.users, m[i].userId) {
        assert m[i] in m;
        var j :| 0 <= j < |st.comments| && st.comments[j] == m[i];
      }
    }
    assert forall i :: 0 <= i < |m| ==> m[i] in m;
    seq(|m|, i requires 0 <= i < |m| => JoinComment(st, m[i]))
  }

  /** The creation stamp of a returned comment row. */
  function CommentRowCreated(row: CommentRow): int { row.comment.createdAt }

  /** The comments of a post come oldest first, and every comment on the post is there. */
  lemma CommentsListed(st: State, postId: int, c: Comment)
    requires CommentsLinked(st) && Increasing(st.comments, CommentCreated)
    ensures Increasing(CommentsOf(st, postId), CommentRowCreated)
    ensures c in st.comments && c.postId == postId ==>
              exists i :: 0 <= i < |CommentsOf(st, postId)| && CommentsOf(st, postId)[i].comment == c
  {
    var m := Select(st.comments, CommentPost, postId);
    var r := CommentsOf(st, postId);
    SelectIncreasing(st.comments, CommentPost, postId, CommentCreated);
    assert forall i :: 0 <= i < |r| ==> r[i].comment == m[i];
    if c in st.comments && c.postId == postId {
      assert c in m;
      var k :| 0 <= k < |m| && m[k] == c;
      assert r[k].comment == c;
    }
  }

  /** A post that does not exist has no comments (an empty list, not an error). */
  lemma CommentsOfMissingPost(st: State, postId: int)
    requires CommentsLinked(st) && !HasPost(st.posts, postId)
    ensures CommentsOf(st, postId) == []
  {
    forall c | c in st.comments ensures CommentPost(c) != postId {
      var j :| 0 <= j < |st.comments| && st.comments[j] == c;
    }
    SelectNone(st.comments, CommentPost, postId);
  }

  // ---------------------------------------------------------------------------------------
  // Create

  /** The row a successful create inserts: the content exactly as sent (not trimmed). */
  function NewComment(st: State, caller: int, postId: int, content: string): Comment {
    Comment(st.nextCommentId, caller, postId, content, st.clock, st.clock)
  }

  function AfterComment(st: State, caller: int, postId: int, content: string): State {
    st.(comments := st.comments + [NewComment(st, caller, postId, content)],
        clock := st.clock + 1, nextCommentId := st.nextCommentId + 1)
  }

  /** The id the next comment receives is not in use: no comment has it yet. */
  lemma NewCommentIdFresh(st: State)
    requires CommentsOrdered(st)
    ensures !HasComment(st.comments, st.nextCommentId)
  {
    if HasComment(st.comments, st.nextCommentId) {
      CommentIdBelowNext(st, st.nextCommentId);
    }
  }

  /** A comment by a registered user on an existing post keeps every constraint. */
  lemma CommentKeeps(st: State, caller: int, postId: int, content: string)
    requires Consistent(st) && HasUser(st.users, caller) && HasPost(st.posts, postId)
    ensures Consistent(AfterComment(st, caller, postId, content))
  {
    var c := NewComment(st, caller, postId, content);
    IncreasingSnoc(st.comments, c, CommentId);
    IncreasingSnoc(st.comments, c, CommentCreated);
  }

  /** A new comment adds one to its post's comment count and leaves every other post's. */
  lemma CommentCounts(st: State, caller: int, postId: int, content: string, other: int)
    requires other != postId
    ensures var st' := AfterComment(st, caller, postId, content);
            && CommentsCount(st'.comments, postId) == CommentsCount(st.comments, postId) + 1
            && CommentsCount(st'.comments, other) == CommentsCount(st.comments, other)
  {
    var c := NewComment(st, caller, postId, content);
    SelectSnoc(st.comments, c, CommentPost, postId);
    SelectSnoc(st.comments, c, CommentPost, other);
  }

  /** A new comment comes last in its post's list, which otherwise stays as it was. */
  lemma CommentAppends(st: State, caller: int, postId: int, content: string)
    requires CommentsLinked(st) && HasUser(st.users, caller) && HasPost(st.posts, postId)
    ensures var st', c := AfterComment(st, caller, postId, content), NewComment(st, caller, postId, content);
            && CommentsLinked(st')
            && CommentsOf(st', postId) == CommentsOf(st, postId) + [JoinComment(st', c)]
  {
    var st', c := AfterComment(st, caller, postId, content), NewComment(st, caller, postId, content);
    var m := Select(st.comments, CommentPost, postId);
    SelectSnoc(st.comments, c, CommentPost, postId);
    assert CommentsLinked(st');
    var a, b := CommentsOf(st', postId), CommentsOf(st, postId);
    forall i | 0 <= i < |a| ensures a[i] == (b + [JoinComment(st', c)])[i] {
      if i < |b| {
        assert m[i] in m;
        var j :| 0 <= j < |st.comments| && st.comments[j] == m[i];
        assert a[i] == JoinComment(st', m[i]) && b[i] == JoinComment(st, m[i]);
      }
    }
  }

  /** POST /api/comments/post/:postId. The content is checked before the post is looked up;
      `comments.user_id` references `users(id)`, so an unregistered caller's insert fails
      and the handler answers 500. */
  method CreateComment(db: Db, caller: int, postId: int, content: Option<string>) returns (r: Response<CommentRow>)
    requires db.Valid()
    modifies db
    ensures db.Valid()
    ensures var st := old(db.Snapshot());
      && (MissingOrBlank(content) ==> r == Err(400, "Comment content is required"))
      && (!MissingOrBlank(content) && !HasPost(st.posts, postId) ==> r == Err(404, "Post not found"))
      && ((!MissingOrBlank(content) && HasPost(st.posts, postId) && !HasUser(st.users, caller)) ==>
            r == Err(500, "Server error") && db.Snapshot() == st.(nextCommentId := st.nextCommentId + 1))
      && (r.Ok? <==> !MissingOrBlank(content) && HasPost(st.posts, postId) && HasUser(st.users, caller))
      && (r.Err? && r.status != 500 ==> db.Snapshot() == st)
      && (r.Ok? ==>
            var c := NewComment(st, caller, postId, content.value);
            && db.Snapshot() == AfterComment(st, caller, postId, content.value)
            && r.value == JoinComment(db.Snapshot(), c)
            && r.value.comment.content == content.value && r.value.comment.userId == caller)
  {
    if MissingOrBlank(content) {
      return Err(400, "Comment content is required");
    }
    if !HasPost(db.posts, postId) {
      return Err(404, "Post not found");
    }
    if !HasUser(db.users, caller) {
      // comments.user_id references users(id): the insert fails, having drawn its id from
      // the sequence, and the handler answers 500
      db.nextCommentId := db.nextCommentId + 1;
      return Err(500, "Server error");
    }
    var st := db.Snapshot();
    var st' := AfterComment(st, caller, postId, content.value);
    CommentKeeps(st, caller, postId, content.value);
    db.comments, db.clock, db.nextCommentId := st'.comments, st'.clock, st'.nextCommentId;
    assert db.Snapshot() == st';
    r := Ok(JoinComment(st', NewComment(st, caller, postId, content.value)));
  }

  // ---------------------------------------------------------------------------------------
  // Edit

  /** `UPDATE comments SET content = $1, updated_at = CURRENT_TIMESTAMP WHERE id = $2`. */
  function EditComment(comments: seq<Comment>, id: int, content: string, stamp: int): (r: seq<Comment>)
    ensures SameKeys(comments, r, CommentId) && SameKeys(comments, r, CommentCreated)
    ensures forall i :: 0 <= i < |r| && r[i].id != id ==> r[i] == comments[i]
    ensures forall i :: 0 <= i < |r| && r[i].id == id ==>
              r[i] == comments[i].(content := content, updatedAt := stamp)
  {
    seq(|comments|, i requires 0 <= i < |comments| =>
      if comments[i].id == id then comments[i].(content := content, updatedAt := stamp) else comments[i])
  }

  function AfterCommentEdit(st: State, id: int, content: string): State {
    st.(comments := EditComment(st.comments, id, content, st.clock), clock := st.clock + 1)
  }

  /** Editing a comment keeps every constraint: ids, authors, posts and creation stamps do
      not change. */
  lemma CommentEditKeeps(st: State, id: int, content: string)
    requires Consistent(st)
    ensures Consistent(AfterCommentEdit(st, id, content))
  {
    var st' := AfterCommentEdit(st, id, content);
    SameKeysKeep(st.comments, st'.comments, CommentId, CommentId);
    SameKeysKeep(st.comments, st'.comments, CommentCreated, CommentId);
    forall i | 0 <= i < |st'.comments|
      ensures HasUser(st'.users, st'.comments[i].userId) && HasPost(st'.posts, st'.comments[i].postId)
    {
    }
  }

  /** After an edit the comment has the new content and stamp, and the same author, post and
      creation stamp. */
  lemma CommentEditReadsBack(st: State, id: int, content: string)
    requires CommentsOrdered(st) && HasComment(st.comments, id)
    ensures var before, st' := FindComment(st.comments, id).value, AfterCommentEdit(st, id, content);
            && HasComment(st'.comments, id)
            && FindComment(st'.comments, id).value == before.(content := content, updatedAt := st.clock)
  {
    var st' := AfterCommentEdit(st, id, content);
    IncreasingDistinct(st.comments, CommentId);
    SameKeysPresent(st.comments, st'.comments, CommentId);
    var c, c' := FindComment(st.comments, id).value, FindComment(st'.comments, id).value;
    var i :| 0 <= i < |st'.comments| && st'.comments[i] == c';
    assert st.comments[i] in st.comments;
    DistinctSame(st.comments, CommentId, st.comments[i], c);
  }

  /** PUT /api/comments/:id: the content is checked first, then existence, then ownership. */
  method UpdateComment(db: Db, caller: int, id: int, content: Option<string>) returns (r: Response<CommentRow>)
    requires db.Valid()
    modifies db
    ensures db.Valid()
    ensures var st := old(db.Snapshot());
      && (MissingOrBlank(content) ==> r == Err(400, "Comment content is required"))
      && (!MissingOrBlank(content) && !HasComment(st.comments, id) ==> r == Err(404, "Comment not found"))
      && ((!MissingOrBlank(content) && HasComment(st.comments, id) && FindComment(st.comments, id).value.userId != caller)
            ==> r == Err(403, "Not authorized to edit this comment"))
      && (r.Ok? <==> !MissingOrBlank(content) && HasComment(st.comments, id)
                     && FindComment(st.comments, id).value.userId == caller)
      && (r.Err? ==> db.Snapshot() == st)
      && (r.Ok? ==>
            && db.Snapshot() == AfterCommentEdit(st, id, content.value)
            && r.value.comment == FindComment(st.comments, id).value.(content := content.value, updatedAt := st.clock)
            && r.value.comment in db.comments
            && r.value.author == AuthorColumns(db.users, r.value.comment.userId))
  {
    if MissingOrBlank(content) {
      return Err(400, "Comment content is required");
    }
    var found := FindComment(db.comments, id);
    if found.None? {
      return Err(404, "Comment not found");
    }
    if found.value.userId != caller {
      return Err(403, "Not authorized to edit this comment");
    }
    var st := db.Snapshot();
    var st' := AfterCommentEdit(st, id, content.value);
    CommentEditKeeps(st, id, content.value);
    CommentEditReadsBack(st, id, content.value);
    db.comments, db.clock := st'.comments, st'.clock;
    assert db.Snapshot() == st';
    r := Ok(JoinComment(st', FindComment(st'.comments, id).value));
  }

  // ---------------------------------------------------------------------------------------
  // Delete

  function AfterCommentDelete(st: State, id: int): State {
    st.(comments := Reject(st.comments, CommentId, id))
  }

  /** Deleting a comment keeps every constraint. */
  lemma CommentDeleteKeeps(st: State, id: int)
    requires Consistent(st)
    ensures Consistent(AfterCommentDelete(st, id))
  {
    var st' := AfterCommentDelete(st, id);
    RejectIncreasing(st.comments, CommentId, id, CommentId);
    RejectIncreasing(st.comments, CommentId, id, CommentCreated);
    RejectBounded(st.comments, CommentId, id, CommentId, st.nextCommentId);
    RejectBounded(st.comments, CommentId, id, CommentCreated, st.clock);
    forall i | 0 <= i < |st'.comments|
      ensures HasUser(st'.users, st'.comments[i].userId) && HasPost(st'.posts, st'.comments[i].postId)
    {
      assert st'.comments[i] in st'.comments;
      var j :| 0 <= j < |st.comments| && st.comments[j] == st'.comments[i];
    }
  }

  /** Deleting a comment removes it and lowers its post's comment count by one. */
  lemma CommentDeleteCounts(st: State, id: int)
    requires CommentsOrdered(st) && HasComment(st.comments, id)
    ensures var st', postId := AfterCommentDelete(st, id), FindComment(st.comments, id).value.postId;
            && !HasComment(st'.comments, id)
            && CommentsCount(st'.comments, postId) == CommentsCount(st.comments, postId) - 1
  {
    var c := FindComment(st.comments, id).value;
    IncreasingDistinct(st.comments, CommentId);
    RejectRemoves(st.comments, CommentId, id);
    forall i | 0 <= i < |st.comments| && CommentId(st.comments[i]) == id
      ensures CommentPost(st.comments[i]) == c.postId
    {
      DistinctSame(st.comments, CommentId, st.comments[i], c);
    }
    RejectOneCount(st.comments, CommentId, id, CommentPost, c.postId);
  }

  /** Deleting a comment leaves every other comment exactly as it reads. */
  lemma CommentDeleteLeavesOthers(st: State, id: int, other: int)
    requires other != id
    ensures FindComment(AfterCommentDelete(st, id).comments, other) == FindComment(st.comments, other)
  {
    SelectRejectOther(st.comments, CommentId, other, id);
  }

  /** DELETE /api/comments/:id: only the comment's author may delete it. */
  method DeleteComment(db: Db, caller: int, id: int) returns (r: Response<string>)
    requires db.Valid()
    modifies db
    ensures db.Valid()
    ensures var st := old(db.Snapshot());
      && (!HasComment(st.comments, id) ==> r == Err(404, "Comment not found"))
      && (HasComment(st.comments, id) && FindComment(st.comments, id).value.userId != caller ==>
            r == Err(403, "Not authorized to delete this comment"))
      && (r.Ok? <==> HasComment(st.comments, id) && FindComment(st.comments, id).value.userId == caller)
      && (r.Err? ==> db.Snapshot() == st)
      && (r.Ok? ==> db.Snapshot() == AfterCommentDelete(st, id) && r.value == "Comment deleted successfully")
  {
    var found := FindComment(db.comments, id);
    if found.None? {
      return Err(404, "Comment not found");
    }
    if found.value.userId != caller {
      return Err(403, "Not authorized to delete this comment");
    }
    var st := db.Snapshot();
    var st' := AfterCommentDelete(st, id);
    CommentDeleteKeeps(st, id);
    db.comments := st'.comments;
    assert db.Snapshot() == st';
    r := Ok("Comment deleted successfully");
  }
}
