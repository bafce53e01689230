/** The relational store the route handlers share: the five tables, the integrity constraints
    the database schema enforces on them, and the read-model joins (author columns and live
    counts) the handlers attach to the rows they return.

    Tables are sequences in insertion order. `clock` stands for `CURRENT_TIMESTAMP`: every
    insert or update stamps its row with the clock and advances it, so "ORDER BY created_at"
    is insertion order. `nextPostId` and `nextCommentId` are the SERIAL sequences of the posts
    and comments tables. */
module Store {
  import opened Tables
  import opened Text

  datatype User = User(id: int, username: string, email: string, fullName: Option<string>,
                       bio: Option<string>, profilePicture: Option<string>,
                       createdAt: int, updatedAt: int)

  datatype Post = Post(id: int, userId: int, content: Option<string>, imageUrl: Option<string>,
                       createdAt: int, updatedAt: int)

  datatype Comment = Comment(id: int, userId: int, postId: int, content: string,
                             createdAt: int, updatedAt: int)

  datatype Like = Like(userId: int, postId: int, createdAt: int)

  datatype Follow = Follow(followerId: int, followingId: int, createdAt: int)

  /** The outcome of a request: the JSON body of a 2xx response, or an HTTP error status
      with the `error` message the handler sends. */
  datatype Response<T> = Ok(value: T) | Err(status: int, error: string)

  // Column accessors, used as the keys of `Select`, `Reject` and the ordering predicates.
  function UserId(u: User): int { u.id }
  function PostId(p: Post): int { p.id }
  function PostAuthor(p: Post): int { p.userId }
  function PostCreated(p: Post): int { p.createdAt }
  function CommentId(c: Comment): int { c.id }
  function CommentPost(c: Comment): int { c.postId }
  function CommentCreated(c: Comment): int { c.createdAt }
  function LikeUser(l: Like): int { l.userId }
  function LikePost(l: Like): int { l.postId }
  function LikePair(l: Like): (int, int) { (l.userId, l.postId) }
  function LikeCreated(l: Like): int { l.createdAt }
  function FollowFollower(f: Follow): int { f.followerId }
  function FollowFollowing(f: Follow): int { f.followingId }
  function FollowPair(f: Follow): (int, int) { (f.followerId, f.followingId) }
  function FollowCreated(f: Follow): int { f.createdAt }

  /** The whole database at one moment. */
  datatype State = State(users: seq<User>, posts: seq<Post>, comments: seq<Comment>,
                         likes: seq<Like>, follows: seq<Follow>,
                         clock: int, nextPostId: int, nextCommentId: int)

  // Existence tests (`SELECT ... WHERE ...` returning at least one row).
  predicate HasUser(users: seq<User>, id: int) { Select(users, UserId, id) != [] }
  predicate HasPost(posts: seq<Post>, id: int) { Select(posts, PostId, id) != [] }
  predicate HasComment(comments: seq<Comment>, id: int) { Select(comments, CommentId, id) != [] }
  predicate HasLiked(likes: seq<Like>, userId: int, postId: int) { Select(likes, LikePair, (userId, postId)) != [] }
  predicate IsFollowing(follows: seq<Follow>, followerId: int, followingId: int) {
    Select(follows, FollowPair, (followerId, followingId)) != []
  }

  /** The user row with primary key `id`, if any. */
  function FindUser(users: seq<User>, id: int): (r: Option<User>)
    ensures r.Some? <==> HasUser(users, id)
    ensures r.Some? ==> r.value in users && r.value.id == id
  {
    var m := Select(users, UserId, id);
    if m == [] then None else assert m[0] in m; Some(m[0])
  }

  /** The post row with primary key `id`, if any. */
  function FindPost(posts: seq<Post>, id: int): (r: Option<Post>)
    ensures r.Some? <==> HasPost(posts, id)
    ensures r.Some? ==> r.value in posts && r.value.id == id
  {
    var m := Select(posts, PostId, id);
    if m == [] then None else assert m[0] in m; Some(m[0])
  }

  /** The comment row with primary key `id`, if any. */
  function FindComment(comments: seq<Comment>, id: int): (r: Option<Comment>)
    ensures r.Some? <==> HasComment(comments, id)
    ensures r.Some? ==> r.value in comments && r.value.id == id
  {
    var m := Select(comments, CommentId, id);
    if m == [] then None else assert m[0] in m; Some(m[0])
  }

  // Live aggregates: `SELECT COUNT(*) FROM ... WHERE ...`, never stored.
  function LikesCount(likes: seq<Like>, postId: int): nat { |Select(likes, LikePost, postId)| }
  function CommentsCount(comments: seq<Comment>, postId: int): nat { |Select(comments, CommentPost, postId)| }
  function PostsCount(posts: seq<Post>, userId: int): nat { |Select(posts, PostAuthor, userId)| }
  function FollowersCount(follows: seq<Follow>, userId: int): nat { |Select(follows, FollowFollowing, userId)| }
  function FollowingCount(follows: seq<Follow>, userId: int): nat { |Select(follows, FollowFollower, userId)| }

  // ---------------------------------------------------------------------------------------
  // Integrity constraints of the schema

  ghost predicate UsersOk(st: State) {
    Distinct(st.users, UserId)
  }

  /** Post ids come from the SERIAL sequence and rows are stamped with the clock. */
  ghost predicate PostsOrdered(st: State) {
    && Increasing(st.posts, PostId) && Bounded(st.posts, PostId, st.nextPostId)
    && Increasing(st.posts, PostCreated) && Bounded(st.posts, PostCreated, st.clock)
  }

  /** `posts.user_id REFERENCES users(id)`. */
  ghost predicate PostsAuthored(st: State) {
    forall i :: 0 <= i < |st.posts| ==> HasUser(st.users, st.posts[i].userId)
  }

  ghost predicate CommentsOrdered(st: State) {
    && Increasing(st.comments, CommentId) && Bounded(st.comments, CommentId, st.nextCommentId)
    && Increasing(st.comments, CommentCreated) && Bounded(st.comments, CommentCreated, st.clock)
  }

  /** `comments.user_id REFERENCES users(id)`, `comments.post_id REFERENCES posts(id)`. */
  ghost predicate CommentsLinked(st: State) {
    forall i :: 0 <= i < |st.comments| ==>
      HasUser(st.users, st.comments[i].userId) && HasPost(st.posts, st.comments[i].postId)
  }

  ghost predicate LikesOrdered(st: State) {
    Increasing(st.likes, LikeCreated) && Bounded(st.likes, LikeCreated, st.clock)
  }

  /** `UNIQUE(user_id, post_id)` on likes. */
  ghost predicate LikesUnique(st: State) {
    Distinct(st.likes, LikePair)
  }

  /** `likes.user_id REFERENCES users(id)`, `likes.post_id REFERENCES posts(id)`. */
  ghost predicate LikesLinked(st: State) {
    forall i :: 0 <= i < |st.likes| ==>
      HasUser(st.users, st.likes[i].userId) && HasPost(st.posts, st.likes[i].postId)
  }

  ghost predicate FollowsOrdered(st: State) {
    Increasing(st.follows, FollowCreated) && Bounded(st.follows, FollowCreated, st.clock)
  }

  /** `UNIQUE(follower_id, following_id)` and `CHECK (follower_id != following_id)`. */
  ghost predicate FollowsUnique(st: State) {
    && Distinct(st.follows, FollowPair)
    && (forall i :: 0 <= i < |st.follows| ==> st.follows[i].followerId != st.follows[i].followingId)
  }

  /** Both ends of a follow reference `users(id)`. */
  ghost predicate FollowsLinked(st: State) {
    forall i :: 0 <= i < |st.follows| ==>
      HasUser(st.users, st.follows[i].followerId) && HasUser(st.users, st.follows[i].followingId)
  }

  /** Primary keys, the unique (user, post) and (follower, following) constraints, the
      no-self-follow check, the foreign keys, and timestamps in insertion order. */
  ghost predicate Consistent(st: State) {
    && UsersOk(st) && PostsOrdered(st) && PostsAuthored(st)
    && CommentsOrdered(st) && CommentsLinked(st)
    && LikesOrdered(st) && LikesUnique(st) && LikesLinked(st)
    && FollowsOrdered(st) && FollowsUnique(st) && FollowsLinked(st)
  }

  /** Every post id in use was handed out by the sequence already. */
  lemma PostIdBelowNext(st: State, id: int)
    requires PostsOrdered(st) && HasPost(st.posts, id)
    ensures id < st.nextPostId
  {
    var m := Select(st.posts, PostId, id);
    assert m[0] in m;
  }

  /** Every comment id in use was handed out by the sequence already. */
  lemma CommentIdBelowNext(st: State, id: int)
    requires CommentsOrdered(st) && HasComment(st.comments, id)
    ensures id < st.nextCommentId
  {
    var m := Select(st.comments, CommentId, id);
    assert m[0] in m;
  }

  // ---------------------------------------------------------------------------------------
  // Read-model joins

  /** The `u.username, u.full_name, u.profile_picture` columns joined onto a row. */
  datatype Author = Author(username: string, fullName: Option<string>, profilePicture: Option<string>)

  function AuthorOf(u: User): Author { Author(u.username, u.fullName, u.profilePicture) }

  /** `INNER JOIN users u ON ... = u.id`: the author columns of the user row with id `id`. */
  function AuthorColumns(users: seq<User>, id: int): (a: Author)
    requires HasUser(users, id)
    ensures exists u :: u in users && u.id == id && a == AuthorOf(u)
  {
    AuthorOf(FindUser(users, id).value)
  }

  /** A post as the handlers return it: `p.*`, the author's columns and both live counts. */
  datatype PostRow = PostRow(post: Post, author: Author, likesCount: nat, commentsCount: nat)

  /** The creation stamp of a returned post row. */
  function PostRowCreated(row: PostRow): int { row.post.createdAt }

  /** A comment as the handlers return it: `c.*` and the commenter's columns. */
  datatype CommentRow = CommentRow(comment: Comment, author: Author)

  function JoinPost(st: State, p: Post): (r: PostRow)
    requires HasUser(st.users, p.userId)
    ensures r.post == p && r.author == AuthorColumns(st.users, p.userId)
    ensures r.likesCount == LikesCount(st.likes, p.id) && r.commentsCount == CommentsCount(st.comments, p.id)
  {
    PostRow(p, AuthorColumns(st.users, p.userId), LikesCount(st.likes, p.id), CommentsCount(st.comments, p.id))
  }

  function JoinComment(st: State, c: Comment): (r: CommentRow)
    requires HasUser(st.users, c.userId)
    ensures r.comment == c && r.author == AuthorColumns(st.users, c.userId)
  {
    CommentRow(c, AuthorColumns(st.users, c.userId))
  }

  // ---------------------------------------------------------------------------------------
  // The shared store handle

  /** The database connection pool every route file shares, holding the five tables. */
  class Db {
    var users: seq<User>
    var posts: seq<Post>
    var comments: seq<Comment>
    var likes: seq<Like>
    var follows: seq<Follow>
    var clock: int
    var nextPostId: int
    var nextCommentId: int

    function Snapshot(): State
      reads this
    {
      State(users, posts, comments, likes, follows, clock, nextPostId, nextCommentId)
    }

    ghost predicate Valid()
      reads this
    {
      Consistent(Snapshot())
    }

    /** A database whose users table holds `registered` (accounts are created outside the
        routes modelled here) and whose other tables are empty. */
    constructor (registered: seq<User>)
      requires Distinct(registered, UserId)
      ensures Valid()
      ensures Snapshot() == State(registered, [], [], [], [], 0, 1, 1)
    {
      users, posts, comments, likes, follows := registered, [], [], [], [];
      clock, nextPostId, nextCommentId := 0, 1, 1;
    }
  }
}
