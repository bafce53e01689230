/** The user routes: the caller's own account, public profiles with their counts, editing
    the profile and the profile picture, following and unfollowing, the follower and
    following lists, and a user's posts. */
module UserRoutes {
  import opened Tables
  import opened Text
  import opened Store

  /** GET /api/users/me: `id, username, email, full_name, bio, profile_picture, created_at`. */
  datatype Account = Account(id: int, username: string, email: string, fullName: Option<string>,
                             bio: Option<string>, profilePicture: Option<string>, createdAt: int)

  /** GET /api/users/:id: the public columns (no email) and three live counts. */
  datatype Profile = Profile(id: int, username: string, fullName: Option<string>, bio: Option<string>,
                             profilePicture: Option<string>, createdAt: int,
                             postsCount: nat, followersCount: nat, followingCount: nat)

  /** The `RETURNING id, username, email, full_name, bio, profile_picture` of a profile edit. */
  datatype Edited = Edited(id: int, username: string, email: string, fullName: Option<string>,
                           bio: Option<string>, profilePicture: Option<string>)

  /** The `RETURNING id, username, profile_picture` of a picture change. */
  datatype Avatar = Avatar(id: int, username: string, profilePicture: Option<string>)

  /** A row of the follower and following lists: `u.id, u.username, u.full_name, u.profile_picture`. */
  datatype Card = Card(id: int, author: Author)

  function AccountOf(u: User): Account {
    Account(u.id, u.username, u.email, u.fullName, u.bio, u.profilePicture, u.createdAt)
  }

  // ---------------------------------------------------------------------------------------
  // Reading accounts and profiles

  /** GET /api/users/me: the caller's own row, or 404 when the account is gone. */
  function GetMe(st: State, caller: int): (r: Response<Account>)
    ensures !HasUser(st.users, caller) <==> r == Err(404, "User not found")
    ensures r.Ok? <==> HasUser(st.users, caller)
    ensures r.Ok? ==> exists u :: u in st.users && u.id == caller && r.value == AccountOf(u)
  {
    match FindUser(st.users, caller)
    case None => Err(404, "User not found")
    case Some(u) => Ok(AccountOf(u))
  }

  /** GET /api/users/:id: the public columns with the user's post, follower and following
      counts, or 404. */
  function GetProfile(st: State, id: int): (r: Response<Profile>)
    ensures !HasUser(st.users, id) <==> r == Err(404, "User not found")
    ensures r.Ok? <==> HasUser(st.users, id)
    ensures r.Ok? ==> && r.value.id == id
                      && r.value.postsCount == PostsCount(st.posts, id)
                      && r.value.followersCount == FollowersCount(st.follows, id)
                      && r.value.followingCount == FollowingCount(st.follows, id)
                      && exists u :: u in st.users && u.id == id && u.username == r.value.username
                                     && u.fullName == r.value.fullName && u.bio == r.value.bio
                                     && u.profilePicture == r.value.profilePicture
                                     && u.createdAt == r.value.createdAt
  {
    match FindUser(st.users, id)
    case None => Err(404, "User not found")
    case Some(u) =>
      Ok(Profile(u.id, u.username, u.fullName, u.bio, u.profilePicture, u.createdAt,
                 PostsCount(st.posts, id), FollowersCount(st.follows, id), FollowingCount(st.follows, id)))
  }

  // ---------------------------------------------------------------------------------------
  // Editing the profile and the picture

  /** `UPDATE users SET full_name = $1, bio = $2, updated_at = CURRENT_TIMESTAMP WHERE id = $3`. */
  function SetProfile(users: seq<User>, id: int, fullName: Option<string>, bio: Option<string>, stamp: int)
    : (r: seq<User>)
    ensures SameKeys(users, r, UserId)
    ensures forall i :: 0 <= i < |r| && r[i].id != id ==> r[i] == users[i]
    ensures forall i :: 0 <= i < |r| && r[i].id == id ==>
              r[i] == users[i].(fullName := fullName, bio := bio, updatedAt := stamp)
  {
    seq(|users|, i requires 0 <= i < |users| =>
      if users[i].id == id then users[i].(fullName := fullName, bio := bio, updatedAt := stamp) else users[i])
  }

  /** `UPDATE users SET profile_picture = $1, updated_at = CURRENT_TIMESTAMP WHERE id = $2`. */
  function SetPicture(users: seq<User>, id: int, url: string, stamp: int): (r: seq<User>)
    ensures SameKeys(users, r, UserId)
    ensures forall i :: 0 <= i < |r| && r[i].id != id ==> r[i] == users[i]
    ensures forall i :: 0 <= i < |r| && r[i].id == id ==>
              r[i] == users[i].(profilePicture := Some(url), updatedAt := stamp)
  {
    seq(|users|, i requires 0 <= i < |users| =>
      if users[i].id == id then users[i].(profilePicture := Some(url), updatedAt := stamp) else users[i])
  }

  function AfterProfile(st: State, caller: int, fullName: Option<string>, bio: Option<string>): State {
    st.(users := SetProfile(st.users, caller, fullName, bio, st.clock), clock := st.clock + 1)
  }

  function AfterPicture(st: State, caller: int, url: string): State {
    st.(users := SetPicture(st.users, caller, url, st.clock), clock := st.clock + 1)
  }

  /** Rewriting the users table without touching its ids keeps every constraint: the same
      users exist, so every foreign key still resolves. */
  lemma UsersRewriteKeeps(st: State, users: seq<User>, clock: int)
    requires Consistent(st) && SameKeys(st.users, users, UserId) && clock >= st.clock
    ensures Consistent(st.(users := users, clock := clock))
  {
    SameKeysKeep(st.users, users, UserId, UserId);
    SameKeysPresent(st.users, users, UserId);
  }

  /** After a profile edit, the caller's account reads back with the new name and biography
      and everything else as before. */
  lemma ProfileReadsBack(st: State, caller: int, fullName: Option<string>, bio: Option<string>)
    requires UsersOk(st) && HasUser(st.users, caller)
    ensures var before, after := GetMe(st, caller), GetMe(AfterProfile(st, caller, fullName, bio), caller);
            after == Ok(before.value.(fullName := fullName, bio := bio))
  {
    var users' := SetProfile(st.users, caller, fullName, bio, st.clock);
    SameKeysPresent(st.users, users', UserId);
    var u, u' := FindUser(st.users, caller).value, FindUser(users', caller).value;
    var i :| 0 <= i < |users'| && users'[i] == u';
    assert st.users[i] in st.users;
    DistinctSame(st.users, UserId, st.users[i], u);
  }

  /** After a picture change, the caller's account reads back with the new picture and
      everything else as before. */
  lemma PictureReadsBack(st: State, caller: int, url: string)
    requires UsersOk(st) && HasUser(st.users, caller)
    ensures var before, after := GetMe(st, caller), GetMe(AfterPicture(st, caller, url), caller);
            after == Ok(before.value.(profilePicture := Some(url)))
  {
    var users' := SetPicture(st.users, caller, url, st.clock);
    SameKeysPresent(st.users, users', UserId);
    var u, u' := FindUser(st.users, caller).value, FindUser(users', caller).value;
    var i :| 0 <= i < |users'| && users'[i] == u';
    assert st.users[i] in st.users;
    DistinctSame(st.users, UserId, st.users[i], u);
  }

  /** PUT /api/users/me: overwrites both the full name and the biography (a missing field
      stores NULL). The handler answers the updated row, which is absent (`None`) when the
      caller's account no longer exists. */
  method UpdateProfile(db: Db, caller: int, fullName: Option<string>, bio: Option<string>)
    returns (r: Response<Option<Edited>>)
    requires db.Valid()
    modifies db
    ensures db.Valid()
    ensures var st := old(db.Snapshot());
      && r.Ok?
      && (!HasUser(st.users, caller) <==> r.value.None?)
      && (r.value.None? ==> db.Snapshot() == st)
      && (r.value.Some? ==>
            && db.Snapshot() == AfterProfile(st, caller, fullName, bio)
            && GetMe(db.Snapshot(), caller) == Ok(GetMe(st, caller).value.(fullName := fullName, bio := bio))
            && var a := GetMe(db.Snapshot(), caller).value;
               r.value.value == Edited(a.id, a.username, a.email, a.fullName, a.bio, a.profilePicture))
  {
    if !HasUser(db.users, caller) {
      return Ok(None);
    }
    var st := db.Snapshot();
    var st' := AfterProfile(st, caller, fullName, bio);
    UsersRewriteKeeps(st, st'.users, st'.clock);
    ProfileReadsBack(st, caller, fullName, bio);
    db.users, db.clock := st'.users, st'.clock;
    assert db.Snapshot() == st';
    var a := GetMe(st', caller).value;
    r := Ok(Some(Edited(a.id, a.username, a.email, a.fullName, a.bio, a.profilePicture)));
  }

  /** PUT /api/users/profile-picture. `url` is the address the image store returned for the
      uploaded file, or `None` when no file came with the request. */
  method UpdatePicture(db: Db, caller: int, url: Option<string>) returns (r: Response<Option<Avatar>>)
    requires db.Valid()
    modifies db
    ensures db.Valid()
    ensures var st := old(db.Snapshot());
      && (url.None? <==> r == Err(400, "Please upload an image"))
      && (r.Ok? <==> url.Some?)
      && (r.Ok? ==> (!HasUser(st.users, caller) <==> r.value.None?))
      && (r.Err? || r.value.None? ==> db.Snapshot() == st)
      && (r.Ok? && r.value.Some? ==>
            && db.Snapshot() == AfterPicture(st, caller, url.value)
            && GetMe(db.Snapshot(), caller) == Ok(GetMe(st, caller).value.(profilePicture := url))
            && r.value.value == Avatar(caller, GetMe(st, caller).value.username, url))
  {
    if url.None? {
      return Err(400, "Please upload an image");
    }
    if !HasUser(db.users, caller) {
      return Ok(None);
    }
    var st := db.Snapshot();
    var st' := AfterPicture(st, caller, url.value);
    UsersRewriteKeeps(st, st'.users, st'.clock);
    PictureReadsBack(st, caller, url.value);
    db.users, db.clock := st'.users, st'.clock;
    assert db.Snapshot() == st';
    var a := GetMe(st', caller).value;
    r := Ok(Some(Avatar(a.id, a.username, a.profilePicture)));
  }

  // ---------------------------------------------------------------------------------------
  // Following

  function AfterFollow(st: State, caller: int, target: int): State {
    st.(follows := st.follows + [Follow(caller, target, st.clock)], clock := st.clock + 1)
  }

  function AfterUnfollow(st: State, caller: int, target: int): State {
    st.(follows := Reject(st.follows, FollowPair, (caller, target)))
  }

  /** A follow between two distinct registered users, not already following, keeps every
      constraint. */
  lemma FollowKeeps(st: State, caller: int, target: int)
    requires Consistent(st) && caller != target
    requires HasUser(st.users, caller) && HasUser(st.users, target) && !IsFollowing(st.follows, caller, target)
    ensures Consistent(AfterFollow(st, caller, target))
  {
    var f := Follow(caller, target, st.clock);
    IncreasingSnoc(st.follows, f, FollowCreated);
    DistinctSnoc(st.follows, f, FollowPair);
  }

  /** Removing a follow keeps every constraint. */
  lemma UnfollowKeeps(st: State, caller: int, target: int)
    requires Consistent(st)
    ensures Consistent(AfterUnfollow(st, caller, target))
  {
    var st' := AfterUnfollow(st, caller, target);
    RejectIncreasing(st.follows, FollowPair, (caller, target), FollowCreated);
    RejectBounded(st.follows, FollowPair, (caller, target), FollowCreated, st.clock);
    RejectDistinct(st.follows, FollowPair, (caller, target), FollowPair);
    forall i | 0 <= i < |st'.follows|
      ensures && st'.follows[i].followerId != st'.follows[i].followingId
              && HasUser(st'.users, st'.follows[i].followerId) && HasUser(st'.users, st'.follows[i].followingId)
    {
      assert st'.follows[i] in st'.follows;
      var j :| 0 <= j < |st.follows| && st.follows[j] == st'.follows[i];
    }
  }

  /** Nobody follows themselves. */
  lemma NoSelfFollow(st: State, u: int)
    requires FollowsUnique(st)
    ensures !IsFollowing(st.follows, u, u)
  {
    forall f | f in st.follows ensures FollowPair(f) != (u, u) {
      var j :| 0 <= j < |st.follows| && st.follows[j] == f;
    }
    SelectNone(st.follows, FollowPair, (u, u));
  }

  /** A follow adds one follower to the target and one followed user to the caller, and
      afterwards the caller follows the target. */
  lemma FollowCounts(st: State, caller: int, target: int)
    requires caller != target
    ensures var st' := AfterFollow(st, caller, target);
            && IsFollowing(st'.follows, caller, target)
            && FollowersCount(st'.follows, target) == FollowersCount(st.follows, target) + 1
            && FollowingCount(st'.follows, caller) == FollowingCount(st.follows, caller) + 1
            && FollowersCount(st'.follows, caller) == FollowersCount(st.follows, caller)
            && FollowingCount(st'.follows, target) == FollowingCount(st.follows, target)
  {
    var f := Follow(caller, target, st.clock);
    SelectSnoc(st.follows, f, FollowPair, (caller, target));
    SelectSnoc(st.follows, f, FollowFollowing, target);
    SelectSnoc(st.follows, f, FollowFollower, caller);
    SelectSnoc(st.follows, f, FollowFollowing, caller);
    SelectSnoc(st.follows, f, FollowFollower, target);
  }

  /** Removing an existing follow takes one follower from the target and one followed user
      from the caller; afterwards the caller no longer follows the target. */
  lemma UnfollowCounts(st: State, caller: int, target: int)
    requires FollowsUnique(st) && IsFollowing(st.follows, caller, target)
    ensures var st' := AfterUnfollow(st, caller, target);
            && !IsFollowing(st'.follows, caller, target)
            && FollowersCount(st'.follows, target) == FollowersCount(st.follows, target) - 1
            && FollowingCount(st'.follows, caller) == FollowingCount(st.follows, caller) - 1
  {
    RejectRemoves(st.follows, FollowPair, (caller, target));
    RejectOneCount(st.follows, FollowPair, (caller, target), FollowFollowing, target);
    RejectOneCount(st.follows, FollowPair, (caller, target), FollowFollower, caller);
  }

  /** Unfollowing removes exactly the caller's follow of the target: every other edge is
      present afterwards exactly when it was before. */
  lemma UnfollowLeavesOthers(st: State, caller: int, target: int, a: int, b: int)
    requires (a, b) != (caller, target)
    ensures IsFollowing(AfterUnfollow(st, caller, target).follows, a, b) <==> IsFollowing(st.follows, a, b)
  {
    SelectRejectOther(st.follows, FollowPair, (a, b), (caller, target));
  }

  /** Unfollowing right after following restores the follows table (the clock has moved on). */
  lemma UnfollowUndoesFollow(st: State, caller: int, target: int)
    requires !IsFollowing(st.follows, caller, target)
    ensures AfterUnfollow(AfterFollow(st, caller, target), caller, target).follows == st.follows
  {
    RejectUndoesInsert(st.follows, Follow(caller, target, st.clock), FollowPair);
  }

  /** POST /api/users/:id/follow. Self-follows, unknown targets and repeated follows are
      refused before anything changes; `follows.follower_id` references `users(id)`, so an
      unregistered caller's insert fails and the handler answers 500. */
  method FollowUser(db: Db, caller: int, target: int) returns (r: Response<string>)
    requires db.Valid()
    modifies db
    ensures db.Valid()
    ensures var st := old(db.Snapshot());
      && (target == caller ==> r == Err(400, "You cannot follow yourself"))
      && (target != caller && !HasUser(st.users, target) ==> r == Err(404, "User not found"))
      && (target != caller && HasUser(st.users, target) && IsFollowing(st.follows, caller, target) ==>
            r == Err(400, "Already following this user"))
      && ((target != caller && HasUser(st.users, target) && !IsFollowing(st.follows, caller, target)
           && !HasUser(st.users, caller)) ==> r == Err(500, "Server error"))
      && (r.Ok? <==> target != caller && HasUser(st.users, target) && HasUser(st.users, caller)
                     && !IsFollowing(st.follows, caller, target))
      && (r.Err? ==> db.Snapshot() == st)
      && (r.Ok? ==> db.Snapshot() == AfterFollow(st, caller, target) && r.value == "Successfully followed user")
  {
    if target == caller {
      return Err(400, "You cannot follow yourself");
    }
    if !HasUser(db.users, target) {
      return Err(404, "User not found");
    }
    if IsFollowing(db.follows, caller, target) {
      return Err(400, "Already following this user");
    }
    if !HasUser(db.users, caller) {
      return Err(500, "Server error");
    }
    var st := db.Snapshot();
    var st' := AfterFollow(st, caller, target);
    FollowKeeps(st, caller, target);
    db.follows, db.clock := st'.follows, st'.clock;
    assert db.Snapshot() == st';
    r := Ok("Successfully followed user");
  }

  /** DELETE /api/users/:id/unfollow: removes the caller's follow of the target, if any. */
  method UnfollowUser(db: Db, caller: int, target: int) returns (r: Response<string>)
    requires db.Valid()
    modifies db
    ensures db.Valid()
    ensures var st := old(db.Snapshot());
      && (!IsFollowing(st.follows, caller, target) <==> r == Err(400, "You are not following this user"))
      && (r.Ok? <==> IsFollowing(st.follows, caller, target))
      && (r.Err? ==> db.Snapshot() == st)
      && (r.Ok? ==> db.Snapshot() == AfterUnfollow(st, caller, target) && r.value == "Successfully unfollowed user")
  {
    if !IsFollowing(db.follows, caller, target) {
      return Err(400, "You are not following this user");
    }
    var st := db.Snapshot();
    var st' := AfterUnfollow(st, caller, target);
    UnfollowKeeps(st, caller, target);
    db.follows := st'.follows;
    assert db.Snapshot() == st';
    r := Ok("Successfully unfollowed user");
  }

  // ---------------------------------------------------------------------------------------
  // Follower and following lists

  function CardOf(st: State, id: int): Card
    requires HasUser(st.users, id)
  {
    Card(id, AuthorColumns(st.users, id))
  }

  /** GET /api/users/:id/followers: the users following `id`, most recent follow first. */
  function Followers(st: State, id: int): (r: seq<Card>)
    requires FollowsLinked(st)
    ensures |r| == FollowersCount(st.follows, id)
    ensures forall i :: 0 <= i < |r| ==>
              && IsFollowing(st.follows, r[i].id, id) && HasUser(st.users, r[i].id)
              && r[i].author == AuthorColumns(st.users, r[i].id)
  {
    var m := Select(st.follows, FollowFollowing, id);
    var edges := Reverse(m);
    forall i | 0 <= i < |edges|
      ensures edges[i] in st.follows && edges[i].followingId == id
      ensures HasUser(st.users, edges[i].followerId)
    {
      var f := m[|m| - 1 - i];
      assert edges[i] == f && f in m;
      var j :| 0 <= j < |st.follows| && st.follows[j] == f;
    }
    seq(|edges|, i requires 0 <= i < |edges| => CardOf(st, edges[i].followerId))
  }

  /** GET /api/users/:id/following: the users `id` follows, most recent follow first. */
  function Following(st: State, id: int): (r: seq<Card>)
    requires FollowsLinked(st)
    ensures |r| == FollowingCount(st.follows, id)
    ensures forall i :: 0 <= i < |r| ==>
              && IsFollowing(st.follows, id, r[i].id) && HasUser(st.users, r[i].id)
              && r[i].author == AuthorColumns(st.users, r[i].id)
  {
    var m := Select(st.follows, FollowFollower, id);
    var edges := Reverse(m);
    forall i | 0 <= i < |edges|
      ensures edges[i] in st.follows && edges[i].followerId == id
      ensures HasUser(st.users, edges[i].followingId)
    {
      var f := m[|m| - 1 - i];
      assert edges[i] == f && f in m;
      var j :| 0 <= j < |st.follows| && st.follows[j] == f;
    }
    seq(|edges|, i requires 0 <= i < |edges| => CardOf(st, edges[i].followingId))
  }

  /** The creation stamp of the follow from `a` to `b`. */
  function FollowedAt(follows: seq<Follow>, a: int, b: int): int
    requires IsFollowing(follows, a, b)
  {
    Select(follows, FollowPair, (a, b))[0].createdAt
  }

  /** Helper: under the uniqueness constraint, the stamp of the follow with `f`'s pair is
      `f`'s own. */
  lemma FollowedAtEdge(follows: seq<Follow>, f: Follow)
    requires Distinct(follows, FollowPair) && f in follows
    ensures IsFollowing(follows, f.followerId, f.followingId)
    ensures FollowedAt(follows, f.followerId, f.followingId) == f.createdAt
  {
    var m := Select(follows, FollowPair, (f.followerId, f.followingId));
    assert f in m;
    assert m[0] in m;
    DistinctSame(follows, FollowPair, m[0], f);
  }

  /** A user is listed as a follower of `id` exactly when they follow `id`, and the list runs
      from the most recent follow to the oldest. */
  lemma FollowersListed(st: State, id: int, u: int)
    requires FollowsLinked(st) && FollowsUnique(st) && FollowsOrdered(st)
    ensures var r := Followers(st, id);
            && ((exists i :: 0 <= i < |r| && r[i].id == u) <==> IsFollowing(st.follows, u, id))
            && forall i, j :: 0 <= i < j < |r| ==> FollowedAt(st.follows, r[i].id, id) > FollowedAt(st.follows, r[j].id, id)
  {
    var m := Select(st.follows, FollowFollowing, id);
    var edges := Reverse(m);
    var r := Followers(st, id);
    NewestFirstOrder(st.follows, FollowFollowing, id, FollowCreated);
    forall i | 0 <= i < |r| ensures FollowedAt(st.follows, r[i].id, id) == edges[i].createdAt {
      assert edges[i] == m[|m| - 1 - i] && m[|m| - 1 - i] in m;
      FollowedAtEdge(st.follows, edges[i]);
    }
    if IsFollowing(st.follows, u, id) {
      var mine := Select(st.follows, FollowPair, (u, id));
      assert mine[0] in mine;
      var f := mine[0];
      assert f in m;
      var k :| 0 <= k < |m| && m[k] == f;
      assert edges[|m| - 1 - k] == f;
      assert r[|m| - 1 - k].id == u;
    }
  }

  /** A user is listed as followed by `id` exactly when `id` follows them, and the list runs
      from the most recent follow to the oldest. */
  lemma FollowingListed(st: State, id: int, u: int)
    requires FollowsLinked(st) && FollowsUnique(st) && FollowsOrdered(st)
    ensures var r := Following(st, id);
            && ((exists i :: 0 <= i < |r| && r[i].id == u) <==> IsFollowing(st.follows, id, u))
            && forall i, j :: 0 <= i < j < |r| ==> FollowedAt(st.follows, id, r[i].id) > FollowedAt(st.follows, id, r[j].id)
  {
    var m := Select(st.follows, FollowFollower, id);
    var edges := Reverse(m);
    var r := Following(st, id);
    NewestFirstOrder(st.follows, FollowFollower, id, FollowCreated);
    forall i | 0 <= i < |r| ensures FollowedAt(st.follows, id, r[i].id) == edges[i].createdAt {
      assert edges[i] == m[|m| - 1 - i] && m[|m| - 1 - i] in m;
      FollowedAtEdge(st.follows, edges[i]);
    }
    if IsFollowing(st.follows, id, u) {
      var mine := Select(st.follows, FollowPair, (id, u));
      assert mine[0] in mine;
      var f := mine[0];
      assert f in m;
      var k :| 0 <= k < |m| && m[k] == f;
      assert edges[|m| - 1 - k] == f;
      assert r[|m| - 1 - k].id == u;
    }
  }

  // ---------------------------------------------------------------------------------------
  // A user's posts

  /** GET /api/users/:id/posts: the user's posts, newest first, with author columns and live
      counts. No existence check: an unknown user has no posts. */
  function UserPosts(st: State, id: int): (r: seq<PostRow>)
    requires PostsAuthored(st)
    ensures |r| == PostsCount(st.posts, id)
    ensures forall i :: 0 <= i < |r| ==>
              && r[i].post in st.posts && r[i].post.userId == id
              && r[i].author == AuthorColumns(st.users, id)
              && r[i].likesCount == LikesCount(st.likes, r[i].post.id)
              && r[i].commentsCount == CommentsCount(st.comments, r[i].post.id)
  {
    var m := Select(st.posts, PostAuthor, id);
    var newest := Reverse(m);
    assert forall i :: 0 <= i < |newest| ==> newest[i] == m[|m| - 1 - i] && m[|m| - 1 - i] in m;
    assert forall i :: 0 <= i < |newest| ==> HasUser(st.users, newest[i].userId) by {
      forall i | 0 <= i < |newest| ensures HasUser(st.users, newest[i].userId) {
        var j :| 0 <= j < |st.posts| && st.posts[j] == newest[i];
      }
    }
    seq(|newest|, i requires 0 <= i < |newest| => JoinPost(st, newest[i]))
  }

  /** A user's posts come newest first, and every post of the user is there. */
  lemma UserPostsListed(st: State, id: int, p: Post)
    requires PostsAuthored(st) && Increasing(st.posts, PostCreated)
    ensures Decreasing(UserPosts(st, id), PostRowCreated)
    ensures p in st.posts && p.userId == id ==> exists i :: 0 <= i < |UserPosts(st, id)| && UserPosts(st, id)[i].post == p
  {
    var m := Select(st.posts, PostAuthor, id);
    var newest := Reverse(m);
    var r := UserPosts(st, id);
    NewestFirstOrder(st.posts, PostAuthor, id, PostCreated);
    assert forall i :: 0 <= i < |r| ==> r[i].post == newest[i];
    if p in st.posts && p.userId == id {
      assert p in m;
      var k :| 0 <= k < |m| && m[k] == p;
      assert newest[|m| - 1 - k] == p;
      assert r[|m| - 1 - k].post == p;
    }
  }
}
