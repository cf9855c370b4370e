/** The read side of the feed (`index`): posts joined with their authors, like counts per
    post, and the comments of each post grouped into threads in time order. */
module Feed {
  import opened Tables
  import Presence

  /** A row of the posts query: posts.id, users.name, content, image, created_at, users.id. */
  datatype PostView = PostView(id: int, authorName: string, content: string, image: string,
                               createdAt: Timestamp, authorId: int)

  /** A row of the comments query: post_id, users.name, content, created_at. */
  datatype CommentView = CommentView(postId: int, authorName: string, content: string, createdAt: Timestamp)

  /** What a thread holds for one comment: the query row without its post_id (`row[1:]`). */
  datatype ThreadEntry = ThreadEntry(authorName: string, content: string, createdAt: Timestamp)

  function PostViewOf(p: Post, author: User): PostView {
    PostView(p.id, author.name, p.content, p.image, p.createdAt, author.id)
  }

  function CommentViewOf(c: Comment, author: User): CommentView {
    CommentView(c.postId, author.name, c.content, c.createdAt)
  }

  function Entry(v: CommentView): ThreadEntry {
    ThreadEntry(v.authorName, v.content, v.createdAt)
  }

  // ---------------------------------------------------------------------------
  // The two JOINs: a row survives only when its author exists.

  /** `posts JOIN users ON posts.user_id = users.id`, before ORDER BY. */
  function JoinPosts(posts: seq<Post>, users: seq<User>): (r: seq<PostView>)
    ensures |r| <= |posts|
    ensures forall v | v in r :: exists p | p in posts ::
              FindUser(users, p.userId).Some? && v == PostViewOf(p, FindUser(users, p.userId).value)
  {
    if posts == [] then []
    else
      var rest := JoinPosts(posts[1..], users);
      assert forall p | p in posts :: p == posts[0] || p in posts[1..];
      match FindUser(users, posts[0].userId)
      case None => rest
      case Some(u) => [PostViewOf(posts[0], u)] + rest
  }

  /** `comments JOIN users ON comments.user_id = users.id`, before ORDER BY. */
  function JoinComments(comments: seq<Comment>, users: seq<User>): (r: seq<CommentView>)
    ensures |r| <= |comments|
    ensures forall v | v in r :: exists c | c in comments ::
              FindUser(users, c.userId).Some? && v == CommentViewOf(c, FindUser(users, c.userId).value)
  {
    if comments == [] then []
    else
      var rest := JoinComments(comments[1..], users);
      assert forall c | c in comments :: c == comments[0] || c in comments[1..];
      match FindUser(users, comments[0].userId)
      case None => rest
      case Some(u) => [CommentViewOf(comments[0], u)] + rest
  }

  /** Every post whose author exists is in the posts query. */
  lemma {:induction false} JoinPostsComplete(posts: seq<Post>, users: seq<User>, p: Post)
    requires p in posts && FindUser(users, p.userId).Some?
    ensures PostViewOf(p, FindUser(users, p.userId).value) in JoinPosts(posts, users)
  {
    if posts[0] != p {
      assert p in posts[1..];
      JoinPostsComplete(posts[1..], users, p);
    }
  }

  /** Every comment whose author exists is in the comments query. */
  lemma {:induction false} JoinCommentsComplete(comments: seq<Comment>, users: seq<User>, c: Comment)
    requires c in comments && FindUser(users, c.userId).Some?
    ensures CommentViewOf(c, FindUser(users, c.userId).value) in JoinComments(comments, users)
  {
    if comments[0] != c {
      assert c in comments[1..];
      JoinCommentsComplete(comments[1..], users, c);
    }
  }

  /** The post rows whose author exists. */
  function PostsWithAuthor(posts: seq<Post>, users: seq<User>): set<Post> {
    set p | p in posts && FindUser(users, p.userId).Some?
  }

  /** The comment rows whose author exists. */
  function CommentsWithAuthor(comments: seq<Comment>, users: seq<User>): set<Comment> {
    set c | c in comments && FindUser(users, c.userId).Some?
  }

  /** With distinct post rows, the posts query has one row per post whose author exists. */
  lemma {:induction false} JoinPostsCount(posts: seq<Post>, users: seq<User>)
    requires NoDuplicates(posts)
    ensures |JoinPosts(posts, users)| == |PostsWithAuthor(posts, users)|
  {
    if posts != [] {
      var rest := posts[1..];
      NoDuplicatesTail(posts);
      JoinPostsCount(rest, users);
      var all, tail := PostsWithAuthor(posts, users), PostsWithAuthor(rest, users);
      assert forall p | p in posts :: p == posts[0] || p in rest;
      if FindUser(users, posts[0].userId).Some? {
        assert all == tail + {posts[0]};
      } else {
        assert all == tail;
      }
    }
  }

  /** With distinct comment rows, the comments query has one row per comment whose author
      exists. */
  lemma {:induction false} JoinCommentsCount(comments: seq<Comment>, users: seq<User>)
    requires NoDuplicates(comments)
    ensures |JoinComments(comments, users)| == |CommentsWithAuthor(comments, users)|
  {
    if comments != [] {
      var rest := comments[1..];
      NoDuplicatesTail(comments);
      JoinCommentsCount(rest, users);
      var all, tail := CommentsWithAuthor(comments, users), CommentsWithAuthor(rest, users);
      assert forall c | c in comments :: c == comments[0] || c in rest;
      if FindUser(users, comments[0].userId).Some? {
        assert all == tail + {comments[0]};
      } else {
        assert all == tail;
      }
    }
  }

  // ---------------------------------------------------------------------------
  // Like counts: `{post_id: COUNT(*)}` over `likes GROUP BY post_id`.

  /** The dict built from the GROUP BY: one entry per post that has at least one like. */
  function LikeCounts(likes: seq<Like>): (m: map<int, nat>)
    ensures forall p :: p in m <==> exists l | l in likes :: l.postId == p
    ensures forall p | p in m :: m[p] > 0
  {
    if likes == [] then map[]
    else
      var init := likes[..|likes| - 1];
      var last := likes[|likes| - 1];
      assert likes == init + [last];
      var m := LikeCounts(init);
      m[last.postId := (if last.postId in m then m[last.postId] else 0) + 1]
  }

  /** What the feed shows beside a post: `likes.get(post_id, 0)`. */
  function DisplayedLikes(counts: map<int, nat>, postId: int): (n: nat)
    ensures postId in counts ==> n == counts[postId]
    ensures postId !in counts ==> n == 0
  {
    if postId in counts then counts[postId] else 0
  }

  /** The users who like a post. */
  function LikersOf(likes: seq<Like>, postId: int): set<int> {
    set l | l in likes && l.postId == postId :: l.userId
  }

  /** The count shown for a post is the number of distinct users liking it, 0 when nobody
      does; it relies on the primary key of `likes`. */
  lemma {:induction false} DisplayedLikesCountsLikers(likes: seq<Like>, postId: int)
    requires NoDuplicates(likes)
    ensures DisplayedLikes(LikeCounts(likes), postId) == |LikersOf(likes, postId)|
  {
    if likes != [] {
      var init := likes[..|likes| - 1];
      var last := likes[|likes| - 1];
      assert likes == init + [last];
      NoDuplicatesPrefix(likes, |likes| - 1);
      DisplayedLikesCountsLikers(init, postId);
      if last.postId == postId {
        assert LikersOf(likes, postId) == LikersOf(init, postId) + {last.userId};
        forall k | 0 <= k < |init| ensures init[k] != last {
          assert init[k] == likes[k];
        }
        assert last.userId !in LikersOf(init, postId);
      } else {
        assert LikersOf(likes, postId) == LikersOf(init, postId);
      }
    }
  }

  /** A like toggle by `u` on `p` adds or removes `u` among the likers of `p` and touches
      no other post's likers. */
  lemma LikersAfterToggle(likes: seq<Like>, u: int, p: int, q: int)
    requires NoDuplicates(likes)
    ensures LikersOf(Presence.Toggle(likes, Like(u, p)), q) ==
            if q != p then LikersOf(likes, q)
            else if Like(u, p) in likes then LikersOf(likes, q) - {u}
            else LikersOf(likes, q) + {u}
  {
    var after := Presence.Toggle(likes, Like(u, p));
    forall l | l != Like(u, p) ensures l in after <==> l in likes {
      assert multiset(after)[l] == multiset(likes)[l];
    }
    assert Like(u, p) in after <==> Like(u, p) !in likes;
  }

  /** One like toggle by user `u` on post `p` moves the count shown for `p` by exactly one
      (up when `u` did not like it, down when they did) and leaves every other post's count. */
  lemma LikeToggleMovesOneCount(likes: seq<Like>, u: int, p: int, q: int)
    requires NoDuplicates(likes)
    ensures DisplayedLikes(LikeCounts(Presence.Toggle(likes, Like(u, p))), q) ==
            if q != p then DisplayedLikes(LikeCounts(likes), q)
            else if Like(u, p) in likes then DisplayedLikes(LikeCounts(likes), q) - 1
            else DisplayedLikes(LikeCounts(likes), q) + 1
  {
    var after := Presence.Toggle(likes, Like(u, p));
    DisplayedLikesCountsLikers(likes, q);
    DisplayedLikesCountsLikers(after, q);
    LikersAfterToggle(likes, u, p, q);
    if q == p {
      assert u in LikersOf(likes, q) <==> Like(u, p) in likes;
    }
  }

  // ---------------------------------------------------------------------------
  // Comment threads: `comments.setdefault(post_id, []).append(row[1:])`.

  /** Rows ordered by `ORDER BY created_at`. */
  predicate CommentsByTime(rows: seq<CommentView>) {
    forall i, j | 0 <= i < j < |rows| :: rows[i].createdAt <= rows[j].createdAt
  }

  predicate EntriesByTime(entries: seq<ThreadEntry>) {
    forall i, j | 0 <= i < j < |entries| :: entries[i].createdAt <= entries[j].createdAt
  }

  /** The thread of post `postId`: the entries of its rows, in the rows' order. */
  function ThreadOf(rows: seq<CommentView>, postId: int): (t: seq<ThreadEntry>)
    ensures |t| <= |rows|
    ensures forall e | e in t :: exists v | v in rows :: v.postId == postId && e == Entry(v)
  {
    if rows == [] then []
    else
      var init := rows[..|rows| - 1];
      var last := rows[|rows| - 1];
      assert forall v | v in init :: v in rows;
      ThreadOf(init, postId) + (if last.postId == postId then [Entry(last)] else [])
  }

  /** Slot `j` of the thread of `postId` holds a row of that post. */
  ghost predicate SlotFilled(rows: seq<CommentView>, postId: int, j: nat) {
    exists i :: 0 <= i < |rows| && rows[i].postId == postId && Rank(rows, i) == j
  }

  /** Where row `i` lands in its post's thread: the number of earlier rows of that post. */
  function Rank(rows: seq<CommentView>, i: nat): nat
    requires i < |rows|
  {
    |ThreadOf(rows[..i], rows[i].postId)|
  }

  /** The threads of a prefix of the rows are prefixes of the threads of all the rows. */
  lemma {:induction false} ThreadOfPrefix(rows: seq<CommentView>, n: nat, postId: int)
    requires n <= |rows|
    ensures ThreadOf(rows[..n], postId) <= ThreadOf(rows, postId)
    decreases |rows|
  {
    if n < |rows| {
      var init := rows[..|rows| - 1];
      assert init[..n] == rows[..n];
      ThreadOfPrefix(init, n, postId);
    } else {
      assert rows[..n] == rows;
    }
  }

  lemma ThreadOfStep(rows: seq<CommentView>, i: nat)
    requires i < |rows|
    ensures ThreadOf(rows[..i + 1], rows[i].postId) == ThreadOf(rows[..i], rows[i].postId) + [Entry(rows[i])]
  {
    assert rows[..i + 1][..i] == rows[..i];
  }

  /** Row `i` is in its post's thread, at slot `Rank(rows, i)`. */
  lemma ThreadSlot(rows: seq<CommentView>, i: nat)
    requires i < |rows|
    ensures Rank(rows, i) < |ThreadOf(rows, rows[i].postId)|
    ensures ThreadOf(rows, rows[i].postId)[Rank(rows, i)] == Entry(rows[i])
  {
    ThreadOfStep(rows, i);
    ThreadOfPrefix(rows, i + 1, rows[i].postId);
  }

  /** Two rows of the same post never share a slot: the later row comes later in the thread. */
  lemma RankIncreasing(rows: seq<CommentView>, i: nat, k: nat)
    requires i < k < |rows| && rows[i].postId == rows[k].postId
    ensures Rank(rows, i) < Rank(rows, k)
  {
    var p := rows[i].postId;
    ThreadOfStep(rows, i);
    assert rows[..k][..i + 1] == rows[..i + 1];
    ThreadOfPrefix(rows[..k], i + 1, p);
  }

  /** Every slot of every thread holds some row of that post. */
  lemma {:induction false} ThreadSlotFilled(rows: seq<CommentView>, postId: int, j: nat)
    requires j < |ThreadOf(rows, postId)|
    ensures SlotFilled(rows, postId, j)
    decreases |rows|
  {
    var init := rows[..|rows| - 1];
    var last := |rows| - 1;
    if j < |ThreadOf(init, postId)| {
      ThreadSlotFilled(init, postId, j);
      var i :| 0 <= i < |init| && init[i].postId == postId && Rank(init, i) == j;
      assert init[..i] == rows[..i];
      assert rows[i].postId == postId && Rank(rows, i) == j;
    } else {
      assert rows[..last] == init;
      assert rows[last].postId == postId && Rank(rows, last) == j;
    }
  }

  /** The threads partition the rows: row `i` fills slot `Rank(rows, i)` of thread
      `rows[i].postId` and no other row fills it, and every slot is filled by a row of that
      post. So every comment is shown exactly once, under its own post. */
  lemma ThreadsPartitionRows(rows: seq<CommentView>)
    ensures forall i | 0 <= i < |rows| ::
              Rank(rows, i) < |ThreadOf(rows, rows[i].postId)| &&
              ThreadOf(rows, rows[i].postId)[Rank(rows, i)] == Entry(rows[i])
    ensures forall i, k | 0 <= i < k < |rows| && rows[i].postId == rows[k].postId :: Rank(rows, i) != Rank(rows, k)
    ensures forall p, j: nat | j < |ThreadOf(rows, p)| :: SlotFilled(rows, p, j)
  {
    forall i | 0 <= i < |rows|
      ensures Rank(rows, i) < |ThreadOf(rows, rows[i].postId)|
      ensures ThreadOf(rows, rows[i].postId)[Rank(rows, i)] == Entry(rows[i])
    {
      ThreadSlot(rows, i);
    }
    forall i, k | 0 <= i < k < |rows| && rows[i].postId == rows[k].postId
      ensures Rank(rows, i) != Rank(rows, k)
    {
      RankIncreasing(rows, i, k);
    }
    forall p, j: nat | j < |ThreadOf(rows, p)| ensures SlotFilled(rows, p, j)
    {
      ThreadSlotFilled(rows, p, j);
    }
  }

  /** Rows in time order give threads in time order. */
  lemma {:induction false} ThreadOrdered(rows: seq<CommentView>, postId: int)
    requires CommentsByTime(rows)
    ensures EntriesByTime(ThreadOf(rows, postId))
  {
    if rows != [] {
      var init := rows[..|rows| - 1];
      var last := rows[|rows| - 1];
      ThreadOrdered(init, postId);
      var t := ThreadOf(init, postId);
      forall e | e in t ensures e.createdAt <= last.createdAt {
        var v :| v in init && v.postId == postId && e == Entry(v);
        var k :| 0 <= k < |init| && init[k] == v;
        assert rows[k] == v;
      }
    }
  }

  /** A post nobody commented on has an empty thread. */
  lemma {:induction false} ThreadOfAbsent(rows: seq<CommentView>, postId: int)
    requires forall v | v in rows :: v.postId != postId
    ensures ThreadOf(rows, postId) == []
  {
    if rows != [] {
      var init := rows[..|rows| - 1];
      assert forall v | v in init :: v in rows;
      ThreadOfAbsent(init, postId);
    }
  }

  /** Over the ordered result of the comments query, every comment whose author exists is
      shown under its own post. */
  lemma CommentShownUnderItsPost(comments: seq<Comment>, users: seq<User>, rows: seq<CommentView>, c: Comment)
    requires multiset(rows) == multiset(JoinComments(comments, users))
    requires c in comments && FindUser(users, c.userId).Some?
    ensures Entry(CommentViewOf(c, FindUser(users, c.userId).value)) in ThreadOf(rows, c.postId)
  {
    var v := CommentViewOf(c, FindUser(users, c.userId).value);
    JoinCommentsComplete(comments, users, c);
    assert v in multiset(JoinComments(comments, users));
    assert v in multiset(rows);
    var i :| 0 <= i < |rows| && rows[i] == v;
    ThreadSlot(rows, i);
  }

  /** Conversely, everything shown under a post is a comment on that post by an existing user. */
  lemma ThreadShowsOnlyItsComments(comments: seq<Comment>, users: seq<User>, rows: seq<CommentView>,
                                   postId: int, e: ThreadEntry)
    requires multiset(rows) == multiset(JoinComments(comments, users))
    requires e in ThreadOf(rows, postId)
    ensures exists c | c in comments :: c.postId == postId && FindUser(users, c.userId).Some? &&
              e == Entry(CommentViewOf(c, FindUser(users, c.userId).value))
  {
    var v :| v in rows && v.postId == postId && e == Entry(v);
    assert v in multiset(rows);
    assert v in JoinComments(comments, users);
  }

  // ---------------------------------------------------------------------------
  // The profile page.

  /** A row of `SELECT content, image, created_at FROM posts WHERE user_id=?`. */
  datatype ProfilePost = ProfilePost(content: string, image: string, createdAt: Timestamp)

  /** Name, bio, avatar and cover of the user, and their posts. */
  datatype ProfilePage = ProfilePage(name: string, bio: Option<string>, avatar: Option<string>,
                                     cover: Option<string>, posts: seq<ProfilePost>)

  predicate PostsNewestFirst(posts: seq<Post>) {
    forall i, j | 0 <= i < j < |posts| :: posts[i].createdAt >= posts[j].createdAt
  }

  /** The posts of one user, in the order of `posts` (the ORDER BY's result). */
  function PostsBy(posts: seq<Post>, userId: int): (r: seq<ProfilePost>)
    ensures |r| <= |posts|
    ensures forall e | e in r ::
              exists p | p in posts :: p.userId == userId && e == ProfilePost(p.content, p.image, p.createdAt)
  {
    if posts == [] then []
    else
      var rest := PostsBy(posts[1..], userId);
      assert forall p | p in posts :: p == posts[0] || p in posts[1..];
      if posts[0].userId == userId then [ProfilePost(posts[0].content, posts[0].image, posts[0].createdAt)] + rest
      else rest
  }

  /** Every post of the user is on the profile. */
  lemma {:induction false} PostsByComplete(posts: seq<Post>, userId: int, p: Post)
    requires p in posts && p.userId == userId
    ensures ProfilePost(p.content, p.image, p.createdAt) in PostsBy(posts, userId)
  {
    if posts[0] != p {
      assert p in posts[1..];
      PostsByComplete(posts[1..], userId, p);
    }
  }

  /** The post rows of one user. */
  function PostRowsOf(posts: seq<Post>, userId: int): set<Post> {
    set p | p in posts && p.userId == userId
  }

  /** With distinct post rows, the profile lists each of the user's posts once. */
  lemma {:induction false} PostsByCount(posts: seq<Post>, userId: int)
    requires NoDuplicates(posts)
    ensures |PostsBy(posts, userId)| == |PostRowsOf(posts, userId)|
  {
    if posts != [] {
      var rest := posts[1..];
      NoDuplicatesTail(posts);
      PostsByCount(rest, userId);
      var all, tail := PostRowsOf(posts, userId), PostRowsOf(rest, userId);
      assert forall p | p in posts :: p == posts[0] || p in rest;
      if posts[0].userId == userId {
        assert all == tail + {posts[0]};
      } else {
        assert all == tail;
      }
    }
  }

  /** Posts newest first give a profile newest first. */
  lemma {:induction false} PostsByNewestFirst(posts: seq<Post>, userId: int)
    requires PostsNewestFirst(posts)
    ensures forall i, j | 0 <= i < j < |PostsBy(posts, userId)| ::
              PostsBy(posts, userId)[i].createdAt >= PostsBy(posts, userId)[j].createdAt
  {
    if posts != [] {
      var tail := posts[1..];
      assert PostsNewestFirst(tail) by {
        forall i, j | 0 <= i < j < |tail| ensures tail[i].createdAt >= tail[j].createdAt {
          assert tail[i] == posts[i + 1] && tail[j] == posts[j + 1];
        }
      }
      PostsByNewestFirst(tail, userId);
      forall e | e in PostsBy(tail, userId) ensures posts[0].createdAt >= e.createdAt {
        var p :| p in tail && p.userId == userId && e == ProfilePost(p.content, p.image, p.createdAt);
        var k :| 0 <= k < |tail| && tail[k] == p;
        assert posts[k + 1] == p;
      }
    }
  }

  /** `profile`: no page (the handler fails on the missing row) when no user has that id;
      otherwise that user's name, bio, avatar and cover, and exactly their posts. */
  function Profile(users: seq<User>, posts: seq<Post>, userId: int): (r: Option<ProfilePage>)
    ensures r.None? <==> forall u | u in users :: u.id != userId
    ensures r.Some? ==> exists u | u in users ::
              && u.id == userId && r.value.name == u.name
              && r.value.bio == u.bio && r.value.avatar == u.avatar && r.value.cover == u.cover
    ensures r.Some? ==> r.value.posts == PostsBy(posts, userId)
  {
    match FindUser(users, userId)
    case None => None
    case Some(u) => Some(ProfilePage(u.name, u.bio, u.avatar, u.cover, PostsBy(posts, userId)))
  }

  /** What the feed shows under a post: `comments.get(post_id, [])`. */
  function DisplayedThread(threads: map<int, seq<ThreadEntry>>, postId: int): (t: seq<ThreadEntry>)
    ensures postId in threads ==> t == threads[postId]
    ensures postId !in threads ==> t == []
  {
    if postId in threads then threads[postId] else []
  }

  /** The grouping loop of `index`: walks the ordered comment rows once, appending each
      row's entry to the list of its post. */
  method GroupComments(rows: seq<CommentView>) returns (threads: map<int, seq<ThreadEntry>>)
    ensures forall p :: p in threads <==> exists v | v in rows :: v.postId == p
    ensures forall p :: DisplayedThread(threads, p) == ThreadOf(rows, p)
  {
    threads := map[];
    var i := 0;
    while i < |rows|
      invariant 0 <= i <= |rows|
      invariant forall p :: p in threads <==> exists k :: 0 <= k < i && rows[k].postId == p
      invariant forall p | p in threads :: threads[p] == ThreadOf(rows[..i], p)
    {
      var row := rows[i];
      assert rows[..i + 1][..i] == rows[..i];
      if row.postId !in threads {
        ThreadOfAbsent(rows[..i], row.postId);
      }
      var thread := if row.postId in threads then threads[row.postId] else [];
      threads := threads[row.postId := thread + [Entry(row)]];
      i := i + 1;
    }
    assert rows[..i] == rows;
    forall p ensures DisplayedThread(threads, p) == ThreadOf(rows, p) {
      if p !in threads {
        ThreadOfAbsent(rows, p);
      } else {
        assert threads[p] == ThreadOf(rows, p);
      }
    }
  }
}
