/** The WheelSup database as one object whose fields are its tables, and the request
    handlers of `app.py` as methods on it. The session's user id is a parameter, and so is
    every `datetime.now()`. */
module App {
  import opened Tables
  import opened Accounts
  import Presence
  import Feed
  import Notifications
  import Messaging

  class Store {
    var users: seq<User>
    var posts: seq<Post>
    var comments: seq<Comment>
    var likes: seq<Like>
    var follows: seq<Follow>
    var messages: seq<Message>

    /** What the schema and the rowid allocation keep true: rows are numbered 1, 2, ... in
        insertion order (nothing is ever deleted from these four tables), emails are UNIQUE,
        and `likes` and `follows` hold each primary key once. */
    ghost predicate Valid()
      reads this
    {
      && (forall i | 0 <= i < |users| :: users[i].id == i + 1)
      && (forall i | 0 <= i < |posts| :: posts[i].id == i + 1)
      && (forall i | 0 <= i < |comments| :: comments[i].id == i + 1)
      && (forall i | 0 <= i < |messages| :: messages[i].id == i + 1)
      && EmailsDistinct(users)
      && NoDuplicates(likes)
      && NoDuplicates(follows)
    }

    /** Comment rows carry distinct ids, so no two are equal. */
    lemma CommentIdsDistinct()
      requires Valid()
      ensures NoDuplicates(comments)
    {
      forall i, j | 0 <= i < j < |comments| ensures comments[i] != comments[j] {
        assert comments[i].id != comments[j].id;
      }
    }

    /** `init_db` on a fresh file: every table exists and is empty. */
    constructor ()
      ensures Valid()
      ensures users == [] && posts == [] && comments == [] && likes == [] && follows == [] && messages == []
    {
      users, posts, comments := [], [], [];
      likes, follows, messages := [], [], [];
    }

    /** `register`: the INSERT is refused when the email is taken; otherwise one user row
        with that email, digest and name, every profile column NULL. */
    method Register(email: string, digest: string, name: string) returns (r: Result<int, RegisterError>)
      requires Valid()
      modifies this
      ensures Valid()
      ensures posts == old(posts) && comments == old(comments) && likes == old(likes)
      ensures follows == old(follows) && messages == old(messages)
      ensures EmailUsed(old(users), email) ==> r == Err(EmailAlreadyRegistered) && users == old(users)
      ensures !EmailUsed(old(users), email) ==>
                r == Ok(|old(users)| + 1) && users == old(users) + [NewUser(|old(users)| + 1, email, digest, name)]
    {
      if EmailUsed(users, email) {
        r := Err(EmailAlreadyRegistered);
      } else {
        var id := |users| + 1;
        var all := users + [NewUser(id, email, digest, name)];
        assert EmailsDistinct(all) by {
          forall i, j | 0 <= i < j < |all| ensures all[i].email != all[j].email {
            if j == |users| { assert all[i] in users; }
          }
        }
        users := all;
        r := Ok(id);
      }
    }

    /** The POST half of `index`: a logged-in user's post is appended; without a user the
        handler redirects and nothing is written. */
    method CreatePost(session: Option<int>, content: string, image: string, now: Timestamp)
      requires Valid()
      modifies this
      ensures Valid()
      ensures SessionUser(old(users), session).None? ==> unchanged(this)
      ensures users == old(users) && comments == old(comments) && likes == old(likes)
      ensures follows == old(follows) && messages == old(messages)
      ensures SessionUser(old(users), session).Some? ==>
                posts == old(posts) + [Post(|old(posts)| + 1, session.value, content, image, now)]
    {
      var user := SessionUser(users, session);
      if user.Some? {
        posts := posts + [Post(|posts| + 1, user.value.id, content, image, now)];
      }
    }

    /** `comment`: a logged-in user's comment is appended, whether or not the post exists. A
        post id too large for a 64-bit INTEGER makes the INSERT raise, and nothing is written. */
    method AddComment(session: Option<int>, postId: nat, content: string, now: Timestamp)
      requires Valid()
      modifies this
      ensures Valid()
      ensures SessionUser(old(users), session).None? || !Bindable(postId) ==> unchanged(this)
      ensures users == old(users) && posts == old(posts) && likes == old(likes)
      ensures follows == old(follows) && messages == old(messages)
      ensures SessionUser(old(users), session).Some? && Bindable(postId) ==>
                comments == old(comments) + [Comment(|old(comments)| + 1, postId, session.value, content, now)]
    {
      var user := SessionUser(users, session);
      if user.Some? && Bindable(postId) {
        comments := comments + [Comment(|comments| + 1, postId, user.value.id, content, now)];
      }
    }

    /** `like`: toggles the (user, post) row; without a user nothing changes. A post id too
        large for a 64-bit INTEGER makes the INSERT raise, the DELETE in the `except` raise
        again, and nothing is written. */
    method ToggleLike(session: Option<int>, postId: nat)
      requires Valid()
      modifies this
      ensures Valid()
      ensures SessionUser(old(users), session).None? || !Bindable(postId) ==> unchanged(this)
      ensures users == old(users) && posts == old(posts) && comments == old(comments)
      ensures follows == old(follows) && messages == old(messages)
      ensures SessionUser(old(users), session).Some? && Bindable(postId) ==>
                var row := Like(session.value, postId);
                && (row in likes <==> row !in old(likes))
                && (forall l | l != row :: multiset(likes)[l] == multiset(old(likes))[l])
    {
      var user := SessionUser(users, session);
      if user.Some? && Bindable(postId) {
        likes := Presence.Toggle(likes, Like(user.value.id, postId));
      }
    }

    /** `follow`: toggles the (follower, followee) row; self-follows and unknown followees
        are not refused. Without a user nothing changes, and a followee id too large for a
        64-bit INTEGER fails both statements as in `like`. */
    method ToggleFollow(session: Option<int>, followeeId: nat)
      requires Valid()
      modifies this
      ensures Valid()
      ensures SessionUser(old(users), session).None? || !Bindable(followeeId) ==> unchanged(this)
      ensures users == old(users) && posts == old(posts) && comments == old(comments)
      ensures likes == old(likes) && messages == old(messages)
      ensures SessionUser(old(users), session).Some? && Bindable(followeeId) ==>
                var row := Follow(session.value, followeeId);
                && (row in follows <==> row !in old(follows))
                && (forall f | f != row :: multiset(follows)[f] == multiset(old(follows))[f])
    {
      var user := SessionUser(users, session);
      if user.Some? && Bindable(followeeId) {
        follows := Presence.Toggle(follows, Follow(user.value.id, followeeId));
      }
    }

    /** The UPDATE of `edit_profile`: the logged-in user's bio, location, vehicle and skills are
        overwritten, avatar and cover are replaced only by a non-empty path; every other
        column and every other row stays. */
    method EditProfile(session: Option<int>, bio: Option<string>, location: Option<string>,
                       vehicle: Option<string>, skills: Option<string>, avatarPath: string, coverPath: string)
      requires Valid()
      modifies this
      ensures Valid()
      ensures SessionUser(old(users), session).None? ==> unchanged(this)
      ensures posts == old(posts) && comments == old(comments) && likes == old(likes)
      ensures follows == old(follows) && messages == old(messages)
      ensures |users| == |old(users)|
      ensures SessionUser(old(users), session).Some? ==>
                forall i | 0 <= i < |users| ::
                  if old(users)[i].id == session.value then
                    && users[i].id == old(users)[i].id && users[i].email == old(users)[i].email
                    && users[i].password == old(users)[i].password && users[i].name == old(users)[i].name
                    && users[i].bio == bio && users[i].location == location
                    && users[i].vehicle == vehicle && users[i].skills == skills
                    && users[i].avatar == (if avatarPath == "" then old(users)[i].avatar else Some(avatarPath))
                    && users[i].cover == (if coverPath == "" then old(users)[i].cover else Some(coverPath))
                  else users[i] == old(users)[i]
    {
      var user := SessionUser(users, session);
      if user.Some? {
        users := UpdateProfile(users, user.value.id, bio, location, vehicle, skills, avatarPath, coverPath);
      }
    }

    /** The POST half of `dm`: a logged-in user's message to `to` is appended, whether or not
        `to` exists. A `to` too large for a 64-bit INTEGER makes the INSERT raise, and nothing
        is written. */
    method SendMessage(session: Option<int>, to: nat, text: string, now: Timestamp)
      requires Valid()
      modifies this
      ensures Valid()
      ensures SessionUser(old(users), session).None? || !Bindable(to) ==> unchanged(this)
      ensures users == old(users) && posts == old(posts) && comments == old(comments)
      ensures likes == old(likes) && follows == old(follows)
      ensures SessionUser(old(users), session).Some? && Bindable(to) ==>
                messages == old(messages) + [Message(|old(messages)| + 1, session.value, to, text, now)]
    {
      var user := SessionUser(users, session);
      if user.Some? && Bindable(to) {
        messages := messages + [Message(|messages| + 1, user.value.id, to, text, now)];
      }
    }

    /** The aggregation of `index`: like counts from the whole `likes` table and the threads
        built from the rows of the comments query, given in the ORDER BY's order. */
    method FeedAggregates(commentRows: seq<Feed.CommentView>)
      returns (likeCounts: map<int, nat>, threads: map<int, seq<Feed.ThreadEntry>>)
      requires Valid()
      requires multiset(commentRows) == multiset(Feed.JoinComments(comments, users))
      ensures forall p :: Feed.DisplayedLikes(likeCounts, p) == |Feed.LikersOf(likes, p)|
      ensures forall p :: Feed.DisplayedThread(threads, p) == Feed.ThreadOf(commentRows, p)
      ensures forall c | c in comments && FindUser(users, c.userId).Some? ::
                Feed.Entry(Feed.CommentViewOf(c, FindUser(users, c.userId).value)) in Feed.DisplayedThread(threads, c.postId)
      ensures forall p, e | e in Feed.DisplayedThread(threads, p) ::
                exists c | c in comments :: c.postId == p && FindUser(users, c.userId).Some? &&
                  e == Feed.Entry(Feed.CommentViewOf(c, FindUser(users, c.userId).value))
      ensures |commentRows| == |Feed.CommentsWithAuthor(comments, users)|
      ensures Feed.CommentsByTime(commentRows) ==>
                forall p :: Feed.EntriesByTime(Feed.DisplayedThread(threads, p))
    {
      likeCounts := Feed.LikeCounts(likes);
      forall p ensures Feed.DisplayedLikes(likeCounts, p) == |Feed.LikersOf(likes, p)| {
        Feed.DisplayedLikesCountsLikers(likes, p);
      }
      threads := Feed.GroupComments(commentRows);
      forall c | c in comments && FindUser(users, c.userId).Some?
        ensures Feed.Entry(Feed.CommentViewOf(c, FindUser(users, c.userId).value)) in Feed.DisplayedThread(threads, c.postId)
      {
        Feed.CommentShownUnderItsPost(comments, users, commentRows, c);
      }
      forall p, e | e in Feed.DisplayedThread(threads, p)
        ensures exists c | c in comments :: c.postId == p && FindUser(users, c.userId).Some? &&
                  e == Feed.Entry(Feed.CommentViewOf(c, FindUser(users, c.userId).value))
      {
        Feed.ThreadShowsOnlyItsComments(comments, users, commentRows, p, e);
      }
      CommentIdsDistinct();
      Feed.JoinCommentsCount(comments, users);
      assert |commentRows| == |multiset(commentRows)|;
      if Feed.CommentsByTime(commentRows) {
        forall p ensures Feed.EntriesByTime(Feed.DisplayedThread(threads, p)) {
          Feed.ThreadOrdered(commentRows, p);
        }
      }
    }

    /** `notifications`: the handler dereferences the user unchecked, so without one it fails
        (None). Otherwise one entry per like and per comment on the user's posts and per
        follower, likes first, then comments, then follows. */
    method NotificationsPage(session: Option<int>) returns (r: Option<seq<Notifications.Note>>)
      requires Valid()
      ensures r.None? <==> SessionUser(users, session).None?
      ensures r.Some? ==>
                |r.value| == |set l | l in likes && Notifications.LikeNotifies(l, posts, users, session.value)|
                             + |set c | c in comments && Notifications.CommentNotifies(c, posts, users, session.value)|
                             + |set f | f in follows && Notifications.FollowNotifies(f, users, session.value)|
      ensures r.Some? ==> forall i, j | 0 <= i < j < |r.value| ::
                Notifications.VerbOrder(r.value[i].verb) <= Notifications.VerbOrder(r.value[j].verb)
      ensures r.Some? ==> r.value == Notifications.NotesFor(users, posts, comments, likes, follows, session.value)
    {
      var user := SessionUser(users, session);
      if user.None? {
        r := None;
      } else {
        CommentIdsDistinct();
        Notifications.NotificationCount(users, posts, comments, likes, follows, user.value.id);
        r := Some(Notifications.NotesFor(users, posts, comments, likes, follows, user.value.id));
      }
    }

    /** The GET half of `dm`: without a user the handler redirects (None); a partner id too
        large for a 64-bit INTEGER makes the SELECT raise (None); otherwise the conversation
        over the message rows as the query's ORDER BY returns them, which are exactly this
        store's messages, in time order. */
    method ConversationPage(session: Option<int>, you: nat, orderedMessages: seq<Message>)
      returns (r: Option<seq<Messaging.ChatLine>>)
      requires Valid()
      requires multiset(orderedMessages) == multiset(messages)
      ensures r.None? <==> SessionUser(users, session).None? || !Bindable(you)
      ensures r.Some? ==> r.value == Messaging.Conversation(orderedMessages, session.value, you)
      ensures r.Some? ==> |r.value| == |Messaging.MessagesBetween(messages, session.value, you)|
      ensures r.Some? && Messaging.MessagesByTime(orderedMessages) ==> Messaging.LinesByTime(r.value)
    {
      var user := SessionUser(users, session);
      if user.None? || !Bindable(you) {
        r := None;
      } else {
        var me := user.value.id;
        assert NoDuplicates(messages) by {
          forall i, j | 0 <= i < j < |messages| ensures messages[i] != messages[j] {
            assert messages[i].id != messages[j].id;
          }
        }
        Presence.NoDuplicatesReordered(messages, orderedMessages);
        Messaging.ConversationCount(orderedMessages, me, you);
        assert Messaging.MessagesBetween(orderedMessages, me, you) == Messaging.MessagesBetween(messages, me, you) by {
          forall m ensures m in orderedMessages <==> m in messages {
            assert m in orderedMessages <==> m in multiset(orderedMessages);
          }
        }
        if Messaging.MessagesByTime(orderedMessages) {
          Messaging.ConversationOrdered(orderedMessages, me, you);
        }
        r := Some(Messaging.Conversation(orderedMessages, me, you));
      }
    }

    /** `inbox`: fails without a user (None); otherwise the ids of everyone the user has a
        message to or from. */
    method InboxPage(session: Option<int>) returns (r: Option<set<int>>)
      requires Valid()
      ensures r.None? <==> SessionUser(users, session).None?
      ensures r.Some? ==> forall x :: x in r.value <==> exists m | m in messages :: Messaging.Between(m, session.value, x)
    {
      var user := SessionUser(users, session);
      if user.None? {
        r := None;
      } else {
        r := Some(Messaging.Inbox(messages, user.value.id));
      }
    }
  }
}
