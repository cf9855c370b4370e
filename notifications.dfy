/** The notifications page: three filtered projections of the tables concatenated as
    likes, then comments, then follows. */
module Notifications {
  import opened Tables

  /** The literal third column of each query. */
  datatype Verb = LikedYourPost | CommentedOnYourPost | FollowedYou

  /** A notification row: post id, actor name, verb, time. Follows carry neither post id nor time. */
  datatype Note = Note(postId: Option<int>, actorName: string, verb: Verb, at: Option<Timestamp>)

  /** Position of each source in the merged list. */
  function VerbOrder(v: Verb): nat {
    match v
    case LikedYourPost => 0
    case CommentedOnYourPost => 1
    case FollowedYou => 2
  }

  /** A like is reported to `me` when its post exists and is `me`'s and its liker exists
      (`likes JOIN posts JOIN users WHERE posts.user_id=?`). */
  predicate LikeNotifies(l: Like, posts: seq<Post>, users: seq<User>, me: int) {
    FindPost(posts, l.postId).Some? && FindPost(posts, l.postId).value.userId == me && FindUser(users, l.userId).Some?
  }

  /** A comment is reported to `me` when its post exists and is `me`'s and its author exists. */
  predicate CommentNotifies(c: Comment, posts: seq<Post>, users: seq<User>, me: int) {
    FindPost(posts, c.postId).Some? && FindPost(posts, c.postId).value.userId == me && FindUser(users, c.userId).Some?
  }

  /** A follow is reported to `me` when `me` is followed and the follower exists. */
  predicate FollowNotifies(f: Follow, users: seq<User>, me: int) {
    f.followeeId == me && FindUser(users, f.followerId).Some?
  }

  /** The row the likes query selects for a like: post id, liker's name, and the POST's
      creation time (likes have none). */
  function LikeNoteOf(l: Like, posts: seq<Post>, users: seq<User>): Note
    requires FindPost(posts, l.postId).Some? && FindUser(users, l.userId).Some?
  {
    var p := FindPost(posts, l.postId).value;
    Note(Some(p.id), FindUser(users, l.userId).value.name, LikedYourPost, Some(p.createdAt))
  }

  /** The row the comments query selects: post id, commenter's name, the comment's time. */
  function CommentNoteOf(c: Comment, posts: seq<Post>, users: seq<User>): Note
    requires FindPost(posts, c.postId).Some? && FindUser(users, c.userId).Some?
  {
    Note(Some(FindPost(posts, c.postId).value.id), FindUser(users, c.userId).value.name,
         CommentedOnYourPost, Some(c.createdAt))
  }

  /** The row the follows query selects: `NULL, follower's name, 'followed you', NULL`. */
  function FollowNoteOf(f: Follow, users: seq<User>): Note
    requires FindUser(users, f.followerId).Some?
  {
    Note(None, FindUser(users, f.followerId).value.name, FollowedYou, None)
  }

  /** Likes on my posts, one note per like row that notifies me. */
  function LikeNotes(likes: seq<Like>, posts: seq<Post>, users: seq<User>, me: int): (r: seq<Note>)
    ensures |r| <= |likes|
    ensures forall n | n in r :: n.verb == LikedYourPost && n.postId.Some? && n.at.Some?
    ensures forall n | n in r ::
              exists l | l in likes && LikeNotifies(l, posts, users, me) :: n == LikeNoteOf(l, posts, users)
  {
    if likes == [] then []
    else
      var rest := LikeNotes(likes[1..], posts, users, me);
      assert forall l | l in likes :: l == likes[0] || l in likes[1..];
      if LikeNotifies(likes[0], posts, users, me) then [LikeNoteOf(likes[0], posts, users)] + rest else rest
  }

  /** Comments on my posts, one note per comment row that notifies me. */
  function CommentNotes(comments: seq<Comment>, posts: seq<Post>, users: seq<User>, me: int): (r: seq<Note>)
    ensures |r| <= |comments|
    ensures forall n | n in r :: n.verb == CommentedOnYourPost && n.postId.Some? && n.at.Some?
    ensures forall n | n in r ::
              exists c | c in comments && CommentNotifies(c, posts, users, me) :: n == CommentNoteOf(c, posts, users)
  {
    if comments == [] then []
    else
      var rest := CommentNotes(comments[1..], posts, users, me);
      assert forall c | c in comments :: c == comments[0] || c in comments[1..];
      if CommentNotifies(comments[0], posts, users, me) then [CommentNoteOf(comments[0], posts, users)] + rest
      else rest
  }

  /** Follows of me, one note per follow row whose follower exists. */
  function FollowNotes(follows: seq<Follow>, users: seq<User>, me: int): (r: seq<Note>)
    ensures |r| <= |follows|
    ensures forall n | n in r :: n.verb == FollowedYou && n.postId.None? && n.at.None?
    ensures forall n | n in r ::
              exists f | f in follows && FollowNotifies(f, users, me) :: n == FollowNoteOf(f, users)
  {
    if follows == [] then []
    else
      var rest := FollowNotes(follows[1..], users, me);
      assert forall f | f in follows :: f == follows[0] || f in follows[1..];
      if FollowNotifies(follows[0], users, me) then [FollowNoteOf(follows[0], users)] + rest else rest
  }

  /** Every like on one of my posts by an existing user is reported. */
  lemma {:induction false} LikeNotesComplete(likes: seq<Like>, posts: seq<Post>, users: seq<User>, me: int, l: Like)
    requires l in likes && LikeNotifies(l, posts, users, me)
    ensures LikeNoteOf(l, posts, users) in LikeNotes(likes, posts, users, me)
  {
    if likes[0] != l {
      assert l in likes[1..];
      LikeNotesComplete(likes[1..], posts, users, me, l);
    }
  }

  /** Every comment on one of my posts by an existing user is reported. */
  lemma {:induction false} CommentNotesComplete(comments: seq<Comment>, posts: seq<Post>, users: seq<User>, me: int,
                                                c: Comment)
    requires c in comments && CommentNotifies(c, posts, users, me)
    ensures CommentNoteOf(c, posts, users) in CommentNotes(comments, posts, users, me)
  {
    if comments[0] != c {
      assert c in comments[1..];
      CommentNotesComplete(comments[1..], posts, users, me, c);
    }
  }

  /** Every follow of me by an existing user is reported. */
  lemma {:induction false} FollowNotesComplete(follows: seq<Follow>, users: seq<User>, me: int, f: Follow)
    requires f in follows && FollowNotifies(f, users, me)
    ensures FollowNoteOf(f, users) in FollowNotes(follows, users, me)
  {
    if follows[0] != f {
      assert f in follows[1..];
      FollowNotesComplete(follows[1..], users, me, f);
    }
  }

  /** `likes + comments + follows`. */
  function NotesFor(users: seq<User>, posts: seq<Post>, comments: seq<Comment>, likes: seq<Like>,
                    follows: seq<Follow>, me: int): (notes: seq<Note>)
    ensures |notes| == |LikeNotes(likes, posts, users, me)| + |CommentNotes(comments, posts, users, me)|
                       + |FollowNotes(follows, users, me)|
    ensures forall i, j | 0 <= i < j < |notes| :: VerbOrder(notes[i].verb) <= VerbOrder(notes[j].verb)
    ensures forall n | n in notes :: (n.verb == FollowedYou) <==> (n.postId.None? && n.at.None?)
  {
    var ls := LikeNotes(likes, posts, users, me);
    var cs := CommentNotes(comments, posts, users, me);
    var fs := FollowNotes(follows, users, me);
    var notes := ls + cs + fs;
    assert forall i | 0 <= i < |notes| ::
      VerbOrder(notes[i].verb) == if i < |ls| then 0 else if i < |ls| + |cs| then 1 else 2 by {
      forall i | 0 <= i < |notes|
        ensures VerbOrder(notes[i].verb) == if i < |ls| then 0 else if i < |ls| + |cs| then 1 else 2
      {
        if i < |ls| { assert notes[i] in ls; }
        else if i < |ls| + |cs| { assert notes[i] == cs[i - |ls|]; assert notes[i] in cs; }
        else { assert notes[i] == fs[i - |ls| - |cs|]; assert notes[i] in fs; }
      }
    }
    notes
  }

  /** Every entry of the page comes from a row that notifies me: a like note from a like on
      one of my posts, a comment note from a comment on one, a follow note from a follow of me. */
  lemma NotesForSound(users: seq<User>, posts: seq<Post>, comments: seq<Comment>, likes: seq<Like>,
                      follows: seq<Follow>, me: int)
    ensures var notes := NotesFor(users, posts, comments, likes, follows, me);
      && (forall n | n in notes && n.verb == LikedYourPost ::
            exists l | l in likes && LikeNotifies(l, posts, users, me) :: n == LikeNoteOf(l, posts, users))
      && (forall n | n in notes && n.verb == CommentedOnYourPost ::
            exists c | c in comments && CommentNotifies(c, posts, users, me) :: n == CommentNoteOf(c, posts, users))
      && (forall n | n in notes && n.verb == FollowedYou ::
            exists f | f in follows && FollowNotifies(f, users, me) :: n == FollowNoteOf(f, users))
  {
    var ls := LikeNotes(likes, posts, users, me);
    var cs := CommentNotes(comments, posts, users, me);
    var fs := FollowNotes(follows, users, me);
    var notes := NotesFor(users, posts, comments, likes, follows, me);
    assert notes == ls + cs + fs;
    forall n | n in notes && n.verb == LikedYourPost
      ensures exists l | l in likes && LikeNotifies(l, posts, users, me) :: n == LikeNoteOf(l, posts, users)
    {
      assert n in ls + cs || n in fs;
      assert n in ls;
    }
    forall n | n in notes && n.verb == CommentedOnYourPost
      ensures exists c | c in comments && CommentNotifies(c, posts, users, me) :: n == CommentNoteOf(c, posts, users)
    {
      assert n in ls + cs || n in fs;
      assert n in cs;
    }
    forall n | n in notes && n.verb == FollowedYou
      ensures exists f | f in follows && FollowNotifies(f, users, me) :: n == FollowNoteOf(f, users)
    {
      assert n in ls + cs || n in fs;
      assert n in fs;
    }
  }

  /** Every like and comment on one of my posts and every follow of me, by an existing user,
      is on the page. */
  lemma NotesForComplete(users: seq<User>, posts: seq<Post>, comments: seq<Comment>, likes: seq<Like>,
                         follows: seq<Follow>, me: int)
    ensures forall l | l in likes && LikeNotifies(l, posts, users, me) ::
              LikeNoteOf(l, posts, users) in NotesFor(users, posts, comments, likes, follows, me)
    ensures forall c | c in comments && CommentNotifies(c, posts, users, me) ::
              CommentNoteOf(c, posts, users) in NotesFor(users, posts, comments, likes, follows, me)
    ensures forall f | f in follows && FollowNotifies(f, users, me) ::
              FollowNoteOf(f, users) in NotesFor(users, posts, comments, likes, follows, me)
  {
    var notes := NotesFor(users, posts, comments, likes, follows, me);
    assert notes == LikeNotes(likes, posts, users, me) + CommentNotes(comments, posts, users, me)
                    + FollowNotes(follows, users, me);
    forall l | l in likes && LikeNotifies(l, posts, users, me) ensures LikeNoteOf(l, posts, users) in notes {
      LikeNotesComplete(likes, posts, users, me, l);
    }
    forall c | c in comments && CommentNotifies(c, posts, users, me) ensures CommentNoteOf(c, posts, users) in notes {
      CommentNotesComplete(comments, posts, users, me, c);
    }
    forall f | f in follows && FollowNotifies(f, users, me) ensures FollowNoteOf(f, users) in notes {
      FollowNotesComplete(follows, users, me, f);
    }
  }

  /** One like notification per like on one of my posts. */
  lemma {:induction false} LikeNotesCount(likes: seq<Like>, posts: seq<Post>, users: seq<User>, me: int)
    requires NoDuplicates(likes)
    ensures |LikeNotes(likes, posts, users, me)| == |set l | l in likes && LikeNotifies(l, posts, users, me)|
  {
    if likes != [] {
      NoDuplicatesTail(likes);
      LikeNotesCount(likes[1..], posts, users, me);
      assert forall l | l in likes :: l == likes[0] || l in likes[1..];
      var all := set l | l in likes && LikeNotifies(l, posts, users, me);
      var tail := set l | l in likes[1..] && LikeNotifies(l, posts, users, me);
      if LikeNotifies(likes[0], posts, users, me) {
        assert all == tail + {likes[0]} by {
          forall l | l in all ensures l in tail + {likes[0]} {
            if l != likes[0] { assert l in likes[1..]; }
          }
        }
      } else {
        assert all == tail;
      }
    }
  }

  /** One comment notification per comment on one of my posts. */
  lemma {:induction false} CommentNotesCount(comments: seq<Comment>, posts: seq<Post>, users: seq<User>, me: int)
    requires NoDuplicates(comments)
    ensures |CommentNotes(comments, posts, users, me)| ==
            |set c | c in comments && CommentNotifies(c, posts, users, me)|
  {
    if comments != [] {
      NoDuplicatesTail(comments);
      CommentNotesCount(comments[1..], posts, users, me);
      assert forall c | c in comments :: c == comments[0] || c in comments[1..];
      var all := set c | c in comments && CommentNotifies(c, posts, users, me);
      var tail := set c | c in comments[1..] && CommentNotifies(c, posts, users, me);
      var rest := CommentNotes(comments[1..], posts, users, me);
      if CommentNotifies(comments[0], posts, users, me) {
        assert CommentNotes(comments, posts, users, me) == [CommentNoteOf(comments[0], posts, users)] + rest;
        assert all == tail + {comments[0]} by {
          forall c | c in all ensures c in tail + {comments[0]} {
            if c != comments[0] { assert c in comments[1..]; }
          }
        }
      } else {
        assert CommentNotes(comments, posts, users, me) == rest;
        assert all == tail;
      }
    }
  }

  /** One follow notification per follower of mine. */
  lemma {:induction false} FollowNotesCount(follows: seq<Follow>, users: seq<User>, me: int)
    requires NoDuplicates(follows)
    ensures |FollowNotes(follows, users, me)| == |set f | f in follows && FollowNotifies(f, users, me)|
  {
    if follows != [] {
      NoDuplicatesTail(follows);
      FollowNotesCount(follows[1..], users, me);
      assert forall f | f in follows :: f == follows[0] || f in follows[1..];
      var all := set f | f in follows && FollowNotifies(f, users, me);
      var tail := set f | f in follows[1..] && FollowNotifies(f, users, me);
      if FollowNotifies(follows[0], users, me) {
        assert all == tail + {follows[0]} by {
          forall f | f in all ensures f in tail + {follows[0]} {
            if f != follows[0] { assert f in follows[1..]; }
          }
        }
      } else {
        assert all == tail;
      }
    }
  }

  /** The page lists exactly (likes on my posts) + (comments on my posts) + (my followers). */
  lemma NotificationCount(users: seq<User>, posts: seq<Post>, comments: seq<Comment>, likes: seq<Like>,
                          follows: seq<Follow>, me: int)
    requires NoDuplicates(likes) && NoDuplicates(comments) && NoDuplicates(follows)
    ensures |NotesFor(users, posts, comments, likes, follows, me)| ==
            |set l | l in likes && LikeNotifies(l, posts, users, me)|
            + |set c | c in comments && CommentNotifies(c, posts, users, me)|
            + |set f | f in follows && FollowNotifies(f, users, me)|
  {
    LikeNotesCount(likes, posts, users, me);
    CommentNotesCount(comments, posts, users, me);
    FollowNotesCount(follows, users, me);
  }

  /** Nothing keeps owners out of their own notifications: liking one's own post notifies
      oneself. */
  lemma {:induction false} OwnLikeNotifiesOwner(likes: seq<Like>, posts: seq<Post>, users: seq<User>, l: Like)
    requires l in likes
    requires FindPost(posts, l.postId).Some? && FindPost(posts, l.postId).value.userId == l.userId
    requires FindUser(users, l.userId).Some?
    ensures exists n | n in LikeNotes(likes, posts, users, l.userId) :: n.actorName == FindUser(users, l.userId).value.name
  {
    LikeNotesComplete(likes, posts, users, l.userId, l);
    assert LikeNoteOf(l, posts, users).actorName == FindUser(users, l.userId).value.name;
  }
}
