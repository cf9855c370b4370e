# WheelSup interaction and feed logic in Dafny

WheelSup is a small social network for travellers, one Flask application (`app.py`)
over one SQLite file. This project models the relational behaviour behind its request
handlers. The six tables `users`, `posts`, `comments`, `likes`, `follows` and `messages`
are the fields of one `Store` object. Each table is a sequence of rows in rowid order. The
handlers that write become methods on that object. The queries that only read become
functions over the tables.

- `tables.dfy` (module `Tables`): the row types and the lookups by id that the queries and
  joins share. Also `NoDuplicates`, which is what a primary key guarantees.
- `presence.dfy` (module `Presence`): the presence toggle behind `like` and `follow`. It tries
  the INSERT, and when the composite primary key refuses it, it deletes the row instead.
- `accounts.dfy` (module `Accounts`): who is logged in (`get_user`), the login query, the
  registration row, and the profile UPDATE with its keep-old-value-if-empty rule.
- `feed.dfy` (module `Feed`): the read side of `index`. This covers the two JOINs, the
  like-count dict, and the loop that groups comments into per-post threads. It also holds
  the `profile` page.
- `notifications.dfy` (module `Notifications`): the three notification queries and their
  concatenation.
- `messaging.dfy` (module `Messaging`): the two-way conversation filter of `dm` and the
  partner set of `inbox`.
- `store.dfy` (module `App`): class `Store` with the tables as fields. `Valid()` states what
  the schema keeps true: ids 1, 2, … in insertion order, UNIQUE emails, and one row per
  primary key in `likes` and `follows`. The handlers are methods on it.

Modelling choices:
- The session's user id is a parameter of type `Option<int>`. `get_user` treats a missing
  or falsy id as "nobody", and so does `SessionUser`.
- Timestamps are integer parameters.
- The password digest is passed in already computed.
- Where a query has `ORDER BY`, the model takes the sorted rows as input. The lemmas say
  what follows when that input is in order.
- An inner JOIN keeps a row only when the referenced user or post exists. It is modelled as
  a lookup by id, which is unique because of `Valid()`.
- Flask's `<int:…>` URL converter accepts only non-negative integers, so ids taken from URLs
  are `nat`. It sets no upper bound, but Python's `sqlite3` cannot bind an integer outside
  SQLite's 64-bit INTEGER (`Bindable`): the statement raises `OverflowError`. In `like` and
  `follow` the `except:` catches it and the DELETE raises again; `comment` and `dm` have no
  `except`. Each of these requests then fails with nothing written, and the GET of `dm` fails
  too. The methods model such an id as "nothing changes", and `ConversationPage` as `None`.

Behaviour of `app.py` the model keeps:
- The feed's `ORDER BY created_at DESC` has no tie-breaking key, so posts with equal times may
  come in either order.
- `like` and `comment` accept post ids that do not exist, and `follow` accepts self-follows
  and unknown users.
- `notifications` and `inbox` dereference the logged-in user without checking it, so without
  one they fail rather than redirect.
- `profile` fails for a user id that no row has. An id too large to bind also fails; no row
  can have it, so `Profile` gives `None` for it as well.
- These failures are modelled as `None`.

## Model

| member | source | states |
|---|---|---|
| `Tables.FindUser` | app.py:77-78 | the row returned has the requested id; no row means no user has that id |
| `Tables.FindPost` | app.py:317-321 | the post joined on `likes.post_id = posts.id`/`comments.post_id = posts.id` has that id; none means no post has it |
| `Presence.Delete` | app.py:163 | the DELETE removes every copy of the pair and keeps every other row with its multiplicity |
| `Presence.DeleteKeepsNoDuplicates` | app.py:163 | deleting never creates a duplicate row, so the primary-key invariant survives the DELETE branch |
| `Presence.DistinctCount` | app.py:43-47 | under the composite primary key a pair occurs once or not at all |
| `Presence.NoDuplicatesReordered` | app.py:61-67 | rows of a table without duplicates stay distinct in any order a query returns them |
| `Presence.Toggle` | app.py:160-163 | the pair becomes present iff it was absent, every other pair keeps its count, and no duplicate is ever created |
| `Presence.ToggleTwice` | app.py:160-163 | toggling the same pair twice restores the table exactly (as a multiset of rows) |
| `Presence.ToggleSize` | app.py:160-163 | a toggle adds one row when the pair was absent and removes one when it was present |
| `Accounts.SessionUser` | app.py:72-78 | a user exactly when the session holds a non-zero id that some row has, and then it is that row |
| `Accounts.Login` | app.py:105-106 | yields an id only of a row with that email and digest; yields nothing iff no row matches both |
| `Accounts.LoginExact` | app.py:105-106 | with UNIQUE emails, login with a user's email succeeds iff the digest is theirs, and yields their id |
| `Accounts.LoginAfterRegister` | app.py:90-106 | right after a successful registration, login with that email succeeds with the new id for that digest and fails for any other digest |
| `Accounts.NewUser` | app.py:91 | the inserted row has the given id, email, digest and name, and every profile column NULL |
| `Accounts.WithProfile` | app.py:229-233 | bio, location, vehicle and skills take the new values; avatar and cover keep the old value for an empty path (`COALESCE(NULLIF(?, ''), col)`) and take the path otherwise; id, email, digest and name stay |
| `Accounts.UpdateProfile` | app.py:229-233 | `WHERE id=?`: rows with that id get the new profile, every other row stays, the table keeps its length |
| `Feed.JoinPosts` | app.py:142-144 | every row of the posts query is a post whose author exists, joined with that author; there are at most as many rows as posts |
| `Feed.JoinPostsComplete` | app.py:142-144 | every post whose author exists is in the posts query, joined with its author |
| `Feed.JoinPostsCount` | app.py:142-144 | with distinct post rows, the query has exactly one row per post whose author exists |
| `Feed.JoinComments` | app.py:149-151 | every row of the comments query is a comment whose author exists, with that author's name; there are at most as many rows as comments |
| `Feed.JoinCommentsComplete` | app.py:149-151 | every comment whose author exists is in the comments query |
| `Feed.JoinCommentsCount` | app.py:149-151 | with distinct comment rows, the query has exactly one row per comment whose author exists |
| `Feed.DisplayedLikes` | app.py:404 | `likes.get(post_id, 0)`: the count stored for the post, and 0 for a post with no entry |
| `Feed.LikeCounts` | app.py:147 | the dict has a key exactly for the posts with at least one like, and every count is positive |
| `Feed.DisplayedLikesCountsLikers` | app.py:147 | the number shown beside a post (`likes.get(id, 0)`) is the number of distinct users liking it, 0 when none |
| `Feed.LikersAfterToggle` | app.py:155-165 | a like toggle adds or removes the actor among the post's likers and changes no other post's likers |
| `Feed.LikeToggleMovesOneCount` | app.py:155-165 | a like toggle moves the shown count of that post by exactly one, up or down, and leaves every other post's count |
| `Feed.ThreadOf` | app.py:148-152 | a thread consists only of entries of comment rows of that post |
| `Feed.ThreadOfAbsent` | app.py:148-152 | a post with no comment rows has the empty thread (`comments.get(id, [])`) |
| `Feed.ThreadSlot` | app.py:148-152 | comment row i sits in its own post's thread at slot Rank(i) |
| `Feed.RankIncreasing` | app.py:148-152 | of two rows of the same post, the later one comes later in the thread |
| `Feed.ThreadSlotFilled` | app.py:148-152 | every slot of a thread is filled by a row of that post |
| `Feed.ThreadsPartitionRows` | app.py:148-152 | the threads partition the comment rows: each row lands in exactly one slot of its post's thread, no two rows share a slot, and every slot is filled |
| `Feed.ThreadOrdered` | app.py:149-152 | rows in `created_at` order give every thread in `created_at` order |
| `Feed.DisplayedThread` | app.py:411 | `comments.get(post_id, [])`: the list stored for the post, and the empty list for a post with no entry |
| `Feed.GroupComments` | app.py:148-152 | the loop's dict has a key exactly for the posts with comment rows, and the list shown under each post is that post's thread in row order |
| `Feed.CommentShownUnderItsPost` | app.py:148-152 | given the ordered comments query, every comment with an existing author is shown under its own post |
| `Feed.ThreadShowsOnlyItsComments` | app.py:148-152 | everything shown under a post is a comment on that post by an existing user |
| `Feed.PostsBy` | app.py:199 | every post on the profile is one of that user's posts; the list is no longer than the posts table |
| `Feed.PostsByComplete` | app.py:199 | every post of the user is on the profile |
| `Feed.PostsByCount` | app.py:199 | with distinct post rows, the profile lists each of the user's posts exactly once |
| `Feed.PostsByNewestFirst` | app.py:199 | posts given newest first give a profile list newest first |
| `Feed.Profile` | app.py:193-201 | no page iff no user has that id; otherwise that user's name, bio, avatar and cover, and `PostsBy` for their id |
| `Notifications.LikeNotes` | app.py:317-322 | every like notification is the row of some like on one of my existing posts by an existing user: that post's id, the liker's name, "liked your post", the post's time |
| `Notifications.LikeNotesComplete` | app.py:317-322 | every like on one of my existing posts by an existing user gets its notification |
| `Notifications.CommentNotes` | app.py:324-329 | every comment notification is the row of some comment on one of my existing posts by an existing user: that post's id, the author's name, "commented on your post", the comment's time |
| `Notifications.CommentNotesComplete` | app.py:324-329 | every comment on one of my existing posts by an existing user gets its notification |
| `Notifications.FollowNotes` | app.py:331-335 | every follow notification is the row of some follow of me by an existing user: no post id, the follower's name, "followed you", no time |
| `Notifications.FollowNotesComplete` | app.py:331-335 | every follow of me by an existing user gets its notification |
| `Notifications.NotesFor` | app.py:317-337 | the length is the sum of the three parts; likes come first, then comments, then follows; an entry lacks post id and time iff it is a follow |
| `Notifications.NotesForSound` | app.py:317-337 | every entry of the page is the notification of a like, comment or follow row that notifies me, according to its verb |
| `Notifications.NotesForComplete` | app.py:317-337 | every like and comment on my existing posts and every follow of me, by an existing user, has its notification on the page |
| `Notifications.LikeNotesCount` | app.py:317-322 | one notification per like row on one of the user's existing posts by an existing user |
| `Notifications.CommentNotesCount` | app.py:324-329 | one notification per comment row on one of the user's existing posts by an existing user |
| `Notifications.FollowNotesCount` | app.py:331-335 | one notification per follow row of the user by an existing follower |
| `Notifications.NotificationCount` | app.py:317-337 | the total is (likes on my posts) + (comments on my posts) + (my followers) |
| `Notifications.OwnLikeNotifiesOwner` | app.py:317-321 | nothing filters self-likes: liking one's own post notifies oneself |
| `Messaging.Conversation` | app.py:292-297 | every line is the sender, text and time of a message between the two users; it is empty iff they exchanged no message |
| `Messaging.ConversationComplete` | app.py:292-297 | every message between the two users is in their conversation |
| `Messaging.ConversationCount` | app.py:292-297 | with distinct message rows, the conversation has exactly one line per message between the two |
| `Messaging.ConversationSymmetric` | app.py:294 | both participants see the same conversation |
| `Messaging.ConversationOrdered` | app.py:292-295 | messages in `created_at` order give the conversation in `created_at` order |
| `Messaging.ConversationAfterSend` | app.py:285-297 | over the messages in rowid order, a sent message extends the conversation of its two ends by one line at the end and no other conversation; in `created_at` order it is last only when its time is the latest |
| `Messaging.Inbox` | app.py:305-307 | a user is in my inbox iff my conversation with them is non-empty |
| `App.Store.constructor` | app.py:14-68 | all six tables start empty and the schema invariant holds |
| `App.Store.Register` | app.py:83-96 | a taken email fails with "Email already registered" and leaves `users` unchanged; otherwise exactly one row is appended with the next id, that email, digest and name, and NULL profile columns; UNIQUE emails are kept |
| `App.Store.CreatePost` | app.py:121-138 | without a user nothing changes; otherwise one post by that user is appended with the next id; other tables are unchanged |
| `App.Store.AddComment` | app.py:167-176 | without a user, or with a post id too large to bind, nothing changes; otherwise one comment by that user is appended with the next id; other tables are unchanged |
| `App.Store.ToggleLike` | app.py:155-165 | without a user, or with a post id too large to bind, nothing changes; otherwise (user, post) flips presence, no other like row changes, and no duplicate appears |
| `App.Store.ToggleFollow` | app.py:262-272 | without a user, or with a followee id too large to bind, nothing changes; otherwise (follower, followee) flips presence, no other follow row changes, and no duplicate appears |
| `App.Store.EditProfile` | app.py:203-235 | without a user nothing changes; otherwise bio, location, vehicle and skills are overwritten; avatar and cover keep their old value when the path is empty and are replaced otherwise; id, email, digest and name stay; no other row changes |
| `App.Store.SendMessage` | app.py:277-290 | without a user, or with a receiver id too large to bind, nothing changes; otherwise one message from that user is appended with the next id |
| `App.Store.CommentIdsDistinct` | app.py:37 | comment ids are the primary key, so no two comment rows are equal |
| `App.Store.FeedAggregates` | app.py:140-153 | given the comments query's rows over this store: every post's shown like count is its number of distinct likers; each post's shown thread is its query rows in order; every comment with an existing author is shown under its own post, and everything shown under a post is such a comment; there is one query row per such comment; threads are in time order when the rows are |
| `App.Store.NotificationsPage` | app.py:311-338 | fails iff nobody is logged in; otherwise the page is `NotesFor` for the user (so every entry comes from a notifying row and every notifying row has its entry), its count is likes + comments on the user's posts + followers, ordered likes, comments, follows |
| `App.Store.ConversationPage` | app.py:277-297 | no page iff nobody is logged in or the partner id is too large to bind; otherwise the conversation over the store's messages in the query's order, one line per message between the two, in time order when the rows are |
| `App.Store.InboxPage` | app.py:300-309 | fails iff nobody is logged in; otherwise exactly the users with a message to or from the user |

## Left out

- Flask routing, redirects and the `session` cookie are not modelled. The session's user id
  is a parameter. `logout` only clears the session and is not modelled.
- The HTML templates and `render_template_string` are not modelled. `DisplayedLikes` and
  `DisplayedThread` model the two dictionary lookups the feed template makes.
- File uploads, `secure_filename`, `file.save` and `send_from_directory` are not modelled.
  Image, avatar and cover paths are opaque strings, and "" means no file.
- `hash_pass` (SHA-256) is not modelled. `Register` and `Login` receive the digest.
- `datetime.datetime.now()` is not modelled. Every timestamp is a parameter.
- SQLite's sorting is not modelled. Each ORDER BY result is an input, so the feed's posts
  are `JoinPosts` before its `ORDER BY created_at DESC`.
- SQL gives no row order inside each notification query. The model uses the driving
  table's rowid order and asserts only the likes, comments, follows grouping.
- `explore` (`ORDER BY id DESC LIMIT 10` and `ORDER BY RANDOM() LIMIT 10`) is not modelled.
  It is a read-only listing outside this core, and its random sample is nondeterministic.
- `trip` (INSERT into `trips`, listing by date) is not modelled. It has no interaction logic.
- The GET half of `index` redirects to `/login` without a user. `FeedAggregates` does not take
  the session and does not model that redirect. `ConversationPage` gives `None` for it.
- Connection handling, commits and concurrency are not modelled. Two requests racing on one
  pair would interleave the INSERT and the DELETE. The model runs each handler as one step.
- The `except:` clauses are modelled as catching only the constraint violation (the email
  UNIQUE constraint in `register`, the primary key in `like` and `follow`). Other database
  errors are not modelled.
