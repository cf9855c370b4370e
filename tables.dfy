/** Rows of the WheelSup database and the lookups every query shares.
    A table is a sequence of rows in rowid order; a row's `id` is its rowid. */
module Tables {

  datatype Option<+T> = None | Some(value: T)

  datatype Result<+T, +E> = Ok(value: T) | Err(error: E)

  /** `str(datetime.now())` values: naive local clock readings, compared by the database as
      text. The layout is fixed up to the seconds; the `.ffffff` part is dropped when the
      microsecond is 0, and the shorter string is then a prefix of any longer one for the same
      second and sorts first, so text order is the order of the clock readings (which is not
      the order of events when the clock is set back, e.g. when daylight saving time ends). */
  type Timestamp = int

  /** A `users` row. Profile fields are NULL (None) until the profile is edited. */
  datatype User = User(
    id: int,
    email: string,
    password: string,  // the password digest
    name: string,
    bio: Option<string>,
    location: Option<string>,
    vehicle: Option<string>,
    skills: Option<string>,
    avatar: Option<string>,
    cover: Option<string>)

  /** A `posts` row; `image` is "" when no file was uploaded. */
  datatype Post = Post(id: int, userId: int, content: string, image: string, createdAt: Timestamp)

  /** A `comments` row. Nothing checks that `postId` names an existing post. */
  datatype Comment = Comment(id: int, postId: int, userId: int, content: string, createdAt: Timestamp)

  /** A `likes` row; (userId, postId) is the table's primary key. */
  datatype Like = Like(userId: int, postId: int)

  /** A `follows` row; (followerId, followeeId) is the table's primary key. */
  datatype Follow = Follow(followerId: int, followeeId: int)

  /** A `messages` row. */
  datatype Message = Message(id: int, senderId: int, receiverId: int, text: string, createdAt: Timestamp)

  /** Python's `sqlite3` binds an `int` parameter only when it fits SQLite's 64-bit INTEGER;
      a larger one raises `OverflowError` before the statement runs. */
  predicate Bindable(n: int) {
    -0x8000_0000_0000_0000 <= n < 0x8000_0000_0000_0000
  }

  /** No row occurs twice: what a primary key guarantees of a table. */
  predicate NoDuplicates<T(==)>(rows: seq<T>) {
    forall i, j | 0 <= i < j < |rows| :: rows[i] != rows[j]
  }

  lemma {:induction false} NoDuplicatesPrefix<T>(rows: seq<T>, n: nat)
    requires NoDuplicates(rows) && n <= |rows|
    ensures NoDuplicates(rows[..n])
  {
    forall i, j | 0 <= i < j < n ensures rows[..n][i] != rows[..n][j] {
      assert rows[..n][i] == rows[i] && rows[..n][j] == rows[j];
    }
  }

  /** Dropping the first row keeps the rest distinct, and the first row is not among them. */
  lemma {:induction false} NoDuplicatesTail<T>(rows: seq<T>)
    requires NoDuplicates(rows) && rows != []
    ensures NoDuplicates(rows[1..]) && rows[0] !in rows[1..]
  {
    forall i, j | 0 <= i < j < |rows[1..]| ensures rows[1..][i] != rows[1..][j] {
      assert rows[1..][i] == rows[i + 1] && rows[1..][j] == rows[j + 1];
    }
    forall k | 0 <= k < |rows[1..]| ensures rows[1..][k] != rows[0] {
      assert rows[1..][k] == rows[k + 1];
    }
  }

  /** `SELECT * FROM users WHERE id=?`, first row in rowid order. */
  function FindUser(users: seq<User>, id: int): (r: Option<User>)
    ensures r.Some? ==> r.value in users && r.value.id == id
    ensures r.None? ==> forall u | u in users :: u.id != id
  {
    if users == [] then None
    else if users[0].id == id then Some(users[0])
    else FindUser(users[1..], id)
  }

  /** `SELECT * FROM posts WHERE id=?`, first row in rowid order. */
  function FindPost(posts: seq<Post>, id: int): (r: Option<Post>)
    ensures r.Some? ==> r.value in posts && r.value.id == id
    ensures r.None? ==> forall p | p in posts :: p.id != id
  {
    if posts == [] then None
    else if posts[0].id == id then Some(posts[0])
    else FindPost(posts[1..], id)
  }
}
