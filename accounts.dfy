/** Accounts: who is logged in, registration, login and the profile UPDATE. */
module Accounts {
  import opened Tables

  /** `register` answers "Email already registered" when the INSERT is refused. */
  datatype RegisterError = EmailAlreadyRegistered

  predicate EmailUsed(users: seq<User>, email: string) {
    exists u | u in users :: u.email == email
  }

  /** The UNIQUE constraint on `users.email`. */
  predicate EmailsDistinct(users: seq<User>) {
    forall i, j | 0 <= i < j < |users| :: users[i].email != users[j].email
  }

  /** The row `INSERT INTO users (email, password, name)` creates: every profile column NULL. */
  function NewUser(id: int, email: string, digest: string, name: string): (u: User)
    ensures u.id == id && u.email == email && u.password == digest && u.name == name
    ensures u.bio.None? && u.location.None? && u.vehicle.None? && u.skills.None?
    ensures u.avatar.None? && u.cover.None?
  {
    User(id, email, digest, name, None, None, None, None, None, None)
  }

  /** `get_user`: no user when the session holds no id (or the falsy id 0), otherwise the
      row with that id, which may be missing. */
  function SessionUser(users: seq<User>, session: Option<int>): (r: Option<User>)
    ensures r.Some? <==> session.Some? && session.value != 0 && exists u | u in users :: u.id == session.value
    ensures r.Some? ==> r.value in users && r.value.id == session.value
  {
    if session.None? || session.value == 0 then None else FindUser(users, session.value)
  }

  /** `SELECT id FROM users WHERE email=? AND password=?`, first row in rowid order. */
  function Login(users: seq<User>, email: string, digest: string): (r: Option<int>)
    ensures r.Some? ==> exists u | u in users :: u.email == email && u.password == digest && u.id == r.value
    ensures r.None? <==> forall u | u in users :: !(u.email == email && u.password == digest)
  {
    if users == [] then None
    else if users[0].email == email && users[0].password == digest then Some(users[0].id)
    else Login(users[1..], email, digest)
  }

  /** With unique emails, login succeeds exactly for the one account holding that email and
      digest, and yields its id. */
  lemma {:induction false} LoginExact(users: seq<User>, i: nat, digest: string)
    requires EmailsDistinct(users) && i < |users|
    ensures Login(users, users[i].email, digest) == (if users[i].password == digest then Some(users[i].id) else None)
  {
    if i > 0 {
      assert users[0].email != users[i].email;
      assert EmailsDistinct(users[1..]) by {
        forall a, b | 0 <= a < b < |users[1..]| ensures users[1..][a].email != users[1..][b].email {
          assert users[1..][a] == users[a + 1] && users[1..][b] == users[b + 1];
        }
      }
      LoginExact(users[1..], i - 1, digest);
    }
  }

  /** A successful registration can log in at once with the same email and digest, and only
      with that digest. */
  lemma {:induction false} LoginAfterRegister(users: seq<User>, email: string, digest: string, name: string, tried: string)
    requires EmailsDistinct(users) && !EmailUsed(users, email)
    ensures Login(users + [NewUser(|users| + 1, email, digest, name)], email, tried)
            == (if tried == digest then Some(|users| + 1) else None)
  {
    var all := users + [NewUser(|users| + 1, email, digest, name)];
    assert EmailsDistinct(all) by {
      forall i, j | 0 <= i < j < |all| ensures all[i].email != all[j].email {
        if j == |users| { assert all[i] in users; }
      }
    }
    LoginExact(all, |users|, tried);
  }

  /** The profile UPDATE: bio, location, vehicle and skills are overwritten; avatar and cover
      are `COALESCE(NULLIF(path, ''), old)`, so an empty path keeps the old value. */
  function WithProfile(u: User, bio: Option<string>, location: Option<string>, vehicle: Option<string>,
                       skills: Option<string>, avatarPath: string, coverPath: string): (r: User)
    ensures r.id == u.id && r.email == u.email && r.password == u.password && r.name == u.name
    ensures r.bio == bio && r.location == location && r.vehicle == vehicle && r.skills == skills
    ensures r.avatar == (if avatarPath == "" then u.avatar else Some(avatarPath))
    ensures r.cover == (if coverPath == "" then u.cover else Some(coverPath))
  {
    u.(bio := bio, location := location, vehicle := vehicle, skills := skills,
       avatar := if avatarPath == "" then u.avatar else Some(avatarPath),
       cover := if coverPath == "" then u.cover else Some(coverPath))
  }

  /** `UPDATE users SET ... WHERE id=?`: every row with that id is rewritten, no other row. */
  function UpdateProfile(users: seq<User>, id: int, bio: Option<string>, location: Option<string>,
                         vehicle: Option<string>, skills: Option<string>, avatarPath: string,
                         coverPath: string): (r: seq<User>)
    ensures |r| == |users|
    ensures forall i | 0 <= i < |users| ::
      r[i] == if users[i].id == id then WithProfile(users[i], bio, location, vehicle, skills, avatarPath, coverPath)
              else users[i]
  {
    seq(|users|, i requires 0 <= i < |users| =>
      if users[i].id == id then WithProfile(users[i], bio, location, vehicle, skills, avatarPath, coverPath)
      else users[i])
  }
}
