/**
 * `UserService`: creating, looking up, listing and deleting users.
 * The queries are functions of the users table; `CreateUser` and
 * `DeleteUser` change the database and are tied to `CreateUserResult` and
 * `Tables.Delete`.
 */
module UserService {
  import opened Python
  import opened Tables
  import opened Models
  import opened Database

  /**
   * `username_exists(username)`: some stored user has exactly this username,
   * compared unstripped. This is also what the unique index on `username`
   * tests at commit.
   */
  predicate UsernameExists(users: Table<User>, username: string) {
    exists k | k in users.rows :: users.rows[k].username == username
  }

  /** The query `username_exists` runs, `filter_by(username=...).first() is not None`, is that test. */
  lemma UsernameExistsQuery(users: Table<User>, username: string)
    requires UsersOk(users)
    ensures UsernameExists(users, username) <==> Where(Rows(users), (u: User) => u.username == username) != []
  {
    RowsWhere(users, (u: User) => u.username == username);
  }

  /** `user_exists(user_id)`: a user with this primary key is stored. */
  predicate UserExists(users: Table<User>, id: int) {
    id in users.rows
  }

  /** The query `user_exists` runs, `filter_by(id=...).first() is not None`, is that key test. */
  lemma UserExistsQuery(users: Table<User>, id: int)
    requires UsersOk(users)
    ensures UserExists(users, id) <==> Where(Rows(users), (u: User) => u.id == id) != []
  {
    RowsWhere(users, (u: User) => u.id == id);
  }

  /** `get_user_by_id(user_id)`: the stored user with this id, or `None`. */
  function GetUserById(users: Table<User>, id: int): (r: Option<User>)
    requires UsersOk(users)
    ensures r.Some? <==> id in users.rows
    ensures r.Some? ==> r.value == users.rows[id] && r.value.id == id
  {
    Get(users, id)
  }

  /** `get_all_users(limit, offset)`: skip `offset` users, then keep at most `limit`. */
  function GetAllUsers(users: Table<User>, limit: Option<int>, offset: Option<int>): (r: seq<User>)
    requires UsersOk(users)
    ensures forall i :: 0 <= i < |r| ==> r[i].id in users.rows && users.rows[r[i].id] == r[i]
    ensures limit.Some? && 0 <= limit.value ==> |r| <= limit.value
    ensures limit.None? && offset.None? ==> r == Rows(users)
    ensures IsPage(r, Rows(users), offset, limit)
  {
    var r := Page(Rows(users), offset, limit);
    assert forall i :: 0 <= i < |r| ==> r[i] in Rows(users) by {
      forall i | 0 <= i < |r| ensures r[i] in Rows(users) {
        PageFrom(Rows(users), offset, limit, r[i]);
      }
    }
    assert forall x :: x in Rows(users) ==> x.id in users.rows && users.rows[x.id] == x by {
      forall x | x in Rows(users) ensures x.id in users.rows && users.rows[x.id] == x {
        RowsStored(users, x);
      }
    }
    r
  }

  /**
   * `create_user(username)`: a missing or blank username raises `ValueError`;
   * otherwise the stripped username is stored under the next id, and the
   * unique index on `username` rejects the commit when that stripped name is
   * already taken.
   */
  function CreateUserResult(users: Table<User>, username: Option<string>): Outcome<User>
    requires UsersOk(users)
  {
    if FalsyStr(username) || Strip(username.value) == "" then ValueError("Username cannot be empty")
    else if UsernameExists(users, Strip(username.value)) then IntegrityError("UNIQUE constraint failed: users.username")
    else Ok(User(NextId(users), Strip(username.value)))
  }

  /** The three ways `create_user` can end, each stated on its own. */
  lemma CreateUserOutcomes(users: Table<User>, username: Option<string>)
    requires UsersOk(users)
    ensures var r := CreateUserResult(users, username);
            && (r.ValueError? <==> Blank(username))
            && (r.ValueError? ==> r.message == "Username cannot be empty")
            && (r.IntegrityError? <==>
                  !Blank(username) && exists k :: k in users.rows && users.rows[k].username == Strip(username.value))
            && (r.Ok? ==> r.value.id !in users.rows && r.value.username == Strip(username.value))
  {
    if username.Some? { StripEmptyIff(username.value); }
  }

  /** A successful create adds exactly one user and keeps usernames unique. */
  lemma CreatedUserOk(users: Table<User>, username: Option<string>)
    requires UsersOk(users) && CreateUserResult(users, username).Ok?
    ensures var u := CreateUserResult(users, username).value;
            && UsersOk(Insert(users, u))
            && Insert(users, u).rows == users.rows[u.id := u]
            && |Insert(users, u).rows| == |users.rows| + 1
  {
    var u := CreateUserResult(users, username).value;
    StripEmptyIff(username.value);
    InsertUserOk(users, u);
  }

  lemma InsertUserOk(users: Table<User>, u: User)
    requires UsersOk(users) && u.id == NextId(users) && Filled(u.username)
    requires forall k :: k in users.rows ==> users.rows[k].username != u.username
    ensures UsersOk(Insert(users, u))
    ensures |Insert(users, u).rows| == |users.rows| + 1
  {
    var rows := Insert(users, u).rows;
    assert rows == users.rows[u.id := u];
    forall k | k in rows ensures rows[k].id == k && Filled(rows[k].username) {
      if k != u.id { assert rows[k] == users.rows[k]; }
    }
    forall j, k | j in rows && k in rows && rows[j].username == rows[k].username ensures j == k {
      if j != u.id && k != u.id {
        assert rows[j] == users.rows[j] && rows[k] == users.rows[k];
      }
    }
  }

  method CreateUser(db: Db, username: Option<string>) returns (r: Outcome<User>)
    requires db.Valid()
    modifies db
    ensures db.Valid()
    ensures r == CreateUserResult(old(db.users), username)
    ensures db.users == (if r.Ok? then Insert(old(db.users), r.value) else old(db.users))
    ensures db.collections == old(db.collections) && db.videos == old(db.videos)
    ensures db.transcripts == old(db.transcripts)
    ensures old(db.Linked()) ==> db.Linked()
  {
    if FalsyStr(username) || Strip(username.value) == "" {
      return ValueError("Username cannot be empty");
    }
    var user := User(NextId(db.users), Strip(username.value));
    if UsernameExists(db.users, user.username) {
      // the unique index on `username` rejects the commit
      return IntegrityError("UNIQUE constraint failed: users.username");
    }
    InsertUserOk(db.users, user);
    var users := Insert(db.users, user);
    if db.Linked() { LinkedStoreUser(db.users, users, db.collections, db.videos, db.transcripts, user.id, user); }
    db.CommitUsers(users);
    r := Ok(user);
  }

  /**
   * `delete_user(user_id)`: `False` for an unknown id. Deleting a user who
   * still owns collections fails at commit: `collections` has no delete
   * cascade, so the flush sets each one's `user_id` to NULL, which the
   * NOT NULL column rejects, and nothing is removed. Otherwise `True`.
   */
  function DeleteUserResult(users: Table<User>, collections: Table<Collection>, id: int): Outcome<bool>
    requires UsersOk(users)
  {
    if GetUserById(users, id).None? then Ok(false)
    else if OwnsCollections(collections, id) then IntegrityError("NOT NULL constraint failed: collections.user_id")
    else Ok(true)
  }

  /** The three ways `delete_user` can end. */
  lemma DeleteUserOutcomes(users: Table<User>, collections: Table<Collection>, id: int)
    requires UsersOk(users)
    ensures var r := DeleteUserResult(users, collections, id);
            && !r.ValueError?
            && (r == Ok(false) <==> id !in users.rows)
            && (r == Ok(true) <==> id in users.rows && forall k :: k in collections.rows ==> collections.rows[k].userId != id)
            && (r.IntegrityError? <==>
                  id in users.rows && exists k :: k in collections.rows && collections.rows[k].userId == id)
  {
  }

  /**
   * Removing a user who still owns a collection would leave that collection
   * pointing at no user; this is the state the failing commit never reaches.
   */
  lemma DeleteOwnerOrphans(users: Table<User>, collections: Table<Collection>, videos: Table<Video>,
                           transcripts: Table<Transcript>, id: int, k: int)
    requires UsersOk(users) && k in collections.rows && collections.rows[k].userId == id
    ensures !Models.Linked(Delete(users, id), collections, videos, transcripts)
    ensures DeleteUserResult(users, collections, id) != Ok(true)
  {
    assert collections.rows[k].userId !in Delete(users, id).rows;
  }

  method DeleteUser(db: Db, id: int) returns (r: Outcome<bool>)
    requires db.Valid()
    modifies db
    ensures db.Valid()
    ensures r == DeleteUserResult(old(db.users), old(db.collections), id)
    ensures db.users == (if r == Ok(true) then Delete(old(db.users), id) else old(db.users))
    ensures db.collections == old(db.collections) && db.videos == old(db.videos)
    ensures db.transcripts == old(db.transcripts)
    ensures old(db.Linked()) ==> db.Linked()
  {
    var user := GetUserById(db.users, id);
    if user.None? {
      return Ok(false);
    }
    if OwnsCollections(db.collections, id) {
      // the flush nulls each collection's `user_id`, and the NOT NULL column rejects it
      return IntegrityError("NOT NULL constraint failed: collections.user_id");
    }
    if db.Linked() { LinkedDeleteUser(db.users, db.collections, db.videos, db.transcripts, id); }
    db.CommitUsers(Delete(db.users, id));
    r := Ok(true);
  }
}
