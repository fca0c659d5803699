/**
 * The `/users` handlers as decisions: each maps the request body, the
 * queries it runs and the outcome of the service call it makes to the reply.
 * A body is `None` when the parsed JSON is falsy (`null` or an empty object); a field
 * is `None` when the key is absent.
 */
module UserRoutes {
  import opened Python
  import opened Tables
  import opened Models
  import opened Database
  import opened Http
  import UserService

  datatype NewUser = NewUser(username: Option<string>)

  function Taken(username: string): string {
    "Username \"" + username + "\" already exists"
  }

  /**
   * `POST /users`: the body, then the username, then the exact-match
   * pre-check; only then is `create_user` called, whose outcome is `created`.
   */
  function CreateUser(users: Table<User>, body: Option<NewUser>, created: Outcome<User>): (r: Reply<User>)
    requires UsersOk(users)
    ensures r.status in {201, 400, 409}
    ensures r.status == 201 <==> r.Record?
    ensures r.Record? ==> created.Ok? && r.item == created.value && r.note == Some("User created successfully")
    ensures body.None? ==> r == InvalidBody()
    ensures body.Some? && FalsyStr(body.value.username) ==> r == Required("Username is required")
    ensures r.status == 409 ==> r.Error? && body.Some? && body.value.username.Some? && r.message == Taken(body.value.username.value)
  {
    if body.None? then InvalidBody()
    else if FalsyStr(body.value.username) then Required("Username is required")
    else
      var username := body.value.username.value;
      if UserService.UsernameExists(users, username) then Error(409, "Conflict", Taken(username))
      else match created
        case Ok(user) => Record(201, user, Some("User created successfully"))
        case ValueError(message) => Error(400, "Validation error", message)
        case IntegrityError(_) => Error(409, "Conflict", Taken(username))
  }

  /** A name already stored exactly is answered 409 before the service is consulted. */
  lemma ExactDuplicateSkipsService(users: Table<User>, name: string, c1: Outcome<User>, c2: Outcome<User>)
    requires UsersOk(users) && exists k :: k in users.rows && users.rows[k].username == name
    ensures name != ""
    ensures CreateUser(users, Some(NewUser(Some(name))), c1) == CreateUser(users, Some(NewUser(Some(name))), c2)
    ensures CreateUser(users, Some(NewUser(Some(name))), c1).status == 409
  {
  }

  /** A name stored exactly is already stripped and not blank. */
  lemma StoredNameStripped(users: Table<User>, name: string)
    requires UsersOk(users) && UserService.UsernameExists(users, name)
    ensures !AllSpace(name) && Strip(name) == name
  {
    var k :| k in users.rows && users.rows[k].username == name;
    FilledNotBlank(name);
    assert [] + name + [] == name;
    StripPadded([], name, []);
  }

  /**
   * `POST /users` with the service's actual outcome: a whitespace-only name is
   * 400, a name whose stripped form is taken is 409, and any other name is
   * created stripped under a fresh id.
   */
  lemma CreateUserEndToEnd(users: Table<User>, name: string)
    requires UsersOk(users) && name != ""
    ensures var r := CreateUser(users, Some(NewUser(Some(name))), UserService.CreateUserResult(users, Some(name)));
            && (r.status == 400 <==> AllSpace(name))
            && (r.status == 400 ==> r == Error(400, "Validation error", "Username cannot be empty"))
            && (r.status == 409 <==> !AllSpace(name) && exists k :: k in users.rows && users.rows[k].username == Strip(name))
            && (r.status == 201 ==> r.item.username == Strip(name) && r.item.id !in users.rows)
  {
    var c := UserService.CreateUserResult(users, Some(name));
    UserService.CreateUserOutcomes(users, Some(name));
    if UserService.UsernameExists(users, name) {
      StoredNameStripped(users, name);
    }
  }

  /**
   * A name padded with whitespace around a stored username passes the exact
   * pre-check and is rejected by the unique index instead: still 409.
   */
  lemma PaddedDuplicateConflicts(users: Table<User>, pre: string, k: int, post: string)
    requires UsersOk(users) && k in users.rows && AllSpace(pre) && AllSpace(post) && pre + post != []
    ensures var name := pre + users.rows[k].username + post;
            && !UserService.UsernameExists(users, name)
            && UserService.CreateUserResult(users, Some(name)).IntegrityError?
            && CreateUser(users, Some(NewUser(Some(name))), UserService.CreateUserResult(users, Some(name)))
                 == Error(409, "Conflict", Taken(name))
  {
    var stored := users.rows[k].username;
    var name := pre + stored + post;
    PaddedNameNotStored(users, pre, stored, post);
    FilledNotBlank(stored);
    StripEmptyIff(name);
    assert Strip(name) == stored;
    assert name != "";
  }

  lemma PaddedNameNotStored(users: Table<User>, pre: string, stored: string, post: string)
    requires UsersOk(users) && Filled(stored) && AllSpace(pre) && AllSpace(post) && pre + post != []
    ensures Strip(pre + stored + post) == stored
    ensures !UserService.UsernameExists(users, pre + stored + post)
  {
    StripPadded(pre, stored, post);
    if UserService.UsernameExists(users, pre + stored + post) {
      StoredNameStripped(users, pre + stored + post);
    }
  }

  /**
   * `DELETE /users/<id>`: 404 when the service found no such user, 200 when
   * it deleted it, and 500 `Failed to delete user` when it raised.
   */
  function DeleteUser(id: int, deleted: Outcome<bool>): (r: Reply<User>)
    ensures r.status in {200, 404, 500}
    ensures r.status == 200 <==> deleted == Ok(true)
    ensures r.status == 404 <==> deleted == Ok(false)
    ensures deleted == Ok(false) ==> r == NotFound("User", id)
    ensures !deleted.Ok? ==> r.Error? && r.error == "Failed to delete user"
  {
    Deleted("User", id, deleted, "Failed to delete user")
  }

  /**
   * `DELETE /users/<id>` with the service's actual outcome: 404 exactly for an
   * unknown id, 500 exactly for a user who still owns a collection, and 200
   * otherwise.
   */
  lemma DeleteUserEndToEnd(users: Table<User>, collections: Table<Collection>, id: int)
    requires UsersOk(users)
    ensures var r := DeleteUser(id, UserService.DeleteUserResult(users, collections, id));
            && (r.status == 404 <==> id !in users.rows)
            && (r.status == 500 <==> id in users.rows && exists k :: k in collections.rows && collections.rows[k].userId == id)
            && (r.status == 500 ==> r == Error(500, "Failed to delete user", "NOT NULL constraint failed: collections.user_id"))
            && (r.status == 200 <==> id in users.rows && forall k :: k in collections.rows ==> collections.rows[k].userId != id)
  {
    UserService.DeleteUserOutcomes(users, collections, id);
  }

  /** `GET /users`: the requested page of users, with `count` their number. */
  function GetAllUsers(users: Table<User>, limit: Option<int>, offset: Option<int>): (r: Reply<User>)
    requires UsersOk(users)
    ensures r.Listing? && r.status == 200 && r.count == |r.items|
    ensures forall i :: 0 <= i < |r.items| ==> r.items[i].id in users.rows && users.rows[r.items[i].id] == r.items[i]
    ensures limit.Some? && 0 <= limit.value ==> r.count <= limit.value
    ensures r.items == UserService.GetAllUsers(users, limit, offset)
  {
    ListOf(UserService.GetAllUsers(users, limit, offset))
  }
}
