/**
 * The `POST /users` handler of routes/users.js and its helper
 * `checkForUniqueUsername`.
 *
 * The request body carries `name`, `username` and `password`. A missing or
 * empty field is rejected with 400 before the table is consulted; a username
 * already stored is rejected with 409; otherwise one row is inserted and the
 * answer is 201. The Users table is an in-memory sequence passed in and
 * returned.
 */
module Users {

  datatype Option<T> = None | Some(value: T)

  /** A row of the Users table (the generated id is not modelled). */
  datatype User = User(name: string, username: string, password: string)

  /** The HTTP statuses the handler answers with on its sequential paths. */
  datatype Status = BadRequest | Conflict | Created
  {
    function Code(): (code: int)
      ensures code == 400 <==> this == BadRequest
      ensures code == 409 <==> this == Conflict
      ensures code == 201 <==> this == Created
    {
      match this
      case BadRequest => 400
      case Conflict => 409
      case Created => 201
    }
  }

  /** The status sent back and the table afterwards. */
  datatype Response = Response(status: Status, users: seq<User>)

  /**
   * A body field passes the `!field` test: it is there and is not the empty
   * string (the falsy values a JSON string field can take are absence, null
   * and "").
   */
  predicate Present(field: Option<string>)
  {
    field.Some? && field.value != ""
  }

  /** Some stored user has exactly this username (case-sensitive). */
  predicate Taken(users: seq<User>, username: string)
  {
    exists u :: u in users && u.username == username
  }

  /** No two rows of the table share a username. */
  predicate UniqueUsernames(users: seq<User>)
  {
    forall i, j :: 0 <= i < j < |users| ==> users[i].username != users[j].username
  }

  /** `checkForUniqueUsername`: the stored rows whose username equals `username`, in table order. */
  function CheckForUniqueUsername(users: seq<User>, username: string): (matching: seq<User>)
    ensures |matching| <= |users|
    ensures forall u :: u in matching <==> u in users && u.username == username
    ensures |matching| > 0 <==> Taken(users, username)
  {
    if users == [] then []
    else
      var rest := CheckForUniqueUsername(users[1..], username);
      assert forall u :: u in users ==> u == users[0] || u in users[1..];
      if users[0].username == username then [users[0]] + rest else rest
  }

  /** The `POST /users` handler without its storage-failure (500) path. */
  function CreateUser(users: seq<User>, name: Option<string>, username: Option<string>, password: Option<string>): (resp: Response)
    ensures resp.status == BadRequest <==> !(Present(name) && Present(username) && Present(password))
    ensures resp.status == Conflict <==>
      Present(name) && Present(username) && Present(password) && Taken(users, username.value)
    ensures resp.status != Created ==> resp.users == users
    ensures resp.status == Created ==>
      Present(name) && Present(username) && Present(password)
      && resp.users == users + [User(name.value, username.value, password.value)]
  {
    if !(Present(name) && Present(username) && Present(password)) then
      Response(BadRequest, users)
    else if |CheckForUniqueUsername(users, username.value)| > 0 then
      Response(Conflict, users)
    else
      Response(Created, users + [User(name.value, username.value, password.value)])
  }

  /** A missing field is answered with 400 whatever the table holds: no lookup decides it. */
  lemma MissingFieldIgnoresTable(users1: seq<User>, users2: seq<User>,
                                 name: Option<string>, username: Option<string>, password: Option<string>)
    requires !Present(name) || !Present(username) || !Present(password)
    ensures CreateUser(users1, name, username, password) == Response(BadRequest, users1)
    ensures CreateUser(users2, name, username, password) == Response(BadRequest, users2)
  {
  }

  /** The handler never lets two rows share a username. */
  lemma CreateUserKeepsUsernamesUnique(users: seq<User>, name: Option<string>, username: Option<string>, password: Option<string>)
    requires UniqueUsernames(users)
    ensures UniqueUsernames(CreateUser(users, name, username, password).users)
  {
  }

  /** Once a user is created, a second request with the same username is refused with 409. */
  lemma SecondCreateConflicts(users: seq<User>, name: Option<string>, username: Option<string>, password: Option<string>,
                              name2: Option<string>, password2: Option<string>)
    requires CreateUser(users, name, username, password).status == Created
    requires Present(name2) && Present(password2)
    ensures CreateUser(CreateUser(users, name, username, password).users, name2, username, password2)
      == Response(Conflict, CreateUser(users, name, username, password).users)
  {
  }
}
