/** The four `/users` route handlers as pure functions from the request's
    fields and the `users` node to a status, a response body and the node
    after the request. */
module Handlers {
  import opened Wrappers
  import opened Text
  import opened Users

  /** The HTTP statuses the handlers send when the store does not fail. */
  datatype Status = Ok | Created | BadRequest | NotFound {
    function Code(): (n: nat) {
      match this
      case Ok => 200
      case Created => 201
      case BadRequest => 400
      case NotFound => 404
    }
  }

  /** What a handler produces: the status, the records sent back as JSON
      (empty when the reply is only a message), and the `users` node after
      the request. */
  datatype Response = Response(status: Status, body: Store, store: Store)

  /** A request to `/users`, with the fields each route destructures. */
  datatype Request =
    | GetUsers(query: Option<string>)
    | PostUser(nama: Option<string>, username: Option<string>, password: Option<string>)
    | PutUser(nama: Option<string>, newUsername: Option<string>, newPassword: Option<string>)
    | DeleteUser(nama: Option<string>)

  /** The `forEach` over `Object.keys(users)` that builds `filteredUsers`. */
  method CollectByName(users: Store, query: string) returns (found: Store)
    ensures forall k :: k in found ==> k in users && found[k] == users[k] && NameLike(users[k], query)
    ensures forall k :: k in users && NameLike(users[k], query) ==> k in found
    ensures found == Filtered(users, query)
  {
    found := map[];
    var pending := users.Keys;
    while pending != {}
      invariant pending <= users.Keys
      invariant forall k :: k in found ==> k in users && k !in pending && found[k] == users[k] && NameLike(users[k], query)
      invariant forall k :: k in users && k !in pending && NameLike(users[k], query) ==> k in found
      decreases pending
    {
      var k :| k in pending;
      if NameLike(users[k], query) {
        found := found[k := users[k]];
      }
      pending := pending - {k};
    }
  }

  /** GET /users, optionally filtered by the `nama` query parameter. */
  function Get(query: Option<string>, users: Store): (r: Response)
    ensures r.store == users
    ensures r.status == Ok || r.status == NotFound
    ensures r.status == NotFound ==> r.body == map[]
    ensures users == map[] ==> r.status == NotFound
    ensures users != map[] && !Truthy(query) ==> r.status == Ok && r.body == users
    ensures Truthy(query) ==>
      forall k :: k in r.body ==> k in users && r.body[k] == users[k] && NameLike(users[k], query.value)
    ensures Truthy(query) && users != map[] ==>
      forall k :: k in users && NameLike(users[k], query.value) ==> r.status == Ok && k in r.body
    ensures Truthy(query) && r.status == Ok ==> r.body != map[]
  {
    if users == map[] then Response(NotFound, map[], users)
    else if !Truthy(query) then Response(Ok, users, users)
    else
      var found := Filtered(users, query.value);
      if found == map[] then Response(NotFound, map[], users)
      else Response(Ok, found, users)
  }

  /** POST /users: `pushId` is the key `push()` generates. */
  function Post(nama: Option<string>, username: Option<string>, password: Option<string>,
                pushId: Key, users: Store): (r: Response)
    ensures r.body == map[]
    ensures !(Truthy(nama) && Truthy(username) && Truthy(password)) ==>
      r.status == BadRequest && r.store == users
    ensures Truthy(nama) && Truthy(username) && Truthy(password) ==>
      && r.status == Created
      && r.store.Keys == users.Keys + {pushId}
      && r.store[pushId] == User(nama, username.value, password.value)
      && AgreeExcept(users, r.store, pushId)
    ensures r.status == Created && pushId !in users ==> |r.store| == |users| + 1
  {
    if !Truthy(nama) || !Truthy(username) || !Truthy(password) then
      Response(BadRequest, map[], users)
    else
      var added := users[pushId := User(nama, username.value, password.value)];
      assert added.Keys == users.Keys + {pushId};
      Response(Created, map[], added)
  }

  /** PUT /users: resolve `nama` exactly, then update `username` and
      `password` of the first match. */
  ghost function Put(nama: Option<string>, newUsername: Option<string>, newPassword: Option<string>,
                     users: Store): (r: Response)
    ensures r.body == map[]
    ensures !(Truthy(nama) && Truthy(newUsername) && Truthy(newPassword)) ==>
      r.status == BadRequest && r.store == users
    ensures Truthy(nama) && Truthy(newUsername) && Truthy(newPassword) && Matching(users, nama.value) == {} ==>
      r.status == NotFound && r.store == users
    ensures Truthy(nama) && Truthy(newUsername) && Truthy(newPassword) && Matching(users, nama.value) != {} ==>
      var k := Resolve(users, nama.value);
      && r.status == Ok
      && r.store.Keys == users.Keys
      && r.store[k].nama == Some(nama.value)
      && r.store[k].username == newUsername.value
      && r.store[k].password == newPassword.value
      && AgreeExcept(users, r.store, k)
  {
    if !Truthy(nama) || !Truthy(newUsername) || !Truthy(newPassword) then
      Response(BadRequest, map[], users)
    else if Matching(users, nama.value) == {} then
      Response(NotFound, map[], users)
    else
      var k := Resolve(users, nama.value);
      Response(Ok, map[], users[k := users[k].(username := newUsername.value, password := newPassword.value)])
  }

  /** DELETE /users: resolve `nama` exactly, then remove the first match. */
  ghost function Delete(nama: Option<string>, users: Store): (r: Response)
    ensures r.body == map[]
    ensures !Truthy(nama) ==> r.status == BadRequest && r.store == users
    ensures Truthy(nama) && Matching(users, nama.value) == {} ==> r.status == NotFound && r.store == users
    ensures Truthy(nama) && Matching(users, nama.value) != {} ==>
      var k := Resolve(users, nama.value);
      && r.status == Ok
      && r.store.Keys == users.Keys - {k}
      && |r.store| == |users| - 1
      && AgreeExcept(users, r.store, k)
  {
    if !Truthy(nama) then
      Response(BadRequest, map[], users)
    else if Matching(users, nama.value) == {} then
      Response(NotFound, map[], users)
    else
      var k := Resolve(users, nama.value);
      Response(Ok, map[], users - {k})
  }

  /** The routing of one request, with `push()` choosing a fresh key. */
  ghost function Handle(req: Request, users: Store): (r: Response)
    ensures req.GetUsers? || r.status.Code() >= 400 ==> r.store == users
    ensures req.GetUsers? ==> r.status.Code() in {200, 404}
    ensures req.PostUser? ==> r.status.Code() in {201, 400}
    ensures req.PutUser? || req.DeleteUser? ==> r.status.Code() in {200, 400, 404}
    ensures r.status == Created ==> req.PostUser? && |r.store| == |users| + 1 && users.Keys < r.store.Keys
    ensures req.PutUser? ==> r.store.Keys == users.Keys
    ensures req.DeleteUser? && r.status == Ok ==> |r.store| == |users| - 1 && r.store.Keys < users.Keys
  {
    match req
    case GetUsers(query) => Get(query, users)
    case PostUser(nama, username, password) => Post(nama, username, password, FreshKey(users.Keys), users)
    case PutUser(nama, newUsername, newPassword) => Put(nama, newUsername, newPassword, users)
    case DeleteUser(nama) => Delete(nama, users)
  }
}
