/** Properties that relate several handler calls: idempotence of PUT, the
    first-match-wins policy on duplicate names, the case-sensitivity mismatch
    between GET and PUT/DELETE, and the create/read/update/delete walk-through. */
module Properties {
  import opened Wrappers
  import opened Text
  import opened Users
  import opened Handlers

  /** PUT leaves every record's `nama` alone, so it never changes which keys
      an exact-name query returns. */
  lemma PutKeepsMatches(nama: Option<string>, newUsername: Option<string>,
                          newPassword: Option<string>, users: Store, name: string)
    ensures Matching(Put(nama, newUsername, newPassword, users).store, name) == Matching(users, name)
  {
  }

  /** Sending the same PUT twice gives the same status and the same store as
      sending it once. */
  lemma PutIdempotent(nama: Option<string>, newUsername: Option<string>, newPassword: Option<string>,
                      users: Store)
    ensures var once := Put(nama, newUsername, newPassword, users);
            var twice := Put(nama, newUsername, newPassword, once.store);
            twice.status == once.status && twice.store == once.store
  {
    var once := Put(nama, newUsername, newPassword, users);
    if Truthy(nama) && Truthy(newUsername) && Truthy(newPassword) {
      PutKeepsMatches(nama, newUsername, newPassword, users, nama.value);
      if Matching(users, nama.value) != {} {
        var k := Resolve(users, nama.value);
        assert Resolve(once.store, nama.value) == k;
      }
    }
  }

  /** First match wins: when two records share the requested `nama`, a PUT
      leaves at least one of them exactly as it was. */
  lemma PutTouchesOneOfDuplicates(nama: Option<string>, newUsername: Option<string>,
                                  newPassword: Option<string>, users: Store, a: Key, b: Key)
    requires a in users && b in users && a != b
    requires Truthy(nama) && users[a].nama == nama && users[b].nama == nama
    ensures var r := Put(nama, newUsername, newPassword, users);
            a in r.store && b in r.store && (r.store[a] == users[a] || r.store[b] == users[b])
  {
  }

  /** Every key an exact-name query can resolve is also returned by the
      case-insensitive GET filter for the same name; so when PUT or DELETE
      finds a record, GET with the same `nama` answers 200 and includes it. */
  lemma ExactMatchesAreFiltered(users: Store, name: string)
    requires name != ""
    ensures Matching(users, name) <= Filtered(users, name).Keys
    ensures Matching(users, name) != {} ==>
      var r := Get(Some(name), users);
      r.status == Ok && Matching(users, name) <= r.body.Keys
  {
  }

  /** The converse fails: a record stored with `nama` "Ana" is found by
      GET ?nama=ana, while PUT and DELETE with `nama` "ana" answer 404. */
  lemma CaseMismatch()
    ensures var users := map["-k1" := User(Some("Ana"), "ana1", "p1")];
            && Get(Some("ana"), users).status == Ok
            && Put(Some("ana"), Some("ana2"), Some("p2"), users).status == NotFound
            && Delete(Some("ana"), users).status == NotFound
  {
    var users := map["-k1" := User(Some("Ana"), "ana1", "p1")];
    AnaIgnoringCase();
    assert NameLike(users["-k1"], "ana");
    assert "-k1" in Filtered(users, "ana");
    assert Matching(users, "ana") == {};
  }

  /** After a POST of a name no record had exactly, the new record is the
      only exact match for that name. */
  lemma OnlyNewRecordMatchesAfterPost(nama: Option<string>, username: Option<string>, password: Option<string>,
                                      pushId: Key, users: Store)
    requires Truthy(nama) && Truthy(username) && Truthy(password)
    requires Matching(users, nama.value) == {}
    ensures Matching(Post(nama, username, password, pushId, users).store, nama.value) == {pushId}
  {
  }

  /** The same mismatch on any store: whenever a record matches a query only
      ignoring case and no record holds the query exactly, GET with that
      query answers 200 while PUT and DELETE with it answer 404. */
  lemma CaseMismatchAnyStore(users: Store, key: Key, query: string,
                             newUsername: Option<string>, newPassword: Option<string>)
    requires query != ""
    requires key in users && NameLike(users[key], query)
    requires Matching(users, query) == {}
    ensures Get(Some(query), users).status == Ok
    ensures Truthy(newUsername) && Truthy(newPassword) ==>
      Put(Some(query), newUsername, newPassword, users).status == NotFound
    ensures Delete(Some(query), users).status == NotFound
  {
  }

  /** DELETE with the name of a record just created by POST removes exactly
      that record, provided no other record had that exact name: the store
      returns to what it was before the POST. */
  lemma PostThenDeleteRestores(nama: Option<string>, username: Option<string>, password: Option<string>,
                               pushId: Key, users: Store)
    requires Truthy(nama) && Truthy(username) && Truthy(password)
    requires pushId !in users
    requires Matching(users, nama.value) == {}
    ensures var created := Post(nama, username, password, pushId, users);
            var deleted := Delete(nama, created.store);
            deleted.status == Ok && deleted.store == users
  {
  }

  /** Whatever the request, at most one entry of the store changes: every key
      but one keeps its presence and its record. */
  lemma AtMostOneEntryChanges(req: Request, users: Store)
    ensures exists k :: AgreeExcept(users, Handle(req, users).store, k)
  {
    var r := Handle(req, users);
    match req
    case GetUsers(query) =>
      assert AgreeExcept(users, r.store, "");
    case PostUser(nama, username, password) =>
      var pushId := FreshKey(users.Keys);
      assert AgreeExcept(users, r.store, pushId);
    case PutUser(nama, newUsername, newPassword) =>
      if Truthy(nama) && Truthy(newUsername) && Truthy(newPassword) && Matching(users, nama.value) != {} {
        assert AgreeExcept(users, r.store, Resolve(users, nama.value));
      } else {
        assert AgreeExcept(users, r.store, "");
      }
    case DeleteUser(nama) =>
      if Truthy(nama) && Matching(users, nama.value) != {} {
        assert AgreeExcept(users, r.store, Resolve(users, nama.value));
      } else {
        assert AgreeExcept(users, r.store, "");
      }
  }

  /** A GET whose filter matches no record, after a POST of a name equal to
      the filter ignoring case, answers with exactly the new record. */
  lemma PostThenGetFindsOnlyNew(nama: Option<string>, username: Option<string>, password: Option<string>,
                                pushId: Key, users: Store, query: string)
    requires Truthy(nama) && Truthy(username) && Truthy(password)
    requires query != "" && SameIgnoringCase(nama.value, query)
    requires Filtered(users, query) == map[]
    ensures var created := Post(nama, username, password, pushId, users);
            var r := Get(Some(query), created.store);
            r.status == Ok && r.body == map[pushId := User(nama, username.value, password.value)]
  {
  }

  /** When a name is held, ignoring case, by exactly one record, a PUT on its
      exact name patches that record, and a GET on the name then answers with
      the patched record alone. */
  lemma PutThenGetSeesPatch(nama: Option<string>, newUsername: Option<string>, newPassword: Option<string>,
                            users: Store, key: Key, query: string)
    requires Truthy(nama) && Truthy(newUsername) && Truthy(newPassword)
    requires query != "" && SameIgnoringCase(nama.value, query)
    requires key in users && users[key].nama == nama
    requires Filtered(users, query).Keys == {key}
    ensures var patched := Put(nama, newUsername, newPassword, users);
            var r := Get(Some(query), patched.store);
            && patched.status == Ok
            && r.status == Ok
            && r.body == map[key := User(nama, newUsername.value, newPassword.value)]
  {
  }

  /** "Ana" and "ana" are the same name ignoring case. */
  lemma AnaIgnoringCase()
    ensures Lower("Ana") == "ana" && Lower("ana") == "ana"
    ensures SameIgnoringCase("Ana", "ana")
  {
  }

  /** The GET filter sees the query only through its lower-cased form. */
  lemma FilterIgnoresQueryCase(users: Store, a: string, b: string)
    requires SameIgnoringCase(a, b)
    ensures Filtered(users, a) == Filtered(users, b)
  {
  }

  /** A PUT on the exact name of a record just created, when no other record
      had that exact name, gives the store the POST would have given with the
      new username and password. */
  lemma PutAfterPost(nama: Option<string>, username: Option<string>, password: Option<string>,
                     newUsername: Option<string>, newPassword: Option<string>, pushId: Key, users: Store)
    requires Truthy(nama) && Truthy(username) && Truthy(password)
    requires Truthy(newUsername) && Truthy(newPassword)
    requires Matching(users, nama.value) == {}
    ensures var created := Post(nama, username, password, pushId, users);
            var patched := Put(nama, newUsername, newPassword, created.store);
            && patched.status == Ok
            && patched.store == Post(nama, newUsername, newPassword, pushId, users).store
  {
  }

  /** The first half of the walk-through: POST "Ana", then GET `?nama=ana`. */
  lemma WalkthroughCreate(users: Store)
    requires Filtered(users, "ana") == map[]
    ensures var id := FreshKey(users.Keys);
            var created := Post(Some("Ana"), Some("ana1"), Some("p1"), id, users).store;
            && Handle(PostUser(Some("Ana"), Some("ana1"), Some("p1")), users) == Response(Created, map[], created)
            && Handle(GetUsers(Some("ana")), created) == Response(Ok, map[id := User(Some("Ana"), "ana1", "p1")], created)
  {
    AnaIgnoringCase();
    PostThenGetFindsOnlyNew(Some("Ana"), Some("ana1"), Some("p1"), FreshKey(users.Keys), users, "ana");
  }

  /** The middle of the walk-through: PUT "Ana", then GET `?nama=Ana`. */
  lemma WalkthroughUpdate(users: Store)
    requires Filtered(users, "ana") == map[] && Matching(users, "Ana") == {}
    ensures var id := FreshKey(users.Keys);
            var created := Post(Some("Ana"), Some("ana1"), Some("p1"), id, users).store;
            var patched := Post(Some("Ana"), Some("ana2"), Some("p2"), id, users).store;
            && Handle(PutUser(Some("Ana"), Some("ana2"), Some("p2")), created) == Response(Ok, map[], patched)
            && Handle(GetUsers(Some("Ana")), patched) == Response(Ok, map[id := User(Some("Ana"), "ana2", "p2")], patched)
  {
    var id := FreshKey(users.Keys);
    AnaIgnoringCase();
    FilterIgnoresQueryCase(users, "Ana", "ana");
    PutAfterPost(Some("Ana"), Some("ana1"), Some("p1"), Some("ana2"), Some("p2"), id, users);
    PostThenGetFindsOnlyNew(Some("Ana"), Some("ana2"), Some("p2"), id, users, "Ana");
  }

  /** The end of the walk-through: DELETE "Ana", then GET `?nama=Ana`. */
  lemma WalkthroughDelete(users: Store)
    requires Filtered(users, "ana") == map[] && Matching(users, "Ana") == {}
    ensures var id := FreshKey(users.Keys);
            var patched := Post(Some("Ana"), Some("ana2"), Some("p2"), id, users).store;
            && Handle(DeleteUser(Some("Ana")), patched) == Response(Ok, map[], users)
            && Handle(GetUsers(Some("Ana")), users).status == NotFound
  {
    AnaIgnoringCase();
    FilterIgnoresQueryCase(users, "Ana", "ana");
    PostThenDeleteRestores(Some("Ana"), Some("ana2"), Some("p2"), FreshKey(users.Keys), users);
  }

  /** The walk-through of creating, reading, updating and deleting "Ana",
      starting from any store that holds no record named "ana" in any case:
      each step answers as documented and the store ends where it began. */
  lemma Walkthrough(users: Store)
    requires Filtered(users, "ana") == map[]
    ensures var id := FreshKey(users.Keys);
            var r1 := Handle(PostUser(Some("Ana"), Some("ana1"), Some("p1")), users);
            var r2 := Handle(GetUsers(Some("ana")), r1.store);
            var r3 := Handle(PutUser(Some("Ana"), Some("ana2"), Some("p2")), r2.store);
            var r4 := Handle(GetUsers(Some("Ana")), r3.store);
            var r5 := Handle(DeleteUser(Some("Ana")), r4.store);
            var r6 := Handle(GetUsers(Some("Ana")), r5.store);
            && r1.status == Created
            && r2.status == Ok && r2.body == map[id := User(Some("Ana"), "ana1", "p1")]
            && r3.status == Ok
            && r4.status == Ok && r4.body == map[id := User(Some("Ana"), "ana2", "p2")]
            && r5.status == Ok && r5.store == users
            && r6.status == NotFound
  {
    assert Matching(users, "Ana") == {} by {
      AnaIgnoringCase();
      FilterIgnoresQueryCase(users, "Ana", "ana");
      ExactMatchesAreFiltered(users, "Ana");
    }
    WalkthroughCreate(users);
    WalkthroughUpdate(users);
    WalkthroughDelete(users);
  }
}
