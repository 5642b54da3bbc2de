# Users service: the `/users` handlers as pure functions

This project models the request-handling logic of a small Express service
that keeps user records in the Firebase Realtime Database under the node
`users`. Each child of `users` lives under a push ID (a key Firebase makes)
and holds `{nama, username, password}`. The four routes on `/users` are:

- **GET** returns every record. With a `nama` query it returns only the records
  whose `nama` equals the query ignoring case. It answers 404 when the node is
  empty or when nothing matches.
- **POST** needs `nama`, `username` and `password`. It pushes a new record
  under a new key.
- **PUT** needs `nama`, `newUsername` and `newPassword`. It looks up the
  records whose `nama` equals the given name exactly. It then replaces
  `username` and `password` on the first match only.
- **DELETE** needs `nama`. It looks up the records in the same exact way and
  removes the first match only.

The `users` node is modelled as an immutable `map<Key, User>`. Each handler
is a function from the request fields and the store to a `Response`. A
response holds the status, the records sent back and the store afterwards.

Modules:

- `Wrappers` (wrappers.dfy) holds `Option`, used for fields that may be
  missing.
- `Text` (text.dfy) holds JavaScript truthiness of optional string fields:
  an absent field and `""` are both falsy. It also holds the ASCII
  lower-casing used by the GET filter.
- `Users` (users.dfy) holds the record, the store, the GET filter
  (`Filtered`) and the exact-name query (`Matching`). It also holds the
  first-match choice (`Resolve`) and a fresh push ID (`FreshKey`).
- `Handlers` (handlers.dfy) holds the four handlers, the `forEach` filter loop
  of GET as a method, and the router `Handle`.
- `Properties` (properties.dfy) holds the properties that span several
  calls. These are PUT idempotence, first-match-wins on duplicate names, the
  case-sensitivity mismatch, and a full create/read/update/delete walk-through.

The key result is that matching is not the same across routes. GET lower-cases
both sides (index.js:28), while PUT and DELETE use the database's exact
`equalTo` (index.js:83, 121). `ExactMatchesAreFiltered` proves that every
record PUT or DELETE can reach is also found by GET. The converse fails.
`CaseMismatchAnyStore` proves this for every store. Take a record that
matches a query only ignoring case, when no record holds the query exactly.
GET with that query returns the record. DELETE with that query answers 404,
and so does PUT with non-empty new fields. `CaseMismatch` gives a concrete
case: a record named "Ana", with GET `?nama=ana` answering 200 and PUT and
DELETE with `"ana"` answering 404.

Which of several matching keys `Object.keys(snapshot.val())[0]` gives back is
up to the Firebase client library. `Users.First` stands for it as a
deterministic choice that depends only on the set of matching keys. No proof
relies on which key that is.

## Model

| member | source | states |
|---|---|---|
| `Handlers.CollectByName` | index.js:26-31 | The filter loop keeps exactly the records whose `nama` is truthy and equal to the query ignoring case, with their records unchanged. The result is the map `Filtered` that GET answers with. |
| `Handlers.Get` | index.js:18-42 | GET never changes the store. An empty node gives 404. Without a truthy query it gives 200 and the whole store. With one, the body is sound: every key is stored, with the same record, and its `nama` matches ignoring case. The body is also complete: every such record is in it. 200 means a non-empty body and 404 an empty one. |
| `Handlers.Post` | index.js:50-66 | Any missing or empty field gives 400 and an unchanged store. Otherwise the result is 201, and the push ID holds exactly the three given fields. Every other entry is unchanged, the domain gains only the push ID, and the size grows by one when the push ID was fresh. |
| `Handlers.Put` | index.js:74-103 | Any missing field gives 400 and an unchanged store. No exact `nama` match gives 404 and an unchanged store. Otherwise the result is 200. The resolved key has exactly the requested `nama`; it keeps that `nama` and gets the new username and password. The domain is unchanged and every other key, including other records with the same name, is untouched. |
| `Handlers.Delete` | index.js:112-138 | A missing `nama` gives 400 and an unchanged store. No exact match gives 404 and an unchanged store. Otherwise the result is 200, and exactly the resolved key is removed. That key has exactly the requested `nama`, the size drops by one, and every other entry is unchanged. |
| `Handlers.Handle` | index.js:18-144 | GET never changes the store, and no 4xx reply changes it. GET answers only 200 or 404, POST only 201 or 400, and PUT and DELETE only 200, 400 or 404. A 201 comes only from POST and adds exactly one new key. PUT never changes the domain. A successful DELETE shrinks the domain by one key. |
| `Users.Resolve` | index.js:83-87 | The key PUT and DELETE act on is stored and has exactly the requested `nama`. |
| `Users.First` | index.js:87 | The first key of a non-empty match set belongs to that set. It depends on the set alone. |
| `Users.FreshKey` | index.js:59 | A push ID that no existing child uses can always be found. |
| `Text.SameIgnoringCaseAt` | index.js:28 | Two strings are equal after `toLowerCase` exactly when they have the same length and agree at every position, up to the case of an ASCII letter. This holds in both directions. |
| `Users.NameLike` | index.js:28 | The GET filter's test on one record. It holds only when the record's `nama` is present, non-empty and as long as the query. A record whose `nama` is exactly a non-empty query always passes. |
| `Users.Filtered` | index.js:26-31 | The filtered map holds only stored keys, with their records unchanged, that pass the filter test. Every stored record that passes the test is in it. |
| `Users.Matching` | index.js:83 | `orderByChild('nama').equalTo(nama)`: the returned keys are stored keys whose `nama` is present and exactly the given string, case included. A record with no `nama` never matches, and every exact match is returned. The same query is used at index.js:121. |
| `Properties.FilterIgnoresQueryCase` | index.js:28 | Two queries equal ignoring case select the same records. |
| `Properties.PutKeepsMatches` | index.js:90-93 | PUT never changes which keys an exact-name query returns, because it only writes `username` and `password`. |
| `Properties.PutIdempotent` | index.js:74-103 | Repeating a PUT gives the same status and the same store as doing it once. |
| `Properties.PutTouchesOneOfDuplicates` | index.js:83-93 | When two records share the requested `nama`, a PUT leaves at least one of them exactly as it was. |
| `Properties.ExactMatchesAreFiltered` | index.js:83 | Every exact `nama` match is also in the GET filter's result. When PUT or DELETE would find a record, GET with the same name answers 200 and includes it. |
| `Properties.CaseMismatch` | index.js:28 | For a record named "Ana", GET `?nama=ana` answers 200 while PUT and DELETE with `nama` "ana" answer 404. |
| `Properties.CaseMismatchAnyStore` | index.js:28-121 | Take any store with a record that passes GET's filter for a query, while no record holds the query exactly. GET with that query answers 200, and PUT (with valid new fields) and DELETE with it answer 404. |
| `Properties.OnlyNewRecordMatchesAfterPost` | index.js:59-63 | After POSTing a name that no record had exactly, the new record is the only exact match for it. |
| `Properties.PostThenDeleteRestores` | index.js:121-130 | Take a POST of a name no record had exactly, under a fresh push ID. A DELETE of that name then answers 200 and restores the store. |
| `Properties.PostThenGetFindsOnlyNew` | index.js:25-36 | After a POST, a GET filter that matched nothing before answers 200 with exactly the new record, provided it equals the new name ignoring case. |
| `Properties.PutAfterPost` | index.js:87-93 | Take a PUT of the exact name just POSTed, where no other record had that name. It answers 200 and leaves the store the POST would have made with the new username and password. |
| `Properties.PutThenGetSeesPatch` | index.js:90-95 | Suppose exactly one record matches a name ignoring case. A PUT on its exact name patches it, and a GET then answers 200 with that patched record alone. |
| `Properties.AtMostOneEntryChanges` | index.js:18-144 | Whatever the request, every key but at most one keeps both its presence and its record. |
| `Properties.Walkthrough` | index.js:18-144 | Start from a store with no record named "ana" in any case. POST "Ana" gives 201. GET `?nama=ana` gives 200 with only the new record. PUT gives 200, and GET `?nama=Ana` then shows the new username and password. DELETE gives 200 and restores the original store, and a final GET gives 404. |

## Left out

- Express setup, JSON body parsing, `app.listen` and the message strings (index.js:1-4, 15, 147-149). These are transport. Responses carry only a status and the records returned.
- Firebase Admin initialisation, the credential file and the database URL (index.js:7-13). These are configuration and I/O.
- The 500 replies when a database call is rejected (index.js:43-46, 67-70, 97-100, 105-108, 132-135, 140-143). They depend on the network. After a failed write the remote state is unknown, so the model makes no claim about it.
- Asynchrony and the gap between the `equalTo` query and the later `update` or `remove` (index.js:83-90, 121-128). Each handler runs as one atomic step on one store, so lost updates under concurrent requests are not modelled.
- Push ID generation (index.js:59). `Handlers.Post` takes the push ID as a parameter, and the store is written at that key as `push()` writes it. `Handle` passes `Users.FreshKey`, a key longer than every existing key, in place of Firebase's time-based IDs.
- `Users.First`: it does not say which matching key comes first. The order of `Object.keys` on the query snapshot is defined by the Firebase client library.
- `Text.Lower`: lower-casing covers ASCII letters only. JavaScript's `toLowerCase` also maps non-ASCII letters, and its special cases such as the final sigma are not modelled.
- `Users.NameLike`: the clause that a matching `nama` is as long as the query holds only for ASCII lower-casing. JavaScript's `toLowerCase` can change a string's length, for example `"İ"` becomes two UTF-16 code units. The same applies to the length clause of `Text.SameIgnoringCaseAt`.
- Fields are modelled as optional strings. JavaScript truthiness of non-string values (numbers, booleans, arrays in a query string) is not modelled, and neither is the exception `toLowerCase` throws on them.
- Records without `username` or `password` are not modelled. Only `nama` may be absent from a stored record.
