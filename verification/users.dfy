/** The Firebase `users` node: a finite map from push ID to user record, with
    the two ways the handlers find records by `nama`. */
module Users {
  import opened Wrappers
  import opened Text

  /** A Firebase child key (a push ID). */
  type Key = string

  /** One child of `users`. `nama` may be missing on records that were not
      written by POST; `username` and `password` are what PUT replaces. */
  datatype User = User(nama: Option<string>, username: string, password: string)

  /** The whole `users` node; an empty map is a node that does not exist. */
  type Store = map<Key, User>

  /** The GET filter's test on one record: its `nama` is truthy and equal to
      the query once both are lower-cased. */
  predicate NameLike(u: User, query: string)
    ensures NameLike(u, query) ==> u.nama.Some? && u.nama.value != "" && |u.nama.value| == |query|
    ensures query != "" && u.nama == Some(query) ==> NameLike(u, query)
  {
    Truthy(u.nama) && SameIgnoringCase(u.nama.value, query)
  }

  /** The sub-map GET answers with when a `nama` query is given. */
  function Filtered(users: Store, query: string): (found: Store)
    ensures found.Keys <= users.Keys
    ensures forall k :: k in found ==> found[k] == users[k] && NameLike(users[k], query)
    ensures forall k :: k in users && NameLike(users[k], query) ==> k in found
  {
    map k | k in users && NameLike(users[k], query) :: users[k]
  }

  /** The keys `orderByChild('nama').equalTo(nama)` returns: records whose
      `nama` is exactly the given string, case included. */
  function Matching(users: Store, nama: string): (keys: set<Key>)
    ensures keys <= users.Keys
    ensures forall k :: k in keys ==> users[k].nama.Some? && users[k].nama.value == nama
    ensures forall k :: k in users && users[k].nama.None? ==> k !in keys
    ensures forall k :: k in users && users[k].nama == Some(nama) ==> k in keys
  {
    set k | k in users && users[k].nama == Some(nama)
  }

  /** The key PUT and DELETE act on: the first key of the query snapshot. Which
      of the matches comes first is up to the Firebase client library, so the
      model fixes one deterministic but unspecified choice. */
  ghost function Resolve(users: Store, nama: string): (k: Key)
    requires Matching(users, nama) != {}
    ensures k in users && users[k].nama == Some(nama)
    ensures k in Matching(users, nama)
  {
    First(Matching(users, nama))
  }

  /** One element of a non-empty key set, chosen as a function of the set
      alone: the same matches always yield the same key. */
  ghost function First(keys: set<Key>): (k: Key)
    requires keys != {}
    ensures k in keys
  {
    var k :| k in keys; k
  }

  /** `a` and `b` hold the same entries everywhere except possibly at `k`. */
  ghost predicate AgreeExcept(a: Store, b: Store, k: Key) {
    forall j :: j != k ==> (j in a <==> j in b) && (j in a ==> a[j] == b[j])
  }

  /** A length no key in `keys` exceeds. */
  ghost function MaxKeyLength(keys: set<Key>): (n: nat)
    ensures forall k :: k in keys ==> |k| <= n
    decreases keys
  {
    if keys == {} then 0
    else
      var k :| k in keys;
      var rest := MaxKeyLength(keys - {k});
      if |k| <= rest then rest else |k|
  }

  /** A push ID that no existing child uses: Firebase generates one per push;
      the model takes a string longer than every existing key. */
  ghost function FreshKey(keys: set<Key>): (k: Key)
    ensures k !in keys
  {
    seq(MaxKeyLength(keys) + 1, _ => '-')
  }
}
