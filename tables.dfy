/** The credential store: the three tables as sequences of rows, in the
    order the store returns them, and the single-row lookups the routes run
    against them. A `.get` that several rows satisfy yields the first of them
    in table order. */
module Tables {
  import opened Records

  /** The UNIQUE constraints on `users`, and the positive ids the store
      assigns. */
  predicate UsersWellFormed(users: seq<User>) {
    && (forall i :: 0 <= i < |users| ==> users[i].id > 0)
    && (forall i, j :: 0 <= i < j < |users| ==>
          && users[i].id != users[j].id
          && users[i].email != users[j].email
          && users[i].username != users[j].username)
  }

  predicate LicenseKeysUnique(keys: seq<LicenseKey>) {
    forall i, j :: 0 <= i < j < |keys| ==> keys[i].licenseKey != keys[j].licenseKey
  }

  predicate ApiKeysUnique(keys: seq<ApiKey>) {
    forall i, j :: 0 <= i < j < |keys| ==> keys[i].apiKey != keys[j].apiKey
  }

  class Store {
    var users: seq<User>
    var licenseKeys: seq<LicenseKey>
    var apiKeys: seq<ApiKey>

    ghost predicate Valid()
      reads this
    {
      UsersWellFormed(users) && LicenseKeysUnique(licenseKeys) && ApiKeysUnique(apiKeys)
    }
  }

  predicate MatchesEmailOrUsername(u: User, email: string, username: string) {
    u.email == email || u.username == username
  }

  /** `.get` on `users`: the index of the first row, in table order, that
      the WHERE clause `matches` accepts. */
  function FindFirst(users: seq<User>, matches: User -> bool): (r: Option<nat>)
    ensures r.Some? ==> r.value < |users| && matches(users[r.value])
    ensures r.Some? ==> forall j :: 0 <= j < r.value ==> !matches(users[j])
    ensures r.None? <==> forall j :: 0 <= j < |users| ==> !matches(users[j])
  {
    if |users| == 0 then None
    else if matches(users[0]) then Some(0)
    else
      match FindFirst(users[1..], matches)
      case None => None
      case Some(k) => Some(k + 1)
  }

  /** `SELECT ... FROM users WHERE email = ? OR username = ?`, `.get`: the
      index of the first matching row. */
  function FindByEmailOrUsername(users: seq<User>, email: string, username: string): (r: Option<nat>)
    ensures r.Some? ==> r.value < |users| && MatchesEmailOrUsername(users[r.value], email, username)
    ensures r.Some? ==> forall j :: 0 <= j < r.value ==> !MatchesEmailOrUsername(users[j], email, username)
    ensures r.None? <==> forall j :: 0 <= j < |users| ==> !MatchesEmailOrUsername(users[j], email, username)
  {
    FindFirst(users, (u: User) => MatchesEmailOrUsername(u, email, username))
  }

  /** `SELECT id FROM users WHERE email = ?`, `.get`: the index of the first
      row with that email. */
  function FindByEmail(users: seq<User>, email: string): (r: Option<nat>)
    ensures r.Some? ==> r.value < |users| && users[r.value].email == email
    ensures r.Some? ==> forall j :: 0 <= j < r.value ==> users[j].email != email
    ensures r.None? <==> forall j :: 0 <= j < |users| ==> users[j].email != email
  {
    FindFirst(users, (u: User) => u.email == email)
  }

  /** The largest id in a non-empty table. */
  function LargestId(users: seq<User>): (m: int)
    requires |users| > 0
    ensures forall i :: 0 <= i < |users| ==> users[i].id <= m
    ensures exists i :: 0 <= i < |users| && users[i].id == m
  {
    if |users| == 1 then users[0].id
    else
      var rest := LargestId(users[1..]);
      if users[0].id >= rest then users[0].id else rest
  }

  /** The id SQLite gives a row inserted without one: one more than the
      largest id in the table, 1 for an empty table. It is fresh, and
      positive whenever the ids already are. */
  function NextUserId(users: seq<User>): (id: int)
    ensures forall i :: 0 <= i < |users| ==> users[i].id < id
    ensures UsersWellFormed(users) ==> id > 0
  {
    if |users| == 0 then 1 else LargestId(users) + 1
  }
}
