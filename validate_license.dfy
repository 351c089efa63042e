/** The machine-to-machine endpoint of app/routes/api.validate-license.ts:
    authenticate the caller's API key, read `licenseKey` from the JSON body,
    and classify the key by its row in `license_keys` joined to its owner.
    The action only reads the store, so it is a function of it. */
module ValidateLicense {
  import opened Records
  import opened Tables

  /** The `licenseKey` property of the parsed body. */
  datatype JsonValue = Undefined | JsonString(s: string) | NonString

  /** What `request.json()` yields: a parse failure, `null`, an object, or
      another JSON value (whose `licenseKey` property is undefined). */
  datatype Body = Unparsable | JsonNull | JsonObject(licenseKey: JsonValue) | OtherJson

  /** The JSON reply `{ valid, username?, email?, error? }` and its status. */
  datatype Reply = Reply(status: int, valid: bool, username: Option<string>, email: Option<string>, error: Option<string>)

  const MissingApiKey := "Missing API Key"
  const InvalidApiKey := "Invalid API Key"
  const InvalidJsonBody := "Invalid JSON body"
  const InvalidLicenseKeyField := "Missing or invalid licenseKey in request body"
  const LicenseInactive := "License key is inactive"
  const LicenseNotFound := "License key not found"
  const ValidationFailed := "Internal server error during validation"

  function Refusal(status: int, error: string): Reply {
    Reply(status, false, None, None, Some(error))
  }

  /** `!apiKeyHeader` is false: the header is present and not empty. */
  predicate HasApiKeyHeader(header: Option<string>) {
    header.Some? && header.value != ""
  }

  /** `SELECT id FROM api_keys WHERE apiKey = ? AND isActive = TRUE` finds a row. */
  predicate ApiKeyAccepted(apiKeys: seq<ApiKey>, key: string) {
    exists i :: 0 <= i < |apiKeys| && apiKeys[i].apiKey == key && apiKeys[i].isActive
  }

  /** The caller got past the API-key check. */
  predicate Authenticated(store: Store, header: Option<string>, storeFails: bool)
    reads store
  {
    HasApiKeyHeader(header) && !storeFails && ApiKeyAccepted(store.apiKeys, header.value)
  }

  /** The key to look up, when the body holds a non-empty string under
      `licenseKey`. */
  function RequestedKey(body: Body): Option<string> {
    if body.JsonObject? && body.licenseKey.JsonString? && body.licenseKey.s != "" then Some(body.licenseKey.s)
    else None
  }

  /** Row `i` of `license_keys` has the key and row `j` of `users` owns it. */
  predicate Joins(licenseKeys: seq<LicenseKey>, users: seq<User>, key: string, i: int, j: int) {
    0 <= i < |licenseKeys| && 0 <= j < |users| && licenseKeys[i].licenseKey == key && users[j].id == licenseKeys[i].userId
  }

  /** The first user row with the given id. */
  function FindOwner(users: seq<User>, id: int): (r: Option<nat>)
    ensures r.Some? ==> r.value < |users| && users[r.value].id == id
    ensures r.Some? ==> forall j :: 0 <= j < r.value ==> users[j].id != id
    ensures r.None? <==> forall j :: 0 <= j < |users| ==> users[j].id != id
  {
    FindFirst(users, (u: User) => u.id == id)
  }

  /** `SELECT ... FROM license_keys lk JOIN users u ON lk.userId = u.id
      WHERE lk.licenseKey = ?`, `.get`, scanning license rows from `from`:
      the first joined pair. A license row whose owner is missing yields no
      row of the inner join. */
  function FindLicense(licenseKeys: seq<LicenseKey>, users: seq<User>, key: string, from: nat): (r: Option<(nat, nat)>)
    requires from <= |licenseKeys|
    decreases |licenseKeys| - from
    ensures r.Some? ==> from <= r.value.0 && Joins(licenseKeys, users, key, r.value.0, r.value.1)
    ensures r.None? <==> forall i, j :: from <= i ==> !Joins(licenseKeys, users, key, i, j)
  {
    if from == |licenseKeys| then None
    else if licenseKeys[from].licenseKey == key && FindOwner(users, licenseKeys[from].userId).Some? then
      var j := FindOwner(users, licenseKeys[from].userId).value;
      assert Joins(licenseKeys, users, key, from, j);
      Some((from, j))
    else
      FindLicense(licenseKeys, users, key, from + 1)
  }

  /** The action. Status 200 with `valid: true` only for an existing, owned,
      active license after a good API key and body; the store is only read. */
  function Action(store: Store, apiKeyHeader: Option<string>, body: Body, storeFails: bool): (r: Reply)
    reads store
    ensures r.valid <==> r.status == OK
    ensures r.status in {OK, BadRequest, Unauthorized, Forbidden, NotFound, InternalServerError}
    ensures !HasApiKeyHeader(apiKeyHeader) ==> r == Refusal(Unauthorized, MissingApiKey)
    ensures r.status == Unauthorized <==>
              !HasApiKeyHeader(apiKeyHeader) || (!storeFails && !ApiKeyAccepted(store.apiKeys, apiKeyHeader.value))
    ensures r.status == InternalServerError <==>
              HasApiKeyHeader(apiKeyHeader) && (storeFails || (Authenticated(store, apiKeyHeader, storeFails) && body == JsonNull))
    ensures r.status == BadRequest <==>
              Authenticated(store, apiKeyHeader, storeFails) && body != JsonNull && RequestedKey(body).None?
    ensures r.status == NotFound <==>
              Authenticated(store, apiKeyHeader, storeFails) && RequestedKey(body).Some? &&
              forall i, j :: !Joins(store.licenseKeys, store.users, RequestedKey(body).value, i, j)
    ensures r.status == OK ==>
              Authenticated(store, apiKeyHeader, storeFails) && RequestedKey(body).Some? &&
              exists i, j :: Joins(store.licenseKeys, store.users, RequestedKey(body).value, i, j) &&
                store.licenseKeys[i].isActive &&
                r.username == Some(store.users[j].username) && r.email == Some(store.users[j].email)
    ensures HasApiKeyHeader(apiKeyHeader) && storeFails ==> r == Refusal(InternalServerError, ValidationFailed)
    ensures HasApiKeyHeader(apiKeyHeader) && !storeFails && !ApiKeyAccepted(store.apiKeys, apiKeyHeader.value) ==>
              r == Refusal(Unauthorized, InvalidApiKey)
    ensures Authenticated(store, apiKeyHeader, storeFails) && body == Unparsable ==> r == Refusal(BadRequest, InvalidJsonBody)
    ensures Authenticated(store, apiKeyHeader, storeFails) && body == JsonNull ==> r == Refusal(InternalServerError, ValidationFailed)
    ensures Authenticated(store, apiKeyHeader, storeFails) && body != Unparsable && body != JsonNull && RequestedKey(body).None? ==>
              r == Refusal(BadRequest, InvalidLicenseKeyField)
    ensures r.status == NotFound ==> r == Refusal(NotFound, LicenseNotFound)
    ensures r.status == Forbidden ==> r == Refusal(Forbidden, LicenseInactive)
    ensures r.status == OK ==> r.error == None
    ensures r.status == Forbidden ==>
              Authenticated(store, apiKeyHeader, storeFails) && RequestedKey(body).Some? &&
              exists i, j :: Joins(store.licenseKeys, store.users, RequestedKey(body).value, i, j) &&
                !store.licenseKeys[i].isActive
  {
    if !HasApiKeyHeader(apiKeyHeader) then Refusal(Unauthorized, MissingApiKey)
    else if storeFails then Refusal(InternalServerError, ValidationFailed)
    else if !ApiKeyAccepted(store.apiKeys, apiKeyHeader.value) then Refusal(Unauthorized, InvalidApiKey)
    else if body == Unparsable then Refusal(BadRequest, InvalidJsonBody)
    else if body == JsonNull then
      // destructuring `null` throws, and the outer handler answers
      Refusal(InternalServerError, ValidationFailed)
    else if RequestedKey(body).None? then Refusal(BadRequest, InvalidLicenseKeyField)
    else
      match FindLicense(store.licenseKeys, store.users, RequestedKey(body).value, 0)
      case Some((i, j)) =>
        if store.licenseKeys[i].isActive then
          Reply(OK, true, Some(store.users[j].username), Some(store.users[j].email), None)
        else Refusal(Forbidden, LicenseInactive)
      case None => Refusal(NotFound, LicenseNotFound)
  }

  /** With unique ids, the owner lookup finds the one row with the id. */
  lemma FindOwnerUnique(users: seq<User>, j: nat)
    requires UsersWellFormed(users) && j < |users|
    ensures FindOwner(users, users[j].id) == Some(j)
  {
  }

  /** With the UNIQUE constraints, the join finds exactly the license row
      that has the key, paired with its owner. */
  lemma FindLicenseUnique(licenseKeys: seq<LicenseKey>, users: seq<User>, key: string, from: nat, i: nat, j: nat)
    requires LicenseKeysUnique(licenseKeys) && UsersWellFormed(users)
    requires from <= i && Joins(licenseKeys, users, key, i, j)
    ensures FindLicense(licenseKeys, users, key, from) == Some((i, j))
  {
  }

  /** In a well-formed store, once the API key and body pass, an owned
      license key is accepted exactly when its row is active, and the reply
      names its owner; otherwise it is refused with 403. */
  lemma ActiveLicenseAccepted(store: Store, header: Option<string>, body: Body, i: nat, j: nat)
    requires store.Valid()
    requires Authenticated(store, header, false) && RequestedKey(body).Some?
    requires Joins(store.licenseKeys, store.users, RequestedKey(body).value, i, j)
    ensures store.licenseKeys[i].isActive ==>
              Action(store, header, body, false) == Reply(OK, true, Some(store.users[j].username), Some(store.users[j].email), None)
    ensures !store.licenseKeys[i].isActive ==>
              Action(store, header, body, false) == Refusal(Forbidden, LicenseInactive)
  {
  }
}
