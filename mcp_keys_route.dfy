/** The key owner's route (`src/app/api/mcp/keys/me/route.ts`): reading one's
    own key, and creating it. A user holds at most one key; the plaintext is
    returned once and only its hash is stored. Date parsing, the random part of
    the key and SHA-256 are parameters. */
module McpKeysRoute {
  import opened Wrappers
  import opened JsText
  import opened McpAuth
  import Legacy

  const DefaultKeyName: string := "Personal MCP Key"
  const KeyMarker: string := "tbk_"

  /** The request body: `null` when it is not JSON. */
  datatype KeyRequest = KeyRequest(name: Option<string>, expiresAt: Option<string>)

  datatype Response =
    | Unauthorized
    | InvalidExpiry      // 400 `Invalid expires_at format`
    | ExpiryNotFuture    // 400 `expires_at must be in the future`
    | AlreadyHasKey      // 409
    | MultipleRows       // 500: `maybeSingle` finds more than one row of the user
    | StoreFailure(error: Legacy.StoreError)
    | KeyOf(key: Option<ApiKey>)
    | Created(row: ApiKey, plaintextKey: string)

  /** One key per user. */
  predicate OneKeyPerUser(keys: seq<ApiKey>)
  {
    forall i, j :: 0 <= i < j < |keys| ==> keys[i].userId != keys[j].userId
  }

  /** The rows of one user. */
  function KeysOf(keys: seq<ApiKey>, userId: string): (r: seq<ApiKey>)
    ensures forall k :: k in r <==> k in keys && k.userId == userId
    ensures (forall k :: k in keys ==> k.userId != userId) ==> r == []
  {
    if keys == [] then []
    else (if keys[0].userId == userId then [keys[0]] else []) + KeysOf(keys[1..], userId)
  }

  /** With one key per user, a user's rows are at most one. */
  lemma {:induction false} AtMostOneKey(keys: seq<ApiKey>, userId: string)
    requires OneKeyPerUser(keys)
    ensures |KeysOf(keys, userId)| <= 1
  {
    if keys != [] {
      var tail := keys[1..];
      assert OneKeyPerUser(tail) by {
        forall i, j | 0 <= i < j < |tail| ensures tail[i].userId != tail[j].userId {
          assert tail[i] == keys[i + 1] && tail[j] == keys[j + 1];
        }
      }
      AtMostOneKey(tail, userId);
      if keys[0].userId == userId {
        forall k | k in tail ensures k.userId != userId {
          var m :| 0 <= m < |tail| && tail[m] == k;
          assert keys[m + 1] == k;
        }
      }
    }
  }

  /** `payload?.name?.trim() || 'Personal MCP Key'`. */
  function KeyName(payload: Option<KeyRequest>): (r: string)
    ensures r != ""
    ensures payload.Some? && payload.value.name.Some? && Trim(payload.value.name.value) != ""
            ==> r == Trim(payload.value.name.value)
    ensures !(payload.Some? && payload.value.name.Some? && Trim(payload.value.name.value) != "") ==> r == DefaultKeyName
  {
    if payload.Some? && payload.value.name.Some? && Trim(payload.value.name.value) != ""
    then Trim(payload.value.name.value)
    else DefaultKeyName
  }

  /** The checked expiry: absent or empty means none; otherwise it must parse
      (`parseDate` stands for `new Date`) to a time strictly after `now`. */
  function Expiry(payload: Option<KeyRequest>, parseDate: string -> Option<int>, now: int): (r: Result<Option<int>, Response>)
    ensures r.Ok? && r.value.Some? ==> r.value.value > now
    ensures r.Err? ==> r.error == InvalidExpiry || r.error == ExpiryNotFuture
    ensures (payload.None? || payload.value.expiresAt.None? || payload.value.expiresAt == Some("")) <==> r == Ok(None)
  {
    var input := if payload.Some? then payload.value.expiresAt else None;
    if input.None? || input.value == "" then Ok(None)
    else
      var parsed := parseDate(input.value);
      if parsed.None? then Err(InvalidExpiry)
      else if parsed.value <= now then Err(ExpiryNotFuture)
      else Ok(Some(parsed.value))
  }

  /** `GET`: the caller's key, if any; several rows of the caller make
      `maybeSingle` fail. */
  method Get(table: ApiKeysTable, user: Option<string>, fault: Option<Legacy.StoreError>) returns (response: Response)
    ensures user.None? ==> response == Unauthorized
    ensures user.Some? && fault.Some? ==> response == StoreFailure(fault.value)
    ensures user.Some? && fault.None? && |KeysOf(table.rows, user.value)| > 1 ==> response == MultipleRows
    ensures OneKeyPerUser(table.rows) ==> !response.MultipleRows?
    ensures user.Some? && fault.None? && |KeysOf(table.rows, user.value)| <= 1 ==>
              && response.KeyOf?
              && (response.key.Some? <==> exists k :: k in table.rows && k.userId == user.value)
              && (response.key.Some? ==> response.key.value in table.rows && response.key.value.userId == user.value)
  {
    if user.None? {
      return Unauthorized;
    }
    if fault.Some? {
      return StoreFailure(fault.value);
    }
    var mine := KeysOf(table.rows, user.value);
    if OneKeyPerUser(table.rows) {
      AtMostOneKey(table.rows, user.value);
    }
    if |mine| > 1 {
      return MultipleRows;
    }
    if mine == [] {
      return KeyOf(None);
    }
    assert mine[0] in mine;
    return KeyOf(Some(mine[0]));
  }

  /** The row the insert writes. */
  function NewKey(id: string, userId: string, name: string, plaintextKey: string, digest: string -> string,
                  expiresAt: Option<int>, now: int, withScope: bool): (r: ApiKey)
    ensures r.keyHash == digest(plaintextKey) && r.status == "active" && r.revokedAt.None? && r.lastUsedAt.None?
    ensures r.keyPrefix == plaintextKey[..if |plaintextKey| < 12 then |plaintextKey| else 12]
    ensures r.scope == if withScope then Some("mcp") else None
  {
    ApiKey(id, userId, name, plaintextKey[..if |plaintextKey| < 12 then |plaintextKey| else 12],
           digest(plaintextKey), "active", if withScope then Some("mcp") else None, now, expiresAt, None, None)
  }

  /** `POST`: the name and expiry are checked first; then a caller who already
      holds a key gets 409 and nothing is written (several rows of the caller
      make `maybeSingle` fail with 500). Otherwise a key `tbk_<random>`
      is made, its first 12 characters kept as the prefix and its hash stored;
      the insert is repeated without `scope` only when it failed on that
      column. Success answers 201 with the plaintext. */
  method Post(table: ApiKeysTable, user: Option<string>, payload: Option<KeyRequest>, now: int,
              parseDate: string -> Option<int>, existingFault: Option<Legacy.StoreError>,
              random: string, digest: string -> string, newId: string,
              insertFault: Option<Legacy.StoreError>, retryFault: Option<Legacy.StoreError>)
    returns (response: Response)
    modifies table
    ensures OneKeyPerUser(old(table.rows)) ==> OneKeyPerUser(table.rows) && !response.MultipleRows?
    ensures user.None? ==> response == Unauthorized
    ensures user.Some? && Expiry(payload, parseDate, now).Err? ==> response == Expiry(payload, parseDate, now).error
    ensures user.Some? && Expiry(payload, parseDate, now).Ok? && existingFault.Some? ==>
              response == StoreFailure(existingFault.value)
    ensures (user.Some? && existingFault.None? && Expiry(payload, parseDate, now).Ok?
            && |KeysOf(old(table.rows), user.value)| == 1)
            ==> response == AlreadyHasKey
    ensures (user.Some? && existingFault.None? && Expiry(payload, parseDate, now).Ok?
            && |KeysOf(old(table.rows), user.value)| > 1)
            ==> response == MultipleRows
    ensures (user.Some? && existingFault.None? && Expiry(payload, parseDate, now).Ok?
            && (forall k :: k in old(table.rows) ==> k.userId != user.value))
            ==> var withScope := !IsMissingScopeColumnError(insertFault);
                var fault := if withScope then insertFault else retryFault;
                response == if fault.Some? then StoreFailure(fault.value)
                            else Created(NewKey(newId, user.value, KeyName(payload), KeyMarker + random, digest,
                                                Expiry(payload, parseDate, now).value, now, withScope),
                                         KeyMarker + random)
    ensures !response.Created? ==> table.rows == old(table.rows)
    ensures response.Created? ==>
              && user.Some? && Expiry(payload, parseDate, now).Ok?
              && (forall k :: k in old(table.rows) ==> k.userId != user.value)
              && response.plaintextKey == KeyMarker + random
              && var withScope := !IsMissingScopeColumnError(insertFault);
              && response.row == NewKey(newId, user.value, KeyName(payload), KeyMarker + random, digest,
                                         Expiry(payload, parseDate, now).value, now, withScope)
              && table.rows == old(table.rows) + [response.row]
  {
    if user.None? {
      return Unauthorized;
    }
    var name := KeyName(payload);
    var expiry := Expiry(payload, parseDate, now);
    if expiry.Err? {
      return expiry.error;
    }
    if existingFault.Some? {
      return StoreFailure(existingFault.value);
    }
    var mine := KeysOf(table.rows, user.value);
    if OneKeyPerUser(table.rows) {
      AtMostOneKey(table.rows, user.value);
    }
    if |mine| > 1 {
      return MultipleRows;
    }
    if mine != [] {
      return AlreadyHasKey;
    }
    var plaintextKey := KeyMarker + random;
    var withScope := true;
    var fault := insertFault;
    if IsMissingScopeColumnError(fault) {
      withScope := false;
      fault := retryFault;
    }
    if fault.Some? {
      return StoreFailure(fault.value);
    }
    var row := NewKey(newId, user.value, name, plaintextKey, digest, expiry.value, now, withScope);
    table.rows := table.rows + [row];
    return Created(row, plaintextKey);
  }

  /** The stored prefix begins with the marker, so a key can be told apart in a
      listing, and the plaintext is not stored. */
  lemma PrefixShowsMarker(id: string, userId: string, name: string, random: string, digest: string -> string,
                          expiresAt: Option<int>, now: int, withScope: bool)
    ensures var key := NewKey(id, userId, name, KeyMarker + random, digest, expiresAt, now, withScope);
            && StartsWith(key.keyPrefix, KeyMarker)
            && |key.keyPrefix| == if |random| < 8 then 4 + |random| else 12
  {
  }
}
