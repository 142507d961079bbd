/** Authentication of MCP requests by API key (`src/lib/mcp/auth.ts`): the
    `Authorization: Bearer` header (section 2.1 of RFC 6750), the rule that
    makes a stored key usable, the fallback for a database without the `scope`
    column, and the throttled `last_used_at` write. The `api_keys` table is a
    list of rows; times are integer milliseconds; SHA-256 is a parameter. */
module McpAuth {
  import opened Wrappers
  import opened JsText
  import Legacy

  /** Ten minutes. */
  const TouchWindowMs: int := 10 * 60 * 1000

  const ScopeColumnPhrase: string := "could not find the 'scope' column"

  /** A row of `api_keys`. Only the hash of the key is stored. */
  datatype ApiKey = ApiKey(
    id: string, userId: string, name: string, keyPrefix: string, keyHash: string,
    status: string, scope: Option<string>, createdAt: int,
    expiresAt: Option<int>, revokedAt: Option<int>, lastUsedAt: Option<int>)

  datatype Actor = Actor(userId: string, apiKeyId: string, keyPrefix: string)

  datatype AuthResult = Authenticated(actor: Actor) | Rejected(status: int, error: string)

  /** `isMissingScopeColumnError` (the key routes hold the same test): PostgREST's
      unknown-column code, or a message naming the `scope` column in any case. */
  predicate IsMissingScopeColumnError(error: Option<Legacy.StoreError>)
  {
    error.Some? && (error.value.code == "PGRST204" || Contains(Lower(error.value.message), ScopeColumnPhrase))
  }

  // ---------------------------------------------------------------------------
  // The header

  /** `parseBearerToken`: the header split at every space; the first piece must
      be `bearer` in any case and the second must be there and not blank; its
      trimmed text is the token and further pieces are ignored. */
  function ParseBearerToken(header: Option<string>): (r: Option<string>)
    ensures r.Some? ==>
              && header.Some?
              && var parts := Split(header.value, ' ');
              && |parts| >= 2 && Lower(parts[0]) == "bearer"
              && r.value == Trim(parts[1]) && r.value != ""
    ensures header.None? || header == Some("") ==> r.None?
    ensures r.Some? ==> ' ' !in r.value && Trimmed(r.value)
  {
    if header.None? || header.value == "" then None
    else
      var parts := Split(header.value, ' ');
      if Lower(parts[0]) != "bearer" || |parts| < 2 || parts[1] == "" then None
      else
        var token := Trim(parts[1]);
        TrimSpec(parts[1]);
        assert forall i :: 0 <= i < |token| ==> token[i] in parts[1];
        if token == "" then None else Some(token)
  }

  /** A header `<scheme> <token> ...` with the `bearer` scheme in any case gives
      back the token, whatever follows it after a space. */
  lemma BearerRoundTrip(scheme: string, token: string, rest: seq<string>)
    requires Lower(scheme) == "bearer" && ' ' !in scheme
    requires token != "" && ' ' !in token && Trimmed(token)
    requires forall i :: 0 <= i < |rest| ==> ' ' !in rest[i]
    ensures ParseBearerToken(Some(Join([scheme, token] + rest, " "))) == Some(token)
  {
    var parts := [scheme, token] + rest;
    NoSpaceInPieces(scheme, token, rest);
    SplitJoin(parts, ' ');
    TrimOfTrimmed(token);
    var header := Join(parts, " ");
    assert header == scheme + " " + Join(parts[1..], " ");
    ParseOfPieces(header);
  }

  lemma NoSpaceInPieces(scheme: string, token: string, rest: seq<string>)
    requires ' ' !in scheme && ' ' !in token
    requires forall i :: 0 <= i < |rest| ==> ' ' !in rest[i]
    ensures var parts := [scheme, token] + rest; forall i :: 0 <= i < |parts| ==> ' ' !in parts[i]
  {
    var parts := [scheme, token] + rest;
    forall i | 0 <= i < |parts| ensures ' ' !in parts[i] {
      if i >= 2 { assert parts[i] == rest[i - 2]; }
    }
  }

  /** How the function reads a non-empty header, stated on its pieces. */
  lemma ParseOfPieces(header: string)
    requires header != ""
    requires var parts := Split(header, ' '); |parts| >= 2 && Lower(parts[0]) == "bearer" && Trim(parts[1]) != ""
    ensures ParseBearerToken(Some(header)) == Some(Trim(Split(header, ' ')[1]))
  {
  }

  /** Any other scheme, or a header without a second piece, is refused. */
  lemma BearerNeedsScheme(header: string)
    requires Lower(Split(header, ' ')[0]) != "bearer" || |Split(header, ' ')| < 2
    ensures ParseBearerToken(Some(header)) == None
  {
  }

  // ---------------------------------------------------------------------------
  // The lookup

  /** The conditions of the lookup query: the hash matches, the key is active and
      not revoked, it has not expired by `now`, and, when the query filters on
      the scope, its scope is `mcp`. */
  predicate Usable(key: ApiKey, keyHash: string, now: int, scoped: bool)
  {
    && key.keyHash == keyHash
    && key.status == "active"
    && key.revokedAt.None?
    && (key.expiresAt.None? || key.expiresAt.value > now)
    && (!scoped || key.scope == Some("mcp"))
  }

  /** The rows the query selects, in table order. */
  function Matching(keys: seq<ApiKey>, keyHash: string, now: int, scoped: bool): (r: seq<ApiKey>)
    ensures forall k :: k in r <==> k in keys && Usable(k, keyHash, now, scoped)
    ensures (forall k :: k in keys ==> !Usable(k, keyHash, now, scoped)) ==> r == []
  {
    if keys == [] then []
    else (if Usable(keys[0], keyHash, now, scoped) then [keys[0]] else []) + Matching(keys[1..], keyHash, now, scoped)
  }

  /** What `maybeSingle` gives back. More than one row is an error of its own,
      which is never a missing-scope error. */
  datatype Lookup = Found(row: Option<ApiKey>) | Failed(error: Legacy.StoreError) | TooMany

  /** One lookup query: a store failure, or the matching rows cut down to at most one. */
  function RunLookup(keys: seq<ApiKey>, keyHash: string, now: int, scoped: bool, fault: Option<Legacy.StoreError>): (r: Lookup)
    ensures r.Found? ==> fault.None? && |Matching(keys, keyHash, now, scoped)| <= 1
    ensures r.Found? && r.row.Some? ==> r.row.value in keys && Usable(r.row.value, keyHash, now, scoped)
    ensures fault.None? && |Matching(keys, keyHash, now, scoped)| == 1 ==> r == Found(Some(Matching(keys, keyHash, now, scoped)[0]))
    ensures fault.Some? ==> r == Failed(fault.value)
  {
    if fault.Some? then Failed(fault.value)
    else
      var rows := Matching(keys, keyHash, now, scoped);
      if |rows| == 0 then Found(None)
      else if |rows| == 1 then
        assert rows[0] in rows;
        Found(Some(rows[0]))
      else TooMany
  }

  /** `findMcpApiKeyRow`: the scoped lookup, repeated without the scope filter
      only when it failed on the missing column; any failure gives no key. */
  function FindMcpApiKeyRow(keys: seq<ApiKey>, keyHash: string, now: int,
                            scopedFault: Option<Legacy.StoreError>, unscopedFault: Option<Legacy.StoreError>): (r: Option<ApiKey>)
    ensures r.Some? ==> r.value in keys && Usable(r.value, keyHash, now, !IsMissingScopeColumnError(scopedFault))
    ensures scopedFault.Some? && !IsMissingScopeColumnError(scopedFault) ==> r.None?
    ensures scopedFault.None? && |Matching(keys, keyHash, now, true)| == 1 ==> r == Some(Matching(keys, keyHash, now, true)[0])
    ensures (IsMissingScopeColumnError(scopedFault) && unscopedFault.None? && |Matching(keys, keyHash, now, false)| == 1)
              ==> r == Some(Matching(keys, keyHash, now, false)[0])
    ensures r.None? && scopedFault.None? ==> |Matching(keys, keyHash, now, true)| != 1
  {
    var first := RunLookup(keys, keyHash, now, true, scopedFault);
    var lookup :=
      if first.Failed? && IsMissingScopeColumnError(Some(first.error))
      then RunLookup(keys, keyHash, now, false, unscopedFault)
      else first;
    if lookup.Found? then lookup.row else None
  }

  /** No two rows share a key hash. */
  predicate UniqueHashes(keys: seq<ApiKey>)
  {
    forall i, j :: 0 <= i < j < |keys| ==> keys[i].keyHash != keys[j].keyHash
  }

  /** With unique hashes at most one row matches. */
  lemma {:induction false} AtMostOneMatch(keys: seq<ApiKey>, keyHash: string, now: int, scoped: bool)
    requires UniqueHashes(keys)
    ensures |Matching(keys, keyHash, now, scoped)| <= 1
  {
    if keys != [] {
      var tail := keys[1..];
      assert UniqueHashes(tail) by {
        forall i, j | 0 <= i < j < |tail| ensures tail[i].keyHash != tail[j].keyHash {
          assert tail[i] == keys[i + 1] && tail[j] == keys[j + 1];
        }
      }
      AtMostOneMatch(tail, keyHash, now, scoped);
      if Usable(keys[0], keyHash, now, scoped) {
        forall k | k in tail ensures !Usable(k, keyHash, now, scoped) {
          var m :| 0 <= m < |tail| && tail[m] == k;
          assert keys[m + 1] == k;
        }
      }
    }
  }

  /** With key hashes unique in the table and a healthy store, a token
      authenticates exactly when a key with its hash is active, not revoked, not
      expired and scoped to MCP. */
  lemma FindsExactlyUsable(keys: seq<ApiKey>, keyHash: string, now: int)
    requires UniqueHashes(keys)
    ensures FindMcpApiKeyRow(keys, keyHash, now, None, None).Some? <==>
              exists k :: k in keys && Usable(k, keyHash, now, true)
  {
    AtMostOneMatch(keys, keyHash, now, true);
    if exists k :: k in keys && Usable(k, keyHash, now, true) {
      var k :| k in keys && Usable(k, keyHash, now, true);
      assert k in Matching(keys, keyHash, now, true);
    }
  }

  // ---------------------------------------------------------------------------
  // The usage stamp

  /** A key is stamped when it has never been used or was last used more than
      the window before `now`. */
  predicate Stale(key: ApiKey, now: int)
  {
    key.lastUsedAt.None? || key.lastUsedAt.value < now - TouchWindowMs
  }

  /** The update `touchLastUsedAt` sends: the rows of the key that are stale get
      `now`; every other row stays as it was. */
  function Touched(keys: seq<ApiKey>, id: string, now: int): (r: seq<ApiKey>)
    ensures |r| == |keys|
    ensures forall i :: 0 <= i < |keys| ==>
              r[i] == if keys[i].id == id && Stale(keys[i], now) then keys[i].(lastUsedAt := Some(now)) else keys[i]
  {
    seq(|keys|, i requires 0 <= i < |keys| =>
      if keys[i].id == id && Stale(keys[i], now) then keys[i].(lastUsedAt := Some(now)) else keys[i])
  }

  /** At most one write per window: a row stamped at `t` is not written again by
      a touch up to ten minutes later, and after any touch the key's rows carry a
      stamp no older than the window. */
  lemma TouchOncePerWindow(keys: seq<ApiKey>, id: string, t: int, t2: int, i: nat)
    requires t <= t2 <= t + TouchWindowMs && i < |keys| && keys[i].id == id
    ensures Touched(keys, id, t)[i].lastUsedAt.Some?
    ensures Touched(keys, id, t)[i].lastUsedAt.value >= t - TouchWindowMs
    ensures Stale(keys[i], t) ==> Touched(Touched(keys, id, t), id, t2)[i] == Touched(keys, id, t)[i]
  {
  }

  /** The `api_keys` table. */
  class ApiKeysTable {
    var rows: seq<ApiKey>

    constructor (initial: seq<ApiKey>)
      ensures rows == initial
    {
      rows := initial;
    }

    /** `touchLastUsedAt`: a failed update is only logged. */
    method TouchLastUsedAt(id: string, now: int, fault: Option<Legacy.StoreError>)
      modifies this
      ensures rows == if fault.Some? then old(rows) else Touched(old(rows), id, now)
    {
      if fault.None? {
        rows := Touched(rows, id, now);
      }
    }

    /** `authenticateMcpRequest`: a missing or malformed header and a key that is
        not found are both 401 and nothing is written; otherwise the actor is
        the found key's owner, id and prefix, and the key's usage stamp is
        refreshed. */
    method AuthenticateMcpRequest(header: Option<string>, digest: string -> string, now: int,
                                  scopedFault: Option<Legacy.StoreError>, unscopedFault: Option<Legacy.StoreError>,
                                  touchFault: Option<Legacy.StoreError>)
      returns (result: AuthResult)
      modifies this
      ensures ParseBearerToken(header).None? ==>
                result == Rejected(401, "Missing or invalid Bearer token") && rows == old(rows)
      ensures ParseBearerToken(header).Some? ==>
                var key := FindMcpApiKeyRow(old(rows), digest(ParseBearerToken(header).value), now, scopedFault, unscopedFault);
                && (key.None? ==> result == Rejected(401, "Invalid or expired MCP key") && rows == old(rows))
                && (key.Some? ==>
                      && result == Authenticated(Actor(key.value.userId, key.value.id, key.value.keyPrefix))
                      && rows == if touchFault.Some? then old(rows) else Touched(old(rows), key.value.id, now))
      ensures result.Authenticated? ==>
                exists k :: k in old(rows) && k.userId == result.actor.userId && k.id == result.actor.apiKeyId
                            && Usable(k, digest(ParseBearerToken(header).value), now, !IsMissingScopeColumnError(scopedFault))
    {
      var token := ParseBearerToken(header);
      if token.None? {
        return Rejected(401, "Missing or invalid Bearer token");
      }
      var key := FindMcpApiKeyRow(rows, digest(token.value), now, scopedFault, unscopedFault);
      if key.None? {
        return Rejected(401, "Invalid or expired MCP key");
      }
      TouchLastUsedAt(key.value.id, now, touchFault);
      result := Authenticated(Actor(key.value.userId, key.value.id, key.value.keyPrefix));
    }
  }
}
