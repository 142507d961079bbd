/** The administrators' view of MCP keys (`src/app/api/admin/api-keys/route.ts`):
    the keys listed with their owners joined in, and the refusal to create keys
    on an owner's behalf. The admin guard's answer is a parameter. */
module AdminApiKeys {
  import opened Wrappers
  import opened IdLists
  import opened McpAuth
  import Legacy

  datatype Profile = Profile(id: string, displayName: Option<string>, email: string)

  /** A listed key and its owner's profile, or none. */
  datatype KeyWithOwner = KeyWithOwner(key: ApiKey, owner: Option<Profile>)

  datatype Response =
    | Denied(status: int)          // the guard's 503 or 401
    | Forbidden                    // 403: admins do not create keys
    | StoreFailure(error: Legacy.StoreError)
    | Listing(data: seq<KeyWithOwner>)

  /** The keys the query selects: those scoped to MCP, or all of them when the
      scope filter was dropped. The store's ordering by creation time is taken
      as the table's order. */
  function ListedKeys(keys: seq<ApiKey>, scoped: bool): (r: seq<ApiKey>)
    ensures forall k :: k in r <==> k in keys && (!scoped || k.scope == Some("mcp"))
    ensures !scoped ==> r == keys
  {
    if keys == [] then []
    else (if !scoped || keys[0].scope == Some("mcp") then [keys[0]] else []) + ListedKeys(keys[1..], scoped)
  }

  /** The scope filter distributes over concatenation, so the listing keeps
      the query's order. */
  lemma {:induction false} ListedKeysAppend(keys: seq<ApiKey>, more: seq<ApiKey>, scoped: bool)
    ensures ListedKeys(keys + more, scoped) == ListedKeys(keys, scoped) + ListedKeys(more, scoped)
    decreases |keys|
  {
    if keys == [] {
      assert keys + more == more;
    } else {
      assert (keys + more)[0] == keys[0] && (keys + more)[1..] == keys[1..] + more;
      ListedKeysAppend(keys[1..], more, scoped);
    }
  }

  /** `keys.map(key => key.user_id).filter(Boolean)`. */
  function OwnerIdList(keys: seq<ApiKey>): (r: seq<string>)
    ensures forall u :: u in r <==> u != "" && exists k :: k in keys && k.userId == u
  {
    if keys == [] then []
    else
      var rest := OwnerIdList(keys[1..]);
      assert forall k :: k in keys <==> k == keys[0] || k in keys[1..];
      (if keys[0].userId != "" then [keys[0].userId] else []) + rest
  }

  /** `[...new Set(...)]` of the owner ids: each non-empty owner id once. */
  function OwnerIds(keys: seq<ApiKey>): (r: seq<string>)
    ensures NoDup(r)
    ensures forall u :: u in r <==> u != "" && exists k :: k in keys && k.userId == u
  {
    Dedup(OwnerIdList(keys))
  }

  /** `usersById`: the profiles whose id was asked for, or nothing when no id was
      asked for or the profile query failed. */
  function UsersById(profiles: map<string, Profile>, ids: seq<string>, fault: Option<Legacy.StoreError>): (r: map<string, Profile>)
    ensures forall u :: u in r <==> fault.None? && u in ids && u in profiles
    ensures forall u :: u in r ==> r[u] == profiles[u]
  {
    if ids == [] || fault.Some? then map[]
    else map u | u in profiles && u in ids :: profiles[u]
  }

  /** `{...key, owner: usersById[key.user_id] ?? null}` for every key, in order. */
  function JoinOwners(keys: seq<ApiKey>, usersById: map<string, Profile>): (r: seq<KeyWithOwner>)
    ensures |r| == |keys|
    ensures forall i :: 0 <= i < |keys| ==>
              r[i].key == keys[i] && r[i].owner == if keys[i].userId in usersById then Some(usersById[keys[i].userId]) else None
  {
    seq(|keys|, i requires 0 <= i < |keys| =>
      KeyWithOwner(keys[i], if keys[i].userId in usersById then Some(usersById[keys[i].userId]) else None))
  }

  /** `GET`: the guard answers first. The scoped query is repeated without the
      scope filter only when it failed on the missing column; a failure of the
      query that counts is 500. Every listed key keeps its place and fields and
      gains as owner the profile with its owner id, or none when there is no
      such profile or the profile query failed, which does not fail the
      response. */
  method Get(table: ApiKeysTable, profiles: map<string, Profile>, denied: Option<int>,
             scopedFault: Option<Legacy.StoreError>, unscopedFault: Option<Legacy.StoreError>,
             profilesFault: Option<Legacy.StoreError>)
    returns (response: Response)
    requires forall u :: u in profiles ==> profiles[u].id == u
    ensures denied.Some? ==> response == Denied(denied.value)
    ensures denied.None? && scopedFault.Some? && !IsMissingScopeColumnError(scopedFault) ==> response == StoreFailure(scopedFault.value)
    ensures response.Listing? ==>
              && denied.None?
              && var keys := ListedKeys(table.rows, !IsMissingScopeColumnError(scopedFault));
              && |response.data| == |keys|
              && forall i :: 0 <= i < |keys| ==>
                   && response.data[i].key == keys[i]
                   && (response.data[i].owner.Some? <==> profilesFault.None? && keys[i].userId != "" && keys[i].userId in profiles)
                   && (response.data[i].owner.Some? ==> response.data[i].owner.value.id == keys[i].userId)
    ensures denied.None? && scopedFault.None? ==> response.Listing?
    ensures denied.None? && IsMissingScopeColumnError(scopedFault) && unscopedFault.Some? ==>
              response == StoreFailure(unscopedFault.value)
    ensures denied.None? && IsMissingScopeColumnError(scopedFault) && unscopedFault.None? ==> response.Listing?
  {
    if denied.Some? {
      return Denied(denied.value);
    }
    var scoped := true;
    var fault := scopedFault;
    if IsMissingScopeColumnError(fault) {
      scoped := false;
      fault := unscopedFault;
    }
    if fault.Some? {
      return StoreFailure(fault.value);
    }
    var keys := ListedKeys(table.rows, scoped);
    var ids := OwnerIds(keys);
    var usersById := UsersById(profiles, ids, profilesFault);
    var data := JoinOwners(keys, usersById);
    forall i | 0 <= i < |keys|
      ensures data[i].owner.Some? <==> profilesFault.None? && keys[i].userId != "" && keys[i].userId in profiles
    {
      if keys[i].userId != "" {
        assert keys[i] in keys;
        assert keys[i].userId in ids;
      }
    }
    return Listing(data);
  }

  /** `POST`: the guard answers first; an administrator is always refused. */
  method Post(denied: Option<int>) returns (response: Response)
    ensures response == if denied.Some? then Denied(denied.value) else Forbidden
  {
    if denied.Some? {
      return Denied(denied.value);
    }
    return Forbidden;
  }
}
