/** The administrators' user management (`src/app/api/admin/users/route.ts`):
    the listing's query parameters and filters, and the creation of an account
    from a normalised request. Account creation, the random temporary password
    and the profile update are parameters. */
module AdminUsers {
  import opened Wrappers
  import opened JsText
  import Legacy

  datatype ListQuery = ListQuery(search: string, role: string, status: string)

  /** The filters the listing query carries: each one only when its parameter
      is not empty. */
  datatype Filters = Filters(search: Option<string>, role: Option<string>, status: Option<string>)

  /** `searchParams.get(name)?.trim() ?? ''`. */
  function Param(params: map<string, string>, name: string): (r: string)
    ensures name in params ==> r == Trim(params[name])
    ensures name !in params ==> r == ""
    ensures Trimmed(r)
  {
    if name in params then TrimSpec(params[name]); Trim(params[name]) else ""
  }

  /** `parseQuery`: the three parameters, trimmed, empty when absent. */
  function ParseQuery(params: map<string, string>): (r: ListQuery)
    ensures r.search == Param(params, "search")
    ensures r.role == Param(params, "role")
    ensures r.status == Param(params, "status")
  {
    ListQuery(Param(params, "search"), Param(params, "role"), Param(params, "status"))
  }

  /** The filters of `GET`. */
  function QueryFilters(q: ListQuery): (r: Filters)
    ensures r.search.Some? <==> q.search != ""
    ensures r.role.Some? <==> q.role != ""
    ensures r.status.Some? <==> q.status != ""
    ensures r.search.Some? ==> r.search.value == q.search
    ensures r.role.Some? ==> r.role.value == q.role
    ensures r.status.Some? ==> r.status.value == q.status
  {
    Filters(if q.search != "" then Some(q.search) else None,
            if q.role != "" then Some(q.role) else None,
            if q.status != "" then Some(q.status) else None)
  }

  /** A row of `profiles` as the listing shows it. */
  datatype UserRow = UserRow(id: string, email: string, displayName: string, accountRole: string, accountStatus: string)

  /** The rows the filtered query returns, in the store's order. The search
      term's `ilike` match on name, email and user name is the store's and is a
      parameter. */
  function Listed(rows: seq<UserRow>, f: Filters, searchMatches: (UserRow, string) -> bool): (r: seq<UserRow>)
    ensures forall u :: u in r <==>
              && u in rows
              && (f.search.None? || searchMatches(u, f.search.value))
              && (f.role.None? || u.accountRole == f.role.value)
              && (f.status.None? || u.accountStatus == f.status.value)
  {
    if rows == [] then []
    else
      var u := rows[0];
      var keep := && (f.search.None? || searchMatches(u, f.search.value))
                  && (f.role.None? || u.accountRole == f.role.value)
                  && (f.status.None? || u.accountStatus == f.status.value);
      (if keep then [u] else []) + Listed(rows[1..], f, searchMatches)
  }

  /** The filters distribute over concatenation, so the listing keeps the
      store's order. */
  lemma {:induction false} ListedAppend(rows: seq<UserRow>, more: seq<UserRow>, f: Filters,
                                        searchMatches: (UserRow, string) -> bool)
    ensures Listed(rows + more, f, searchMatches) == Listed(rows, f, searchMatches) + Listed(more, f, searchMatches)
    decreases |rows|
  {
    if rows == [] {
      assert rows + more == more;
    } else {
      assert (rows + more)[0] == rows[0] && (rows + more)[1..] == rows[1..] + more;
      ListedAppend(rows[1..], more, f, searchMatches);
    }
  }

  datatype ListResponse = ListDenied(status: int) | ListFailed(message: string) | Users(data: seq<UserRow>)

  /** `GET`: the guard answers first; a failed query is 500; otherwise the rows
      that pass the filters of the parsed parameters. */
  method Get(rows: seq<UserRow>, denied: Option<int>, params: map<string, string>,
             searchMatches: (UserRow, string) -> bool, fault: Option<Legacy.StoreError>)
    returns (response: ListResponse)
    ensures denied.Some? ==> response == ListDenied(denied.value)
    ensures denied.None? && fault.Some? ==> response == ListFailed(fault.value.message)
    ensures denied.None? && fault.None? ==> response.Users?
    ensures response.Users? ==>
              && denied.None? && fault.None?
              && var q := ParseQuery(params);
              && forall u :: u in response.data <==>
                   && u in rows
                   && (q.search == "" || searchMatches(u, q.search))
                   && (q.role == "" || u.accountRole == q.role)
                   && (q.status == "" || u.accountStatus == q.status)
  {
    if denied.Some? {
      return ListDenied(denied.value);
    }
    var q := ParseQuery(params);
    var filters := QueryFilters(q);
    if fault.Some? {
      return ListFailed(fault.value.message);
    }
    return Users(Listed(rows, filters, searchMatches));
  }

  /** Absent or blank parameters filter nothing. */
  lemma BlankParamsFilterNothing(params: map<string, string>)
    requires forall name :: name in params ==> AllSpace(params[name])
    ensures QueryFilters(ParseQuery(params)) == Filters(None, None, None)
  {
    forall name | name in params ensures Trim(params[name]) == "" {
      TrimEmptyIff(params[name]);
    }
  }

  /** The request body of `POST`; `None` when it is not JSON. */
  datatype NewUserRequest = NewUserRequest(email: Option<string>, displayName: Option<string>,
                                           role: Option<string>, status: Option<string>)

  datatype NewUser = NewUser(email: string, displayName: string, role: string, status: string)

  /** The normalised input: the email trimmed and lowercased, the display name
      trimmed, the role `viewer` and the status `pending` when absent. */
  function Normalize(payload: Option<NewUserRequest>): (r: NewUser)
    ensures payload.None? ==> r == NewUser("", "", "viewer", "pending")
    ensures payload.Some? ==>
              && r.email == (if payload.value.email.Some? then Lower(Trim(payload.value.email.value)) else "")
              && r.displayName == (if payload.value.displayName.Some? then Trim(payload.value.displayName.value) else "")
              && r.role == (if payload.value.role.Some? then payload.value.role.value else "viewer")
              && r.status == (if payload.value.status.Some? then payload.value.status.value else "pending")
  {
    if payload.None? then NewUser("", "", "viewer", "pending")
    else
      var p := payload.value;
      NewUser(if p.email.Some? then Lower(Trim(p.email.value)) else "",
              if p.displayName.Some? then Trim(p.displayName.value) else "",
              if p.role.Some? then p.role.value else "viewer",
              if p.status.Some? then p.status.value else "pending")
  }

  /** Normalising does not change a blank field's blankness: an email or name
      made only of white space is refused. */
  lemma BlankFieldsRefused(email: string, displayName: string)
    requires AllSpace(email) || AllSpace(displayName)
    ensures var u := Normalize(Some(NewUserRequest(Some(email), Some(displayName), None, None)));
            u.email == "" || u.displayName == ""
  {
    TrimEmptyIff(email);
    TrimEmptyIff(displayName);
  }

  /** What account creation answers: the new user's id, or a failure with its
      message if any. */
  datatype CreateAnswer = CreatedUser(userId: string) | CreateFailed(message: Option<string>)

  /** The profile row the update returns. */
  datatype ProfileRow = ProfileRow(id: string, displayName: string, role: string, status: string)

  datatype Response =
    | Denied(status: int)
    | MissingFields                  // 400 `email and display_name are required`
    | ServerError(message: string)   // 500
    | Created(profile: ProfileRow, tempPassword: string)

  /** `POST`: the guard answers first; a missing email or display name is
      refused before any account is created; a failed creation is 500 with its
      message or `Failed to create user`; a failed profile update is 500;
      otherwise 201 with the updated profile and the temporary password.
      `requested` is the account creation that was asked for, if any. */
  method Post(denied: Option<int>, payload: Option<NewUserRequest>, tempPassword: string,
              create: CreateAnswer, updateFault: Option<Legacy.StoreError>)
    returns (response: Response, requested: Option<NewUser>)
    ensures denied.Some? ==> response == Denied(denied.value) && requested.None?
    ensures denied.None? && (Normalize(payload).email == "" || Normalize(payload).displayName == "")
            ==> response == MissingFields && requested.None?
    ensures requested.Some? ==> requested.value == Normalize(payload) && requested.value.email != "" && requested.value.displayName != ""
    ensures denied.None? && Normalize(payload).email != "" && Normalize(payload).displayName != ""
            ==> requested == Some(Normalize(payload))
    ensures requested.Some? && create.CreatedUser? && updateFault.Some? ==>
              response == ServerError(updateFault.value.message)
    ensures requested.Some? && create.CreatedUser? && updateFault.None? ==>
              response == Created(ProfileRow(create.userId, requested.value.displayName, requested.value.role,
                                             requested.value.status), tempPassword)
    ensures response.Created? ==>
              && requested.Some? && create.CreatedUser?
              && response.profile == ProfileRow(create.userId, requested.value.displayName, requested.value.role, requested.value.status)
              && response.tempPassword == tempPassword
    ensures response == ServerError("Failed to create user") ==> requested.Some?
    ensures requested.Some? && create.CreateFailed? ==>
              response == ServerError(if create.message.Some? then create.message.value else "Failed to create user")
  {
    if denied.Some? {
      return Denied(denied.value), None;
    }
    var user := Normalize(payload);
    if user.email == "" || user.displayName == "" {
      return MissingFields, None;
    }
    requested := Some(user);
    if create.CreateFailed? {
      var message := if create.message.Some? then create.message.value else "Failed to create user";
      return ServerError(message), requested;
    }
    if updateFault.Some? {
      return ServerError(updateFault.value.message), requested;
    }
    response := Created(ProfileRow(create.userId, user.displayName, user.role, user.status), tempPassword);
  }
}
