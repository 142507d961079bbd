/** The signed-in viewer's name, avatar and email (`src/lib/auth/viewer.ts`):
    ordered fallbacks over the profile row, the account's metadata and its
    email. Metadata values are untyped. */
module Viewer {
  import opened Wrappers
  import opened JsText
  import opened JsValues

  /** The parts of the account the fallbacks read. */
  datatype User = User(id: string, email: Option<string>, metadata: JsValue)

  datatype ProfileFields = ProfileFields(displayName: Option<string>, avatarUrl: Option<string>)

  datatype ViewerProfile = ViewerProfile(displayName: string, avatarUrl: Option<string>, email: Option<string>)

  /** A value that is a string holding a non-space character. */
  predicate UsableText(v: JsValue)
  {
    v.Str? && NotBlank(v.s)
  }

  function OptText(s: Option<string>): JsValue
  {
    if s.Some? then Str(s.value) else Undefined
  }

  /** `metadata?.full_name || metadata?.name`. */
  function MetadataName(user: User): JsValue
  {
    Or(Get(user.metadata, "full_name"), Get(user.metadata, "name"))
  }

  /** `metadata?.avatar_url || metadata?.picture`. */
  function MetadataAvatar(user: User): JsValue
  {
    Or(Get(user.metadata, "avatar_url"), Get(user.metadata, "picture"))
  }

  /** `pickDisplayName`: the profile's name, else the metadata name, else the
      email, each only when it is a string holding a non-space character, else
      `User`. Values are returned untrimmed, so the result is never blank. */
  function PickDisplayName(user: User, profileName: Option<string>): (r: string)
    ensures NotBlank(r)
    ensures UsableText(OptText(profileName)) ==> r == profileName.value
    ensures !UsableText(OptText(profileName)) && UsableText(MetadataName(user)) ==> r == MetadataName(user).s
    ensures !UsableText(OptText(profileName)) && !UsableText(MetadataName(user)) && UsableText(OptText(user.email))
            ==> r == user.email.value
    ensures !UsableText(OptText(profileName)) && !UsableText(MetadataName(user)) && !UsableText(OptText(user.email))
            ==> r == "User"
  {
    if UsableText(OptText(profileName)) then profileName.value
    else if UsableText(MetadataName(user)) then MetadataName(user).s
    else if UsableText(OptText(user.email)) then user.email.value
    else "User"
  }

  /** `pickAvatar`: the profile's URL, else the metadata avatar, each only when
      it is a string holding a non-space character, else none. */
  function PickAvatar(user: User, profileUrl: Option<string>): (r: Option<string>)
    ensures r.Some? ==> NotBlank(r.value)
    ensures UsableText(OptText(profileUrl)) ==> r == profileUrl
    ensures !UsableText(OptText(profileUrl)) && UsableText(MetadataAvatar(user)) ==> r == Some(MetadataAvatar(user).s)
    ensures r.None? <==> !UsableText(OptText(profileUrl)) && !UsableText(MetadataAvatar(user))
  {
    if UsableText(OptText(profileUrl)) then profileUrl
    else if UsableText(MetadataAvatar(user)) then Some(MetadataAvatar(user).s)
    else None
  }

  /** A name given as `full_name` wins over `name` when it is a non-empty string,
      and `name` is used when `full_name` is absent. */
  lemma FullNameFirst(id: string, email: Option<string>, fullName: string, name: string)
    requires NotBlank(fullName) && NotBlank(name)
    ensures PickDisplayName(User(id, email, Obj([("full_name", Str(fullName)), ("name", Str(name))])), None) == fullName
    ensures PickDisplayName(User(id, email, Obj([("name", Str(name))])), None) == name
  {
    var entries := [("name", Str(name))];
    assert "name" != "full_name" by { assert |"name"| != |"full_name"|; }
    assert Lookup(entries[1..], "full_name") == Undefined;
    assert Get(Obj(entries), "full_name") == Undefined;
  }

  /** `getViewerProfile`: a failed profile lookup reads as no profile and does
      not fail; the email is the account's, or none. */
  function GetViewerProfile(user: User, lookup: Result<Option<ProfileFields>, string>): (r: ViewerProfile)
    ensures r.email == user.email
    ensures NotBlank(r.displayName)
    ensures lookup.Err? || lookup.value.None? ==>
              r == ViewerProfile(PickDisplayName(user, None), PickAvatar(user, None), user.email)
    ensures lookup.Ok? && lookup.value.Some? ==>
              r == ViewerProfile(PickDisplayName(user, lookup.value.value.displayName),
                                 PickAvatar(user, lookup.value.value.avatarUrl), user.email)
  {
    var profile := if lookup.Ok? then lookup.value else None;
    var name := if profile.Some? then profile.value.displayName else None;
    var avatar := if profile.Some? then profile.value.avatarUrl else None;
    ViewerProfile(PickDisplayName(user, name), PickAvatar(user, avatar), user.email)
  }
}
