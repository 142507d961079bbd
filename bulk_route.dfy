/** `POST /api/posts/bulk` (`src/app/api/posts/bulk/route.ts`): unpublish or
    delete several of the caller's posts at once. The posts table is a class
    holding a map from post id to row; a store error of any of the three queries
    is a parameter. */
module BulkRoute {
  import opened Wrappers
  import opened JsValues
  import Legacy

  datatype PostRow = PostRow(
    authorId: string, title: string, slug: string,
    published: bool, publishedAt: Option<string>, updatedAt: string)

  datatype BulkAction = Unpublish | Delete

  datatype BulkResponse =
    | Unauthorized                                      // 401
    | Crashed                                           // 500, `json.action` on a `null` body throws
    | UnsupportedAction                                 // 400
    | NoPostIds                                         // 400
    | StoreFailure(error: Legacy.StoreError)            // 500
    | Blocked(blockedIds: set<string>)                  // 400, published posts in a delete
    | Success(action: BulkAction, affectedIds: set<string>)

  /** `typeof json.action === 'string'` and one of the two supported actions. */
  function ActionOf(body: JsValue): (a: Option<BulkAction>)
    ensures a == Some(Unpublish) <==> Get(body, "action") == Str("unpublish")
    ensures a == Some(Delete) <==> Get(body, "action") == Str("delete")
  {
    match Get(body, "action")
    case Str(s) => if s == "unpublish" then Some(Unpublish) else if s == "delete" then Some(Delete) else None
    case _ => None
  }

  /** The string items of an array that are not empty, in order. */
  function NonEmptyStrings(items: seq<JsValue>): (ids: seq<string>)
    ensures |ids| <= |items|
    decreases |items|
  {
    if items == [] then []
    else
      var rest := NonEmptyStrings(items[1..]);
      if items[0].Str? && items[0].s != "" then [items[0].s] + rest else rest
  }

  /** Exactly the non-empty strings of the array are kept. */
  lemma {:induction false} NonEmptyStringsMembers(items: seq<JsValue>)
    ensures forall s :: s in NonEmptyStrings(items) <==> s != "" && Str(s) in items
    decreases |items|
  {
    if items != [] {
      NonEmptyStringsMembers(items[1..]);
      NonEmptyStringsStep(items);
      assert items == [items[0]] + items[1..];
    }
  }

  /** An array of non-empty strings comes back whole and in order. */
  lemma {:induction false} NonEmptyStringsOfClean(items: seq<JsValue>)
    requires forall i :: 0 <= i < |items| ==> items[i].Str? && items[i].s != ""
    ensures |NonEmptyStrings(items)| == |items|
    ensures forall i :: 0 <= i < |items| ==> NonEmptyStrings(items)[i] == items[i].s
    decreases |items|
  {
    if items != [] {
      NonEmptyStringsOfClean(items[1..]);
      var rest := NonEmptyStrings(items[1..]);
      assert NonEmptyStrings(items) == [items[0].s] + rest;
      forall i | 0 < i < |items| ensures NonEmptyStrings(items)[i] == items[i].s {
        assert NonEmptyStrings(items)[i] == rest[i - 1] && items[1..][i - 1] == items[i];
      }
    }
  }

  /** Filtering distributes over concatenation, so what is kept keeps its order. */
  lemma {:induction false} NonEmptyStringsAppend(items: seq<JsValue>, more: seq<JsValue>)
    ensures NonEmptyStrings(items + more) == NonEmptyStrings(items) + NonEmptyStrings(more)
    decreases |items|
  {
    if items == [] {
      assert items + more == more;
    } else {
      var whole := items + more;
      NonEmptyStringsAppend(items[1..], more);
      HeadOfAppend(items, more, whole);
      NonEmptyStringsStep(items);
      NonEmptyStringsStep(whole);
      Regroup(Kept(items[0]), NonEmptyStrings(items[1..]), NonEmptyStrings(more));
    }
  }

  /** What one item adds to the filtered list. */
  function Kept(item: JsValue): seq<string>
  {
    if item.Str? && item.s != "" then [item.s] else []
  }

  lemma NonEmptyStringsStep(items: seq<JsValue>)
    requires items != []
    ensures NonEmptyStrings(items) == Kept(items[0]) + NonEmptyStrings(items[1..])
  {
  }

  lemma HeadOfAppend(items: seq<JsValue>, more: seq<JsValue>, whole: seq<JsValue>)
    requires items != [] && whole == items + more
    ensures whole[0] == items[0] && whole[1..] == items[1..] + more
  {
  }

  lemma Regroup(a: seq<string>, b: seq<string>, c: seq<string>)
    ensures a + (b + c) == (a + b) + c
  {
  }

  /** `Array.isArray(json.ids) ? json.ids.filter(non-empty string) : []`. */
  function IdsOf(body: JsValue): (ids: seq<string>)
    ensures !Get(body, "ids").Arr? ==> ids == []
    ensures Get(body, "ids").Arr? ==> ids == NonEmptyStrings(Get(body, "ids").items)
  {
    match Get(body, "ids")
    case Arr(items) => NonEmptyStrings(items)
    case _ => []
  }

  /** The rows a request targets: listed and written by the caller. */
  function Owned(rows: map<string, PostRow>, ids: seq<string>, user: string): (s: set<string>)
    ensures forall id :: id in s <==> id in rows && id in ids && rows[id].authorId == user
  {
    set id | id in rows && id in ids && rows[id].authorId == user
  }

  /** The published rows among the targets. */
  function PublishedAmong(rows: map<string, PostRow>, targets: set<string>): (s: set<string>)
    ensures forall id :: id in s <==> id in targets && id in rows && rows[id].published
  {
    set id | id in targets && id in rows && rows[id].published
  }

  /** The table after the bulk unpublish update. */
  function UnpublishRows(rows: map<string, PostRow>, targets: set<string>, now: string): (r: map<string, PostRow>)
  {
    map id | id in rows :: if id in targets then rows[id].(published := false, publishedAt := None, updatedAt := now) else rows[id]
  }

  /** The rows the delete removes: targeted, written by the caller, unpublished. */
  function Deletable(rows: map<string, PostRow>, targets: set<string>, user: string): (s: set<string>)
  {
    set id | id in rows && id in targets && rows[id].authorId == user && !rows[id].published
  }

  /** The bulk unpublish changes exactly the targeted rows, and only their
      publish fields and timestamp; every other row, those of other authors
      included, is left as it was. */
  lemma UnpublishEffect(rows: map<string, PostRow>, ids: seq<string>, user: string, now: string)
    ensures var r := UnpublishRows(rows, Owned(rows, ids, user), now);
            r.Keys == rows.Keys
            && (forall id :: id in rows && id in ids && rows[id].authorId == user ==>
                  !r[id].published && r[id].publishedAt.None?
                  && r[id] == rows[id].(published := false, publishedAt := None, updatedAt := now))
            && (forall id :: id in rows && (id !in ids || rows[id].authorId != user) ==> r[id] == rows[id])
  {
  }

  /** The delete removes exactly the deletable rows: every other row, those of
      other authors and every published row included, stays as it was. */
  lemma DeleteEffect(rows: map<string, PostRow>, targets: set<string>, user: string)
    ensures var d := Deletable(rows, targets, user);
            var r := rows - d;
            d <= targets
            && (forall id :: id in d ==> rows[id].authorId == user && !rows[id].published)
            && (forall id :: id in rows && id !in d ==> id in r && r[id] == rows[id])
            && (forall id :: id in rows && (rows[id].authorId != user || rows[id].published) ==> id in r)
  {
  }

  /** Repeating a bulk unpublish changes nothing more: the first one already
      cleared the publish fields and set the timestamp of every target. */
  lemma UnpublishIdempotent(rows: map<string, PostRow>, targets: set<string>, now: string)
    ensures var once := UnpublishRows(rows, targets, now);
            UnpublishRows(once, targets, now) == once
  {
    var once := UnpublishRows(rows, targets, now);
    var twice := UnpublishRows(once, targets, now);
    forall id | id in twice
      ensures twice[id] == once[id]
    {
    }
  }

  /** Repeating a bulk delete removes nothing more: no deletable row is left. */
  lemma DeleteIdempotent(rows: map<string, PostRow>, targets: set<string>, user: string)
    ensures Deletable(rows - Deletable(rows, targets, user), targets, user) == {}
  {
  }

  /** A delete whose targets hold no published post removes all of them. */
  lemma DeleteAllTargets(rows: map<string, PostRow>, ids: seq<string>, user: string)
    requires PublishedAmong(rows, Owned(rows, ids, user)) == {}
    ensures Deletable(rows, Owned(rows, ids, user), user) == Owned(rows, ids, user)
  {
    var t := Owned(rows, ids, user);
    forall id | id in t ensures id in Deletable(rows, t, user) {
      assert id !in PublishedAmong(rows, t);
    }
  }

  class PostsTable {
    var rows: map<string, PostRow>

    constructor (initial: map<string, PostRow>)
      ensures rows == initial
    {
      rows := initial;
    }

    /** The handler. Nothing changes for an anonymous caller (401), an action other
        than `unpublish` or `delete` (400) or an empty id list (400); a body
        that is JSON `null` throws on `json.action` (500). An unpublish
        clears the publish fields of exactly the caller's listed posts and reports
        them. A delete is refused as a whole, with the published targets listed,
        when any target is published; otherwise it removes the targets. A store
        error (500) leaves the table as it was. */
    method Post(user: Option<string>, body: JsValue, now: string,
                updateFault: Option<Legacy.StoreError>, selectFault: Option<Legacy.StoreError>,
                deleteFault: Option<Legacy.StoreError>)
      returns (response: BulkResponse)
      modifies this
      ensures user.None? ==> response == Unauthorized
      ensures user.Some? && body == Null ==> response == Crashed
      ensures user.Some? && body != Null && ActionOf(body).None? ==> response == UnsupportedAction
      ensures user.Some? && ActionOf(body).Some? && IdsOf(body) == [] ==> response == NoPostIds
      ensures response.StoreFailure? ==>
                Some(response.error) in {updateFault, selectFault, deleteFault}
      ensures user.Some? && ActionOf(body) == Some(Unpublish) && IdsOf(body) != [] ==>
                response == (if updateFault.Some? then StoreFailure(updateFault.value)
                             else Success(Unpublish, Owned(old(rows), IdsOf(body), user.value)))
      ensures user.Some? && ActionOf(body) == Some(Delete) && IdsOf(body) != [] ==>
                var targets := Owned(old(rows), IdsOf(body), user.value);
                var blocked := PublishedAmong(old(rows), targets);
                response == (if selectFault.Some? then StoreFailure(selectFault.value)
                             else if blocked != {} then Blocked(blocked)
                             else if targets == {} then Success(Delete, {})
                             else if deleteFault.Some? then StoreFailure(deleteFault.value)
                             else Success(Delete, targets))
      ensures response.Success? && response.action == Unpublish ==>
                var targets := Owned(old(rows), IdsOf(body), user.value);
                rows == UnpublishRows(old(rows), targets, now) && response.affectedIds == targets
      ensures response.Success? && response.action == Delete ==>
                var targets := Owned(old(rows), IdsOf(body), user.value);
                PublishedAmong(old(rows), targets) == {}
                && response.affectedIds == Deletable(old(rows), targets, user.value)
                && response.affectedIds == targets
                && rows == old(rows) - response.affectedIds
      ensures response.Blocked? ==>
                ActionOf(body) == Some(Delete)
                && response.blockedIds == PublishedAmong(old(rows), Owned(old(rows), IdsOf(body), user.value))
                && response.blockedIds != {}
      ensures !response.Success? ==> rows == old(rows)
      ensures response.Success? ==> user.Some? && ActionOf(body).Some? && IdsOf(body) != []
                                    && response.action == ActionOf(body).value
    {
      if user.None? {
        return Unauthorized;
      }
      if body == Null {
        return Crashed;
      }
      var action := ActionOf(body);
      var ids := IdsOf(body);
      if action.None? {
        return UnsupportedAction;
      }
      if ids == [] {
        return NoPostIds;
      }
      var targets := Owned(rows, ids, user.value);
      if action.value == Unpublish {
        if updateFault.Some? {
          return StoreFailure(updateFault.value);
        }
        rows := UnpublishRows(rows, targets, now);
        return Success(Unpublish, targets);
      }
      if selectFault.Some? {
        return StoreFailure(selectFault.value);
      }
      var blocked := PublishedAmong(rows, targets);
      if blocked != {} {
        return Blocked(blocked);
      }
      if targets == {} {
        return Success(Delete, {});
      }
      if deleteFault.Some? {
        return StoreFailure(deleteFault.value);
      }
      var deleted := Deletable(rows, targets, user.value);
      DeleteAllTargets(rows, ids, user.value);
      rows := rows - deleted;
      response := Success(Delete, deleted);
    }
  }
}
