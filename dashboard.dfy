/** The post dashboard (`src/components/blog/DashboardPostIndex.tsx`): the
    author's posts filtered by status and a search query, cut into pages of 20,
    a selection of post ids for the bulk actions, the rules that enable those
    actions, and the local updates after the server has unpublished or deleted
    posts. What the server answers, `window.confirm` and the clock are
    parameters; React's effects are applied at the end of the handler that
    triggers them. */
module DashboardPostIndex {
  import opened Wrappers
  import opened JsText
  import opened IdLists

  datatype DashboardPost = DashboardPost(
    id: string, title: string, slug: string, published: bool,
    publishedAt: Option<string>, updatedAt: string)

  datatype StatusFilter = All | PublishedOnly | DraftOnly

  const PageSize: nat := 20

  // ---------------------------------------------------------------------------
  // Filtering

  /** The status filter alone. */
  predicate StatusOk(post: DashboardPost, filter: StatusFilter)
  {
    match filter
    case All => true
    case PublishedOnly => post.published
    case DraftOnly => !post.published
  }

  /** What the query is looked up in: the title (or `untitled`) and the slug,
      lowercased. */
  function Haystack(post: DashboardPost): string
  {
    Lower((if post.title == "" then "untitled" else post.title) + " " + post.slug)
  }

  /** The search term: the query trimmed and lowercased. */
  function Needle(query: string): string
  {
    Lower(Trim(query))
  }

  /** `filteredPosts`: the posts that pass the status filter and, unless the
      search term is blank, whose haystack includes it, in their order. */
  function FilterPosts(posts: seq<DashboardPost>, filter: StatusFilter, needle: string): (r: seq<DashboardPost>)
    ensures |r| <= |posts|
    ensures forall p :: p in r <==> p in posts && StatusOk(p, filter) && (needle == "" || Contains(Haystack(p), needle))
    ensures filter == All && needle == "" ==> r == posts
  {
    if posts == [] then []
    else
      var p := posts[0];
      var keep := StatusOk(p, filter) && (needle == "" || Contains(Haystack(p), needle));
      (if keep then [p] else []) + FilterPosts(posts[1..], filter, needle)
  }

  /** Filtering distributes over concatenation, so the list keeps its order. */
  lemma {:induction false} FilterPostsAppend(posts: seq<DashboardPost>, more: seq<DashboardPost>,
                                             filter: StatusFilter, needle: string)
    ensures FilterPosts(posts + more, filter, needle) == FilterPosts(posts, filter, needle) + FilterPosts(more, filter, needle)
    decreases |posts|
  {
    if posts == [] {
      assert posts + more == more;
    } else {
      var whole := posts + more;
      HeadOfPosts(posts, more, whole);
      FilterPostsAppend(posts[1..], more, filter, needle);
      FilterPostsStep(posts, filter, needle);
      FilterPostsStep(whole, filter, needle);
      RegroupPosts(PassesFilter(posts[0], filter, needle), FilterPosts(posts[1..], filter, needle), FilterPosts(more, filter, needle));
    }
  }

  /** What the first post adds to the filtered list. */
  function PassesFilter(p: DashboardPost, filter: StatusFilter, needle: string): seq<DashboardPost>
  {
    if StatusOk(p, filter) && (needle == "" || Contains(Haystack(p), needle)) then [p] else []
  }

  lemma HeadOfPosts(posts: seq<DashboardPost>, more: seq<DashboardPost>, whole: seq<DashboardPost>)
    requires posts != [] && whole == posts + more
    ensures whole[0] == posts[0] && whole[1..] == posts[1..] + more
  {
  }

  lemma RegroupPosts(a: seq<DashboardPost>, b: seq<DashboardPost>, c: seq<DashboardPost>)
    ensures a + (b + c) == (a + b) + c
  {
  }

  lemma FilterPostsStep(posts: seq<DashboardPost>, filter: StatusFilter, needle: string)
    requires posts != []
    ensures FilterPosts(posts, filter, needle) == PassesFilter(posts[0], filter, needle) + FilterPosts(posts[1..], filter, needle)
  {
  }

  // ---------------------------------------------------------------------------
  // Paging

  /** `Math.max(1, Math.ceil(n / 20))`: the fewest pages of 20 that hold `n`
      posts, and at least one. */
  function TotalPages(n: nat): (r: nat)
    ensures r >= 1 && n <= r * PageSize
    ensures r == 1 || (r - 1) * PageSize < n
  {
    if n == 0 then 1 else (n + PageSize - 1) / PageSize
  }

  /** `slice((page - 1) * 20, (page - 1) * 20 + 20)`. */
  function PageOf<T>(items: seq<T>, page: nat): (r: seq<T>)
    requires page >= 1
    ensures |r| <= PageSize
    ensures var start := (page - 1) * PageSize;
            && (start <= |items| ==> r == items[start..if start + PageSize <= |items| then start + PageSize else |items|])
            && (start >= |items| ==> r == [])
  {
    var start := (page - 1) * PageSize;
    if start >= |items| then []
    else if start + PageSize <= |items| then items[start..start + PageSize]
    else items[start..]
  }

  /** Pages 1 to `k`, one after the other. */
  function PagesUpTo<T>(items: seq<T>, k: nat): seq<T>
  {
    if k == 0 then [] else PagesUpTo(items, k - 1) + PageOf(items, k)
  }

  /** A prefix followed by the next slice is the longer prefix. */
  lemma PrefixThenSlice<T>(items: seq<T>, a: nat, b: nat)
    requires a <= b <= |items|
    ensures items[..a] + items[a..b] == items[..b]
  {
  }

  /** The first `k` pages are the first `20 * k` items. */
  lemma {:induction false} PagesUpToPrefix<T>(items: seq<T>, k: nat)
    ensures PagesUpTo(items, k) == items[..if k * PageSize <= |items| then k * PageSize else |items|]
  {
    if k > 0 {
      PagesUpToPrefix(items, k - 1);
      var start := (k - 1) * PageSize;
      assert k * PageSize == start + PageSize;
      if start <= |items| {
        var stop := if start + PageSize <= |items| then start + PageSize else |items|;
        PrefixThenSlice(items, start, stop);
      } else {
        assert PageOf(items, k) == [];
      }
    }
  }

  /** The pages partition the list: read in order, pages 1 to `TotalPages`
      give back every filtered post exactly once and nothing else. */
  lemma PagesPartition<T>(items: seq<T>)
    ensures PagesUpTo(items, TotalPages(|items|)) == items
  {
    PagesUpToPrefix(items, TotalPages(|items|));
  }

  /** Item `i` sits on page `i / 20 + 1`, at position `i % 20`. */
  lemma ItemPage<T>(items: seq<T>, i: nat)
    requires i < |items|
    ensures var page := i / PageSize + 1;
            page <= TotalPages(|items|) && i % PageSize < |PageOf(items, page)|
            && PageOf(items, page)[i % PageSize] == items[i]
  {
  }

  // ---------------------------------------------------------------------------
  // Bulk-action eligibility

  /** `posts.filter(post => selectedSet.has(post.id))`. */
  function SelectedPosts(posts: seq<DashboardPost>, selected: seq<string>): (r: seq<DashboardPost>)
    ensures |r| <= |posts|
    ensures forall p :: p in r <==> p in posts && p.id in selected
  {
    if posts == [] then []
    else (if posts[0].id in selected then [posts[0]] else []) + SelectedPosts(posts[1..], selected)
  }

  /** The selection filter distributes over concatenation, so it keeps the
      posts' order. */
  lemma {:induction false} SelectedPostsAppend(posts: seq<DashboardPost>, more: seq<DashboardPost>, selected: seq<string>)
    ensures SelectedPosts(posts + more, selected) == SelectedPosts(posts, selected) + SelectedPosts(more, selected)
    decreases |posts|
  {
    if posts == [] {
      assert posts + more == more;
    } else {
      assert (posts + more)[0] == posts[0] && (posts + more)[1..] == posts[1..] + more;
      SelectedPostsAppend(posts[1..], more, selected);
    }
  }

  function PublishedCount(posts: seq<DashboardPost>): (r: nat)
    ensures r <= |posts|
  {
    if posts == [] then 0 else (if posts[0].published then 1 else 0) + PublishedCount(posts[1..])
  }

  /** The count is positive exactly when some post is published, and falls
      short of the length exactly when some post is a draft. */
  lemma {:induction false} PublishedCountSpec(posts: seq<DashboardPost>)
    ensures PublishedCount(posts) > 0 <==> exists p :: p in posts && p.published
    ensures PublishedCount(posts) < |posts| <==> exists p :: p in posts && !p.published
  {
    if posts != [] {
      PublishedCountSpec(posts[1..]);
      assert forall p :: p in posts <==> p == posts[0] || p in posts[1..];
    }
  }

  /** `canBulkUnpublish`: some selected post is published and no bulk action runs. */
  function CanBulkUnpublish(posts: seq<DashboardPost>, selected: seq<string>, running: bool): (r: bool)
    ensures r <==> !running && exists p :: p in posts && p.id in selected && p.published
  {
    var chosen := SelectedPosts(posts, selected);
    PublishedCountSpec(chosen);
    PublishedCount(chosen) > 0 && !running
  }

  /** `canBulkDelete`: some selected post is a draft, no selected post is
      published, and no bulk action runs. */
  function CanBulkDelete(posts: seq<DashboardPost>, selected: seq<string>, running: bool): (r: bool)
    ensures r <==> && !running
                   && (exists p :: p in posts && p.id in selected && !p.published)
                   && (forall p :: p in posts && p.id in selected ==> !p.published)
  {
    var chosen := SelectedPosts(posts, selected);
    PublishedCountSpec(chosen);
    var published := PublishedCount(chosen);
    |chosen| - published > 0 && published == 0 && !running
  }

  // ---------------------------------------------------------------------------
  // Local updates after the server answered

  /** `updatePostAsUnpublished`: the listed posts become drafts with no
      publication time and the given update time; the others stay as they are. */
  function MarkUnpublished(posts: seq<DashboardPost>, ids: set<string>, now: string): (r: seq<DashboardPost>)
    ensures |r| == |posts|
    ensures forall i :: 0 <= i < |posts| ==>
              if posts[i].id in ids
              then r[i] == posts[i].(published := false, publishedAt := None, updatedAt := now)
              else r[i] == posts[i]
  {
    seq(|posts|, i requires 0 <= i < |posts| =>
      if posts[i].id in ids then posts[i].(published := false, publishedAt := None, updatedAt := now)
      else posts[i])
  }

  /** `current.filter(post => !idSet.has(post.id))`. */
  function DropPosts(posts: seq<DashboardPost>, ids: set<string>): (r: seq<DashboardPost>)
    ensures |r| <= |posts|
    ensures forall p :: p in r <==> p in posts && p.id !in ids
  {
    if posts == [] then []
    else (if posts[0].id in ids then [] else [posts[0]]) + DropPosts(posts[1..], ids)
  }

  /** Dropping distributes over concatenation, so the remaining posts keep
      their order. */
  lemma {:induction false} DropPostsAppend(posts: seq<DashboardPost>, more: seq<DashboardPost>, ids: set<string>)
    ensures DropPosts(posts + more, ids) == DropPosts(posts, ids) + DropPosts(more, ids)
    decreases |posts|
  {
    if posts == [] {
      assert posts + more == more;
    } else {
      assert (posts + more)[0] == posts[0] && (posts + more)[1..] == posts[1..] + more;
      DropPostsAppend(posts[1..], more, ids);
    }
  }

  /** The ids of some posts, in order. */
  function Ids(posts: seq<DashboardPost>): (r: seq<string>)
    ensures |r| == |posts|
    ensures forall i :: 0 <= i < |posts| ==> r[i] == posts[i].id
  {
    seq(|posts|, i requires 0 <= i < |posts| => posts[i].id)
  }

  /** What the bulk delete handler ends with. */
  datatype BulkOutcome =
    | NothingSelected    // no request
    | BlockedByPublished // a selected post is published: no request
    | NotConfirmed       // the confirmation was declined: no request
    | Failed             // the server refused, or deleted nothing
    | Done(affected: seq<string>)

  /** The dashboard's state. */
  class Dashboard {
    var posts: seq<DashboardPost>
    var query: string
    var statusFilter: StatusFilter
    var selectionMode: bool
    var currentPage: nat
    var selectedIds: seq<string>

    function Filtered(): seq<DashboardPost>
      reads this
    {
      FilterPosts(posts, statusFilter, Needle(query))
    }

    function PageCount(): nat
      reads this
    {
      TotalPages(|Filtered()|)
    }

    /** `allVisibleIds`: the ids on the current page. */
    function VisibleIds(): seq<string>
      reads this
      requires currentPage >= 1
    {
      Ids(PageOf(Filtered(), currentPage))
    }

    /** The page is one of the pages, and the selection lists no id twice. */
    predicate Valid()
      reads this
    {
      1 <= currentPage <= PageCount() && NoDup(selectedIds)
    }

    constructor(initialPosts: seq<DashboardPost>)
      ensures posts == initialPosts && query == "" && statusFilter == All
      ensures !selectionMode && currentPage == 1 && selectedIds == []
      ensures Valid()
    {
      posts := initialPosts;
      query := "";
      statusFilter := All;
      selectionMode := false;
      currentPage := 1;
      selectedIds := [];
    }

    /** The effect on `totalPages`: the page is clamped to the last page. */
    method ClampPage()
      requires currentPage >= 1 && NoDup(selectedIds)
      modifies this`currentPage
      ensures currentPage == if old(currentPage) <= PageCount() then old(currentPage) else PageCount()
      ensures Valid()
    {
      if currentPage > PageCount() {
        currentPage := PageCount();
      }
    }

    /** Typing in the search box: a changed query sends the view back to page 1. */
    method SetQuery(q: string)
      requires Valid()
      modifies this`query, this`currentPage
      ensures query == q
      ensures currentPage == if q != old(query) then 1 else old(currentPage)
      ensures Valid()
    {
      if q != query {
        query := q;
        currentPage := 1;
      }
    }

    /** Picking a status: a changed filter sends the view back to page 1. */
    method SetStatusFilter(f: StatusFilter)
      requires Valid()
      modifies this`statusFilter, this`currentPage
      ensures statusFilter == f
      ensures currentPage == if f != old(statusFilter) then 1 else old(currentPage)
      ensures Valid()
    {
      if f != statusFilter {
        statusFilter := f;
        currentPage := 1;
      }
    }

    method PreviousPage()
      requires Valid()
      modifies this`currentPage
      ensures currentPage == if old(currentPage) > 1 then old(currentPage) - 1 else 1
      ensures Valid()
    {
      if currentPage > 1 {
        currentPage := currentPage - 1;
      }
    }

    method NextPage()
      requires Valid()
      modifies this`currentPage
      ensures currentPage == if old(currentPage) < PageCount() then old(currentPage) + 1 else PageCount()
      ensures Valid()
    {
      if currentPage < PageCount() {
        currentPage := currentPage + 1;
      }
    }

    /** Leaving selection mode clears the selection. */
    method ToggleSelectionMode()
      requires Valid()
      modifies this`selectionMode, this`selectedIds
      ensures selectionMode == !old(selectionMode)
      ensures selectedIds == if selectionMode then old(selectedIds) else []
      ensures Valid()
    {
      selectionMode := !selectionMode;
      if !selectionMode {
        selectedIds := [];
      }
    }

    /** `toggleSelection`: checking adds the id at the end unless it is already
        there; unchecking removes it. */
    method ToggleSelection(id: string, checked: bool)
      requires Valid()
      modifies this`selectedIds
      ensures checked && id in old(selectedIds) ==> selectedIds == old(selectedIds)
      ensures checked && id !in old(selectedIds) ==> selectedIds == old(selectedIds) + [id]
      ensures !checked ==> selectedIds == Without(old(selectedIds), {id})
      ensures forall x :: x in selectedIds <==> if x == id then checked else x in old(selectedIds)
      ensures Valid()
    {
      if checked {
        if id !in selectedIds {
          selectedIds := selectedIds + [id];
        }
      } else {
        selectedIds := Without(selectedIds, {id});
      }
    }

    /** `toggleAllVisible`: checking appends the visible ids not yet selected
        (the selection keeps its order in front); unchecking removes exactly
        the visible ids. */
    method ToggleAllVisible(checked: bool)
      requires Valid()
      modifies this`selectedIds
      ensures var visible := VisibleIds();
              checked ==> selectedIds == old(selectedIds) + DedupFrom(visible, ToSet(old(selectedIds)))
      ensures forall x :: x in selectedIds <==>
                if x in VisibleIds() then checked else x in old(selectedIds)
      ensures Valid()
    {
      var visible := VisibleIds();
      if checked {
        DedupAppend(selectedIds, visible, {});
        assert {} + ToSet(selectedIds) == ToSet(selectedIds);
        selectedIds := Dedup(selectedIds + visible);
      } else {
        selectedIds := Without(selectedIds, ToSet(visible));
      }
    }

    /** `updatePostAsUnpublished`, followed by the page clamp. */
    method UpdatePostAsUnpublished(ids: seq<string>, now: string)
      requires Valid()
      modifies this`posts, this`currentPage
      ensures posts == MarkUnpublished(old(posts), ToSet(ids), now)
      ensures currentPage == if old(currentPage) <= PageCount() then old(currentPage) else PageCount()
      ensures Valid()
    {
      posts := MarkUnpublished(posts, ToSet(ids), now);
      ClampPage();
    }

    /** `removePosts`: the ids leave both the posts and the selection; then the
        page clamp. */
    method RemovePosts(ids: seq<string>)
      requires Valid()
      modifies this`posts, this`selectedIds, this`currentPage
      ensures posts == DropPosts(old(posts), ToSet(ids))
      ensures selectedIds == Without(old(selectedIds), ToSet(ids))
      ensures currentPage == if old(currentPage) <= PageCount() then old(currentPage) else PageCount()
      ensures Valid()
    {
      posts := DropPosts(posts, ToSet(ids));
      selectedIds := Without(selectedIds, ToSet(ids));
      ClampPage();
    }

    /** The row action "unpublish": on success the post becomes a draft. */
    method HandleUnpublish(id: string, ok: bool, now: string)
      requires Valid()
      modifies this`posts, this`currentPage
      ensures ok ==> posts == MarkUnpublished(old(posts), {id}, now)
      ensures !ok ==> posts == old(posts) && currentPage == old(currentPage)
      ensures Valid()
    {
      if ok {
        assert ToSet([id]) == {id};
        UpdatePostAsUnpublished([id], now);
      }
    }

    /** The row action "delete": only after confirmation, and on success the
        post leaves the list and the selection. */
    method HandleDelete(id: string, confirmed: bool, ok: bool)
      requires Valid()
      modifies this`posts, this`selectedIds, this`currentPage
      ensures confirmed && ok ==> posts == DropPosts(old(posts), {id}) && selectedIds == Without(old(selectedIds), {id})
      ensures !(confirmed && ok) ==> posts == old(posts) && selectedIds == old(selectedIds)
      ensures Valid()
    {
      if confirmed && ok {
        assert ToSet([id]) == {id};
        RemovePosts([id]);
      }
    }

    /** `handleBulkUnpublish`: with a selection, the server's `affected_ids`
        (`None` when the request failed) become drafts and leave the selection. */
    method HandleBulkUnpublish(response: Option<seq<string>>, now: string) returns (requested: bool)
      requires Valid()
      modifies this`posts, this`selectedIds, this`currentPage
      ensures requested <==> old(selectedIds) != []
      ensures requested && response.Some? ==>
                && posts == MarkUnpublished(old(posts), ToSet(response.value), now)
                && selectedIds == Without(old(selectedIds), ToSet(response.value))
      ensures !requested || response.None? ==> posts == old(posts) && selectedIds == old(selectedIds)
      ensures Valid()
    {
      requested := selectedIds != [];
      if !requested || response.None? {
        return;
      }
      var affected := response.value;
      UpdatePostAsUnpublished(affected, now);
      selectedIds := Without(selectedIds, ToSet(affected));
    }

    /** `handleBulkDelete`: nothing is requested without a selection, while a
        selected post is published, or without confirmation. A failed request,
        or one that deleted nothing, changes nothing; otherwise the deleted ids
        leave the posts and the selection. */
    method HandleBulkDelete(confirmed: bool, response: Result<seq<string>, string>) returns (outcome: BulkOutcome)
      requires Valid()
      modifies this`posts, this`selectedIds, this`currentPage
      ensures old(selectedIds) == [] ==> outcome == NothingSelected
      ensures (old(selectedIds) != [] && exists p :: p in old(posts) && p.id in old(selectedIds) && p.published)
                ==> outcome == BlockedByPublished
      ensures old(selectedIds) != [] && (forall p :: p in old(posts) && p.id in old(selectedIds) ==> !p.published) ==>
                outcome == if !confirmed then NotConfirmed
                           else if response.Err? || response.value == [] then Failed
                           else Done(response.value)
      ensures outcome.Done? ==>
                && (forall p :: p in old(posts) && p.id in old(selectedIds) ==> !p.published)
                && confirmed && response == Ok(outcome.affected) && outcome.affected != []
                && posts == DropPosts(old(posts), ToSet(outcome.affected))
                && selectedIds == Without(old(selectedIds), ToSet(outcome.affected))
      ensures !outcome.Done? ==> posts == old(posts) && selectedIds == old(selectedIds)
      ensures Valid()
    {
      if selectedIds == [] {
        return NothingSelected;
      }
      var chosen := SelectedPosts(posts, selectedIds);
      PublishedCountSpec(chosen);
      if PublishedCount(chosen) > 0 {
        return BlockedByPublished;
      }
      if !confirmed {
        return NotConfirmed;
      }
      if response.Err? || response.value == [] {
        return Failed;
      }
      RemovePosts(response.value);
      outcome := Done(response.value);
    }
  }
}
