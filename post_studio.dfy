/** The authoring studio's client state (`src/components/blog/PostStudio.tsx`):
    the list of the author's posts, the selected post, the edit/preview mode, the
    save status and the local recovery store keyed by post id. Every handler is a
    method of `Studio`; what the server answers, what `window.confirm` answers and
    the clock are parameters. */
module PostStudio {
  import opened Wrappers
  import opened JsText

  datatype SaveStatus = Idle | Saving | Saved | Error
  datatype Mode = Edit | Preview
  datatype SaveMode = Direct | DraftUpdate

  /** A post as the studio holds it. `None` is `null` (or an absent field). */
  datatype StudioPost = StudioPost(
    id: string, title: string, slug: string, content: Option<string>,
    liveTitle: Option<string>, liveContent: Option<string>,
    published: bool, publishedAt: Option<string>,
    hasPendingChanges: Option<bool>, pendingTitle: Option<string>,
    pendingContent: Option<string>, pendingUpdatedAt: Option<string>,
    updatedAt: string)

  /** A post as `GET /api/posts/:id` returns it: every field may be missing. */
  datatype LoadedPost = LoadedPost(
    title: Option<string>, slug: Option<string>, content: Option<string>,
    liveTitle: Option<string>, liveContent: Option<string>,
    published: Option<bool>, publishedAt: Option<string>,
    hasPendingChanges: Option<bool>, pendingTitle: Option<string>,
    pendingContent: Option<string>, pendingUpdatedAt: Option<string>,
    updatedAt: Option<string>)

  /** The fields of a recovery entry that `JSON.parse` read as an object:
      fields of the wrong type are missing. */
  datatype LocalDraft = LocalDraft(
    title: Option<string>, content: Option<string>, published: Option<bool>, savedAt: Option<string>)

  /** A recovery entry as `JSON.parse` reads it: text that is not JSON, the
      value `null`, another value without the draft's fields (a number, a
      string, a boolean or an array), or an object. */
  datatype StoredDraft = Unparsable | NullEntry | Scalar | Stored(draft: LocalDraft)

  /** Reading `title` from the parsed entry throws: the restore check's `catch`
      runs and removes the entry. */
  predicate ReadThrows(e: StoredDraft)
  {
    e.Unparsable? || e.NullEntry?
  }

  /** `toContentString`: `content ?? ''`. */
  function ContentString(content: Option<string>): string
  {
    content.GetOr("")
  }

  /** The save mode when the caller names none: a published post saves as a
      draft update, any other post saves directly. */
  function ResolveSaveMode(requested: Option<SaveMode>, published: bool): (m: SaveMode)
    ensures requested.Some? ==> m == requested.value
    ensures requested.None? ==> (m == DraftUpdate <==> published)
  {
    if requested.Some? then requested.value else if published then DraftUpdate else Direct
  }

  /** The per-post updates the handlers apply through `posts.map`. */
  datatype Change =
    | SetTitle(value: string, now: string)
    | SetContent(value: string, now: string)
    | PendingSaved(now: string)
    | DirectSaved(now: string)
    | MarkPublished(at: string)
    | MarkUnpublished(now: string)
    | Restore(title: string, content: string, published: bool, now: string)
    | Refresh(loaded: LoadedPost, now: string)
    | LoadContent(loaded: LoadedPost)

  function ApplyChange(p: StudioPost, c: Change): (q: StudioPost)
    ensures q.id == p.id
  {
    match c
    case SetTitle(v, now) => p.(title := v, updatedAt := now)
    case SetContent(v, now) => p.(content := Some(v), updatedAt := now)
    case PendingSaved(now) =>
      p.(hasPendingChanges := Some(true), pendingTitle := Some(p.title),
         pendingContent := Some(ContentString(p.content)), pendingUpdatedAt := Some(now), updatedAt := now)
    case DirectSaved(now) =>
      p.(liveTitle := Some(p.title), liveContent := Some(ContentString(p.content)),
         hasPendingChanges := Some(false), pendingTitle := None, pendingContent := None,
         pendingUpdatedAt := None, updatedAt := now)
    case MarkPublished(at) => p.(published := true, publishedAt := Some(at), updatedAt := at)
    case MarkUnpublished(now) => p.(published := false, publishedAt := None, updatedAt := now)
    case Restore(t, body, pub, now) => p.(title := t, content := Some(body), published := pub, updatedAt := now)
    case Refresh(l, now) =>
      p.(title := l.title.GetOr(p.title),
         content := Some(l.content.GetOr(ContentString(p.content))),
         liveTitle := Some(l.liveTitle.GetOr(l.title.GetOr(p.title))),
         liveContent := Some(l.liveContent.GetOr(l.content.GetOr(ContentString(p.content)))),
         hasPendingChanges := Some(false), pendingTitle := None, pendingContent := None,
         pendingUpdatedAt := None, updatedAt := l.updatedAt.GetOr(now))
    case LoadContent(l) =>
      p.(content := Some(l.content.GetOr("")),
         liveTitle := Some(l.liveTitle.GetOr(l.title.GetOr(p.title))),
         liveContent := Some(l.liveContent.GetOr(l.content.GetOr(ContentString(p.content)))),
         title := l.title.GetOr(p.title), slug := l.slug.GetOr(p.slug),
         published := l.published.GetOr(p.published),
         publishedAt := if l.publishedAt.Some? then l.publishedAt else p.publishedAt,
         hasPendingChanges := Some(l.hasPendingChanges.GetOr(false)),
         pendingTitle := l.pendingTitle, pendingContent := l.pendingContent,
         pendingUpdatedAt := l.pendingUpdatedAt, updatedAt := l.updatedAt.GetOr(p.updatedAt))
  }

  /** `posts.map(post => post.id === id ? change(post) : post)`. */
  function MapPost(posts: seq<StudioPost>, id: string, c: Change): (r: seq<StudioPost>)
    ensures |r| == |posts|
    ensures forall i :: 0 <= i < |posts| ==> r[i] == if posts[i].id == id then ApplyChange(posts[i], c) else posts[i]
  {
    seq(|posts|, i requires 0 <= i < |posts| => if posts[i].id == id then ApplyChange(posts[i], c) else posts[i])
  }

  /** `posts.find(post => post.id === id) ?? null`. */
  function Find(posts: seq<StudioPost>, id: string): (r: Option<StudioPost>)
    ensures r.Some? ==> r.value in posts && r.value.id == id
    ensures r.None? <==> forall i :: 0 <= i < |posts| ==> posts[i].id != id
    decreases |posts|
  {
    if posts == [] then None
    else if posts[0].id == id then Some(posts[0])
    else Find(posts[1..], id)
  }

  /** `posts.filter(post => post.id !== id)`. */
  function Without(posts: seq<StudioPost>, id: string): (r: seq<StudioPost>)
    ensures forall i :: 0 <= i < |r| ==> r[i].id != id && r[i] in posts
    ensures forall p :: p in posts && p.id != id ==> p in r
    decreases |posts|
  {
    if posts == [] then []
    else if posts[0].id == id then Without(posts[1..], id)
    else [posts[0]] + Without(posts[1..], id)
  }

  /** Removal distributes over concatenation, so the remaining posts keep
      their order. */
  lemma {:induction false} WithoutAppend(posts: seq<StudioPost>, more: seq<StudioPost>, id: string)
    ensures Without(posts + more, id) == Without(posts, id) + Without(more, id)
    decreases |posts|
  {
    if posts == [] {
      assert posts + more == more;
    } else {
      assert (posts + more)[0] == posts[0] && (posts + more)[1..] == posts[1..] + more;
      WithoutAppend(posts[1..], more, id);
    }
  }

  /** The first post left after a removal is the first post with another id. */
  lemma {:induction false} WithoutHead(posts: seq<StudioPost>, id: string) returns (j: nat)
    requires exists i :: 0 <= i < |posts| && posts[i].id != id
    ensures j < |posts| && posts[j].id != id && Without(posts, id) != [] && Without(posts, id)[0] == posts[j]
    ensures forall i :: 0 <= i < j ==> posts[i].id == id
    decreases |posts|
  {
    if posts[0].id != id {
      j := 0;
    } else {
      var i :| 0 <= i < |posts| && posts[i].id != id;
      assert posts[1..][i - 1] == posts[i];
      var k := WithoutHead(posts[1..], id);
      j := k + 1;
      forall i | 0 <= i < j ensures posts[i].id == id {
        if i > 0 {
          assert posts[i] == posts[1..][i - 1];
        }
      }
    }
  }

  /** The text the palette searches: the title, or `untitled` for an empty one,
      lower-cased. */
  function PaletteText(p: StudioPost): string
  {
    Lower(if p.title != "" then p.title else "untitled")
  }

  /** The posts whose palette text contains `needle`, in list order. */
  function TitleMatches(posts: seq<StudioPost>, needle: string): seq<StudioPost>
    decreases |posts|
  {
    if posts == [] then []
    else (if Contains(PaletteText(posts[0]), needle) then [posts[0]] else []) + TitleMatches(posts[1..], needle)
  }

  lemma {:induction false} TitleMatchesMembers(posts: seq<StudioPost>, needle: string)
    ensures forall p :: p in TitleMatches(posts, needle) <==> p in posts && Contains(PaletteText(p), needle)
    decreases |posts|
  {
    if posts != [] {
      TitleMatchesMembers(posts[1..], needle);
      forall p ensures p in posts <==> p == posts[0] || p in posts[1..] {
        if p in posts {
          var i :| 0 <= i < |posts| && posts[i] == p;
          if i > 0 {
            assert posts[1..][i - 1] == p;
          }
        }
      }
    }
  }

  lemma {:induction false} TitleMatchesAppend(posts: seq<StudioPost>, more: seq<StudioPost>, needle: string)
    ensures TitleMatches(posts + more, needle) == TitleMatches(posts, needle) + TitleMatches(more, needle)
    decreases |posts|
  {
    if posts == [] {
      assert posts + more == more;
    } else {
      var whole := posts + more;
      assert whole[0] == posts[0] && whole[1..] == posts[1..] + more;
      TitleMatchesAppend(posts[1..], more, needle);
      var kept := if Contains(PaletteText(posts[0]), needle) then [posts[0]] else [];
      var tail, rest := TitleMatches(posts[1..], needle), TitleMatches(more, needle);
      assert TitleMatches(whole, needle) == kept + (tail + rest);
      assert kept + (tail + rest) == (kept + tail) + rest;
    }
  }

  /** The command palette's list: every post for a blank query, else the posts whose
      `title || 'untitled'` contains the trimmed, lower-cased query. */
  function CommandFilter(posts: seq<StudioPost>, query: string): (r: seq<StudioPost>)
    ensures Lower(Trim(query)) == "" ==> r == posts
    ensures forall p :: p in r ==> p in posts
    ensures Lower(Trim(query)) != "" ==> forall p :: p in r <==>
              p in posts && Contains(Lower(if p.title != "" then p.title else "untitled"), Lower(Trim(query)))
  {
    var normalized := Lower(Trim(query));
    if normalized == "" then posts
    else
      TitleMatchesMembers(posts, normalized);
      TitleMatches(posts, normalized)
  }

  /** The palette's filter distributes over concatenation, so the palette
      keeps the posts' order. */
  lemma CommandFilterAppend(posts: seq<StudioPost>, more: seq<StudioPost>, query: string)
    ensures CommandFilter(posts + more, query) == CommandFilter(posts, query) + CommandFilter(more, query)
  {
    if Lower(Trim(query)) != "" {
      TitleMatchesAppend(posts, more, Lower(Trim(query)));
    }
  }

  /** What a successful `JSON.parse` of a recovery entry offers to restore: the
      stored title and content (each falling back to the post's own), and only
      when one of them differs from what the post holds. */
  function RestoreOffer(post: StudioPost, d: LocalDraft): (r: Option<(string, string, bool)>)
    ensures r.Some? <==> d.title.GetOr(post.title) != post.title
                         || d.content.GetOr(ContentString(post.content)) != ContentString(post.content)
    ensures r.Some? ==> r.value == (d.title.GetOr(post.title), d.content.GetOr(ContentString(post.content)),
                                    d.published.GetOr(post.published))
  {
    var title := d.title.GetOr(post.title);
    var content := d.content.GetOr(ContentString(post.content));
    if title != post.title || content != ContentString(post.content)
    then Some((title, content, d.published.GetOr(post.published)))
    else None
  }

  /** The recovery entry the autosave writes for a post. */
  function AutosaveEntry(post: StudioPost, now: string): LocalDraft
  {
    LocalDraft(Some(post.title), Some(ContentString(post.content)), Some(post.published), Some(now))
  }

  /** An entry autosaved from a post never offers a restore on that same post,
      and an entry whose title or content differs always does. */
  lemma AutosaveNeverOffersItself(post: StudioPost, now: string, edited: StudioPost)
    ensures RestoreOffer(post, AutosaveEntry(post, now)).None?
    ensures edited.title != post.title || ContentString(edited.content) != ContentString(post.content)
            ==> RestoreOffer(post, AutosaveEntry(edited, now))
                == Some((edited.title, ContentString(edited.content), edited.published))
  {
  }

  /** What `handleSavePost` sends: the post it saves, its title and content, its
      published flag and the resolved save mode. */
  datatype SaveTicket = SaveTicket(postId: string, title: string, content: string, published: bool, mode: SaveMode)

  /** A draft update of a published post keeps the reader-visible fields and
      stashes the current title and content as the pending change; a direct save
      makes them the reader-visible fields and clears every pending field. */
  lemma SaveChanges(p: StudioPost, now: string)
    ensures var q := ApplyChange(p, PendingSaved(now));
            q.liveTitle == p.liveTitle && q.liveContent == p.liveContent
            && q.title == p.title && q.content == p.content && q.published == p.published
            && q.hasPendingChanges == Some(true)
            && q.pendingTitle == Some(p.title) && q.pendingContent == Some(ContentString(p.content))
    ensures var q := ApplyChange(p, DirectSaved(now));
            q.liveTitle == Some(p.title) && q.liveContent == Some(ContentString(p.content))
            && q.title == p.title && q.content == p.content && q.published == p.published
            && q.hasPendingChanges == Some(false)
            && q.pendingTitle.None? && q.pendingContent.None? && q.pendingUpdatedAt.None?
  {
  }

  class Studio {
    var posts: seq<StudioPost>
    var selected: Option<string>
    var mode: Mode
    var status: SaveStatus
    /** The local recovery store, keyed by post id. */
    var drafts: map<string, StoredDraft>
    var lastSavedAt: Option<string>
    var lastDraftSavedAt: Option<string>
    /** The post whose recovery entry was last considered (`draftRestoredPostRef`). */
    var restoredFor: Option<string>

    /** `selectedPost`: the post with the selected id, if the list holds one. */
    function SelectedPost(): Option<StudioPost>
      reads this
    {
      if selected.None? then None else Find(posts, selected.value)
    }

    /** While there are unsaved edits, leaving the page asks for confirmation. */
    predicate GuardsUnload()
      reads this
    {
      status == Idle
    }

    /** The studio as first rendered, after the URL's `mode` and `post` parameters
        are read: the first post is selected unless the URL names another post of
        the list, and nothing is unsaved. */
    constructor (initialPosts: seq<StudioPost>, stored: map<string, StoredDraft>,
                 modeParam: Option<string>, postParam: Option<string>)
      ensures posts == initialPosts && drafts == stored && status == Saved
      ensures mode == (if modeParam == Some("preview") then Preview else Edit)
      ensures postParam.Some? && postParam.value != "" && Find(initialPosts, postParam.value).Some?
              ==> selected == postParam
      ensures !(postParam.Some? && postParam.value != "" && Find(initialPosts, postParam.value).Some?)
              ==> selected == (if initialPosts == [] then None else Some(initialPosts[0].id))
      ensures lastSavedAt.None? && lastDraftSavedAt.None? && restoredFor.None?
    {
      posts := initialPosts;
      drafts := stored;
      status := Saved;
      mode := if modeParam == Some("preview") then Preview else Edit;
      if postParam.Some? && postParam.value != "" && Find(initialPosts, postParam.value).Some? {
        selected := postParam;
      } else {
        selected := if initialPosts == [] then None else Some(initialPosts[0].id);
      }
      lastSavedAt, lastDraftSavedAt, restoredFor := None, None, None;
    }

    /** `confirmDiscardIfNeeded`: go ahead unless there are unsaved edits, in
        which case the user's answer decides. */
    method ConfirmDiscardIfNeeded(answer: bool) returns (proceed: bool)
      ensures proceed <==> status != Idle || answer
    {
      proceed := status != Idle || answer;
    }

    /** The preview button: switches to preview only when the discard check lets it. */
    method ShowPreview(answer: bool)
      modifies this`mode
      ensures mode == (if old(status) != Idle || answer then Preview else old(mode))
    {
      var proceed := ConfirmDiscardIfNeeded(answer);
      if proceed {
        mode := Preview;
      }
    }

    /** `handleTitleChange`: the selected post takes the new title and the studio
        has unsaved edits; no other post changes. */
    method EditTitle(value: string, now: string)
      modifies this
      ensures old(selected).None? ==> posts == old(posts) && status == old(status)
      ensures old(selected).Some? ==> status == Idle && posts == MapPost(old(posts), old(selected).value, SetTitle(value, now))
      ensures selected == old(selected) && mode == old(mode) && drafts == old(drafts)
      ensures lastSavedAt == old(lastSavedAt) && lastDraftSavedAt == old(lastDraftSavedAt) && restoredFor == old(restoredFor)
    {
      if selected.Some? {
        status := Idle;
        posts := MapPost(posts, selected.value, SetTitle(value, now));
      }
    }

    /** `handleContentChange`: as `EditTitle`, for the Markdown body. */
    method EditContent(value: string, now: string)
      modifies this
      ensures old(selected).None? ==> posts == old(posts) && status == old(status)
      ensures old(selected).Some? ==> status == Idle && posts == MapPost(old(posts), old(selected).value, SetContent(value, now))
      ensures selected == old(selected) && mode == old(mode) && drafts == old(drafts)
      ensures lastSavedAt == old(lastSavedAt) && lastDraftSavedAt == old(lastDraftSavedAt) && restoredFor == old(restoredFor)
    {
      if selected.Some? {
        status := Idle;
        posts := MapPost(posts, selected.value, SetContent(value, now));
      }
    }

    /** The first half of `handleSavePost`: with a selected post, the status
        becomes `saving` and the request is built from the post as it is now. */
    method BeginSave(requested: Option<SaveMode>) returns (ticket: Option<SaveTicket>)
      modifies this`status
      ensures old(SelectedPost()).None? ==> ticket.None? && status == old(status)
      ensures old(SelectedPost()).Some? ==>
                var p := old(SelectedPost()).value;
                status == Saving
                && ticket == Some(SaveTicket(p.id, p.title, ContentString(p.content), p.published,
                                             ResolveSaveMode(requested, p.published)))
    {
      var p := SelectedPost();
      if p.None? {
        return None;
      }
      status := Saving;
      ticket := Some(SaveTicket(p.value.id, p.value.title, ContentString(p.value.content), p.value.published,
                                ResolveSaveMode(requested, p.value.published)));
    }

    /** The second half of `handleSavePost`, once the server has answered `ok`.
        On success the status is `saved`, the post's recovery entry is gone and the
        post is updated from its current fields: a draft update of a published post
        records the pending change, any other save makes the content live. On
        failure only the status changes, to `error`. */
    method FinishSave(ticket: SaveTicket, ok: bool, now: string, switchToPreview: bool) returns (saved: bool)
      modifies this
      ensures saved == ok
      ensures !ok ==> status == Error && posts == old(posts) && drafts == old(drafts) && mode == old(mode)
                      && lastSavedAt == old(lastSavedAt) && lastDraftSavedAt == old(lastDraftSavedAt)
      ensures ok ==> status == Saved && drafts == old(drafts) - {ticket.postId}
                     && lastSavedAt == Some(now) && lastDraftSavedAt.None?
                     && mode == (if switchToPreview then Preview else old(mode))
      ensures ok && ticket.published && ticket.mode == DraftUpdate ==>
                posts == MapPost(old(posts), ticket.postId, PendingSaved(now))
      ensures ok && !(ticket.published && ticket.mode == DraftUpdate) ==>
                posts == MapPost(old(posts), ticket.postId, DirectSaved(now))
      ensures selected == old(selected) && restoredFor == old(restoredFor)
    {
      if !ok {
        status := Error;
        return false;
      }
      status := Saved;
      lastSavedAt := Some(now);
      lastDraftSavedAt := None;
      drafts := drafts - {ticket.postId};
      if ticket.published && ticket.mode == DraftUpdate {
        posts := MapPost(posts, ticket.postId, PendingSaved(now));
      } else {
        posts := MapPost(posts, ticket.postId, DirectSaved(now));
      }
      if switchToPreview {
        mode := Preview;
      }
      saved := true;
    }

    /** `handleSavePost` as one step: with no selected post nothing happens and
        the result is `false`; otherwise the save resolves as `FinishSave` says. */
    method SavePost(requested: Option<SaveMode>, ok: bool, now: string, switchToPreview: bool) returns (saved: bool)
      modifies this
      ensures old(SelectedPost()).None? ==> !saved && posts == old(posts) && status == old(status)
                                            && drafts == old(drafts) && mode == old(mode)
      ensures old(SelectedPost()).Some? ==>
                var p := old(SelectedPost()).value;
                var m := ResolveSaveMode(requested, p.published);
                saved == ok
                && (ok ==> status == Saved && drafts == old(drafts) - {p.id} && lastSavedAt == Some(now)
                           && posts == MapPost(old(posts), p.id,
                                               if p.published && m == DraftUpdate then PendingSaved(now) else DirectSaved(now)))
                && (!ok ==> status == Error && posts == old(posts) && drafts == old(drafts))
      ensures selected == old(selected) && restoredFor == old(restoredFor)
    {
      var ticket := BeginSave(requested);
      if ticket.None? {
        return false;
      }
      saved := FinishSave(ticket.value, ok, now, switchToPreview);
    }

    /** `handleSelectPost`: selecting nothing or the current post does nothing; a
        switch is refused while a save is running; with unsaved edits a silent save
        runs first and a failed save cancels the switch. A switch shows the new
        post in preview. */
    method SelectPost(next: string, saveOk: bool, now: string) returns (switched: bool)
      modifies this
      ensures switched <==> next != "" && old(selected) != Some(next) && old(status) != Saving
                            && (old(status) == Idle ==> old(SelectedPost()).Some? && saveOk)
      ensures switched ==> selected == Some(next) && mode == Preview
      ensures !switched ==> selected == old(selected)
      ensures (next == "" || old(selected) == Some(next) || old(status) == Saving) ==>
                posts == old(posts) && status == old(status) && mode == old(mode) && drafts == old(drafts)
      ensures old(status) != Idle ==> posts == old(posts) && drafts == old(drafts)
      ensures next != "" && old(selected) != Some(next) && old(status) == Idle && old(SelectedPost()).Some? && !saveOk ==>
                status == Error && posts == old(posts)
    {
      if next == "" || selected == Some(next) {
        return false;
      }
      if status == Saving {
        return false;
      }
      if status == Idle {
        var saved := SavePost(None, saveOk, now, false);
        if !saved {
          return false;
        }
      }
      selected := Some(next);
      mode := Preview;
      switched := true;
    }

    /** `handlePublish`: only an unpublished selected post is published; on
        success it is marked published at `now`, the status is `saved` and its
        recovery entry is gone; on failure nothing changes. */
    method Publish(ok: bool, now: string) returns (published: bool)
      modifies this
      ensures published <==> old(SelectedPost()).Some? && !old(SelectedPost()).value.published && ok
      ensures published ==> var id := old(SelectedPost()).value.id;
                posts == MapPost(old(posts), id, MarkPublished(now)) && status == Saved
                && drafts == old(drafts) - {id} && lastSavedAt == Some(now) && lastDraftSavedAt.None?
      ensures !published ==> posts == old(posts) && status == old(status) && drafts == old(drafts)
      ensures selected == old(selected) && mode == old(mode) && restoredFor == old(restoredFor)
    {
      var p := SelectedPost();
      if p.None? || p.value.published || !ok {
        return false;
      }
      posts := MapPost(posts, p.value.id, MarkPublished(now));
      status := Saved;
      lastSavedAt := Some(now);
      lastDraftSavedAt := None;
      drafts := drafts - {p.value.id};
      published := true;
    }

    /** `handleUnpublish`: only a published selected post, only after the user
        confirms; on success it is unpublished and the status is `saved`. */
    method Unpublish(answer: bool, ok: bool, now: string) returns (unpublished: bool)
      modifies this
      ensures unpublished <==> old(SelectedPost()).Some? && old(SelectedPost()).value.published && answer && ok
      ensures unpublished ==> posts == MapPost(old(posts), old(selected).value, MarkUnpublished(now))
                              && status == Saved && lastSavedAt == Some(now)
      ensures !unpublished ==> posts == old(posts) && status == old(status) && lastSavedAt == old(lastSavedAt)
      ensures selected == old(selected) && mode == old(mode) && drafts == old(drafts)
      ensures lastDraftSavedAt == old(lastDraftSavedAt) && restoredFor == old(restoredFor)
    {
      var p := SelectedPost();
      if p.None? || !p.value.published || !answer || !ok {
        return false;
      }
      posts := MapPost(posts, selected.value, MarkUnpublished(now));
      status := Saved;
      lastSavedAt := Some(now);
      unpublished := true;
    }

    /** `handleDeleteDraftPost`: only an unpublished selected post, only after the
        user confirms; on success the post leaves the list, the first remaining
        post (or none) is selected, the status is `saved` and its recovery entry
        is gone. */
    method DeleteDraft(answer: bool, ok: bool) returns (deleted: bool)
      modifies this
      ensures deleted <==> old(SelectedPost()).Some? && !old(SelectedPost()).value.published && answer && ok
      ensures deleted ==> var id := old(selected).value;
                posts == Without(old(posts), id)
                && selected == (if posts == [] then None else Some(posts[0].id))
                && status == Saved && drafts == old(drafts) - {id}
                && lastSavedAt.None? && lastDraftSavedAt.None?
      ensures !deleted ==> posts == old(posts) && selected == old(selected) && status == old(status)
                           && drafts == old(drafts)
      ensures mode == old(mode) && restoredFor == old(restoredFor)
    {
      var p := SelectedPost();
      if p.None? || p.value.published || !answer || !ok {
        return false;
      }
      var removed := selected.value;
      posts := Without(posts, removed);
      selected := if posts == [] then None else Some(posts[0].id);
      status := Saved;
      lastSavedAt := None;
      lastDraftSavedAt := None;
      drafts := drafts - {removed};
      deleted := true;
    }

    /** `handlePublishPendingUpdate` and `handleDiscardPendingUpdate`: after the
        PATCH succeeded and the post was fetched again, the post takes the fetched
        fields with the pending change cleared and the status is `saved`; if either
        request failed nothing changes. */
    method ApplyPendingAction(patchOk: bool, refreshed: Option<LoadedPost>, now: string) returns (applied: bool)
      modifies this
      ensures applied <==> old(selected).Some? && patchOk && refreshed.Some?
      ensures applied ==> posts == MapPost(old(posts), old(selected).value, Refresh(refreshed.value, now))
                          && status == Saved
      ensures !applied ==> posts == old(posts) && status == old(status)
      ensures selected == old(selected) && mode == old(mode) && drafts == old(drafts)
      ensures lastSavedAt == old(lastSavedAt) && lastDraftSavedAt == old(lastDraftSavedAt) && restoredFor == old(restoredFor)
    {
      if selected.None? || !patchOk || refreshed.None? {
        return false;
      }
      posts := MapPost(posts, selected.value, Refresh(refreshed.value, now));
      status := Saved;
      applied := true;
    }

    /** The body fetch for a selected post whose content is not loaded yet. */
    method LoadSelectedContent(response: Option<LoadedPost>) returns (failed: bool)
      modifies this`posts
      ensures var p := old(SelectedPost());
              (p.Some? && p.value.content.None? && response.Some? ==>
                 !failed && posts == MapPost(old(posts), old(selected).value, LoadContent(response.value)))
              && (failed <==> p.Some? && p.value.content.None? && response.None?)
              && (!(p.Some? && p.value.content.None? && response.Some?) ==> posts == old(posts))
    {
      var p := SelectedPost();
      if p.None? || p.value.content.Some? {
        return false;
      }
      if response.None? {
        return true;
      }
      posts := MapPost(posts, selected.value, LoadContent(response.value));
      failed := false;
    }

    /** The debounced autosave: in edit mode with unsaved edits, the selected
        post's title, content and published flag go to its recovery entry. */
    method Autosave(now: string)
      modifies this`drafts, this`lastDraftSavedAt
      ensures mode == Edit && status == Idle && old(SelectedPost()).Some? ==>
                drafts == old(drafts)[old(SelectedPost()).value.id := Stored(AutosaveEntry(old(SelectedPost()).value, now))]
                && lastDraftSavedAt == Some(now)
      ensures !(mode == Edit && status == Idle && old(SelectedPost()).Some?) ==>
                drafts == old(drafts) && lastDraftSavedAt == old(lastDraftSavedAt)
    {
      var p := SelectedPost();
      if mode == Edit && status == Idle && p.Some? {
        drafts := drafts[p.value.id := Stored(AutosaveEntry(p.value, now))];
        lastDraftSavedAt := Some(now);
      }
    }

    /** The effect that repairs a selection the list no longer holds: the first
        post, or none, is selected instead. No selection, or one the list still
        holds, stays as it is. */
    method Reselect()
      modifies this`selected
      ensures old(selected).Some? && old(selected).value != "" && old(SelectedPost()).None? ==>
                selected == (if posts == [] then None else Some(posts[0].id))
      ensures old(selected).None? || old(selected) == Some("") || old(SelectedPost()).Some? ==>
                selected == old(selected)
      ensures selected.Some? && selected.value != "" ==> SelectedPost().Some?
    {
      if selected.None? || selected.value == "" || Find(posts, selected.value).Some? {
        return;
      }
      selected := if posts == [] then None else Some(posts[0].id);
    }

    /** The draft-restore check, run when the selection or the posts change. It
        considers each selected post at most once; an entry whose fields cannot
        be read (not JSON, or `null`) is removed, while any other value is kept;
        a restore is offered only when the entry's title or content differs from
        the post's, and applied only when the user accepts it. */
    method CheckRestore(answer: bool, now: string) returns (offered: bool)
      modifies this
      ensures offered <==> (&& old(restoredFor) != old(selected) && old(SelectedPost()).Some?
                            && old(selected).value in old(drafts) && old(drafts)[old(selected).value].Stored?
                            && RestoreOffer(old(SelectedPost()).value, old(drafts)[old(selected).value].draft).Some?)
      ensures old(SelectedPost()).Some? ==> restoredFor == old(selected)
      ensures old(SelectedPost()).None? || old(restoredFor) == old(selected) ==> restoredFor == old(restoredFor)
      ensures offered && answer ==>
                var id := old(selected).value;
                var o := RestoreOffer(old(SelectedPost()).value, old(drafts)[id].draft).value;
                posts == MapPost(old(posts), id, Restore(o.0, o.1, o.2, now))
                && mode == Edit && status == Idle
                && lastDraftSavedAt == Some(old(drafts)[id].draft.savedAt.GetOr(now))
      ensures !(offered && answer) ==> posts == old(posts) && mode == old(mode) && status == old(status)
                                       && lastDraftSavedAt == old(lastDraftSavedAt)
      ensures var considered := old(SelectedPost()).Some? && old(restoredFor) != old(selected);
              drafts == if considered && old(selected).value in old(drafts) && ReadThrows(old(drafts)[old(selected).value])
                        then old(drafts) - {old(selected).value}
                        else old(drafts)
      ensures selected == old(selected) && lastSavedAt == old(lastSavedAt)
    {
      var p := SelectedPost();
      if p.None? || restoredFor == selected {
        return false;
      }
      var id := selected.value;
      restoredFor := selected;
      if id !in drafts {
        return false;
      }
      match drafts[id] {
        case Unparsable =>
          drafts := drafts - {id};
          return false;
        case NullEntry =>
          drafts := drafts - {id};
          return false;
        case Scalar =>
          // every field falls back to the post's own: nothing differs
          return false;
        case Stored(d) =>
          var o := RestoreOffer(p.value, d);
          if o.None? {
            return false;
          }
          offered := true;
          if answer {
            posts := MapPost(posts, id, Restore(o.value.0, o.value.1, o.value.2, now));
            mode := Edit;
            status := Idle;
            lastDraftSavedAt := Some(d.savedAt.GetOr(now));
          }
      }
    }
  }

  /** The error text of a failed request: the payload's `error` (or a generic
      line with the status), followed by its code and details when there are any;
      a body that is not JSON gives the generic line. */
  datatype ApiErrorPayload = ApiErrorPayload(error: Option<string>, code: Option<string>, details: Option<string>)

  function RequestFailed(status: nat): string
  {
    "Request failed (" + NatToString(status) + ")"
  }

  lemma JoinPair(parts: seq<string>, sep: string)
    requires |parts| == 2
    ensures Join(parts, sep) == parts[0] + sep + parts[1]
  {
    assert parts[1..] == [parts[1]];
  }

  function ReadApiError(payload: Option<ApiErrorPayload>, status: nat): (message: string)
    ensures payload.None? ==> message == RequestFailed(status)
    ensures payload.Some? && payload.value.error.GetOr("") != "" ==> StartsWith(message, payload.value.error.value)
    ensures payload.Some? && payload.value.error.GetOr("") == "" ==> StartsWith(message, RequestFailed(status))
    ensures payload.Some? && payload.value.code.GetOr("") == "" && payload.value.details.GetOr("") == "" ==>
              message == (if payload.value.error.GetOr("") != "" then payload.value.error.value else RequestFailed(status))
    ensures payload.Some? ==>
              var p := payload.value;
              var summary := if p.error.GetOr("") != "" then p.error.value else RequestFailed(status);
              && (p.code.GetOr("") != "" && p.details.GetOr("") != "" ==> message == summary + " - " + p.code.value + " " + p.details.value)
              && (p.code.GetOr("") != "" && p.details.GetOr("") == "" ==> message == summary + " - " + p.code.value)
              && (p.code.GetOr("") == "" && p.details.GetOr("") != "" ==> message == summary + " - " + p.details.value)
  {
    match payload
    case None => RequestFailed(status)
    case Some(p) =>
      var summary := if p.error.GetOr("") != "" then p.error.value else RequestFailed(status);
      var meta := (if p.code.GetOr("") != "" then [p.code.value] else [])
                  + (if p.details.GetOr("") != "" then [p.details.value] else []);
      var joined := Join(meta, " ");
      assert |meta| == 2 ==> summary + " - " + joined == summary + " - " + meta[0] + " " + meta[1] by {
        if |meta| == 2 {
          JoinPair(meta, " ");
        }
      }
      if joined != "" then summary + " - " + joined else summary
  }
}
