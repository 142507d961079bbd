/** The post tools of the MCP endpoint (`src/lib/mcp/posts.ts`): search the
    caller's own posts, read one of them, and create a draft. The store is a set
    of query oracles (reads) and an insert oracle (create); the helpers
    `sanitizeSearch`, `hasHangul`, `excerpt` and `slugifyTitle` are the ones in
    PostText and Slug. */
module McpPosts {
  import opened Wrappers
  import opened JsText
  import opened JsValues
  import opened PostText
  import opened Inserts
  import Json
  import Legacy
  import Slug

  // ---------------------------------------------------------------------------
  // Search
  // ---------------------------------------------------------------------------

  const DefaultLimit: int := 10
  const MaxLimit: int := 20
  const McpExcerptLength: nat := 240

  /** `Math.min(Math.max(limit ?? 10, 1), 20)`. */
  function SafeLimit(limit: Option<int>): (r: int)
    ensures 1 <= r <= MaxLimit
    ensures limit.None? ==> r == DefaultLimit
    ensures limit.Some? && 1 <= limit.value <= MaxLimit ==> r == limit.value
    ensures limit.Some? && limit.value < 1 ==> r == 1
    ensures limit.Some? && limit.value > MaxLimit ==> r == MaxLimit
  {
    var l := limit.GetOr(DefaultLimit);
    if l < 1 then 1 else if l > MaxLimit then MaxLimit else l
  }

  /** The column set a search selects: the current one, the one before the
      `live_*` and search columns, and the legacy `content` one. */
  datatype SearchLayout = LiveSearch | MarkdownOnlySearch | LegacySearch

  datatype Filter =
    | NoFilter
    | SearchTextLike(pattern: string)                // `ilike('search_text', pattern)`
    | WebSearch(query: string)                       // websearch on `search_tsv`
    | TitleOrContentLike(column: string, term: string)  // `title.ilike.%t%,<column>.ilike.%t%`

  /** The author's posts, newest update first, at most `limit` of them. */
  datatype SearchQuery = SearchQuery(layout: SearchLayout, authorId: string, filter: Filter, limit: int)

  datatype SearchRow = SearchRow(
    id: string, title: string, slug: string, published: bool, updatedAt: string,
    contentMarkdown: Option<string>, liveContentMarkdown: Option<string>, liveTitle: Option<string>)

  datatype FallbackSearchRow = FallbackSearchRow(
    id: string, title: string, slug: string, published: bool, updatedAt: string, contentMarkdown: Option<string>)

  datatype LegacySearchRow = LegacySearchRow(
    id: string, title: string, slug: string, published: bool, updatedAt: string, content: Legacy.LegacyValue)

  datatype Hit = Hit(postId: string, title: string, slug: string, published: bool, updatedAt: string, excerpt: string)

  /** The filter of the first query, on the trimmed query. */
  function FirstFilter(normalized: string): Filter
  {
    if normalized != "" && HasHangul(normalized) then SearchTextLike("%" + SanitizeSearch(normalized) + "%")
    else if normalized != "" then WebSearch(normalized)
    else NoFilter
  }

  /** The filter of the narrower queries: any non-empty query, sanitised. */
  function LikeFilter(normalized: string, column: string): Filter
  {
    if normalized != "" then TitleOrContentLike(column, SanitizeSearch(normalized)) else NoFilter
  }

  /** A query with a Hangul syllable searches `search_text` with `ilike`, any
      other non-empty one searches `search_tsv`, an empty one is not filtered; the
      narrower queries filter exactly the non-empty ones, on terms without `,()%_`. */
  lemma FilterCases(normalized: string, column: string)
    ensures HasHangul(normalized) <==> FirstFilter(normalized).SearchTextLike?
    ensures normalized != "" && !HasHangul(normalized) ==> FirstFilter(normalized) == WebSearch(normalized)
    ensures normalized == "" <==> FirstFilter(normalized) == NoFilter
    ensures normalized == "" <==> LikeFilter(normalized, column) == NoFilter
    ensures LikeFilter(normalized, column).TitleOrContentLike? ==> Avoids(LikeFilter(normalized, column).term, SearchSpecials)
  {
    FirstFilterCases(normalized);
    LikeFilterCases(normalized, column);
  }

  lemma FirstFilterCases(normalized: string)
    ensures HasHangul(normalized) <==> FirstFilter(normalized).SearchTextLike?
    ensures normalized != "" && !HasHangul(normalized) ==> FirstFilter(normalized) == WebSearch(normalized)
    ensures normalized == "" <==> FirstFilter(normalized) == NoFilter
  {
    if HasHangul(normalized) {
      assert normalized != "";
    }
  }

  lemma LikeFilterCases(normalized: string, column: string)
    ensures normalized == "" <==> LikeFilter(normalized, column) == NoFilter
    ensures LikeFilter(normalized, column).TitleOrContentLike? ==> Avoids(LikeFilter(normalized, column).term, SearchSpecials)
  {
    SanitizeSearchShape(normalized);
  }

  /** `live_title` when it is not blank, else `title`. */
  function HitTitle(row: SearchRow): (t: string)
    ensures row.liveTitle.Some? && NotBlank(row.liveTitle.value) ==> t == row.liveTitle.value
    ensures !(row.liveTitle.Some? && NotBlank(row.liveTitle.value)) ==> t == row.title
  {
    if row.liveTitle.Some? && NotBlank(row.liveTitle.value) then row.liveTitle.value else row.title
  }

  function HitOf(id: string, title: string, slug: string, published: bool, updatedAt: string, content: string): (h: Hit)
    ensures h.postId == id && h.title == title && h.slug == slug
    ensures h.excerpt == Excerpt(content, McpExcerptLength)
    ensures |h.excerpt| <= McpExcerptLength
  {
    ExcerptShape(content, McpExcerptLength);
    Hit(id, title, slug, published, updatedAt, Excerpt(content, McpExcerptLength))
  }

  /** A row of the first query: the live content, else the draft, else `''`. */
  function LiveHit(row: SearchRow): (h: Hit)
    ensures h.postId == row.id && h.title == HitTitle(row) && |h.excerpt| <= McpExcerptLength
    ensures h.excerpt == Excerpt(row.liveContentMarkdown.GetOr(row.contentMarkdown.GetOr("")), McpExcerptLength)
  {
    HitOf(row.id, HitTitle(row), row.slug, row.published, row.updatedAt,
          row.liveContentMarkdown.GetOr(row.contentMarkdown.GetOr("")))
  }

  function MarkdownHit(row: FallbackSearchRow): (h: Hit)
    ensures h.title == row.title
    ensures h.excerpt == Excerpt(row.contentMarkdown.GetOr(""), McpExcerptLength)
  {
    HitOf(row.id, row.title, row.slug, row.published, row.updatedAt, row.contentMarkdown.GetOr(""))
  }

  function LegacyHit(row: LegacySearchRow): (h: Hit)
    ensures h.title == row.title
    ensures h.excerpt == Excerpt(Legacy.LegacyContentToMarkdown(row.content), McpExcerptLength)
  {
    HitOf(row.id, row.title, row.slug, row.published, row.updatedAt, Legacy.LegacyContentToMarkdown(row.content))
  }

  /** The error of the first query names a search or `live_*` column. */
  predicate MissingSearchColumns(e: Legacy.StoreError)
  {
    Legacy.IsMissingColumnError(Some(e), "search_tsv")
    || Legacy.IsMissingColumnError(Some(e), "search_text")
    || Legacy.IsMissingColumnError(Some(e), "live_content_markdown")
    || Legacy.IsMissingColumnError(Some(e), "live_title")
  }

  /** The three queries a search may run: the first one, then the narrower
      Markdown-only one or the legacy one. */
  datatype Queries = Queries(first: SearchQuery, fallback: SearchQuery, legacy: SearchQuery)

  function SearchQueries(userId: string, query: Option<string>, limit: Option<int>): Queries
  {
    var normalized := Trim(query.GetOr(""));
    Queries(SearchQuery(LiveSearch, userId, FirstFilter(normalized), SafeLimit(limit)),
            SearchQuery(MarkdownOnlySearch, userId, LikeFilter(normalized, "content_markdown"), SafeLimit(limit)),
            SearchQuery(LegacySearch, userId, LikeFilter(normalized, "content"), SafeLimit(limit)))
  }

  /** What the search does after its first query failed. */
  datatype SearchStep = ThrowError | MarkdownFallback | LegacyFallback

  /** A missing `content_markdown` column wins over a missing search or `live_*`
      column; any other error is thrown. */
  function SearchStepOf(e: Legacy.StoreError): (step: SearchStep)
    ensures step == LegacyFallback <==> Legacy.IsMissingColumnError(Some(e), "content_markdown")
    ensures step == MarkdownFallback
        <==> MissingSearchColumns(e) && !Legacy.IsMissingColumnError(Some(e), "content_markdown")
    ensures step == ThrowError
        <==> !MissingSearchColumns(e) && !Legacy.IsMissingColumnError(Some(e), "content_markdown")
  {
    if Legacy.IsMissingColumnError(Some(e), "content_markdown") then LegacyFallback
    else if MissingSearchColumns(e) then MarkdownFallback
    else ThrowError
  }

  /** `searchOwnPostsForMcp`; `Err` is the message of the thrown error. */
  function SearchOwnPosts(
    userId: string, query: Option<string>, limit: Option<int>,
    live: SearchQuery -> Result<seq<SearchRow>, Legacy.StoreError>,
    markdown: SearchQuery -> Result<seq<FallbackSearchRow>, Legacy.StoreError>,
    legacy: SearchQuery -> Result<seq<LegacySearchRow>, Legacy.StoreError>): (r: Result<seq<Hit>, string>)
  {
    Search(SearchQueries(userId, query, limit), live, markdown, legacy)
  }

  /** The search, given the queries it may run. */
  function Search(
    qs: Queries,
    live: SearchQuery -> Result<seq<SearchRow>, Legacy.StoreError>,
    markdown: SearchQuery -> Result<seq<FallbackSearchRow>, Legacy.StoreError>,
    legacy: SearchQuery -> Result<seq<LegacySearchRow>, Legacy.StoreError>): Result<seq<Hit>, string>
  {
    match live(qs.first)
    case Ok(rows) => Ok(LiveHits(rows))
    case Err(e) => SearchAfter(e, qs, markdown, legacy)
  }

  /** The search once the first query failed with `e`. */
  function SearchAfter(
    e: Legacy.StoreError, qs: Queries,
    markdown: SearchQuery -> Result<seq<FallbackSearchRow>, Legacy.StoreError>,
    legacy: SearchQuery -> Result<seq<LegacySearchRow>, Legacy.StoreError>): Result<seq<Hit>, string>
  {
    match SearchStepOf(e)
    case ThrowError => Err(e.message)
    case MarkdownFallback =>
      (match markdown(qs.fallback)
       case Err(e2) => Err(e2.message)
       case Ok(rows) => Ok(MarkdownHits(rows)))
    case LegacyFallback =>
      (match legacy(qs.legacy)
       case Err(e2) => Err(e2.message)
       case Ok(rows) => Ok(LegacyHits(rows)))
  }

  function LiveHits(rows: seq<SearchRow>): (hits: seq<Hit>)
    ensures |hits| == |rows| && forall i :: 0 <= i < |rows| ==> hits[i] == LiveHit(rows[i])
  {
    seq(|rows|, i requires 0 <= i < |rows| => LiveHit(rows[i]))
  }

  function MarkdownHits(rows: seq<FallbackSearchRow>): (hits: seq<Hit>)
    ensures |hits| == |rows| && forall i :: 0 <= i < |rows| ==> hits[i] == MarkdownHit(rows[i])
  {
    seq(|rows|, i requires 0 <= i < |rows| => MarkdownHit(rows[i]))
  }

  function LegacyHits(rows: seq<LegacySearchRow>): (hits: seq<Hit>)
    ensures |hits| == |rows| && forall i :: 0 <= i < |rows| ==> hits[i] == LegacyHit(rows[i])
  {
    seq(|rows|, i requires 0 <= i < |rows| => LegacyHit(rows[i]))
  }

  /** A successful first query gives one hit per row, in order, with the live
      title rule and excerpts of at most 240 characters. */
  lemma SearchFirstQuery(
    qs: Queries,
    live: SearchQuery -> Result<seq<SearchRow>, Legacy.StoreError>,
    markdown: SearchQuery -> Result<seq<FallbackSearchRow>, Legacy.StoreError>,
    legacy: SearchQuery -> Result<seq<LegacySearchRow>, Legacy.StoreError>)
    requires live(qs.first).Ok?
    ensures var r := Search(qs, live, markdown, legacy);
            var rows := live(qs.first).value;
            r.Ok? && |r.value| == |rows|
            && forall i :: 0 <= i < |rows| ==>
                 r.value[i].postId == rows[i].id && r.value[i].title == HitTitle(rows[i])
                 && |r.value[i].excerpt| <= McpExcerptLength
  {
  }

  /** Any error of the first query that names none of the search, `live_*` or
      `content_markdown` columns is thrown. */
  lemma SearchThrows(
    qs: Queries,
    live: SearchQuery -> Result<seq<SearchRow>, Legacy.StoreError>,
    markdown: SearchQuery -> Result<seq<FallbackSearchRow>, Legacy.StoreError>,
    legacy: SearchQuery -> Result<seq<LegacySearchRow>, Legacy.StoreError>)
    requires live(qs.first).Err?
    requires SearchStepOf(live(qs.first).error) == ThrowError
    ensures Search(qs, live, markdown, legacy)
         == Err(live(qs.first).error.message)
  {
  }

  /** A missing search or `live_*` column, with `content_markdown` present, answers
      from the narrower Markdown query; its error is thrown. */
  lemma SearchFallsBack(
    qs: Queries,
    live: SearchQuery -> Result<seq<SearchRow>, Legacy.StoreError>,
    markdown: SearchQuery -> Result<seq<FallbackSearchRow>, Legacy.StoreError>,
    legacy: SearchQuery -> Result<seq<LegacySearchRow>, Legacy.StoreError>)
    requires live(qs.first).Err?
    requires SearchStepOf(live(qs.first).error) == MarkdownFallback
    ensures var r := Search(qs, live, markdown, legacy);
            var f := markdown(qs.fallback);
            (f.Err? ==> r == Err(f.error.message))
            && (f.Ok? ==> (r.Ok? && |r.value| == |f.value|
                           && forall i :: 0 <= i < |f.value| ==> r.value[i].title == f.value[i].title))
  {
  }

  /** A missing `content_markdown` column answers from the legacy query, whose
      documents are converted to Markdown before the excerpt is taken. */
  lemma SearchFallsBackToLegacy(
    qs: Queries,
    live: SearchQuery -> Result<seq<SearchRow>, Legacy.StoreError>,
    markdown: SearchQuery -> Result<seq<FallbackSearchRow>, Legacy.StoreError>,
    legacy: SearchQuery -> Result<seq<LegacySearchRow>, Legacy.StoreError>)
    requires live(qs.first).Err?
    requires SearchStepOf(live(qs.first).error) == LegacyFallback
    ensures var r := Search(qs, live, markdown, legacy);
            var l := legacy(qs.legacy);
            (l.Err? ==> r == Err(l.error.message))
            && (l.Ok? ==> (r.Ok? && |r.value| == |l.value|
                           && forall i :: 0 <= i < |l.value| ==>
                                r.value[i].excerpt == Excerpt(Legacy.LegacyContentToMarkdown(l.value[i].content), McpExcerptLength)))
  {
  }

  // ---------------------------------------------------------------------------
  // Read
  // ---------------------------------------------------------------------------

  /** The embedded `workspace:workspaces(slug)`: one object, an array or null. */
  datatype WorkspaceRef = NoWorkspace | OneWorkspace(slug: string) | WorkspaceArray(slugs: seq<string>)

  /** `(Array.isArray(w) ? w[0] : w)?.slug ?? null`. */
  function WorkspaceSlug(w: WorkspaceRef): (r: Option<string>)
    ensures w.OneWorkspace? ==> r == Some(w.slug)
    ensures w.WorkspaceArray? ==> (r.Some? <==> w.slugs != []) && (w.slugs != [] ==> r.value == w.slugs[0])
    ensures w.NoWorkspace? ==> r.None?
  {
    match w
    case NoWorkspace => None
    case OneWorkspace(s) => Some(s)
    case WorkspaceArray(ss) => if ss != [] then Some(ss[0]) else None
  }

  /** The post is looked up by id or by slug. */
  datatype ReadKey = ById(id: string) | BySlug(slug: string)

  /** `postId ? {id} : {slug}`, and nothing when both are missing or empty. */
  function ReadKeyOf(postId: Option<string>, slug: Option<string>): (k: Option<ReadKey>)
    ensures k.None? <==> postId.GetOr("") == "" && slug.GetOr("") == ""
    ensures postId.GetOr("") != "" ==> k == Some(ById(postId.value))
    ensures postId.GetOr("") == "" && slug.GetOr("") != "" ==> k == Some(BySlug(slug.value))
  {
    if postId.GetOr("") != "" then Some(ById(postId.value))
    else if slug.GetOr("") != "" then Some(BySlug(slug.value))
    else None
  }

  datatype ReadLayout = MarkdownRead | LegacyRead

  /** One post of the given author, found by `key` (`maybeSingle`). */
  datatype ReadQuery = ReadQuery(layout: ReadLayout, key: ReadKey, authorId: string)

  datatype ReadRow = ReadRow(
    id: string, title: string, slug: string, published: bool, updatedAt: string,
    contentMarkdown: string, workspace: WorkspaceRef)

  datatype LegacyReadRow = LegacyReadRow(
    id: string, title: string, slug: string, published: bool, updatedAt: string,
    content: Legacy.LegacyValue, workspace: WorkspaceRef)

  datatype PostView = PostView(
    postId: string, title: string, slug: string, published: bool, updatedAt: string,
    workspaceSlug: Option<string>, contentMarkdown: string)

  const KeyRequired: string := "post_id or slug is required"
  const NotFound: string := "Not found"

  /** `readOwnPostForMcp`; `Err` is the message of the thrown error. */
  function ReadOwnPost(
    userId: string, postId: Option<string>, slug: Option<string>,
    markdown: ReadQuery -> Result<Option<ReadRow>, Legacy.StoreError>,
    legacy: ReadQuery -> Result<Option<LegacyReadRow>, Legacy.StoreError>): (r: Result<PostView, string>)
    ensures ReadKeyOf(postId, slug).None? ==> r == Err(KeyRequired)
  {
    match ReadKeyOf(postId, slug)
    case None => Err(KeyRequired)
    case Some(key) =>
      match markdown(ReadQuery(MarkdownRead, key, userId))
      case Ok(Some(row)) =>
        Ok(PostView(row.id, row.title, row.slug, row.published, row.updatedAt,
                    WorkspaceSlug(row.workspace), row.contentMarkdown))
      case Ok(None) => Err(NotFound)
      case Err(e) =>
        if !Legacy.IsMissingColumnError(Some(e), "content_markdown") then Err(e.message)
        else
          match legacy(ReadQuery(LegacyRead, key, userId))
          case Err(e2) => Err(e2.message)
          case Ok(None) => Err(NotFound)
          case Ok(Some(row)) =>
            Ok(PostView(row.id, row.title, row.slug, row.published, row.updatedAt,
                        WorkspaceSlug(row.workspace), Legacy.LegacyContentToMarkdown(row.content)))
  }

  /** The outcome of a read in every case: the id wins over the slug, an absent
      row is `Not found` on either layout, and only a missing `content_markdown`
      column reaches the legacy layout. */
  lemma ReadCases(
    userId: string, postId: Option<string>, slug: Option<string>,
    markdown: ReadQuery -> Result<Option<ReadRow>, Legacy.StoreError>,
    legacy: ReadQuery -> Result<Option<LegacyReadRow>, Legacy.StoreError>)
    requires ReadKeyOf(postId, slug).Some?
    ensures var key := ReadKeyOf(postId, slug).value;
            var r := ReadOwnPost(userId, postId, slug, markdown, legacy);
            var m := markdown(ReadQuery(MarkdownRead, key, userId));
            var l := legacy(ReadQuery(LegacyRead, key, userId));
            (postId.GetOr("") != "" ==> key == ById(postId.value))
            && (m == Ok(None) ==> r == Err(NotFound))
            && (m.Ok? && m.value.Some? ==> (r.Ok? && r.value.postId == m.value.value.id
                                           && r.value.contentMarkdown == m.value.value.contentMarkdown))
            && (m.Err? && !Legacy.IsMissingColumnError(Some(m.error), "content_markdown") ==> r == Err(m.error.message))
            && (m.Err? && Legacy.IsMissingColumnError(Some(m.error), "content_markdown") ==>
                  (l.Err? ==> r == Err(l.error.message))
                  && (l == Ok(None) ==> r == Err(NotFound))
                  && (l.Ok? && l.value.Some? ==> (r.Ok? && r.value.postId == l.value.value.id
                      && r.value.contentMarkdown == Legacy.LegacyContentToMarkdown(l.value.value.content))))
  {
  }

  // ---------------------------------------------------------------------------
  // Create a draft
  // ---------------------------------------------------------------------------

  const UntitledPost: string := "Untitled Post"
  const NoWorkspaceFound: string := "No workspace found"
  const NoUniqueSlug: string := "Failed to create a unique slug"
  const MaxAttempts: nat := 4

  /** `title?.trim() ? title : 'Untitled Post'`. */
  function FinalTitle(title: string): (t: string)
    ensures NotBlank(title) ==> t == title
    ensures !NotBlank(title) ==> t == UntitledPost
  {
    if NotBlank(title) then title else UntitledPost
  }

  /** `slugifyTitle(String(title || 'Untitled Post'))`. */
  function SlugBase(title: string): string
  {
    Slug.SlugifyTitle(if title != "" then title else UntitledPost)
  }

  /** The slug of attempt `k`: the base, a hyphen and that attempt's random suffix. */
  function AttemptDraft(base: Draft, suffix: nat -> string, k: nat): (d: Draft)
    ensures d == base.(slug := base.slug + "-" + suffix(k))
  {
    base.(slug := base.slug + "-" + suffix(k))
  }

  predicate MissingLive(e: Legacy.StoreError)
  {
    Legacy.IsMissingColumnError(Some(e), "live_title")
    || Legacy.IsMissingColumnError(Some(e), "live_content_markdown")
    || Legacy.IsMissingColumnError(Some(e), "published_version_id")
  }

  /** Which insert may follow which within a request: a fresh attempt only after
      a unique violation; the Markdown-only insert only after the full insert
      failed on a missing `live_*` or version column with `content_markdown`
      present; the legacy insert only after a missing `content_markdown`; the JSON
      string insert only after a JSON type error of the legacy insert. */
  predicate Follows(prev: Columns, answer: Result<JsValue, Legacy.StoreError>, next: Columns)
  {
    match next
    case LiveColumns => IsUnique(answer)
    case MarkdownColumns => prev == LiveColumns && answer.Err? && !MissingMarkdown(answer.error) && MissingLive(answer.error)
    case LegacyColumns => (prev == LiveColumns || prev == MarkdownColumns) && answer.Err? && MissingMarkdown(answer.error)
    case LegacyJsonColumns => prev == LegacyColumns && Legacy.IsLegacyJsonTypeError(ErrorOf(answer))
  }

  /** The inserts of a request come in fallback order. */
  predicate FallbackOrder(store: Store, issued: seq<Insert>)
  {
    (|issued| > 0 ==> issued[0].columns == LiveColumns)
    && forall i :: 0 < i < |issued| ==> Follows(issued[i - 1].columns, store(i - 1, issued[i - 1]), issued[i].columns)
  }

  /** One attempt of the create loop, all its fallbacks included. */
  function CreateRound(store: Store, issued: seq<Insert>, d: Draft): (r: Round)
    ensures |issued| < |r.issued| <= |issued| + 4
    ensures r.issued[..|issued|] == issued
    ensures r.issued[|issued|] == InsertOf(d, LiveColumns)
    ensures forall i :: |issued| < i < |r.issued| ==> r.issued[i].columns != LiveColumns
    ensures Settles(store, r)
  {
    var first := Send(store, issued, InsertOf(d, LiveColumns));
    var r := AfterLive(store, first, d);
    PrefixOfPrefix(issued, first.issued, r.issued);
    r
  }

  /** The attempt after its full insert was answered. */
  function AfterLive(store: Store, first: Sent, d: Draft): (r: Round)
    requires first.issued != [] && first.issued[|first.issued| - 1].columns == LiveColumns
    requires first.result == store(|first.issued| - 1, first.issued[|first.issued| - 1])
    ensures |first.issued| <= |r.issued| <= |first.issued| + 3
    ensures r.issued[..|first.issued|] == first.issued
    ensures forall i :: |first.issued| <= i < |r.issued| ==> r.issued[i].columns != LiveColumns
    ensures Settles(store, r)
  {
    if first.result.Ok? then Round(Done(first.result.value, LiveColumns), first.issued)
    else if IsUnique(first.result) then Round(Retry, first.issued)
    else if !MissingMarkdown(first.result.error) && !MissingLive(first.result.error) then
      Round(Fail(first.result.error), first.issued)
    else if !MissingMarkdown(first.result.error) then
      var second := Send(store, first.issued, InsertOf(d, MarkdownColumns));
      var r := AfterMarkdown(store, second, d);
      PrefixOfPrefix(first.issued, second.issued, r.issued);
      r
    else
      LegacyTail(store, first.issued, d)
  }

  /** The attempt after its Markdown-only insert was answered. */
  function AfterMarkdown(store: Store, second: Sent, d: Draft): (r: Round)
    requires second.issued != [] && second.issued[|second.issued| - 1].columns == MarkdownColumns
    requires second.result == store(|second.issued| - 1, second.issued[|second.issued| - 1])
    ensures |second.issued| <= |r.issued| <= |second.issued| + 2
    ensures r.issued[..|second.issued|] == second.issued
    ensures forall i :: |second.issued| - 1 <= i < |r.issued| ==> r.issued[i].columns != LiveColumns
    ensures Settles(store, r)
  {
    if second.result.Ok? then Round(Done(second.result.value, MarkdownColumns), second.issued)
    else if IsUnique(second.result) then Round(Retry, second.issued)
    else if !MissingMarkdown(second.result.error) then Round(Fail(second.result.error), second.issued)
    else LegacyTail(store, second.issued, d)
  }

  /** The legacy round, with the shape the attempt needs. */
  function LegacyTail(store: Store, issued: seq<Insert>, d: Draft): (r: Round)
    ensures |issued| < |r.issued| <= |issued| + 2
    ensures r.issued[..|issued|] == issued
    ensures forall i :: |issued| <= i < |r.issued| ==> r.issued[i].columns != LiveColumns
    ensures Settles(store, r)
    ensures r == LegacyRound(store, issued, d)
  {
    LegacyRound(store, issued, d)
  }

  /** An attempt keeps the request's inserts in fallback order and gives all of
      its own inserts the attempt's slug and the shared fields. */
  lemma CreateRoundOrder(store: Store, issued: seq<Insert>, d: Draft)
    requires FallbackOrder(store, issued)
    requires issued != [] ==> IsUnique(store(|issued| - 1, issued[|issued| - 1]))
    ensures FallbackOrder(store, CreateRound(store, issued, d).issued)
    ensures SameDraft(CreateRound(store, issued, d).issued, |issued|, d)
  {
    var first := Send(store, issued, InsertOf(d, LiveColumns));
    SentOrder(store, issued, InsertOf(d, LiveColumns));
    assert SameDraft(first.issued, |issued|, d);
    AfterLiveOrder(store, first, d, |issued|);
  }

  /** Appending an insert that may follow the last one keeps the fallback order. */
  lemma SentOrder(store: Store, issued: seq<Insert>, ins: Insert)
    requires FallbackOrder(store, issued)
    requires issued == [] ==> ins.columns == LiveColumns
    requires issued != [] ==> Follows(issued[|issued| - 1].columns, store(|issued| - 1, issued[|issued| - 1]), ins.columns)
    ensures FallbackOrder(store, Send(store, issued, ins).issued)
  {
    var s := Send(store, issued, ins).issued;
    forall i | 0 < i < |s|
      ensures Follows(s[i - 1].columns, store(i - 1, s[i - 1]), s[i].columns)
    {
      if i < |issued| {
        assert s[i - 1] == issued[i - 1] && s[i] == issued[i];
      }
    }
  }

  lemma AfterLiveOrder(store: Store, first: Sent, d: Draft, from: nat)
    requires first.issued != [] && first.issued[|first.issued| - 1].columns == LiveColumns
    requires first.result == store(|first.issued| - 1, first.issued[|first.issued| - 1])
    requires from < |first.issued| && SameDraft(first.issued, from, d) && FallbackOrder(store, first.issued)
    ensures FallbackOrder(store, AfterLive(store, first, d).issued)
    ensures SameDraft(AfterLive(store, first, d).issued, from, d)
  {
    if first.result.Err? && !IsUnique(first.result) && (MissingMarkdown(first.result.error) || MissingLive(first.result.error)) {
      if !MissingMarkdown(first.result.error) {
        var ins := InsertOf(d, MarkdownColumns);
        var second := Send(store, first.issued, ins);
        SentOrder(store, first.issued, ins);
        assert SameDraft(second.issued, from, d);
        AfterMarkdownOrder(store, second, d, from);
      } else {
        LegacyOrder(store, first.issued, d, from);
      }
    }
  }

  lemma AfterMarkdownOrder(store: Store, second: Sent, d: Draft, from: nat)
    requires second.issued != [] && second.issued[|second.issued| - 1].columns == MarkdownColumns
    requires second.result == store(|second.issued| - 1, second.issued[|second.issued| - 1])
    requires from < |second.issued| && SameDraft(second.issued, from, d) && FallbackOrder(store, second.issued)
    ensures FallbackOrder(store, AfterMarkdown(store, second, d).issued)
    ensures SameDraft(AfterMarkdown(store, second, d).issued, from, d)
  {
    if second.result.Err? && !IsUnique(second.result) && MissingMarkdown(second.result.error) {
      LegacyOrder(store, second.issued, d, from);
    }
  }

  /** The legacy tail after an insert that failed on a missing `content_markdown`. */
  lemma LegacyOrder(store: Store, issued: seq<Insert>, d: Draft, from: nat)
    requires from <= |issued| && SameDraft(issued, from, d)
    requires FallbackOrder(store, issued) && |issued| > 0
    requires issued[|issued| - 1].columns == LiveColumns || issued[|issued| - 1].columns == MarkdownColumns
    requires var a := store(|issued| - 1, issued[|issued| - 1]); a.Err? && MissingMarkdown(a.error)
    ensures FallbackOrder(store, LegacyInsert(store, issued, d).issued)
    ensures SameDraft(LegacyInsert(store, issued, d).issued, from, d)
  {
    var s := LegacyInsert(store, issued, d);
    LegacyInsertSameDraft(store, issued, d, from);
    forall i | 0 < i < |s.issued|
      ensures Follows(s.issued[i - 1].columns, store(i - 1, s.issued[i - 1]), s.issued[i].columns)
    {
      if i < |issued| {
        assert s.issued[i - 1] == s.issued[..|issued|][i - 1] && s.issued[i] == s.issued[..|issued|][i];
      } else if i == |issued| {
        assert s.issued[i - 1] == s.issued[..|issued|][i - 1];
      }
    }
  }

  /** What a create request ends with: the created row or the thrown message,
      and every insert it issued, in order. */
  datatype Created = Created(result: Result<JsValue, string>, issued: seq<Insert>)

  /** The answer to the last insert of a request. */
  function LastAnswer(store: Store, issued: seq<Insert>): Result<JsValue, Legacy.StoreError>
    requires issued != []
  {
    store(|issued| - 1, issued[|issued| - 1])
  }

  /** How a request's result agrees with the inserts after `issued`: a row is
      returned exactly when the last of them was answered with it; any other
      error of the last insert is thrown with its message; and `Failed to create
      a unique slug` is thrown when no insert was left to issue or the last one
      was answered with a unique violation. */
  predicate Ends(store: Store, issued: seq<Insert>, c: Created)
  {
    if |issued| == |c.issued| then c.result == Err(NoUniqueSlug)
    else
      |issued| < |c.issued| &&
      var last := LastAnswer(store, c.issued);
      match last
      case Ok(row) => c.result == Ok(row)
      case Err(e) => if IsUnique(last) then c.result == Err(NoUniqueSlug) else c.result == Err(e.message)
  }

  /** The attempts from attempt `k` on. They make at most `MaxAttempts - k`
      attempts (one full insert each) and only append to the inserts; the result
      is the last insert's answer as `Ends` says, and the slug is given up only
      after every remaining attempt was made; started in fallback order with the
      shared fields of `base`, they keep both. */
  function Attempts(store: Store, issued: seq<Insert>, base: Draft, suffix: nat -> string, k: nat): (c: Created)
    requires k <= MaxAttempts
    ensures |issued| <= |c.issued| && c.issued[..|issued|] == issued
    ensures CountOf(c.issued, LiveColumns) <= CountOf(issued, LiveColumns) + MaxAttempts - k
    ensures Ends(store, issued, c)
    ensures k < MaxAttempts ==> |issued| < |c.issued|
    ensures (|issued| == |c.issued| || IsUnique(LastAnswer(store, c.issued))) ==>
              CountOf(c.issued, LiveColumns) == CountOf(issued, LiveColumns) + MaxAttempts - k
    ensures Opening(store, issued, base) ==>
              FallbackOrder(store, c.issued) && forall i :: 0 <= i < |c.issued| ==> Common(c.issued[i], base)
    decreases MaxAttempts - k
  {
    if k == MaxAttempts then Created(Err(NoUniqueSlug), issued)
    else
      var d := AttemptDraft(base, suffix, k);
      var round := CreateRound(store, issued, d);
      CountOfRound(issued, round.issued, LiveColumns);
      OpeningRound(store, issued, base, d);
      EndsOfRound(store, issued, round);
      match round.outcome
      case Done(row, _) => Created(Ok(row), round.issued)
      case Fail(e) => Created(Err(e.message), round.issued)
      case Retry =>
        var rest := Attempts(store, round.issued, base, suffix, k + 1);
        assert rest.issued[..|issued|] == rest.issued[..|round.issued|][..|issued|];
        RetryUnique(store, round);
        EndsAfter(store, issued, round.issued, rest);
        rest
  }

  /** An attempt that created a row or failed otherwise than on a unique
      violation ends the request as its last insert was answered. */
  lemma EndsOfRound(store: Store, issued: seq<Insert>, round: Round)
    requires |issued| < |round.issued| && Settles(store, round)
    ensures round.outcome.Done? ==> Ends(store, issued, Created(Ok(round.outcome.row), round.issued))
    ensures round.outcome.Fail? ==> Ends(store, issued, Created(Err(round.outcome.error.message), round.issued))
    ensures !round.outcome.Retry? ==> !IsUnique(LastAnswer(store, round.issued))
  {
  }

  /** The attempts after a unique violation end the request as they end
      themselves. */
  lemma EndsAfter(store: Store, issued: seq<Insert>, mid: seq<Insert>, c: Created)
    requires |issued| < |mid| <= |c.issued| && c.issued[..|mid|] == mid && Ends(store, mid, c)
    requires IsUnique(LastAnswer(store, mid))
    ensures Ends(store, issued, c)
    ensures |mid| == |c.issued| ==> IsUnique(LastAnswer(store, c.issued))
  {
    if |mid| == |c.issued| {
      assert c.issued == mid;
    }
  }

  /** Where a request's attempts may start: nothing issued or a unique violation
      last, in fallback order, every insert with the shared fields of `base`. */
  predicate Opening(store: Store, issued: seq<Insert>, base: Draft)
  {
    && FallbackOrder(store, issued)
    && (issued != [] ==> IsUnique(store(|issued| - 1, issued[|issued| - 1])))
    && forall i :: 0 <= i < |issued| ==> Common(issued[i], base)
  }

  /** One attempt, whatever its slug, keeps the fallback order and the shared
      fields; after a retry the request is ready for the next attempt. */
  lemma OpeningRound(store: Store, issued: seq<Insert>, base: Draft, d: Draft)
    requires d == base.(slug := d.slug)
    ensures var r := CreateRound(store, issued, d);
            Opening(store, issued, base) ==>
              && FallbackOrder(store, r.issued)
              && (forall i :: 0 <= i < |r.issued| ==> Common(r.issued[i], base))
              && (r.outcome.Retry? ==> Opening(store, r.issued, base))
  {
    var r := CreateRound(store, issued, d);
    if Opening(store, issued, base) {
      CreateRoundOrder(store, issued, d);
      OpeningAfter(store, issued, base, d, r);
    }
  }

  /** `OpeningRound` for any round that extends the inserts in fallback order,
      settles, and gives its own inserts the fields of `d`. */
  lemma OpeningAfter(store: Store, issued: seq<Insert>, base: Draft, d: Draft, r: Round)
    requires d == base.(slug := d.slug) && Opening(store, issued, base)
    requires |issued| <= |r.issued| && r.issued[..|issued|] == issued
    requires FallbackOrder(store, r.issued) && SameDraft(r.issued, |issued|, d) && Settles(store, r)
    ensures forall i :: 0 <= i < |r.issued| ==> Common(r.issued[i], base)
    ensures r.outcome.Retry? ==> Opening(store, r.issued, base)
  {
    RoundCommon(issued, r.issued, base, d);
    if r.outcome.Retry? {
      RetryUnique(store, r);
    }
  }

  /** The fields every insert of a request shares. */
  function BaseDraft(workspaceId: string, userId: string, title: string, markdown: string): (d: Draft)
    ensures d.title == Str(FinalTitle(title)) && d.slug == SlugBase(title)
  {
    Draft(workspaceId, userId, Str(FinalTitle(title)), SlugBase(title), markdown)
  }

  /** `createDraftPostForMcp`: the workspace lookup, then the attempt loop. */
  function CreateDraftSpec(
    store: Store, workspace: Result<Option<string>, Legacy.StoreError>,
    userId: string, title: string, markdown: string, suffix: nat -> string): Created
  {
    match workspace
    case Err(e) => Created(Err(e.message), [])
    case Ok(None) => Created(Err(NoWorkspaceFound), [])
    case Ok(Some(ws)) => Attempts(store, [], BaseDraft(ws, userId, title, markdown), suffix, 0)
  }

  /** The attempt loop of `createDraftPostForMcp`: at most four attempts, each
      with a fresh slug; a unique violation moves on to the next attempt. */
  method CreateDraftPost(
    store: Store, workspace: Result<Option<string>, Legacy.StoreError>,
    userId: string, title: string, markdown: string, suffix: nat -> string)
    returns (result: Result<JsValue, string>, issued: seq<Insert>)
    ensures Created(result, issued) == CreateDraftSpec(store, workspace, userId, title, markdown, suffix)
  {
    issued := [];
    if workspace.Err? {
      return Err(workspace.error.message), issued;
    }
    if workspace.value.None? {
      return Err(NoWorkspaceFound), issued;
    }
    result, issued := RunAttempts(store, BaseDraft(workspace.value.value, userId, title, markdown), suffix);
  }

  /** The attempt loop: at most four attempts, each with a fresh slug; only a
      unique violation moves on to the next attempt. */
  method RunAttempts(store: Store, base: Draft, suffix: nat -> string)
    returns (result: Result<JsValue, string>, issued: seq<Insert>)
    ensures Created(result, issued) == Attempts(store, [], base, suffix, 0)
  {
    issued := [];
    var attempt := 0;
    var outcome: Attempt := Retry;
    while attempt < MaxAttempts && outcome.Retry?
      invariant 0 <= attempt <= MaxAttempts
      invariant outcome.Retry? ==> Attempts(store, issued, base, suffix, attempt) == Attempts(store, [], base, suffix, 0)
      invariant outcome.Done? ==> Created(Ok(outcome.row), issued) == Attempts(store, [], base, suffix, 0)
      invariant outcome.Fail? ==> Created(Err(outcome.error.message), issued) == Attempts(store, [], base, suffix, 0)
      decreases MaxAttempts - attempt
    {
      var round := RunAttempt(store, issued, base, suffix, attempt);
      outcome, issued := round.outcome, round.issued;
      attempt := attempt + 1;
    }
    match outcome {
      case Done(row, _) => result := Ok(row);
      case Fail(e) => result := Err(e.message);
      case Retry => result := Err(NoUniqueSlug);
    }
  }

  /** One attempt, all its fallbacks included. */
  method RunAttempt(store: Store, issued: seq<Insert>, base: Draft, suffix: nat -> string, k: nat)
    returns (round: Round)
    requires k < MaxAttempts
    ensures var c := Attempts(store, issued, base, suffix, k);
            (round.outcome.Done? ==> c == Created(Ok(round.outcome.row), round.issued))
            && (round.outcome.Fail? ==> c == Created(Err(round.outcome.error.message), round.issued))
            && (round.outcome.Retry? ==> c == Attempts(store, round.issued, base, suffix, k + 1))
  {
    round := CreateRound(store, issued, AttemptDraft(base, suffix, k));
    AttemptStep(store, issued, base, suffix, k);
  }

  /** One turn of the attempt loop. */
  lemma AttemptStep(store: Store, issued: seq<Insert>, base: Draft, suffix: nat -> string, k: nat)
    requires k < MaxAttempts
    ensures var round := CreateRound(store, issued, AttemptDraft(base, suffix, k));
            var c := Attempts(store, issued, base, suffix, k);
            (round.outcome.Done? ==> c == Created(Ok(round.outcome.row), round.issued))
            && (round.outcome.Fail? ==> c == Created(Err(round.outcome.error.message), round.issued))
            && (round.outcome.Retry? ==> c == Attempts(store, round.issued, base, suffix, k + 1))
  {
  }

  /** A draft request issues no insert without a workspace (a failed lookup
      throws its message, a missing workspace `No workspace found`); otherwise
      it returns the row the last insert was answered with, throws the last
      insert's error when that is no unique violation, and throws `Failed to
      create a unique slug` exactly when the last insert was a unique violation,
      after four full inserts. It makes at most four attempts, issues its inserts
      in fallback order (so every attempt after the first follows a unique
      violation), and every insert it issues is unpublished, by the caller, in
      the caller's workspace, and carries the final title and the Markdown. */
  lemma CreateDraftShape(
    store: Store, workspace: Result<Option<string>, Legacy.StoreError>,
    userId: string, title: string, markdown: string, suffix: nat -> string)
    ensures var c := CreateDraftSpec(store, workspace, userId, title, markdown, suffix);
            && (workspace.Err? ==> c == Created(Err(workspace.error.message), []))
            && (workspace == Ok(None) ==> c == Created(Err(NoWorkspaceFound), []))
            && (workspace.Ok? && workspace.value.Some? ==>
                  && c.issued != []
                  && (c.result.Ok? <==> LastAnswer(store, c.issued).Ok?)
                  && (c.result.Ok? ==> c.result.value == LastAnswer(store, c.issued).value)
                  && (LastAnswer(store, c.issued).Err? && !IsUnique(LastAnswer(store, c.issued)) ==>
                        c.result == Err(LastAnswer(store, c.issued).error.message))
                  && (IsUnique(LastAnswer(store, c.issued)) ==>
                        c.result == Err(NoUniqueSlug) && CountOf(c.issued, LiveColumns) == MaxAttempts))
            && FallbackOrder(store, c.issued)
            && CountOf(c.issued, LiveColumns) <= MaxAttempts
            && (forall i :: 0 <= i < |c.issued| ==>
                  !c.issued[i].published && c.issued[i].authorId == userId
                  && workspace == Ok(Some(c.issued[i].workspaceId))
                  && c.issued[i].title == Str(FinalTitle(title))
                  && (c.issued[i].content == markdown || c.issued[i].content == Json.Quote(markdown)))
  {
    if workspace.Ok? && workspace.value.Some? {
      var base := BaseDraft(workspace.value.value, userId, title, markdown);
      var c := Attempts(store, [], base, suffix, 0);
      FirstAttemptsShape(store, base, suffix);
      forall i | 0 <= i < |c.issued|
        ensures !c.issued[i].published && c.issued[i].authorId == userId
                && workspace == Ok(Some(c.issued[i].workspaceId))
                && c.issued[i].title == Str(FinalTitle(title))
                && (c.issued[i].content == markdown || c.issued[i].content == Json.Quote(markdown))
      {
        CommonFields(c.issued[i], base);
      }
    }
  }

  /** The attempt loop started afresh, before any insert. */
  lemma FirstAttemptsShape(store: Store, base: Draft, suffix: nat -> string)
    ensures var c := Attempts(store, [], base, suffix, 0);
            && c.issued != []
            && (c.result.Ok? <==> LastAnswer(store, c.issued).Ok?)
            && (c.result.Ok? ==> c.result.value == LastAnswer(store, c.issued).value)
            && (LastAnswer(store, c.issued).Err? && !IsUnique(LastAnswer(store, c.issued)) ==>
                  c.result == Err(LastAnswer(store, c.issued).error.message))
            && (IsUnique(LastAnswer(store, c.issued)) ==>
                  c.result == Err(NoUniqueSlug) && CountOf(c.issued, LiveColumns) == MaxAttempts)
            && FallbackOrder(store, c.issued)
            && CountOf(c.issued, LiveColumns) <= MaxAttempts
            && forall i :: 0 <= i < |c.issued| ==> Common(c.issued[i], base)
  {
    assert Opening(store, [], base);
    assert CountOf([], LiveColumns) == 0;
  }

  /** An insert sharing the fields of a draft carries its workspace, author,
      title and (possibly quoted) Markdown, and is unpublished. */
  lemma CommonFields(ins: Insert, base: Draft)
    requires Common(ins, base)
    ensures !ins.published && ins.authorId == base.authorId && ins.workspaceId == base.workspaceId
    ensures ins.title == base.title
    ensures ins.content == base.markdown || ins.content == Json.Quote(base.markdown)
  {
    var d := Draft(base.workspaceId, base.authorId, base.title, ins.slug, base.markdown);
    assert ins == InsertOf(d, ins.columns);
  }
}
