/** The public listing of a workspace's published posts: the opaque pagination
    cursor (base64url of the UTF-8 of a JSON object), the keyset filter it stands
    for, the page of `PageSize + 1` rows trimmed to `PageSize`, and the fallback
    through older table layouts when a column is missing.

    The store is an oracle per table layout: given the query it is asked, it returns
    the rows or an error. Its filters, ordering and full-text ranking are not
    modelled; the rows it returns carry a `published_at`, since every query asks for
    `published_at is not null`. */
module PublicPosts {
  import opened Wrappers
  import opened JsText
  import opened Json
  import opened PostText
  import Utf8
  import Base64Url
  import Legacy

  const PageSize: nat := 18
  const ExcerptLength: nat := 180

  /** A pagination cursor, and the `(published_at, id)` key of a row. */
  datatype Cursor = Cursor(publishedAt: string, id: string)

  /** What `decodeCursor` hands back: the members as JSON parsed them. The declared
      type says strings, but nothing checks that at run time. */
  datatype Decoded = Decoded(publishedAt: Json, id: Json)

  // ---------------------------------------------------------------------------
  // The cursor codec
  // ---------------------------------------------------------------------------

  /** `JSON.stringify({ publishedAt, id })` as a list of string members. */
  function CursorMembers(c: Cursor): seq<(string, string)>
  {
    [("publishedAt", c.publishedAt), ("id", c.id)]
  }

  /** `encodeCursor`. */
  function EncodeCursor(c: Cursor): string
  {
    Base64Url.Encode(Utf8.Encode(StringifyObject(CursorMembers(c))))
  }

  /** `decodeCursor`: `None` is `null`. An absent or empty value, text that is not
      JSON (the `catch`), a value without both members, and a member that is falsy
      all give `None`. */
  function DecodeCursor(value: Option<string>): (r: Option<Decoded>)
    ensures (value.None? || value == Some("")) ==> r.None?
    ensures r.Some? ==> Truthy(r.value.publishedAt) && Truthy(r.value.id)
  {
    if value.None? || value.value == "" then None
    else match Parse(Utf8.Decode(Base64Url.Decode(value.value)))
      case None => None
      case Some(parsed) =>
        var p, i := Member(parsed, "publishedAt"), Member(parsed, "id");
        if p.None? || i.None? || !Truthy(p.value) || !Truthy(i.value) then None
        else Some(Decoded(p.value, i.value))
  }

  lemma EncodedNonEmpty(b: seq<Utf8.Byte>)
    requires b != []
    ensures Base64Url.Encode(b) != ""
  {
    Base64Url.DecodeEncode(b);
    assert Base64Url.Decode("") == [] by {
      assert Base64Url.ReadSextets("") == [];
    }
  }

  lemma Utf8NonEmpty(s: string)
    requires s != []
    ensures Utf8.Encode(s) != []
  {
  }

  lemma CursorMembersLookup(c: Cursor)
    ensures Member(JObj(AsJson(CursorMembers(c))), "publishedAt") == Some(JStr(c.publishedAt))
    ensures Member(JObj(AsJson(CursorMembers(c))), "id") == Some(JStr(c.id))
  {
    var ms := AsJson(CursorMembers(c));
    assert ms == [("publishedAt", JStr(c.publishedAt)), ("id", JStr(c.id))];
    assert ms[..|ms| - 1] == [("publishedAt", JStr(c.publishedAt))];
    assert "id" != "publishedAt" by {
      assert |"id"| != |"publishedAt"|;
    }
    assert LastMember(ms, "publishedAt") == LastMember(ms[..|ms| - 1], "publishedAt");
  }

  /** The text inside an encoded cursor is the JSON the encoder wrote. */
  lemma CursorText(c: Cursor)
    ensures EncodeCursor(c) != ""
    ensures Utf8.Decode(Base64Url.Decode(EncodeCursor(c))) == StringifyObject(CursorMembers(c))
  {
    var text := StringifyObject(CursorMembers(c));
    BraceText(MembersText(CursorMembers(c)));
    Utf8NonEmpty(text);
    EncodedNonEmpty(Utf8.Encode(text));
    Base64Url.DecodeEncode(Utf8.Encode(text));
    Utf8.DecodeEncode(text);
  }

  lemma DecodeOfMembers(value: string, obj: Json, p: Json, i: Json)
    requires value != ""
    requires Parse(Utf8.Decode(Base64Url.Decode(value))) == Some(obj)
    requires Member(obj, "publishedAt") == Some(p) && Member(obj, "id") == Some(i)
    requires Truthy(p) && Truthy(i)
    ensures DecodeCursor(Some(value)) == Some(Decoded(p, i))
  {
  }

  /** Decoding an encoded cursor whose two fields are non-empty gives the two
      fields back. */
  lemma CursorRoundTrip(c: Cursor)
    requires c.publishedAt != "" && c.id != ""
    ensures DecodeCursor(Some(EncodeCursor(c))) == Some(Decoded(JStr(c.publishedAt), JStr(c.id)))
  {
    CursorText(c);
    StringifyParse(CursorMembers(c));
    CursorMembersLookup(c);
    DecodeOfMembers(EncodeCursor(c), JObj(AsJson(CursorMembers(c))), JStr(c.publishedAt), JStr(c.id));
  }

  /** A cursor whose text is not JSON, or whose JSON is not an object carrying both
      members, decodes to `None`. */
  lemma MalformedCursor(value: string)
    requires Parse(Utf8.Decode(Base64Url.Decode(value))).None?
          || Member(Parse(Utf8.Decode(Base64Url.Decode(value))).value, "publishedAt").None?
          || Member(Parse(Utf8.Decode(Base64Url.Decode(value))).value, "id").None?
    ensures DecodeCursor(Some(value)).None?
  {
  }

  // ---------------------------------------------------------------------------
  // Keyset order and the cursor filter
  // ---------------------------------------------------------------------------

  /** Code-unit order of two strings, the order of ISO timestamps of one format and
      of lower-case UUIDs. */
  predicate StrLt(a: string, b: string)
    decreases |a|
  {
    b != [] && (a == [] || a[0] < b[0] || (a[0] == b[0] && StrLt(a[1..], b[1..])))
  }

  lemma {:induction false} StrLtIrreflexive(a: string)
    ensures !StrLt(a, a)
    decreases |a|
  {
    if a != [] {
      StrLtIrreflexive(a[1..]);
    }
  }

  lemma {:induction false} StrLtTransitive(a: string, b: string, c: string)
    requires StrLt(a, b) && StrLt(b, c)
    ensures StrLt(a, c)
    decreases |a|
  {
    if a != [] && a[0] == b[0] && b[0] == c[0] {
      StrLtTransitive(a[1..], b[1..], c[1..]);
    }
  }

  lemma {:induction false} StrLtTotal(a: string, b: string)
    ensures a == b || StrLt(a, b) || StrLt(b, a)
    decreases |a|
  {
    if a != [] && b != [] && a[0] == b[0] {
      StrLtTotal(a[1..], b[1..]);
      if a[1..] == b[1..] {
        assert a == [a[0]] + a[1..] && b == [b[0]] + b[1..];
      }
    }
  }

  /** The listing order: a row comes after another when its `published_at` is
      earlier, or equal with a smaller `id` (`order published_at desc, id desc`). */
  predicate KeyLt(x: Cursor, y: Cursor)
  {
    StrLt(x.publishedAt, y.publishedAt) || (x.publishedAt == y.publishedAt && StrLt(x.id, y.id))
  }

  lemma KeyLtIrreflexive(x: Cursor)
    ensures !KeyLt(x, x)
  {
    StrLtIrreflexive(x.publishedAt);
    StrLtIrreflexive(x.id);
  }

  lemma KeyLtTransitive(x: Cursor, y: Cursor, z: Cursor)
    requires KeyLt(x, y) && KeyLt(y, z)
    ensures KeyLt(x, z)
  {
    if StrLt(x.publishedAt, y.publishedAt) && StrLt(y.publishedAt, z.publishedAt) {
      StrLtTransitive(x.publishedAt, y.publishedAt, z.publishedAt);
    } else if x.publishedAt == y.publishedAt && y.publishedAt == z.publishedAt {
      StrLtTransitive(x.id, y.id, z.id);
    }
  }

  lemma KeyLtAsymmetric(x: Cursor, y: Cursor)
    requires KeyLt(x, y)
    ensures !KeyLt(y, x)
  {
    if KeyLt(y, x) {
      KeyLtTransitive(x, y, x);
      KeyLtIrreflexive(x);
    }
  }

  lemma KeyLtTotal(x: Cursor, y: Cursor)
    ensures x == y || KeyLt(x, y) || KeyLt(y, x)
  {
    StrLtTotal(x.publishedAt, y.publishedAt);
    StrLtTotal(x.id, y.id);
  }

  /** `applyCursorFilter` as a predicate on a row's key: with a cursor, keep the rows
      strictly after it in the listing order. */
  predicate KeepRow(key: Cursor, cursor: Option<Cursor>)
  {
    cursor.None?
    || StrLt(key.publishedAt, cursor.value.publishedAt)
    || (key.publishedAt == cursor.value.publishedAt && StrLt(key.id, cursor.value.id))
  }

  /** The rows of a listing the store returns for one query, kept in order. */
  datatype RawPost = RawPost(id: string, title: string, slug: string, publishedAt: string, contentMarkdown: string)

  function KeyOf(p: RawPost): Cursor
  {
    Cursor(p.publishedAt, p.id)
  }

  function CursorFilter(rows: seq<RawPost>, cursor: Option<Cursor>): (r: seq<RawPost>)
    ensures |r| <= |rows|
    ensures forall i :: 0 <= i < |r| ==> KeepRow(KeyOf(r[i]), cursor) && r[i] in rows
    decreases |rows|
  {
    if rows == [] then []
    else (if KeepRow(KeyOf(rows[0]), cursor) then [rows[0]] else []) + CursorFilter(rows[1..], cursor)
  }

  /** Rows in strictly descending listing order, as a snapshot of the ordered query
      returns them. */
  predicate SortedDesc(rows: seq<RawPost>)
  {
    forall i, j :: 0 <= i < j < |rows| ==> KeyLt(KeyOf(rows[j]), KeyOf(rows[i]))
  }

  lemma {:induction false} FilterAllKept(rows: seq<RawPost>, cursor: Option<Cursor>)
    requires forall i :: 0 <= i < |rows| ==> KeepRow(KeyOf(rows[i]), cursor)
    ensures CursorFilter(rows, cursor) == rows
    decreases |rows|
  {
    if rows != [] {
      FilterAllKept(rows[1..], cursor);
      assert [rows[0]] + rows[1..] == rows;
    }
  }

  /** In a sorted snapshot, the cursor of row `j` keeps exactly the rows after it. */
  lemma {:induction false} FilterAfterRow(rows: seq<RawPost>, j: nat)
    requires SortedDesc(rows) && j < |rows|
    ensures CursorFilter(rows, Some(KeyOf(rows[j]))) == rows[j + 1..]
    decreases j
  {
    var c := Some(KeyOf(rows[j]));
    assert SortedDesc(rows[1..]);
    if j == 0 {
      KeyLtIrreflexive(KeyOf(rows[0]));
      FilterAllKept(rows[1..], c);
    } else {
      KeyLtAsymmetric(KeyOf(rows[j]), KeyOf(rows[0]));
      assert rows[1..][j - 1] == rows[j];
      FilterAfterRow(rows[1..], j - 1);
      assert rows[1..][j..] == rows[j + 1..];
    }
  }

  lemma {:induction false} FilterSorted(rows: seq<RawPost>, cursor: Option<Cursor>)
    requires SortedDesc(rows)
    ensures SortedDesc(CursorFilter(rows, cursor))
    decreases |rows|
  {
    if rows != [] {
      assert SortedDesc(rows[1..]);
      FilterSorted(rows[1..], cursor);
      var rest := CursorFilter(rows[1..], cursor);
      forall i | 0 <= i < |rest|
        ensures KeyLt(KeyOf(rest[i]), KeyOf(rows[0]))
      {
        var m :| 0 <= m < |rows[1..]| && rows[1..][m] == rest[i];
        assert rows[m + 1] == rest[i];
      }
    }
  }

  /** A cursor earlier in the order than the one already applied filters a filtered
      snapshot as it filters the whole one. */
  lemma {:induction false} FilterNarrows(rows: seq<RawPost>, cursor: Option<Cursor>, next: Cursor)
    requires cursor.None? || KeyLt(next, cursor.value)
    ensures CursorFilter(CursorFilter(rows, cursor), Some(next)) == CursorFilter(rows, Some(next))
    decreases |rows|
  {
    if rows != [] {
      FilterNarrows(rows[1..], cursor, next);
      var k := KeyOf(rows[0]);
      if KeepRow(k, Some(next)) && cursor.Some? {
        KeyLtTransitive(k, next, cursor.value);
      }
      var head := if KeepRow(k, cursor) then [rows[0]] else [];
      FilterConcat(head, CursorFilter(rows[1..], cursor), Some(next));
    }
  }

  lemma FilterConcat(a: seq<RawPost>, b: seq<RawPost>, cursor: Option<Cursor>)
    requires |a| <= 1
    ensures CursorFilter(a + b, cursor) == CursorFilter(a, cursor) + CursorFilter(b, cursor)
  {
    if a != [] {
      assert (a + b)[1..] == b;
      assert CursorFilter(a[1..], cursor) == [];
    } else {
      assert a + b == b;
    }
  }

  // ---------------------------------------------------------------------------
  // The page
  // ---------------------------------------------------------------------------

  /** What one query returns from a snapshot: the rows after the cursor, at most
      `PageSize + 1` of them. */
  function Fetch(rows: seq<RawPost>, cursor: Option<Cursor>): seq<RawPost>
  {
    var f := CursorFilter(rows, cursor);
    if |f| <= PageSize + 1 then f else f[..PageSize + 1]
  }

  /** `visiblePosts`. */
  function VisiblePosts(posts: seq<RawPost>): seq<RawPost>
  {
    if |posts| > PageSize then posts[..PageSize] else posts
  }

  /** The key `nextCursor` encodes: the last visible row's, when there is a next page. */
  function NextKey(posts: seq<RawPost>): Option<Cursor>
  {
    if |posts| > PageSize then Some(KeyOf(posts[PageSize - 1])) else None
  }

  /** `nextCursor`. */
  function NextCursor(posts: seq<RawPost>): Option<string>
  {
    match NextKey(posts)
    case None => None
    case Some(k) => Some(EncodeCursor(k))
  }

  /** There is a next page exactly when more than `PageSize` rows came back; the
      visible page is then the first `PageSize` of them and otherwise all of them,
      and the next cursor stands for the last visible row. */
  lemma PageTrim(posts: seq<RawPost>)
    ensures |VisiblePosts(posts)| <= PageSize
    ensures |posts| > PageSize ==> VisiblePosts(posts) == posts[..PageSize]
    ensures |posts| <= PageSize ==> VisiblePosts(posts) == posts
    ensures NextCursor(posts).None? <==> |posts| <= PageSize
    ensures |posts| > PageSize ==> NextKey(posts) == Some(KeyOf(VisiblePosts(posts)[|VisiblePosts(posts)| - 1]))
  {
  }

  /** The next cursor decodes to the last visible row's `published_at` and `id`. */
  lemma NextCursorDecodes(posts: seq<RawPost>)
    requires |posts| > PageSize
    requires posts[PageSize - 1].publishedAt != "" && posts[PageSize - 1].id != ""
    ensures DecodeCursor(NextCursor(posts))
         == Some(Decoded(JStr(posts[PageSize - 1].publishedAt), JStr(posts[PageSize - 1].id)))
  {
    CursorRoundTrip(KeyOf(posts[PageSize - 1]));
  }

  /** Following the next cursor from a page of a sorted snapshot fetches exactly the
      rows after that page. */
  lemma PagesContinue(rows: seq<RawPost>, cursor: Option<Cursor>)
    requires SortedDesc(rows)
    requires NextKey(Fetch(rows, cursor)).Some?
    ensures CursorFilter(rows, NextKey(Fetch(rows, cursor)))
         == CursorFilter(rows, cursor)[PageSize..]
  {
    var f := CursorFilter(rows, cursor);
    var last := f[PageSize - 1];
    assert Fetch(rows, cursor)[PageSize - 1] == last;
    FilterSorted(rows, cursor);
    FilterAfterRow(f, PageSize - 1);
    assert KeepRow(KeyOf(last), cursor);
    FilterNarrows(rows, cursor, KeyOf(last));
  }

  /** The pages reached by following next cursors, one after the other. Together
      they are exactly the rows after the first cursor, in order: no row is shown
      twice and none is skipped. */
  function PageChain(rows: seq<RawPost>, cursor: Option<Cursor>): (r: seq<RawPost>)
    requires SortedDesc(rows)
    ensures r == CursorFilter(rows, cursor)
    decreases |CursorFilter(rows, cursor)|
  {
    var fetched := Fetch(rows, cursor);
    var page := VisiblePosts(fetched);
    match NextKey(fetched)
    case None => page
    case Some(k) =>
      PagesContinue(rows, cursor);
      var f := CursorFilter(rows, cursor);
      assert page == f[..PageSize];
      assert f[..PageSize] + f[PageSize..] == f;
      page + PageChain(rows, Some(k))
  }

  /** Starting without a cursor, the chain of pages is the whole snapshot. */
  lemma PagesCoverSnapshot(rows: seq<RawPost>)
    requires SortedDesc(rows)
    ensures PageChain(rows, None) == rows
  {
    FilterAllKept(rows, None);
  }

  // ---------------------------------------------------------------------------
  // The listing with its fallbacks
  // ---------------------------------------------------------------------------

  /** The column set a query selects: the current layout, the layout before the
      search and `live_*` columns, and the legacy `content` layout. */
  datatype Layout = MarkdownLayout | FallbackLayout | LegacyLayout

  /** The search part of a query. */
  datatype Search =
    | NoSearch
    | SearchTextLike(pattern: string)            // `ilike('search_text', pattern)`
    | SearchTsv(query: string)                   // websearch on `search_tsv`
    | TitleOrBodyLike(column: string, term: string)  // `title.ilike.%t%,<column>.ilike.%t%`

  datatype Query = Query(layout: Layout, workspaceId: string, search: Search, cursor: Option<Cursor>, limit: nat)

  datatype MarkdownRow = MarkdownRow(
    id: string, title: string, liveTitle: Option<string>, slug: string, publishedAt: string,
    contentMarkdown: Option<string>, liveContentMarkdown: Option<string>)

  datatype FallbackRow = FallbackRow(
    id: string, title: string, slug: string, publishedAt: string, contentMarkdown: Option<string>)

  datatype LegacyRow = LegacyRow(
    id: string, title: string, slug: string, publishedAt: string, content: Legacy.LegacyValue)

  /** A post card of the public listing. */
  datatype Card = Card(id: string, title: string, slug: string, publishedAt: string, excerpt: string)

  datatype Page = Page(posts: seq<Card>, nextCursor: Option<string>)

  /** The search of the first query, on the trimmed term. */
  function MarkdownSearch(normalized: string): Search
  {
    if normalized != "" && HasHangul(normalized) then SearchTextLike("%" + SanitizeSearch(normalized) + "%")
    else if normalized != "" then SearchTsv(normalized)
    else NoSearch
  }

  /** The search of the narrower queries, on the sanitised term. */
  function LikeSearch(normalized: string, column: string): Search
  {
    var term := SanitizeSearch(normalized);
    if term != "" then TitleOrBodyLike(column, term) else NoSearch
  }

  /** A Hangul term searches `search_text` with `ilike`, any other non-empty term
      searches `search_tsv`, an empty one adds no search. */
  lemma MarkdownSearchCases(normalized: string)
    ensures HasHangul(normalized) ==> MarkdownSearch(normalized).SearchTextLike?
    ensures normalized != "" && !HasHangul(normalized) ==> MarkdownSearch(normalized) == SearchTsv(normalized)
    ensures normalized == "" ==> MarkdownSearch(normalized) == NoSearch
  {
  }

  function MarkdownPost(row: MarkdownRow): (p: RawPost)
    ensures p.title == (if row.liveTitle.Some? then row.liveTitle.value else row.title)
    ensures p.contentMarkdown == row.liveContentMarkdown.GetOr(row.contentMarkdown.GetOr(""))
    ensures KeyOf(p) == Cursor(row.publishedAt, row.id)
  {
    RawPost(row.id, row.liveTitle.GetOr(row.title), row.slug, row.publishedAt,
            row.liveContentMarkdown.GetOr(row.contentMarkdown.GetOr("")))
  }

  function FallbackPost(row: FallbackRow): RawPost
  {
    RawPost(row.id, row.title, row.slug, row.publishedAt, row.contentMarkdown.GetOr(""))
  }

  function LegacyPost(row: LegacyRow): RawPost
  {
    RawPost(row.id, row.title, row.slug, row.publishedAt, Legacy.LegacyContentToMarkdown(row.content))
  }

  function ToCard(p: RawPost): Card
  {
    Card(p.id, p.title, p.slug, p.publishedAt, Excerpt(p.contentMarkdown, ExcerptLength))
  }

  function BuildPage(posts: seq<RawPost>): (page: Page)
    ensures |page.posts| == if |posts| <= PageSize then |posts| else PageSize
    ensures page.nextCursor.None? <==> |posts| <= PageSize
  {
    var visible := VisiblePosts(posts);
    Page(seq(|visible|, i requires 0 <= i < |visible| => ToCard(visible[i])), NextCursor(posts))
  }

  /** The error of the first query names a search or `live_*` column. */
  predicate MissingSearchOrLive(e: Legacy.StoreError)
  {
    Legacy.IsMissingColumnError(Some(e), "search_tsv")
    || Legacy.IsMissingColumnError(Some(e), "search_text")
    || Legacy.IsMissingColumnError(Some(e), "live_title")
    || Legacy.IsMissingColumnError(Some(e), "live_content_markdown")
  }

  /** `listPublishedPostsByWorkspace`; `Err` is a thrown store error. */
  function ListPublished(
    workspaceId: string, cursor: Option<Cursor>, search: string,
    markdown: Query -> Result<seq<MarkdownRow>, Legacy.StoreError>,
    fallback: Query -> Result<seq<FallbackRow>, Legacy.StoreError>,
    legacy: Query -> Result<seq<LegacyRow>, Legacy.StoreError>): (r: Result<Page, Legacy.StoreError>)
  {
    List(ListQueries(workspaceId, cursor, search), markdown, fallback, legacy)
  }

  /** The three queries a listing may run, each for one page and one more row. */
  datatype Queries = Queries(first: Query, fallback: Query, legacy: Query)

  function ListQueries(workspaceId: string, cursor: Option<Cursor>, search: string): Queries
  {
    var normalized := Trim(search);
    Queries(Query(MarkdownLayout, workspaceId, MarkdownSearch(normalized), cursor, PageSize + 1),
            Query(FallbackLayout, workspaceId, LikeSearch(normalized, "content_markdown"), cursor, PageSize + 1),
            Query(LegacyLayout, workspaceId, LikeSearch(normalized, "content"), cursor, PageSize + 1))
  }

  /** The listing, given the queries it may run; a page never holds more than
      `PageSize` posts. */
  function List(
    qs: Queries,
    markdown: Query -> Result<seq<MarkdownRow>, Legacy.StoreError>,
    fallback: Query -> Result<seq<FallbackRow>, Legacy.StoreError>,
    legacy: Query -> Result<seq<LegacyRow>, Legacy.StoreError>): (r: Result<Page, Legacy.StoreError>)
    ensures r.Ok? ==> |r.value.posts| <= PageSize
  {
    match markdown(qs.first)
    case Ok(rows) => Ok(BuildPage(MarkdownPosts(rows)))
    case Err(e) =>
      if MissingSearchOrLive(e) then
        match fallback(qs.fallback)
        case Err(e2) => Err(e2)
        case Ok(rows) => Ok(BuildPage(FallbackPosts(rows)))
      else if Legacy.IsMissingColumnError(Some(e), "content_markdown") then
        match legacy(qs.legacy)
        case Err(e2) => Err(e2)
        case Ok(rows) => Ok(BuildPage(LegacyPosts(rows)))
      else Err(e)
  }

  function MarkdownPosts(rows: seq<MarkdownRow>): (posts: seq<RawPost>)
    ensures |posts| == |rows| && forall i :: 0 <= i < |rows| ==> posts[i] == MarkdownPost(rows[i])
  {
    seq(|rows|, i requires 0 <= i < |rows| => MarkdownPost(rows[i]))
  }

  function FallbackPosts(rows: seq<FallbackRow>): (posts: seq<RawPost>)
    ensures |posts| == |rows| && forall i :: 0 <= i < |rows| ==> posts[i] == FallbackPost(rows[i])
  {
    seq(|rows|, i requires 0 <= i < |rows| => FallbackPost(rows[i]))
  }

  function LegacyPosts(rows: seq<LegacyRow>): (posts: seq<RawPost>)
    ensures |posts| == |rows| && forall i :: 0 <= i < |rows| ==> posts[i] == LegacyPost(rows[i])
  {
    seq(|rows|, i requires 0 <= i < |rows| => LegacyPost(rows[i]))
  }

  /** An error of the first query that names neither a search, `live_*` nor the
      `content_markdown` column is thrown as it is. */
  lemma ListThrows(
    qs: Queries,
    markdown: Query -> Result<seq<MarkdownRow>, Legacy.StoreError>,
    fallback: Query -> Result<seq<FallbackRow>, Legacy.StoreError>,
    legacy: Query -> Result<seq<LegacyRow>, Legacy.StoreError>)
    requires markdown(qs.first).Err?
    requires !MissingSearchOrLive(markdown(qs.first).error)
    requires !Legacy.IsMissingColumnError(Some(markdown(qs.first).error), "content_markdown")
    ensures List(qs, markdown, fallback, legacy)
         == Err(markdown(qs.first).error)
  {
  }

  /** A missing search or `live_*` column sends the listing to the narrower markdown
      query; the listing fails exactly when that query fails. */
  lemma ListFallsBack(
    qs: Queries,
    markdown: Query -> Result<seq<MarkdownRow>, Legacy.StoreError>,
    fallback: Query -> Result<seq<FallbackRow>, Legacy.StoreError>,
    legacy: Query -> Result<seq<LegacyRow>, Legacy.StoreError>)
    requires markdown(qs.first).Err?
    requires MissingSearchOrLive(markdown(qs.first).error)
    ensures var r := List(qs, markdown, fallback, legacy);
            var f := fallback(qs.fallback);
            (f.Err? ==> r == Err(f.error)) && (f.Ok? ==> r.Ok? && (r.value.nextCursor.None? <==> |f.value| <= PageSize))
  {
  }

  /** A missing `content_markdown` column (and no search or `live_*` column named)
      sends the listing to the legacy query. */
  lemma ListFallsBackToLegacy(
    qs: Queries,
    markdown: Query -> Result<seq<MarkdownRow>, Legacy.StoreError>,
    fallback: Query -> Result<seq<FallbackRow>, Legacy.StoreError>,
    legacy: Query -> Result<seq<LegacyRow>, Legacy.StoreError>)
    requires markdown(qs.first).Err?
    requires !MissingSearchOrLive(markdown(qs.first).error)
    requires Legacy.IsMissingColumnError(Some(markdown(qs.first).error), "content_markdown")
    ensures var r := List(qs, markdown, fallback, legacy);
            var l := legacy(qs.legacy);
            (l.Err? ==> r == Err(l.error)) && (l.Ok? ==> r.Ok? && (r.value.nextCursor.None? <==> |l.value| <= PageSize))
  {
  }

  /** A successful first query serves the listing from its own rows. */
  lemma ListFirstQuery(
    qs: Queries,
    markdown: Query -> Result<seq<MarkdownRow>, Legacy.StoreError>,
    fallback: Query -> Result<seq<FallbackRow>, Legacy.StoreError>,
    legacy: Query -> Result<seq<LegacyRow>, Legacy.StoreError>)
    requires markdown(qs.first).Ok?
    ensures var r := List(qs, markdown, fallback, legacy);
            var rows := markdown(qs.first).value;
            r.Ok? && (r.value.nextCursor.None? <==> |rows| <= PageSize)
            && (|rows| > 0 ==> r.value.posts[0].title == rows[0].liveTitle.GetOr(rows[0].title))
  {
    var rows := markdown(qs.first).value;
    var posts := MarkdownPosts(rows);
    var page := BuildPage(posts);
    assert List(qs, markdown, fallback, legacy) == Ok(page);
    if |rows| > 0 {
      assert VisiblePosts(posts)[0] == MarkdownPost(rows[0]);
      assert page.posts[0].title == ToCard(MarkdownPost(rows[0])).title == MarkdownPost(rows[0]).title;
      assert MarkdownPost(rows[0]).title == rows[0].liveTitle.GetOr(rows[0].title);
    }
  }
}
