/** The post inserts both create paths issue, and the legacy `content` fallback
    they share: insert the Markdown into `content`, and when the column turns out
    to be JSON typed, insert it once more as a JSON string. */
module Inserts {
  import opened Wrappers
  import opened JsValues
  import Json
  import Legacy

  /** The column set an insert writes. */
  datatype Columns =
    | LiveColumns        // `content_markdown`, `live_title`, `live_content_markdown`, `published_version_id`
    | MarkdownColumns    // `content_markdown`
    | LegacyColumns      // `content`, holding the Markdown text
    | LegacyJsonColumns  // `content`, holding the Markdown text as a JSON string

  /** One insert into `posts`; `content` is what the content column receives. */
  datatype Insert = Insert(
    columns: Columns, workspaceId: string, authorId: string, title: JsValue,
    slug: string, content: string, published: bool)

  /** The posts table as a create request sees it: the answer to the request's
      n-th insert, a created row or a store error. */
  type Store = (nat, Insert) -> Result<JsValue, Legacy.StoreError>

  /** The fields every insert of one attempt shares. */
  datatype Draft = Draft(workspaceId: string, authorId: string, title: JsValue, slug: string, markdown: string)

  function InsertOf(d: Draft, columns: Columns): (ins: Insert)
    ensures ins.columns == columns && !ins.published && ins.slug == d.slug && ins.title == d.title
    ensures ins.authorId == d.authorId && ins.workspaceId == d.workspaceId
    ensures columns == LegacyJsonColumns ==> ins.content == Json.Quote(d.markdown)
    ensures columns != LegacyJsonColumns ==> ins.content == d.markdown
  {
    Insert(columns, d.workspaceId, d.authorId, d.title, d.slug,
           if columns == LegacyJsonColumns then Json.Quote(d.markdown) else d.markdown, false)
  }

  /** The log of a request: the inserts issued so far. */
  datatype Sent = Sent(result: Result<JsValue, Legacy.StoreError>, issued: seq<Insert>)

  /** Issue one more insert. */
  function Send(store: Store, issued: seq<Insert>, ins: Insert): (s: Sent)
    ensures s.issued == issued + [ins]
    ensures s.result == store(|issued|, ins)
  {
    Sent(store(|issued|, ins), issued + [ins])
  }

  /** A unique violation, the error that makes both create paths retry. */
  predicate IsUnique(r: Result<JsValue, Legacy.StoreError>)
  {
    r.Err? && r.error.code == Legacy.UniqueViolation
  }

  /** The legacy tail: a `content` insert, and, only when that fails with a JSON
      type error, one more insert with `JSON.stringify` of the Markdown. The
      result is the last insert's. */
  function LegacyInsert(store: Store, issued: seq<Insert>, d: Draft): (s: Sent)
    ensures |s.issued| == |issued| + 1 || |s.issued| == |issued| + 2
    ensures s.issued[..|issued|] == issued
    ensures s.issued[|issued|] == InsertOf(d, LegacyColumns)
    ensures |s.issued| == |issued| + 2
        <==> Legacy.IsLegacyJsonTypeError(ErrorOf(store(|issued|, s.issued[|issued|])))
    ensures |s.issued| == |issued| + 2 ==> s.issued[|issued| + 1] == InsertOf(d, LegacyJsonColumns)
    ensures s.result == store(|s.issued| - 1, s.issued[|s.issued| - 1])
  {
    var first := Send(store, issued, InsertOf(d, LegacyColumns));
    if Legacy.IsLegacyJsonTypeError(ErrorOf(first.result)) then
      var second := Send(store, first.issued, InsertOf(d, LegacyJsonColumns));
      assert second.issued[..|issued|] == issued;
      second
    else first
  }

  /** The error of a failed insert, as the classifiers take it. */
  function ErrorOf(r: Result<JsValue, Legacy.StoreError>): (e: Option<Legacy.StoreError>)
    ensures e.Some? <==> r.Err?
    ensures r.Err? ==> e.value == r.error
  {
    if r.Err? then Some(r.error) else None
  }

  /** How one attempt ends: a created row (with the columns of the insert that
      made it), a retry with a fresh slug, or an error that is thrown. */
  datatype Attempt = Done(row: JsValue, columns: Columns) | Retry | Fail(error: Legacy.StoreError)

  /** An attempt's outcome together with the request's inserts after it. */
  datatype Round = Round(outcome: Attempt, issued: seq<Insert>)

  /** The outcome agrees with the answer to the last insert: a created row is that
      insert's row, a retry follows a unique violation, and a failure is any other
      error of that insert. */
  predicate Settles(store: Store, r: Round)
  {
    |r.issued| > 0 &&
    var n := |r.issued| - 1;
    match r.outcome
    case Done(row, columns) => store(n, r.issued[n]) == Ok(row) && r.issued[n].columns == columns
    case Retry => IsUnique(store(n, r.issued[n]))
    case Fail(e) => store(n, r.issued[n]) == Err(e) && !IsUnique(store(n, r.issued[n]))
  }

  /** The end of an attempt that reached the legacy `content` column. */
  function LegacyRound(store: Store, issued: seq<Insert>, d: Draft): (r: Round)
    ensures Settles(store, r)
    ensures r.issued == LegacyInsert(store, issued, d).issued
  {
    var l := LegacyInsert(store, issued, d);
    if l.result.Ok? then Round(Done(l.result.value, l.issued[|l.issued| - 1].columns), l.issued)
    else if IsUnique(l.result) then Round(Retry, l.issued)
    else Round(Fail(l.result.error), l.issued)
  }

  /** The error of an insert that named `content_markdown` on a schema without it. */
  predicate MissingMarkdown(e: Legacy.StoreError)
  {
    Legacy.IsMissingColumnError(Some(e), "content_markdown")
  }

  /** How many inserts of `issued` write the given column set. */
  function CountOf(issued: seq<Insert>, columns: Columns): nat
  {
    if issued == [] then 0
    else CountOf(issued[..|issued| - 1], columns) + (if issued[|issued| - 1].columns == columns then 1 else 0)
  }

  lemma {:induction false} CountOfAppend(a: seq<Insert>, b: seq<Insert>, columns: Columns)
    ensures CountOf(a + b, columns) == CountOf(a, columns) + CountOf(b, columns)
    decreases |b|
  {
    if b == [] {
      assert a + b == a;
    } else {
      var b' := b[..|b| - 1];
      assert (a + b)[..|a + b| - 1] == a + b';
      assert (a + b)[|a + b| - 1] == b[|b| - 1];
      CountOfAppend(a, b', columns);
    }
  }

  lemma {:induction false} CountOfNone(b: seq<Insert>, columns: Columns)
    requires forall i :: 0 <= i < |b| ==> b[i].columns != columns
    ensures CountOf(b, columns) == 0
    decreases |b|
  {
    if b != [] {
      CountOfNone(b[..|b| - 1], columns);
    }
  }

  /** A round that opens with one insert of `columns` and writes no other insert
      of them adds exactly one to their count. */
  lemma {:induction false} CountOfRound(issued: seq<Insert>, all: seq<Insert>, columns: Columns)
    requires |issued| < |all| && all[..|issued|] == issued && all[|issued|].columns == columns
    requires forall i :: |issued| < i < |all| ==> all[i].columns != columns
    ensures CountOf(all, columns) == CountOf(issued, columns) + 1
  {
    var tail := all[|issued|..];
    assert all == issued + tail;
    var rest := tail[1..];
    assert tail == [tail[0]] + rest;
    forall i | 0 <= i < |rest|
      ensures rest[i].columns != columns
    {
      assert rest[i] == all[|issued| + 1 + i];
    }
    CountOfNone(rest, columns);
    CountOfAppend([tail[0]], rest, columns);
    assert CountOf([tail[0]], columns) == 1 by {
      assert [tail[0]][..0] == [];
    }
    CountOfAppend(issued, tail, columns);
  }

  /** `ins` carries the shared fields of `d`, whatever its slug: workspace,
      author, title, unpublished, and the Markdown in the shape its columns take. */
  predicate Common(ins: Insert, d: Draft)
  {
    ins == InsertOf(Draft(d.workspaceId, d.authorId, d.title, ins.slug, d.markdown), ins.columns)
  }

  /** Every insert of `issued[from..]` carries the shared fields and the slug of `d`. */
  predicate SameDraft(issued: seq<Insert>, from: nat, d: Draft)
    requires from <= |issued|
  {
    forall i :: from <= i < |issued| ==> Common(issued[i], d) && issued[i].slug == d.slug
  }

  lemma LegacyInsertSameDraft(store: Store, issued: seq<Insert>, d: Draft, from: nat)
    requires from <= |issued| && SameDraft(issued, from, d)
    ensures SameDraft(LegacyInsert(store, issued, d).issued, from, d)
  {
    var s := LegacyInsert(store, issued, d);
    forall i | from <= i < |s.issued|
      ensures Common(s.issued[i], d) && s.issued[i].slug == d.slug
    {
      if i < |issued| {
        assert s.issued[i] == s.issued[..|issued|][i];
      }
    }
  }

  /** A retry follows a unique violation of the round's last insert. */
  lemma RetryUnique(store: Store, r: Round)
    requires Settles(store, r) && r.outcome.Retry?
    ensures r.issued != [] && IsUnique(store(|r.issued| - 1, r.issued[|r.issued| - 1]))
  {
  }

  /** The inserts before a round and the round's own share the fields of
      `base`. */
  lemma RoundCommon(issued: seq<Insert>, all: seq<Insert>, base: Draft, d: Draft)
    requires d == base.(slug := d.slug)
    requires |issued| <= |all| && all[..|issued|] == issued && SameDraft(all, |issued|, d)
    requires forall i :: 0 <= i < |issued| ==> Common(issued[i], base)
    ensures forall i :: 0 <= i < |all| ==> Common(all[i], base)
  {
    forall i | 0 <= i < |all|
      ensures Common(all[i], base)
    {
      if i < |issued| {
        assert all[i] == all[..|issued|][i];
      } else {
        assert Common(all[i], d);
      }
    }
  }

  /** `c` starts with `b`, which starts with `a`. */
  lemma PrefixOfPrefix(a: seq<Insert>, b: seq<Insert>, c: seq<Insert>)
    requires |a| < |b| <= |c| && b[..|a|] == a && c[..|b|] == b
    ensures c[..|a|] == a && c[|a|] == b[|a|]
  {
    assert c[..|a|] == c[..|b|][..|a|];
  }
}
