/** `POST /api/posts` (`src/app/api/posts/route.ts`): create an unpublished post
    for the signed-in author in their workspace. Up to four rounds run, each with
    a fresh random slug suffix; a round inserts into `content_markdown`, and on a
    schema without that column falls back to the legacy `content` column (once
    more as a JSON string when that column is JSON typed). The posts table is the
    `Store` oracle; the random suffix of round `k` is `suffix(k)`. */
module CreatePost {
  import opened Wrappers
  import opened JsValues
  import opened Inserts
  import Json
  import Legacy
  import Slug

  const UntitledPost: string := "Untitled Post"
  const MaxRounds: nat := 4

  datatype Response =
    | Unauthorized                               // 401
    | NoWorkspace                                // 404 `No workspace found`
    | Crashed                                    // 500, `json.title` on a `null` body throws
    | Created(row: JsValue)                      // 200, the created row
    | DatabaseError(error: Legacy.StoreError)    // 500, the store error
    | Exhausted                                  // 500 `Failed to create a unique slug`

  /** `json.title || 'Untitled Post'`: any truthy title is kept as it came. */
  function TitleOf(body: JsValue): (t: JsValue)
    ensures Truthy(t)
    ensures Truthy(Get(body, "title")) ==> t == Get(body, "title")
    ensures !Truthy(Get(body, "title")) ==> t == Str(UntitledPost)
  {
    Or(Get(body, "title"), Str(UntitledPost))
  }

  /** `typeof json.content_markdown === 'string' ? json.content_markdown : ''`. */
  function ContentOf(body: JsValue): (markdown: string)
    ensures Get(body, "content_markdown").Str? ==> markdown == Get(body, "content_markdown").s
    ensures !Get(body, "content_markdown").Str? ==> markdown == ""
  {
    match Get(body, "content_markdown")
    case Str(s) => s
    case _ => ""
  }

  /** The fields every insert of a request shares; the slug is the base the
      rounds add their suffixes to. */
  function BaseDraft(workspaceId: string, userId: string, body: JsValue): (d: Draft)
    ensures d.title == TitleOf(body) && d.markdown == ContentOf(body)
    ensures d.slug == Slug.SlugifyTitle(ToJsString(TitleOf(body)))
    ensures d.workspaceId == workspaceId && d.authorId == userId
  {
    Draft(workspaceId, userId, TitleOf(body), Slug.SlugifyTitle(ToJsString(TitleOf(body))), ContentOf(body))
  }

  /** The slug of round `k`: `${slugBase}-${randomSuffix()}`. */
  function RoundDraft(base: Draft, suffix: nat -> string, k: nat): (d: Draft)
    ensures d == base.(slug := base.slug + "-" + suffix(k))
  {
    base.(slug := base.slug + "-" + suffix(k))
  }

  /** Which insert may follow which within a request: a new round only after a
      unique violation; the legacy insert only after the Markdown insert failed on
      a missing `content_markdown`; the JSON string insert only after a JSON type
      error of the legacy insert. The route never writes the `live_*` columns. */
  predicate Follows(prev: Columns, answer: Result<JsValue, Legacy.StoreError>, next: Columns)
  {
    match next
    case MarkdownColumns => IsUnique(answer)
    case LegacyColumns => prev == MarkdownColumns && answer.Err? && MissingMarkdown(answer.error)
    case LegacyJsonColumns => prev == LegacyColumns && Legacy.IsLegacyJsonTypeError(ErrorOf(answer))
    case LiveColumns => false
  }

  /** The inserts of a request come in fallback order. */
  predicate FallbackOrder(store: Store, issued: seq<Insert>)
  {
    (|issued| > 0 ==> issued[0].columns == MarkdownColumns)
    && forall i :: 0 < i < |issued| ==> Follows(issued[i - 1].columns, store(i - 1, issued[i - 1]), issued[i].columns)
  }

  /** One round of the loop: the Markdown insert, then the legacy tail when the
      `content_markdown` column is missing. */
  function Round(store: Store, issued: seq<Insert>, d: Draft): (r: Inserts.Round)
    ensures |issued| < |r.issued| <= |issued| + 3
    ensures r.issued[..|issued|] == issued
    ensures r.issued[|issued|] == InsertOf(d, MarkdownColumns)
    ensures forall i :: |issued| < i < |r.issued| ==> r.issued[i].columns != MarkdownColumns
    ensures Settles(store, r)
  {
    var first := Send(store, issued, InsertOf(d, MarkdownColumns));
    if first.result.Ok? then Inserts.Round(Done(first.result.value, MarkdownColumns), first.issued)
    else if IsUnique(first.result) then Inserts.Round(Retry, first.issued)
    else if !MissingMarkdown(first.result.error) then Inserts.Round(Fail(first.result.error), first.issued)
    else
      var r := LegacyRound(store, first.issued, d);
      PrefixOfPrefix(issued, first.issued, r.issued);
      r
  }

  /** A round keeps the request's inserts in fallback order and gives its own
      inserts the shared fields. */
  lemma RoundOrder(store: Store, issued: seq<Insert>, d: Draft)
    requires FallbackOrder(store, issued)
    requires issued != [] ==> IsUnique(store(|issued| - 1, issued[|issued| - 1]))
    ensures FallbackOrder(store, Round(store, issued, d).issued)
    ensures SameDraft(Round(store, issued, d).issued, |issued|, d)
  {
    var first := Send(store, issued, InsertOf(d, MarkdownColumns));
    assert SameDraft(first.issued, |issued|, d);
    assert FallbackOrder(store, first.issued) by {
      forall i | 0 < i < |first.issued|
        ensures Follows(first.issued[i - 1].columns, store(i - 1, first.issued[i - 1]), first.issued[i].columns)
      {
        if i < |issued| {
          assert first.issued[i - 1] == issued[i - 1] && first.issued[i] == issued[i];
        }
      }
    }
    if first.result.Err? && !IsUnique(first.result) && MissingMarkdown(first.result.error) {
      LegacyOrder(store, first.issued, d, |issued|);
    }
  }

  lemma LegacyOrder(store: Store, issued: seq<Insert>, d: Draft, from: nat)
    requires from <= |issued| && SameDraft(issued, from, d)
    requires FallbackOrder(store, issued) && |issued| > 0
    requires issued[|issued| - 1].columns == MarkdownColumns
    requires var a := store(|issued| - 1, issued[|issued| - 1]); a.Err? && MissingMarkdown(a.error)
    ensures FallbackOrder(store, LegacyInsert(store, issued, d).issued)
    ensures SameDraft(LegacyInsert(store, issued, d).issued, from, d)
  {
    var s := LegacyInsert(store, issued, d);
    LegacyInsertSameDraft(store, issued, d, from);
    forall i | 0 < i < |s.issued|
      ensures Follows(s.issued[i - 1].columns, store(i - 1, s.issued[i - 1]), s.issued[i].columns)
    {
      if i < |issued| {
        assert s.issued[i - 1] == s.issued[..|issued|][i - 1] && s.issued[i] == s.issued[..|issued|][i];
      } else if i == |issued| {
        assert s.issued[i - 1] == s.issued[..|issued|][i - 1];
      }
    }
  }

  /** Where rounds may start: nothing issued or a unique violation last, in
      fallback order, every insert with the shared fields of `base`. */
  predicate Opening(store: Store, issued: seq<Insert>, base: Draft)
  {
    && FallbackOrder(store, issued)
    && (issued != [] ==> IsUnique(store(|issued| - 1, issued[|issued| - 1])))
    && forall i :: 0 <= i < |issued| ==> Common(issued[i], base)
  }

  lemma OpeningRound(store: Store, issued: seq<Insert>, base: Draft, d: Draft)
    requires d == base.(slug := d.slug)
    ensures var r := Round(store, issued, d);
            Opening(store, issued, base) ==>
              && FallbackOrder(store, r.issued)
              && (forall i :: 0 <= i < |r.issued| ==> Common(r.issued[i], base))
              && (r.outcome.Retry? ==> Opening(store, r.issued, base))
  {
    var r := Round(store, issued, d);
    if Opening(store, issued, base) {
      RoundOrder(store, issued, d);
      OpeningAfter(store, issued, base, d, r);
    }
  }

  /** `OpeningRound` for any round that extends the inserts in fallback order,
      settles, and gives its own inserts the fields of `d`. */
  lemma OpeningAfter(store: Store, issued: seq<Insert>, base: Draft, d: Draft, r: Inserts.Round)
    requires d == base.(slug := d.slug) && Opening(store, issued, base)
    requires |issued| <= |r.issued| && r.issued[..|issued|] == issued
    requires FallbackOrder(store, r.issued) && SameDraft(r.issued, |issued|, d) && Settles(store, r)
    ensures forall i :: 0 <= i < |r.issued| ==> Common(r.issued[i], base)
    ensures r.outcome.Retry? ==> Opening(store, r.issued, base)
  {
    RoundCommon(issued, r.issued, base, d);
    if r.outcome.Retry? {
      RetryUnique(store, r);
    }
  }

  /** The success body: the row as the store returned it, and after a legacy
      insert, the row with `content_markdown` set to the request's Markdown. */
  function Body(row: JsValue, columns: Columns, markdown: string): (r: JsValue)
    ensures columns == MarkdownColumns ==> r == row
    ensures columns != MarkdownColumns ==>
              Get(r, "content_markdown") == Str(markdown)
              && forall key :: key != "content_markdown" ==> Get(r, key) == Get(row, key)
  {
    if columns == MarkdownColumns then row else Assign(row, "content_markdown", Str(markdown))
  }

  /** What a request ends with: its response and every insert it issued. */
  datatype Outcome = Outcome(response: Response, issued: seq<Insert>)

  /** The answer to the last insert of a request. */
  function LastAnswer(store: Store, issued: seq<Insert>): Result<JsValue, Legacy.StoreError>
    requires issued != []
  {
    store(|issued| - 1, issued[|issued| - 1])
  }

  /** How a response agrees with the inserts after `issued`: a created row is
      the answer to the last of them (with the Markdown echoed after a legacy
      insert), a database error is that answer when it is no unique violation,
      and the slug is exhausted only on a unique violation. */
  predicate Ends(store: Store, issued: seq<Insert>, c: Outcome, markdown: string)
  {
    match c.response
    case Created(row) =>
      |issued| < |c.issued| && LastAnswer(store, c.issued).Ok?
      && row == Body(LastAnswer(store, c.issued).value, c.issued[|c.issued| - 1].columns, markdown)
    case DatabaseError(e) =>
      |issued| < |c.issued| && LastAnswer(store, c.issued) == Err(e) && !IsUnique(LastAnswer(store, c.issued))
    case Exhausted => |issued| < |c.issued| ==> IsUnique(LastAnswer(store, c.issued))
    case _ => false
  }

  /** The rounds from round `k` on. They run at most `MaxRounds - k` rounds (one
      Markdown insert each), only append to the inserts, and end as `Ends` says;
      the slug is exhausted only after all of them. */
  function Rounds(store: Store, issued: seq<Insert>, base: Draft, suffix: nat -> string, k: nat): (c: Outcome)
    requires k <= MaxRounds
    ensures |issued| <= |c.issued| && c.issued[..|issued|] == issued
    ensures CountOf(c.issued, MarkdownColumns) <= CountOf(issued, MarkdownColumns) + MaxRounds - k
    ensures c.response.Exhausted? ==> CountOf(c.issued, MarkdownColumns) == CountOf(issued, MarkdownColumns) + MaxRounds - k
    ensures Ends(store, issued, c, base.markdown)
    ensures Opening(store, issued, base) ==>
              FallbackOrder(store, c.issued) && forall i :: 0 <= i < |c.issued| ==> Common(c.issued[i], base)
    decreases MaxRounds - k
  {
    if k == MaxRounds then Outcome(Exhausted, issued)
    else
      var d := RoundDraft(base, suffix, k);
      var round := Round(store, issued, d);
      CountOfRound(issued, round.issued, MarkdownColumns);
      OpeningRound(store, issued, base, d);
      EndsOfRound(store, issued, round, base.markdown);
      match round.outcome
      case Done(row, columns) => Outcome(Created(Body(row, columns, base.markdown)), round.issued)
      case Fail(e) => Outcome(DatabaseError(e), round.issued)
      case Retry =>
        var rest := Rounds(store, round.issued, base, suffix, k + 1);
        PrefixOfPrefix(issued, round.issued, rest.issued);
        RetryUnique(store, round);
        EndsAfter(store, issued, round.issued, rest, base.markdown);
        rest
  }

  lemma EndsOfRound(store: Store, issued: seq<Insert>, round: Inserts.Round, markdown: string)
    requires |issued| < |round.issued| && Settles(store, round)
    ensures round.outcome.Done? ==>
              Ends(store, issued, Outcome(Created(Body(round.outcome.row, round.outcome.columns, markdown)), round.issued), markdown)
    ensures round.outcome.Fail? ==>
              Ends(store, issued, Outcome(DatabaseError(round.outcome.error), round.issued), markdown)
  {
  }

  lemma EndsAfter(store: Store, issued: seq<Insert>, mid: seq<Insert>, c: Outcome, markdown: string)
    requires |issued| < |mid| <= |c.issued| && c.issued[..|mid|] == mid && Ends(store, mid, c, markdown)
    requires IsUnique(LastAnswer(store, mid))
    ensures Ends(store, issued, c, markdown)
  {
  }

  /** The handler: 401 without a user and 404 without a workspace, both before
      any insert; a `null` body throws on reading its title (500) before any
      insert; then the rounds. */
  function PostSpec(user: Option<string>, workspace: Option<string>, body: JsValue,
                    store: Store, suffix: nat -> string): Outcome
  {
    if user.None? then Outcome(Unauthorized, [])
    else if workspace.None? then Outcome(NoWorkspace, [])
    else if body == Null then Outcome(Crashed, [])
    else Rounds(store, [], BaseDraft(workspace.value, user.value, body), suffix, 0)
  }

  /** What the handler promises about every request: the two refusals and the
      `null` body issue no insert; any other body ends as its last insert was
      answered (`Ends`); at most four rounds run, in fallback order, and the slug is
      exhausted only after four; every insert is unpublished, by the caller, in
      the caller's workspace, with the defaulted title and the Markdown (or its
      JSON string in the last fallback). */
  lemma PostShape(user: Option<string>, workspace: Option<string>, body: JsValue,
                  store: Store, suffix: nat -> string)
    ensures var c := PostSpec(user, workspace, body, store, suffix);
            && (user.None? ==> c == Outcome(Unauthorized, []))
            && (user.Some? && workspace.None? ==> c == Outcome(NoWorkspace, []))
            && (user.Some? && workspace.Some? && body == Null ==> c == Outcome(Crashed, []))
            && (user.Some? && workspace.Some? && body != Null ==> Ends(store, [], c, ContentOf(body)))
            && FallbackOrder(store, c.issued)
            && CountOf(c.issued, MarkdownColumns) <= MaxRounds
            && (c.response.Exhausted? ==> CountOf(c.issued, MarkdownColumns) == MaxRounds)
            && (forall i :: 0 <= i < |c.issued| ==>
                  && !c.issued[i].published
                  && Some(c.issued[i].authorId) == user && Some(c.issued[i].workspaceId) == workspace
                  && c.issued[i].title == TitleOf(body)
                  && (c.issued[i].content == ContentOf(body) || c.issued[i].content == Json.Quote(ContentOf(body))))
  {
    if user.Some? && workspace.Some? && body != Null {
      var base := BaseDraft(workspace.value, user.value, body);
      assert Opening(store, [], base);
      assert CountOf([], MarkdownColumns) == 0;
    }
  }

  /** The handler as the route runs it. */
  method Post(user: Option<string>, workspace: Option<string>, body: JsValue,
              store: Store, suffix: nat -> string)
    returns (response: Response, issued: seq<Insert>)
    ensures Outcome(response, issued) == PostSpec(user, workspace, body, store, suffix)
  {
    issued := [];
    if user.None? {
      return Unauthorized, issued;
    }
    if workspace.None? {
      return NoWorkspace, issued;
    }
    if body == Null {
      return Crashed, issued;
    }
    var base := BaseDraft(workspace.value, user.value, body);
    var attempt := 0;
    var outcome: Attempt := Retry;
    while attempt < MaxRounds && outcome.Retry?
      invariant 0 <= attempt <= MaxRounds
      invariant outcome.Retry? ==> Rounds(store, issued, base, suffix, attempt) == Rounds(store, [], base, suffix, 0)
      invariant outcome.Done? ==>
                  Outcome(Created(Body(outcome.row, outcome.columns, base.markdown)), issued) == Rounds(store, [], base, suffix, 0)
      invariant outcome.Fail? ==> Outcome(DatabaseError(outcome.error), issued) == Rounds(store, [], base, suffix, 0)
      decreases MaxRounds - attempt
    {
      var round := RunRound(store, issued, RoundDraft(base, suffix, attempt));
      RoundStep(store, issued, base, suffix, attempt);
      outcome, issued := round.outcome, round.issued;
      attempt := attempt + 1;
    }
    match outcome {
      case Done(row, columns) => response := Created(Body(row, columns, base.markdown));
      case Fail(e) => response := DatabaseError(e);
      case Retry => response := Exhausted;
    }
  }

  /** One round as the route runs it, with `legacyInsert` reassigned by the JSON
      string retry. */
  method RunRound(store: Store, issued: seq<Insert>, d: Draft) returns (round: Inserts.Round)
    ensures round == Round(store, issued, d)
  {
    var markdownInsert := Send(store, issued, InsertOf(d, MarkdownColumns));
    if markdownInsert.result.Ok? {
      return Inserts.Round(Done(markdownInsert.result.value, MarkdownColumns), markdownInsert.issued);
    }
    if IsUnique(markdownInsert.result) {
      return Inserts.Round(Retry, markdownInsert.issued);
    }
    if !MissingMarkdown(markdownInsert.result.error) {
      return Inserts.Round(Fail(markdownInsert.result.error), markdownInsert.issued);
    }
    var legacyInsert := Send(store, markdownInsert.issued, InsertOf(d, LegacyColumns));
    if Legacy.IsLegacyJsonTypeError(ErrorOf(legacyInsert.result)) {
      legacyInsert := Send(store, legacyInsert.issued, InsertOf(d, LegacyJsonColumns));
    }
    var last := legacyInsert.issued[|legacyInsert.issued| - 1];
    if legacyInsert.result.Ok? {
      round := Inserts.Round(Done(legacyInsert.result.value, last.columns), legacyInsert.issued);
    } else if IsUnique(legacyInsert.result) {
      round := Inserts.Round(Retry, legacyInsert.issued);
    } else {
      round := Inserts.Round(Fail(legacyInsert.result.error), legacyInsert.issued);
    }
  }

  /** One turn of the round loop. */
  lemma RoundStep(store: Store, issued: seq<Insert>, base: Draft, suffix: nat -> string, k: nat)
    requires k < MaxRounds
    ensures var round := Round(store, issued, RoundDraft(base, suffix, k));
            var c := Rounds(store, issued, base, suffix, k);
            (round.outcome.Done? ==> c == Outcome(Created(Body(round.outcome.row, round.outcome.columns, base.markdown)), round.issued))
            && (round.outcome.Fail? ==> c == Outcome(DatabaseError(round.outcome.error), round.issued))
            && (round.outcome.Retry? ==> c == Rounds(store, round.issued, base, suffix, k + 1))
  {
  }
}
