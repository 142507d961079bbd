# blog-platform in Dafny

A model of the core of a multi-tenant blog authoring platform. Authors write
Markdown posts in a studio, save them directly or as a pending update of a
published post, keep a local recovery copy of unsaved work, and publish,
unpublish or delete them. Readers page through a workspace's published posts
with an opaque cursor. AI agents reach the same posts through MCP tools,
authenticated by hashed API keys.

The model follows the repository one source file per module:

- The post write paths:
  - `src/app/api/posts/route.ts` (CreatePost, with the inserts it shares with MCP in Inserts);
  - `src/app/api/posts/bulk/route.ts` (BulkRoute);
  - the legacy-schema helpers of `src/lib/markdown/legacy.ts` (Legacy).
- The read paths:
  - the public listing with its cursor codec, `src/lib/public/posts.ts` (PublicPosts, over Json, Utf8 and Base64Url);
  - the MCP post tools, `src/lib/mcp/posts.ts` (McpPosts);
  - the text normalisation both of them use (PostText, Slug).
- The client:
  - the studio `PostStudio.tsx` (PostStudio);
  - the Markdown editor `MarkdownEditor.tsx` (MarkdownEditor);
  - the dashboard `DashboardPostIndex.tsx` (DashboardPostIndex, IdLists);
  - the post list, the renderer with its inline parser and shortcodes, code highlighting, the code and diagram cards, the user menu and `cn` (PostList, MarkdownRenderer, InlineMarkdown, Shortcodes, Highlight, CodeBlockCard, MermaidDiagramCard, UserNavMenu, ClassNames).
- MCP key management:
  - `src/lib/mcp/auth.ts` (McpAuth);
  - the key and admin routes (McpKeysRoute, AdminApiKeys, AdminUsers);
  - the viewer name of `src/lib/auth/viewer.ts` (Viewer).
- The scripts:
  - the lint loop (AiLintCheck, AiLintLoop);
  - the query benchmark and explain scripts with their `.env.local` reader (McpBenchmark, McpExplain, EnvFile).

Pure code is modelled as datatypes, functions and lemmas. Code that changes state is modelled as classes:

- the studio;
- the editor;
- the dashboard;
- the posts and key tables;
- the highlight cache;
- the diagram loader.

Each of those has methods whose contracts give the new state. Loops are methods with invariants, proved equal to a recursive reference definition. The posts table is a map from id to row. The database, the clock, random values, `window.confirm`, URL sanitising, hashing and other code outside the repository are parameters.

Where the description of the system and the code disagree, the model follows the code. The description calls the excerpt of a post (`extractExcerpt` in `src/lib/public/posts.ts` and `excerpt` in `src/lib/mcp/posts.ts`) the trimmed, collapsed text. The code trims first and then cuts at 180 or 240 characters, so an excerpt can end in a space. `PostText.ExcerptMayEndInSpace` states this of the model.

## Model

| member | source | states |
|---|---|---|
| AdminApiKeys.ListedKeys | src/app/api/admin/api-keys/route.ts:16-27 | a key is listed iff it is in the table and, while the scope filter holds, scoped to `mcp`; with the filter dropped every key is listed; ListedKeysAppend keeps the query's order |
| AdminApiKeys.ListedKeysAppend | src/app/api/admin/api-keys/route.ts:16-27 | the scope filter distributes over concatenation, so the listed keys keep the order the query returned them in |
| AdminApiKeys.OwnerIds | src/app/api/admin/api-keys/route.ts:34 | the owner ids are duplicate-free and are exactly the non-empty owner ids of the keys |
| AdminApiKeys.UsersById | src/app/api/admin/api-keys/route.ts:36-46 | an id maps to its profile iff it was asked for, the profile exists and the profile query did not fail |
| AdminApiKeys.JoinOwners | src/app/api/admin/api-keys/route.ts:48-51 | one entry per key, in order, each key unchanged with the owner from the map or none |
| AdminApiKeys.Get | src/app/api/admin/api-keys/route.ts:11-54 | the guard answers first; a failure other than the missing scope column is 500; the retry without the filter answers 500 on its own failure and lists otherwise; a listing keeps every key in place and attaches an owner exactly when its profile was found |
| AdminApiKeys.Post | src/app/api/admin/api-keys/route.ts:56-64 | the guard's answer, otherwise always 403 |
| AdminUsers.Param | src/app/api/admin/users/route.ts:9-11 | a present parameter is trimmed, an absent one is empty; the result carries no surrounding white space |
| AdminUsers.ParseQuery | src/app/api/admin/users/route.ts:6-13 | the search, role and status parameters, each read as above |
| AdminUsers.QueryFilters | src/app/api/admin/users/route.ts:27-31 | a filter is applied iff its parameter is non-empty, with exactly that value |
| AdminUsers.Listed | src/app/api/admin/users/route.ts:22-33 | a row is returned iff it passes every applied filter (the search match is the store's); ListedAppend keeps the store's order |
| AdminUsers.ListedAppend | src/app/api/admin/users/route.ts:22-33 | the filters distribute over concatenation, so the returned rows keep the store's order |
| AdminUsers.Get | src/app/api/admin/users/route.ts:15-40 | the guard answers first; a failed query is 500 with its message; otherwise exactly the rows that pass the parsed filters |
| AdminUsers.BlankParamsFilterNothing | src/app/api/admin/users/route.ts:9-11 | absent or blank parameters apply no filter |
| AdminUsers.Normalize | src/app/api/admin/users/route.ts:53-56 | the email trimmed and lowercased, the name trimmed, role `viewer` and status `pending` by default |
| AdminUsers.BlankFieldsRefused | src/app/api/admin/users/route.ts:58-60 | a white-space-only email or name normalises to empty, so the request is refused |
| AdminUsers.Post | src/app/api/admin/users/route.ts:42-100 | the guard answers first; an empty email or name is 400 before any account is asked for; otherwise the normalised account is requested; a failed creation is 500 with its message or `Failed to create user`; a failed profile update is 500; otherwise 201 with the updated profile and the temporary password |
| Viewer.PickDisplayName | src/lib/auth/viewer.ts:22-29 | the first usable text among the profile name, the metadata `full_name \|\| name` and the email, untrimmed, else `User`; never blank |
| Viewer.PickAvatar | src/lib/auth/viewer.ts:31-38 | the profile URL, else the metadata `avatar_url \|\| picture`, each only when not blank; none exactly when neither is usable |
| Viewer.FullNameFirst | src/lib/auth/viewer.ts:24 | `full_name` wins over `name`, and `name` is used when `full_name` is absent |
| Viewer.GetViewerProfile | src/lib/auth/viewer.ts:40-61 | a failed or empty lookup reads as no profile and does not fail; the display name is never blank; the email is the account's |
| McpKeysRoute.KeysOf | src/app/api/mcp/keys/me/route.ts:19-23 | exactly the rows of the given user |
| McpKeysRoute.AtMostOneKey | src/app/api/mcp/keys/me/route.ts:70-72 | with one key per user, a user has at most one row |
| McpKeysRoute.KeyName | src/app/api/mcp/keys/me/route.ts:45 | the trimmed name when it is non-empty, else `Personal MCP Key`; never empty |
| McpKeysRoute.Expiry | src/app/api/mcp/keys/me/route.ts:46-58 | no expiry exactly when it is absent, null or empty; otherwise an unparsable date or one not after now is refused (400), and an accepted expiry lies after now |
| McpKeysRoute.Get | src/app/api/mcp/keys/me/route.ts:11-30 | 401 without a user; a query failure is 500; several rows of the user are 500 (`maybeSingle`), which cannot happen with one key per user; otherwise the user's key, present iff the user has one |
| McpKeysRoute.NewKey | src/app/api/mcp/keys/me/route.ts:74-88 | the stored row: the key's hash, its first 12 characters as prefix, status `active`, never used or revoked, scoped to `mcp` unless the column is missing |
| McpKeysRoute.Post | src/app/api/mcp/keys/me/route.ts:32-115 | 401, then the expiry checks, then a lookup failure (500), an existing key (409) or several rows (500), each writing nothing; otherwise the insert, retried without `scope` only on the missing column, answers 500 on failure or 201 with exactly the row appended and the plaintext `tbk_…`; one key per user is kept |
| McpKeysRoute.PrefixShowsMarker | src/app/api/mcp/keys/me/route.ts:74-76 | the stored prefix starts with `tbk_` and holds 12 characters (fewer only for a short random part) |
| McpExplain.PrintPlan | scripts/mcp-explain.mjs:26-34 | prints the title line, then the error message or the plan; reports success iff there was no error |
| McpExplain.Explain | scripts/mcp-explain.mjs:114-126 | all plans succeeded iff the three post plans did and, when a key hash was found, the key lookup did; eight lines with a key lookup, six without |
| McpExplain.RunExplain | scripts/mcp-explain.mjs:36-133 | `.env.local` is applied when it exists; a missing variable fails; a failed sample query fails with its message; no sample skips; a sample prints the plans, and the hint exactly when one failed |
| McpExplain.AbsentKeyIsOk | scripts/mcp-explain.mjs:114-126 | without a (non-empty) key hash the key plan cannot raise the hint; with one, a failed key plan always raises it |
| McpBenchmark.FindRunsArg | scripts/mcp-benchmark.mjs:28 | the first argument starting with `--runs=`, or none when no argument does |
| McpBenchmark.ParseRuns | scripts/mcp-benchmark.mjs:27-32 | 60 without the flag or when its value is not a finite number or below 5; otherwise the value rounded down; always at least 5 |
| McpBenchmark.PercentileIndex | scripts/mcp-benchmark.mjs:34-37 | the index lies inside the samples and at most `floor(n * p)` |
| McpBenchmark.PercentileIndexMonotone | scripts/mcp-benchmark.mjs:34-37 | a larger fraction never picks an earlier sample |
| McpBenchmark.InsertSamplePerm | scripts/mcp-benchmark.mjs:48 | inserting a sample keeps every sample and adds exactly that one |
| McpBenchmark.InsertSampleAscending | scripts/mcp-benchmark.mjs:48 | inserting into ascending samples keeps them ascending |
| McpBenchmark.SortedSamplesSpec | scripts/mcp-benchmark.mjs:48 | the reference sort is ascending and a permutation of the samples |
| McpBenchmark.AscendingUnique | scripts/mcp-benchmark.mjs:48 | two ascending permutations of the same samples are equal, so any correct sort gives the reference order |
| McpBenchmark.SumBounds | scripts/mcp-benchmark.mjs:53 | samples between two bounds sum to between `n` times each bound |
| McpBenchmark.StatsOrdered | scripts/mcp-benchmark.mjs:49-56 | on sorted samples min <= p50 <= p95 <= p99 <= max, and min <= avg <= max |
| McpBenchmark.SortSamples | scripts/mcp-benchmark.mjs:48 | `samples.sort((a, b) => a - b)` in place: the array ends ascending and a permutation of what it held |
| McpBenchmark.InsertLast | scripts/mcp-benchmark.mjs:48 | one insertion step: the sorted prefix grows by one and the array keeps its elements |
| McpBenchmark.SortCopy | scripts/mcp-benchmark.mjs:48 | the sorted copy is ascending, a permutation of the samples, and equal to the reference sort |
| McpBenchmark.Durations | scripts/mcp-benchmark.mjs:41-47 | one duration per call |
| McpBenchmark.Timed | scripts/mcp-benchmark.mjs:39-57 | succeeds iff every call succeeds; otherwise fails with `<label> failed: <message>` of the first failing call; the figures are those of the sorted durations |
| McpBenchmark.RunBenchmark | scripts/mcp-benchmark.mjs:59-169 | `.env.local` applied when it exists; a missing variable fails; a failed sample query fails with its message; no sample skips; with a sample there is a report iff every timed query succeeds (the key lookup only when a hash was found), and each figure set is the reference statistics of its query's durations |
| BulkRoute.ActionOf | src/app/api/posts/bulk/route.ts:35-40 | the action is `unpublish` or `delete` exactly when `json.action` is that string |
| BulkRoute.NonEmptyStringsMembers | src/app/api/posts/bulk/route.ts:36-38 | an id is kept iff it is a non-empty string item of the array |
| BulkRoute.NonEmptyStringsOfClean | src/app/api/posts/bulk/route.ts:37 | an array of non-empty strings is kept whole and in order |
| BulkRoute.NonEmptyStringsAppend | src/app/api/posts/bulk/route.ts:37 | the filter distributes over concatenation, so kept ids keep their order |
| BulkRoute.IdsOf | src/app/api/posts/bulk/route.ts:36-38 | no ids unless `json.ids` is an array; otherwise its non-empty string items |
| BulkRoute.Owned | src/app/api/posts/bulk/route.ts:56-75 | a row is targeted iff it exists, is listed and was written by the caller |
| BulkRoute.PublishedAmong | src/app/api/posts/bulk/route.ts:82 | exactly the published rows among the targets |
| BulkRoute.UnpublishEffect | src/app/api/posts/bulk/route.ts:49-58 | the update clears the publish fields and stamps exactly the caller's listed rows; every other row is untouched |
| BulkRoute.DeleteEffect | src/app/api/posts/bulk/route.ts:98-104 | the delete removes only targeted, own, unpublished rows; every other row stays as it was |
| BulkRoute.UnpublishIdempotent | src/app/api/posts/bulk/route.ts:49-58 | a second bulk unpublish of the same targets with the same timestamp leaves the table as the first left it |
| BulkRoute.DeleteIdempotent | src/app/api/posts/bulk/route.ts:98-104 | after a bulk delete no row is left that the same delete would remove |
| BulkRoute.DeleteAllTargets | src/app/api/posts/bulk/route.ts:93-104 | when no target is published, the delete removes every target |
| BulkRoute.PostsTable.Post | src/app/api/posts/bulk/route.ts:26-115 | 401 without a user; a `null` body throws (500); an unsupported action or no ids is 400; an unpublish answers 500 on a failed update or reports exactly the targets it unpublished; a delete answers 500 on a failed lookup, 400 with the published targets when there are any, success with nothing for no targets, 500 on a failed delete, else removes and reports exactly the targets; nothing changes unless it succeeds |
| ClassNames.EnabledKeys | src/lib/utils.ts:18-22 | a name is kept iff some entry maps it to `true`, in entry order |
| ClassNames.EnabledKeysAppend | src/lib/utils.ts:19-21 | the enabled names of consecutive entries follow each other |
| ClassNames.Flatten | src/lib/utils.ts:12-24 | nothing for a falsy value or `true`; a non-empty string or non-zero number as itself; an object as its enabled names |
| ClassNames.FlattenArrMembers | src/lib/utils.ts:15-17 | a name comes from an array iff it comes from one of its elements |
| ClassNames.FlattenAppend | src/lib/utils.ts:15-17 | the names of a joined array are the names of its parts, in order |
| ClassNames.FlattenSingleton | src/lib/utils.ts:15-17 | nesting a value in an array changes nothing |
| ClassNames.Cn | src/lib/utils.ts:26-28 | no arguments give the empty class string |
| ClassNames.CnAppend | src/lib/utils.ts:26-28 | arguments without names leave no trace; two argument lists with names are joined by one space |
| CodeBlockCard.NormalizeLanguageLabel | src/components/blog/CodeBlockCard.tsx:13-22 | `text` for no or an empty name; otherwise the lowercased name with `ts`, `js`, `py`, `sh`, `md` spelled out; never empty, in lower case and never a short name |
| CodeBlockCard.LabelInvertsAlias | src/components/blog/CodeBlockCard.tsx:13-22 | the label of `ts`, `js` or `md` is mapped back to the short name by the highlighter's aliases |
| CodeBlockCard.HeaderLabel | src/components/blog/CodeBlockCard.tsx:66 | the trimmed title when it is not blank, else the language label; never empty |
| CodeBlockCard.BodyOf | src/components/blog/CodeBlockCard.tsx:40-85 | the highlighted HTML exactly when it exists and is non-empty, else the plain code |
| Inserts.InsertOf | src/app/api/posts/route.ts:66-116 | an insert is unpublished and carries the draft's slug, title, author and workspace, with the Markdown, or its JSON string for the JSON-typed column |
| Inserts.Send | src/app/api/posts/route.ts:66-77 | one more insert is issued and the store answers it |
| Inserts.LegacyInsert | src/app/api/posts/route.ts:91-117 | the `content` insert, then a second one with `JSON.stringify` of the Markdown exactly when the first failed on the JSON type; the answer is the last insert's |
| Inserts.LegacyRound | src/app/api/posts/route.ts:91-130 | the legacy tail settles the round and issues the legacy inserts |
| Inserts.CountOfRound | src/app/api/posts/route.ts:63-66 | a round adds exactly one Markdown insert to the count |
| Inserts.RetryUnique | src/app/api/posts/route.ts:83-128 | a round is retried only after a unique violation of its last insert |
| CreatePost.TitleOf | src/app/api/posts/route.ts:59 | `json.title` when truthy, kept as it came, else `Untitled Post`; always truthy (a `null` body never reaches it) |
| CreatePost.ContentOf | src/app/api/posts/route.ts:61 | the Markdown when `content_markdown` is a string, else empty |
| CreatePost.BaseDraft | src/app/api/posts/route.ts:58-61 | the draft's title, Markdown, slug base from `slugifyTitle(String(title))`, workspace and author |
| CreatePost.RoundDraft | src/app/api/posts/route.ts:64 | the slug of a round is the base, a dash and that round's random suffix |
| CreatePost.Round | src/app/api/posts/route.ts:66-130 | a round opens with one Markdown insert, adds at most two legacy inserts after it, only appends, and settles |
| CreatePost.RoundOrder | src/app/api/posts/route.ts:63-131 | a round keeps the inserts in fallback order and gives its own the round's fields |
| CreatePost.Body | src/app/api/posts/route.ts:80-124 | the row as returned; after a legacy insert, the row with `content_markdown` set to the request's Markdown and every other field unchanged |
| CreatePost.Rounds | src/app/api/posts/route.ts:63-133 | from round `k` at most `4 - k` rounds run; the slug is exhausted only after all of them; the end is the answer to the last insert |
| CreatePost.RoundStep | src/app/api/posts/route.ts:63-131 | a created row or a non-unique failure ends the loop, a unique violation goes on with the next round |
| CreatePost.PostShape | src/app/api/posts/route.ts:40-134 | 401 and 404 issue no insert; a `null` body, whose `json.title` throws, answers 500 with no insert; any other body ends as its last insert was answered (the row, that insert's error when it is no unique violation, or exhaustion after a unique violation); at most four rounds run in fallback order and the slug is exhausted only after four; every insert is unpublished, by the caller, in the caller's workspace, with the defaulted title and the Markdown or its JSON string |
| CreatePost.Post | src/app/api/posts/route.ts:40-134 | the route's checks and loop give exactly the response and inserts of the reference definition, whose outcomes PostShape characterises |
| CreatePost.RunRound | src/app/api/posts/route.ts:66-130 | the round as the loop body runs it equals the reference round |
| DashboardPostIndex.FilterPosts | src/components/blog/DashboardPostIndex.tsx:69-78 | a post is kept iff it passes the status filter and, unless the needle is empty, its lowercased `title \|\| 'untitled'` and slug contain the needle; no filter keeps every post; FilterPostsAppend keeps the order |
| DashboardPostIndex.FilterPostsAppend | src/components/blog/DashboardPostIndex.tsx:69-78 | filtering distributes over concatenation, so the filtered posts keep the list's order |
| DashboardPostIndex.TotalPages | src/components/blog/DashboardPostIndex.tsx:84 | the fewest pages of 20 that hold the posts, and at least one |
| DashboardPostIndex.PageOf | src/components/blog/DashboardPostIndex.tsx:100-103 | page `p` is the slice from `(p - 1) * 20` of at most 20 posts, empty past the end |
| DashboardPostIndex.PagesUpToPrefix | src/components/blog/DashboardPostIndex.tsx:100-103 | the first `k` pages read in order are the first `20 * k` posts |
| DashboardPostIndex.PagesPartition | src/components/blog/DashboardPostIndex.tsx:84-103 | pages 1 to the page count give back every filtered post exactly once, in order |
| DashboardPostIndex.ItemPage | src/components/blog/DashboardPostIndex.tsx:84-103 | post `i` sits on page `i / 20 + 1` at position `i % 20`, and that page exists |
| DashboardPostIndex.SelectedPosts | src/components/blog/DashboardPostIndex.tsx:108-111 | exactly the posts whose id is selected; SelectedPostsAppend keeps the order |
| DashboardPostIndex.SelectedPostsAppend | src/components/blog/DashboardPostIndex.tsx:108-111 | the selection filter distributes over concatenation, so the selected posts keep the list's order |
| DashboardPostIndex.PublishedCountSpec | src/components/blog/DashboardPostIndex.tsx:112-116 | the published count is positive iff some post is published, and short of the length iff some post is a draft |
| DashboardPostIndex.CanBulkUnpublish | src/components/blog/DashboardPostIndex.tsx:117 | iff no bulk action runs and some selected post is published |
| DashboardPostIndex.CanBulkDelete | src/components/blog/DashboardPostIndex.tsx:118 | iff no bulk action runs, some selected post is a draft and none is published |
| DashboardPostIndex.MarkUnpublished | src/components/blog/DashboardPostIndex.tsx:120-130 | the listed posts become drafts without a publication time, stamped now; the others are unchanged; order and length kept |
| DashboardPostIndex.DropPosts | src/components/blog/DashboardPostIndex.tsx:132-135 | exactly the posts whose id is not listed; DropPostsAppend keeps the order |
| DashboardPostIndex.DropPostsAppend | src/components/blog/DashboardPostIndex.tsx:132-135 | dropping distributes over concatenation, so the remaining posts keep their order |
| DashboardPostIndex.Dashboard.constructor | src/components/blog/DashboardPostIndex.tsx:60-67 | the initial posts, empty query, all statuses, page 1, no selection |
| DashboardPostIndex.Dashboard.ClampPage | src/components/blog/DashboardPostIndex.tsx:90-92 | the page becomes `min(page, totalPages)` |
| DashboardPostIndex.Dashboard.SetQuery | src/components/blog/DashboardPostIndex.tsx:86-88 | a changed query sends the view to page 1 |
| DashboardPostIndex.Dashboard.SetStatusFilter | src/components/blog/DashboardPostIndex.tsx:86-88 | a changed filter sends the view to page 1 |
| DashboardPostIndex.Dashboard.PreviousPage | src/components/blog/DashboardPostIndex.tsx:525 | `max(1, page - 1)` |
| DashboardPostIndex.Dashboard.NextPage | src/components/blog/DashboardPostIndex.tsx:536 | `min(totalPages, page + 1)` |
| DashboardPostIndex.Dashboard.ToggleSelectionMode | src/components/blog/DashboardPostIndex.tsx:94-98 | leaving selection mode clears the selection |
| DashboardPostIndex.Dashboard.ToggleSelection | src/components/blog/DashboardPostIndex.tsx:138-146 | checking appends the id unless present, unchecking removes it; every other id keeps its state; no duplicates |
| DashboardPostIndex.Dashboard.ToggleAllVisible | src/components/blog/DashboardPostIndex.tsx:148-156 | checking appends the visible ids not yet selected, unchecking removes exactly the visible ids; others keep their state |
| DashboardPostIndex.Dashboard.UpdatePostAsUnpublished | src/components/blog/DashboardPostIndex.tsx:120-130 | the posts become `MarkUnpublished` of the ids and the page is clamped |
| DashboardPostIndex.Dashboard.RemovePosts | src/components/blog/DashboardPostIndex.tsx:132-136 | the ids leave the posts and the selection and the page is clamped |
| DashboardPostIndex.Dashboard.HandleUnpublish | src/components/blog/DashboardPostIndex.tsx:161-181 | on success the post becomes a draft; on failure nothing changes |
| DashboardPostIndex.Dashboard.HandleDelete | src/components/blog/DashboardPostIndex.tsx:183-204 | only after confirmation and success does the post leave the list and the selection |
| DashboardPostIndex.Dashboard.HandleBulkUnpublish | src/components/blog/DashboardPostIndex.tsx:206-232 | requested iff something is selected; on success the affected posts become drafts and leave the selection; on failure nothing changes |
| DashboardPostIndex.Dashboard.HandleBulkDelete | src/components/blog/DashboardPostIndex.tsx:234-268 | nothing selected, a published selected post, a declined confirmation, a failed request or an empty answer each change nothing, in that order; otherwise the deleted ids leave the posts and the selection |
| MarkdownEditor.Slice | src/components/editor/MarkdownEditor.tsx:84-86 | `slice(a, b)` on non-negative indices: the exact slice inside the bounds, empty when `b` does not lie after `a` |
| MarkdownEditor.SliceFrom | src/components/editor/MarkdownEditor.tsx:86 | `slice(a)`: the suffix from `a`, empty past the end |
| MarkdownEditor.InsertAtSelection | src/components/editor/MarkdownEditor.tsx:77-91 | the result is the text before the selection, `prefix`, the selection (or the placeholder when nothing is selected), `suffix`, the text after; the returned range selects exactly that core; with a selection, cutting the prefix and suffix out again gives back the value |
| MarkdownEditor.InsertedText | src/components/editor/MarkdownEditor.tsx:84-86 | the new value is `value[..start] + (prefix + core + suffix) + value[end..]` |
| MarkdownEditor.SetLinkAsWritten | src/components/editor/MarkdownEditor.tsx:228-237 | a cancelled or empty prompt leaves value and selection as they were; with a selection the selected text becomes both caption and target, the typed URL being only the placeholder of `insertAtSelection` |
| MarkdownEditor.SetLink | src/components/editor/MarkdownEditor.tsx:228-237 | corrected `setLink`: cancel leaves everything unchanged; otherwise the link `[caption](url)` replaces the selection, caption the selection or `link text`, and the returned range selects the URL |
| MarkdownEditor.SetLinkWhole | src/components/editor/MarkdownEditor.tsx:228-237 | with the whole value selected, the code as written gives `[v](v)`, the corrected version `[v](url)` |
| MarkdownEditor.SetLinkDropsUrl | src/components/editor/MarkdownEditor.tsx:230-236 | the counterexample: selecting `a` and typing `u` gives `[a](a)` as written, `[a](u)` corrected |
| MarkdownEditor.LastNewlineBefore | src/components/editor/MarkdownEditor.tsx:189 | `lastIndexOf('\n', pos - 1) + 1`: for a positive position, the start of its line (no newline between it and the position); at position 0 the clamped search gives 1 exactly when the value opens with a newline |
| MarkdownEditor.LineStart | src/components/editor/MarkdownEditor.tsx:189 | the start of the line holding a position: at or before it, after a newline or at 0, with no newline in between |
| MarkdownEditor.LineEnd | src/components/editor/MarkdownEditor.tsx:190-191 | `indexOf('\n', end)` or the length: at or after the position, at a newline or the end, with no newline in between |
| MarkdownEditor.PrefixEach | src/components/editor/MarkdownEditor.tsx:197 | the same number of lines, each with the prefix in front |
| MarkdownEditor.PrefixLineAsWritten | src/components/editor/MarkdownEditor.tsx:187-205 | `prefixLine` as written agrees with the corrected `PrefixLine` on every input except a caret at 0 in front of a leading newline |
| MarkdownEditor.PrefixLine | src/components/editor/MarkdownEditor.tsx:187-205 | the lines touched by the selection are prefixed, the text before and after them is unchanged, the selection start moves by one prefix and its end by one prefix per line |
| MarkdownEditor.PrefixLineDuplicatesNewline | src/components/editor/MarkdownEditor.tsx:189 | the counterexample: `"\nabc"`, caret at 0, prefix `# ` gives `"\n# \nabc"` as written and `"# \nabc"` corrected |
| MarkdownEditor.PrefixEachLength | src/components/editor/MarkdownEditor.tsx:195-198 | joining the prefixed lines adds one prefix length per line |
| MarkdownEditor.PrefixBlockLength | src/components/editor/MarkdownEditor.tsx:195-201 | a prefixed block is longer by the prefix length times its line count |
| MarkdownEditor.PrefixLineLength | src/components/editor/MarkdownEditor.tsx:187-205 | the new value is one prefix per touched line longer than the old |
| MarkdownEditor.PrefixLineHead | src/components/editor/MarkdownEditor.tsx:199-202 | in front of the new selection start stand the lines before the block, the prefix, and the first line up to the old start |
| MarkdownEditor.PrefixLineTail | src/components/editor/MarkdownEditor.tsx:199-203 | behind the new selection end stands exactly the text that followed the old selection end |
| MarkdownEditor.PrefixEveryLine | src/components/editor/MarkdownEditor.tsx:194-198 | for a prefix without a newline, the lines of the result are exactly the old lines with the prefix in front, and splitting then joining a block gives it back |
| MarkdownEditor.LeadingBreak | src/components/editor/MarkdownEditor.tsx:211-213 | `\n\n` exactly when the text before is non-empty and does not end in a newline, else empty |
| MarkdownEditor.TrailingBreak | src/components/editor/MarkdownEditor.tsx:212-213 | `\n\n` exactly when the text after is non-empty and does not start with a newline, else empty |
| MarkdownEditor.InsertBlock | src/components/editor/MarkdownEditor.tsx:207-218 | the value is before, the breaks, the block and after; the caret lands at the end of the insertion; the block stands on lines of its own |
| MarkdownEditor.BlockOnOwnLines | src/components/editor/MarkdownEditor.tsx:211-215 | the chosen breaks put a newline (or the start of the text) in front of the block and a newline (or the end) behind it |
| MarkdownEditor.DetectSlashContext | src/components/editor/MarkdownEditor.tsx:93-108 | a match exists iff the selection is empty and a `/` at the line start or after whitespace, followed only by ASCII letters, ends at the caret; its range runs from that `/` to the caret and its query is the lowercased letters |
| MarkdownEditor.SlashOnLine | src/components/editor/MarkdownEditor.tsx:95-101 | the regex on the caret's line matches, at its last `/`, exactly when a `/command` ends at the caret in the whole value |
| MarkdownEditor.MatchingCommands | src/components/editor/MarkdownEditor.tsx:461-464 | a command is kept iff its lowercased label, description and keywords contain the query; never more commands than before; MatchingCommandsAppend keeps menu order |
| MarkdownEditor.MatchingCommandsAppend | src/components/editor/MarkdownEditor.tsx:461-464 | matching distributes over concatenation, so the matches keep menu order |
| MarkdownEditor.Filtered | src/components/editor/MarkdownEditor.tsx:457-466 | no open slash gives no commands and a blank trimmed query all of them; FilteredMembers gives the members for any other query and FilteredAppend keeps menu order |
| MarkdownEditor.FilteredMembers | src/components/editor/MarkdownEditor.tsx:457-466 | with an open slash and a non-blank trimmed query, a command is on the menu iff it is in the list and its haystack contains the trimmed query |
| MarkdownEditor.FilteredAppend | src/components/editor/MarkdownEditor.tsx:457-466 | for every slash state the menu of a concatenated command list is the two menus concatenated, so menu order is kept |
| MarkdownEditor.KeywordFinds | src/components/editor/MarkdownEditor.tsx:370-466 | typing any lowercase keyword of a command keeps that command listed |
| MarkdownEditor.MenuFindsById | src/components/editor/MarkdownEditor.tsx:370-466 | every menu entry stays listed when its id is typed |
| MarkdownEditor.NextIndex | src/components/editor/MarkdownEditor.tsx:497-501 | `(current + 1) % len`: in range, wrapping from the last entry to the first |
| MarkdownEditor.PrevIndex | src/components/editor/MarkdownEditor.tsx:503-507 | `(current - 1 + len) % len`: in range, wrapping from the first entry to the last |
| MarkdownEditor.ArrowsInverse | src/components/editor/MarkdownEditor.tsx:497-507 | ArrowUp undoes ArrowDown and ArrowDown undoes ArrowUp |
| MarkdownEditor.ReplaceRange | src/components/editor/MarkdownEditor.tsx:299 | the range is replaced by the text and everything outside the range is unchanged |
| MarkdownEditor.ReplaceRangeUndo | src/components/editor/MarkdownEditor.tsx:299 | putting the old range back restores the original value |
| MarkdownEditor.Editor.constructor | src/components/editor/MarkdownEditor.tsx:110-133 | the value and its ref start at the initial content, no composition, nothing reported, no slash menu, first entry active |
| MarkdownEditor.Editor.Commit | src/components/editor/MarkdownEditor.tsx:150-157 | value and ref take the new text; `onChange` hears of it only when asked to notify and no composition runs |
| MarkdownEditor.Editor.CompositionStart | src/components/editor/MarkdownEditor.tsx:621-623 | a composition is running |
| MarkdownEditor.Editor.CompositionEnd | src/components/editor/MarkdownEditor.tsx:624-629 | the composition ends, the ref takes the textarea's value and `onChange` hears it exactly once |
| MarkdownEditor.Editor.CloseSlashMenu | src/components/editor/MarkdownEditor.tsx:292-295 | no slash match and the first entry active |
| MarkdownEditor.Editor.UpdateSlashBySelection | src/components/editor/MarkdownEditor.tsx:468-481 | the slash match is the one detected at the selection; the active entry resets whenever the query changes or the menu closes |
| MarkdownEditor.Editor.TextChange | src/components/editor/MarkdownEditor.tsx:483-487 | the value is committed and reported unless composing, then the slash match follows the selection |
| MarkdownEditor.Editor.ApplySlashReplacement | src/components/editor/MarkdownEditor.tsx:297-309 | with an open slash, exactly its range is replaced, the caret goes `offset` characters in and the value is reported unless composing; without one nothing changes; the menu ends closed |
| MarkdownEditor.Editor.ApplySlashBlock | src/components/editor/MarkdownEditor.tsx:311-328 | with an open slash, its range is replaced by the block on lines of its own, the caret goes behind the insertion; without one nothing changes; the menu ends closed |
| MarkdownEditor.Editor.Run | src/components/editor/MarkdownEditor.tsx:370-455 | running an entry without an open slash changes nothing; with one the value becomes the entry's splice, the caret goes where the entry puts it, and only the image entry opens the image toolbox |
| MarkdownEditor.Editor.KeyDown | src/components/editor/MarkdownEditor.tsx:489-519 | with a menu showing the arrows move the active entry with wrap-around, Enter and Tab run the active entry, Escape closes; with no menu only Escape acts; any other key changes nothing |
| EnvFile.EqualsFromSpec | scripts/mcp-benchmark.mjs:13 | `indexOf('=')` from a position: the first `=` at or after it, or the length when there is none |
| EnvFile.ParseLineSkips | scripts/mcp-benchmark.mjs:11-14 | a line is skipped iff its trimmed text is empty, starts with `#` or holds no `=` |
| EnvFile.ParsedTrimmed | scripts/mcp-benchmark.mjs:15-16 | a parsed key and value are trimmed and the key holds no `=` |
| EnvFile.ParseLineOfEntry | scripts/mcp-benchmark.mjs:10-16 | a line `key=value` reads back as exactly that key and value, for a trimmed key that is non-empty, starts no comment and holds no `=`, and a trimmed value |
| EnvFile.ApplySpec | scripts/mcp-benchmark.mjs:10-18 | loading never overwrites a variable already set, and sets every other variable to the value of the first line naming it; nothing else is set |
| EnvFile.ProcessEnv.constructor | scripts/mcp-benchmark.mjs:17 | the environment starts as given |
| EnvFile.ProcessEnv.LoadEnvLocal | scripts/mcp-benchmark.mjs:5-19 | a missing file changes nothing; otherwise the lines of the file, split at `\n`, are applied in order |
| EnvFile.ProcessEnv.RequireEnv | scripts/mcp-benchmark.mjs:21-25 | the value when the variable is set and non-empty, else the error `Missing required env: <name>` |
| Highlight.Alias | src/lib/markdown/highlight.ts:9-13 | the alias of a long name (`ts`, `js`, `bash`, `md`), any other name unchanged |
| Highlight.AliasIdempotent | src/lib/markdown/highlight.ts:9-13 | an alias is its own alias |
| Highlight.NormalizeLanguage | src/lib/markdown/highlight.ts:5-14 | no name or an empty name gives `text`; every result is trimmed, lower case and its own alias |
| Highlight.CaseAndSpaceIgnored | src/lib/markdown/highlight.ts:8 | names that differ only in case and surrounding white space normalise alike |
| Highlight.AliasesShareKey | src/lib/markdown/highlight.ts:9-18 | `TypeScript` and `ts` both normalise to `ts`, so they share a cache key |
| Highlight.CanonicalFixed | src/lib/markdown/highlight.ts:5-14 | a non-empty normalised name is its own normal form |
| Highlight.NormalizeIdempotent | src/lib/markdown/highlight.ts:5-14 | normalising twice equals normalising once, except that a name of white space only normalises to the empty name |
| Highlight.Rendered | src/lib/markdown/highlight.ts:22-36 | the rendering in the normalised language, or the plain-`text` rendering when that fails |
| Highlight.JoinedKey | src/lib/markdown/highlight.ts:18 | the key as written: the language, then two characters, then the code |
| Highlight.JoinedKeyCollides | src/lib/markdown/highlight.ts:18 | language `a::b` with code `c` and language `a` with code `b::c` share a key |
| Highlight.JoinedStep | src/lib/markdown/highlight.ts:16-37 | `highlightCode` on joined keys: a cached non-empty HTML is answered without rendering |
| Highlight.JoinedStepServesOtherBlock | src/lib/markdown/highlight.ts:18-20 | after highlighting `c` as `a::b`, highlighting `b::c` as `a` answers the first block's HTML instead of its own rendering |
| Highlight.HighlightCache.constructor | src/lib/markdown/highlight.ts:3 | the cache starts empty |
| Highlight.HighlightCache.HighlightCode | src/lib/markdown/highlight.ts:16-37 | with the key kept as a pair: a cached non-empty HTML is answered without rendering; otherwise the rendering (with the plain-text fallback) is returned and stored; with faithful entries the answer is always the uncached rendering |
| Highlight.RepeatIsCached | src/lib/markdown/highlight.ts:19-27 | after a non-empty rendering is stored, the same request is a cache hit |
| InlineMarkdown.SchemeAt | src/components/blog/MarkdownRenderer.tsx:80 | the length of `http://` or `https://` written at a position, or 0 |
| InlineMarkdown.LinkAt | src/components/blog/MarkdownRenderer.tsx:80 | a link match lies inside the text and starts with `[` |
| InlineMarkdown.BoldAt | src/components/blog/MarkdownRenderer.tsx:80 | a `**…**` match lies inside the text and has at least five characters |
| InlineMarkdown.ItalicAt | src/components/blog/MarkdownRenderer.tsx:80 | a `*…*` match lies inside the text and has at least three characters |
| InlineMarkdown.CodeAt | src/components/blog/MarkdownRenderer.tsx:80 | a `` `…` `` match lies inside the text and has at least three characters |
| InlineMarkdown.TokenAt | src/components/blog/MarkdownRenderer.tsx:80 | a match of the whole pattern lies inside the text and has at least three characters |
| InlineMarkdown.TokenChoice | src/components/blog/MarkdownRenderer.tsx:80 | the alternatives are tried in the pattern's order |
| InlineMarkdown.Matches | src/components/blog/MarkdownRenderer.tsx:80 | one match length per position of the text |
| InlineMarkdown.MatchesAt | src/components/blog/MarkdownRenderer.tsx:80 | the table holds the match of the whole pattern at each position |
| InlineMarkdown.Exec | src/components/blog/MarkdownRenderer.tsx:84 | `exec` from `lastIndex` finds a position at or after it where the pattern matches |
| InlineMarkdown.ExecLeftmost | src/components/blog/MarkdownRenderer.tsx:84 | the match found is the leftmost one: nothing matches between `lastIndex` and it, nor after `lastIndex` when nothing is found |
| InlineMarkdown.LinkParts | src/components/blog/MarkdownRenderer.tsx:99 | a whole-token link is exactly `[caption](address)` with a non-empty caption free of `]` and a non-empty address free of `)` |
| InlineMarkdown.DelimitedMeans | src/components/blog/MarkdownRenderer.tsx:92-96 | the delimiter test is the pair of `startsWith`/`endsWith` checks |
| InlineMarkdown.TokenSource | src/components/blog/MarkdownRenderer.tsx:92-113 | every node built from a token of three or more characters other than `***` gives the token back |
| InlineMarkdown.BoldNode | src/components/blog/MarkdownRenderer.tsx:92-93 | a strong run becomes a strong node holding the non-empty, star-free text between the star pairs |
| InlineMarkdown.ItalicNode | src/components/blog/MarkdownRenderer.tsx:94-95 | an emphasis becomes an emphasis node holding the non-empty, star-free text between the stars |
| InlineMarkdown.CodeNode | src/components/blog/MarkdownRenderer.tsx:96-97 | a code span becomes a code node holding the non-empty, backtick-free text between the backticks |
| InlineMarkdown.LinkNode | src/components/blog/MarkdownRenderer.tsx:99-113 | a matched link splits into its caption and an http(s) address; it becomes a link when `safeUrl` accepts the address and stays as its raw token text otherwise |
| InlineMarkdown.MatchedSources | src/components/blog/MarkdownRenderer.tsx:84-116 | every token the pattern matches gives its own text back |
| InlineMarkdown.InlineCoversText | src/components/blog/MarkdownRenderer.tsx:78-124 | the nodes' source texts, in order, spell the text: the text between tokens is emitted verbatim and nothing is lost or repeated |
| InlineMarkdown.ParseWith | src/components/blog/MarkdownRenderer.tsx:84-121 | the `exec` loop yields exactly the nodes of the specification over the match table |
| InlineMarkdown.ParseInline | src/components/blog/MarkdownRenderer.tsx:78-124 | `parseInline` yields the specified nodes and their source texts spell the input |
| Json.SkipSpace | src/lib/public/posts.ts:57 | `JSON.parse` skips exactly the leading JSON white space: the result is a suffix that starts with no white space |
| Json.Hex4 | src/lib/public/posts.ts:57 | four hexadecimal digits give a value below `0x10000` |
| Json.UnicodeEscape | src/lib/public/posts.ts:57 | a `\u` escape or a surrogate pair of two takes 6 or 12 characters |
| Json.ParseStringBody | src/lib/public/posts.ts:57 | a string literal is read up to its closing quote, consuming input |
| Json.ParseNumber | src/lib/public/posts.ts:57 | a JSON number is read by the grammar of section 6 of RFC 8259, consuming input |
| Json.ParseValue | src/lib/public/posts.ts:57 | every value read consumes input, so parsing terminates |
| Json.ParseElement | src/lib/public/posts.ts:57 | an element with its surrounding white space consumes input |
| Json.ParseArray | src/lib/public/posts.ts:57 | an array consumes input |
| Json.ParseObject | src/lib/public/posts.ts:57 | an object consumes input |
| Json.StringBodyRoundTrip | src/lib/public/posts.ts:57-66 | a string written by `JSON.stringify` reads back as the same string, leaving what follows |
| Json.StringifyParse | src/lib/public/posts.ts:57-66 | an object of string members written by `JSON.stringify` parses back to the same members in the same order |
| Utf8.EncodeChar | src/lib/public/posts.ts:66 | each code point takes one to four bytes |
| Utf8.DecodeOne | src/lib/public/posts.ts:56 | one step of the decoder takes one to four bytes and never fails: an ill-formed prefix becomes U+FFFD |
| Utf8.DecodeFour | src/lib/public/posts.ts:56-66 | a code point beyond the basic plane, once encoded, decodes back from its four bytes |
| Utf8.DecodeEncode | src/lib/public/posts.ts:56-66 | decoding the UTF-8 encoding of a text gives the text back |
| Base64Url.Chars | src/lib/public/posts.ts:66 | each six-bit group becomes the character of the URL-safe alphabet |
| Base64Url.ReadChars | src/lib/public/posts.ts:56 | the decoder reads back the groups the encoder wrote |
| Base64Url.DecodeEncode | src/lib/public/posts.ts:56-66 | decoding the base64url encoding of bytes gives the bytes back |
| Base64Url.EncodeAlphabet | src/lib/public/posts.ts:66 | encoded text uses only the URL-safe alphabet: no padding, no `+`, no `/` |
| IdLists.Without | src/components/blog/DashboardPostIndex.tsx:144-154 | the filter keeps exactly the ids not dropped, never grows, and keeps a duplicate-free list duplicate-free |
| IdLists.Dedup | src/components/blog/DashboardPostIndex.tsx:150 | `Array.from(new Set(ids))` holds every id once and exactly the ids given |
| IdLists.DedupAppend | src/components/blog/DashboardPostIndex.tsx:150 | deduplicating a duplicate-free selection followed by more ids keeps the selection in place and appends the new ids after it |
| Legacy.Repeat | src/lib/markdown/legacy.ts:29 | `'#'.repeat(n)`: exactly `n` copies of the character |
| Legacy.HeadingHashes | src/lib/markdown/legacy.ts:27-29 | `Number(level ?? 1)` clamped to 1..6 and truncated: a number in 1..6 gives its integer part, below 1 or -Infinity one mark, 6 or above or Infinity six, and `NaN` none |
| Legacy.HeadingLevelFromString | src/lib/markdown/legacy.ts:27-29 | a level given as the decimal string of `n` gets `n` marks clamped to 1..6, the same as the number `n` |
| Legacy.HeadingLevelLiterals | src/lib/markdown/legacy.ts:27-29 | the levels `"2.5"`, `"0x2"`, `"1e1"`, `"-Infinity"` and `"two"` give 2, 2, 6, 1 and 0 marks |
| Legacy.LegacyContentToMarkdown | src/lib/markdown/legacy.ts:72-87 | a string is returned unchanged; falsy values, other primitives and objects without a `content` array give `''`; a document gives trimmed text |
| Legacy.QuoteLinesMarked | src/lib/markdown/legacy.ts:32-39 | a non-blank quote becomes one `>`-marked line per line of its trimmed text, followed by a blank line |
| Legacy.QuotedLineShape | src/lib/markdown/legacy.ts:37 | a quoted line starts with `>` and gains no newline |
| Legacy.QuoteBodySplit | src/lib/markdown/legacy.ts:35-38 | the lines of a quote body are exactly the quoted lines of the text |
| Legacy.ErrorKindsDisjoint | src/lib/markdown/legacy.ts:89-103 | a missing-column error, a legacy JSON type error and a unique violation are never the same error |
| AiLintCheck.RuleOf | scripts/ai-lint/check.mjs:34 | the rule id when it is non-empty, otherwise `unknown`; never empty |
| AiLintCheck.ParsedFiles | scripts/ai-lint/check.mjs:10-16 | missing or empty output reads as `[]`, unparsable output as no files, anything else as what it parses to |
| AiLintCheck.Errors | scripts/ai-lint/check.mjs:36 | at most one error per message |
| AiLintCheck.Warnings | scripts/ai-lint/check.mjs:37 | at most one warning per message |
| AiLintCheck.Fixable | scripts/ai-lint/check.mjs:38 | at most one fixable count per message |
| AiLintCheck.NonFixable | scripts/ai-lint/check.mjs:39 | at most one non-fixable count per message |
| AiLintCheck.CountsPartition | scripts/ai-lint/check.mjs:36-39 | fixable plus non-fixable is the number of messages; errors plus warnings never exceed it |
| AiLintCheck.ZeroCounts | scripts/ai-lint/check.mjs:36-39 | a count is zero exactly when no message is of its kind |
| AiLintCheck.BumpShape | scripts/ai-lint/check.mjs:35 | bumping a rule adds one to the total, keeps every key in place and appends a new rule at the end |
| AiLintCheck.BumpCount | scripts/ai-lint/check.mjs:35 | bumping keeps the keys distinct and adds one to the bumped rule only |
| AiLintCheck.RuleCount | scripts/ai-lint/check.mjs:34-35 | a rule counts at most one per message |
| AiLintCheck.TallySpec | scripts/ai-lint/check.mjs:32-35 | `byRule` names each rule once, gives each rule the number of its messages, and its counts add up to the number of messages |
| AiLintCheck.Listed | scripts/ai-lint/check.mjs:53-58 | only files with messages are listed, in order, each with a positive count |
| AiLintCheck.ListedCoversMessages | scripts/ai-lint/check.mjs:53-58 | the listed counts add up to the number of messages in the report |
| AiLintCheck.SummaryOf | scripts/ai-lint/check.mjs:43-51 | the issue count is errors plus warnings, fixable plus non-fixable is the number of messages, and every file counts as scanned |
| AiLintCheck.CountFile | scripts/ai-lint/check.mjs:33-40 | the inner loop adds one file's messages to the counts so far |
| AiLintCheck.Summarize | scripts/ai-lint/check.mjs:25-60 | the loop computes exactly the summary, the per-rule counts and the file list |
| AiLintCheck.ExitCode | scripts/ai-lint/check.mjs:72-73 | 0 exactly when ESLint exited 0 and found no errors or warnings, otherwise 1 |
| AiLintCheck.Check | scripts/ai-lint/check.mjs:62-73 | the payload is the summary of the parsed output with the status, and the exit code follows `ExitCode` |
| AiLintCheck.EmptyReportExit | scripts/ai-lint/check.mjs:10-73 | with no output, nothing is counted and the exit code is 0 exactly for status 0 |
| AiLintLoop.GetReport | scripts/ai-lint/loop.mjs:14-27 | the run passes exactly when the check exited 0 and the report, when it has a summary, counts no issue; unparsable output gives no report |
| AiLintLoop.InsertPerm | scripts/ai-lint/loop.mjs:31 | inserting an entry into the sorted list keeps every entry |
| AiLintLoop.InsertSorted | scripts/ai-lint/loop.mjs:31 | inserting into a list sorted by decreasing count keeps it sorted |
| AiLintLoop.SortByCountSpec | scripts/ai-lint/loop.mjs:31 | the sort orders by decreasing count and is a permutation of the entries |
| AiLintLoop.TopRules | scripts/ai-lint/loop.mjs:29-34 | `slice(0, limit)`: as many entries as the limit allows |
| AiLintLoop.TopRulesSpec | scripts/ai-lint/loop.mjs:29-34 | the top rules are entries of the table in decreasing count, and no entry left out counts more than an entry kept |
| AiLintLoop.ExitCode | scripts/ai-lint/loop.mjs:53-91 | the exit code is 0 exactly on success |
| AiLintLoop.CheckedEntry | scripts/ai-lint/loop.mjs:40-45 | a history entry records the attempt and whether the check passed |
| AiLintLoop.Loop | scripts/ai-lint/loop.mjs:36-91 | the attempt loop ends in the outcome the specification `Run` gives |
| AiLintLoop.LoopOutcome | scripts/ai-lint/loop.mjs:38-91 | success on the first check; otherwise an autofix, then success or a manual-fix request on the second check; the third attempt and the `blocker` phase are never reached; exit 0 exactly when one of the two checks passed |
| AiLintLoop.ThirdCheckUnused | scripts/ai-lint/loop.mjs:67-79 | the outcome depends on the first two checks only |
| McpAuth.ParseBearerToken | src/lib/mcp/auth.ts:28-38 | a token comes only from a present header whose first space-separated piece is `bearer` in any case and whose second piece is not blank; the token is that piece trimmed; an absent or empty header gives none |
| McpAuth.BearerRoundTrip | src/lib/mcp/auth.ts:32-37 | `<bearer in any case> <token> ...` gives back the token, whatever pieces follow |
| McpAuth.ParseOfPieces | src/lib/mcp/auth.ts:32-37 | a header whose pieces pass the checks gives the trimmed second piece |
| McpAuth.BearerNeedsScheme | src/lib/mcp/auth.ts:32-35 | another scheme, or a header without a second piece, is refused |
| McpAuth.Matching | src/lib/mcp/auth.ts:66-84 | the query selects exactly the rows with the hash that are active, not revoked, not expired and (when scoped) of scope `mcp` |
| McpAuth.RunLookup | src/lib/mcp/auth.ts:66-74 | `maybeSingle`: a store fault is a failure; a single matching row is found; a found row is a matching row |
| McpAuth.FindMcpApiKeyRow | src/lib/mcp/auth.ts:61-96 | a found key is usable (the scope condition dropped only after a missing-scope error); any other lookup error gives no key; a single match is found |
| McpAuth.AtMostOneMatch | src/lib/mcp/auth.ts:66-74 | with unique key hashes at most one row matches |
| McpAuth.FindsExactlyUsable | src/lib/mcp/auth.ts:61-96 | with unique hashes and a healthy store, a key is found iff some key with the hash is active, not revoked, not expired and scoped to MCP |
| McpAuth.Touched | src/lib/mcp/auth.ts:43-50 | the update writes `now` to the key's rows whose `last_used_at` is null or older than ten minutes, and leaves every other row |
| McpAuth.TouchOncePerWindow | src/lib/mcp/auth.ts:4-50 | a row touched at `t` is not written again by a touch within the next ten minutes, and carries a stamp no older than the window |
| McpAuth.ApiKeysTable.constructor | src/lib/mcp/auth.ts:46-50 | the table starts with the given rows |
| McpAuth.ApiKeysTable.TouchLastUsedAt | src/lib/mcp/auth.ts:40-59 | a failed update changes nothing; otherwise the rows become `Touched` |
| McpAuth.ApiKeysTable.AuthenticateMcpRequest | src/lib/mcp/auth.ts:98-119 | a missing or malformed header gives 401 `Missing or invalid Bearer token`, an unknown key 401 `Invalid or expired MCP key`, both writing nothing; otherwise the actor is the key's owner, id and prefix, the actor's key is usable, and the usage stamp is refreshed |
| McpPosts.SafeLimit | src/lib/mcp/posts.ts:95 | `Math.min(Math.max(limit ?? 10, 1), 20)`: always in 1..20, 10 by default, the limit itself inside the range and the nearer bound outside it |
| McpPosts.FilterCases | src/lib/mcp/posts.ts:104-151 | a query with a Hangul syllable uses `ilike` on `search_text`, any other non-empty query a websearch on `search_tsv`, an empty query no filter; the narrower queries filter exactly the non-empty queries, on terms free of `, ( ) % _` |
| McpPosts.FirstFilterCases | src/lib/mcp/posts.ts:104-108 | the first query's filter, case by case |
| McpPosts.LikeFilterCases | src/lib/mcp/posts.ts:148-176 | the fallback queries filter exactly the non-empty queries, on sanitised terms |
| McpPosts.HitTitle | src/lib/mcp/posts.ts:115 | `live_title` when it is not blank, otherwise `title` |
| McpPosts.HitOf | src/lib/mcp/posts.ts:117-123 | a hit carries the row's id, title and slug, and an excerpt of at most 240 characters |
| McpPosts.LiveHit | src/lib/mcp/posts.ts:114-124 | a first-query hit takes the live title rule and the excerpt of the live content, else the draft, else `''` |
| McpPosts.MarkdownHit | src/lib/mcp/posts.ts:156-163 | a fallback hit takes the title and the excerpt of the Markdown, else `''` |
| McpPosts.LegacyHit | src/lib/mcp/posts.ts:181-188 | a legacy hit takes the title and the excerpt of the converted legacy document |
| McpPosts.SearchStepOf | src/lib/mcp/posts.ts:128-138 | a missing `content_markdown` column leads to the legacy query, a missing search or `live_*` column otherwise to the Markdown query, and any other error is thrown |
| McpPosts.LiveHits | src/lib/mcp/posts.ts:114 | one hit per row, in order |
| McpPosts.MarkdownHits | src/lib/mcp/posts.ts:156 | one hit per row, in order |
| McpPosts.LegacyHits | src/lib/mcp/posts.ts:181 | one hit per row, in order |
| McpPosts.SearchFirstQuery | src/lib/mcp/posts.ts:111-125 | a successful first query answers one hit per row, in order, with the live title rule and excerpts of at most 240 characters |
| McpPosts.SearchThrows | src/lib/mcp/posts.ts:136-138 | an error naming none of the fallback columns is thrown |
| McpPosts.SearchFallsBack | src/lib/mcp/posts.ts:139-164 | a missing search or `live_*` column answers from the Markdown query, whose error is thrown |
| McpPosts.SearchFallsBackToLegacy | src/lib/mcp/posts.ts:166-189 | a missing `content_markdown` column answers from the legacy query, converting each document before the excerpt |
| McpPosts.WorkspaceSlug | src/lib/mcp/posts.ts:217-224 | the workspace's slug, the first one of an array, or null |
| McpPosts.ReadKeyOf | src/lib/mcp/posts.ts:202-206 | no key when both `postId` and `slug` are missing or empty; otherwise `postId` wins over `slug` |
| McpPosts.ReadOwnPost | src/lib/mcp/posts.ts:191-206 | without a `postId` or `slug` the read throws `post_id or slug is required` |
| McpPosts.ReadCases | src/lib/mcp/posts.ts:206-258 | the id wins over the slug; an absent row throws `Not found` on either layout; only a missing `content_markdown` column reaches the legacy layout, whose document is converted; any other error is thrown |
| McpPosts.FinalTitle | src/lib/mcp/posts.ts:281 | the title when it is not blank, otherwise `Untitled Post` |
| McpPosts.AttemptDraft | src/lib/mcp/posts.ts:283-287 | attempt `k` uses the base slug, a hyphen and that attempt's suffix |
| McpPosts.CreateRound | src/lib/mcp/posts.ts:284-370 | one attempt starts with the full insert, adds at most three fallback inserts and settles |
| McpPosts.AfterLive | src/lib/mcp/posts.ts:303-320 | after the full insert is answered, at most three more inserts follow and none is a full one |
| McpPosts.AfterMarkdown | src/lib/mcp/posts.ts:321-338 | after the Markdown-only insert is answered, at most two more inserts follow |
| McpPosts.LegacyTail | src/lib/mcp/posts.ts:340-370 | the legacy insert and its JSON-string retry: one or two inserts, none of them full |
| McpPosts.CreateRoundOrder | src/lib/mcp/posts.ts:284-370 | an attempt issues its inserts in fallback order (full, Markdown-only, legacy, JSON-string legacy) and gives them the attempt's slug and the shared fields |
| McpPosts.Attempts | src/lib/mcp/posts.ts:283-373 | the remaining attempts make at most one full insert each and only append inserts; a row is returned exactly when the last insert was answered with it, any other error of the last insert is thrown with its message, and `Failed to create a unique slug` only after the last insert was a unique violation and every remaining attempt was made; fallback order and the shared fields are kept |
| McpPosts.BaseDraft | src/lib/mcp/posts.ts:280-281 | every insert carries the final title and the slug base of the title |
| McpPosts.CreateDraftPost | src/lib/mcp/posts.ts:260-374 | `createDraftPostForMcp` returns and issues exactly what the specification `CreateDraftSpec` gives, whose result CreateDraftShape characterises |
| McpPosts.RunAttempts | src/lib/mcp/posts.ts:283-373 | the attempt loop gives exactly the outcome of `Attempts` from the first attempt |
| McpPosts.RunAttempt | src/lib/mcp/posts.ts:284-370 | one attempt: a row is returned, an error thrown, or the next attempt follows |
| McpPosts.AttemptStep | src/lib/mcp/posts.ts:283-373 | one turn of the loop unfolds `Attempts` by one attempt |
| McpPosts.CreateDraftShape | src/lib/mcp/posts.ts:260-374 | a failed workspace lookup throws its message and a missing workspace `No workspace found`, with no insert; otherwise the row of the last insert is returned iff it was answered Ok, a non-unique error of the last insert is thrown with its message, and a unique violation last throws `Failed to create a unique slug` after exactly four full inserts; fallback order means only a 23505 answer starts another attempt; every insert unpublished, by the caller, in the caller's workspace, with the final title and the Markdown (plain or JSON-quoted) |
| MermaidDiagramCard.KeepIdChars | src/components/blog/MermaidDiagramCard.tsx:36 | the removal keeps only characters of `[A-Za-z0-9_-]` and never lengthens the text |
| MermaidDiagramCard.KeepIdCharsAppend | src/components/blog/MermaidDiagramCard.tsx:36 | the removal works piece by piece, so kept characters keep their order |
| MermaidDiagramCard.KeepIdCharsCounts | src/components/blog/MermaidDiagramCard.tsx:36 | each allowed character is kept as often as it occurs and every other character is dropped |
| MermaidDiagramCard.KeepIdCharsOfId | src/components/blog/MermaidDiagramCard.tsx:36 | a text of allowed characters only is kept whole |
| MermaidDiagramCard.NormalizeMermaidId | src/components/blog/MermaidDiagramCard.tsx:35-37 | `mermaid-` followed by the allowed characters of the seed; the whole id is made of allowed characters |
| MermaidDiagramCard.IdLength | src/components/blog/MermaidDiagramCard.tsx:35-37 | the id is 8 characters longer than the number of allowed characters of the seed |
| MermaidDiagramCard.IdIsStable | src/components/blog/MermaidDiagramCard.tsx:36 | the removal leaves an id unchanged |
| MermaidDiagramCard.MermaidLoader.constructor | src/components/blog/MermaidDiagramCard.tsx:13-14 | nothing loaded, nothing initialised |
| MermaidDiagramCard.MermaidLoader.Load | src/components/blog/MermaidDiagramCard.tsx:16-33 | the import and `initialize` each happen at most once over any sequence of calls; a call succeeds iff the module was loaded or the import succeeds, and then the module is loaded and initialised; a failed import changes nothing |
| MermaidDiagramCard.ViewOf | src/components/blog/MermaidDiagramCard.tsx:80-97 | a non-empty SVG shows the diagram; without one, a non-empty error shows the message and the code, and otherwise the loading note |
| MermaidDiagramCard.Settle | src/components/blog/MermaidDiagramCard.tsx:56-78 | a cancelled render changes nothing; a rendered SVG is stored and the error cleared; a failure clears the SVG and stores the fixed message |
| MermaidDiagramCard.SettledView | src/components/blog/MermaidDiagramCard.tsx:56-97 | after an uncancelled render the card shows the diagram, or the error with the code after a failure, or still the loading note for an empty SVG |
| PostList.BuildExcerpt | src/components/blog/PostList.tsx:19-26 | without usable excerpt text, the fixed sentence about the trimmed title (or `이 포스트`); otherwise the collapsed, trimmed text when it fits in 180 characters, and its first 180 characters followed by `…` when it is longer |
| PostList.ExcerptShape | src/components/blog/PostList.tsx:20-25 | an excerpt taken from the text starts with no white space and holds only single spaces |
| PostList.NormalizedShape | src/components/blog/PostList.tsx:20 | the collapsed, trimmed text starts with no white space and holds only single spaces |
| PostList.FindWord | src/components/blog/PostList.tsx:30-33 | a `\b…\b` search: true iff the word occurs as a whole word at or after the position |
| PostList.InferCategory | src/components/blog/PostList.tsx:28-35 | AI, Infra, Frontend, Product in that priority, each iff one of its words occurs as a whole word in the lowercased title and excerpt and no earlier category matches; Engineering iff none does |
| PostList.LeadingWordCounts | src/components/blog/PostList.tsx:29-31 | an Infra word opening the title decides Infra in any case of its letters, unless an AI word also occurs |
| PostList.CategoryBadgeClass | src/components/blog/PostList.tsx:37-50 | total; the neutral style exactly for strings other than the four known categories |
| PostList.InferredBadge | src/components/blog/PostList.tsx:28-50 | a card shows the neutral badge iff its category is Engineering, and cards of different guessed categories never share a badge |
| PostStudio.ResolveSaveMode | src/components/blog/PostStudio.tsx:306-307 | a save mode the caller names is used as it is; without one the mode is `draft_update` iff the post is published |
| PostStudio.ApplyChange | src/components/blog/PostStudio.tsx:327-356 | every change the studio applies to a post (edit, save, publish, refresh, load, restore) keeps the post's id |
| PostStudio.MapPost | src/components/blog/PostStudio.tsx:327-356 | the list keeps its length; exactly the posts with the given id take the change, every other post is unchanged |
| PostStudio.Find | src/components/blog/PostStudio.tsx:109-112 | a found post is in the list and has the id; nothing is found iff no post has the id |
| PostStudio.Without | src/components/blog/PostStudio.tsx:615-619 | the filtered list holds only posts of the list without the id, and every post of the list without the id; WithoutAppend keeps the order and WithoutHead names the first post left |
| PostStudio.WithoutAppend | src/components/blog/PostStudio.tsx:615-619 | removal distributes over concatenation, so the remaining posts keep their order |
| PostStudio.WithoutHead | src/components/blog/PostStudio.tsx:615-619 | when some post has another id, the first post left is the first such post of the list, so "the first remaining post" is well defined |
| PostStudio.CommandFilter | src/components/blog/PostStudio.tsx:114-118 | a blank trimmed query keeps the whole list; otherwise a post is kept iff it is in the list and its title (or `untitled`), lower-cased, contains the trimmed, lower-cased query; CommandFilterAppend keeps the order |
| PostStudio.TitleMatchesMembers | src/components/blog/PostStudio.tsx:114-118 | a post is among the title matches for a needle iff it is in the list and its lower-cased title (or `untitled`) contains the needle |
| PostStudio.TitleMatchesAppend | src/components/blog/PostStudio.tsx:114-118 | the title matches of two joined lists are the matches of the first followed by those of the second |
| PostStudio.CommandFilterAppend | src/components/blog/PostStudio.tsx:114-118 | the palette filter distributes over concatenation, so the palette keeps the posts' order |
| PostStudio.RestoreOffer | src/components/blog/PostStudio.tsx:216-224 | a restore is offered iff the stored title or content (each defaulting to the post's own) differs from the post's; the offer is the stored title, content and published flag with those defaults |
| PostStudio.AutosaveNeverOffersItself | src/components/blog/PostStudio.tsx:216-224 | an entry autosaved from a post never offers a restore on that post; one autosaved from an edited title or content always offers exactly the edited fields |
| PostStudio.SaveChanges | src/components/blog/PostStudio.tsx:327-356 | a draft update keeps the live title and content and records the current ones as the pending change; a direct save makes them live and clears every pending field; neither touches title, content or published |
| PostStudio.ReadApiError | src/components/blog/PostStudio.tsx:55-64 | an unreadable body gives `Request failed (status)`; otherwise the payload's error, or `Request failed (status)` when it has none, followed by ` - ` and the non-empty code and details joined by a space, and nothing more when both are empty |
| PostStudio.Studio.constructor | src/components/blog/PostStudio.tsx:85-129 | the initial posts and stored recovery entries, status `saved`; preview mode iff the URL says `mode=preview`; the post the URL names is selected when the list holds it, else the first post or none |
| PostStudio.Studio.ConfirmDiscardIfNeeded | src/components/blog/PostStudio.tsx:278-281 | proceeds iff there are no unsaved edits or the user confirms |
| PostStudio.Studio.ShowPreview | src/components/blog/PostStudio.tsx:765-768 | switches to preview iff the discard check lets it; the mode is otherwise unchanged |
| PostStudio.Studio.EditTitle | src/components/blog/PostStudio.tsx:497-508 | with a selected post, status `idle` and only that post takes the new title; with none nothing changes; selection, mode and recovery entries are untouched |
| PostStudio.Studio.EditContent | src/components/blog/PostStudio.tsx:510-521 | as EditTitle, for the Markdown body |
| PostStudio.Studio.BeginSave | src/components/blog/PostStudio.tsx:300-317 | without a selected post no request and no change; with one the status is `saving` and the request carries the post's title, content (`''` when unloaded), published flag and resolved save mode |
| PostStudio.Studio.FinishSave | src/components/blog/PostStudio.tsx:319-376 | on failure status `error` and nothing else changes; on success status `saved`, the recovery entry is removed, saved-at is now, draft-saved-at cleared, preview when asked, and the post takes the pending change (published draft update) or the direct save |
| PostStudio.Studio.SavePost | src/components/blog/PostStudio.tsx:297-377 | the whole save: without a selected post `false` and nothing changes; otherwise the result is the server's answer and the state is as FinishSave says for the resolved mode |
| PostStudio.Studio.SelectPost | src/components/blog/PostStudio.tsx:475-495 | switches iff the id is non-empty and new, no save is running, and unsaved edits (if any) were saved; a switch selects it in preview; a refused switch keeps the selection, and a failed silent save leaves status `error` and the posts as they were |
| PostStudio.Studio.Publish | src/components/blog/PostStudio.tsx:523-561 | publishes iff an unpublished post is selected and the server accepts; then it is marked published at now, status `saved`, its recovery entry removed; otherwise nothing changes |
| PostStudio.Studio.Unpublish | src/components/blog/PostStudio.tsx:563-597 | unpublishes iff a published post is selected, the user confirms and the server accepts; then it is marked unpublished and status is `saved`; otherwise nothing changes |
| PostStudio.Studio.DeleteDraft | src/components/blog/PostStudio.tsx:599-633 | deletes iff an unpublished post is selected, the user confirms and the server accepts; then the post leaves the list, the first remaining post (or none) is selected, status `saved`, both saved-at times cleared, the recovery entry removed; otherwise nothing changes |
| PostStudio.Studio.ApplyPendingAction | src/components/blog/PostStudio.tsx:379-473 | applies iff a post is selected, the PATCH succeeded and the refetch succeeded; then the post takes the fetched fields with the pending change cleared and status is `saved`; otherwise nothing changes |
| PostStudio.Studio.LoadSelectedContent | src/components/blog/PostStudio.tsx:142-202 | a selected post without loaded body takes the fetched fields when the fetch succeeds, and the load fails iff the fetch fails; in every other case the posts are unchanged |
| PostStudio.Studio.Autosave | src/components/blog/PostStudio.tsx:635-652 | in edit mode with unsaved edits and a selected post, that post's recovery entry becomes its title, content, published flag and now, and draft-saved-at is now; otherwise neither changes |
| PostStudio.Studio.Reselect | src/components/blog/PostStudio.tsx:136-140 | a non-empty selection the list no longer holds becomes the first post or none; any other selection stays; afterwards a non-empty selection is always in the list |
| PostStudio.Studio.CheckRestore | src/components/blog/PostStudio.tsx:205-243 | each selected post is considered once; a restore is offered iff its recovery entry parses and differs in title or content; an accepted offer puts the stored fields on the post in edit mode with status `idle`; an entry that cannot be read (not JSON or `null`) is removed and any other entry is kept |
| PostText.BlankOut | src/lib/mcp/posts.ts:45-57 | each character of the class becomes a space and every other character stays; the length is kept |
| PostText.SanitizeSearchShape | src/lib/mcp/posts.ts:44-46 | a sanitised search term holds none of `, ( ) % _`, starts and ends with no white space, and has only single spaces between words |
| PostText.SanitizeSearchIdempotent | src/lib/public/posts.ts:69-75 | sanitising a sanitised term changes nothing |
| PostText.HasHangulIff | src/lib/mcp/posts.ts:48-50 | true iff some character lies in the Hangul syllable block `가`..`힣` |
| PostText.MediaTail | src/lib/mcp/posts.ts:55 | the media-shortcode tail, when it matches, takes at least one and at most all of the remaining characters |
| PostText.HashRun | src/lib/mcp/posts.ts:56 | the number of leading `#`: all of them are `#` and the next character, if any, is not |
| PostText.LinkAt | src/lib/mcp/posts.ts:58 | a matched `[text](url)` has a non-empty text and a non-empty URL, both inside the string |
| PostText.NormalizeShape | src/lib/public/posts.ts:81-89 | the normalised text starts and ends with no white space, has only single spaces and holds none of `* _ ` ~ > -` |
| PostText.PrefixShape | src/lib/public/posts.ts:91 | a cut of a normalised text is within the limit, starts with no white space, keeps single spaces and holds no markup; it is trimmed when the text fits |
| PostText.ExcerptShape | src/lib/public/posts.ts:80-92 | the excerpt is at most the limit (180 in the listing, 240 for MCP), starts with no white space, has single spaces and no markup, and is trimmed at both ends when the normalised text fits the limit |
| PostText.NormalizePlain | src/lib/public/posts.ts:81-89 | text with no Markdown syntax already in normal form is its own normalisation |
| PostText.ExcerptOfNormal | src/lib/public/posts.ts:91 | for normal-form text longer than the limit, the excerpt is its first `limit` characters |
| PostText.ExcerptMayEndInSpace | src/lib/mcp/posts.ts:59-60 | because the cut follows the trim, an excerpt can end in a space: `n` letters, a space and one more letter cut at `n + 1` keep the space last |
| PublicPosts.DecodeCursor | src/lib/public/posts.ts:53-63 | an absent or empty value gives no cursor; any cursor given back has a truthy `publishedAt` and a truthy `id` |
| PublicPosts.CursorText | src/lib/public/posts.ts:65-67 | an encoded cursor is non-empty and its bytes decode to the JSON text the encoder wrote |
| PublicPosts.CursorRoundTrip | src/lib/public/posts.ts:53-67 | decoding an encoded cursor with non-empty fields gives both fields back |
| PublicPosts.MalformedCursor | src/lib/public/posts.ts:56-58 | a value whose text is not JSON, or whose JSON lacks `publishedAt` or `id`, decodes to no cursor |
| PublicPosts.DecodeOfMembers | src/lib/public/posts.ts:56-59 | a value whose JSON holds two truthy members `publishedAt` and `id` decodes to exactly those two |
| PublicPosts.StrLtIrreflexive | src/lib/public/posts.ts:97 | the text order used by the `lt` filter is irreflexive |
| PublicPosts.StrLtTransitive | src/lib/public/posts.ts:97 | the text order is transitive |
| PublicPosts.StrLtTotal | src/lib/public/posts.ts:97 | any two different texts are ordered one way or the other |
| PublicPosts.KeyLtIrreflexive | src/lib/public/posts.ts:94-135 | the `(published_at, id)` order of the listing is irreflexive |
| PublicPosts.KeyLtTransitive | src/lib/public/posts.ts:94-135 | the listing's key order is transitive |
| PublicPosts.KeyLtAsymmetric | src/lib/public/posts.ts:94-135 | the listing's key order is asymmetric |
| PublicPosts.KeyLtTotal | src/lib/public/posts.ts:94-135 | any two different keys are ordered one way or the other |
| PublicPosts.CursorFilter | src/lib/public/posts.ts:94-99 | the cursor filter keeps only rows of the snapshot strictly after the cursor in the key order, never more rows than it got |
| PublicPosts.FilterAllKept | src/lib/public/posts.ts:94-99 | when every row lies after the cursor, the filter keeps the whole snapshot |
| PublicPosts.FilterAfterRow | src/lib/public/posts.ts:94-135 | in a snapshot sorted newest first, the cursor of row `j` keeps exactly the rows after `j` |
| PublicPosts.FilterSorted | src/lib/public/posts.ts:94-135 | filtering a sorted snapshot keeps it sorted |
| PublicPosts.FilterNarrows | src/lib/public/posts.ts:94-99 | a cursor earlier than the one already applied filters the filtered snapshot as it filters the whole one |
| PublicPosts.FilterConcat | src/lib/public/posts.ts:94-99 | the filter works row by row: filtering a row followed by the rest is filtering each part |
| PublicPosts.PageTrim | src/lib/public/posts.ts:224-231 | at most 18 posts are shown; there is a next cursor iff more than 18 rows came back; the page is then the first 18 rows and otherwise all of them; the next cursor is the last shown row's key |
| PublicPosts.NextCursorDecodes | src/lib/public/posts.ts:224-231 | the next cursor decodes to the last shown row's `published_at` and `id` |
| PublicPosts.PagesContinue | src/lib/public/posts.ts:94-99 | following the next cursor from a page of a sorted snapshot fetches exactly the rows after that page |
| PublicPosts.PageChain | src/lib/public/posts.ts:94-99 | the pages reached by following next cursors, together and in order, are exactly the rows after the first cursor: none shown twice, none skipped |
| PublicPosts.PagesCoverSnapshot | src/lib/public/posts.ts:94-99 | starting without a cursor, the chain of pages is the whole snapshot |
| PublicPosts.MarkdownSearchCases | src/lib/public/posts.ts:138-143 | a Hangul term searches `search_text` with `ilike`, any other non-empty term searches `search_tsv`, an empty term adds no search |
| PublicPosts.MarkdownPost | src/lib/public/posts.ts:148-153 | a row of the first query shows its live title when there is one, else its title; the live body, else the draft body, else `''`; its key is its `published_at` and `id` |
| PublicPosts.BuildPage | src/lib/public/posts.ts:224-237 | the page shows all rows up to 18 and 18 otherwise; there is a next cursor iff more than 18 rows came back |
| PublicPosts.List | src/lib/public/posts.ts:115-238 | a successful listing never shows more than 18 posts |
| PublicPosts.MarkdownPosts | src/lib/public/posts.ts:149-153 | every row of the first query maps, in order, to its post |
| PublicPosts.FallbackPosts | src/lib/public/posts.ts:185-188 | every row of the fallback query maps, in order, to its post |
| PublicPosts.LegacyPosts | src/lib/public/posts.ts:212-218 | every row of the legacy query maps, in order, to its post with the legacy content converted to Markdown |
| PublicPosts.ListThrows | src/lib/public/posts.ts:219-221 | an error of the first query that names no search, `live_*` or `content_markdown` column is thrown as it is |
| PublicPosts.ListFallsBack | src/lib/public/posts.ts:154-188 | a missing search or `live_*` column sends the listing to the narrower query; the listing fails iff that query fails, and otherwise has a next page iff it returned more than 18 rows |
| PublicPosts.ListFallsBackToLegacy | src/lib/public/posts.ts:189-218 | a missing `content_markdown` column sends the listing to the legacy query; the listing fails iff that query fails |
| PublicPosts.ListFirstQuery | src/lib/public/posts.ts:148-153 | a successful first query serves the listing from its own rows, the first post showing the first row's live title or its title |
| MarkdownRenderer.NormalizeNewlines | src/components/blog/MarkdownRenderer.tsx:191 | no carriage return is left and the text never grows |
| MarkdownRenderer.NormalizeWithoutCR | src/components/blog/MarkdownRenderer.tsx:191 | text without a carriage return passes through unchanged |
| MarkdownRenderer.Lines | src/components/blog/MarkdownRenderer.tsx:191 | at least one line; no line holds `\n` or `\r`; the lines joined with `\n` are the normalised text |
| MarkdownRenderer.Leading | src/components/blog/MarkdownRenderer.tsx:285 | the length of the run of one character at the start: all of it is that character and the next one is not |
| MarkdownRenderer.LeadingDigits | src/components/blog/MarkdownRenderer.tsx:333 | the length of the run of ASCII digits at the start, followed by a non-digit or the end |
| MarkdownRenderer.LeadingSpace | src/components/blog/MarkdownRenderer.tsx:285-319 | the length of the run of white space at the start, followed by a non-space or the end |
| MarkdownRenderer.HeadingOf | src/components/blog/MarkdownRenderer.tsx:285-287 | a heading has one to six `#` (all the leading `#` of the line) and a non-empty text without line terminators |
| MarkdownRenderer.HeadingShape | src/components/blog/MarkdownRenderer.tsx:285 | a heading line is its `#` marks, at least one white-space character, then the heading text at the end of the line |
| MarkdownRenderer.HeadingTextAt | src/components/blog/MarkdownRenderer.tsx:285 | the heading text starts after all the white space, or after all but its last character when nothing else follows |
| MarkdownRenderer.QuoteOf | src/components/blog/MarkdownRenderer.tsx:303 | a quote line starts with `>` and carries the rest after one optional white-space character |
| MarkdownRenderer.FirstWord | src/components/blog/MarkdownRenderer.tsx:18 | a prefix of the text with no white space, followed by white space or the end |
| MarkdownRenderer.TitleAt | src/components/blog/MarkdownRenderer.tsx:19 | a title matched at a position is non-empty and sits between matching `"` or `'` quotes it does not contain, after `title=` |
| MarkdownRenderer.TitleAtOf | src/components/blog/MarkdownRenderer.tsx:19 | a `title="…"` or `title='…'` written at a position is what the match finds there |
| MarkdownRenderer.FindTitle | src/components/blog/MarkdownRenderer.tsx:19-20 | the leftmost position where the title pattern matches, and none iff it matches nowhere |
| MarkdownRenderer.ParseFenceInfo | src/components/blog/MarkdownRenderer.tsx:12-23 | blank info gives empty language and title; otherwise the language is the non-empty first word of the trimmed info and the title is the text of the leftmost title match, empty when there is none |
| MarkdownRenderer.DropLeadingBar | src/components/blog/MarkdownRenderer.tsx:27 | at most one leading `|` is removed |
| MarkdownRenderer.DropTrailingBar | src/components/blog/MarkdownRenderer.tsx:28 | at most one trailing `|` is removed |
| MarkdownRenderer.RowTextShape | src/components/blog/MarkdownRenderer.tsx:25-28 | the row text is the trimmed line without one optional leading and one optional trailing bar |
| MarkdownRenderer.TrimCells | src/components/blog/MarkdownRenderer.tsx:29 | each cell is trimmed, in order |
| MarkdownRenderer.TableRow | src/components/blog/MarkdownRenderer.tsx:25-30 | a parsed row is never empty |
| MarkdownRenderer.TableRowShape | src/components/blog/MarkdownRenderer.tsx:25-30 | every cell is trimmed and holds no `|` |
| MarkdownRenderer.RemoveSpaces | src/components/blog/MarkdownRenderer.tsx:35 | the result holds no white space |
| MarkdownRenderer.SeparatorCellOf | src/components/blog/MarkdownRenderer.tsx:32-36 | every alignment cell of the form `:?-{3,}:?` counts as a separator cell |
| MarkdownRenderer.NoSpaces | src/components/blog/MarkdownRenderer.tsx:35 | removing white space from text without any changes nothing |
| MarkdownRenderer.Fit | src/components/blog/MarkdownRenderer.tsx:250-254 | a body row cut or padded with `''` to exactly the header's width, keeping its own cells in place |
| MarkdownRenderer.Fitted | src/components/blog/MarkdownRenderer.tsx:249-254 | every body row is kept and has the header's width |
| MarkdownRenderer.Until | src/components/blog/MarkdownRenderer.tsx:207-210 | an inner loop's end: every line before it goes on and the line at it, if any, does not |
| MarkdownRenderer.FenceStep | src/components/blog/MarkdownRenderer.tsx:202-232 | a fence consumes at least its own line and makes a diagram or a code block |
| MarkdownRenderer.FenceBlock | src/components/blog/MarkdownRenderer.tsx:203-230 | the block keeps the code; it is a diagram iff the fence's language, lower-cased, is `mermaid`; a code block carries the fence's language and title |
| MarkdownRenderer.TableStep | src/components/blog/MarkdownRenderer.tsx:240-282 | a table consumes at least its header line and makes a table |
| MarkdownRenderer.QuoteStep | src/components/blog/MarkdownRenderer.tsx:303-317 | a quote consumes at least its first line and makes a quote |
| MarkdownRenderer.BulletStep | src/components/blog/MarkdownRenderer.tsx:319-331 | a bullet list consumes at least its first line and makes a bullet list |
| MarkdownRenderer.NumberedStep | src/components/blog/MarkdownRenderer.tsx:333-345 | a numbered list consumes at least its first line and makes an ordered list |
| MarkdownRenderer.ParagraphStep | src/components/blog/MarkdownRenderer.tsx:347-364 | a paragraph consumes at least its first line and makes a paragraph |
| MarkdownRenderer.Next | src/components/blog/MarkdownRenderer.tsx:194-364 | every pass of the outer loop moves past its line, which is why the loop ends |
| MarkdownRenderer.RenderStep | src/components/blog/MarkdownRenderer.tsx:194-364 | the blocks from a line are the block found there, if any, followed by the blocks from where that pass stopped |
| MarkdownRenderer.UnclosedFence | src/components/blog/MarkdownRenderer.tsx:207-211 | a fence never closed takes every remaining line as code |
| MarkdownRenderer.ClosedFence | src/components/blog/MarkdownRenderer.tsx:207-211 | a closed fence keeps the lines in between as code and resumes after the closing fence |
| MarkdownRenderer.TablesRectangular | src/components/blog/MarkdownRenderer.tsx:249-254 | every table the renderer makes has all its body rows as wide as its header |
| MarkdownRenderer.ParagraphStart | src/components/blog/MarkdownRenderer.tsx:197-345 | a paragraph starts only at a line that every earlier test of the loop turned down: not blank, fence, shortcode, table start, heading, quote or list |
| MarkdownRenderer.ParagraphExtent | src/components/blog/MarkdownRenderer.tsx:347-364 | a paragraph is its first line and the lines after it joined with single spaces; it stops at the first blank, fence, shortcode, table-start, heading, quote or list line |
| MarkdownRenderer.TableStepAt | src/components/blog/MarkdownRenderer.tsx:240-254 | a table is the header row and the body rows up to the first line that is blank, has no `|`, or is a separator, each fitted to the header's width |
| MarkdownRenderer.QuoteStepAt | src/components/blog/MarkdownRenderer.tsx:303-310 | a quote is the text of each consecutive quote line, in order |
| MarkdownRenderer.BulletStepAt | src/components/blog/MarkdownRenderer.tsx:319-324 | a bullet list is the text of each consecutive bullet line, in order |
| MarkdownRenderer.NumberedStepAt | src/components/blog/MarkdownRenderer.tsx:333-338 | a numbered list is the text of each consecutive numbered line, in order |
| MarkdownRenderer.ParagraphStepAt | src/components/blog/MarkdownRenderer.tsx:347-364 | a paragraph is the lines up to the first one that ends it, joined with spaces |
| MarkdownRenderer.Collect | src/components/blog/MarkdownRenderer.tsx:207-210 | the inner loops stop at the first line that does not go on and collect, in order, the item of every line before it |
| MarkdownRenderer.ReadFence | src/components/blog/MarkdownRenderer.tsx:202-232 | the fence branch gives exactly the block and next line of the fence's specification |
| MarkdownRenderer.ReadTable | src/components/blog/MarkdownRenderer.tsx:240-282 | the table branch gives exactly the block and next line of the table's specification |
| MarkdownRenderer.ReadQuote | src/components/blog/MarkdownRenderer.tsx:303-317 | the quote branch gives exactly the block and next line of the quote's specification |
| MarkdownRenderer.ReadBullets | src/components/blog/MarkdownRenderer.tsx:319-331 | the bullet branch gives exactly the block and next line of the bullet list's specification |
| MarkdownRenderer.ReadNumbered | src/components/blog/MarkdownRenderer.tsx:333-345 | the numbered branch gives exactly the block and next line of the numbered list's specification |
| MarkdownRenderer.ParagraphBreaks | src/components/blog/MarkdownRenderer.tsx:350-355 | the `break`s stop the paragraph at a line iff it is a shortcode, a table start, a heading, a quote or a list line |
| MarkdownRenderer.ReadParagraph | src/components/blog/MarkdownRenderer.tsx:347-364 | the paragraph branch gives exactly the block and next line of the paragraph's specification |
| MarkdownRenderer.NextBlock | src/components/blog/MarkdownRenderer.tsx:195-364 | one pass of the outer loop gives exactly the block and next line of the pass's specification, blank lines giving no block |
| MarkdownRenderer.RenderMarkdown | src/components/blog/MarkdownRenderer.tsx:189-368 | the blocks are exactly those of the block-by-block specification of the content |
| Shortcodes.Accepted | src/lib/markdown/shortcodes.ts:11-62 | a URL is accepted iff the sanitiser gives a non-empty answer, and then it is that answer |
| Shortcodes.MatchTail | src/lib/markdown/shortcodes.ts:9 | after the URL's `)`: an optional `{…}` group without `}` inside, then only white space |
| Shortcodes.MatchLine | src/lib/markdown/shortcodes.ts:9-46 | a match captures the kind, a non-empty URL without `)` and an optional group without `}`; the line is exactly those parts followed by white space |
| Shortcodes.MatchLineOf | src/lib/markdown/shortcodes.ts:9 | conversely, every line of the pattern's shape matches with exactly its parts as the captures |
| Shortcodes.TrimAll | src/lib/markdown/shortcodes.ts:30 | every part is trimmed, in order |
| Shortcodes.NonEmpty | src/lib/markdown/shortcodes.ts:30 | only the non-empty parts are kept, and all of them |
| Shortcodes.StripQuotes | src/lib/markdown/shortcodes.ts:37 | a value quoted at both ends loses one quote at each end; a value with no quote at either end is unchanged; it never grows |
| Shortcodes.Entry | src/lib/markdown/shortcodes.ts:33-39 | a part gives an attribute only with a non-empty name and a non-empty value |
| Shortcodes.EntryWithoutEquals | src/lib/markdown/shortcodes.ts:33-35 | a part without `=` gives no attribute |
| Shortcodes.EntryAtFirstEquals | src/lib/markdown/shortcodes.ts:33-39 | a part splits at its first `=`: the trimmed name before it and everything after it, `=` included, trimmed and unquoted; an empty name or value gives nothing |
| Shortcodes.Entries | src/lib/markdown/shortcodes.ts:32-40 | the entry of every part, in order |
| Shortcodes.CollectKeys | src/lib/markdown/shortcodes.ts:32-40 | a name is in the attributes iff some part gives it |
| Shortcodes.CollectLastWins | src/lib/markdown/shortcodes.ts:39 | the last part that gives a name decides its value |
| Shortcodes.CollectNonEmpty | src/lib/markdown/shortcodes.ts:35-38 | every kept attribute has a non-empty name and value |
| Shortcodes.AttrsNonEmpty | src/lib/markdown/shortcodes.ts:26-43 | every attribute parsed from a group has a non-empty name and value |
| Shortcodes.ParseAttrs | src/lib/markdown/shortcodes.ts:26-43 | the loop over the parts writes exactly the attributes of the part-by-part specification |
| Shortcodes.ParseShortcodeLine | src/lib/markdown/shortcodes.ts:45-58 | a shortcode is found iff the trimmed line matches the pattern and its URL is accepted; it carries the kind, the sanitised URL and the group's attributes |
| Shortcodes.Kept | src/lib/markdown/shortcodes.ts:64-69 | the given attributes, in order: every kept pair is a named attribute with a non-empty value, and every given one is kept |
| Shortcodes.KeptEmpty | src/lib/markdown/shortcodes.ts:69-73 | nothing is kept iff no attribute is given |
| Shortcodes.Rendered | src/lib/markdown/shortcodes.ts:65-68 | each pair is written `name="value"`, in order |
| Shortcodes.JoinEmpty | src/lib/markdown/shortcodes.ts:69-71 | the joined attribute text is empty iff there are no pairs |
| Shortcodes.Build | src/lib/markdown/shortcodes.ts:60-88 | `''` for a refused URL; the sanitised URL without braces when no attribute is given; otherwise the attribute text in braces |
| Shortcodes.BuildImageShortcode | src/lib/markdown/shortcodes.ts:60-74 | `''` for a refused URL; `@[image](url)` when none of alt, width, align, caption is given; otherwise those given, in that order, in braces |
| Shortcodes.BuildVideoShortcode | src/lib/markdown/shortcodes.ts:76-88 | `''` for a refused URL; `@[video](url)` when neither provider nor title is given; otherwise those given, in that order, in braces |
| Shortcodes.EntryOfRendered | src/lib/markdown/shortcodes.ts:33-65 | a written pair `name="value"` parses back to that name and value |
| Shortcodes.PartsOfRendered | src/lib/markdown/shortcodes.ts:30-69 | splitting joined written pairs gives the written pairs back |
| Shortcodes.AttrStringParses | src/lib/markdown/shortcodes.ts:26-69 | the attribute text a builder writes holds no `}`, is non-empty, and parses to the map of the given attributes |
| Shortcodes.ParseOfWritten | src/lib/markdown/shortcodes.ts:45-58 | a line of the builders' shape parses to its kind, URL and group attributes when the URL is accepted unchanged |
| Shortcodes.RoundTrip | src/lib/markdown/shortcodes.ts:45-88 | parsing what a builder wrote gives the kind, the accepted URL and exactly the given attributes, when sanitising is stable, the URL holds no `)` and no value holds `,` or `}` |
| Shortcodes.KeptKeys | src/lib/markdown/shortcodes.ts:64-69 | only named attributes appear among the kept pairs |
| Shortcodes.KeptAt | src/lib/markdown/shortcodes.ts:64-69 | a name is kept iff its value is given, and then with that value |
| Shortcodes.ImageRoundTrip | src/lib/markdown/shortcodes.ts:45-74 | parsing a built image line finds each of alt, width, align and caption iff it is given, with its value, and no other attribute |
| Shortcodes.VideoRoundTrip | src/lib/markdown/shortcodes.ts:45-88 | parsing a built video line finds provider and title iff each is given, with its value, and no other attribute |
| Slug.StripMarks | src/lib/mcp/posts.ts:67 | no combining mark U+0300..U+036F is left, text without one is unchanged, and no ASCII letter or digit is lost or gained |
| Slug.LowerSlugChars | src/lib/mcp/posts.ts:68-69 | after lower-casing, the text holds a slug character iff it held an ASCII letter or digit |
| Slug.Hyphenate | src/lib/mcp/posts.ts:69 | every run of characters other than `a-z0-9` becomes one hyphen: the result holds only slug characters and single hyphens, is empty iff the input is, starts as the input does, and holds a slug character iff the input does |
| Slug.TrimLeadingHyphens | src/lib/mcp/posts.ts:70 | removes exactly the leading hyphens: a suffix of the input that does not start with `-`, everything removed being `-` |
| Slug.TrimTrailingHyphens | src/lib/mcp/posts.ts:70 | removes exactly the trailing hyphens: a prefix of the input that does not end with `-`, everything removed being `-` |
| Slug.SlugifyShape | src/lib/mcp/posts.ts:64-73 | every title gives a well-formed slug: non-empty, only `a-z`, `0-9` and single inner hyphens, no hyphen at either end |
| Slug.SlugIsFixpoint | src/lib/mcp/posts.ts:64-73 | slugifying a well-formed slug gives it back |
| Slug.SlugifyIdempotent | src/lib/mcp/posts.ts:64-73 | slugifying twice is slugifying once |
| Slug.CoreEmptyIff | src/lib/mcp/posts.ts:65-72 | the normalised text is empty iff the title holds no ASCII letter or digit |
| Slug.SlugFallback | src/lib/mcp/posts.ts:72 | a title with no ASCII letter or digit gives `post` |
| UserNavMenu.SplitRuns | src/components/auth/UserNavMenu.tsx:19 | at least one piece, none holding white space |
| UserNavMenu.JoinSplitRuns | src/components/auth/UserNavMenu.tsx:19 | the pieces joined with single spaces are the text with each white-space run collapsed to one space |
| UserNavMenu.SplitRunsJoin | src/components/auth/UserNavMenu.tsx:19 | splitting words joined by single spaces gives the words back |
| UserNavMenu.PiecesNotEmpty | src/components/auth/UserNavMenu.tsx:17-19 | text that does not end in white space splits into non-empty pieces, except an empty first piece iff it starts with white space |
| UserNavMenu.Firsts | src/components/auth/UserNavMenu.tsx:20 | with non-empty pieces, one upper-cased first character per piece, in order |
| UserNavMenu.WordsOfName | src/components/auth/UserNavMenu.tsx:17-19 | the words of a name that is not blank are all non-empty |
| UserNavMenu.InitialsOfWords | src/components/auth/UserNavMenu.tsx:19-20 | one character for a single word and two for more: the upper-cased first characters of the first two words |
| UserNavMenu.GetInitials | src/components/auth/UserNavMenu.tsx:16-21 | `U` for a blank name; otherwise the upper-cased first characters of the first two words of the trimmed name, so one or two characters |

## Left out

- JsText.Lower: `toLowerCase` is modelled for ASCII letters only. Full Unicode case mapping is not part of the model. For example, JavaScript maps the Kelvin sign to `k`, and the model leaves it unchanged. Every member built on Lower inherits this restriction:
  - Highlight.NormalizeLanguage;
  - CodeBlockCard.NormalizeLanguageLabel;
  - PostList.InferCategory;
  - DashboardPostIndex filtering;
  - MarkdownEditor.DetectSlashContext and MarkdownEditor.Filtered;
  - McpAuth.ParseBearerToken;
  - Legacy.IsMissingColumnError;
  - PostStudio.CommandFilter;
  - Slug.SlugifyTitle.
- JsText.Upper: `toUpperCase` is modelled for ASCII letters only, one character to one character.
- UserNavMenu.GetInitials: the bound of one or two characters holds only for this one-to-one upper-casing of whole characters. In JavaScript, `"ß ß"` gives `"SSSS"`, and `part[0]` of a word that starts with an emoji is a lone UTF-16 surrogate.
- Strings are sequences of Unicode characters. JavaScript lengths, indices and `slice` count UTF-16 code units, so the model does not capture:
  - the 180 and 240 character excerpt cuts (PostText.ExcerptShape, PostList.BuildExcerpt) splitting a surrogate pair;
  - the editor's selection offsets counting an astral character as two.
- Slug.SlugifyTitle: the input is taken as already NFKD-decomposed. `normalize('NFKD')` is not modelled, only the removal of U+0300..U+036F that follows it.
- McpAuth.ApiKeysTable.AuthenticateMcpRequest: in the source, the `last_used_at` touch is fire-and-forget (`void touchLastUsedAt(...)`) and reads its own `new Date()`. The model performs it before answering, with the request's `now`. Its failure is ignored, as in the source.
- MermaidDiagramCard.MermaidLoader.Load: "at most one import" is proved for callers that run one after another. Concurrent callers that each await the same pending import are not modelled.
- PostStudio.Studio.DeleteDraft: the React `setPosts` updater and the `nextSelectedId` it sets are applied at once. The model does not capture React's batching, in which the updater may run after `setSelectedPostId(nextSelectedId)` reads the variable.
- PostStudio.Studio: React effects are modelled as the methods Reselect, LoadSelectedContent, Autosave and CheckRestore. The order in which React runs them, their cancellation flags and the 1200 ms debounce timer are not modelled. Toasts, focus and keyboard shortcut wiring are not modelled either.
- BulkRoute.PostsTable.Post: the request body is an already parsed JSON value, with `null` answering 500 as in the source. A body that is not JSON, which makes `request.json()` throw, cannot be represented.
- PublicPosts.DecodeCursor: Node's lenient decoders are modelled. Base64url skips characters outside the alphabet and UTF-8 replaces ill-formed sequences with U+FFFD. Lone UTF-16 surrogates in a cursor's fields cannot be represented.
- ClassNames.Flatten: the entries of an object argument are taken in the order given. JavaScript's `Object.entries` lists integer-like keys first in ascending order. Numbers are integers, and `String(number)` of a non-integer is not modelled.
- ClassNames.Cn: the conflict resolution of `twMerge` is not part of the model, only the joined class names it receives.
- McpBenchmark.RunBenchmark: times are exact numbers. The rounding of `toFixed(3)` in the report and `performance.now()` are not modelled. The durations are a parameter.
- AiLintLoop.TopRules: rules with equal counts keep the order of the summary, as the stable sort does. The ESLint run, `pnpm lint:fix` and their output are parameters.
- Legacy.HeadingHashes: `Number(...)` of a string reads the numeric-literal grammar into an exact value. Binary64 rounding and overflow are not modelled, so a decimal that rounds to a whole number in JavaScript (`"5.99999999999999999"` is 6 there) is truncated from its exact value here (5 marks).
- Json.Truthy: a number is falsy only when its digits spell zero. A non-zero literal that underflows to 0 in binary64 (`1e-400`) counts as truthy here.
- EnvFile.ProcessEnv.LoadEnvLocal: `key in process.env` is modelled as the key being set. Names inherited from `Object.prototype` (`constructor`, `toString`, `__proto__`) count as absent here, whereas the source would skip them.
- AiLintCheck.BumpShape: `byRule[ruleId]` reads only the rules counted so far. A rule id named like an inherited property (`constructor`, `toString`) starts from 0 here, whereas the source would read the inherited value.
- The following are parameters:
  - the clock (`new Date()`, `Date.now()`);
  - randomness (slug suffixes, ids, API keys);
  - `window.confirm` and `window.prompt`;
  - the URL sanitisers (`safeUrl`, `sanitizeUrl`, the `URL` parser);
  - SHA-256;
  - `codeToHtml`;
  - `Number(...)` of the benchmark's `--runs` value, and `Date` parsing;
  - every database query and its error.
- Rendering to React elements, CSS classes, image upload, `requestAnimationFrame` and focus handling in the editor, and the mermaid renderer's SVG are not modelled.

## Findings

| source | as written | input that shows it | evidently intended | confidence | as-written member | corrected member |
|---|---|---|---|---|---|---|
| src/components/editor/MarkdownEditor.tsx:189 | `prefixLine` starts the block at `lastIndexOf('\n', start - 1) + 1`. For a caret at 0 this is `lastIndexOf('\n', -1)`, which finds a newline at index 0, so the block starts after it and the newline is written twice | value `"\nabc"`, selection 0..0, prefix `"# "` gives `"\n# \nabc"` | `"# \nabc"`: the empty first line is prefixed | not executed | MarkdownEditor.PrefixLineAsWritten, MarkdownEditor.PrefixLineDuplicatesNewline | MarkdownEditor.PrefixLine |
| src/components/editor/MarkdownEditor.tsx:228-237 | `setLink` passes the prompted URL to `insertAtSelection` as its placeholder, which is used only without a selection. With a selection, the selected text becomes both the caption and the target | selection `"a"`, URL `"u"` gives `"[a](a)"` | `"[a](u)"` | not executed | MarkdownEditor.SetLinkAsWritten, MarkdownEditor.SetLinkDropsUrl | MarkdownEditor.SetLink |
| src/lib/markdown/highlight.ts:18 | the cache key is `${lang}::${code}`, so a language or code holding `::` can share another block's key | code `c` in language `a::b`, then code `b::c` in language `a`: the second block is answered the first block's HTML | one cache entry per pair of language and code. Highlight.HighlightCache keys its map by the pair itself, which models this intended key rather than the joined string | not executed | Highlight.JoinedStep, Highlight.JoinedStepServesOtherBlock | Highlight.HighlightCache.HighlightCode |
