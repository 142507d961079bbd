/** The query-plan script (`scripts/mcp-explain.mjs`): load the environment,
    pick a sample post, ask the database for the plans of the four queries the
    MCP tools run, print them, and print a hint when some plan could not be
    fetched. The database is a parameter: the sample post's outcome, the
    sample key's hash, and each plan request's result. */
module McpExplain {
  import opened Wrappers
  import opened JsText
  import EnvFile

  const UrlVar: string := "NEXT_PUBLIC_SUPABASE_URL"
  const ServiceRoleVar: string := "SUPABASE_SERVICE_ROLE_KEY"
  const SkippedMessage: string := "No posts found. EXPLAIN skipped."
  const HintHeader: string := "\nHint: Supabase에서 PostgREST explain이 꺼져 있으면 아래 에러가 나옵니다."

  /** A plan request's result: the plan text, or the error's message. */
  datatype PlanResult = PlanResult(data: string, error: Option<string>)

  /** `printPlan`: prints the title, then the error message or the plan, and
      reports whether there was no error. */
  function PrintPlan(title: string, result: PlanResult): (r: (bool, seq<string>))
    ensures r.0 <==> result.error.None?
    ensures |r.1| == 2 && r.1[0] == "\n=== " + title + " ==="
    ensures r.1[1] == if result.error.Some? then result.error.value else result.data
  {
    if result.error.Some? then (false, ["\n=== " + title + " ===", result.error.value])
    else (true, ["\n=== " + title + " ===", result.data])
  }

  /** The sample post: its id, author and slug. */
  datatype Post = Post(id: string, authorId: string, slug: string)

  /** The four plans: by slug, the search without and with a query, and the
      key lookup, which is only requested when some key has a hash. */
  datatype Plans = Plans(readBySlug: PlanResult, searchNoQuery: PlanResult,
                         searchWithQuery: PlanResult, keyLookup: PlanResult)

  datatype Outcome =
    | Failed(message: string)                 // printed to stderr, exit 1
    | Skipped                                 // `SkippedMessage`
    | Explained(sample: Post, lines: seq<string>, hint: bool)

  /** The plans' lines and whether each one succeeded; the key lookup counts
      as a success when it was not requested. */
  function Explain(plans: Plans, keyHash: Option<string>): (r: (seq<string>, bool))
    ensures var looked := keyHash.Some? && keyHash.value != "";
            r.1 <==> && plans.readBySlug.error.None? && plans.searchNoQuery.error.None?
                     && plans.searchWithQuery.error.None?
                     && (looked ==> plans.keyLookup.error.None?)
    ensures |r.0| == if keyHash.Some? && keyHash.value != "" then 8 else 6
  {
    var p1 := PrintPlan("EXPLAIN post_read by slug", plans.readBySlug);
    var p2 := PrintPlan("EXPLAIN post_search no query", plans.searchNoQuery);
    var p3 := PrintPlan("EXPLAIN post_search with textSearch", plans.searchWithQuery);
    var p4 := if keyHash.Some? && keyHash.value != "" then PrintPlan("EXPLAIN api_key lookup by key_hash", plans.keyLookup)
              else (true, []);
    (p1.1 + p2.1 + p3.1 + p4.1, p1.0 && p2.0 && p3.0 && p4.0)
  }

  /** `main`: load `.env.local`, require the two variables, load a sample post
      (an error fails, none skips), print the plans, and print the hint when
      one of them failed. */
  method RunExplain(env: EnvFile.ProcessEnv, fileExists: bool, raw: string,
                    samplePost: Result<Option<Post>, string>, keyHash: Option<string>, plans: Plans)
    returns (outcome: Outcome)
    modifies env
    ensures fileExists ==> env.vars == EnvFile.Apply(old(env.vars), Split(raw, '\n'))
    ensures !fileExists ==> env.vars == old(env.vars)
    ensures env.RequireEnv(UrlVar).Err? ==> outcome == Failed(env.RequireEnv(UrlVar).error)
    ensures env.RequireEnv(UrlVar).Ok? && env.RequireEnv(ServiceRoleVar).Err? ==>
              outcome == Failed(env.RequireEnv(ServiceRoleVar).error)
    ensures outcome.Skipped? <==> env.RequireEnv(UrlVar).Ok? && env.RequireEnv(ServiceRoleVar).Ok? && samplePost == Ok(None)
    ensures env.RequireEnv(UrlVar).Ok? && env.RequireEnv(ServiceRoleVar).Ok? && samplePost.Err? ==>
              outcome == Failed("Failed to load sample post: " + samplePost.error)
    ensures env.RequireEnv(UrlVar).Ok? && env.RequireEnv(ServiceRoleVar).Ok? && samplePost.Ok? && samplePost.value.Some? ==>
              outcome == Explained(samplePost.value.value, Explain(plans, keyHash).0, !Explain(plans, keyHash).1)
    ensures outcome.Explained? ==>
              && samplePost == Ok(Some(outcome.sample))
              && outcome.lines == Explain(plans, keyHash).0
              && (outcome.hint <==> !Explain(plans, keyHash).1)
  {
    env.LoadEnvLocal(fileExists, raw);
    var url := env.RequireEnv(UrlVar);
    if url.Err? {
      return Failed(url.error);
    }
    var serviceRole := env.RequireEnv(ServiceRoleVar);
    if serviceRole.Err? {
      return Failed(serviceRole.error);
    }
    if samplePost.Err? {
      return Failed("Failed to load sample post: " + samplePost.error);
    }
    if samplePost.value.None? {
      return Skipped;
    }
    var explained := Explain(plans, keyHash);
    outcome := Explained(samplePost.value.value, explained.0, !explained.1);
  }

  /** Without a key hash the key lookup is neither printed nor able to raise
      the hint: the hint then depends on the three post plans only. With a key
      hash, a failed key lookup raises it whatever the other plans gave. */
  lemma AbsentKeyIsOk(plans: Plans, other: PlanResult, hash: string, error: string)
    ensures Explain(plans, None).1 == Explain(plans.(keyLookup := other), None).1
    ensures Explain(plans, Some("")).1 == Explain(plans, None).1
    ensures hash != "" ==> !Explain(plans.(keyLookup := PlanResult(other.data, Some(error))), Some(hash)).1
  {
  }
}
