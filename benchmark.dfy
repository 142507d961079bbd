/** The query benchmark script (`scripts/mcp-benchmark.mjs`): the run count read
    from the command line, the timing loop with its sorted samples, the
    percentiles, and the script's flow from the environment to the report.
    Number parsing, the clock and the database are parameters: `toNumber` for
    `Number(...)` (`None` for a value that is not finite), and per query a
    function from the call's index to its duration or its error. Times are
    exact reals; the rounding of `toFixed(3)` is not part of this model. */
module McpBenchmark {
  import opened Wrappers
  import opened JsText
  import EnvFile

  const DefaultRuns: int := 60
  const MinRuns: int := 5
  const RunsFlag: string := "--runs="
  const UrlVar: string := "NEXT_PUBLIC_SUPABASE_URL"
  const ServiceRoleVar: string := "SUPABASE_SERVICE_ROLE_KEY"
  const SkippedMessage: string := "No posts found. Benchmark skipped."

  // ---------------------------------------------------------------------------
  // The run count

  /** `process.argv.find(item => item.startsWith('--runs='))`. */
  function FindRunsArg(argv: seq<string>): (r: Option<nat>)
    ensures r.Some? ==> r.value < |argv| && StartsWith(argv[r.value], RunsFlag)
    ensures r.Some? ==> forall i :: 0 <= i < r.value ==> !StartsWith(argv[i], RunsFlag)
    ensures r.None? ==> forall i :: 0 <= i < |argv| ==> !StartsWith(argv[i], RunsFlag)
    decreases |argv|
  {
    if argv == [] then None
    else if StartsWith(argv[0], RunsFlag) then Some(0)
    else
      var rest := FindRunsArg(argv[1..]);
      if rest.Some? then Some(rest.value + 1) else None
  }

  /** `parseRuns`: 60 without the flag, and also when its value is not a
      finite number or is below 5; otherwise the value rounded down. */
  function ParseRuns(argv: seq<string>, toNumber: string -> Option<real>): (r: int)
    ensures r >= MinRuns
    ensures FindRunsArg(argv).None? ==> r == DefaultRuns
    ensures var a := FindRunsArg(argv);
            a.Some? ==>
              var v := toNumber(argv[a.value][|RunsFlag|..]);
              && (v.None? || v.value < MinRuns as real ==> r == DefaultRuns)
              && (v.Some? && v.value >= MinRuns as real ==> r == v.value.Floor)
  {
    var arg := FindRunsArg(argv);
    var value := if arg.Some? then toNumber(argv[arg.value][|RunsFlag|..]) else Some(DefaultRuns as real);
    if value.None? || value.value < MinRuns as real then DefaultRuns
    else
      FloorAtLeast(value.value, MinRuns);
      value.value.Floor
  }

  lemma FloorAtLeast(x: real, n: int)
    requires x >= n as real
    ensures x.Floor >= n
  {
  }

  // ---------------------------------------------------------------------------
  // Percentiles

  predicate Ascending(s: seq<real>)
  {
    forall i, j :: 0 <= i < j < |s| ==> s[i] <= s[j]
  }

  /** `Math.min(length - 1, Math.floor(length * p))`: in bounds for a
      non-empty list and a fraction that is not negative. */
  function PercentileIndex(n: nat, p: real): (r: nat)
    requires n > 0 && p >= 0.0
    ensures r < n
    ensures r <= (n as real * p).Floor
  {
    var f := (n as real * p).Floor;
    if n - 1 < f then n - 1 else f
  }

  /** A larger fraction never picks an earlier sample. */
  lemma PercentileIndexMonotone(n: nat, p: real, q: real)
    requires n > 0 && 0.0 <= p <= q
    ensures PercentileIndex(n, p) <= PercentileIndex(n, q)
  {
    var x, y := n as real * p, n as real * q;
    assert x <= y;
    assert x.Floor as real <= x;
    assert y < y.Floor as real + 1.0;
  }

  /** `percentile`. */
  function Percentile(sorted: seq<real>, p: real): real
    requires |sorted| > 0 && p >= 0.0
  {
    sorted[PercentileIndex(|sorted|, p)]
  }

  function Sum(s: seq<real>): real
  {
    if s == [] then 0.0 else Sum(s[..|s| - 1]) + s[|s| - 1]
  }

  /** Puts `x` before the first sample that is not smaller. */
  function InsertSample(x: real, t: seq<real>): seq<real>
  {
    if t == [] || x <= t[0] then [x] + t else [t[0]] + InsertSample(x, t[1..])
  }

  /** The samples in ascending order: what the numeric sort produces. */
  function SortedSamples(s: seq<real>): seq<real>
  {
    if s == [] then [] else InsertSample(s[0], SortedSamples(s[1..]))
  }

  lemma {:induction false} InsertSamplePerm(x: real, t: seq<real>)
    ensures multiset(InsertSample(x, t)) == multiset(t) + multiset{x}
    decreases |t|
  {
    if t != [] && x > t[0] {
      InsertSamplePerm(x, t[1..]);
      assert t == [t[0]] + t[1..];
    }
  }

  /** No sample below `b`. */
  predicate AtLeast(t: seq<real>, b: real)
  {
    forall i :: 0 <= i < |t| ==> b <= t[i]
  }

  lemma {:induction false} InsertSampleBound(x: real, t: seq<real>, b: real)
    requires AtLeast(t, b) && b <= x
    ensures AtLeast(InsertSample(x, t), b)
    decreases |t|
  {
    if t != [] && x > t[0] {
      var tail := t[1..];
      assert forall i :: 0 <= i < |tail| ==> tail[i] == t[i + 1];
      InsertSampleBound(x, tail, b);
      var r := InsertSample(x, t);
      assert forall i :: 1 <= i < |r| ==> r[i] == InsertSample(x, tail)[i - 1];
    }
  }

  lemma {:induction false} InsertSampleAscending(x: real, t: seq<real>)
    requires Ascending(t)
    ensures Ascending(InsertSample(x, t))
    decreases |t|
  {
    if t != [] && x > t[0] {
      var tail := t[1..];
      assert forall i :: 0 <= i < |tail| ==> tail[i] == t[i + 1];
      InsertSampleAscending(x, tail);
      InsertSampleBound(x, tail, t[0]);
      var r := InsertSample(x, t);
      var rt := InsertSample(x, tail);
      assert forall i :: 1 <= i < |r| ==> r[i] == rt[i - 1];
    }
  }

  /** Sorting orders the samples and keeps every one of them. */
  lemma {:induction false} SortedSamplesSpec(s: seq<real>)
    ensures Ascending(SortedSamples(s))
    ensures multiset(SortedSamples(s)) == multiset(s)
    decreases |s|
  {
    if s != [] {
      SortedSamplesSpec(s[1..]);
      InsertSampleAscending(s[0], SortedSamples(s[1..]));
      InsertSamplePerm(s[0], SortedSamples(s[1..]));
      assert s == [s[0]] + s[1..];
    }
  }

  /** Two ascending arrangements of the same samples are the same list. */
  lemma {:induction false} AscendingUnique(x: seq<real>, y: seq<real>)
    requires Ascending(x) && Ascending(y) && multiset(x) == multiset(y)
    ensures x == y
    decreases |x|
  {
    assert |x| == |multiset(x)| == |multiset(y)| == |y|;
    if x != [] {
      assert y[0] in multiset(y) && x[0] in multiset(x);
      FirstIsLeast(x, y[0]);
      FirstIsLeast(y, x[0]);
      TailMultiset(x, y);
      AscendingTail(x);
      AscendingTail(y);
      AscendingUnique(x[1..], y[1..]);
      assert x == [x[0]] + x[1..] && y == [y[0]] + y[1..];
    }
  }

  lemma TailMultiset(x: seq<real>, y: seq<real>)
    requires x != [] && y != [] && x[0] == y[0] && multiset(x) == multiset(y)
    ensures multiset(x[1..]) == multiset(y[1..])
  {
    var a, b := multiset(x[1..]), multiset(y[1..]);
    assert x == [x[0]] + x[1..];
    assert y == [y[0]] + y[1..];
    assert multiset(x) == multiset{x[0]} + a;
    assert multiset(y) == multiset{x[0]} + b;
    assert forall v :: a[v] == multiset(x)[v] - multiset{x[0]}[v];
    assert forall v :: b[v] == multiset(y)[v] - multiset{x[0]}[v];
  }

  lemma AscendingTail(x: seq<real>)
    requires x != [] && Ascending(x)
    ensures Ascending(x[1..])
  {
    assert forall i :: 0 <= i < |x[1..]| ==> x[1..][i] == x[i + 1];
  }

  /** The first of ascending samples is the least of them. */
  lemma FirstIsLeast(x: seq<real>, v: real)
    requires Ascending(x) && v in multiset(x)
    ensures x[0] <= v
  {
    var i :| 0 <= i < |x| && x[i] == v;
  }

  /** The report of one query: percentiles 50, 95 and 99, the mean, the
      smallest and the largest sample. */
  datatype Stats = Stats(p50: real, p95: real, p99: real, avg: real, min: real, max: real)

  function StatsOf(sorted: seq<real>): Stats
    requires |sorted| > 0
  {
    Stats(Percentile(sorted, 0.5), Percentile(sorted, 0.95), Percentile(sorted, 0.99),
          Sum(sorted) / |sorted| as real, sorted[0], sorted[|sorted| - 1])
  }

  /** Samples between two bounds add up to between `n` times each bound. */
  lemma {:induction false} SumBounds(s: seq<real>, lo: real, hi: real)
    requires forall i :: 0 <= i < |s| ==> lo <= s[i] <= hi
    ensures |s| as real * lo <= Sum(s) <= |s| as real * hi
    decreases |s|
  {
    if s != [] {
      var init := s[..|s| - 1];
      assert forall i :: 0 <= i < |init| ==> init[i] == s[i];
      SumBounds(init, lo, hi);
      assert |s| as real * lo == |init| as real * lo + lo;
      assert |s| as real * hi == |init| as real * hi + hi;
    }
  }

  /** On sorted samples the figures are ordered: min <= p50 <= p95 <= p99 <=
      max, and the mean lies between min and max. */
  lemma StatsOrdered(sorted: seq<real>)
    requires |sorted| > 0 && Ascending(sorted)
    ensures var st := StatsOf(sorted);
            && st.min <= st.p50 <= st.p95 <= st.p99 <= st.max
            && st.min <= st.avg <= st.max
  {
    var n := |sorted|;
    PercentileIndexMonotone(n, 0.5, 0.95);
    PercentileIndexMonotone(n, 0.95, 0.99);
    var lo, hi := sorted[0], sorted[n - 1];
    assert forall i :: 0 <= i < n ==> lo <= sorted[i] <= hi;
    SumBounds(sorted, lo, hi);
    MeanBetween(Sum(sorted), n as real, lo, hi);
  }

  lemma MeanBetween(sum: real, n: real, lo: real, hi: real)
    requires n > 0.0 && n * lo <= sum <= n * hi
    ensures lo <= sum / n <= hi
  {
    var avg := sum / n;
    assert avg * n == sum;
  }

  // ---------------------------------------------------------------------------
  // Timing one query

  /** `samples.sort((a, b) => a - b)`: insertion sort in place. */
  method SortSamples(a: array<real>)
    modifies a
    ensures Ascending(a[..])
    ensures multiset(a[..]) == multiset(old(a[..]))
  {
    var i := 0;
    while i < a.Length
      invariant 0 <= i <= a.Length
      invariant Ascending(a[..i])
      invariant multiset(a[..]) == multiset(old(a[..]))
    {
      InsertLast(a, i);
      i := i + 1;
    }
    assert a[..i] == a[..];
  }

  /** Moves `a[i]` down into the sorted `a[..i]`. */
  method InsertLast(a: array<real>, i: nat)
    requires i < a.Length && Ascending(a[..i])
    modifies a
    ensures Ascending(a[..i + 1])
    ensures multiset(a[..]) == multiset(old(a[..]))
  {
    var j := i;
    while j > 0 && a[j - 1] > a[j]
      invariant 0 <= j <= i
      invariant forall k, l :: 0 <= k < l <= i && k != j && l != j ==> a[k] <= a[l]
      invariant forall l :: j < l <= i ==> a[j] < a[l]
      invariant multiset(a[..]) == multiset(old(a[..]))
    {
      a[j - 1], a[j] := a[j], a[j - 1];
      j := j - 1;
    }
  }

  /** The samples copied into an array and sorted there. */
  method SortCopy(pushed: seq<real>) returns (samples: seq<real>)
    ensures Ascending(samples) && multiset(samples) == multiset(pushed)
    ensures samples == SortedSamples(pushed)
  {
    var a := new real[|pushed|](k requires 0 <= k < |pushed| => pushed[k]);
    assert a[..] == pushed;
    SortSamples(a);
    samples := a[..];
    SortedSamplesSpec(pushed);
    AscendingUnique(samples, SortedSamples(pushed));
  }

  /** The duration of a call, 0 for a failed one. */
  function DurationOf(call: Result<real, string>): real
  {
    if call.Ok? then call.value else 0.0
  }

  /** The durations of the first `n` calls, in call order. */
  function Durations(call: nat -> Result<real, string>, n: nat): (r: seq<real>)
    ensures |r| == n
  {
    if n == 0 then [] else Durations(call, n - 1) + [DurationOf(call(n - 1))]
  }

  /** No call among the first `runs` fails. */
  predicate AllOk(call: nat -> Result<real, string>, runs: nat)
  {
    forall i :: 0 <= i < runs ==> call(i).Ok?
  }

  /** The figures of `runs` successful calls. */
  function TimedStats(call: nat -> Result<real, string>, runs: nat): Stats
    requires runs > 0
  {
    StatsOf(SortedSamples(Durations(call, runs)))
  }

  /** `timed`: `runs` calls, stopping at the first that fails with
      `<name> failed: <message>`; otherwise the figures of the sorted
      durations. */
  method Timed(name: string, call: nat -> Result<real, string>, runs: nat)
    returns (r: Result<Stats, string>, samples: seq<real>)
    requires runs > 0
    ensures r.Ok? <==> AllOk(call, runs)
    ensures r.Err? ==> exists i :: 0 <= i < runs && call(i).Err? && (forall k :: 0 <= k < i ==> call(k).Ok?)
                                   && r.error == name + " failed: " + call(i).error
    ensures r.Ok? ==> && Ascending(samples)
                      && multiset(samples) == multiset(Durations(call, runs))
                      && samples == SortedSamples(Durations(call, runs))
                      && r.value == StatsOf(samples)
                      && r.value == TimedStats(call, runs)
  {
    var pushed: seq<real> := [];
    var i := 0;
    while i < runs
      invariant 0 <= i <= runs
      invariant pushed == Durations(call, i)
      invariant forall k :: 0 <= k < i ==> call(k).Ok?
    {
      var outcome := call(i);
      if outcome.Err? {
        return Err(name + " failed: " + outcome.error), pushed;
      }
      pushed := pushed + [outcome.value];
      i := i + 1;
    }
    samples := SortCopy(pushed);
    r := Ok(StatsOf(samples));
  }

  // ---------------------------------------------------------------------------
  // The script

  /** The sample post: its id, author and slug. */
  datatype Post = Post(id: string, authorId: string, slug: string)

  /** The four timed queries. */
  datatype Query = ReadBySlug | SearchNoQuery | SearchWithQuery | ApiKeyLookup

  function LabelOf(q: Query): string
  {
    match q
    case ReadBySlug => "post_read_by_slug"
    case SearchNoQuery => "post_search_no_query"
    case SearchWithQuery => "post_search_with_query"
    case ApiKeyLookup => "api_key_lookup"
  }

  datatype Outcome =
    | Failed(message: string)    // printed to stderr, exit 1
    | Skipped                    // `SkippedMessage`
    | Report(runs: int, sample: Post, readBySlug: Stats, searchNoQuery: Stats,
             searchWithQuery: Stats, apiKeyLookup: Option<Stats>)

  /** `main`: load `.env.local`, require the two variables, read the run count,
      load a sample post (an error fails, none skips), time the three post
      queries and, when some key has a hash, the key lookup. */
  method RunBenchmark(env: EnvFile.ProcessEnv, fileExists: bool, raw: string,
                      argv: seq<string>, toNumber: string -> Option<real>,
                      samplePost: Result<Option<Post>, string>, sampleKeyHash: Option<string>,
                      calls: Query -> nat -> Result<real, string>)
    returns (outcome: Outcome)
    modifies env
    ensures fileExists ==> env.vars == EnvFile.Apply(old(env.vars), Split(raw, '\n'))
    ensures !fileExists ==> env.vars == old(env.vars)
    ensures env.RequireEnv(UrlVar).Err? ==> outcome == Failed(env.RequireEnv(UrlVar).error)
    ensures env.RequireEnv(UrlVar).Ok? && env.RequireEnv(ServiceRoleVar).Err? ==>
              outcome == Failed(env.RequireEnv(ServiceRoleVar).error)
    ensures outcome.Skipped? <==> env.RequireEnv(UrlVar).Ok? && env.RequireEnv(ServiceRoleVar).Ok? && samplePost == Ok(None)
    ensures env.RequireEnv(UrlVar).Ok? && env.RequireEnv(ServiceRoleVar).Ok? && samplePost.Err? ==>
              outcome == Failed("Failed to load sample post: " + samplePost.error)
    ensures env.RequireEnv(UrlVar).Ok? && env.RequireEnv(ServiceRoleVar).Ok? && samplePost.Ok? && samplePost.value.Some? ==>
              var runs := ParseRuns(argv, toNumber);
              var keyed := sampleKeyHash.Some? && sampleKeyHash.value != "";
              (outcome.Report? <==> && AllOk(calls(ReadBySlug), runs) && AllOk(calls(SearchNoQuery), runs)
                                    && AllOk(calls(SearchWithQuery), runs)
                                    && (keyed ==> AllOk(calls(ApiKeyLookup), runs)))
    ensures outcome.Report? ==>
              && samplePost == Ok(Some(outcome.sample))
              && outcome.runs == ParseRuns(argv, toNumber)
              && outcome.readBySlug == TimedStats(calls(ReadBySlug), outcome.runs)
              && outcome.searchNoQuery == TimedStats(calls(SearchNoQuery), outcome.runs)
              && outcome.searchWithQuery == TimedStats(calls(SearchWithQuery), outcome.runs)
              && (outcome.apiKeyLookup.Some? <==> sampleKeyHash.Some? && sampleKeyHash.value != "")
              && (outcome.apiKeyLookup.Some? ==> outcome.apiKeyLookup.value == TimedStats(calls(ApiKeyLookup), outcome.runs))
  {
    env.LoadEnvLocal(fileExists, raw);
    var url := env.RequireEnv(UrlVar);
    if url.Err? {
      return Failed(url.error);
    }
    var serviceRole := env.RequireEnv(ServiceRoleVar);
    if serviceRole.Err? {
      return Failed(serviceRole.error);
    }
    var runs := ParseRuns(argv, toNumber);
    if samplePost.Err? {
      return Failed("Failed to load sample post: " + samplePost.error);
    }
    if samplePost.value.None? {
      return Skipped;
    }
    var post := samplePost.value.value;
    var readBySlug, readBySlugSamples := Timed(LabelOf(ReadBySlug), calls(ReadBySlug), runs);
    if readBySlug.Err? {
      return Failed(readBySlug.error);
    }
    var searchNoQuery, searchNoQuerySamples := Timed(LabelOf(SearchNoQuery), calls(SearchNoQuery), runs);
    if searchNoQuery.Err? {
      return Failed(searchNoQuery.error);
    }
    var searchWithQuery, searchWithQuerySamples := Timed(LabelOf(SearchWithQuery), calls(SearchWithQuery), runs);
    if searchWithQuery.Err? {
      return Failed(searchWithQuery.error);
    }
    var apiKeyLookup: Option<Stats> := None;
    if sampleKeyHash.Some? && sampleKeyHash.value != "" {
      var lookup, lookupSamples := Timed(LabelOf(ApiKeyLookup), calls(ApiKeyLookup), runs);
      if lookup.Err? {
        return Failed(lookup.error);
      }
      apiKeyLookup := Some(lookup.value);
    }
    outcome := Report(runs, post, readBySlug.value, searchNoQuery.value, searchWithQuery.value, apiKeyLookup);
  }
}
