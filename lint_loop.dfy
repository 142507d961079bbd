/** The lint retry loop (`scripts/ai-lint/loop.mjs`): up to three runs of the
    lint summary, an automatic fix after the first failed run, and a stop
    asking for manual fixes after the second. Each run of the summary script
    and of `pnpm lint:fix` is a parameter: the summary's exit status and output
    per attempt, and the fixer's status. */
module AiLintLoop {
  import opened Wrappers
  import AiLintCheck

  const MaxAttempts: nat := 3
  const TopRulesLimit: nat := 5

  /** The parts of the summary's report the loop reads; either may be
      missing from what was parsed. */
  datatype Report = Report(summary: Option<AiLintCheck.Summary>, byRule: Option<AiLintCheck.RuleCounts>)

  /** One run of the summary script: `status ?? 1` and `stdout || ''` are
      taken by `run`. */
  datatype CheckRun = CheckRun(status: Option<int>, stdout: Option<string>)

  /** `getReport`'s result. */
  datatype Status = Status(ok: bool, report: Option<Report>)

  // ---------------------------------------------------------------------------
  // Reading one run

  /** `JSON.parse(check.stdout || '{}')`, `null` when it throws. */
  function ReportOf(run: CheckRun, parse: string -> Option<Report>): Option<Report>
  {
    parse(if run.stdout.Some? && run.stdout.value != "" then run.stdout.value else "{}")
  }

  /** `report?.summary?.issueCount || 0`. */
  function IssueCount(report: Option<Report>): nat
  {
    if report.Some? && report.value.summary.Some? then report.value.summary.value.issueCount else 0
  }

  /** `getReport`: the run passes exactly when the script exited 0 and the
      report, if it has a summary, counts no issue. */
  function GetReport(run: CheckRun, parse: string -> Option<Report>): (r: Status)
    ensures r.report == ReportOf(run, parse)
    ensures r.ok <==> run.status == Some(0) &&
                      (r.report.None? || r.report.value.summary.None? || r.report.value.summary.value.issueCount == 0)
  {
    var report := ReportOf(run, parse);
    Status(AiLintCheck.StatusOf(run.status) == 0 && IssueCount(report) == 0, report)
  }

  // ---------------------------------------------------------------------------
  // The most frequent rules

  /** Counts never increase along the list. */
  predicate SortedByCount(t: AiLintCheck.RuleCounts)
  {
    forall i, j :: 0 <= i < j < |t| ==> t[i].1 >= t[j].1
  }

  /** Puts an entry before the first entry whose count is not larger, so it
      goes ahead of entries with the same count. */
  function Insert(e: (string, nat), t: AiLintCheck.RuleCounts): AiLintCheck.RuleCounts
  {
    if t == [] || e.1 >= t[0].1 then [e] + t else [t[0]] + Insert(e, t[1..])
  }

  /** Inserting keeps every entry. */
  lemma {:induction false} InsertPerm(e: (string, nat), t: AiLintCheck.RuleCounts)
    ensures multiset(Insert(e, t)) == multiset(t) + multiset{e}
    decreases |t|
  {
    if t != [] && e.1 < t[0].1 {
      InsertPerm(e, t[1..]);
      assert t == [t[0]] + t[1..];
    }
  }

  /** No count above `b`. */
  predicate AtMost(t: AiLintCheck.RuleCounts, b: nat)
  {
    forall i :: 0 <= i < |t| ==> t[i].1 <= b
  }

  lemma {:induction false} InsertBound(e: (string, nat), t: AiLintCheck.RuleCounts, b: nat)
    requires AtMost(t, b) && e.1 <= b
    ensures AtMost(Insert(e, t), b)
    decreases |t|
  {
    if t != [] && e.1 < t[0].1 {
      var tail := t[1..];
      assert forall i :: 0 <= i < |tail| ==> tail[i] == t[i + 1];
      InsertBound(e, tail, b);
      var r := Insert(e, t);
      assert forall i :: 1 <= i < |r| ==> r[i] == Insert(e, tail)[i - 1];
    }
  }

  /** Inserting into a list sorted by count keeps it sorted. */
  lemma {:induction false} InsertSorted(e: (string, nat), t: AiLintCheck.RuleCounts)
    requires SortedByCount(t)
    ensures SortedByCount(Insert(e, t))
    decreases |t|
  {
    if t != [] && e.1 < t[0].1 {
      var tail := t[1..];
      assert forall i :: 0 <= i < |tail| ==> tail[i] == t[i + 1];
      InsertSorted(e, tail);
      InsertBound(e, tail, t[0].1);
      var r := Insert(e, t);
      var rt := Insert(e, tail);
      assert forall i :: 1 <= i < |r| ==> r[i] == rt[i - 1];
    }
  }

  /** `sort((a, b) => b[1] - a[1])`: the entries by count, largest first; the
      sort is stable, so entries with the same count keep their order. */
  function SortByCount(t: AiLintCheck.RuleCounts): AiLintCheck.RuleCounts
  {
    if t == [] then [] else Insert(t[0], SortByCount(t[1..]))
  }

  /** Sorting orders the counts and keeps the entries. */
  lemma {:induction false} SortByCountSpec(t: AiLintCheck.RuleCounts)
    ensures SortedByCount(SortByCount(t))
    ensures multiset(SortByCount(t)) == multiset(t)
    decreases |t|
  {
    if t != [] {
      SortByCountSpec(t[1..]);
      InsertSorted(t[0], SortByCount(t[1..]));
      InsertPerm(t[0], SortByCount(t[1..]));
      assert t == [t[0]] + t[1..];
    }
  }

  /** `topRules`: at most `limit` entries, the largest counts first. */
  function TopRules(byRule: AiLintCheck.RuleCounts, limit: nat): (r: AiLintCheck.RuleCounts)
    ensures |r| == if |byRule| < limit then |byRule| else limit
  {
    SortByCountSpec(byRule);
    var sorted := SortByCount(byRule);
    assert |sorted| == |multiset(sorted)| == |multiset(byRule)| == |byRule|;
    sorted[..if |sorted| < limit then |sorted| else limit]
  }

  /** The top rules are entries of the table, in decreasing count, and every
      entry left out counts no more than any entry kept. */
  lemma TopRulesSpec(byRule: AiLintCheck.RuleCounts, limit: nat)
    ensures var r := TopRules(byRule, limit);
            && SortedByCount(r)
            && (forall i :: 0 <= i < |r| ==> r[i] in byRule)
            && (forall e :: e in byRule && e !in r ==> forall j :: 0 <= j < |r| ==> e.1 <= r[j].1)
  {
    SortByCountSpec(byRule);
    var sorted := SortByCount(byRule);
    var r := TopRules(byRule, limit);
    assert r == sorted[..|r|];
    forall i | 0 <= i < |r| ensures r[i] in byRule {
      assert r[i] == sorted[i];
      assert sorted[i] in multiset(sorted);
    }
    forall e | e in byRule && e !in r ensures forall j :: 0 <= j < |r| ==> e.1 <= r[j].1 {
      assert e in multiset(byRule);
      assert e in multiset(sorted);
      forall j | 0 <= j < |r| ensures e.1 <= r[j].1 {
        assert r[j] == sorted[j];
      }
    }
  }

  // ---------------------------------------------------------------------------
  // The loop

  /** An entry of `history`: a check with its summary and top rules, or the
      autofix with the fixer's status. */
  datatype Entry =
    | Checked(attempt: nat, ok: bool, summary: Option<AiLintCheck.Summary>, topRules: AiLintCheck.RuleCounts)
    | Autofix(attempt: nat, fixStatus: int)

  /** The printed result: success, a stop for manual fixes, or the blocker
      report. */
  datatype Outcome =
    | Success(attemptsUsed: nat, history: seq<Entry>)
    | ManualFixRequired(attemptsUsed: nat, history: seq<Entry>)
    | Blocker(history: seq<Entry>)

  /** The process exit code. */
  function ExitCode(o: Outcome): (r: int)
    ensures r == 0 <==> o.Success?
  {
    if o.Success? then 0 else 1
  }

  /** The history entry of one check. */
  function CheckedEntry(attempt: nat, s: Status): (r: Entry)
    ensures r.Checked? && r.attempt == attempt && r.ok == s.ok
  {
    var summary := if s.report.Some? then s.report.value.summary else None;
    var byRule := if s.report.Some? && s.report.value.byRule.Some? then s.report.value.byRule.value else [];
    Checked(attempt, s.ok, summary, TopRules(byRule, TopRulesLimit))
  }

  /** The loop from `attempt` on, with the history so far. */
  function RunFrom(checks: nat -> CheckRun, parse: string -> Option<Report>, fixStatus: int,
                   attempt: nat, history: seq<Entry>): Outcome
    requires attempt >= 1
    decreases MaxAttempts + 1 - attempt
  {
    if attempt > MaxAttempts then Blocker(history)
    else
      var s := GetReport(checks(attempt), parse);
      var h := history + [CheckedEntry(attempt, s)];
      if s.ok then Success(attempt, h)
      else if attempt == 1 then RunFrom(checks, parse, fixStatus, attempt + 1, h + [Autofix(attempt, fixStatus)])
      else if attempt < MaxAttempts then ManualFixRequired(attempt, h)
      else RunFrom(checks, parse, fixStatus, attempt + 1, h)
  }

  /** The whole script, as a function of the runs it makes. */
  function Run(checks: nat -> CheckRun, parse: string -> Option<Report>, fixStatus: int): Outcome
  {
    RunFrom(checks, parse, fixStatus, 1, [])
  }

  /** The script's loop. */
  method Loop(checks: nat -> CheckRun, parse: string -> Option<Report>, fixStatus: int) returns (outcome: Outcome)
    ensures outcome == Run(checks, parse, fixStatus)
  {
    var history: seq<Entry> := [];
    var attempt := 1;
    while attempt <= MaxAttempts
      invariant 1 <= attempt <= MaxAttempts + 1
      invariant RunFrom(checks, parse, fixStatus, attempt, history) == Run(checks, parse, fixStatus)
    {
      var status := GetReport(checks(attempt), parse);
      history := history + [CheckedEntry(attempt, status)];
      if status.ok {
        return Success(attempt, history);
      }
      if attempt == 1 {
        history := history + [Autofix(attempt, fixStatus)];
        attempt := attempt + 1;
        continue;
      }
      if attempt < MaxAttempts {
        return ManualFixRequired(attempt, history);
      }
      attempt := attempt + 1;
    }
    outcome := Blocker(history);
  }

  /** The loop ends after at most two checks: success on the first check;
      after an autofix, success or a request for manual fixes on the second.
      So the third attempt and the blocker report are never reached, and the
      exit code is 0 exactly when one of the two checks passed. */
  lemma LoopOutcome(checks: nat -> CheckRun, parse: string -> Option<Report>, fixStatus: int)
    ensures var o := Run(checks, parse, fixStatus);
            var s1, s2 := GetReport(checks(1), parse), GetReport(checks(2), parse);
            var e1, e2 := CheckedEntry(1, s1), CheckedEntry(2, s2);
            && !o.Blocker?
            && (s1.ok ==> o == Success(1, [e1]))
            && (!s1.ok && s2.ok ==> o == Success(2, [e1, Autofix(1, fixStatus), e2]))
            && (!s1.ok && !s2.ok ==> o == ManualFixRequired(2, [e1, Autofix(1, fixStatus), e2]))
            && (ExitCode(o) == 0 <==> s1.ok || s2.ok)
  {
    var s1 := GetReport(checks(1), parse);
    var e1 := CheckedEntry(1, s1);
    if !s1.ok {
      assert Run(checks, parse, fixStatus) == RunFrom(checks, parse, fixStatus, 2, [e1, Autofix(1, fixStatus)]);
    }
  }

  /** The outcome depends on the first two checks only. */
  lemma ThirdCheckUnused(checks: nat -> CheckRun, other: nat -> CheckRun, parse: string -> Option<Report>, fixStatus: int)
    requires checks(1) == other(1) && checks(2) == other(2)
    ensures Run(checks, parse, fixStatus) == Run(other, parse, fixStatus)
  {
    LoopOutcome(checks, parse, fixStatus);
    LoopOutcome(other, parse, fixStatus);
  }
}
