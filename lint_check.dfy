/** The lint summary script (`scripts/ai-lint/check.mjs`): ESLint's JSON report
    read with a fallback, summarised into counts per severity, per fixability
    and per rule and a list of the files with messages, and the exit code. The
    ESLint run is a parameter: its exit status and its standard output, and
    the JSON parser as an oracle from text to a list of file reports. */
module AiLintCheck {
  import opened Wrappers

  const UnknownRule: string := "unknown"

  /** One ESLint message: its rule (absent or empty for parse errors), its
      severity, and whether it carries a fix. */
  datatype LintMessage = LintMessage(ruleId: Option<string>, severity: int, fixable: bool)

  /** One file of the report; `messages` may be missing. */
  datatype LintFile = LintFile(filePath: string, messages: Option<seq<LintMessage>>)

  datatype Summary = Summary(filesScanned: nat, errors: nat, warnings: nat, issueCount: nat,
                             fixableCount: nat, nonFixableCount: nat)

  /** A row of `files`: a path and its number of messages. */
  datatype FileIssues = FileIssues(filePath: string, issueCount: nat)

  // ---------------------------------------------------------------------------
  // Reading the report

  /** `file.messages || []`. */
  function MessagesOf(f: LintFile): seq<LintMessage>
  {
    if f.messages.Some? then f.messages.value else []
  }

  /** `msg.ruleId || 'unknown'`. */
  function RuleOf(m: LintMessage): (r: string)
    ensures r != ""
    ensures m.ruleId.Some? && m.ruleId.value != "" ==> r == m.ruleId.value
  {
    if m.ruleId.Some? && m.ruleId.value != "" then m.ruleId.value else UnknownRule
  }

  /** `runEslintJson`'s reading of the output: missing or empty output reads as
      `[]`, and output that does not parse as no files. */
  function ParsedFiles(stdout: Option<string>, parse: string -> Option<seq<LintFile>>): (r: seq<LintFile>)
    ensures parse("[]") == Some([]) && (stdout.None? || stdout == Some("")) ==> r == []
    ensures stdout.Some? && stdout.value != "" && parse(stdout.value).None? ==> r == []
    ensures stdout.Some? && stdout.value != "" && parse(stdout.value).Some? ==> r == parse(stdout.value).value
  {
    var text := if stdout.Some? && stdout.value != "" then stdout.value else "[]";
    var parsed := parse(text);
    if parsed.Some? then parsed.value else []
  }

  /** `result.status ?? 1`: a process killed by a signal has no status. */
  function StatusOf(status: Option<int>): int
  {
    if status.Some? then status.value else 1
  }

  // ---------------------------------------------------------------------------
  // Counting, as functions of the messages seen so far

  /** All messages of the files, file by file, in order. */
  function AllMessages(files: seq<LintFile>): seq<LintMessage>
  {
    if files == [] then [] else AllMessages(files[..|files| - 1]) + MessagesOf(files[|files| - 1])
  }

  function Errors(ms: seq<LintMessage>): (r: nat)
    ensures r <= |ms|
  {
    if ms == [] then 0 else Errors(ms[..|ms| - 1]) + (if ms[|ms| - 1].severity == 2 then 1 else 0)
  }

  function Warnings(ms: seq<LintMessage>): (r: nat)
    ensures r <= |ms|
  {
    if ms == [] then 0 else Warnings(ms[..|ms| - 1]) + (if ms[|ms| - 1].severity == 1 then 1 else 0)
  }

  function Fixable(ms: seq<LintMessage>): (r: nat)
    ensures r <= |ms|
  {
    if ms == [] then 0 else Fixable(ms[..|ms| - 1]) + (if ms[|ms| - 1].fixable then 1 else 0)
  }

  function NonFixable(ms: seq<LintMessage>): (r: nat)
    ensures r <= |ms|
  {
    if ms == [] then 0 else NonFixable(ms[..|ms| - 1]) + (if ms[|ms| - 1].fixable then 0 else 1)
  }

  /** Every message is counted as fixable or as not fixable, and severities
      2 and 1 are counted apart. */
  lemma {:induction false} CountsPartition(ms: seq<LintMessage>)
    ensures Fixable(ms) + NonFixable(ms) == |ms|
    ensures Errors(ms) + Warnings(ms) <= |ms|
    decreases |ms|
  {
    if ms != [] {
      CountsPartition(ms[..|ms| - 1]);
    }
  }

  /** A count is zero exactly when no message is of its kind. */
  lemma {:induction false} ZeroCounts(ms: seq<LintMessage>)
    ensures Errors(ms) == 0 <==> forall i :: 0 <= i < |ms| ==> ms[i].severity != 2
    ensures Warnings(ms) == 0 <==> forall i :: 0 <= i < |ms| ==> ms[i].severity != 1
    ensures Fixable(ms) == 0 <==> forall i :: 0 <= i < |ms| ==> !ms[i].fixable
    decreases |ms|
  {
    if ms != [] {
      var init := ms[..|ms| - 1];
      ZeroCounts(init);
      assert forall i :: 0 <= i < |init| ==> init[i] == ms[i];
    }
  }

  // ---------------------------------------------------------------------------
  // Counts per rule

  /** An object from rule names to counts, in insertion order. */
  type RuleCounts = seq<(string, nat)>

  predicate DistinctKeys(t: RuleCounts)
  {
    forall i, j :: 0 <= i < j < |t| ==> t[i].0 != t[j].0
  }

  /** The count of a rule, 0 when absent (`byRule[ruleId] || 0`). */
  function CountOf(t: RuleCounts, rule: string): nat
  {
    if t == [] then 0 else (if t[0].0 == rule then t[0].1 else 0) + CountOf(t[1..], rule)
  }

  function Sum(t: RuleCounts): nat
  {
    if t == [] then 0 else t[0].1 + Sum(t[1..])
  }

  /** `byRule[ruleId] = (byRule[ruleId] || 0) + 1`: an existing rule's count
      goes up in its place; a new rule is added last with count 1. */
  function Bump(t: RuleCounts, rule: string): RuleCounts
  {
    if t == [] then [(rule, 1)]
    else if t[0].0 == rule then [(rule, t[0].1 + 1)] + t[1..]
    else [t[0]] + Bump(t[1..], rule)
  }

  /** Bumping adds one to the total, keeps every key in its place, and appends
      a rule that was not there yet. */
  lemma {:induction false} BumpShape(t: RuleCounts, rule: string)
    ensures (forall i :: 0 <= i < |t| ==> t[i].0 != rule) ==> Bump(t, rule) == t + [(rule, 1)]
    ensures (exists i :: 0 <= i < |t| && t[i].0 == rule) ==>
              |Bump(t, rule)| == |t| && forall i :: 0 <= i < |t| ==> Bump(t, rule)[i].0 == t[i].0
    ensures Sum(Bump(t, rule)) == Sum(t) + 1
    decreases |t|
  {
    if t != [] {
      var tail := t[1..];
      assert forall i :: 1 <= i < |t| ==> t[i] == tail[i - 1];
      BumpShape(tail, rule);
      if t[0].0 == rule {
        assert Bump(t, rule)[1..] == tail;
      } else {
        var r := Bump(t, rule);
        assert r[1..] == Bump(tail, rule);
        if forall i :: 0 <= i < |t| ==> t[i].0 != rule {
          assert t == [t[0]] + tail;
        }
      }
    }
  }

  /** Bumping keeps the keys distinct and adds one to the bumped rule only. */
  lemma {:induction false} BumpCount(t: RuleCounts, rule: string, k: string)
    requires DistinctKeys(t)
    ensures DistinctKeys(Bump(t, rule))
    ensures CountOf(Bump(t, rule), k) == CountOf(t, k) + (if k == rule then 1 else 0)
    decreases |t|
  {
    if t != [] {
      var tail := t[1..];
      assert DistinctKeys(tail) by {
        forall i, j | 0 <= i < j < |tail| ensures tail[i].0 != tail[j].0 {
          assert tail[i] == t[i + 1] && tail[j] == t[j + 1];
        }
      }
      if t[0].0 == rule {
        var r := Bump(t, rule);
        assert r[1..] == tail;
        assert CountOf(tail, rule) == 0 by {
          forall i | 0 <= i < |tail| ensures tail[i].0 != rule {
            assert tail[i] == t[i + 1];
          }
          AbsentCount(tail, rule);
        }
        assert DistinctKeys(r) by {
          forall i, j | 0 <= i < j < |r| ensures r[i].0 != r[j].0 {
            assert r[j] == t[j];
            if i > 0 {
              assert r[i] == t[i];
            }
          }
        }
      } else {
        BumpCount(tail, rule, k);
        var r := Bump(t, rule);
        var bt := Bump(tail, rule);
        assert r == [t[0]] + bt;
        assert r[1..] == bt;
        assert DistinctKeys(r) by {
          forall i, j | 0 <= i < j < |r| ensures r[i].0 != r[j].0 {
            if i == 0 {
              KeyOfBump(tail, rule, j - 1);
              if bt[j - 1].0 != rule {
                var m :| 0 <= m < |tail| && tail[m].0 == bt[j - 1].0;
                assert tail[m] == t[m + 1];
              }
            } else {
              assert r[i] == bt[i - 1] && r[j] == bt[j - 1];
            }
          }
        }
      }
    }
  }

  /** A rule that is not a key counts 0. */
  lemma {:induction false} AbsentCount(t: RuleCounts, rule: string)
    requires forall i :: 0 <= i < |t| ==> t[i].0 != rule
    ensures CountOf(t, rule) == 0
    decreases |t|
  {
    if t != [] {
      assert forall i :: 0 <= i < |t[1..]| ==> t[1..][i] == t[i + 1];
      AbsentCount(t[1..], rule);
    }
  }

  /** Every key after bumping is the bumped rule or an earlier key. */
  lemma {:induction false} KeyOfBump(t: RuleCounts, rule: string, j: nat)
    requires j < |Bump(t, rule)|
    ensures Bump(t, rule)[j].0 == rule || exists m :: 0 <= m < |t| && t[m].0 == Bump(t, rule)[j].0
    decreases |t|
  {
    if t != [] && t[0].0 != rule && j > 0 {
      KeyOfBump(t[1..], rule, j - 1);
      var r := Bump(t[1..], rule);
      if r[j - 1].0 != rule {
        var m :| 0 <= m < |t[1..]| && t[1..][m].0 == r[j - 1].0;
        assert t[m + 1] == t[1..][m];
      }
    }
  }

  /** The number of messages counted under a rule. */
  function RuleCount(ms: seq<LintMessage>, rule: string): (r: nat)
    ensures r <= |ms|
  {
    if ms == [] then 0 else RuleCount(ms[..|ms| - 1], rule) + (if RuleOf(ms[|ms| - 1]) == rule then 1 else 0)
  }

  /** `byRule` after the messages `ms`, in order. */
  function Tally(ms: seq<LintMessage>): RuleCounts
  {
    if ms == [] then [] else Bump(Tally(ms[..|ms| - 1]), RuleOf(ms[|ms| - 1]))
  }

  /** The per-rule counts name each rule once, give each rule the number of its
      messages, and add up to the number of messages. */
  lemma {:induction false} TallySpec(ms: seq<LintMessage>, rule: string)
    ensures DistinctKeys(Tally(ms))
    ensures CountOf(Tally(ms), rule) == RuleCount(ms, rule)
    ensures Sum(Tally(ms)) == |ms|
    decreases |ms|
  {
    if ms != [] {
      var init := ms[..|ms| - 1];
      TallySpec(init, rule);
      BumpShape(Tally(init), RuleOf(ms[|ms| - 1]));
      BumpCount(Tally(init), RuleOf(ms[|ms| - 1]), rule);
    }
  }

  // ---------------------------------------------------------------------------
  // The summary

  /** `files.filter(f => messages non-empty).map(...)`, over the files in order. */
  function Listed(files: seq<LintFile>): (r: seq<FileIssues>)
    ensures |r| <= |files|
    ensures forall i :: 0 <= i < |r| ==> r[i].issueCount > 0
  {
    if files == [] then []
    else
      var f := files[|files| - 1];
      Listed(files[..|files| - 1])
        + (if |MessagesOf(f)| > 0 then [FileIssues(f.filePath, |MessagesOf(f)|)] else [])
  }

  function IssueTotal(rows: seq<FileIssues>): nat
  {
    if rows == [] then 0 else IssueTotal(rows[..|rows| - 1]) + rows[|rows| - 1].issueCount
  }

  lemma {:induction false} IssueTotalAppend(a: seq<FileIssues>, b: seq<FileIssues>)
    ensures IssueTotal(a + b) == IssueTotal(a) + IssueTotal(b)
    decreases |b|
  {
    if b == [] {
      assert a + b == a;
    } else {
      assert (a + b)[..|a + b| - 1] == a + b[..|b| - 1];
      IssueTotalAppend(a, b[..|b| - 1]);
    }
  }

  /** The listed files carry every message: their counts add up to the number
      of messages in the report, and a file is missing only when it has none. */
  lemma {:induction false} ListedCoversMessages(files: seq<LintFile>)
    ensures IssueTotal(Listed(files)) == |AllMessages(files)|
    decreases |files|
  {
    if files != [] {
      var init := files[..|files| - 1];
      var f := files[|files| - 1];
      ListedCoversMessages(init);
      var row := if |MessagesOf(f)| > 0 then [FileIssues(f.filePath, |MessagesOf(f)|)] else [];
      IssueTotalAppend(Listed(init), row);
      if row != [] {
        assert IssueTotal(row) == IssueTotal([]) + row[0].issueCount;
      }
    }
  }

  /** The summary the counts make. */
  function SummaryOf(files: seq<LintFile>): (r: Summary)
    ensures r.issueCount == r.errors + r.warnings
    ensures r.fixableCount + r.nonFixableCount == |AllMessages(files)|
    ensures r.filesScanned == |files|
  {
    var all := AllMessages(files);
    CountsPartition(all);
    Summary(|files|, Errors(all), Warnings(all), Errors(all) + Warnings(all), Fixable(all), NonFixable(all))
  }

  /** The running counts of `summarize`. */
  datatype Counts = Counts(errors: nat, warnings: nat, fixable: nat, nonFixable: nat, byRule: RuleCounts)

  /** The counts after the messages `ms`. */
  function CountsOf(ms: seq<LintMessage>): Counts
  {
    Counts(Errors(ms), Warnings(ms), Fixable(ms), NonFixable(ms), Tally(ms))
  }

  /** The loop body of `summarize` for one message: its rule counted, and the
      message counted as an error (severity 2) or a warning (severity 1), and
      as fixable or not. */
  function Step(c: Counts, m: LintMessage): Counts
  {
    Counts(c.errors + (if m.severity == 2 then 1 else 0),
           c.warnings + (if m.severity == 1 then 1 else 0),
           c.fixable + (if m.fixable then 1 else 0),
           c.nonFixable + (if m.fixable then 0 else 1),
           Bump(c.byRule, RuleOf(m)))
  }

  /** Counting one more message is one step. */
  lemma CountsSnoc(ms: seq<LintMessage>, m: LintMessage)
    ensures CountsOf(ms + [m]) == Step(CountsOf(ms), m)
  {
    assert (ms + [m])[..|ms|] == ms;
  }

  /** The counts of one file's messages added to the counts so far. */
  method CountFile(seen: seq<LintMessage>, ms: seq<LintMessage>, c0: Counts) returns (c: Counts)
    requires c0 == CountsOf(seen)
    ensures c == CountsOf(seen + ms)
  {
    c := c0;
    assert seen + ms[..0] == seen;
    var j := 0;
    while j < |ms|
      invariant 0 <= j <= |ms|
      invariant c == CountsOf(seen + ms[..j])
    {
      var msg := ms[j];
      ghost var prefix := seen + ms[..j];
      assert seen + ms[..j + 1] == prefix + [msg];
      CountsSnoc(prefix, msg);
      c := Step(c, msg);
      j := j + 1;
    }
    assert ms[..j] == ms;
  }

  /** `summarize`: one pass over the files and their messages. */
  method Summarize(files: seq<LintFile>) returns (summary: Summary, byRule: RuleCounts, listed: seq<FileIssues>)
    ensures summary == SummaryOf(files)
    ensures byRule == Tally(AllMessages(files))
    ensures listed == Listed(files)
  {
    var c := Counts(0, 0, 0, 0, []);
    listed := [];
    var i := 0;
    while i < |files|
      invariant 0 <= i <= |files|
      invariant c == CountsOf(AllMessages(files[..i]))
      invariant listed == Listed(files[..i])
    {
      var ms := MessagesOf(files[i]);
      assert files[..i + 1][..i] == files[..i];
      c := CountFile(AllMessages(files[..i]), ms, c);
      if |ms| > 0 {
        listed := listed + [FileIssues(files[i].filePath, |ms|)];
      }
      i := i + 1;
    }
    assert files[..i] == files;
    summary := Summary(|files|, c.errors, c.warnings, c.errors + c.warnings, c.fixable, c.nonFixable);
    byRule := c.byRule;
  }

  // ---------------------------------------------------------------------------
  // The script's result

  /** The printed payload: the summary, the per-rule counts, the files with
      messages, and ESLint's status. */
  datatype Payload = Payload(summary: Summary, byRule: RuleCounts, files: seq<FileIssues>, exitCode: int)

  /** The process exit code: 0 exactly when ESLint exited 0 and found no errors
      or warnings, 1 otherwise. */
  function ExitCode(status: Option<int>, summary: Summary): (r: int)
    ensures r == 0 || r == 1
    ensures r == 0 <==> status == Some(0) && summary.issueCount == 0
  {
    if StatusOf(status) == 0 && summary.issueCount == 0 then 0 else 1
  }

  /** The whole script: read the output, summarise, print, exit. */
  method Check(status: Option<int>, stdout: Option<string>, parse: string -> Option<seq<LintFile>>)
    returns (payload: Payload, exitCode: int)
    ensures var files := ParsedFiles(stdout, parse);
            && payload == Payload(SummaryOf(files), Tally(AllMessages(files)), Listed(files), StatusOf(status))
            && exitCode == ExitCode(status, SummaryOf(files))
  {
    var files := ParsedFiles(stdout, parse);
    var summary, byRule, listed := Summarize(files);
    payload := Payload(summary, byRule, listed, StatusOf(status));
    exitCode := ExitCode(status, summary);
  }

  /** A clean run: with no output and a parser that reads `[]`, a zero status
      exits 0 and a non-zero or missing status exits 1. */
  lemma EmptyReportExit(status: Option<int>, parse: string -> Option<seq<LintFile>>)
    requires parse("[]") == Some([])
    ensures var s := SummaryOf(ParsedFiles(None, parse));
            && s.issueCount == 0 && s.filesScanned == 0
            && (ExitCode(status, s) == 0 <==> status == Some(0))
  {
    assert AllMessages([]) == [];
  }
}
