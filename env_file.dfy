/** The `.env.local` loader and the required-variable lookup shared by the two
    database scripts (`scripts/mcp-benchmark.mjs`, `scripts/mcp-explain.mjs`).
    Whether the file exists and its text are parameters; `process.env` is an
    object whose variables the loader adds to. */
module EnvFile {
  import opened Wrappers
  import opened JsText

  /** The position of the first `=` in `s` at or after `from`, or `|s|`. */
  function EqualsFrom(s: string, from: nat): (r: nat)
    requires from <= |s|
    ensures from <= r <= |s|
    decreases |s| - from
  {
    if from == |s| || s[from] == '=' then from else EqualsFrom(s, from + 1)
  }

  /** The first `=` is found, and nothing before it is one. */
  lemma {:induction false} EqualsFromSpec(s: string, from: nat)
    requires from <= |s|
    ensures EqualsFrom(s, from) < |s| ==> s[EqualsFrom(s, from)] == '='
    ensures forall k :: from <= k < EqualsFrom(s, from) ==> s[k] != '='
    decreases |s| - from
  {
    if from < |s| && s[from] != '=' {
      EqualsFromSpec(s, from + 1);
    }
  }

  /** One line of the file: a variable and its value, or nothing for a blank
      line, a comment (`#` after trimming) or a line without `=`. The key is
      the trimmed text before the first `=`, the value the trimmed rest, which
      may hold more `=`. */
  function ParseLine(line: string): Option<(string, string)>
  {
    ParseTrimmed(Trim(line))
  }

  /** `ParseLine` after the line was trimmed. */
  function ParseTrimmed(t: string): Option<(string, string)>
  {
    if t == "" || t[0] == '#' then None
    else
      var idx := EqualsFrom(t, 0);
      if idx == |t| then None
      else Some((Trim(t[..idx]), Trim(t[idx + 1..])))
  }

  /** A line is skipped exactly when it is blank, a comment, or has no `=`. */
  lemma {:induction false} ParseLineSkips(line: string)
    ensures var t := Trim(line);
            ParseLine(line).None? <==> t == "" || t[0] == '#' || '=' !in t
  {
    var t := Trim(line);
    EqualsFromSpec(t, 0);
    if EqualsFrom(t, 0) == |t| {
      assert forall k :: 0 <= k < |t| ==> t[k] != '=';
    }
  }

  /** `s` holds no `=`. */
  predicate NoEquals(s: string)
  {
    forall k :: 0 <= k < |s| ==> s[k] != '='
  }

  /** A parsed variable: key and value without space around them, and no
      `=` in the key. */
  predicate EntryOk(p: (string, string))
  {
    Trimmed(p.0) && Trimmed(p.1) && NoEquals(p.0)
  }

  /** The key and the value come out trimmed, and the key holds no `=`. */
  lemma {:induction false} ParsedTrimmed(line: string)
    requires ParseLine(line).Some?
    ensures EntryOk(ParseLine(line).value)
  {
    EntryParts(Trim(line));
  }

  /** The two sides of the first `=` of a text, each trimmed. */
  lemma {:induction false} EntryParts(t: string)
    requires ParseTrimmed(t).Some?
    ensures EntryOk(ParseTrimmed(t).value)
  {
    var idx := EqualsFrom(t, 0);
    ParseTrimmedAt(t, idx);
    TrimmedSidesAt(t, idx);
  }

  lemma {:induction false} TrimmedSidesAt(t: string, idx: nat)
    requires idx == EqualsFrom(t, 0) < |t|
    ensures EntryOk((Trim(t[..idx]), Trim(t[idx + 1..])))
  {
    EqualsFromSpec(t, 0);
    TrimmedSides(t[..idx], t[idx + 1..]);
  }

  /** What `ParseTrimmed` reads when the first `=` is at `idx`. */
  lemma ParseTrimmedAt(t: string, idx: nat)
    requires t != "" && t[0] != '#' && idx == EqualsFrom(t, 0) < |t|
    ensures ParseTrimmed(t) == Some((Trim(t[..idx]), Trim(t[idx + 1..])))
  {
  }

  lemma {:induction false} TrimmedSides(before: string, after: string)
    requires NoEquals(before)
    ensures EntryOk((Trim(before), Trim(after)))
  {
    TrimIsTrimmed(before);
    TrimKeepsOut(before, '=');
    TrimIsTrimmed(after);
  }

  /** A line written as `key=value` reads back as that variable, for a key
      that is not empty, starts no comment, holds no `=` and has no space
      around it, and a value without space around it. */
  lemma {:induction false} ParseLineOfEntry(key: string, value: string)
    requires key != "" && key[0] != '#' && NoEquals(key) && Trimmed(key) && Trimmed(value)
    ensures ParseLine(key + "=" + value) == Some((key, value))
  {
    EntryTrimmed(key, value);
    ParseTrimmedEntry(key, value);
  }

  lemma {:induction false} ParseTrimmedEntry(key: string, value: string)
    requires key != "" && key[0] != '#' && NoEquals(key) && Trimmed(key) && Trimmed(value)
    ensures ParseTrimmed(key + "=" + value) == Some((key, value))
  {
    var line := key + "=" + value;
    assert line[0] == key[0];
    EntrySplit(key, value);
    ParseTrimmedAt(line, |key|);
    TrimOfTrimmed(key);
    TrimOfTrimmed(value);
  }

  /** An entry line is already trimmed and starts with its key. */
  lemma {:induction false} EntryTrimmed(key: string, value: string)
    requires key != "" && Trimmed(key) && Trimmed(value)
    ensures Trim(key + "=" + value) == key + "=" + value
  {
    var line := key + "=" + value;
    assert line[0] == key[0];
    if value == "" {
      assert line[|line| - 1] == '=';
    } else {
      assert line[|line| - 1] == value[|value| - 1];
    }
    TrimOfTrimmed(line);
  }

  /** The first `=` of an entry line is the one after the key. */
  lemma {:induction false} EntrySplit(key: string, value: string)
    requires NoEquals(key)
    ensures var line := key + "=" + value;
            && EqualsFrom(line, 0) == |key|
            && line[..|key|] == key && line[|key| + 1..] == value
  {
    var line := key + "=" + value;
    assert line[|key|] == '=';
    assert forall k :: 0 <= k < |key| ==> line[k] == key[k];
    EqualsAfterKey(line, |key|, 0);
    assert line[..|key|] == key;
    assert line[|key| + 1..] == value;
  }

  lemma {:induction false} EqualsAfterKey(s: string, n: nat, from: nat)
    requires from <= n < |s| && s[n] == '='
    requires forall k :: from <= k < n ==> s[k] != '='
    ensures EqualsFrom(s, from) == n
    decreases n - from
  {
    if from < n {
      EqualsAfterKey(s, n, from + 1);
    }
  }

  /** One line's effect on the variables: a parsed variable is set unless it
      is already there. */
  function AddLine(vars: map<string, string>, line: string): map<string, string>
  {
    var p := ParseLine(line);
    if p.Some? && p.value.0 !in vars then vars[p.value.0 := p.value.1] else vars
  }

  /** The lines' effect, in order. */
  function Apply(vars: map<string, string>, lines: seq<string>): map<string, string>
    decreases |lines|
  {
    if lines == [] then vars else Apply(AddLine(vars, lines[0]), lines[1..])
  }

  /** The value of the first line that sets `key`. */
  function FirstValue(lines: seq<string>, key: string): Option<string>
    decreases |lines|
  {
    if lines == [] then None
    else
      var p := ParseLine(lines[0]);
      if p.Some? && p.value.0 == key then Some(p.value.1) else FirstValue(lines[1..], key)
  }

  /** Loading never overwrites a variable that is set, and sets each other
      variable to the value of the first line that names it; nothing else is
      set. */
  lemma {:induction false} ApplySpec(vars: map<string, string>, lines: seq<string>, key: string)
    ensures key in vars ==> key in Apply(vars, lines) && Apply(vars, lines)[key] == vars[key]
    ensures key !in vars ==> (key in Apply(vars, lines) <==> FirstValue(lines, key).Some?)
    ensures key !in vars && FirstValue(lines, key).Some? ==> Apply(vars, lines)[key] == FirstValue(lines, key).value
    decreases |lines|
  {
    if lines != [] {
      var next := AddLine(vars, lines[0]);
      ApplySpec(next, lines[1..], key);
    }
  }

  /** `process.env`. */
  class ProcessEnv {
    var vars: map<string, string>

    constructor (initial: map<string, string>)
      ensures vars == initial
    {
      vars := initial;
    }

    /** `loadEnvLocal`: nothing when the file is missing; otherwise each line
        of its text, split at `\n`, in order. */
    method LoadEnvLocal(fileExists: bool, raw: string)
      modifies this
      ensures !fileExists ==> vars == old(vars)
      ensures fileExists ==> vars == Apply(old(vars), Split(raw, '\n'))
    {
      if !fileExists {
        return;
      }
      var lines := Split(raw, '\n');
      var i := 0;
      while i < |lines|
        invariant 0 <= i <= |lines|
        invariant Apply(vars, lines[i..]) == Apply(old(vars), lines)
      {
        ghost var next := AddLine(vars, lines[i]);
        assert Apply(vars, lines[i..]) == Apply(next, lines[i + 1..]) by {
          assert lines[i..][0] == lines[i] && lines[i..][1..] == lines[i + 1..];
        }
        var p := ParseLine(lines[i]);
        if p.Some? {
          var key, value := p.value.0, p.value.1;
          if key !in vars {
            vars := vars[key := value];
          }
        }
        assert vars == next;
        i := i + 1;
      }
    }

    /** `requireEnv`: the variable's value, or the error naming it when it is
        unset or empty. */
    function RequireEnv(name: string): (r: Result<string, string>)
      reads this
      ensures r.Ok? <==> name in vars && vars[name] != ""
      ensures r.Ok? ==> r.value == vars[name]
      ensures r.Err? ==> r.error == "Missing required env: " + name
    {
      if name in vars && vars[name] != "" then Ok(vars[name]) else Err("Missing required env: " + name)
    }
  }
}
