/** The JavaScript string operations the application relies on, with JavaScript's own
    meaning: the white-space set of `\s` and `trim`, `split` on one character, `join`,
    `includes`, `startsWith`, `slice(0, n)`, `indexOf`/`lastIndexOf` with their index
    clamping, and the `replace(/\s+/g, ' ')` idiom. Case mapping is ASCII only. */
module JsText {
  import opened Wrappers

  /** White space and line terminators: what `\s` matches and what `trim` removes. */
  predicate IsSpace(c: char)
  {
    c == '\t' || c == '\n' || c == '\U{000B}' || c == '\U{000C}' || c == '\r' || c == ' '
    || c == '\U{00A0}' || c == '\U{1680}' || ('\U{2000}' <= c <= '\U{200A}')
    || c == '\U{2028}' || c == '\U{2029}' || c == '\U{202F}' || c == '\U{205F}'
    || c == '\U{3000}' || c == '\U{FEFF}'
  }

  /** The characters `.` in a regular expression does not match. */
  predicate IsLineTerminator(c: char)
  {
    c == '\n' || c == '\r' || c == '\U{2028}' || c == '\U{2029}'
  }

  predicate NoLineTerminator(s: string)
  {
    forall i :: 0 <= i < |s| ==> !IsLineTerminator(s[i])
  }

  predicate IsDigit(c: char) { '0' <= c <= '9' }
  predicate IsLowerLetter(c: char) { 'a' <= c <= 'z' }
  predicate IsUpperLetter(c: char) { 'A' <= c <= 'Z' }
  predicate IsLetter(c: char) { IsLowerLetter(c) || IsUpperLetter(c) }
  predicate IsAlnum(c: char) { IsLetter(c) || IsDigit(c) }

  /** `\w` of a regular expression without the `u` flag, which also decides `\b`. */
  predicate IsWordChar(c: char) { IsAlnum(c) || c == '_' }

  function LowerChar(c: char): char
  {
    if IsUpperLetter(c) then (c as int + 32) as char else c
  }

  function UpperChar(c: char): char
  {
    if IsLowerLetter(c) then (c as int - 32) as char else c
  }

  /** `toLowerCase`, restricted to ASCII letters. */
  function Lower(s: string): (r: string)
    ensures |r| == |s|
    ensures forall i :: 0 <= i < |s| ==> r[i] == LowerChar(s[i])
  {
    seq(|s|, i requires 0 <= i < |s| => LowerChar(s[i]))
  }

  /** `toUpperCase`, restricted to ASCII letters. */
  function Upper(s: string): (r: string)
    ensures |r| == |s|
    ensures forall i :: 0 <= i < |s| ==> r[i] == UpperChar(s[i])
  {
    seq(|s|, i requires 0 <= i < |s| => UpperChar(s[i]))
  }

  predicate AllSpace(s: string)
  {
    forall i :: 0 <= i < |s| ==> IsSpace(s[i])
  }

  function TrimStart(s: string): (r: string)
    ensures |r| <= |s| && r == s[|s| - |r|..]
    ensures r == [] || !IsSpace(r[0])
    ensures AllSpace(s[..|s| - |r|])
    decreases |s|
  {
    if s != [] && IsSpace(s[0]) then
      var r := TrimStart(s[1..]);
      TrimStartStep(s, r);
      r
    else s
  }

  lemma TrimStartStep(s: string, r: string)
    requires s != [] && IsSpace(s[0])
    requires |r| <= |s| - 1 && r == s[1..][|s| - 1 - |r|..] && AllSpace(s[1..][..|s| - 1 - |r|])
    ensures r == s[|s| - |r|..] && AllSpace(s[..|s| - |r|])
  {
    var n := |s| - |r|;
    assert s[1..][n - 1..] == s[n..];
    forall k | 0 <= k < n ensures IsSpace(s[..n][k]) {
      if k > 0 {
        assert s[..n][k] == s[1..][..n - 1][k - 1];
      }
    }
  }

  function TrimEnd(s: string): (r: string)
    ensures |r| <= |s| && r == s[..|r|]
    ensures r == [] || !IsSpace(r[|r| - 1])
    ensures AllSpace(s[|r|..])
    decreases |s|
  {
    if s != [] && IsSpace(s[|s| - 1]) then
      var r := TrimEnd(s[..|s| - 1]);
      TrimEndStep(s, r);
      r
    else s
  }

  lemma TrimEndStep(s: string, r: string)
    requires s != [] && IsSpace(s[|s| - 1])
    requires |r| <= |s| - 1 && r == s[..|s| - 1][..|r|] && AllSpace(s[..|s| - 1][|r|..])
    ensures r == s[..|r|] && AllSpace(s[|r|..])
  {
    var n := |r|;
    assert s[..|s| - 1][..n] == s[..n];
    forall k | 0 <= k < |s| - n ensures IsSpace(s[n..][k]) {
      if n + k < |s| - 1 {
        assert s[n..][k] == s[..|s| - 1][n..][k];
      }
    }
  }

  /** `String.prototype.trim`. */
  function Trim(s: string): (r: string)
  {
    TrimEnd(TrimStart(s))
  }

  predicate Trimmed(s: string)
  {
    s == [] || (!IsSpace(s[0]) && !IsSpace(s[|s| - 1]))
  }

  /** `trim` removes exactly the white space around the text: the result is a
      contiguous piece of the input, white space on both sides of it, and neither
      end of the result is white space. */
  lemma TrimSpec(s: string)
    ensures Trimmed(Trim(s))
    ensures exists a :: 0 <= a <= |s| - |Trim(s)| && Trim(s) == s[a..a + |Trim(s)|]
                        && AllSpace(s[..a]) && AllSpace(s[a + |Trim(s)|..])
  {
    TrimIsTrimmed(s);
    var a := TrimAt(s);
  }

  /** Where the result of `trim` starts in its input. */
  lemma TrimAt(s: string) returns (a: nat)
    ensures a + |Trim(s)| <= |s| && Trim(s) == s[a..a + |Trim(s)|]
    ensures AllSpace(s[..a]) && AllSpace(s[a + |Trim(s)|..])
  {
    var t := TrimStart(s);
    var r := TrimEnd(t);
    a := |s| - |t|;
    Pieces(s, a, t, r);
    assert Trim(s) == r;
  }

  /** Where the result of `trim` sits in its input, from where each half of
      it cuts. */
  lemma Pieces(s: string, a: nat, t: string, r: string)
    requires a == |s| - |t| && |t| <= |s| && t == s[a..] && AllSpace(s[..a])
    requires |r| <= |t| && r == t[..|r|] && AllSpace(t[|r|..])
    ensures a <= |s| - |r| && r == s[a..a + |r|] && AllSpace(s[a + |r|..])
  {
    SliceOfTail(s, a, |r|);
  }

  lemma SliceOfTail(s: string, a: nat, n: nat)
    requires a + n <= |s|
    ensures s[a..][..n] == s[a..a + n] && s[a..][n..] == s[a + n..]
  {
  }

  /** A string consists of white space only exactly when `trim` empties it. */
  lemma {:induction false} TrimEmptyIff(s: string)
    ensures Trim(s) == [] <==> AllSpace(s)
  {
    var t := TrimStart(s);
    if t == [] {
      assert s == s[..|s| - |t|];
    } else {
      assert !IsSpace(s[|s| - |t|]);
      assert t[0..] == t;
    }
  }

  /** What `trim` leaves has no white space at either end. */
  lemma {:induction false} TrimIsTrimmed(s: string)
    ensures Trimmed(Trim(s))
  {
    var t := TrimStart(s);
    var r := TrimEnd(t);
    if r != [] {
      assert r[0] == t[0];
    }
  }

  /** `trim` adds no character. */
  lemma {:induction false} TrimKeepsOut(s: string, c: char)
    requires forall k :: 0 <= k < |s| ==> s[k] != c
    ensures forall k :: 0 <= k < |Trim(s)| ==> Trim(s)[k] != c
  {
    var t := TrimStart(s);
    var r := TrimEnd(t);
    assert t == s[|s| - |t|..];
    assert r == t[..|r|];
  }

  lemma TrimOfTrimmed(s: string)
    requires Trimmed(s)
    ensures Trim(s) == s
  {
  }

  lemma TrimIdempotent(s: string)
    ensures Trim(Trim(s)) == Trim(s)
  {
    TrimIsTrimmed(s);
    TrimOfTrimmed(Trim(s));
  }

  /** `s.trim()` used as a condition: the string holds some non-space character,
      which is when `trim` leaves something (`NotBlankIff`). */
  predicate NotBlank(s: string)
    decreases |s|
  {
    s != [] && (!IsSpace(s[0]) || NotBlank(s[1..]))
  }

  lemma {:induction false} NotBlankIff(s: string)
    ensures NotBlank(s) <==> !AllSpace(s)
    ensures NotBlank(s) <==> Trim(s) != []
    decreases |s|
  {
    TrimEmptyIff(s);
    if s != [] {
      NotBlankIff(s[1..]);
      assert AllSpace(s) <==> IsSpace(s[0]) && AllSpace(s[1..]) by {
        assert forall i :: 1 <= i < |s| ==> s[i] == s[1..][i - 1];
      }
    }
  }

  predicate StartsWith(s: string, prefix: string)
  {
    |prefix| <= |s| && s[..|prefix|] == prefix
  }

  predicate EndsWith(s: string, suffix: string)
  {
    |suffix| <= |s| && s[|s| - |suffix|..] == suffix
  }

  /** `String.prototype.includes`. */
  predicate Contains(s: string, sub: string)
    decreases |s|
  {
    StartsWith(s, sub) || (s != [] && Contains(s[1..], sub))
  }

  lemma {:induction false} ContainsEmpty(s: string)
    ensures Contains(s, "")
  {
  }

  lemma {:induction false} ContainsAt(s: string, sub: string, i: nat)
    requires i + |sub| <= |s| && s[i..i + |sub|] == sub
    ensures Contains(s, sub)
    decreases i
  {
    if i > 0 {
      assert s[1..][i - 1..i - 1 + |sub|] == s[i..i + |sub|];
      ContainsAt(s[1..], sub, i - 1);
    }
  }

  /** `sub` occurs in `s` starting at position `k`. */
  predicate OccursAt(s: string, sub: string, k: nat)
  {
    k + |sub| <= |s| && s[k..k + |sub|] == sub
  }

  /** `indexOf(sub)`: the first position where `sub` occurs, or `None` for -1. */
  function IndexOf(s: string, sub: string): (r: Option<nat>)
    ensures r.Some? ==> OccursAt(s, sub, r.value)
    ensures r.Some? ==> forall k: nat :: k < r.value ==> !OccursAt(s, sub, k)
    ensures r.None? ==> forall k: nat :: !OccursAt(s, sub, k)
    decreases |s|
  {
    if StartsWith(s, sub) then Some(0)
    else if |s| <= |sub| then None
    else
      var rest := IndexOf(s[1..], sub);
      OccursInTail(s, sub);
      if rest.None? then None else Some(rest.value + 1)
  }

  lemma OccursInTail(s: string, sub: string)
    requires s != []
    ensures forall k: nat :: k >= 1 ==> (OccursAt(s, sub, k) <==> OccursAt(s[1..], sub, k - 1))
    ensures OccursAt(s, sub, 0) <==> StartsWith(s, sub)
  {
    forall k: nat | k >= 1
      ensures OccursAt(s, sub, k) <==> OccursAt(s[1..], sub, k - 1)
    {
      if k + |sub| <= |s| {
        var a, b := s[k..k + |sub|], s[1..][k - 1..k - 1 + |sub|];
        assert |a| == |b|;
        assert forall i :: 0 <= i < |a| ==> a[i] == b[i];
      }
    }
  }

  /** `slice(0, n)`. */
  function Prefix(s: string, n: nat): (r: string)
    ensures |r| <= n && |r| <= |s|
    ensures r == s[..|r|]
    ensures |s| <= n ==> r == s
  {
    if |s| <= n then s else s[..n]
  }

  /** `split(sep)` with a one-character separator: always at least one piece. */
  function Split(s: string, sep: char): (parts: seq<string>)
    ensures |parts| >= 1
    ensures forall i :: 0 <= i < |parts| ==> sep !in parts[i]
    decreases |s|
  {
    if s == [] then [""]
    else
      var rest := Split(s[1..], sep);
      if s[0] == sep then [""] + rest
      else [[s[0]] + rest[0]] + rest[1..]
  }

  /** `join(sep)`. */
  function Join(parts: seq<string>, sep: string): string
    decreases |parts|
  {
    if parts == [] then ""
    else if |parts| == 1 then parts[0]
    else parts[0] + sep + Join(parts[1..], sep)
  }

  /** Joining the pieces of a split with the separator gives the string back. */
  lemma {:induction false} JoinSplit(s: string, sep: char)
    ensures Join(Split(s, sep), [sep]) == s
    decreases |s|
  {
    if s != [] {
      var rest := Split(s[1..], sep);
      JoinSplit(s[1..], sep);
      if s[0] == sep {
        assert Split(s, sep) == [""] + rest;
        assert ([""] + rest)[1..] == rest;
      } else {
        var parts := [[s[0]] + rest[0]] + rest[1..];
        assert parts[1..] == rest[1..];
        if |rest| == 1 {
          assert Join(parts, [sep]) == [s[0]] + rest[0];
        } else {
          assert Join(rest, [sep]) == rest[0] + [sep] + Join(rest[1..], [sep]);
        }
        assert [s[0]] + s[1..] == s;
      }
    }
  }

  /** Splitting what was joined gives back the pieces, when no piece holds the separator. */
  lemma {:induction false} SplitJoin(parts: seq<string>, sep: char)
    requires |parts| >= 1
    requires forall i :: 0 <= i < |parts| ==> sep !in parts[i]
    ensures Split(Join(parts, [sep]), sep) == parts
    decreases |parts|, |parts[0]|
  {
    var p := parts[0];
    if p == [] {
      if |parts| > 1 {
        assert Join(parts, [sep]) == [sep] + Join(parts[1..], [sep]);
        SplitJoin(parts[1..], sep);
        assert ([sep] + Join(parts[1..], [sep]))[1..] == Join(parts[1..], [sep]);
        assert [""] + parts[1..] == parts;
      }
    } else {
      var tailParts := [p[1..]] + parts[1..];
      assert forall i :: 0 <= i < |tailParts| ==> sep !in tailParts[i] by {
        forall i | 0 <= i < |tailParts| ensures sep !in tailParts[i] {
          if i == 0 {
            assert forall k :: 0 <= k < |p[1..]| ==> p[1..][k] == p[k + 1];
          } else {
            assert tailParts[i] == parts[i];
          }
        }
      }
      SplitJoin(tailParts, sep);
      var j := Join(parts, [sep]);
      assert tailParts[1..] == parts[1..];
      if |parts| == 1 {
        assert j == p;
        assert Join(tailParts, [sep]) == p[1..];
      } else {
        assert j == p + [sep] + Join(parts[1..], [sep]);
        assert Join(tailParts, [sep]) == p[1..] + [sep] + Join(parts[1..], [sep]);
      }
      assert j[0] == p[0] && j[1..] == Join(tailParts, [sep]);
      assert p[0] != sep;
      var rest := Split(j[1..], sep);
      assert rest == tailParts;
      assert [p[0]] + p[1..] == p;
      assert [[p[0]] + p[1..]] + parts[1..] == parts;
    }
  }

  /** `replace(/\s+/g, ' ')`: every run of white space becomes one space. */
  function CollapseSpaces(s: string): (r: string)
    ensures |r| <= |s|
    ensures s == [] <==> r == []
    ensures s != [] ==> (IsSpace(s[0]) <==> IsSpace(r[0]))
    ensures s != [] ==> IsSpace(s[|s| - 1]) ==> r[|r| - 1] == ' '
    ensures Collapsed(r)
    decreases |s|
  {
    if s == [] then []
    else if IsSpace(s[0]) then
      var t := TrimStart(s[1..]);
      var rest := CollapseSpaces(t);
      SpaceRun(s, t, rest);
      " " + rest
    else
      var rest := CollapseSpaces(s[1..]);
      KeptChar(s, rest);
      [s[0]] + rest
  }

  /** A run of white space collapsed to one space, then the collapsed rest. */
  lemma SpaceRun(s: string, t: string, rest: string)
    requires s != [] && IsSpace(s[0])
    requires |t| <= |s[1..]| && t == s[1..][|s[1..]| - |t|..] && (t == [] || !IsSpace(t[0]))
    requires |rest| <= |t| && (t == [] <==> rest == []) && Collapsed(rest)
    requires t != [] ==> (IsSpace(t[0]) <==> IsSpace(rest[0]))
    requires t != [] ==> IsSpace(t[|t| - 1]) ==> rest[|rest| - 1] == ' '
    ensures var r := " " + rest;
            && |r| <= |s| && IsSpace(r[0])
            && (IsSpace(s[|s| - 1]) ==> r[|r| - 1] == ' ')
            && Collapsed(r)
  {
    if t != [] {
      assert t[|t| - 1] == s[|s| - 1];
    }
  }

  /** A character that is not white space, then the collapsed rest. */
  lemma KeptChar(s: string, rest: string)
    requires s != [] && !IsSpace(s[0])
    requires |rest| <= |s| - 1 && (s[1..] == [] <==> rest == []) && Collapsed(rest)
    requires s[1..] != [] ==> IsSpace(s[1..][|s[1..]| - 1]) ==> rest[|rest| - 1] == ' '
    ensures var r := [s[0]] + rest;
            && |r| <= |s| && !IsSpace(r[0])
            && (IsSpace(s[|s| - 1]) ==> r[|r| - 1] == ' ')
            && Collapsed(r)
  {
  }

  /** No white space but single plain spaces, never two in a row. */
  predicate Collapsed(r: string)
  {
    forall i :: 0 <= i < |r| && IsSpace(r[i]) ==> r[i] == ' ' && (i + 1 < |r| ==> !IsSpace(r[i + 1]))
  }

  lemma CollapsedPrefix(r: string, n: nat)
    requires Collapsed(r) && n <= |r|
    ensures Collapsed(r[..n])
  {
  }

  /** Collapsing text that is already collapsed changes nothing. */
  lemma {:induction false} CollapseOfCollapsed(s: string)
    requires Collapsed(s)
    ensures CollapseSpaces(s) == s
    decreases |s|
  {
    if s != [] {
      assert Collapsed(s[1..]) by {
        assert forall i :: 0 <= i < |s[1..]| ==> s[1..][i] == s[i + 1];
      }
      if IsSpace(s[0]) {
        assert s[1..] == [] || !IsSpace(s[1..][0]);
        assert TrimStart(s[1..]) == s[1..];
      }
      CollapseOfCollapsed(s[1..]);
      assert [s[0]] + s[1..] == s;
    }
  }

  lemma CollapsedTrim(r: string)
    requires Collapsed(r)
    ensures Collapsed(Trim(r))
  {
    var a := TrimAt(r);
    CollapsedSlice(r, a, a + |Trim(r)|, Trim(r));
  }

  lemma CollapsedSlice(r: string, from: nat, to: nat, piece: string)
    requires Collapsed(r) && from <= to <= |r| && piece == r[from..to]
    ensures Collapsed(piece)
  {
    assert forall i :: 0 <= i < to - from ==> piece[i] == r[from + i];
  }

  /** `indexOf(c, from)` for one character: -1, or the first position at or after
      `from` (clamped to the string) holding `c`. */
  function IndexOfChar(s: string, c: char, from: int): (r: int)
    ensures r == -1 || (0 <= from <= r < |s| || (from < 0 && 0 <= r < |s|))
    ensures r >= 0 ==> s[r] == c
    ensures r == -1 ==> forall k :: 0 <= k < |s| && k >= from ==> s[k] != c
    ensures r >= 0 ==> forall k :: 0 <= k < r && k >= from ==> s[k] != c
    decreases |s| - (if from < 0 then 0 else from)
  {
    var start := if from < 0 then 0 else from;
    if start >= |s| then -1
    else if s[start] == c then start
    else IndexOfChar(s, c, start + 1)
  }

  /** Searching a slice `s[a..b]` is searching `s` from the same place and
      keeping only what is found before `b`. */
  lemma {:induction false} IndexOfCharSlice(s: string, c: char, a: nat, b: nat, from: nat)
    requires a <= b <= |s|
    ensures var r := IndexOfChar(s, c, a + from);
            IndexOfChar(s[a..b], c, from) == (if r == -1 || r >= b then -1 else r - a)
    decreases b - a - from
  {
    if a + from < b {
      assert s[a..b][from] == s[a + from];
      if s[a + from] != c {
        IndexOfCharSlice(s, c, a, b, from + 1);
      }
    }
  }

  /** `lastIndexOf(c, from)` for one character: the last position at or before
      `from`, clamped into `0 .. |s|`, holding `c`, else -1. A negative `from`
      still examines position 0. */
  function LastIndexOfChar(s: string, c: char, from: int): (r: int)
    ensures -1 <= r < |s|
    ensures r >= 0 ==> s[r] == c && r <= (if from < 0 then 0 else from)
    ensures forall k :: r < k < |s| && k <= from ==> s[k] != c
    ensures r == -1 ==> forall k :: 0 <= k < |s| && k <= (if from < 0 then 0 else from) ==> s[k] != c
    decreases if from < 0 then 0 else from
  {
    var start := if from >= |s| then |s| - 1 else if from < 0 then 0 else from;
    if start < 0 || start >= |s| then -1
    else if s[start] == c then start
    else if start == 0 then -1
    else LastIndexOfChar(s, c, start - 1)
  }

  /** Decimal digits of a natural number, as `String(n)` writes them. */
  function NatToString(n: nat): (r: string)
    ensures |r| >= 1
    ensures forall i :: 0 <= i < |r| ==> IsDigit(r[i])
    decreases n
  {
    if n < 10 then [DigitChar(n)] else NatToString(n / 10) + [DigitChar(n % 10)]
  }

  function DigitChar(d: nat): (c: char)
    requires d < 10
    ensures IsDigit(c)
  {
    ('0' as int + d) as char
  }

  function IntToString(n: int): (r: string)
  {
    if n < 0 then "-" + NatToString(-n) else NatToString(n)
  }
}
