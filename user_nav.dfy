/** The avatar fallback of the user menu (`src/components/auth/UserNavMenu.tsx`):
    up to two initials taken from the display name. */
module UserNavMenu {
  import opened JsText

  /** A text without white space. */
  predicate NoSpace(s: string)
  {
    forall k :: 0 <= k < |s| ==> !IsSpace(s[k])
  }

  /** `split(/\s+/)`: the pieces between runs of white space. A leading or
      trailing run gives an empty first or last piece. */
  function SplitRuns(s: string): (parts: seq<string>)
    ensures |parts| >= 1
    ensures forall i :: 0 <= i < |parts| ==> NoSpace(parts[i])
    decreases |s|
  {
    if s == [] then [""]
    else if IsSpace(s[0]) then [""] + SplitRuns(TrimStart(s[1..]))
    else
      var rest := SplitRuns(s[1..]);
      [[s[0]] + rest[0]] + rest[1..]
  }

  /** Joining the pieces with single spaces is `replace(/\s+/g, ' ')`. */
  lemma {:induction false} JoinSplitRuns(s: string)
    ensures Join(SplitRuns(s), " ") == CollapseSpaces(s)
    decreases |s|
  {
    if s != [] {
      if IsSpace(s[0]) {
        var t := TrimStart(s[1..]);
        var rest := SplitRuns(t);
        JoinSplitRuns(t);
        assert SplitRuns(s) == [""] + rest;
        JoinCons("", rest);
        assert CollapseSpaces(s) == " " + CollapseSpaces(t);
      } else {
        var rest := SplitRuns(s[1..]);
        JoinSplitRuns(s[1..]);
        JoinHead([s[0]], rest);
        assert CollapseSpaces(s) == [s[0]] + CollapseSpaces(s[1..]);
      }
    }
  }

  lemma JoinCons(p: string, rest: seq<string>)
    requires |rest| >= 1
    ensures Join([p] + rest, " ") == p + " " + Join(rest, " ")
  {
    assert ([p] + rest)[1..] == rest;
  }

  lemma JoinHead(c: string, rest: seq<string>)
    requires |rest| >= 1
    ensures Join([c + rest[0]] + rest[1..], " ") == c + Join(rest, " ")
  {
    var parts := [c + rest[0]] + rest[1..];
    if |rest| > 1 {
      var tail := Join(rest[1..], " ");
      assert parts[1..] == rest[1..];
      assert Join(parts, " ") == (c + rest[0]) + " " + tail;
      assert Join(rest, " ") == rest[0] + " " + tail;
      Assoc4(c, rest[0], " ", tail);
    } else {
      assert Join(parts, " ") == c + rest[0];
      assert Join(rest, " ") == rest[0];
    }
  }

  lemma Assoc4(a: string, b: string, c: string, d: string)
    ensures a + b + c + d == a + (b + c + d)
  {
    var l, r := a + b + c + d, a + (b + c + d);
    assert |l| == |r|;
    forall i | 0 <= i < |l| ensures l[i] == r[i] {
    }
  }

  /** Splitting words joined by single spaces gives the words back. */
  lemma {:induction false} SplitRunsJoin(words: seq<string>)
    requires |words| >= 1
    requires forall i :: 0 <= i < |words| ==> NoSpace(words[i])
    requires forall i :: 1 <= i < |words| ==> words[i] != ""
    ensures SplitRuns(Join(words, " ")) == words
    decreases |words|, |words[0]|
  {
    var p := words[0];
    if p == [] {
      if |words| > 1 {
        var tail := Join(words[1..], " ");
        SplitRunsJoin(words[1..]);
        JoinStartsWith(words[1..]);
        assert Join(words, " ") == " " + tail;
        assert (" " + tail)[1..] == tail;
        assert TrimStart(tail) == tail;
        assert [""] + words[1..] == words;
      }
    } else {
      var tailWords := [p[1..]] + words[1..];
      assert NoSpace(p[1..]) by {
        assert forall k :: 0 <= k < |p[1..]| ==> p[1..][k] == p[k + 1];
      }
      assert forall i :: 1 <= i < |tailWords| ==> tailWords[i] == words[i];
      SplitRunsJoin(tailWords);
      var j := Join(words, " ");
      assert tailWords[1..] == words[1..];
      if |words| == 1 {
        assert j == p;
        assert Join(tailWords, " ") == p[1..];
      } else {
        assert j == p + " " + Join(words[1..], " ");
        assert Join(tailWords, " ") == p[1..] + " " + Join(words[1..], " ");
      }
      assert j[0] == p[0] && j[1..] == Join(tailWords, " ");
      assert [p[0]] + p[1..] == p;
      assert [[p[0]] + p[1..]] + words[1..] == words;
    }
  }

  /** Words joined by spaces start with the first word's first character. */
  lemma JoinStartsWith(words: seq<string>)
    requires |words| >= 1 && words[0] != ""
    ensures Join(words, " ") != [] && Join(words, " ")[0] == words[0][0]
  {
  }

  /** A text that does not end in white space splits into non-empty pieces,
      except for an empty first piece exactly when it starts with white
      space. */
  lemma {:induction false} PiecesNotEmpty(s: string)
    requires s != [] && !IsSpace(s[|s| - 1])
    ensures SplitRuns(s)[0] == "" <==> IsSpace(s[0])
    ensures forall i :: 1 <= i < |SplitRuns(s)| ==> SplitRuns(s)[i] != ""
    decreases |s|
  {
    if IsSpace(s[0]) {
      var t := TrimStart(s[1..]);
      assert |s| >= 2;
      assert s[1..][|s| - 2] == s[|s| - 1];
      assert t != [] && t[|t| - 1] == s[|s| - 1];
      PiecesNotEmpty(t);
      assert SplitRuns(s) == [""] + SplitRuns(t);
    } else if |s| > 1 {
      assert s[1..][|s| - 2] == s[|s| - 1];
      PiecesNotEmpty(s[1..]);
    }
  }

  /** The upper-cased first character of each piece, nothing for an empty one. */
  function Firsts(parts: seq<string>): (r: string)
    ensures |r| <= |parts|
    ensures (forall i :: 0 <= i < |parts| ==> parts[i] != "") ==>
              |r| == |parts| && forall i :: 0 <= i < |parts| ==> r[i] == UpperChar(parts[i][0])
  {
    if parts == [] then ""
    else (if parts[0] == "" then "" else [UpperChar(parts[0][0])]) + Firsts(parts[1..])
  }

  /** The words of a name that is not blank: none of them is empty. */
  lemma WordsOfName(name: string)
    requires !AllSpace(name)
    ensures forall i :: 0 <= i < |SplitRuns(Trim(name))| ==> SplitRuns(Trim(name))[i] != ""
  {
    TrimEmptyIff(name);
    TrimSpec(name);
    PiecesNotEmpty(Trim(name));
  }

  /** The upper-cased first characters of the first two of some non-empty
      words. */
  function InitialsOfWords(words: seq<string>): (r: string)
    requires |words| >= 1
    requires forall i :: 0 <= i < |words| ==> words[i] != ""
    ensures |r| == (if |words| < 2 then 1 else 2)
    ensures r[0] == UpperChar(words[0][0])
    ensures |words| >= 2 ==> r[1] == UpperChar(words[1][0])
  {
    Firsts(words[..if |words| < 2 then |words| else 2])
  }

  /** `getInitials`: `U` for a blank name; otherwise the upper-cased first
      characters of the first two words of the trimmed name. The result has
      one or two characters, one for each of the first two words. */
  function GetInitials(name: string): (r: string)
    ensures 1 <= |r| <= 2
    ensures AllSpace(name) ==> r == "U"
    ensures !AllSpace(name) ==>
              var words := SplitRuns(Trim(name));
              && (forall i :: 0 <= i < |words| ==> words[i] != "")
              && r == InitialsOfWords(words)
  {
    TrimEmptyIff(name);
    if Trim(name) == "" then "U"
    else
      WordsOfName(name);
      InitialsOfWords(SplitRuns(Trim(name)))
  }
}
