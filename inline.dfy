/** `parseInline` of the blog's Markdown renderer: a paragraph, heading, quote or
    list item is cut into plain runs and the four inline tokens — a link to an
    http(s) address, `**strong**`, `*emphasis*` and `` `code` `` — found left to
    right by one regular expression. The link check (`safeUrl`, which goes
    through the platform's URL parser) is a parameter `safe`. */
module InlineMarkdown {
  import opened Wrappers
  import opened JsText

  datatype Inline =
    | Plain(text: string)
    | Strong(text: string)
    | Emphasis(text: string)
    | CodeSpan(text: string)
    | Link(text: string, url: string, href: string)

  /** The source text a node was cut from. */
  function SourceOf(node: Inline): string
  {
    match node
    case Plain(t) => t
    case Strong(t) => "**" + t + "**"
    case Emphasis(t) => "*" + t + "*"
    case CodeSpan(t) => "`" + t + "`"
    case Link(caption, url, _) => "[" + caption + "](" + url + ")"
  }

  /** The source text of a run of nodes. */
  function Concat(nodes: seq<Inline>): string
  {
    if nodes == [] then "" else SourceOf(nodes[0]) + Concat(nodes[1..])
  }

  // ---------------------------------------------------------------------------
  // The token pattern, one alternative at a time, tried at position `p`. Each
  // gives the length of the text it matches there, 0 when it does not match.
  // Every character class is a negated one followed by the excluded
  // character, so greedy matching ends at the first occurrence of it.
  // ---------------------------------------------------------------------------

  /** Where `[^c]*` run from `from` stops: the first position at or after
      `from` holding `c`, or the end of `s`. */
  function Scan(s: string, c: char, from: nat): (r: nat)
    requires from <= |s|
    ensures from <= r <= |s| && (r < |s| ==> s[r] == c)
    decreases |s| - from
  {
    if from == |s| || s[from] == c then from else Scan(s, c, from + 1)
  }

  lemma {:induction false} ScanSkips(s: string, c: char, from: nat, k: nat)
    requires from <= |s| && from <= k < Scan(s, c, from)
    ensures s[k] != c
    decreases k - from
  {
    if k > from {
      ScanSkips(s, c, from + 1, k);
    }
  }

  /** Nothing between `from` and where the scan stops holds `c`. */
  lemma ScanClean(s: string, c: char, from: nat, e: nat)
    requires from <= |s| && from <= e <= Scan(s, c, from)
    ensures c !in s[from..e]
  {
    forall k | from <= k < e ensures s[k] != c {
      ScanSkips(s, c, from, k);
    }
  }

  /** Scanning a slice `s[a..b]` is scanning `s` from the same place, stopped
      at `b`. */
  lemma {:induction false} ScanSlice(s: string, c: char, a: nat, b: nat, from: nat)
    requires a + from <= b <= |s|
    ensures var r := Scan(s, c, a + from);
            Scan(s[a..b], c, from) == (if r < b then r else b) - a
    decreases b - a - from
  {
    if a + from < b {
      assert s[a..b][from] == s[a + from];
      if s[a + from] != c {
        ScanSlice(s, c, a, b, from + 1);
      }
    }
  }

  /** `https?:\/\/` at `q`: the length of the scheme written there, 0 when
      there is none. */
  function SchemeAt(s: string, q: nat): (k: nat)
    ensures k == 0 || k == 7 || k == 8
    ensures k > 0 ==> q + k <= |s|
  {
    if q + 7 <= |s| && s[q] == 'h' && s[q + 1] == 't' && s[q + 2] == 't' && s[q + 3] == 'p' then
      if q + 8 <= |s| && s[q + 4] == 's' && s[q + 5] == ':' && s[q + 6] == '/' && s[q + 7] == '/' then 8
      else if s[q + 4] == ':' && s[q + 5] == '/' && s[q + 6] == '/' then 7
      else 0
    else 0
  }

  /** The scheme `SchemeAt` measures is `https://` or `http://`, and there is
      one exactly when either is written at `q`. */
  lemma SchemeSpelled(s: string, q: nat)
    ensures SchemeAt(s, q) == 8 <==> q + 8 <= |s| && s[q..q + 8] == "https://"
    ensures SchemeAt(s, q) == 7 <==> q + 7 <= |s| && s[q..q + 7] == "http://"
  {
    if q + 8 <= |s| {
      assert s[q..q + 8] == [s[q], s[q + 1], s[q + 2], s[q + 3], s[q + 4], s[q + 5], s[q + 6], s[q + 7]];
    }
    if q + 7 <= |s| {
      assert s[q..q + 7] == [s[q], s[q + 1], s[q + 2], s[q + 3], s[q + 4], s[q + 5], s[q + 6]];
    }
  }

  /** `\[[^\]]+\]\((?:https?:\/\/)[^)]+\)` */
  function LinkAt(s: string, p: nat): (n: nat)
    ensures n > 0 ==> p + n <= |s| && s[p] == '['
  {
    if p >= |s| || s[p] != '[' then 0
    else
      var close := Scan(s, ']', p + 1);
      if close == p + 1 || close + 1 >= |s| || s[close + 1] != '(' then 0
      else
        var q := close + 2;
        var k := SchemeAt(s, q);
        if k == 0 then 0
        else
          var paren := Scan(s, ')', q + k);
          if paren == q + k || paren == |s| then 0 else paren + 1 - p
  }

  /** `\*\*[^*]+\*\*` */
  function BoldAt(s: string, p: nat): (n: nat)
    ensures n > 0 ==> p + n <= |s| && n >= 5
  {
    if p + 1 >= |s| || s[p] != '*' || s[p + 1] != '*' then 0
    else
      var j := Scan(s, '*', p + 2);
      if j == p + 2 || j + 1 >= |s| || s[j + 1] != '*' then 0 else j + 2 - p
  }

  /** `\*[^*]+\*` */
  function ItalicAt(s: string, p: nat): (n: nat)
    ensures n > 0 ==> p + n <= |s| && n >= 3
  {
    if p >= |s| || s[p] != '*' then 0
    else
      var j := Scan(s, '*', p + 1);
      if j == p + 1 || j == |s| then 0 else j + 1 - p
  }

  /** `` `[^`]+` `` */
  function CodeAt(s: string, p: nat): (n: nat)
    ensures n > 0 ==> p + n <= |s| && n >= 3
  {
    if p >= |s| || s[p] != '`' then 0
    else
      var j := Scan(s, '`', p + 1);
      if j == p + 1 || j == |s| then 0 else j + 1 - p
  }

  /** The whole pattern at `p`: the first alternative that matches there. */
  function TokenAt(s: string, p: nat): (n: nat)
    ensures n > 0 ==> p + n <= |s| && n >= 3
  {
    var link := LinkAt(s, p);
    if link > 0 then link
    else
      var bold := BoldAt(s, p);
      if bold > 0 then bold
      else
        var italic := ItalicAt(s, p);
        if italic > 0 then italic else CodeAt(s, p)
  }

  /** The match table of the whole text: the length of the match of the
      whole pattern at every position. */
  function Matches(s: string): (m: seq<nat>)
    ensures |m| == |s|
  {
    seq(|s|, p requires 0 <= p < |s| => TokenAt(s, p))
  }

  lemma MatchesAt(s: string, p: nat)
    requires p < |s|
    ensures Matches(s)[p] == TokenAt(s, p)
  {
  }

  /** Positions of a match table that fit the text: each match ends inside it
      and holds at least three characters. */
  predicate Fits(m: seq<nat>)
  {
    forall p :: 0 <= p < |m| && m[p] > 0 ==> p + m[p] <= |m| && m[p] >= 3
  }

  lemma MatchesFit(s: string)
    ensures Fits(Matches(s))
  {
    var m := Matches(s);
    forall p | 0 <= p < |m| && m[p] > 0 ensures p + m[p] <= |m| && m[p] >= 3 {
      MatchesAt(s, p);
    }
  }

  /** `exec` from `lastIndex == from`: the leftmost position at or after
      `from` where the pattern matches. */
  function Exec(m: seq<nat>, from: nat): (r: Option<nat>)
    ensures r.Some? ==> from <= r.value < |m| && m[r.value] > 0
    decreases |m| - from
  {
    if from >= |m| then None
    else if m[from] > 0 then Some(from)
    else Exec(m, from + 1)
  }

  /** The match `exec` finds is the leftmost one: the pattern matches nowhere
      between `from` and it, nor anywhere after `from` when nothing is found. */
  lemma {:induction false} ExecLeftmost(s: string, from: nat, p: nat)
    requires from <= p < (if Exec(Matches(s), from).Some? then Exec(Matches(s), from).value else |s|)
    ensures TokenAt(s, p) == 0
    decreases |s| - from
  {
    if p > from {
      ExecLeftmost(s, from + 1, p);
    } else {
      MatchesAt(s, p);
    }
  }

  /** `token.slice(k, -k)`: what is left once `k` characters are cut from each
      end, empty when the two cuts cross. */
  function Inner(token: string, k: nat): string
  {
    if 2 * k <= |token| then token[k..|token| - k] else ""
  }

  /** `token.match(/^\[([^\]]+)\]\(([^)]+)\)$/)`: the caption and the address
      of a whole-token link. */
  function LinkParts(token: string): (r: Option<(string, string)>)
    ensures r.Some? ==> token == "[" + r.value.0 + "](" + r.value.1 + ")"
    ensures r.Some? ==> r.value.0 != [] && r.value.1 != [] && ']' !in r.value.0 && ')' !in r.value.1
  {
    if |token| < 5 || token[0] != '[' || token[|token| - 1] != ')' then None
    else
      var close := Scan(token, ']', 1);
      if close == 1 || close + 2 >= |token| - 1 || token[close + 1] != '(' then None
      else
        var url := token[close + 2..|token| - 1];
        if ')' in url then None
        else
          var caption := token[1..close];
          ScanClean(token, ']', 1, close);
          assert token == "[" + caption + "](" + url + ")";
          Some((caption, url))
  }

  /** `token.startsWith(d) && token.endsWith(d)` for the delimiter `d` made
      of `k` (one or two) copies of `c`, character by character
      (`DelimitedMeans`). */
  predicate Delimited(token: string, c: char, k: nat)
  {
    |token| >= k && k >= 1 && token[0] == c && token[|token| - 1] == c
    && (k >= 2 ==> token[1] == c && token[|token| - 2] == c)
  }

  /** `Delimited` is the source's pair of `startsWith`/`endsWith` tests. */
  lemma DelimitedMeans(token: string)
    ensures Delimited(token, '*', 2) <==> StartsWith(token, "**") && EndsWith(token, "**")
    ensures Delimited(token, '*', 1) <==> StartsWith(token, "*") && EndsWith(token, "*")
    ensures Delimited(token, '`', 1) <==> StartsWith(token, "`") && EndsWith(token, "`")
  {
    if |token| >= 2 {
      assert token[..2] == [token[0], token[1]];
      assert token[|token| - 2..] == [token[|token| - 2], token[|token| - 1]];
    }
    if |token| >= 1 {
      assert token[..1] == [token[0]];
      assert token[|token| - 1..] == [token[|token| - 1]];
    }
  }

  /** The node pushed for a matched token, tried in the source's order:
      `**…**`, `*…*`, `` `…` ``, then a link whose address `safe` accepts;
      anything else stays as its own text. */
  function NodeOf(token: string, safe: string -> Option<string>): Inline
  {
    if Delimited(token, '*', 2) then Strong(Inner(token, 2))
    else if Delimited(token, '*', 1) then Emphasis(Inner(token, 1))
    else if Delimited(token, '`', 1) then CodeSpan(Inner(token, 1))
    else
      match LinkParts(token)
      case None => Plain(token)
      case Some((caption, url)) =>
        match safe(url)
        case Some(href) => if href != "" then Link(caption, url, href) else Plain(token)
        case None => Plain(token)
  }

  /** What `parseInline` returns once `lastIndex` is `index`, given the match
      table `m` of `s` and the node `nodeOf` makes of a matched token: the text
      before the next match, the match's node, then the rest; the text after
      the last match closes the list. */
  function InlineFrom(s: string, m: seq<nat>, index: nat, nodeOf: string -> Inline): seq<Inline>
    requires |m| == |s| && Fits(m) && index <= |s|
    decreases |s| - index
  {
    match Exec(m, index)
    case None => if index < |s| then [Plain(s[index..])] else []
    case Some(start) =>
      var end := start + m[start];
      (if start > index then [Plain(s[index..start])] else [])
      + [nodeOf(s[start..end])]
      + InlineFrom(s, m, end, nodeOf)
  }

  /** The node made of each matched token, given the link check. */
  function NodeMaker(safe: string -> Option<string>): string -> Inline
  {
    token => NodeOf(token, safe)
  }

  /** `parseInline(s)`. */
  function InlineSpec(s: string, safe: string -> Option<string>): seq<Inline>
  {
    MatchesFit(s);
    InlineFrom(s, Matches(s), 0, NodeMaker(safe))
  }

  // ---------------------------------------------------------------------------
  // Properties
  // ---------------------------------------------------------------------------

  lemma {:induction false} ConcatAppend(a: seq<Inline>, b: seq<Inline>)
    ensures Concat(a + b) == Concat(a) + Concat(b)
    decreases |a|
  {
    if a == [] {
      assert a + b == b;
    } else {
      assert (a + b)[0] == a[0];
      assert (a + b)[1..] == a[1..] + b;
      ConcatAppend(a[1..], b);
    }
  }

  lemma Unwrapped(token: string, k: nat)
    requires 2 * k <= |token|
    ensures token == token[..k] + Inner(token, k) + token[|token| - k..]
  {
  }

  /** A node built from a token of three or more characters gives the token
      back, unless the token is `***`, which is both `**…` and `…**`. */
  lemma TokenSource(token: string, safe: string -> Option<string>)
    requires |token| >= 3 && token != "***"
    ensures SourceOf(NodeOf(token, safe)) == token
  {
    ThreeStars(token);
    if Delimited(token, '*', 2) {
      StrongBack(token);
    } else if Delimited(token, '*', 1) {
      OneBack(token, '*');
    } else if Delimited(token, '`', 1) {
      OneBack(token, '`');
    }
  }

  /** The only three-character token both `**…` and `…**` is `***`. */
  lemma ThreeStars(token: string)
    ensures |token| == 3 && Delimited(token, '*', 2) ==> token == "***"
  {
    if |token| == 3 {
      assert token == [token[0], token[1], token[2]];
    }
  }

  lemma StrongBack(token: string)
    requires Delimited(token, '*', 2) && |token| >= 4
    ensures "**" + Inner(token, 2) + "**" == token
  {
    Unwrapped(token, 2);
    assert token[..2] == "**";
    assert token[|token| - 2..] == "**";
  }

  lemma OneBack(token: string, c: char)
    requires Delimited(token, c, 1) && |token| >= 2
    ensures [c] + Inner(token, 1) + [c] == token
  {
    Unwrapped(token, 1);
    assert token[..1] == [c];
    assert token[|token| - 1..] == [c];
  }

  /** `nodeOf` gives back every token of three or more characters other
      than `***`. */
  ghost predicate GivesBack(nodeOf: string -> Inline)
  {
    forall token :: |token| >= 3 && token != "***" ==> SourceOf(nodeOf(token)) == token
  }

  /** The node the source makes of a token gives the token back. */
  lemma NodeMakerGivesBack(safe: string -> Option<string>)
    ensures GivesBack(NodeMaker(safe))
  {
    forall token | |token| >= 3 && token != "***" ensures SourceOf(NodeMaker(safe)(token)) == token {
      TokenSource(token, safe);
    }
  }

  /** No match of the table `m` of `s` is `***`. */
  predicate NoStars(s: string, m: seq<nat>)
  {
    forall p :: 0 <= p < |m| && m[p] > 0 && p + m[p] <= |s| ==> s[p..p + m[p]] != "***"
  }

  lemma MatchesNoStars(s: string)
    ensures NoStars(s, Matches(s))
  {
    var m := Matches(s);
    forall p | 0 <= p < |m| && m[p] > 0 && p + m[p] <= |s| ensures s[p..p + m[p]] != "***" {
      MatchesAt(s, p);
      TokenNotStars(s, p, m[p]);
    }
  }

  /** A recognised token is never `***`. */
  lemma TokenNotStars(s: string, p: nat, n: nat)
    requires n == TokenAt(s, p) > 0
    ensures s[p..p + n] != "***"
  {
    StarsNoToken(s, p);
    var token := s[p..p + n];
    assert token[0] == s[p] && token[1] == s[p + 1] && token[2] == s[p + 2];
  }

  /** Three stars in a row start no token. */
  lemma StarsNoToken(s: string, p: nat)
    ensures p + 3 <= |s| && s[p] == '*' && s[p + 1] == '*' && s[p + 2] == '*' ==> TokenAt(s, p) == 0
  {
  }

  lemma ConcatStep(before: seq<Inline>, node: Inline, rest: seq<Inline>)
    ensures Concat(before + [node] + rest) == Concat(before) + SourceOf(node) + Concat(rest)
  {
    ConcatAppend(before + [node], rest);
    ConcatAppend(before, [node]);
    ConcatOne(node);
  }

  lemma ConcatOne(node: Inline)
    ensures Concat([node]) == SourceOf(node)
  {
    assert Concat([node]) == SourceOf(node) + Concat([]);
  }

  /** The match at `p` gives its own text back. */
  ghost predicate GivesBackAt(s: string, m: seq<nat>, nodeOf: string -> Inline, p: nat)
  {
    p < |m| && p + m[p] <= |s| ==> SourceOf(nodeOf(s[p..p + m[p]])) == s[p..p + m[p]]
  }

  /** Every match of a table without `***` gives its own text back. */
  lemma MatchesGiveBack(s: string, m: seq<nat>, nodeOf: string -> Inline)
    requires |m| == |s| && Fits(m) && NoStars(s, m) && GivesBack(nodeOf)
    ensures forall p :: 0 <= p < |s| && m[p] > 0 ==> GivesBackAt(s, m, nodeOf, p)
  {
    forall p | 0 <= p < |s| && m[p] > 0 ensures GivesBackAt(s, m, nodeOf, p) {
      var token := s[p..p + m[p]];
      assert |token| >= 3 && token != "***";
    }
  }

  lemma {:induction false} CoversFrom(s: string, m: seq<nat>, index: nat, nodeOf: string -> Inline)
    requires |m| == |s| && Fits(m) && index <= |s|
    requires forall p :: 0 <= p < |s| && m[p] > 0 ==> GivesBackAt(s, m, nodeOf, p)
    ensures Concat(InlineFrom(s, m, index, nodeOf)) == s[index..]
    decreases |s| - index
  {
    match Exec(m, index)
    case None =>
      CoversTail(s, m, index, nodeOf);
    case Some(start) =>
      CoversFrom(s, m, start + m[start], nodeOf);
      CoversStep(s, m, index, nodeOf, start);
  }

  /** One match: the text before it, its token and the rest after it. */
  lemma CoversStep(s: string, m: seq<nat>, index: nat, nodeOf: string -> Inline, start: nat)
    requires |m| == |s| && Fits(m) && index <= |s| && Exec(m, index) == Some(start)
    requires GivesBackAt(s, m, nodeOf, start)
    requires Concat(InlineFrom(s, m, start + m[start], nodeOf)) == s[start + m[start]..]
    ensures Concat(InlineFrom(s, m, index, nodeOf)) == s[index..]
  {
    var end := start + m[start];
    FromStep(s, m, index, nodeOf, start);
    PieceConcat(s, index, start, end, nodeOf(s[start..end]), InlineFrom(s, m, end, nodeOf));
  }

  /** After the last match, the rest of the text is one plain run. */
  lemma CoversTail(s: string, m: seq<nat>, index: nat, nodeOf: string -> Inline)
    requires |m| == |s| && Fits(m) && index <= |s| && Exec(m, index).None?
    ensures Concat(InlineFrom(s, m, index, nodeOf)) == s[index..]
  {
    if index < |s| {
      assert InlineFrom(s, m, index, nodeOf) == [Plain(s[index..])];
      ConcatOne(Plain(s[index..]));
    }
  }

  lemma FromStep(s: string, m: seq<nat>, index: nat, nodeOf: string -> Inline, start: nat)
    requires |m| == |s| && Fits(m) && index <= |s| && Exec(m, index) == Some(start)
    ensures start + m[start] <= |s|
    ensures InlineFrom(s, m, index, nodeOf)
            == (if start > index then [Plain(s[index..start])] else [])
               + [nodeOf(s[start..start + m[start]])]
               + InlineFrom(s, m, start + m[start], nodeOf)
  {
  }

  lemma PieceConcat(s: string, index: nat, start: nat, end: nat, node: Inline, rest: seq<Inline>)
    requires index <= start <= end <= |s|
    requires SourceOf(node) == s[start..end] && Concat(rest) == s[end..]
    ensures Concat((if start > index then [Plain(s[index..start])] else []) + [node] + rest) == s[index..]
  {
    var before: seq<Inline> := if start > index then [Plain(s[index..start])] else [];
    ConcatStep(before, node, rest);
    assert Concat(before) == s[index..start] by {
      if start > index {
        ConcatOne(Plain(s[index..start]));
      }
    }
    ThreeSlices(s, index, start, end);
  }

  lemma ThreeSlices(s: string, a: nat, b: nat, c: nat)
    requires a <= b <= c <= |s|
    ensures s[a..b] + s[b..c] + s[c..] == s[a..]
  {
  }

  /** Nothing of the text is lost, repeated or moved: the nodes' source texts,
      in order, spell the text. */
  lemma InlineCoversText(s: string, safe: string -> Option<string>)
    ensures Concat(InlineSpec(s, safe)) == s
  {
    MatchesFit(s);
    MatchedSources(s, safe);
    CoversFrom(s, Matches(s), 0, NodeMaker(safe));
  }

  /** Every matched token gives its own text back. */
  lemma MatchedSources(s: string, safe: string -> Option<string>)
    ensures var m, nodeOf := Matches(s), NodeMaker(safe);
            forall p :: 0 <= p < |s| && m[p] > 0 ==> GivesBackAt(s, m, nodeOf, p)
  {
    MatchesFit(s);
    MatchesNoStars(s);
    NodeMakerGivesBack(safe);
    MatchesGiveBack(s, Matches(s), NodeMaker(safe));
  }

  /** Where the pieces of a recognised link lie: the caption runs from after
      `[` to the first `]`, `(` follows, then the scheme, and the address
      runs from the scheme to the first `)` after it, which ends the link. */
  lemma LinkBounds(s: string, p: nat)
    requires LinkAt(s, p) > 0
    ensures var close := Scan(s, ']', p + 1);
            var q := close + 2;
            && p + 1 < close && close + 1 < |s| && s[close + 1] == '('
            && SchemeAt(s, q) > 0 && q + SchemeAt(s, q) < p + LinkAt(s, p) - 1
            && Scan(s, ')', q + SchemeAt(s, q)) == p + LinkAt(s, p) - 1
  {
  }

  lemma LinkPartsAt(token: string, c: nat)
    requires 1 < c && c + 2 < |token| - 1 && Scan(token, ']', 1) == c
    requires token[0] == '[' && token[c + 1] == '(' && token[|token| - 1] == ')' && ')' !in token[c + 2..|token| - 1]
    ensures LinkParts(token) == Some((token[1..c], token[c + 2..|token| - 1]))
  {
  }

  lemma SliceOfSlice(s: string, a: nat, b: nat, i: nat, j: nat)
    requires a <= b <= |s| && i <= j <= b - a
    ensures s[a..b][i..j] == s[a + i..a + j]
  {
    var inner, outer := s[a..b][i..j], s[a + i..a + j];
    forall k | 0 <= k < |inner| ensures inner[k] == outer[k] {
      assert inner[k] == s[a..b][i + k];
    }
  }

  lemma AddressClean(s: string, q: nat, e: nat)
    requires q <= |s| && SchemeAt(s, q) > 0 && q + SchemeAt(s, q) <= e <= Scan(s, ')', q + SchemeAt(s, q))
    ensures ')' !in s[q..e]
  {
    var k := SchemeAt(s, q);
    SchemeSpelled(s, q);
    assert ')' !in s[q..q + k];
    ScanClean(s, ')', q + k, e);
    assert s[q..e] == s[q..q + k] + s[q + k..e];
  }

  /** The address of a recognised link, scheme included, holds no `)`. */
  lemma LinkAddressClean(s: string, p: nat)
    requires LinkAt(s, p) > 0
    ensures var close := Scan(s, ']', p + 1);
            close + 2 < p + LinkAt(s, p) - 1 && ')' !in s[close + 2..p + LinkAt(s, p) - 1]
  {
    LinkBounds(s, p);
    AddressClean(s, Scan(s, ']', p + 1) + 2, p + LinkAt(s, p) - 1);
  }

  lemma PartsFromPieces(s: string, p: nat, n: nat, close: nat)
    requires p + n <= |s| && p + 1 < close && close + 2 < p + n - 1
    requires s[p] == '[' && s[close + 1] == '(' && s[p + n - 1] == ')'
    requires Scan(s, ']', p + 1) == close && ')' !in s[close + 2..p + n - 1]
    ensures LinkParts(s[p..p + n]) == Some((s[p + 1..close], s[close + 2..p + n - 1]))
  {
    var token := s[p..p + n];
    ScanSlice(s, ']', p, p + n, 1);
    var c := close - p;
    SliceOfSlice(s, p, p + n, 1, c);
    SliceOfSlice(s, p, p + n, c + 2, n - 1);
    LinkPartsAt(token, c);
  }

  /** The caption and the address `LinkParts` finds in a recognised link are
      the ones the pattern matched. */
  lemma LinkPartsOf(s: string, p: nat)
    requires LinkAt(s, p) > 0
    ensures var close := Scan(s, ']', p + 1);
            && p + 1 < close < p + LinkAt(s, p) - 3
            && LinkParts(s[p..p + LinkAt(s, p)]) == Some((s[p + 1..close], s[close + 2..p + LinkAt(s, p) - 1]))
  {
    LinkBounds(s, p);
    LinkAddressClean(s, p);
    PartsFromPieces(s, p, LinkAt(s, p), Scan(s, ']', p + 1));
  }

  /** A token opening with `[` is none of the three marked runs. */
  lemma BracketToken(token: string, safe: string -> Option<string>)
    requires token != [] && token[0] == '['
    ensures NodeOf(token, safe)
            == match LinkParts(token)
               case None => Plain(token)
               case Some((caption, url)) =>
                 if safe(url).Some? && safe(url).value != "" then Link(caption, url, safe(url).value) else Plain(token)
  {
  }

  /** The address of a recognised link starts with its scheme. */
  lemma LinkScheme(s: string, p: nat)
    requires LinkAt(s, p) > 0
    ensures var close := Scan(s, ']', p + 1);
            var url := s[close + 2..p + LinkAt(s, p) - 1];
            StartsWith(url, "https://") || StartsWith(url, "http://")
  {
    var n := LinkAt(s, p);
    var close := Scan(s, ']', p + 1);
    var q := close + 2;
    LinkBounds(s, p);
    var k := SchemeAt(s, q);
    SchemeSpelled(s, q);
    SliceOfSlice(s, q, p + n - 1, 0, k);
  }

  /** A recognised link is cut into its caption and its http(s) address; it
      becomes a link to what `safe` makes of the address, and stays as its
      own literal text when `safe` refuses it. */
  lemma LinkNode(s: string, p: nat, safe: string -> Option<string>)
    requires LinkAt(s, p) > 0
    ensures var token := s[p..p + LinkAt(s, p)];
            && LinkParts(token).Some?
            && var caption := LinkParts(token).value.0;
               var url := LinkParts(token).value.1;
               && (StartsWith(url, "https://") || StartsWith(url, "http://"))
               && NodeOf(token, safe) == (if safe(url).Some? && safe(url).value != "" then Link(caption, url, safe(url).value) else Plain(token))
  {
    var token := s[p..p + LinkAt(s, p)];
    LinkPartsOf(s, p);
    LinkScheme(s, p);
    BracketToken(token, safe);
  }

  /** A token wrapped in two pairs of stars is a strong run of what they
      wrap. */
  lemma StrongToken(token: string, safe: string -> Option<string>)
    requires |token| >= 5 && token[0] == '*' && token[1] == '*' && token[|token| - 2] == '*' && token[|token| - 1] == '*'
    ensures NodeOf(token, safe) == Strong(token[2..|token| - 2])
  {
  }

  /** A token wrapped in single stars is an emphasis of what they wrap. */
  lemma EmphasisToken(token: string, safe: string -> Option<string>)
    requires |token| >= 3 && token[0] == '*' && token[1] != '*' && token[|token| - 1] == '*'
    ensures NodeOf(token, safe) == Emphasis(token[1..|token| - 1])
  {
  }

  /** A token wrapped in backticks is a code span of what they wrap. */
  lemma CodeToken(token: string, safe: string -> Option<string>)
    requires |token| >= 3 && token[0] == '`' && token[|token| - 1] == '`'
    ensures NodeOf(token, safe) == CodeSpan(token[1..|token| - 1])
  {
  }

  /** The pattern's alternatives are tried in order: `**…**` is taken when
      it matches, `*…*` when `**…**` does not, `` `…` `` when neither star
      run does, and none of them when a link matches. */
  lemma TokenChoice(s: string, p: nat)
    ensures BoldAt(s, p) > 0 ==> TokenAt(s, p) == BoldAt(s, p)
    ensures ItalicAt(s, p) > 0 && BoldAt(s, p) == 0 ==> TokenAt(s, p) == ItalicAt(s, p)
    ensures CodeAt(s, p) > 0 ==> TokenAt(s, p) == CodeAt(s, p)
  {
  }

  /** A strong run keeps the text between its two pairs of stars: one or more
      characters, none of them a star. */
  lemma BoldNode(s: string, p: nat, safe: string -> Option<string>)
    requires BoldAt(s, p) > 0
    ensures var n := BoldAt(s, p);
            var text := s[p + 2..p + n - 2];
            NodeOf(s[p..p + n], safe) == Strong(text) && text != [] && '*' !in text
  {
    var n := BoldAt(s, p);
    BoldTokenNode(s, p, safe);
    ScanClean(s, '*', p + 2, p + n - 2);
  }

  lemma BoldTokenNode(s: string, p: nat, safe: string -> Option<string>)
    requires BoldAt(s, p) > 0
    ensures var n := BoldAt(s, p);
            NodeOf(s[p..p + n], safe) == Strong(s[p + 2..p + n - 2])
  {
    var n := BoldAt(s, p);
    var token := s[p..p + n];
    assert token[0] == '*' && token[1] == '*' && token[n - 2] == '*' && token[n - 1] == '*';
    StrongToken(token, safe);
    SliceOfSlice(s, p, p + n, 2, n - 2);
  }


  /** An emphasis keeps the text between its two stars: one or more
      characters, none of them a star. */
  lemma ItalicNode(s: string, p: nat, safe: string -> Option<string>)
    requires ItalicAt(s, p) > 0
    ensures var n := ItalicAt(s, p);
            var text := s[p + 1..p + n - 1];
            NodeOf(s[p..p + n], safe) == Emphasis(text) && text != [] && '*' !in text
  {
    var n := ItalicAt(s, p);
    ItalicTokenNode(s, p, safe);
    ScanClean(s, '*', p + 1, p + n - 1);
  }

  lemma ItalicTokenNode(s: string, p: nat, safe: string -> Option<string>)
    requires ItalicAt(s, p) > 0
    ensures var n := ItalicAt(s, p);
            NodeOf(s[p..p + n], safe) == Emphasis(s[p + 1..p + n - 1])
  {
    var n := ItalicAt(s, p);
    var token := s[p..p + n];
    assert token[0] == '*' && token[1] == s[p + 1] != '*' && token[n - 1] == '*';
    EmphasisToken(token, safe);
    SliceOfSlice(s, p, p + n, 1, n - 1);
  }


  /** A code span keeps the text between its two backticks: one or more
      characters, none of them a backtick. */
  lemma CodeNode(s: string, p: nat, safe: string -> Option<string>)
    requires CodeAt(s, p) > 0
    ensures var n := CodeAt(s, p);
            var text := s[p + 1..p + n - 1];
            NodeOf(s[p..p + n], safe) == CodeSpan(text) && text != [] && '`' !in text
  {
    var n := CodeAt(s, p);
    CodeTokenNode(s, p, safe);
    ScanClean(s, '`', p + 1, p + n - 1);
  }

  lemma CodeTokenNode(s: string, p: nat, safe: string -> Option<string>)
    requires CodeAt(s, p) > 0
    ensures var n := CodeAt(s, p);
            NodeOf(s[p..p + n], safe) == CodeSpan(s[p + 1..p + n - 1])
  {
    var n := CodeAt(s, p);
    var token := s[p..p + n];
    assert token[0] == '`' && token[n - 1] == '`';
    CodeToken(token, safe);
    SliceOfSlice(s, p, p + n, 1, n - 1);
  }


  // ---------------------------------------------------------------------------
  // `parseInline` as the source runs it
  // ---------------------------------------------------------------------------

  /** One turn of the loop of `parseInline`: what it pushes, followed by
      what is left from the new `lastIndex`, is what was left before. */
  lemma ParseStep(text: string, m: seq<nat>, index: nat, nodeOf: string -> Inline, start: nat, next: nat,
                  nodes: seq<Inline>, pushed: seq<Inline>)
    requires |m| == |text| && Fits(m) && index <= |text| && Exec(m, index) == Some(start)
    requires next == start + m[start] <= |text|
    requires pushed == (if start > index then nodes + [Plain(text[index..start])] else nodes)
                       + [nodeOf(text[start..next])]
    ensures pushed + InlineFrom(text, m, next, nodeOf) == nodes + InlineFrom(text, m, index, nodeOf)
  {
    FromStep(text, m, index, nodeOf, start);
    PushConcat(nodes, pushed, start > index, Plain(text[index..start]), nodeOf(text[start..next]),
               InlineFrom(text, m, next, nodeOf), InlineFrom(text, m, index, nodeOf));
  }

  /** Pushing an optional node and a node onto `nodes` is appending them. */
  lemma PushConcat(nodes: seq<Inline>, pushed: seq<Inline>, skip: bool, skipped: Inline, node: Inline,
                   rest: seq<Inline>, whole: seq<Inline>)
    requires pushed == (if skip then nodes + [skipped] else nodes) + [node]
    requires whole == (if skip then [skipped] else []) + [node] + rest
    ensures pushed + rest == nodes + whole
  {
    if skip {
      assert nodes + [skipped] + [node] + rest == nodes + ([skipped] + [node] + rest);
    } else {
      assert [] + [node] + rest == [node] + rest;
    }
  }

  /** Once nothing more matches, the loop pushes what is left from
      `lastIndex`, if anything. */
  lemma ParseTail(text: string, m: seq<nat>, index: nat, nodeOf: string -> Inline,
                  nodes: seq<Inline>, pushed: seq<Inline>)
    requires |m| == |text| && Fits(m) && index <= |text| && Exec(m, index).None?
    requires pushed == if index < |text| then nodes + [Plain(text[index..])] else nodes
    ensures pushed == nodes + InlineFrom(text, m, index, nodeOf)
  {
  }

  /** The loop of `parseInline`: `exec` the pattern from `lastIndex`, push the
      text skipped before the match and the node `nodeOf` makes of the match,
      move `lastIndex` past the match; once nothing more matches, push what
      is left. */
  method ParseWith(text: string, m: seq<nat>, nodeOf: string -> Inline) returns (nodes: seq<Inline>)
    requires |m| == |text| && Fits(m)
    ensures nodes == InlineFrom(text, m, 0, nodeOf)
  {
    ghost var all := InlineFrom(text, m, 0, nodeOf);
    nodes := [];
    var index := 0;
    var found := Exec(m, index);
    while found.Some?
      invariant index <= |text| && found == Exec(m, index)
      invariant nodes + InlineFrom(text, m, index, nodeOf) == all
      decreases |text| - index
    {
      var start := found.value;
      var token := text[start..start + m[start]];
      ghost var before, last := nodes, index;
      if start > index {
        nodes := nodes + [Plain(text[index..start])];
      }
      nodes := nodes + [nodeOf(token)];
      index := start + |token|;
      ParseStep(text, m, last, nodeOf, start, index, before, nodes);
      found := Exec(m, index);
    }
    ghost var before := nodes;
    if index < |text| {
      nodes := nodes + [Plain(text[index..])];
    }
    ParseTail(text, m, index, nodeOf, before, nodes);
  }

  /** `parseInline(text)`: the loop over the matches of the token pattern,
      with the source's choice of node for each token. */
  method ParseInline(text: string, safe: string -> Option<string>) returns (nodes: seq<Inline>)
    ensures nodes == InlineSpec(text, safe)
    ensures Concat(nodes) == text
  {
    MatchesFit(text);
    nodes := ParseWith(text, Matches(text), NodeMaker(safe));
    InlineCoversText(text, safe);
  }
}
