/** Text helpers shared by the public post listing and the MCP post tools: the
    search-term sanitiser, the Hangul test, and the plain-text excerpt of a Markdown
    body. Each regular-expression replacement is written out as the scan the
    global `replace` performs: try a match at the current position, replace it and
    continue after it, otherwise keep one character and move on. */
module PostText {
  import opened Wrappers
  import opened JsText

  /** The characters a search term may not keep: they would break a PostgREST
      `or(...)` filter or act as `ilike` wildcards. */
  const SearchSpecials := ",()%_"

  /** The Markdown punctuation the excerpt turns into spaces. */
  const MarkupChars := "*_`~>-"

  predicate Avoids(s: string, chars: string)
  {
    forall i :: 0 <= i < |s| ==> s[i] !in chars
  }

  /** `replace(/[...]/g, ' ')` for a character class. */
  function BlankOut(s: string, chars: string): (r: string)
    ensures |r| == |s| && (' ' !in chars ==> Avoids(r, chars))
    ensures forall i :: 0 <= i < |s| ==> r[i] == (if s[i] in chars then ' ' else s[i])
  {
    seq(|s|, i requires 0 <= i < |s| => if s[i] in chars then ' ' else s[i])
  }

  /** `sanitizeSearch` / `sanitizeOrSearchTerm`. */
  function SanitizeSearch(value: string): string
  {
    Trim(CollapseSpaces(BlankOut(BlankOut(value, ",()"), "%_")))
  }

  lemma BlankOutKeeps(s: string, chars: string, avoided: string)
    requires Avoids(s, avoided)
    requires ' ' !in avoided
    ensures Avoids(BlankOut(s, chars), avoided)
  {
  }

  lemma BlankOutOfAvoiding(s: string, chars: string)
    requires Avoids(s, chars)
    ensures BlankOut(s, chars) == s
  {
  }

  lemma {:induction false} CollapseKeeps(s: string, avoided: string)
    requires Avoids(s, avoided)
    requires ' ' !in avoided
    ensures Avoids(CollapseSpaces(s), avoided)
    decreases |s|
  {
    if s != [] {
      if IsSpace(s[0]) {
        var t := TrimStart(s[1..]);
        assert forall i :: 0 <= i < |t| ==> t[i] == s[|s| - |t| + i];
        CollapseKeeps(t, avoided);
      } else {
        CollapseKeeps(s[1..], avoided);
      }
    }
  }

  lemma TrimKeeps(s: string, avoided: string)
    requires Avoids(s, avoided)
    ensures Avoids(Trim(s), avoided)
  {
    var a := TrimAt(s);
    SliceAvoids(s, a, a + |Trim(s)|, avoided, Trim(s));
  }

  lemma SliceAvoids(s: string, from: nat, to: nat, avoided: string, piece: string)
    requires from <= to <= |s| && Avoids(s, avoided) && piece == s[from..to]
    ensures Avoids(piece, avoided)
  {
    assert forall i :: 0 <= i < to - from ==> piece[i] == s[from + i];
  }

  /** A sanitised search term holds none of `, ( ) % _`, no white space at either
      end, and no white space but single spaces between words. */
  lemma SanitizeSearchShape(value: string)
    ensures Avoids(SanitizeSearch(value), SearchSpecials)
    ensures Trimmed(SanitizeSearch(value))
    ensures Collapsed(SanitizeSearch(value))
  {
    var b := BlankOut(BlankOut(value, ",()"), "%_");
    assert Avoids(b, SearchSpecials);
    CollapseKeeps(b, SearchSpecials);
    var c := CollapseSpaces(b);
    TrimKeeps(c, SearchSpecials);
    TrimSpec(c);
    CollapsedTrim(c);
  }

  /** Sanitising a sanitised term changes nothing. */
  lemma SanitizeSearchIdempotent(value: string)
    ensures SanitizeSearch(SanitizeSearch(value)) == SanitizeSearch(value)
  {
    var t := SanitizeSearch(value);
    SanitizeSearchShape(value);
    assert Avoids(t, ",()") && Avoids(t, "%_");
    BlankOutOfAvoiding(t, ",()");
    BlankOutOfAvoiding(t, "%_");
    CollapseOfCollapsed(t);
    TrimOfTrimmed(t);
  }

  /** A Hangul syllable, U+AC00 to U+D7A3 (the class `[가-힣]`). */
  predicate IsHangulSyllable(c: char)
  {
    '\U{AC00}' <= c <= '\U{D7A3}'
  }

  /** `hasHangul`: `/[가-힣]/.test(value)`. */
  predicate HasHangul(s: string)
    decreases |s|
  {
    s != [] && (IsHangulSyllable(s[0]) || HasHangul(s[1..]))
  }

  lemma {:induction false} HasHangulIff(s: string)
    ensures HasHangul(s) <==> exists i :: 0 <= i < |s| && IsHangulSyllable(s[i])
    decreases |s|
  {
    if s != [] {
      HasHangulIff(s[1..]);
      if HasHangul(s[1..]) {
        var i :| 0 <= i < |s[1..]| && IsHangulSyllable(s[1..][i]);
        assert IsHangulSyllable(s[i + 1]);
      }
      if exists i :: 0 <= i < |s| && IsHangulSyllable(s[i]) {
        var i :| 0 <= i < |s| && IsHangulSyllable(s[i]);
        if i > 0 {
          assert IsHangulSyllable(s[1..][i - 1]);
        }
      }
    }
  }

  // ---------------------------------------------------------------------------
  // The excerpt pipeline
  // ---------------------------------------------------------------------------

  /** Step 1, `/```[\s\S]*?```/g` to a space: a fence opening and the nearest
      fence after it, with everything between. An opening without a closing fence
      is kept as text. */
  function StripFences(s: string): (r: string)
    decreases |s|
  {
    if s == [] then []
    else if s[0] == '`' && StartsWith(s, "```") && IndexOf(s[3..], "```").Some? then
      " " + StripFences(s[3 + IndexOf(s[3..], "```").value + 3..])
    else [s[0]] + StripFences(s[1..])
  }

  /** What follows `@[image](` or `@[video](` in a media shortcode: one or more
      characters other than `)`, the `)`, then an optional `{...}` without `}`
      inside. The result is the number of characters taken. */
  function MediaTail(t: string): (r: Option<nat>)
    ensures r.Some? ==> 0 < r.value <= |t|
  {
    var j := IndexOfChar(t, ')', 0);
    if j <= 0 then None
    else
      var after := t[j + 1..];
      var close := IndexOfChar(after, '}', 0);
      if after != [] && after[0] == '{' && close >= 0 then Some(j + 1 + close + 1)
      else Some(j + 1)
  }

  /** Step 2, `/@\[(image|video)\]\(([^)]+)\)(?:\{[^}]*\})?/g` to a space. */
  function StripMedia(s: string): (r: string)
    decreases |s|
  {
    if s == [] then []
    else if s[0] == '@' && (StartsWith(s, "@[image](") || StartsWith(s, "@[video](")) && MediaTail(s[9..]).Some? then
      " " + StripMedia(s[9 + MediaTail(s[9..]).value..])
    else [s[0]] + StripMedia(s[1..])
  }

  /** The number of `#` at the start of `s`. */
  function HashRun(s: string): (n: nat)
    ensures n <= |s| && (n == |s| || s[n] != '#')
    ensures forall i :: 0 <= i < n ==> s[i] == '#'
    decreases |s|
  {
    if s != [] && s[0] == '#' then 1 + HashRun(s[1..]) else 0
  }

  /** Step 3, `/#+\s/g` removed: a run of `#` together with the white-space
      character after it. */
  function StripHeadingMarks(s: string): (r: string)
    decreases |s|
  {
    if s == [] then []
    else if s[0] == '#' && HashRun(s) < |s| && IsSpace(s[HashRun(s)]) then
      StripHeadingMarks(s[HashRun(s) + 1..])
    else [s[0]] + StripHeadingMarks(s[1..])
  }

  /** A link `[text](url)` at the start of `s`, as `/\[[^\]]+\]\(([^)]+)\)/`
      matches it: the bounds `a .. b` of the URL; the match ends at `b + 1`. */
  function LinkAt(s: string): (r: Option<(nat, nat)>)
    ensures r.Some? ==> 0 < r.value.0 < r.value.1 < |s|
  {
    if s == [] || s[0] != '[' then None
    else
      var j := IndexOfChar(s, ']', 1);
      if j < 2 || j + 1 >= |s| || s[j + 1] != '(' then None
      else
        var k := IndexOfChar(s, ')', j + 2);
        if k <= j + 2 then None else Some((j + 2, k))
  }

  /** Step 5, `/\[[^\]]+\]\(([^)]+)\)/g` to `$1`: a link becomes its URL. */
  function InlineLinks(s: string): (r: string)
    decreases |s|
  {
    if s == [] then []
    else match LinkAt(s)
      case Some((a, b)) => s[a..b] + InlineLinks(s[b + 1..])
      case None => [s[0]] + InlineLinks(s[1..])
  }

  /** The whole `replace` chain of `extractExcerpt` / `excerpt`, then `trim`. */
  function NormalizeMarkdown(markdown: string): string
  {
    var t := StripHeadingMarks(StripMedia(StripFences(markdown)));
    Trim(CollapseSpaces(InlineLinks(BlankOut(t, MarkupChars))))
  }

  /** `extractExcerpt` (limit 180) and the MCP `excerpt` (limit 240). */
  function Excerpt(markdown: string, limit: nat): string
  {
    Prefix(NormalizeMarkdown(markdown), limit)
  }

  lemma {:induction false} InlineLinksKeeps(s: string, avoided: string)
    requires Avoids(s, avoided)
    ensures Avoids(InlineLinks(s), avoided)
    decreases |s|
  {
    if s != [] {
      match LinkAt(s)
      case Some((a, b)) =>
        assert forall i :: 0 <= i < b - a ==> s[a..b][i] == s[a + i];
        InlineLinksKeeps(s[b + 1..], avoided);
      case None =>
        InlineLinksKeeps(s[1..], avoided);
    }
  }

  /** The normalised text is trimmed, has single spaces and no markup. */
  lemma NormalizeShape(markdown: string)
    ensures Trimmed(NormalizeMarkdown(markdown))
    ensures Collapsed(NormalizeMarkdown(markdown))
    ensures Avoids(NormalizeMarkdown(markdown), MarkupChars)
  {
    var t := StripHeadingMarks(StripMedia(StripFences(markdown)));
    var b := BlankOut(t, MarkupChars);
    assert Avoids(b, MarkupChars);
    InlineLinksKeeps(b, MarkupChars);
    var l := InlineLinks(b);
    CollapseKeeps(l, MarkupChars);
    var c := CollapseSpaces(l);
    TrimKeeps(c, MarkupChars);
    TrimSpec(c);
    CollapsedTrim(c);
  }

  /** A prefix of a trimmed, collapsed text without markup keeps all three
      properties, except that it may end in a space. */
  lemma PrefixShape(n: string, limit: nat)
    requires Trimmed(n) && Collapsed(n) && Avoids(n, MarkupChars)
    ensures |Prefix(n, limit)| <= limit
    ensures Prefix(n, limit) == [] || !IsSpace(Prefix(n, limit)[0])
    ensures Collapsed(Prefix(n, limit))
    ensures Avoids(Prefix(n, limit), MarkupChars)
    ensures |n| <= limit ==> Trimmed(Prefix(n, limit))
  {
    var r := Prefix(n, limit);
    CollapsedPrefix(n, |r|);
    assert forall i :: 0 <= i < |r| ==> r[i] == n[i];
  }

  /** The excerpt is at most `limit` characters, starts with no white space, has
      only single spaces between words, and holds none of `* _ ` ~ > -`; when the
      normalised text fits in the limit it is trimmed at both ends. */
  lemma ExcerptShape(markdown: string, limit: nat)
    ensures |Excerpt(markdown, limit)| <= limit
    ensures Excerpt(markdown, limit) == [] || !IsSpace(Excerpt(markdown, limit)[0])
    ensures Collapsed(Excerpt(markdown, limit))
    ensures Avoids(Excerpt(markdown, limit), MarkupChars)
    ensures |NormalizeMarkdown(markdown)| <= limit ==> Trimmed(Excerpt(markdown, limit))
  {
    NormalizeShape(markdown);
    PrefixShape(NormalizeMarkdown(markdown), limit);
  }

  // Plain text passes through the pipeline unchanged.

  lemma {:induction false} FencesOfPlain(s: string)
    requires '`' !in s
    ensures StripFences(s) == s
    decreases |s|
  {
    if s != [] {
      assert s[0] != '`';
      FencesOfPlain(s[1..]);
    }
  }

  lemma {:induction false} MediaOfPlain(s: string)
    requires '@' !in s
    ensures StripMedia(s) == s
    decreases |s|
  {
    if s != [] {
      assert s[0] != '@';
      MediaOfPlain(s[1..]);
    }
  }

  lemma {:induction false} HeadingsOfPlain(s: string)
    requires '#' !in s
    ensures StripHeadingMarks(s) == s
    decreases |s|
  {
    if s != [] {
      assert s[0] != '#';
      HeadingsOfPlain(s[1..]);
    }
  }

  lemma {:induction false} LinksOfPlain(s: string)
    requires '[' !in s
    ensures InlineLinks(s) == s
    decreases |s|
  {
    if s != [] {
      assert s[0] != '[';
      LinksOfPlain(s[1..]);
    }
  }

  /** Text with no Markdown syntax, already in normal form, is its own
      normalisation. */
  lemma NormalizePlain(s: string)
    requires Avoids(s, "`@#[") && Avoids(s, MarkupChars)
    requires Collapsed(s) && Trimmed(s)
    ensures NormalizeMarkdown(s) == s
  {
    FencesOfPlain(s);
    MediaOfPlain(s);
    HeadingsOfPlain(s);
    BlankOutOfAvoiding(s, MarkupChars);
    LinksOfPlain(s);
    CollapseOfCollapsed(s);
    TrimOfTrimmed(s);
  }

  /** A run of letters, a space and one more letter. */
  function SpacedWord(n: nat): (md: string)
    ensures |md| == n + 2
    ensures forall i :: 0 <= i < n + 2 ==> md[i] == (if i < n then 'a' else if i == n then ' ' else 'b')
  {
    seq(n, _ => 'a') + " b"
  }

  lemma SpacedWordPlain(n: nat)
    requires n >= 1
    ensures Avoids(SpacedWord(n), "`@#[") && Avoids(SpacedWord(n), MarkupChars)
    ensures Collapsed(SpacedWord(n)) && Trimmed(SpacedWord(n))
  {
  }

  lemma ExcerptOfNormal(md: string, limit: nat)
    requires NormalizeMarkdown(md) == md && |md| > limit
    ensures Excerpt(md, limit) == md[..limit]
  {
  }

  /** The cut can end on a space: for a limit of `n + 1` (180 in the public
      listing, 240 for MCP), `n` letters, a space and one more letter keep the space
      as the excerpt's last character. */
  lemma ExcerptMayEndInSpace(n: nat)
    requires n >= 1
    ensures |Excerpt(SpacedWord(n), n + 1)| == n + 1
    ensures Excerpt(SpacedWord(n), n + 1)[n] == ' '
  {
    var md := SpacedWord(n);
    SpacedWordPlain(n);
    NormalizePlain(md);
    ExcerptOfNormal(md, n + 1);
    assert md[..n + 1][n] == md[n];
  }
}
