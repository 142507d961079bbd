/** The slug derived from a post title: combining marks removed, lower-cased, every
    run of characters other than `a-z0-9` turned into one `-`, hyphens stripped from
    both ends, and `post` when nothing is left. The same derivation serves the
    post-creation route and the MCP draft tool. */
module Slug {
  import opened JsText

  predicate IsSlugChar(c: char) { IsLowerLetter(c) || IsDigit(c) }

  /** Combining diacritical marks, U+0300 to U+036F. */
  predicate IsCombiningMark(c: char) { '\U{0300}' <= c <= '\U{036F}' }

  predicate HasSlugChar(s: string)
    decreases |s|
  {
    s != [] && (IsSlugChar(s[0]) || HasSlugChar(s[1..]))
  }

  predicate HasAlnum(s: string)
    decreases |s|
  {
    s != [] && (IsAlnum(s[0]) || HasAlnum(s[1..]))
  }

  /** `replace(/[̀-ͯ]/g, '')`. */
  function StripMarks(s: string): (r: string)
    ensures forall i :: 0 <= i < |r| ==> !IsCombiningMark(r[i])
    ensures (forall i :: 0 <= i < |s| ==> !IsCombiningMark(s[i])) ==> r == s
    ensures HasAlnum(r) == HasAlnum(s)
    decreases |s|
  {
    if s == [] then []
    else if IsCombiningMark(s[0]) then StripMarks(s[1..])
    else
      var rest := StripMarks(s[1..]);
      assert ([s[0]] + rest)[1..] == rest;
      [s[0]] + rest
  }

  lemma {:induction false} LowerSlugChars(s: string)
    ensures HasSlugChar(Lower(s)) == HasAlnum(s)
    decreases |s|
  {
    if s != [] {
      assert Lower(s)[1..] == Lower(s[1..]);
      LowerSlugChars(s[1..]);
    }
  }

  /** Drops the leading run of characters that cannot appear in a slug. */
  function DropNonSlug(s: string): (r: string)
    ensures |r| <= |s| && r == s[|s| - |r|..]
    ensures r == [] || IsSlugChar(r[0])
    ensures HasSlugChar(r) == HasSlugChar(s)
    decreases |s|
  {
    if s != [] && !IsSlugChar(s[0]) then DropNonSlug(s[1..]) else s
  }

  /** Letters, digits and single hyphens. */
  predicate HyphenWord(r: string)
  {
    && (forall i :: 0 <= i < |r| ==> IsSlugChar(r[i]) || r[i] == '-')
    && (forall i :: 0 <= i < |r| - 1 ==> r[i] == '-' ==> r[i + 1] != '-')
  }

  /** `replace(/[^a-z0-9]+/g, '-')`. */
  function Hyphenate(s: string): (r: string)
    ensures HyphenWord(r)
    ensures s == [] <==> r == []
    ensures s != [] && IsSlugChar(s[0]) ==> r[0] == s[0]
    ensures s != [] && !IsSlugChar(s[0]) ==> r[0] == '-'
    ensures HasSlugChar(r) == HasSlugChar(s)
    decreases |s|
  {
    if s == [] then []
    else if IsSlugChar(s[0]) then
      var rest := Hyphenate(s[1..]);
      assert ([s[0]] + rest)[1..] == rest;
      [s[0]] + rest
    else
      var rest := Hyphenate(DropNonSlug(s[1..]));
      assert ("-" + rest)[1..] == rest;
      "-" + rest
  }

  /** `replace(/^-+/, '')`. */
  function TrimLeadingHyphens(s: string): (r: string)
    ensures |r| <= |s| && r == s[|s| - |r|..]
    ensures r == [] || r[0] != '-'
    ensures forall i :: 0 <= i < |s| - |r| ==> s[i] == '-'
    decreases |s|
  {
    if s != [] && s[0] == '-' then TrimLeadingHyphens(s[1..]) else s
  }

  /** `replace(/-+$/, '')`. */
  function TrimTrailingHyphens(s: string): (r: string)
    ensures |r| <= |s| && r == s[..|r|]
    ensures r == [] || r[|r| - 1] != '-'
    ensures forall i :: |r| <= i < |s| ==> s[i] == '-'
    decreases |s|
  {
    if s != [] && s[|s| - 1] == '-' then TrimTrailingHyphens(s[..|s| - 1]) else s
  }

  /** The normalized title before the `post` fallback. */
  function SlugCore(title: string): string
  {
    TrimTrailingHyphens(TrimLeadingHyphens(Hyphenate(Lower(StripMarks(title)))))
  }

  /** `slugifyTitle`, with the input taken as already decomposed (NFKD). */
  function SlugifyTitle(title: string): string
  {
    var core := SlugCore(title);
    if core == [] then "post" else core
  }

  /** A well-formed slug: not empty, `a-z`, `0-9` and single inner hyphens only. */
  predicate IsSlug(s: string)
  {
    s != [] && HyphenWord(s) && s[0] != '-' && s[|s| - 1] != '-'
  }

  lemma HyphenWordSlice(s: string, a: nat, b: nat)
    requires HyphenWord(s) && a <= b <= |s|
    ensures HyphenWord(s[a..b])
  {
    var t := s[a..b];
    assert forall i :: 0 <= i < |t| ==> t[i] == s[a + i];
  }

  lemma CoreShape(title: string)
    ensures SlugCore(title) == [] || IsSlug(SlugCore(title))
  {
    var h := Hyphenate(Lower(StripMarks(title)));
    var l := TrimLeadingHyphens(h);
    HyphenWordSlice(h, |h| - |l|, |h|);
    var t := TrimTrailingHyphens(l);
    HyphenWordSlice(l, 0, |t|);
    if t != [] {
      assert t[0] == l[0];
    }
  }

  /** Every title gives a well-formed slug. */
  lemma SlugifyShape(title: string)
    ensures IsSlug(SlugifyTitle(title))
  {
    CoreShape(title);
    var p := "post";
    assert forall i :: 0 <= i < |p| ==> IsSlugChar(p[i]);
  }

  lemma {:induction false} HyphenateOfHyphenWord(s: string)
    requires HyphenWord(s)
    requires s == [] || s[0] != '-' || |s| == 1 || s[1] != '-'
    ensures Hyphenate(s) == s
    decreases |s|
  {
    if s != [] {
      HyphenWordSlice(s, 1, |s|);
      var rest := s[1..];
      if IsSlugChar(s[0]) {
        HyphenateOfHyphenWord(rest);
        assert s == [s[0]] + rest;
      } else {
        assert rest == [] || IsSlugChar(rest[0]);
        assert DropNonSlug(rest) == rest;
        HyphenateOfHyphenWord(rest);
        assert s == "-" + rest;
      }
    }
  }

  lemma SlugIsFixpoint(s: string)
    requires IsSlug(s)
    ensures SlugCore(s) == s
  {
    assert forall i :: 0 <= i < |s| ==> !IsCombiningMark(s[i]);
    assert StripMarks(s) == s;
    assert forall i :: 0 <= i < |s| ==> LowerChar(s[i]) == s[i];
    assert Lower(s) == s;
    HyphenateOfHyphenWord(s);
  }

  /** A slug is its own slug: slugifying twice changes nothing. */
  lemma SlugifyIdempotent(title: string)
    ensures SlugifyTitle(SlugifyTitle(title)) == SlugifyTitle(title)
  {
    SlugifyShape(title);
    SlugIsFixpoint(SlugifyTitle(title));
  }

  lemma {:induction false} HyphensOnly(h: string)
    requires HyphenWord(h) && !HasSlugChar(h)
    ensures forall i :: 0 <= i < |h| ==> h[i] == '-'
    decreases |h|
  {
    if h != [] {
      HyphenWordSlice(h, 1, |h|);
      HyphensOnly(h[1..]);
      assert forall i :: 1 <= i < |h| ==> h[i] == h[1..][i - 1];
    }
  }

  lemma {:induction false} SlugCharAt(h: string) returns (k: nat)
    requires HasSlugChar(h)
    ensures k < |h| && IsSlugChar(h[k])
    decreases |h|
  {
    if IsSlugChar(h[0]) {
      k := 0;
    } else {
      var j := SlugCharAt(h[1..]);
      k := j + 1;
    }
  }

  /** The `post` fallback is taken exactly when the title holds no ASCII letter or digit. */
  lemma CoreEmptyIff(title: string)
    ensures SlugCore(title) == [] <==> !HasAlnum(title)
  {
    var lo := Lower(StripMarks(title));
    LowerSlugChars(StripMarks(title));
    var h := Hyphenate(lo);
    var l := TrimLeadingHyphens(h);
    var t := TrimTrailingHyphens(l);
    if HasAlnum(title) {
      var k := SlugCharAt(h);
      assert k >= |h| - |l|;
      assert l[k - (|h| - |l|)] == h[k];
      assert k - (|h| - |l|) < |t|;
    } else {
      HyphensOnly(h);
    }
  }

  /** The slug of a title with no ASCII letter or digit is `post`. */
  lemma SlugFallback(title: string)
    requires !HasAlnum(title)
    ensures SlugifyTitle(title) == "post"
  {
    CoreEmptyIff(title);
  }
}
