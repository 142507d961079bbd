/** Server-side syntax highlighting (`src/lib/markdown/highlight.ts`): the
    language name normalised to the highlighter's canonical form, and a cache
    of rendered HTML in front of the highlighter. The highlighter is a
    parameter: it renders a code text in a language, or fails (`None`); it
    is taken to answer the same for the same input. */
module Highlight {
  import opened Wrappers
  import opened JsText

  // ---------------------------------------------------------------------------
  // Language names

  /** The short alias of a long language name; other names are kept. */
  function Alias(n: string): (r: string)
    ensures r == n || r in {"ts", "js", "bash", "md"}
  {
    if n == "typescript" then "ts"
    else if n == "javascript" then "js"
    else if n == "shell" || n == "bash" || n == "sh" then "bash"
    else if n == "markdown" || n == "md" then "md"
    else n
  }

  /** The aliases are their own aliases. */
  lemma AliasIdempotent(n: string)
    ensures Alias(Alias(n)) == Alias(n)
  {
    var r := Alias(n);
    if r == "ts" {
      assert Alias("ts") == "ts";
    } else if r == "js" {
      assert Alias("js") == "js";
    } else if r == "bash" {
      assert Alias("bash") == "bash";
    } else if r == "md" {
      assert Alias("md") == "md";
    }
  }

  /** A language name in canonical form: trimmed, in lower case, and its own
      alias. */
  predicate Canonical(lang: string)
  {
    Trimmed(lang) && Lower(lang) == lang && Alias(lang) == lang
  }

  /** `normalizeLanguage`: no or an empty name is `text`; otherwise the name
      trimmed, lowercased and replaced by its alias. */
  function NormalizeLanguage(language: Option<string>): (r: string)
    ensures Canonical(r)
    ensures language.None? || language == Some("") ==> r == "text"
  {
    if language.None? || language.value == "" then
      TextCanonical();
      "text"
    else
      NormalizedCanonical(language.value);
      Alias(Lower(Trim(language.value)))
  }

  lemma TextCanonical()
    ensures Canonical("text")
  {
    assert Lower("text") == "text";
    assert Alias("text") == "text";
  }

  lemma NormalizedCanonical(s: string)
    ensures Canonical(Alias(Lower(Trim(s))))
  {
    TrimSpec(s);
    LowerTrimmed(Trim(s));
    AliasIdempotent(Lower(Trim(s)));
    AliasCanonical(Lower(Trim(s)));
  }

  /** Lowercasing keeps a trimmed text trimmed and is idempotent. */
  lemma LowerTrimmed(s: string)
    requires Trimmed(s)
    ensures Trimmed(Lower(s)) && Lower(Lower(s)) == Lower(s)
  {
  }

  /** The alias of a trimmed lower-case name is trimmed and in lower case. */
  lemma AliasCanonical(n: string)
    requires Trimmed(n) && Lower(n) == n
    ensures Trimmed(Alias(n)) && Lower(Alias(n)) == Alias(n)
  {
    var r := Alias(n);
    if r != n {
      assert r == "ts" || r == "js" || r == "bash" || r == "md";
    }
  }

  /** Names that differ only in case and surrounding white space normalise
      alike. */
  lemma CaseAndSpaceIgnored(a: string, b: string)
    requires a != "" && b != "" && Lower(Trim(a)) == Lower(Trim(b))
    ensures NormalizeLanguage(Some(a)) == NormalizeLanguage(Some(b))
  {
  }

  /** Calls that name a language by its long name or its alias, in any case,
      normalise alike and so share their cache entries. */
  lemma AliasesShareKey()
    ensures NormalizeLanguage(Some("TypeScript")) == NormalizeLanguage(Some("ts")) == "ts"
  {
    TrimOfTrimmed("TypeScript");
    assert Lower("TypeScript") == "typescript";
    assert Alias("typescript") == "ts";
    CanonicalFixed("ts");
  }

  /** A canonical non-empty name is its own normal form. */
  lemma CanonicalFixed(r: string)
    requires Canonical(r) && r != ""
    ensures NormalizeLanguage(Some(r)) == r
  {
    TrimOfTrimmed(r);
    assert Lower(Trim(r)) == r;
  }

  /** Normalising a normalised name changes nothing, unless it is empty (a name
      of white space only normalises to the empty name, which is then read as
      no name at all). */
  lemma NormalizeIdempotent(language: Option<string>)
    ensures NormalizeLanguage(language) != "" ==>
              NormalizeLanguage(Some(NormalizeLanguage(language))) == NormalizeLanguage(language)
    ensures language.Some? && language.value != "" && AllSpace(language.value) ==> NormalizeLanguage(language) == ""
  {
    var r := NormalizeLanguage(language);
    if r != "" {
      CanonicalFixed(r);
    }
    if language.Some? && language.value != "" && AllSpace(language.value) {
      TrimEmptyIff(language.value);
      assert Lower(Trim(language.value)) == "";
      assert Alias("") == "";
    }
  }

  // ---------------------------------------------------------------------------
  // Rendering and its cache

  /** One uncached highlighting: in the normalised language, or as plain text
      when that fails; `None` when the plain-text rendering fails as well. */
  function Rendered(render: (string, string) -> Option<string>, code: string, lang: string): (r: Option<string>)
    ensures render(code, lang).Some? ==> r == render(code, lang)
    ensures render(code, lang).None? ==> r == render(code, "text")
  {
    if render(code, lang).Some? then render(code, lang) else render(code, "text")
  }

  /** The cache key as written: the language and the code joined by `::`. */
  function JoinedKey(lang: string, code: string): (r: string)
    ensures |r| == |lang| + 2 + |code|
    ensures r[..|lang|] == lang && r[|lang| + 2..] == code
  {
    lang + "::" + code
  }

  /** The joined key does not tell its parts apart when they hold `::`: the
      language `a::b` with code `c` and the language `a` with code `b::c` share
      a key. */
  lemma JoinedKeyCollides()
    ensures JoinedKey("a::b", "c") == JoinedKey("a", "b::c")
    ensures ("a::b", "c") != ("a", "b::c")
  {
    assert "a::b" + "::" + "c" == "a" + "::" + "b::c";
  }

  /** `highlightCode` with the key as written, on a cache of joined keys: the
      answer and the new cache. */
  function JoinedStep(cache: map<string, string>, render: (string, string) -> Option<string>,
                      code: string, language: Option<string>): (r: (Option<string>, map<string, string>))
    ensures var key := JoinedKey(NormalizeLanguage(language), code);
            key in cache && cache[key] != "" ==> r == (Some(cache[key]), cache)
  {
    var lang := NormalizeLanguage(language);
    var key := JoinedKey(lang, code);
    if key in cache && cache[key] != "" then (Some(cache[key]), cache)
    else
      var html := Rendered(render, code, lang);
      (html, if html.Some? then cache[key := html.value] else cache)
  }

  /** With joined keys a code block can be shown as another block's HTML: after
      highlighting `c` in language `a::b`, highlighting `b::c` in language `a`
      answers the first block's HTML instead of rendering the second. */
  lemma JoinedStepServesOtherBlock()
    ensures var echo := (code: string, lang: string) => Some(code);
            var first := JoinedStep(map[], echo, "c", Some("a::b"));
            var second := JoinedStep(first.1, echo, "b::c", Some("a"));
            && second.0 == Some("c")
            && Rendered(echo, "b::c", NormalizeLanguage(Some("a"))) == Some("b::c")
  {
    var echo := (code: string, lang: string) => Some(code);
    PlainName("a::b");
    PlainName("a");
    JoinedKeyCollides();
  }

  /** A short name without capitals, spaces or an alias is its own normal form. */
  lemma PlainName(n: string)
    requires n == "a" || n == "a::b"
    ensures NormalizeLanguage(Some(n)) == n
  {
    TrimOfTrimmed(n);
    assert Lower(n) == n;
    assert Alias(n) == n;
  }

  /** The highlighting cache, keyed by language and code together. */
  class HighlightCache {
    var cache: map<(string, string), string>

    /** Every entry is what rendering its own key produces. */
    predicate Faithful(render: (string, string) -> Option<string>)
      reads this
    {
      forall key :: key in cache ==> Rendered(render, key.1, key.0) == Some(cache[key])
    }

    constructor ()
      ensures cache == map[]
    {
      cache := map[];
    }

    /** `highlightCode`: a cached non-empty HTML is answered as it is; otherwise
        the code is rendered (falling back to plain text) and a rendering that
        succeeds is stored under the key. A cached empty HTML counts as a miss.
        With faithful entries the cache is invisible: the answer is always the
        uncached rendering. */
    method HighlightCode(code: string, language: Option<string>, render: (string, string) -> Option<string>)
      returns (html: Option<string>, rendered: bool)
      requires Faithful(render)
      modifies this
      ensures Faithful(render)
      ensures html == Rendered(render, code, NormalizeLanguage(language))
      ensures var key := (NormalizeLanguage(language), code);
              && (rendered <==> !(key in old(cache) && old(cache)[key] != ""))
              && cache == if !rendered || html.None? then old(cache) else old(cache)[key := html.value]
    {
      var lang := NormalizeLanguage(language);
      var key := (lang, code);
      if key in cache && cache[key] != "" {
        return Some(cache[key]), false;
      }
      rendered := true;
      html := render(code, lang);
      if html.None? {
        html := render(code, "text");
      }
      if html.Some? {
        cache := cache[key := html.value];
      }
    }
  }

  /** A second request for the same block renders nothing when the first
      produced non-empty HTML, and answers the same. */
  lemma RepeatIsCached(cache: map<(string, string), string>, render: (string, string) -> Option<string>,
                       code: string, language: Option<string>)
    requires var html := Rendered(render, code, NormalizeLanguage(language));
             html.Some? && html.value != ""
    ensures var key := (NormalizeLanguage(language), code);
            var html := Rendered(render, code, NormalizeLanguage(language));
            key in cache[key := html.value] && cache[key := html.value][key] != ""
  {
  }
}
