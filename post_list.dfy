/** The public post list's card text (`src/components/blog/PostList.tsx`): the
    excerpt shown under a title, the category guessed from the words of the
    title and excerpt, and the badge style of each category. */
module PostList {
  import opened Wrappers
  import opened JsText

  const ExcerptLimit: nat := 180
  const Ellipsis: string := "…"
  const FallbackSubject: string := "이 포스트"
  const FallbackTail: string := "에 대한 핵심 내용을 짧고 명확하게 정리한 글입니다. 자세한 내용은 포스트에서 확인하세요."

  // ---------------------------------------------------------------------------
  // Excerpt

  /** The stored excerpt with every run of white space made one space, trimmed. */
  function Normalized(excerpt: Option<string>): string
  {
    if excerpt.Some? then Trim(CollapseSpaces(excerpt.value)) else ""
  }

  /** `buildExcerpt`: without usable excerpt text, a sentence about the trimmed
      title (or "this post"); otherwise the first 180 characters of the
      normalised text, followed by an ellipsis exactly when something was cut. */
  function BuildExcerpt(title: string, excerpt: Option<string>): (r: string)
    ensures Normalized(excerpt) == "" ==>
              r == Trim(if title == "" then FallbackSubject else title) + FallbackTail
    ensures Normalized(excerpt) != "" && |Normalized(excerpt)| <= ExcerptLimit ==> r == Normalized(excerpt)
    ensures Normalized(excerpt) != "" && |Normalized(excerpt)| > ExcerptLimit ==>
              && |r| == ExcerptLimit + 1
              && r[..ExcerptLimit] == Normalized(excerpt)[..ExcerptLimit]
              && r[ExcerptLimit..] == Ellipsis
  {
    var normalized := Normalized(excerpt);
    if normalized == "" then
      Trim(if title == "" then FallbackSubject else title) + FallbackTail
    else
      Prefix(normalized, ExcerptLimit) + (if |normalized| > ExcerptLimit then Ellipsis else "")
  }

  /** A shown excerpt taken from the text never starts with white space, and
      its only white space is single plain spaces. */
  lemma ExcerptShape(title: string, excerpt: Option<string>)
    requires Normalized(excerpt) != ""
    ensures !IsSpace(BuildExcerpt(title, excerpt)[0])
    ensures Collapsed(BuildExcerpt(title, excerpt))
  {
    NormalizedShape(excerpt.value);
    ExcerptPieces(Normalized(excerpt), BuildExcerpt(title, excerpt));
  }

  /** The shape carries over from the normalised text to the excerpt. */
  lemma ExcerptPieces(n: string, r: string)
    requires n != "" && !IsSpace(n[0]) && Collapsed(n)
    requires |n| <= ExcerptLimit ==> r == n
    requires |n| > ExcerptLimit ==>
               |r| == ExcerptLimit + 1 && r[..ExcerptLimit] == n[..ExcerptLimit] && r[ExcerptLimit..] == Ellipsis
    ensures !IsSpace(r[0]) && Collapsed(r)
  {
    if |n| > ExcerptLimit {
      CollapsedPrefix(n, ExcerptLimit);
      assert r[ExcerptLimit] == '…';
      assert r == r[..ExcerptLimit] + ['…'];
      CollapsedAppend(n[..ExcerptLimit], '…');
      assert r[0] == n[..ExcerptLimit][0];
    }
  }

  lemma NormalizedShape(e: string)
    requires Trim(CollapseSpaces(e)) != ""
    ensures !IsSpace(Trim(CollapseSpaces(e))[0]) && Collapsed(Trim(CollapseSpaces(e)))
  {
    TrimSpec(CollapseSpaces(e));
    CollapsedTrim(CollapseSpaces(e));
  }

  /** Appending a character that is not white space keeps a text collapsed. */
  lemma CollapsedAppend(s: string, c: char)
    requires Collapsed(s) && !IsSpace(c)
    ensures Collapsed(s + [c])
  {
    var t := s + [c];
    forall i | 0 <= i < |t| && IsSpace(t[i]) ensures t[i] == ' ' && (i + 1 < |t| ==> !IsSpace(t[i + 1])) {
      assert i < |s| && t[i] == s[i];
      if i + 1 < |s| {
        assert t[i + 1] == s[i + 1];
      }
    }
  }

  // ---------------------------------------------------------------------------
  // Category

  /** `\b`: the regular expression's word characters are ASCII letters, digits
      and `_`. */
  predicate WordAt(s: string, w: string, k: nat)
  {
    && k + |w| <= |s| && s[k..k + |w|] == w
    && (k == 0 || !IsWordChar(s[k - 1]))
    && (k + |w| == |s| || !IsWordChar(s[k + |w|]))
  }

  /** `w` occurs in `s` as a whole word at or after `k`. */
  function FindWord(s: string, w: string, k: nat): (r: bool)
    ensures r <==> exists j: nat :: k <= j && WordAt(s, w, j)
    decreases |s| - k
  {
    if k + |w| > |s| then false
    else WordAt(s, w, k) || FindWord(s, w, k + 1)
  }

  /** Some word of the list occurs as a whole word. */
  predicate AnyWord(s: string, words: seq<string>)
  {
    exists i :: 0 <= i < |words| && FindWord(s, words[i], 0)
  }

  const AiWords: seq<string> := ["ai", "llm", "agent", "prompt", "model", "inference"]
  const InfraWords: seq<string> := ["infra", "k8s", "kubernetes", "devops", "observability", "sre", "server"]
  const FrontendWords: seq<string> := ["design", "ux", "ui", "frontend", "react", "next.js", "nextjs", "css"]
  const ProductWords: seq<string> := ["product", "growth", "launch", "roadmap", "strategy"]

  /** What the category is guessed from: title and excerpt, lowercased. */
  function Corpus(title: string, excerpt: Option<string>): string
  {
    Lower(title + " " + (if excerpt.Some? then excerpt.value else ""))
  }

  /** `inferCategory`: the first category, in the order AI, Infra, Frontend,
      Product, one of whose words occurs as a whole word; Engineering otherwise. */
  function InferCategory(title: string, excerpt: Option<string>): (r: string)
    ensures var c := Corpus(title, excerpt);
            && (r == "AI" <==> AnyWord(c, AiWords))
            && (r == "Infra" <==> !AnyWord(c, AiWords) && AnyWord(c, InfraWords))
            && (r == "Frontend" <==> !AnyWord(c, AiWords) && !AnyWord(c, InfraWords) && AnyWord(c, FrontendWords))
            && (r == "Product" <==> !AnyWord(c, AiWords) && !AnyWord(c, InfraWords) && !AnyWord(c, FrontendWords)
                                    && AnyWord(c, ProductWords))
            && (r == "Engineering" <==> !AnyWord(c, AiWords) && !AnyWord(c, InfraWords) && !AnyWord(c, FrontendWords)
                                        && !AnyWord(c, ProductWords))
  {
    var c := Corpus(title, excerpt);
    if AnyWord(c, AiWords) then "AI"
    else if AnyWord(c, InfraWords) then "Infra"
    else if AnyWord(c, FrontendWords) then "Frontend"
    else if AnyWord(c, ProductWords) then "Product"
    else "Engineering"
  }

  /** A category word at the start of the title, followed by a space, decides
      the category whatever its case, unless an earlier category also matches. */
  lemma LeadingWordCounts(word: string, rest: string, excerpt: Option<string>)
    requires word in InfraWords && Lower(word) == word
    requires !AnyWord(Corpus(word + " " + rest, excerpt), AiWords)
    ensures InferCategory(word + " " + rest, excerpt) == "Infra"
  {
    var c := Corpus(word + " " + rest, excerpt);
    var s := word + " " + rest + " " + (if excerpt.Some? then excerpt.value else "");
    assert c == Lower(s);
    assert c[..|word|] == word by {
      forall i | 0 <= i < |word| ensures c[i] == word[i] {
        assert s[i] == word[i];
        assert LowerChar(word[i]) == Lower(word)[i];
      }
    }
    assert c[|word|] == ' ';
    assert WordAt(c, word, 0);
    var i :| 0 <= i < |InfraWords| && InfraWords[i] == word;
    assert FindWord(c, InfraWords[i], 0);
  }

  // ---------------------------------------------------------------------------
  // Badge

  const DefaultBadge: string := "border-border/80 bg-muted/40 text-foreground"

  /** `categoryBadgeClass`: one style per known category, the neutral style for
      every other string. */
  function CategoryBadgeClass(category: string): (r: string)
    ensures r == DefaultBadge <==> category !in {"AI", "Infra", "Frontend", "Product"}
  {
    match category
    case "AI" => "border-blue-400/40 bg-blue-500/10 text-blue-300"
    case "Infra" => "border-amber-400/40 bg-amber-500/10 text-amber-300"
    case "Frontend" => "border-violet-400/40 bg-violet-500/10 text-violet-300"
    case "Product" => "border-emerald-400/40 bg-emerald-500/10 text-emerald-300"
    case _ => DefaultBadge
  }

  /** A card shows the neutral badge exactly when no category word was found,
      and two cards of different guessed categories never share a badge. */
  lemma InferredBadge(title: string, excerpt: Option<string>, title2: string, excerpt2: Option<string>)
    ensures (CategoryBadgeClass(InferCategory(title, excerpt)) == DefaultBadge) <==>
            (InferCategory(title, excerpt) == "Engineering")
    ensures var c, c2 := InferCategory(title, excerpt), InferCategory(title2, excerpt2);
            c != c2 && c != "Engineering" && c2 != "Engineering" ==> CategoryBadgeClass(c) != CategoryBadgeClass(c2)
  {
  }
}
