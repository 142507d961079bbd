/** The code block card (`src/components/blog/CodeBlockCard.tsx`): the language
    label and title shown in its header, and what its body shows. */
module CodeBlockCard {
  import opened Wrappers
  import opened JsText
  import Highlight

  /** `normalizeLanguageLabel`: no or an empty name is `text`; otherwise the
      name lowercased (not trimmed), with the short names `ts`, `js`, `py`,
      `sh` and `md` spelled out. The label is never empty, is in lower case and
      is never one of the short names. */
  function NormalizeLanguageLabel(language: Option<string>): (r: string)
    ensures r != ""
    ensures Lower(r) == r
    ensures r !in {"ts", "js", "py", "sh", "md"}
    ensures language.None? || language == Some("") ==> r == "text"
    ensures language.Some? && language.value != "" && Lower(language.value) !in {"ts", "js", "py", "sh", "md"}
            ==> r == Lower(language.value)
  {
    if language.None? || language.value == "" then "text"
    else
      var n := Lower(language.value);
      assert Lower(n) == n;
      if n == "ts" then "typescript"
      else if n == "js" then "javascript"
      else if n == "py" then "python"
      else if n == "sh" then "shell"
      else if n == "md" then "markdown"
      else n
  }

  /** The label spells out the short names the highlighter's aliases map back:
      a block written as `ts`, `js` or `md` is labelled with the long name
      and highlighted under the short one. */
  lemma LabelInvertsAlias(short: string)
    requires short in {"ts", "js", "md"}
    ensures Highlight.Alias(NormalizeLanguageLabel(Some(short))) == short
  {
    assert Lower(short) == short;
  }

  /** The header text: the trimmed title when it holds a non-space character,
      otherwise the language label. */
  function HeaderLabel(title: Option<string>, language: Option<string>): (r: string)
    ensures r != ""
    ensures title.Some? && NotBlank(title.value) ==> r == Trim(title.value)
    ensures title.None? || !NotBlank(title.value) ==> r == NormalizeLanguageLabel(language)
  {
    if title.Some? && NotBlank(title.value) then
      NotBlankIff(title.value);
      Trim(title.value)
    else
      NormalizeLanguageLabel(language)
  }

  /** What the body shows. */
  datatype Body = HighlightedHtml(html: string) | PlainCode(code: string)

  /** The highlighted HTML when there is some that is not empty, the plain code
      otherwise (before highlighting finishes, and when it failed). */
  function BodyOf(code: string, highlighted: Option<string>): (r: Body)
    ensures r.HighlightedHtml? <==> highlighted.Some? && highlighted.value != ""
    ensures r.HighlightedHtml? ==> r.html == highlighted.value
    ensures r.PlainCode? ==> r.code == code
  {
    if highlighted.Some? && highlighted.value != "" then HighlightedHtml(highlighted.value) else PlainCode(code)
  }
}
