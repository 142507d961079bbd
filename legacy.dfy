/** Conversion of the legacy rich-text document format (a tree of typed nodes stored
    in the old `content` JSON column) to Markdown, and the two classifiers of database
    errors that decide when the application falls back to that legacy column. */
module Legacy {
  import opened Wrappers
  import opened JsText
  import opened JsValues

  /** A database error as the data layer reports it. */
  datatype StoreError = StoreError(code: string, message: string)

  /** A node of the legacy document. A missing `content` list is the empty list and
      missing attributes are absent keys. */
  datatype LegacyNode = LegacyNode(
    kind: Option<string>,
    text: Option<string>,
    attrs: map<string, JsValue>,
    content: seq<LegacyNode>)

  /** The raw value of the legacy column: a string, a falsy value, another primitive,
      or an object whose `content` may or may not be an array. */
  datatype LegacyValue =
    | LString(s: string)
    | LFalsy
    | LPrimitive
    | LObject(content: Option<seq<LegacyNode>>)

  function Attr(node: LegacyNode, key: string): JsValue
  {
    if key in node.attrs then node.attrs[key] else Undefined
  }

  function Repeat(c: char, n: nat): (r: string)
    ensures |r| == n && forall i :: 0 <= i < n ==> r[i] == c
  {
    seq(n, _ => c)
  }

  /** The number of `#` of a heading: `Number(level ?? 1)` clamped to 1..6 and
      truncated by `repeat`; a level that is not a number repeats `#` zero times. */
  function HeadingHashes(level: JsValue): (k: nat)
    ensures k <= 6
    ensures k == 0 <==> ToNumber(Coalesce(level, Num(1))).NaN?
    ensures var v := ToNumber(Coalesce(level, Num(1)));
            v.Finite? && 1.0 <= v.value < 6.0 ==> k as real <= v.value < k as real + 1.0
    ensures var v := ToNumber(Coalesce(level, Num(1)));
            (v.Finite? && v.value < 1.0) || v == Infinite(true) ==> k == 1
    ensures var v := ToNumber(Coalesce(level, Num(1)));
            (v.Finite? && v.value >= 6.0) || v == Infinite(false) ==> k == 6
  {
    HeadingOfNumber(ToNumber(Coalesce(level, Num(1))))
  }

  /** `'#'.repeat(Math.min(Math.max(level, 1), 6))` for a number. */
  function HeadingOfNumber(v: Number): nat
  {
    match v
    case NaN => 0
    case Infinite(negative) => if negative then 1 else 6
    case Finite(x) => if x < 1.0 then 1 else if x >= 6.0 then 6 else x.Floor
  }

  /** `String(attrs[key] ?? '').trim()`. */
  function AttrText(node: LegacyNode, key: string): string
  {
    Trim(ToJsString(Coalesce(Attr(node, key), Str(""))))
  }

  /** The Markdown of the children of a node, concatenated. */
  function Inner(node: LegacyNode): string
    decreases node, 0
  {
    Join(seq(|node.content|, i requires 0 <= i < |node.content| => NodeToMarkdown(node.content[i])), "")
  }

  function QuoteLine(line: string): string
  {
    if line == "" then ">" else "> " + line
  }

  function QuotedLines(lines: seq<string>): seq<string>
  {
    seq(|lines|, i requires 0 <= i < |lines| => QuoteLine(lines[i]))
  }

  function QuoteBody(text: string): string
  {
    Join(QuotedLines(Split(text, '\n')), "\n")
  }

  function BulletItems(items: seq<LegacyNode>): string
  {
    Join(seq(|items|, i requires 0 <= i < |items| => "- " + Trim(Inner(items[i]))), "\n")
  }

  function OrderedItems(items: seq<LegacyNode>): string
  {
    Join(seq(|items|, i requires 0 <= i < |items| => NatToString(i + 1) + ". " + Trim(Inner(items[i]))), "\n")
  }

  function NodeToMarkdown(node: LegacyNode): string
    decreases node, 1
  {
    match node.kind
    case Some("text") => node.text.GetOr("")
    case Some("hardBreak") => "\n"
    case Some("paragraph") =>
      var text := Inner(node);
      if NotBlank(text) then text + "\n\n" else "\n"
    case Some("heading") =>
      Repeat('#', HeadingHashes(Attr(node, "level"))) + " " + Inner(node) + "\n\n"
    case Some("blockquote") =>
      var text := Trim(Inner(node));
      if text == "" then "" else QuoteBody(text) + "\n\n"
    case Some("bulletList") =>
      var items := BulletItems(node.content);
      if items == "" then "" else items + "\n\n"
    case Some("orderedList") =>
      var items := OrderedItems(node.content);
      if items == "" then "" else items + "\n\n"
    case Some("codeBlock") =>
      "```" + AttrText(node, "language") + "\n" + Inner(node) + "\n```\n\n"
    case Some("image") =>
      var src := AttrText(node, "src");
      var alt := AttrText(node, "alt");
      if src == "" then ""
      else "@[image](" + src + ")" + (if alt != "" then "{alt=\"" + alt + "\"}" else "") + "\n\n"
    case _ => Inner(node)
  }

  /** The Markdown of a stored legacy value: strings pass through untouched, values
      that are not documents give the empty string, and a document gives the
      trimmed concatenation of its top-level nodes. */
  function LegacyContentToMarkdown(legacy: LegacyValue): (r: string)
    ensures legacy.LString? ==> r == legacy.s
    ensures (legacy.LFalsy? || legacy.LPrimitive? || legacy == LObject(None)) ==> r == ""
    ensures legacy.LObject? && legacy.content.Some? ==> Trimmed(r)
  {
    match legacy
    case LString(s) => s
    case LFalsy => ""
    case LPrimitive => ""
    case LObject(None) => ""
    case LObject(Some(nodes)) =>
      var all := Join(seq(|nodes|, i requires 0 <= i < |nodes| => NodeToMarkdown(nodes[i])), "");
      TrimSpec(all);
      Trim(all)
  }

  /** Every line of a converted block quote is marked with `>`, one output line per
      line of the quoted text, and the block ends with a blank line. */
  lemma QuoteLinesMarked(node: LegacyNode)
    requires node.kind == Some("blockquote") && Trim(Inner(node)) != ""
    ensures var text := Trim(Inner(node));
            var out := NodeToMarkdown(node);
            exists body ::
              out == body + "\n\n"
              && |Split(body, '\n')| == |Split(text, '\n')|
              && forall i :: 0 <= i < |Split(body, '\n')| ==> StartsWith(Split(body, '\n')[i], ">")
  {
    var text := Trim(Inner(node));
    var body := QuoteBody(text);
    var quoted := QuotedLines(Split(text, '\n'));
    QuoteBodySplit(text);
    forall i | 0 <= i < |quoted| ensures StartsWith(quoted[i], ">") {
      QuotedLineShape(Split(text, '\n')[i]);
    }
    assert NodeToMarkdown(node) == body + "\n\n";
  }

  /** A quoted line starts with `>` and gains no newline. */
  lemma QuotedLineShape(line: string)
    requires '\n' !in line
    ensures '\n' !in QuoteLine(line) && StartsWith(QuoteLine(line), ">")
  {
    var q := QuoteLine(line);
    if line != "" {
      assert forall k :: 2 <= k < |q| ==> q[k] == line[k - 2];
      assert q[..1] == ">";
    }
  }

  /** The lines of a quote body are the quoted lines of the text. */
  lemma QuoteBodySplit(text: string)
    ensures Split(QuoteBody(text), '\n') == QuotedLines(Split(text, '\n'))
  {
    var lines := Split(text, '\n');
    var quoted := QuotedLines(lines);
    forall i | 0 <= i < |quoted| ensures '\n' !in quoted[i] {
      assert '\n' !in lines[i];
      QuotedLineShape(lines[i]);
    }
    SplitJoin(quoted, '\n');
  }

  /** A heading whose level attribute is the decimal string of `n` gets `n` marks,
      clamped to 1..6, as a numeric level would. */
  lemma HeadingLevelFromString(n: int)
    ensures HeadingHashes(Str(IntToString(n))) == (if n < 1 then 1 else if n > 6 then 6 else n)
    ensures HeadingHashes(Str(IntToString(n))) == HeadingHashes(Num(n))
  {
    NumberOfString(n);
  }

  /** Levels written as fractions, hexadecimal or with an exponent count as
      the number they spell, truncated; text that is no number gives no marks. */
  lemma HeadingLevelLiterals()
    ensures HeadingHashes(Str("2.5")) == 2
    ensures HeadingHashes(Str("0x2")) == 2
    ensures HeadingHashes(Str("1e1")) == 6
    ensures HeadingHashes(Str("-Infinity")) == 1
    ensures HeadingHashes(Str("two")) == 0
  {
    FractionLevel();
    LevelOfString("2.5");
    HexLevel();
    LevelOfString("0x2");
    ExponentLevel();
    LevelOfString("1e1");
    InfinityLevel();
    LevelOfString("-Infinity");
    WordLevel();
    LevelOfString("two");
  }

  lemma LevelOfString(u: string)
    ensures HeadingHashes(Str(u)) == HeadingOfNumber(StringToNumber(u))
  {
  }

  lemma FractionLevel()
    ensures StringToNumber("2.5") == Finite(2.5)
  {
    var u := "2.5";
    TrimOfTrimmed(u);
    NumberOfUnsigned(u);
    assert DigitRun(u, 1) == 1;
    assert DigitRun(u, 0) == 1;
    assert DigitRun(u, 3) == 3;
    assert DigitRun(u, 2) == 3;
    assert u[..1] + u[2..3] == "25";
    assert DecimalValue("25") == 25 by { assert "25"[..1] == "2"; assert "2"[..0] == ""; }
  }

  lemma HexLevel()
    ensures StringToNumber("0x2") == Finite(2.0)
  {
    var u := "0x2";
    TrimOfTrimmed(u);
    assert u[2..] == "2";
    assert RadixValue("2", 16) == 2 by { assert "2"[..0] == ""; }
  }

  lemma ExponentLevel()
    ensures StringToNumber("1e1") == Finite(10.0)
  {
    var u := "1e1";
    TrimOfTrimmed(u);
    NumberOfUnsigned(u);
    assert DigitRun(u, 1) == 1;
    assert DigitRun(u, 0) == 1;
    assert u[..1] == "1" && u[2..] == "1";
    assert DecimalValue("1") == 1 by { assert "1"[..0] == ""; }
    assert Pow10(1) == 10;
  }

  lemma InfinityLevel()
    ensures StringToNumber("-Infinity") == Infinite(true)
  {
    var u := "-Infinity";
    TrimOfTrimmed(u);
    NumberOfSigned(u);
    assert u[1..] == "Infinity";
  }

  lemma WordLevel()
    ensures StringToNumber("two") == NaN
  {
    var u := "two";
    TrimOfTrimmed(u);
    NumberOfUnsigned(u);
    assert DigitRun(u, 0) == 0;
  }

  /** `isMissingColumnError`: the message names the column (ignoring ASCII case) and
      the code is PostgreSQL's undefined-column code or PostgREST's unknown-column code. */
  predicate IsMissingColumnError(error: Option<StoreError>, column: string)
  {
    error.Some?
    && Contains(Lower(error.value.message), Lower(column))
    && (error.value.code == "42703" || error.value.code == "PGRST204")
  }

  /** `isLegacyJsonTypeError`: an invalid-text-representation error that mentions JSON. */
  predicate IsLegacyJsonTypeError(error: Option<StoreError>)
  {
    error.Some? && error.value.code == "22P02" && Contains(Lower(error.value.message), "json")
  }

  /** The unique-violation code the slug retries look for. */
  const UniqueViolation: string := "23505"

  /** The three error kinds the write paths tell apart never overlap, so the order in
      which they are tried does not matter. */
  lemma ErrorKindsDisjoint(error: Option<StoreError>, column: string)
    ensures !(IsMissingColumnError(error, column) && IsLegacyJsonTypeError(error))
    ensures IsMissingColumnError(error, column) ==> error.value.code != UniqueViolation
    ensures IsLegacyJsonTypeError(error) ==> error.value.code != UniqueViolation
  {
  }
}
