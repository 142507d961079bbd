/** The Markdown renderer of the blog (`src/components/blog/MarkdownRenderer.tsx`):
    the line-based block parser `renderMarkdown`, modelled as a parser from the text
    to a sequence of blocks, its helpers `parseCodeFenceInfo`, `parseTableRow` and
    `isTableSeparatorLine`, and the inline tokenizer `parseInline`, modelled as a
    parser to inline nodes. The URL checks (`sanitizeUrl` of the shortcodes and
    `safeUrl` of links) are parameters; React rendering is not modelled. */
module MarkdownRenderer {
  import opened Wrappers
  import opened JsText
  import Shortcodes

  // ---------------------------------------------------------------------------
  // Line classification
  // ---------------------------------------------------------------------------

  /** `content.replace(/\r\n?/g, '\n')`: CRLF and a lone CR both become LF. */
  function NormalizeNewlines(s: string): (r: string)
    ensures '\r' !in r
    ensures |r| <= |s|
    decreases |s|
  {
    if s == [] then []
    else if s[0] == '\r' then "\n" + NormalizeNewlines(if |s| > 1 && s[1] == '\n' then s[2..] else s[1..])
    else [s[0]] + NormalizeNewlines(s[1..])
  }

  /** Text without a carriage return passes through unchanged. */
  lemma {:induction false} NormalizeWithoutCR(s: string)
    requires '\r' !in s
    ensures NormalizeNewlines(s) == s
    decreases |s|
  {
    if s != [] {
      assert '\r' !in s[1..] by {
        assert forall k :: 0 <= k < |s[1..]| ==> s[1..][k] == s[k + 1];
      }
      NormalizeWithoutCR(s[1..]);
      assert [s[0]] + s[1..] == s;
    }
  }

  /** The lines `renderMarkdown` walks through. */
  function Lines(content: string): (lines: seq<string>)
    ensures |lines| >= 1
    ensures forall k :: 0 <= k < |lines| ==> '\n' !in lines[k] && '\r' !in lines[k]
    ensures Join(lines, "\n") == NormalizeNewlines(content)
  {
    var text := NormalizeNewlines(content);
    JoinSplit(text, '\n');
    var lines := Split(text, '\n');
    assert forall k :: 0 <= k < |lines| ==> '\r' !in lines[k] by {
      forall k | 0 <= k < |lines| ensures '\r' !in lines[k] {
        SplitAvoids(text, '\n', '\r', k);
      }
    }
    lines
  }

  /** A character the text does not hold is in none of its pieces. */
  lemma {:induction false} SplitAvoids(s: string, sep: char, c: char, k: nat)
    requires c !in s && k < |Split(s, sep)|
    ensures c !in Split(s, sep)[k]
    decreases |s|
  {
    if s != [] {
      assert c !in s[1..] by {
        assert forall j :: 0 <= j < |s[1..]| ==> s[1..][j] == s[j + 1];
      }
      var rest := Split(s[1..], sep);
      if s[0] == sep {
        if k > 0 {
          SplitAvoids(s[1..], sep, c, k - 1);
        }
      } else if k == 0 {
        SplitAvoids(s[1..], sep, c, 0);
      } else {
        SplitAvoids(s[1..], sep, c, k);
      }
    }
  }

  /** How many times `c` repeats at the start of `s`. */
  function Leading(s: string, c: char): (n: nat)
    ensures n <= |s|
    ensures forall k :: 0 <= k < n ==> s[k] == c
    ensures n < |s| ==> s[n] != c
    decreases |s|
  {
    if s != [] && s[0] == c then 1 + Leading(s[1..], c) else 0
  }

  /** How many ASCII digits open `s`. */
  function LeadingDigits(s: string): (n: nat)
    ensures n <= |s|
    ensures forall k :: 0 <= k < n ==> IsDigit(s[k])
    ensures n < |s| ==> !IsDigit(s[n])
    decreases |s|
  {
    if s != [] && IsDigit(s[0]) then 1 + LeadingDigits(s[1..]) else 0
  }

  /** How much white space opens `s`. */
  function LeadingSpace(s: string): (n: nat)
    ensures n <= |s|
    ensures forall k :: 0 <= k < n ==> IsSpace(s[k])
    ensures n < |s| ==> !IsSpace(s[n])
    decreases |s|
  {
    if s != [] && IsSpace(s[0]) then 1 + LeadingSpace(s[1..]) else 0
  }

  /** A line opening or closing a code fence. */
  predicate FenceLine(line: string)
  {
    StartsWith(line, "```")
  }

  /** `^(#{1,6})\s+(.+)$`: one to six `#`, white space, then at least one
      character, with no line terminator in what `.+` takes. The regular
      expression gives `\s+` back one character when nothing else follows. */
  function HeadingOf(line: string): (h: Option<(nat, string)>)
    ensures h.Some? ==> 1 <= h.value.0 <= 6 && h.value.1 != [] && NoLineTerminator(h.value.1)
    ensures h.Some? ==> Leading(line, '#') == h.value.0
  {
    var level := Leading(line, '#');
    if level < 1 || level > 6 then None
    else
      var rest := line[level..];
      var n := LeadingSpace(rest);
      if n == 0 then None
      else if n < |rest| then
        if NoLineTerminator(rest[n..]) then Some((level, rest[n..])) else None
      else if n >= 2 && !IsLineTerminator(rest[n - 1]) then Some((level, rest[n - 1..]))
      else None
  }

  /** A heading line is its `#` marks, white space, then the heading text. */
  lemma HeadingShape(line: string)
    requires HeadingOf(line).Some?
    ensures var (level, text) := HeadingOf(line).value;
            && level + |text| < |line| && EndsWith(line, text)
            && AllSpace(line[level..|line| - |text|])
            && HeadingStart(line)
  {
    var level := Leading(line, '#');
    var n := LeadingSpace(line[level..]);
    var m := if n < |line| - level then n else n - 1;
    HeadingTextAt(line, level, n, m);
    HeadingParts(line, level, m);
  }

  /** Where the heading text starts: after all the white space, or after all
      but the last character of it when nothing else follows. */
  lemma HeadingTextAt(line: string, level: nat, n: nat, m: nat)
    requires HeadingOf(line).Some?
    requires level == Leading(line, '#') && n == LeadingSpace(line[level..])
    requires m == if n < |line| - level then n else n - 1
    ensures 1 <= m && level + m < |line| && 1 <= level <= 6
    ensures HeadingOf(line).value == (level, line[level + m..])
    ensures AllSpace(line[level..level + m])
  {
    HeadingValue(line, level, n, m);
    SpacePrefix(line[level..], n, m);
    TailPieces(line, level, m);
  }

  lemma HeadingValue(line: string, level: nat, n: nat, m: nat)
    requires HeadingOf(line).Some?
    requires level == Leading(line, '#') && n == LeadingSpace(line[level..])
    requires m == if n < |line| - level then n else n - 1
    ensures 1 <= m <= n && level + m < |line| && 1 <= level <= 6
    ensures HeadingOf(line).value == (level, line[level..][m..])
  {
  }

  /** White space all the way to `n` is white space all the way to `m <= n`. */
  lemma SpacePrefix(s: string, n: nat, m: nat)
    requires m <= n <= |s| && forall k :: 0 <= k < n ==> IsSpace(s[k])
    ensures AllSpace(s[..m])
  {
    forall k | 0 <= k < m ensures IsSpace(s[..m][k]) {
      assert s[..m][k] == s[k];
    }
  }

  lemma TailPieces(s: string, a: nat, m: nat)
    requires a + m <= |s|
    ensures s[a..][m..] == s[a + m..] && s[a..][..m] == s[a..a + m]
  {
  }

  /** A line with white space from `level` to `level + m` and text after it. */
  lemma HeadingParts(line: string, level: nat, m: nat)
    requires 1 <= m && level + m < |line| && AllSpace(line[level..level + m])
    ensures var text := line[level + m..];
            && level + |text| < |line| && EndsWith(line, text)
            && AllSpace(line[level..|line| - |text|]) && IsSpace(line[level])
  {
    assert line[level..level + m][0] == line[level];
  }

  /** `^(#{1,6})\s+`, which ends a paragraph. */
  predicate HeadingStart(line: string)
  {
    var level := Leading(line, '#');
    1 <= level <= 6 && level < |line| && IsSpace(line[level])
  }

  /** `^>\s?(.*)$`: a quote line and the text it carries. */
  function QuoteOf(line: string): (q: Option<string>)
    ensures q.Some? ==> StartsWith(line, ">") && NoLineTerminator(q.value)
    ensures q.Some? ==> q.value == Unquoted(line)
  {
    if line == [] || line[0] != '>' then None
    else
      var rest := line[1..];
      if rest != [] && IsSpace(rest[0]) then
        if NoLineTerminator(rest[1..]) then Some(rest[1..]) else None
      else if NoLineTerminator(rest) then Some(rest) else None
  }

  /** `line.replace(/^>\s?/, '')`. */
  function Unquoted(line: string): string
  {
    if line != [] && line[0] == '>' then
      if |line| > 1 && IsSpace(line[1]) then line[2..] else line[1..]
    else line
  }

  /** `^[-*+]\s+`. */
  predicate BulletLine(line: string)
  {
    |line| >= 2 && (line[0] == '-' || line[0] == '*' || line[0] == '+') && IsSpace(line[1])
  }

  /** `line.replace(/^[-*+]\s+/, '')`. */
  function BulletItem(line: string): string
  {
    if BulletLine(line) then TrimStart(line[1..]) else line
  }

  /** `^\d+\.\s+`. */
  predicate NumberedLine(line: string)
  {
    var d := LeadingDigits(line);
    d >= 1 && d + 1 < |line| && line[d] == '.' && IsSpace(line[d + 1])
  }

  /** `line.replace(/^\d+\.\s+/, '')`. */
  function NumberedItem(line: string): string
  {
    if NumberedLine(line) then TrimStart(line[LeadingDigits(line) + 1..]) else line
  }

  // ---------------------------------------------------------------------------
  // `parseCodeFenceInfo`
  // ---------------------------------------------------------------------------

  datatype FenceInfo = FenceInfo(language: string, title: string)

  /** `s.split(/\s+/)[0]` for a string that does not start with white space:
      everything before the first white-space character. */
  function FirstWord(s: string): (w: string)
    ensures StartsWith(s, w)
    ensures forall k :: 0 <= k < |w| ==> !IsSpace(w[k])
    ensures |w| < |s| ==> IsSpace(s[|w|])
    decreases |s|
  {
    if s == [] || IsSpace(s[0]) then []
    else [s[0]] + FirstWord(s[1..])
  }

  /** The alternation `title=(?:"([^"]+)"|'([^']+)')` tried at position `p`: the
      text between the quotes, when one of the two alternatives matches there. */
  function TitleAt(s: string, p: nat): (t: Option<string>)
    ensures t.Some? ==> p + 7 < |s| && t.value != []
    ensures t.Some? ==> exists q :: (q == '"' || q == '\'') && q !in t.value
                                   && StartsWith(s[p..], "title=" + [q] + t.value + [q])
  {
    if p + 7 > |s| || s[p..p + 6] != "title=" || (s[p + 6] != '"' && s[p + 6] != '\'') then None
    else
      var q := s[p + 6];
      var close := IndexOfChar(s, q, p + 7);
      if close <= p + 7 then None
      else
        var t := s[p + 7..close];
        assert s[p..][..|"title=" + [q] + t + [q]|] == "title=" + [q] + t + [q] by {
          assert s[p..close + 1] == s[p..p + 6] + [s[p + 6]] + s[p + 7..close] + [s[close]];
        }
        Some(t)
  }

  /** A `title="…"` or `title='…'` written at `p` is what `TitleAt` finds there. */
  lemma TitleAtOf(s: string, p: nat, q: char, t: string)
    requires q == '"' || q == '\''
    requires t != [] && q !in t && p <= |s|
    requires StartsWith(s[p..], "title=" + [q] + t + [q])
    ensures TitleAt(s, p) == Some(t)
  {
    var w := "title=" + [q] + t + [q];
    assert s[p..p + |w|] == w;
    assert s[p..p + 6] == w[..6];
    assert s[p + 6] == q;
    assert forall k :: p + 7 <= k < p + 7 + |t| ==> s[k] == t[k - p - 7];
    assert s[p + 7 + |t|] == q;
    assert s[p + 7..p + 7 + |t|] == t;
  }

  /** The leftmost match of the title pattern at or after `p`. */
  function FindTitle(s: string, p: nat): (r: Option<(nat, string)>)
    ensures r.Some? ==> p <= r.value.0 <= |s| && TitleAt(s, r.value.0) == Some(r.value.1)
    ensures r.Some? ==> forall k :: p <= k < r.value.0 ==> TitleAt(s, k).None?
    ensures r.None? ==> forall k :: p <= k <= |s| ==> TitleAt(s, k).None?
    decreases |s| - p
  {
    if p > |s| then None
    else if TitleAt(s, p).Some? then Some((p, TitleAt(s, p).value))
    else FindTitle(s, p + 1)
  }

  /** `parseCodeFenceInfo`: the language is the first word of the trimmed info,
      the title the text of the leftmost `title="…"` or `title='…'`, both empty
      for blank info. */
  function ParseFenceInfo(info: string): (r: FenceInfo)
    ensures Trim(info) == [] ==> r == FenceInfo("", "")
    ensures Trim(info) != [] ==> r.language != [] && StartsWith(Trim(info), r.language)
    ensures forall k :: 0 <= k < |r.language| ==> !IsSpace(r.language[k])
    ensures |r.language| < |Trim(info)| ==> IsSpace(Trim(info)[|r.language|])
    ensures r.title != [] ==> exists p :: FindTitle(Trim(info), 0) == Some((p, r.title))
    ensures FindTitle(Trim(info), 0).None? ==> r.title == []
  {
    var trimmed := Trim(info);
    if trimmed == [] then FenceInfo("", "")
    else
      TrimSpec(info);
      var language := FirstWord(trimmed);
      var title := match FindTitle(trimmed, 0) case Some(m) => m.1 case None => "";
      FenceInfo(language, title)
  }

  // ---------------------------------------------------------------------------
  // `parseTableRow` and `isTableSeparatorLine`
  // ---------------------------------------------------------------------------

  /** The trimmed line with at most one `|` taken off each end. */
  function RowText(line: string): string
  {
    DropTrailingBar(DropLeadingBar(Trim(line)))
  }

  function DropLeadingBar(t: string): (a: string)
    ensures t == a || t == "|" + a
  {
    if StartsWith(t, "|") then
      assert t == t[..1] + t[1..];
      t[1..]
    else t
  }

  function DropTrailingBar(a: string): (r: string)
    ensures a == r || a == r + "|"
  {
    if EndsWith(a, "|") then
      assert a == a[..|a| - 1] + a[|a| - 1..];
      a[..|a| - 1]
    else a
  }

  /** `parseTableRow` strips at most one leading and one trailing bar. */
  lemma RowTextShape(line: string)
    ensures var t, r := Trim(line), RowText(line);
            t == r || t == "|" + r || t == r + "|" || t == "|" + r + "|"
  {
    var t := Trim(line);
    var a := DropLeadingBar(t);
    var r := DropTrailingBar(a);
    if t != a && a != r {
      Regroup3("|", r, "|");
    }
  }

  /** `.map((cell) => cell.trim())`. */
  function TrimCells(cells: seq<string>): (r: seq<string>)
    ensures |r| == |cells| && forall k :: 0 <= k < |cells| ==> r[k] == Trim(cells[k])
  {
    seq(|cells|, k requires 0 <= k < |cells| => Trim(cells[k]))
  }

  /** `parseTableRow`: the trimmed pieces between the bars of `RowText`. */
  function TableRow(line: string): (cells: seq<string>)
    ensures |cells| >= 1
  {
    TrimCells(Split(RowText(line), '|'))
  }

  /** What `trim` leaves is trimmed and holds only characters of its input. */
  lemma TrimInside(s: string, c: char)
    requires c !in s
    ensures Trimmed(Trim(s)) && c !in Trim(s)
  {
    TrimIsTrimmed(s);
    TrimKeepsOut(s, c);
  }

  /** A row is never an empty list; each cell is trimmed and holds no `|`. */
  lemma TableRowShape(line: string)
    ensures forall k :: 0 <= k < |TableRow(line)| ==> Trimmed(TableRow(line)[k]) && '|' !in TableRow(line)[k]
  {
    var pieces := Split(RowText(line), '|');
    var cells := TableRow(line);
    assert cells == TrimCells(pieces);
    forall k | 0 <= k < |cells| ensures Trimmed(cells[k]) && '|' !in cells[k] {
      TrimInside(pieces[k], '|');
    }
  }

  /** `cell.replace(/\s+/g, '')`. */
  function RemoveSpaces(s: string): (r: string)
    ensures forall k :: 0 <= k < |r| ==> !IsSpace(r[k])
    decreases |s|
  {
    if s == [] then []
    else if IsSpace(s[0]) then RemoveSpaces(s[1..])
    else [s[0]] + RemoveSpaces(s[1..])
  }

  predicate AllDashes(s: string)
  {
    forall k :: 0 <= k < |s| ==> s[k] == '-'
  }

  /** `/^:?-{3,}:?$/` on the cell with its white space removed. */
  predicate SeparatorCell(cell: string)
  {
    var b := StripColons(RemoveSpaces(cell));
    |b| >= 3 && AllDashes(b)
  }

  /** What `:?` takes off each end. */
  function StripColons(d: string): string
  {
    var a := if StartsWith(d, ":") then d[1..] else d;
    if EndsWith(a, ":") then a[..|a| - 1] else a
  }

  /** Every written alignment cell is a separator cell. */
  lemma SeparatorCellOf(left: bool, dashes: nat, right: bool)
    requires dashes >= 3
    ensures SeparatorCell((if left then ":" else "") + seq(dashes, _ => '-') + (if right then ":" else ""))
  {
    var dash := seq(dashes, _ => '-');
    var cell := (if left then ":" else "") + dash + (if right then ":" else "");
    WrittenCell(left, dash, right);
    NoSpaces(cell);
  }

  /** The cell without its colons is the run of dashes. */
  lemma WrittenCell(left: bool, dash: string, right: bool)
    requires dash != [] && forall k :: 0 <= k < |dash| ==> dash[k] == '-'
    ensures var cell := (if left then ":" else "") + dash + (if right then ":" else "");
            && StripColons(cell) == dash
            && forall k :: 0 <= k < |cell| ==> !IsSpace(cell[k])
  {
    var a := dash + (if right then ":" else "");
    var lead := if left then ":" else "";
    Regroup3(lead, dash, if right then ":" else "");
    CellHasNoSpace(left, a);
    LeadColon(a, left);
    TrailColon(dash, right);
  }

  lemma Regroup3(x: string, y: string, z: string)
    ensures x + y + z == x + (y + z)
  {
  }

  /** A written alignment cell holds only `:` and `-`. */
  lemma CellHasNoSpace(left: bool, a: string)
    requires forall k :: 0 <= k < |a| ==> a[k] == '-' || a[k] == ':'
    ensures var cell := (if left then ":" else "") + a;
            forall k :: 0 <= k < |cell| ==> !IsSpace(cell[k])
  {
  }

  /** Dropping the optional `:` before a run that starts with `-`. */
  lemma LeadColon(a: string, left: bool)
    requires a != [] && a[0] == '-'
    ensures var c := (if left then ":" else "") + a;
            (if StartsWith(c, ":") then c[1..] else c) == a
  {
    var c := (if left then ":" else "") + a;
    if left {
      assert c[..1] == ":";
      assert c[1..] == a;
    } else {
      assert c[0] == '-';
    }
  }

  /** Dropping the optional `:` after a run that ends with `-`. */
  lemma TrailColon(b: string, right: bool)
    requires b != [] && b[|b| - 1] == '-'
    ensures var a := b + (if right then ":" else "");
            (if EndsWith(a, ":") then a[..|a| - 1] else a) == b
  {
    var a := b + (if right then ":" else "");
    if right {
      assert a[|a| - 1..] == ":";
      assert a[..|a| - 1] == b;
    } else {
      assert a[|a| - 1] == '-';
    }
  }

  lemma {:induction false} NoSpaces(s: string)
    requires forall k :: 0 <= k < |s| ==> !IsSpace(s[k])
    ensures RemoveSpaces(s) == s
    decreases |s|
  {
    if s != [] {
      NoSpaces(s[1..]);
      assert [s[0]] + s[1..] == s;
    }
  }

  /** `isTableSeparatorLine`: every cell of the row is a separator cell. The
      source's `cells.length === 0` test never fires, since a row always has a
      cell. */
  predicate SeparatorLine(line: string)
  {
    var cells := TableRow(line);
    forall k :: 0 <= k < |cells| ==> SeparatorCell(cells[k])
  }

  /** A table starts at line `k` when it holds a `|` and the next line is a
      separator line. */
  predicate TableStart(lines: seq<string>, k: nat)
    requires k < |lines|
  {
    k + 1 < |lines| && '|' in lines[k] && SeparatorLine(lines[k + 1])
  }

  /** A body row padded with `''` or cut to the header's width. */
  function Fit(row: seq<string>, width: nat): (r: seq<string>)
    ensures |r| == width
    ensures forall k :: 0 <= k < width ==> r[k] == if k < |row| then row[k] else ""
  {
    if |row| >= width then row[..width] else row + seq(width - |row|, _ => "")
  }

  /** Every row fitted to the header's width. */
  function Fitted(rows: seq<seq<string>>, width: nat): (r: seq<seq<string>>)
    ensures |r| == |rows|
    ensures forall k :: 0 <= k < |r| ==> |r[k]| == width
  {
    seq(|rows|, k requires 0 <= k < |rows| => Fit(rows[k], width))
  }

  // ---------------------------------------------------------------------------
  // Blocks
  // ---------------------------------------------------------------------------

  datatype Block =
    | CodeBlock(language: string, title: string, code: string)
    | Diagram(code: string)
    | Media(shortcode: Shortcodes.Shortcode)
    | Table(header: seq<string>, rows: seq<seq<string>>)
    | Heading(level: nat, text: string)
    | Quote(lines: seq<string>)
    | BulletList(items: seq<string>)
    | OrderedList(items: seq<string>)
    | Paragraph(text: string)

  // Each inner loop of `renderMarkdown` collects a run of lines that satisfy
  // its condition; `Flags` holds that condition for every line.

  /** Whether each line satisfies `goesOn`. */
  function Flags(lines: seq<string>, goesOn: string -> bool): (f: seq<bool>)
    ensures |f| == |lines| && forall k :: 0 <= k < |lines| ==> f[k] == goesOn(lines[k])
  {
    seq(|lines|, k requires 0 <= k < |lines| => goesOn(lines[k]))
  }

  /** What `item` makes of each of the lines `from` up to `to`, in order. */
  function Items<T>(lines: seq<string>, from: nat, to: nat, item: string -> T): (r: seq<T>)
    requires from <= to <= |lines|
    ensures |r| == to - from && forall k :: 0 <= k < |r| ==> r[k] == item(lines[from + k])
  {
    seq(to - from, k requires 0 <= k < to - from => item(lines[from + k]))
  }

  /** One more line adds its item at the end. */
  lemma ItemsGrow<T>(lines: seq<string>, from: nat, to: nat, item: string -> T)
    requires from <= to < |lines|
    ensures Items(lines, from, to + 1, item) == Items(lines, from, to, item) + [item(lines[to])]
  {
  }

  /** A code line is taken as it is. */
  function Verbatim(line: string): string
  {
    line
  }

  /** The code lines are the lines themselves. */
  lemma ItemsVerbatim(lines: seq<string>, from: nat, to: nat)
    requires from <= to <= |lines|
    ensures Items(lines, from, to, Verbatim) == lines[from..to]
  {
  }

  /** A line that continues a code fence: anything but a fence line. */
  predicate CodeLine(line: string)
  {
    !FenceLine(line)
  }

  /** `lines[i].trim() && lines[i].includes('|') && !isTableSeparatorLine(lines[i])`. */
  predicate TableBodyLine(line: string)
  {
    NotBlank(line) && '|' in line && !SeparatorLine(line)
  }

  /** A line that continues a quote. */
  predicate QuoteLine(line: string)
  {
    QuoteOf(line).Some?
  }

  /** The paragraph loop goes on through a line that is not blank, not a fence,
      not a shortcode, not a table start, not a heading, not a quote and not a list
      item. */
  predicate ParagraphGoesOn(lines: seq<string>, k: nat, parse: string -> Option<Shortcodes.Shortcode>)
    requires k < |lines|
  {
    var line := lines[k];
    NotBlank(line) && !FenceLine(line) && parse(line).None?
    && !TableStart(lines, k) && !HeadingStart(line) && !StartsWith(line, ">")
    && !BulletLine(line) && !NumberedLine(line)
  }

  /** Lines that continue a paragraph. */
  function ParagraphLines(lines: seq<string>, parse: string -> Option<Shortcodes.Shortcode>): (f: seq<bool>)
    ensures |f| == |lines|
  {
    seq(|lines|, k requires 0 <= k < |lines| => ParagraphGoesOn(lines, k, parse))
  }

  /** Where a run that may start at `j` ends: the first line from `j` on that does
      not go on, or the end of the text. */
  function Until(goesOn: seq<bool>, j: nat): (e: nat)
    requires j <= |goesOn|
    ensures j <= e <= |goesOn|
    ensures forall k :: j <= k < e ==> goesOn[k]
    ensures e < |goesOn| ==> !goesOn[e]
    decreases |goesOn| - j
  {
    if j == |goesOn| || !goesOn[j] then j else Until(goesOn, j + 1)
  }

  /** One step of the outer loop: the block it pushes, if any, and where it
      continues. */
  datatype Step = Step(block: Option<Block>, next: nat)

  /** A code fence: the lines up to the closing fence, or to the end of the text
      when the fence is never closed; `mermaid` in any letter case makes a
      diagram. */
  function FenceStep(lines: seq<string>, i: nat): (s: Step)
    requires i < |lines| && FenceLine(lines[i])
    ensures i < s.next <= |lines|
    ensures s.block.Some? && (s.block.value.Diagram? || s.block.value.CodeBlock?)
  {
    var e := Until(Flags(lines, CodeLine), i + 1);
    Step(Some(FenceBlock(lines[i], Join(lines[i + 1..e], "\n"))), if e < |lines| then e + 1 else e)
  }

  /** The block a fence makes of its code: a diagram when the language is
      `mermaid` in any letter case, a code block with the language and title of
      the opening line otherwise. */
  function FenceBlock(opening: string, code: string): (b: Block)
    requires |opening| >= 3
    ensures (b.Diagram? || b.CodeBlock?) && b.code == code
    ensures var info := ParseFenceInfo(Trim(opening[3..]));
            && (b.Diagram? <==> Lower(info.language) == "mermaid")
            && (b.CodeBlock? ==> b.language == info.language && b.title == info.title)
  {
    var info := ParseFenceInfo(Trim(opening[3..]));
    if Lower(info.language) == "mermaid" then Diagram(code) else CodeBlock(info.language, info.title, code)
  }

  /** A table: the header row, then the body rows up to the first blank line,
      line without `|` or separator line, each fitted to the header's width. */
  function TableStep(lines: seq<string>, i: nat): (s: Step)
    requires i < |lines| && TableStart(lines, i)
    ensures i < s.next <= |lines|
    ensures s.block.Some? && s.block.value.Table?
  {
    var header := TableRow(lines[i]);
    var e := Until(Flags(lines, TableBodyLine), i + 2);
    Step(Some(Table(header, Fitted(Items(lines, i + 2, e, TableRow), |header|))), e)
  }

  /** A quote: its first line and every quote line after it. */
  function QuoteStep(lines: seq<string>, i: nat): (s: Step)
    requires i < |lines| && QuoteOf(lines[i]).Some?
    ensures i < s.next <= |lines|
    ensures s.block.Some? && s.block.value.Quote?
  {
    var e := Until(Flags(lines, QuoteLine), i + 1);
    Step(Some(Quote([QuoteOf(lines[i]).value] + Items(lines, i + 1, e, Unquoted))), e)
  }

  /** A bullet list: the items of the list lines from `i` on. */
  function BulletStep(lines: seq<string>, i: nat): (s: Step)
    requires i < |lines| && BulletLine(lines[i])
    ensures i < s.next <= |lines|
    ensures s.block.Some? && s.block.value.BulletList?
  {
    var e := Until(Flags(lines, BulletLine), i);
    Step(Some(BulletList(Items(lines, i, e, BulletItem))), e)
  }

  /** A numbered list: the items of the numbered lines from `i` on. */
  function NumberedStep(lines: seq<string>, i: nat): (s: Step)
    requires i < |lines| && NumberedLine(lines[i])
    ensures i < s.next <= |lines|
    ensures s.block.Some? && s.block.value.OrderedList?
  {
    var e := Until(Flags(lines, NumberedLine), i);
    Step(Some(OrderedList(Items(lines, i, e, NumberedItem))), e)
  }

  /** A paragraph: line `i` and the lines that go on after it, joined with one
      space. */
  function ParagraphStep(lines: seq<string>, i: nat, parse: string -> Option<Shortcodes.Shortcode>): (s: Step)
    requires i < |lines|
    ensures i < s.next <= |lines|
    ensures s.block.Some? && s.block.value.Paragraph?
  {
    var e := Until(ParagraphLines(lines, parse), i + 1);
    Step(Some(Paragraph(Join(lines[i..e], " "))), e)
  }

  /** One pass of the outer loop, in the source's order of tests. Every branch
      moves past line `i`, which is why the loop ends. */
  function Next(lines: seq<string>, i: nat, parse: string -> Option<Shortcodes.Shortcode>): (s: Step)
    requires i < |lines|
    ensures i < s.next <= |lines|
  {
    var line := lines[i];
    if !NotBlank(line) then Step(None, i + 1)
    else if FenceLine(line) then FenceStep(lines, i)
    else if parse(line).Some? then
      Step(Some(Media(parse(line).value)), i + 1)
    else if TableStart(lines, i) then TableStep(lines, i)
    else if HeadingOf(line).Some? then
      Step(Some(Heading(HeadingOf(line).value.0, HeadingOf(line).value.1)), i + 1)
    else if QuoteOf(line).Some? then QuoteStep(lines, i)
    else if BulletLine(line) then BulletStep(lines, i)
    else if NumberedLine(line) then NumberedStep(lines, i)
    else ParagraphStep(lines, i, parse)
  }

  /** The blocks of the lines from `i` on. */
  function Render(lines: seq<string>, i: nat, parse: string -> Option<Shortcodes.Shortcode>): seq<Block>
    requires i <= |lines|
    decreases |lines| - i
  {
    if i == |lines| then []
    else
      var s := Next(lines, i, parse);
      (if s.block.Some? then [s.block.value] else []) + Render(lines, s.next, parse)
  }

  /** One turn of the outer loop: the block found at `i`, then the rest. */
  lemma RenderStep(lines: seq<string>, i: nat, parse: string -> Option<Shortcodes.Shortcode>, block: Option<Block>, next: nat)
    requires i < |lines| && Step(block, next) == Next(lines, i, parse)
    ensures i < next <= |lines|
    ensures Render(lines, i, parse) == (if block.Some? then [block.value] else []) + Render(lines, next, parse)
  {
  }

  /** `parseShortcodeLine` with the URL check the renderer passes it. */
  function ShortcodeParser(sanitize: string -> Option<string>): string -> Option<Shortcodes.Shortcode>
  {
    line => Shortcodes.ParseShortcodeLine(line, sanitize)
  }

  /** `renderMarkdown(content)`. */
  function RenderContent(content: string, sanitize: string -> Option<string>): seq<Block>
  {
    Render(Lines(content), 0, ShortcodeParser(sanitize))
  }

  // ---------------------------------------------------------------------------
  // Properties of the block parser
  // ---------------------------------------------------------------------------

  /** `Until` is the one end that the run's description allows. */
  lemma {:induction false} UntilAt(goesOn: seq<bool>, j: nat, e: nat)
    requires j <= e <= |goesOn|
    requires forall k :: j <= k < e ==> goesOn[k]
    requires e < |goesOn| ==> !goesOn[e]
    ensures Until(goesOn, j) == e
    decreases e - j
  {
    if j < e {
      UntilAt(goesOn, j + 1, e);
    }
  }

  /** A run that goes on through `j` ends where the run from `j + 1` ends. */
  lemma UntilStep(goesOn: seq<bool>, j: nat)
    requires j < |goesOn| && goesOn[j]
    ensures Until(goesOn, j) == Until(goesOn, j + 1)
  {
  }

  /** A fence that is never closed takes every remaining line as code. */
  lemma UnclosedFence(lines: seq<string>, i: nat)
    requires i < |lines| && FenceLine(lines[i])
    requires forall k :: i < k < |lines| ==> !FenceLine(lines[k])
    ensures FenceStep(lines, i).next == |lines|
    ensures FenceStep(lines, i).block.value.code == Join(lines[i + 1..], "\n")
  {
    UntilAt(Flags(lines, CodeLine), i + 1, |lines|);
    assert lines[i + 1..|lines|] == lines[i + 1..];
  }

  /** A closed fence ends just after its closing line and keeps the lines between
      as code. */
  lemma ClosedFence(lines: seq<string>, i: nat, close: nat)
    requires i < close < |lines| && FenceLine(lines[i]) && FenceLine(lines[close])
    requires forall k :: i < k < close ==> !FenceLine(lines[k])
    ensures FenceStep(lines, i) == Step(Some(FenceBlock(lines[i], Join(lines[i + 1..close], "\n"))), close + 1)
  {
    CodeRun(lines, i, close);
    FenceStepAt(lines, i, close);
  }

  /** The code lines after an opening fence run up to the next fence line. */
  lemma CodeRun(lines: seq<string>, i: nat, close: nat)
    requires i < close < |lines| && FenceLine(lines[close])
    requires forall k :: i < k < close ==> !FenceLine(lines[k])
    ensures Until(Flags(lines, CodeLine), i + 1) == close
  {
    var goesOn := Flags(lines, CodeLine);
    forall k | i + 1 <= k < close ensures goesOn[k] {
    }
    UntilAt(goesOn, i + 1, close);
  }

  /** `FenceStep` once the end of its code lines is known. */
  lemma FenceStepAt(lines: seq<string>, i: nat, e: nat)
    requires i < |lines| && FenceLine(lines[i]) && e == Until(Flags(lines, CodeLine), i + 1)
    ensures FenceStep(lines, i) == Step(Some(FenceBlock(lines[i], Join(lines[i + 1..e], "\n"))), if e < |lines| then e + 1 else e)
  {
  }

  /** A table has a header cell and every body row exactly as many cells as
      the header. */
  predicate Rectangular(b: Block)
  {
    b.Table? ==> |b.header| >= 1 && forall r :: r in b.rows ==> |r| == |b.header|
  }

  /** Every table the renderer makes is rectangular. */
  lemma {:induction false} TablesRectangular(lines: seq<string>, i: nat, parse: string -> Option<Shortcodes.Shortcode>)
    requires i <= |lines|
    ensures forall b :: b in Render(lines, i, parse) ==> Rectangular(b)
    decreases |lines| - i
  {
    if i < |lines| {
      var s := Next(lines, i, parse);
      RenderStep(lines, i, parse, s.block, s.next);
      NextRectangular(lines, i, parse, s);
      TablesRectangular(lines, s.next, parse);
    }
  }

  /** The block of one step is rectangular. */
  lemma NextRectangular(lines: seq<string>, i: nat, parse: string -> Option<Shortcodes.Shortcode>, s: Step)
    requires i < |lines| && s == Next(lines, i, parse)
    ensures s.block.Some? ==> Rectangular(s.block.value)
  {
    var line := lines[i];
    if !NotBlank(line) || FenceLine(line) || parse(line).Some? {
    } else if TableStart(lines, i) {
      TableRectangular(lines, i);
    } else if HeadingOf(line).Some? {
    } else if QuoteOf(line).Some? {
    } else if BulletLine(line) || NumberedLine(line) {
    } else {
      assert s == ParagraphStep(lines, i, parse);
    }
  }

  lemma TableRectangular(lines: seq<string>, i: nat)
    requires i < |lines| && TableStart(lines, i)
    ensures Rectangular(TableStep(lines, i).block.value)
  {
    var b := TableStep(lines, i).block.value;
    forall r | r in b.rows ensures |r| == |b.header| {
    }
  }

  /** A paragraph starts only at a line that every earlier test of the outer
      loop turned down. */
  lemma ParagraphStart(lines: seq<string>, i: nat, parse: string -> Option<Shortcodes.Shortcode>)
    requires i < |lines| && Next(lines, i, parse).block.Some? && Next(lines, i, parse).block.value.Paragraph?
    ensures var line := lines[i];
            && NotBlank(line) && !FenceLine(line) && parse(line).None? && !TableStart(lines, i)
            && HeadingOf(line).None? && QuoteOf(line).None? && !BulletLine(line) && !NumberedLine(line)
    ensures Next(lines, i, parse) == ParagraphStep(lines, i, parse)
  {
  }

  /** A paragraph is its first line and the lines that go on after it, joined
      with single spaces; it stops at the first line that is blank, a fence, a
      shortcode, a table start, a heading, a quote or a list line. */
  lemma ParagraphExtent(lines: seq<string>, i: nat, parse: string -> Option<Shortcodes.Shortcode>)
    requires i < |lines|
    ensures var s := ParagraphStep(lines, i, parse);
            && s.block == Some(Paragraph(Join(lines[i..s.next], " ")))
            && (forall k :: i < k < s.next ==> ParagraphGoesOn(lines, k, parse))
            && (s.next < |lines| ==> !ParagraphGoesOn(lines, s.next, parse))
  {
    var goesOn := ParagraphLines(lines, parse);
    var e := Until(goesOn, i + 1);
    forall k | i < k < e ensures ParagraphGoesOn(lines, k, parse) {
      assert goesOn[k];
    }
    if e < |lines| {
      assert !goesOn[e];
    }
  }

  // ---------------------------------------------------------------------------
  // `renderMarkdown` as the source runs it
  // ---------------------------------------------------------------------------

  /** `TableStep` once the end of the body is known. */
  lemma TableStepAt(lines: seq<string>, i: nat, e: nat)
    requires i < |lines| && TableStart(lines, i) && e == Until(Flags(lines, TableBodyLine), i + 2)
    ensures TableStep(lines, i) == Step(Some(Table(TableRow(lines[i]), Fitted(Items(lines, i + 2, e, TableRow), |TableRow(lines[i])|))), e)
  {
  }

  /** `QuoteStep` once the end of the quote is known. */
  lemma QuoteStepAt(lines: seq<string>, i: nat, e: nat)
    requires i < |lines| && QuoteOf(lines[i]).Some? && e == Until(Flags(lines, QuoteLine), i + 1)
    ensures QuoteStep(lines, i) == Step(Some(Quote([QuoteOf(lines[i]).value] + Items(lines, i + 1, e, Unquoted))), e)
  {
  }

  /** `BulletStep` once the end of the list is known. */
  lemma BulletStepAt(lines: seq<string>, i: nat, e: nat)
    requires i < |lines| && BulletLine(lines[i]) && e == Until(Flags(lines, BulletLine), i)
    ensures BulletStep(lines, i) == Step(Some(BulletList(Items(lines, i, e, BulletItem))), e)
  {
  }

  /** `NumberedStep` once the end of the list is known. */
  lemma NumberedStepAt(lines: seq<string>, i: nat, e: nat)
    requires i < |lines| && NumberedLine(lines[i]) && e == Until(Flags(lines, NumberedLine), i)
    ensures NumberedStep(lines, i) == Step(Some(OrderedList(Items(lines, i, e, NumberedItem))), e)
  {
  }

  /** `ParagraphStep` once the end of the paragraph is known. */
  lemma ParagraphStepAt(lines: seq<string>, i: nat, parse: string -> Option<Shortcodes.Shortcode>, e: nat)
    requires i < |lines| && e == Until(ParagraphLines(lines, parse), i + 1)
    ensures ParagraphStep(lines, i, parse) == Step(Some(Paragraph(Join(lines[i..e], " "))), e)
  {
  }

  /** The inner loops of `renderMarkdown`: from line `from`, push what `item`
      makes of each line while `goesOn` holds. */
  method Collect<T>(lines: seq<string>, from: nat, goesOn: string -> bool, item: string -> T)
    returns (items: seq<T>, end: nat)
    requires from <= |lines|
    ensures end == Until(Flags(lines, goesOn), from)
    ensures items == Items(lines, from, end, item)
  {
    ghost var e := Until(Flags(lines, goesOn), from);
    items := [];
    end := from;
    while end < |lines| && goesOn(lines[end])
      invariant from <= end <= |lines|
      invariant items == Items(lines, from, end, item)
      invariant Until(Flags(lines, goesOn), end) == e
      decreases |lines| - end
    {
      UntilStep(Flags(lines, goesOn), end);
      ItemsGrow(lines, from, end, item);
      items := items + [item(lines[end])];
      end := end + 1;
    }
    UntilAt(Flags(lines, goesOn), end, end);
  }

  /** The fence branch: collects code lines up to the closing fence and skips
      the closing fence, if any. */
  method ReadFence(lines: seq<string>, i: nat) returns (block: Block, next: nat)
    requires i < |lines| && FenceLine(lines[i])
    ensures Step(Some(block), next) == FenceStep(lines, i)
  {
    var codeLines;
    codeLines, next := Collect(lines, i + 1, CodeLine, Verbatim);
    ItemsVerbatim(lines, i + 1, next);
    FenceStepAt(lines, i, next);
    block := FenceBlock(lines[i], Join(codeLines, "\n"));
    if next < |lines| && FenceLine(lines[next]) {
      next := next + 1;
    }
  }

  /** The table branch: collects body rows, then fits them to the header. */
  method ReadTable(lines: seq<string>, i: nat) returns (block: Block, next: nat)
    requires i < |lines| && TableStart(lines, i)
    ensures Step(Some(block), next) == TableStep(lines, i)
  {
    var header := TableRow(lines[i]);
    var rows;
    rows, next := Collect(lines, i + 2, TableBodyLine, TableRow);
    TableStepAt(lines, i, next);
    block := Table(header, Fitted(rows, |header|));
  }

  /** The quote branch. */
  method ReadQuote(lines: seq<string>, i: nat) returns (block: Block, next: nat)
    requires i < |lines| && QuoteOf(lines[i]).Some?
    ensures Step(Some(block), next) == QuoteStep(lines, i)
  {
    var first := QuoteOf(lines[i]).value;
    var rest;
    rest, next := Collect(lines, i + 1, QuoteLine, Unquoted);
    QuoteStepAt(lines, i, next);
    block := Quote([first] + rest);
  }

  /** The bullet-list branch. */
  method ReadBullets(lines: seq<string>, i: nat) returns (block: Block, next: nat)
    requires i < |lines| && BulletLine(lines[i])
    ensures Step(Some(block), next) == BulletStep(lines, i)
  {
    var items;
    items, next := Collect(lines, i, BulletLine, BulletItem);
    BulletStepAt(lines, i, next);
    block := BulletList(items);
  }

  /** The numbered-list branch. */
  method ReadNumbered(lines: seq<string>, i: nat) returns (block: Block, next: nat)
    requires i < |lines| && NumberedLine(lines[i])
    ensures Step(Some(block), next) == NumberedStep(lines, i)
  {
    var items;
    items, next := Collect(lines, i, NumberedLine, NumberedItem);
    NumberedStepAt(lines, i, next);
    block := OrderedList(items);
  }

  /** The `break`s of the paragraph loop, tried in the source's order on a line
      that is neither blank nor a fence: whether line `k` ends the paragraph. */
  method ParagraphBreaks(lines: seq<string>, k: nat, parse: string -> Option<Shortcodes.Shortcode>) returns (stop: bool)
    requires k < |lines| && NotBlank(lines[k]) && !FenceLine(lines[k])
    ensures stop == !ParagraphLines(lines, parse)[k]
  {
    var line := lines[k];
    if parse(line).Some? { return true; }
    if k + 1 < |lines| && '|' in line && SeparatorLine(lines[k + 1]) { return true; }
    if HeadingStart(line) { return true; }
    if StartsWith(line, ">") { return true; }
    if BulletLine(line) { return true; }
    if NumberedLine(line) { return true; }
    return false;
  }

  /** A blank line or a fence line ends a paragraph. */
  lemma ParagraphEnds(lines: seq<string>, k: nat, parse: string -> Option<Shortcodes.Shortcode>)
    requires k < |lines| && (!NotBlank(lines[k]) || FenceLine(lines[k]))
    ensures !ParagraphLines(lines, parse)[k]
  {
  }

  lemma LinesGrow(lines: seq<string>, i: nat, next: nat)
    requires i <= next < |lines|
    ensures lines[i..next + 1] == lines[i..next] + [lines[next]]
  {
  }

  /** The paragraph branch: joins lines until the loop's condition or one of its
      `break`s stops it. */
  method ReadParagraph(lines: seq<string>, i: nat, parse: string -> Option<Shortcodes.Shortcode>) returns (block: Block, next: nat)
    requires i < |lines|
    ensures Step(Some(block), next) == ParagraphStep(lines, i, parse)
  {
    ghost var goesOn := ParagraphLines(lines, parse);
    ghost var e := Until(goesOn, i + 1);
    var paragraphLines := [lines[i]];
    next := i + 1;
    while next < |lines| && NotBlank(lines[next]) && !FenceLine(lines[next])
      invariant i + 1 <= next <= |lines|
      invariant paragraphLines == lines[i..next]
      invariant Until(goesOn, next) == e
      decreases |lines| - next
    {
      var stop := ParagraphBreaks(lines, next, parse);
      if stop {
        UntilAt(goesOn, next, next);
        break;
      }
      UntilStep(goesOn, next);
      LinesGrow(lines, i, next);
      paragraphLines := paragraphLines + [lines[next]];
      next := next + 1;
    }
    if next < |lines| && (!NotBlank(lines[next]) || FenceLine(lines[next])) {
      ParagraphEnds(lines, next, parse);
    }
    UntilAt(goesOn, next, next);
    ParagraphStepAt(lines, i, parse, next);
    block := Paragraph(Join(paragraphLines, " "));
  }

  /** One pass of the outer loop. */
  method NextBlock(lines: seq<string>, i: nat, parse: string -> Option<Shortcodes.Shortcode>) returns (block: Option<Block>, next: nat)
    requires i < |lines|
    ensures Step(block, next) == Next(lines, i, parse)
  {
    var line := lines[i];
    if !NotBlank(line) {
      return None, i + 1;
    }
    if FenceLine(line) {
      var b;
      b, next := ReadFence(lines, i);
      return Some(b), next;
    }
    var shortcode := parse(line);
    if shortcode.Some? {
      return Some(Media(shortcode.value)), i + 1;
    }
    if i + 1 < |lines| && '|' in line && SeparatorLine(lines[i + 1]) {
      var b;
      b, next := ReadTable(lines, i);
      return Some(b), next;
    }
    var heading := HeadingOf(line);
    if heading.Some? {
      return Some(Heading(heading.value.0, heading.value.1)), i + 1;
    }
    if QuoteOf(line).Some? {
      var b;
      b, next := ReadQuote(lines, i);
      return Some(b), next;
    }
    if BulletLine(line) {
      var b;
      b, next := ReadBullets(lines, i);
      return Some(b), next;
    }
    if NumberedLine(line) {
      var b;
      b, next := ReadNumbered(lines, i);
      return Some(b), next;
    }
    var b;
    b, next := ReadParagraph(lines, i, parse);
    block := Some(b);
  }

  /** Pushing the block of a step, if any, is appending it. */
  lemma PushBlock(blocks: seq<Block>, pushed: seq<Block>, block: Option<Block>, rest: seq<Block>, whole: seq<Block>)
    requires pushed == if block.Some? then blocks + [block.value] else blocks
    requires whole == (if block.Some? then [block.value] else []) + rest
    ensures pushed + rest == blocks + whole
  {
    if block.Some? {
      assert blocks + [block.value] + rest == blocks + ([block.value] + rest);
    } else {
      assert [] + rest == rest;
    }
  }

  lemma RenderEnd(lines: seq<string>, i: nat, parse: string -> Option<Shortcodes.Shortcode>, blocks: seq<Block>, all: seq<Block>)
    requires i == |lines| && blocks + Render(lines, i, parse) == all
    ensures blocks == all
  {
    assert Render(lines, i, parse) == [];
    assert blocks + [] == blocks;
  }

  /** `renderMarkdown`: the outer `while` loop over the lines. */
  method RenderMarkdown(content: string, sanitize: string -> Option<string>) returns (blocks: seq<Block>)
    ensures blocks == RenderContent(content, sanitize)
  {
    var lines := Lines(content);
    var parse := ShortcodeParser(sanitize);
    ghost var all := Render(lines, 0, parse);
    assert all == RenderContent(content, sanitize);
    blocks := [];
    var i := 0;
    while i < |lines|
      invariant i <= |lines|
      invariant blocks + Render(lines, i, parse) == all
      decreases |lines| - i
    {
      var block, next := NextBlock(lines, i, parse);
      RenderStep(lines, i, parse, block, next);
      ghost var before := blocks;
      if block.Some? {
        blocks := blocks + [block.value];
      }
      PushBlock(before, blocks, block, Render(lines, next, parse), Render(lines, i, parse));
      i := next;
    }
    RenderEnd(lines, i, parse, blocks, all);
  }
}
