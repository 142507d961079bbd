/** The Markdown editor (`src/components/editor/MarkdownEditor.tsx`): the text
    operations behind the toolbar (wrap the selection, prefix the selected lines,
    insert a block on its own lines, insert a link), the recognition of a
    `/command` in front of the caret, the slash menu's filter and its active
    index, and the value / `onChange` bookkeeping around IME composition. The
    textarea's selection, the keys pressed and the answers to `window.prompt`
    are parameters; focus, `requestAnimationFrame` and rendering are not part
    of the model. */
module MarkdownEditor {
  import opened Wrappers
  import opened JsText

  /** What a text operation hands back: the new value and the selection to restore. */
  datatype Edit = Edit(next: string, cursorStart: int, cursorEnd: int)

  // ---------------------------------------------------------------------------
  // String slicing with JavaScript's clamping

  /** `s.slice(a, b)` for non-negative indices: clamped to the string, empty
      when `b` does not lie after `a`. */
  function Slice(s: string, a: nat, b: nat): (r: string)
    ensures a <= b <= |s| ==> r == s[a..b]
    ensures b <= a ==> r == ""
  {
    var hi := if b > |s| then |s| else b;
    if a >= hi then "" else s[a..hi]
  }

  /** `s.slice(a)` for a non-negative index. */
  function SliceFrom(s: string, a: nat): (r: string)
    ensures a <= |s| ==> r == s[a..]
    ensures a >= |s| ==> r == ""
  {
    if a >= |s| then "" else s[a..]
  }

  // ---------------------------------------------------------------------------
  // insertAtSelection and the link button

  /** `insertAtSelection`: the selected text, or `placeholder` when nothing is
      selected, is wrapped in `prefix` and `suffix`; the returned selection
      covers exactly that text, and removing the two wrappers again gives back
      the original value. */
  function InsertAtSelection(value: string, start: nat, end: nat, prefix: string, suffix: string, placeholder: string): (r: Edit)
    requires start <= end <= |value|
    ensures var core := if start < end then value[start..end] else placeholder;
            && r.cursorStart == start + |prefix|
            && r.cursorEnd == r.cursorStart + |core|
            && r.cursorEnd + |suffix| <= |r.next|
            && r.next[..start] == value[..start]
            && r.next[start..r.cursorStart] == prefix
            && r.next[r.cursorStart..r.cursorEnd] == core
            && r.next[r.cursorEnd..] == suffix + value[end..]
    ensures start < end ==>
              r.next[..start] + r.next[r.cursorStart..r.cursorEnd] + r.next[r.cursorEnd + |suffix|..] == value
  {
    var selected := value[start..end];
    var core := if selected != "" then selected else placeholder;
    var next := value[..start] + prefix + core + suffix + value[end..];
    Pieces(value[..start], prefix, core, suffix, value[end..], next);
    ThreeParts(value, start, end);
    Edit(next, start + |prefix|, start + |prefix| + |core|)
  }

  /** Where each of five concatenated pieces lies. */
  lemma Pieces(a: string, b: string, c: string, d: string, e: string, next: string)
    requires next == a + b + c + d + e
    ensures next[..|a|] == a
    ensures next[|a|..|a| + |b|] == b
    ensures next[|a| + |b|..|a| + |b| + |c|] == c
    ensures next[|a| + |b| + |c|..] == d + e
    ensures next[|a| + |b| + |c| + |d|..] == e
  {
    var head := a + b + c;
    assert next == head + (d + e);
    assert next[|head|..] == d + e;
    assert (d + e)[|d|..] == e;
    assert head[..|a|] == a && head[|a|..|a| + |b|] == b && head[|a| + |b|..] == c;
  }

  lemma ThreeParts(value: string, start: nat, end: nat)
    requires start <= end <= |value|
    ensures value[..start] + value[start..end] + value[end..] == value
  {
  }

  /** The text `insertAtSelection` puts in place of the selection. */
  lemma InsertedText(value: string, start: nat, end: nat, prefix: string, suffix: string, placeholder: string)
    requires start <= end <= |value|
    ensures var core := if start < end then value[start..end] else placeholder;
            InsertAtSelection(value, start, end, prefix, suffix, placeholder).next
              == value[..start] + (prefix + core + suffix) + value[end..]
  {
    var core := if start < end then value[start..end] else placeholder;
    Regroup(value[..start], prefix, core, suffix, value[end..]);
  }

  lemma Regroup(a: string, b: string, c: string, d: string, e: string)
    ensures a + b + c + d + e == a + (b + c + d) + e
  {
  }

  /** A Markdown link: `[caption](target)`. */
  function LinkText(caption: string, target: string): string
  {
    "[" + caption + "](" + target + ")"
  }

  /** `setLink` as written: the selection (or `link text`) becomes the link
      caption, but it is also what `insertAtSelection` puts between the
      parentheses, because the prompted URL is only its placeholder. A falsy
      answer to the prompt leaves everything as it was. */
  function SetLinkAsWritten(value: string, start: nat, end: nat, url: Option<string>): (r: Edit)
    requires start <= end <= |value|
    ensures url.None? || url == Some("") ==> r == Edit(value, start, end)
    ensures url.Some? && url.value != "" && start < end ==>
              var selected := value[start..end];
              r.next == value[..start] + LinkText(selected, selected) + value[end..]
  {
    var selected := if start < end then value[start..end] else "link text";
    if url.None? || url.value == "" then Edit(value, start, end)
    else
      InsertedText(value, start, end, "[" + selected + "](", ")", url.value);
      InsertAtSelection(value, start, end, "[" + selected + "](", ")", url.value)
  }

  /** `setLink` as evidently intended: the selection (or `link text`) becomes
      the caption, the prompted URL the target, and the URL is left selected. */
  function SetLink(value: string, start: nat, end: nat, url: Option<string>): (r: Edit)
    requires start <= end <= |value|
    ensures url.None? || url == Some("") ==> r == Edit(value, start, end)
    ensures url.Some? && url.value != "" ==>
              var caption := if start < end then value[start..end] else "link text";
              && r.next == value[..start] + LinkText(caption, url.value) + value[end..]
              && 0 <= r.cursorStart <= r.cursorEnd <= |r.next|
              && r.next[r.cursorStart..r.cursorEnd] == url.value
  {
    var caption := if start < end then value[start..end] else "link text";
    if url.None? || url.value == "" then Edit(value, start, end)
    else
      var rest := value[..start] + value[end..];
      assert rest[..start] == value[..start] && rest[start..] == value[end..];
      InsertedText(rest, start, start, "[" + caption + "](", ")", url.value);
      InsertAtSelection(rest, start, start, "[" + caption + "](", ")", url.value)
  }

  /** With the whole value selected, the link as written uses the value as
      its target too, while the corrected one uses the URL. */
  lemma SetLinkWhole(value: string, url: string)
    requires value != "" && url != ""
    ensures SetLinkAsWritten(value, 0, |value|, Some(url)).next == LinkText(value, value)
    ensures SetLink(value, 0, |value|, Some(url)).next == LinkText(value, url)
  {
    assert value[..0] == "" && value[0..|value|] == value && value[|value|..] == "";
    var written := SetLinkAsWritten(value, 0, |value|, Some(url)).next;
    assert written == "" + LinkText(value, value) + "";
    var fixed := SetLink(value, 0, |value|, Some(url)).next;
    assert fixed == "" + LinkText(value, url) + "";
  }

  /** With a selection, the link as written points at the selected text rather
      than at the URL the user typed; the corrected `SetLink` uses the URL. */
  lemma SetLinkDropsUrl()
    ensures SetLinkAsWritten("a", 0, 1, Some("u")).next == "[a](a)"
    ensures SetLink("a", 0, 1, Some("u")).next == "[a](u)"
  {
    SetLinkWhole("a", "u");
    LinkOfChars('a', 'a');
    LinkOfChars('a', 'u');
  }

  lemma LinkOfChars(c: char, u: char)
    ensures LinkText([c], [u]) == ['[', c, ']', '(', u, ')']
  {
  }

  // ---------------------------------------------------------------------------
  // Lines around the selection

  /** `value.lastIndexOf('\n', pos - 1) + 1`. For `pos > 0` this is where the
      line holding position `pos` starts; for `pos == 0` the search index -1 is
      clamped to 0, so a value that opens with a newline gives 1. */
  function LastNewlineBefore(value: string, pos: nat): (r: nat)
    requires pos <= |value|
    ensures 0 < pos ==> r <= pos && (r == 0 || value[r - 1] == '\n')
    ensures 0 < pos ==> forall k :: r <= k < pos ==> value[k] != '\n'
    ensures pos == 0 ==> r == (if value != [] && value[0] == '\n' then 1 else 0)
  {
    LastIndexOfChar(value, '\n', pos - 1) + 1
  }

  /** The start of the line holding position `pos`. */
  function LineStart(value: string, pos: nat): (r: nat)
    requires pos <= |value|
    ensures r <= pos && (r == 0 || value[r - 1] == '\n')
    ensures forall k :: r <= k < pos ==> value[k] != '\n'
  {
    if pos == 0 then 0 else LastNewlineBefore(value, pos)
  }

  /** `indexOf('\n', pos)`, or the length when there is none: the end of the
      line holding position `pos`. */
  function LineEnd(value: string, pos: nat): (r: nat)
    requires pos <= |value|
    ensures pos <= r <= |value| && (r == |value| || value[r] == '\n')
    ensures forall k :: pos <= k < r ==> value[k] != '\n'
  {
    var i := IndexOfChar(value, '\n', pos);
    if i == -1 then |value| else i
  }

  // ---------------------------------------------------------------------------
  // prefixLine

  /** Every line, with `prefix` in front of it. */
  function PrefixEach(lines: seq<string>, prefix: string): (r: seq<string>)
    ensures |r| == |lines|
    ensures forall i :: 0 <= i < |lines| ==> r[i] == prefix + lines[i]
  {
    seq(|lines|, i requires 0 <= i < |lines| => prefix + lines[i])
  }

  /** `block.split('\n').map(line => prefix + line).join('\n')`. */
  function PrefixBlock(block: string, prefix: string): string
  {
    Join(PrefixEach(Split(block, '\n'), prefix), "\n")
  }

  /** The number of lines of `block`, `block.split('\n').length`. */
  function LineCount(block: string): nat
  {
    |Split(block, '\n')|
  }

  /** `prefixLine` as written: the block starts at `LastNewlineBefore(start)`,
      which is one past the start of the text when the caret stands at 0 in
      front of a newline. Everywhere else it agrees with `PrefixLine`. */
  function PrefixLineAsWritten(value: string, start: nat, end: nat, prefix: string): (r: Edit)
    requires start <= end <= |value|
    ensures !(start == 0 && value != [] && value[0] == '\n') ==> r == PrefixLine(value, start, end, prefix)
  {
    var blockStart := LastNewlineBefore(value, start);
    var blockEnd := LineEnd(value, end);
    var block := Slice(value, blockStart, blockEnd);
    var next := Slice(value, 0, blockStart) + PrefixBlock(block, prefix) + SliceFrom(value, blockEnd);
    Edit(next, start + |prefix|, end + |prefix| * LineCount(block))
  }

  /** `prefixLine`: every line the selection touches gets `prefix` in front,
      the text around those lines is unchanged, and the selection end moves by
      one prefix per line. */
  function PrefixLine(value: string, start: nat, end: nat, prefix: string): (r: Edit)
    requires start <= end <= |value|
    ensures var bs, be := LineStart(value, start), LineEnd(value, end);
            && bs <= start <= end <= be <= |value|
            && r.next == value[..bs] + PrefixBlock(value[bs..be], prefix) + value[be..]
            && r.cursorStart == start + |prefix|
            && r.cursorEnd == end + |prefix| * LineCount(value[bs..be])
  {
    var blockStart := LineStart(value, start);
    var blockEnd := LineEnd(value, end);
    var block := value[blockStart..blockEnd];
    Edit(value[..blockStart] + PrefixBlock(block, prefix) + value[blockEnd..],
         start + |prefix|, end + |prefix| * LineCount(block))
  }

  /** The caret at 0 in front of a newline: the code as written keeps the
      newline, prefixes an empty block behind it and then repeats the newline,
      so the text grows by a line; the corrected version prefixes the empty
      first line. */
  lemma PrefixLineDuplicatesNewline()
    ensures PrefixLineAsWritten("\nabc", 0, 0, "# ").next == "\n# \nabc"
    ensures PrefixLine("\nabc", 0, 0, "# ").next == "# \nabc"
  {
    assert LineEnd("\nabc", 0) == 0;
    assert Split("", '\n') == [""];
  }

  /** Each prefixed line adds exactly one prefix to the length. */
  lemma {:induction false} PrefixEachLength(lines: seq<string>, prefix: string)
    requires |lines| >= 1
    ensures |Join(PrefixEach(lines, prefix), "\n")| == |Join(lines, "\n")| + |prefix| * |lines|
    decreases |lines|
  {
    var ps := PrefixEach(lines, prefix);
    if |lines| > 1 {
      PrefixEachLength(lines[1..], prefix);
      assert ps[1..] == PrefixEach(lines[1..], prefix);
    }
  }

  /** The joined lines start with the first line and end with the last one. */
  lemma {:induction false} JoinEnds(parts: seq<string>)
    requires |parts| >= 1
    ensures |parts[0]| <= |Join(parts, "\n")| && Join(parts, "\n")[..|parts[0]|] == parts[0]
    ensures var last := parts[|parts| - 1];
            |last| <= |Join(parts, "\n")| && Join(parts, "\n")[|Join(parts, "\n")| - |last|..] == last
    decreases |parts|
  {
    if |parts| > 1 {
      JoinEnds(parts[1..]);
      var j := Join(parts[1..], "\n");
      assert Join(parts, "\n") == parts[0] + "\n" + j;
      assert parts[1..][|parts[1..]| - 1] == parts[|parts| - 1];
    }
  }

  /** The first line of a split is everything up to the first separator: when
      `s[..k]` holds no newline, the first piece starts with it. */
  lemma {:induction false} SplitFirst(s: string, k: nat)
    requires k <= |s|
    requires forall i :: 0 <= i < k ==> s[i] != '\n'
    ensures k <= |Split(s, '\n')[0]| && Split(s, '\n')[0][..k] == s[..k]
    decreases |s|
  {
    if k > 0 {
      SplitFirst(s[1..], k - 1);
      var rest := Split(s[1..], '\n');
      assert Split(s, '\n')[0] == [s[0]] + rest[0];
      assert s[..k] == [s[0]] + s[1..][..k - 1];
    }
  }

  /** A string without a newline splits into itself alone. */
  lemma {:induction false} SplitWhole(s: string)
    requires forall i :: 0 <= i < |s| ==> s[i] != '\n'
    ensures Split(s, '\n') == [s]
    decreases |s|
  {
    if s != [] {
      SplitWhole(s[1..]);
      assert [s[0]] + s[1..] == s;
    }
  }

  /** One step of a split seen from its end: the last piece grows by the first
      character only when no separator follows it. */
  lemma SplitLastStep(s: string)
    requires s != []
    ensures var parts, rest := Split(s, '\n'), Split(s[1..], '\n');
            parts[|parts| - 1] == if s[0] != '\n' && |rest| == 1 then [s[0]] + rest[0] else rest[|rest| - 1]
  {
    var rest := Split(s[1..], '\n');
    if s[0] != '\n' && |rest| > 1 {
      var parts := [[s[0]] + rest[0]] + rest[1..];
      assert parts[|parts| - 1] == rest[|rest| - 1];
    }
  }

  /** Symmetrically, when `s[k..]` holds no newline, the last piece ends with it. */
  lemma {:induction false} SplitLast(s: string, k: nat)
    requires k <= |s|
    requires forall i :: k <= i < |s| ==> s[i] != '\n'
    ensures var parts := Split(s, '\n');
            var last := parts[|parts| - 1];
            |s| - k <= |last| && last[|last| - (|s| - k)..] == s[k..]
    decreases |s|
  {
    if k == 0 {
      SplitWhole(s);
    } else {
      SplitLast(s[1..], k - 1);
      assert s[1..][k - 1..] == s[k..];
      SplitLastStep(s);
      var rest := Split(s[1..], '\n');
      if s[0] != '\n' && |rest| == 1 {
        ConsSuffix(s[0], rest[0], |s| - k);
      }
    }
  }

  lemma ConsSuffix(c: char, t: string, n: nat)
    requires n <= |t|
    ensures ([c] + t)[|[c] + t| - n..] == t[|t| - n..]
  {
  }

  /** A prefixed block is one prefix per line longer. */
  lemma PrefixBlockLength(block: string, prefix: string)
    ensures |PrefixBlock(block, prefix)| == |block| + |prefix| * LineCount(block)
  {
    JoinSplit(block, '\n');
    PrefixEachLength(Split(block, '\n'), prefix);
  }

  /** A prefixed block starts with the prefix and the block's first line. */
  lemma PrefixBlockHead(block: string, prefix: string, i: nat)
    requires i <= |block|
    requires forall k :: 0 <= k < i ==> block[k] != '\n'
    ensures var pb := PrefixBlock(block, prefix);
            |prefix| + i <= |pb| && pb[..|prefix| + i] == prefix + block[..i]
  {
    var lines := Split(block, '\n');
    var ps := PrefixEach(lines, prefix);
    JoinEnds(ps);
    SplitFirst(block, i);
    var first := ps[0];
    assert first == prefix + lines[0];
    assert first[..|prefix| + i] == prefix + lines[0][..i];
  }

  /** A prefixed block ends with the block's last line. */
  lemma PrefixBlockTail(block: string, prefix: string, j: nat)
    requires j <= |block|
    requires forall k :: j <= k < |block| ==> block[k] != '\n'
    ensures var pb := PrefixBlock(block, prefix);
            |block| - j <= |pb| && pb[|pb| - (|block| - j)..] == block[j..]
  {
    var lines := Split(block, '\n');
    var ps := PrefixEach(lines, prefix);
    JoinEnds(ps);
    SplitLast(block, j);
    var last := ps[|ps| - 1];
    assert last == prefix + lines[|lines| - 1];
  }

  /** The result of `PrefixLine` is one prefix per line longer than the value. */
  lemma PrefixLineLength(value: string, start: nat, end: nat, prefix: string)
    requires start <= end <= |value|
    ensures var r := PrefixLine(value, start, end, prefix);
            |r.next| == |value| + |prefix| * LineCount(value[LineStart(value, start)..LineEnd(value, end)])
  {
    var bs, be := LineStart(value, start), LineEnd(value, end);
    PrefixBlockLength(value[bs..be], prefix);
  }

  /** In front of the new selection start stand the untouched lines before the
      block, the prefix and the first line up to the old start. */
  lemma PrefixLineHead(value: string, start: nat, end: nat, prefix: string)
    requires start <= end <= |value|
    ensures var r := PrefixLine(value, start, end, prefix);
            var bs := LineStart(value, start);
            r.cursorStart <= |r.next| && r.next[..r.cursorStart] == value[..bs] + prefix + value[bs..start]
  {
    var r := PrefixLine(value, start, end, prefix);
    var bs, be := LineStart(value, start), LineEnd(value, end);
    var block := value[bs..be];
    var pb := PrefixBlock(block, prefix);
    BlockHead(value, bs, be, start);
    PrefixBlockHead(block, prefix, start - bs);
    HeadSplice(value[..bs], prefix, value[bs..start], pb, value[be..], r.next, r.cursorStart);
  }

  /** Behind the new selection end stands exactly the text that followed the
      old selection end. */
  lemma PrefixLineTail(value: string, start: nat, end: nat, prefix: string)
    requires start <= end <= |value|
    ensures var r := PrefixLine(value, start, end, prefix);
            0 <= r.cursorEnd <= |r.next| && r.next[r.cursorEnd..] == value[end..]
  {
    var r := PrefixLine(value, start, end, prefix);
    var bs, be := LineStart(value, start), LineEnd(value, end);
    var block := value[bs..be];
    var pb := PrefixBlock(block, prefix);
    PrefixBlockLength(block, prefix);
    BlockTail(value, bs, be, end);
    PrefixBlockTail(block, prefix, end - bs);
    TailSplice(value[..bs], pb, value[be..], value[end..be], r.next, r.cursorEnd, be - end);
    TailJoin(value, end, be);
  }

  /** The part of the block before the old start is the start of its first line. */
  lemma BlockHead(value: string, bs: nat, be: nat, start: nat)
    requires bs <= start <= be <= |value|
    requires forall k :: bs <= k < start ==> value[k] != '\n'
    ensures forall k :: 0 <= k < start - bs ==> value[bs..be][k] != '\n'
    ensures value[bs..be][..start - bs] == value[bs..start]
  {
    assert forall k :: 0 <= k < start - bs ==> value[bs..be][k] == value[bs + k];
  }

  /** The part of the block after the old end is the end of its last line. */
  lemma BlockTail(value: string, bs: nat, be: nat, end: nat)
    requires bs <= end <= be <= |value|
    requires forall k :: end <= k < be ==> value[k] != '\n'
    ensures forall k :: end - bs <= k < be - bs ==> value[bs..be][k] != '\n'
    ensures value[bs..be][end - bs..] == value[end..be]
  {
    assert forall k :: end - bs <= k < be - bs ==> value[bs..be][k] == value[bs + k];
  }

  lemma HeadSplice(x: string, p: string, w: string, pb: string, z: string, next: string, cs: nat)
    requires next == x + pb + z
    requires |p| + |w| <= |pb| && pb[..|p| + |w|] == p + w
    requires cs == |x| + |p| + |w|
    ensures cs <= |next| && next[..cs] == x + p + w
  {
    Splice3(x, pb, z, cs, 0);
  }

  lemma TailSplice(x: string, pb: string, z: string, mid: string, next: string, ce: int, n: nat)
    requires next == x + pb + z
    requires n <= |pb| && pb[|pb| - n..] == mid
    requires ce == |x| + |pb| - n
    ensures 0 <= ce <= |next| && next[ce..] == mid + z
  {
    Splice3(x, pb, z, |x|, |pb| - n);
  }

  lemma TailJoin(value: string, end: nat, be: nat)
    requires end <= be <= |value|
    ensures value[end..be] + value[be..] == value[end..]
  {
  }

  /** Cutting `x + y + z` inside `y`. */
  lemma Splice3(x: string, y: string, z: string, a: nat, b: nat)
    requires |x| <= a <= |x| + |y| && b <= |y|
    ensures (x + y + z)[..a] == x + y[..a - |x|]
    ensures (x + y + z)[|x| + b..] == y[b..] + z
  {
  }

  /** When the prefix holds no newline, the lines of the result are exactly the
      block's lines with the prefix in front, so the prefix can be stripped off
      again line by line. */
  lemma PrefixEveryLine(block: string, prefix: string)
    requires '\n' !in prefix
    ensures Split(PrefixBlock(block, prefix), '\n') == PrefixEach(Split(block, '\n'), prefix)
    ensures Join(Split(block, '\n'), "\n") == block
  {
    var lines := Split(block, '\n');
    var ps := PrefixEach(lines, prefix);
    forall i | 0 <= i < |ps|
      ensures '\n' !in ps[i]
    {
      assert ps[i] == prefix + lines[i];
    }
    SplitJoin(ps, '\n');
    JoinSplit(block, '\n');
  }

  // ---------------------------------------------------------------------------
  // insertBlock / applySlashBlock

  /** The `\n\n` put in front of a block: needed when the text before it is
      non-empty and does not end with a newline. */
  function LeadingBreak(before: string): (r: string)
    ensures r == "\n\n" <==> before != [] && before[|before| - 1] != '\n'
    ensures r == "" || r == "\n\n"
  {
    if |before| > 0 && !EndsWith(before, "\n") then "\n\n" else ""
  }

  /** The `\n\n` put behind a block, under the mirrored condition. */
  function TrailingBreak(after: string): (r: string)
    ensures r == "\n\n" <==> after != [] && after[0] != '\n'
    ensures r == "" || r == "\n\n"
  {
    if |after| > 0 && !StartsWith(after, "\n") then "\n\n" else ""
  }

  /** The text `insertBlock` builds: `block` between `before` and `after`
      with the breaks it needs. */
  function BlockText(before: string, block: string, after: string): string
  {
    before + LeadingBreak(before) + block + TrailingBreak(after) + after
  }

  /** The splice of `insertBlock` and `applySlashBlock`: `block` goes between
      `before` and `after` (the text around the selection, or around the slash
      range) with the breaks it needs, and the caret lands after the insertion,
      in front of `after`. The block then stands on lines of its own: a newline
      (or the start of the text) in front of it and a newline (or the end of
      the text) behind it. */
  function InsertBlock(before: string, block: string, after: string): (r: Edit)
    ensures var lead, trail := LeadingBreak(before), TrailingBreak(after);
            && r.next == before + lead + block + trail + after
            && r.cursorStart == r.cursorEnd == |r.next| - |after|
    ensures var q := |before| + |LeadingBreak(before)|;
            && q + |block| <= |r.next|
            && (q == 0 || r.next[q - 1] == '\n')
            && (q + |block| == |r.next| || r.next[q + |block|] == '\n')
  {
    var lead := LeadingBreak(before);
    var trail := TrailingBreak(after);
    var next := BlockText(before, block, after);
    BlockOnOwnLines(before, lead, block, trail, after);
    Edit(next, |next| - |after|, |next| - |after|)
  }

  lemma BlockOnOwnLines(before: string, lead: string, block: string, trail: string, after: string)
    requires lead == LeadingBreak(before) && trail == TrailingBreak(after)
    ensures var next, q := before + lead + block + trail + after, |before| + |lead|;
            && (q == 0 || next[q - 1] == '\n')
            && (q + |block| == |next| || next[q + |block|] == '\n')
  {
    var next, q := before + lead + block + trail + after, |before| + |lead|;
    if q > 0 {
      if lead == "" {
        assert next[q - 1] == before[|before| - 1];
      } else {
        assert next[q - 1] == lead[1];
      }
    }
    if q + |block| < |next| {
      if trail == "" {
        assert next[q + |block|] == after[0];
      } else {
        assert next[q + |block|] == trail[0];
      }
    }
  }

  // ---------------------------------------------------------------------------
  // The slash menu

  /** A `/command` the caret closes: `/` at `q`, at the start of the text or
      after white space, and only ASCII letters from there up to the caret. */
  predicate SlashBefore(value: string, q: nat, caret: nat)
  {
    q < caret <= |value| && value[q] == '/' && (q == 0 || IsSpace(value[q - 1]))
    && forall k :: q < k < caret ==> IsLetter(value[k])
  }

  /** The regular expression `(?:^|\s)\/([a-zA-Z]*)$` matching `line` with its
      `/` at position `p`. */
  predicate SlashPattern(line: string, p: nat)
  {
    p < |line| && line[p] == '/' && (p == 0 || IsSpace(line[p - 1]))
    && forall k :: p < k < |line| ==> IsLetter(line[k])
  }

  /** The slash the menu is open for: the typed query and the range `[start, end)`
      a command replaces. */
  datatype SlashMatch = SlashMatch(query: string, start: nat, end: nat)

  /** `detectSlashContext`: with an empty selection, the text of the caret's line
      up to the caret is matched against the slash pattern; the query is what
      follows the `/`, lowercased, and the range runs from the `/` to the caret.
      A match exists exactly when a `/command` ends at the caret. */
  function DetectSlashContext(value: string, start: nat, end: nat): (r: Option<SlashMatch>)
    requires start <= |value| && end <= |value|
    ensures r.Some? <==> start == end && exists q: nat :: SlashBefore(value, q, start)
    ensures r.Some? ==> && SlashBefore(value, r.value.start, start)
                        && r.value.end == start
                        && r.value.query == Lower(value[r.value.start + 1..start])
  {
    if start != end then None
    else
      var lineStart := LastNewlineBefore(value, start);
      var line := Slice(value, lineStart, start);
      var p := LastIndexOfChar(line, '/', |line|);
      SlashOnLine(value, start, lineStart, line, p);
      if p >= 0 && SlashPattern(line, p) then
        Some(SlashMatch(Lower(line[p + 1..]), lineStart + p, start))
      else None
  }

  /** The pattern can only match at the last `/` of the line, and a match on the
      caret's line is a `/command` ending at the caret in the whole value, and
      conversely. */
  lemma SlashOnLine(value: string, caret: nat, lineStart: nat, line: string, p: int)
    requires caret <= |value|
    requires lineStart == LastNewlineBefore(value, caret)
    requires line == Slice(value, lineStart, caret)
    requires p == LastIndexOfChar(line, '/', |line|)
    ensures (exists q: nat :: SlashBefore(value, q, caret)) <==> p >= 0 && SlashPattern(line, p)
    ensures p >= 0 && SlashPattern(line, p) ==>
              lineStart + p < caret && line[p + 1..] == value[lineStart + p + 1..caret]
              && SlashBefore(value, lineStart + p, caret)
  {
    if caret > 0 {
      assert line == value[lineStart..caret];
      SlashForward(value, caret, lineStart, line, p);
      if exists q: nat :: SlashBefore(value, q, caret) {
        var q: nat :| SlashBefore(value, q, caret);
        SlashBackward(value, caret, lineStart, line, p, q);
      }
    }
  }

  lemma SlashForward(value: string, caret: nat, lineStart: nat, line: string, p: int)
    requires lineStart <= caret <= |value|
    requires lineStart == 0 || value[lineStart - 1] == '\n'
    requires line == value[lineStart..caret]
    ensures p >= 0 && SlashPattern(line, p) ==>
              lineStart + p < caret && line[p + 1..] == value[lineStart + p + 1..caret]
              && SlashBefore(value, lineStart + p, caret)
  {
    if p >= 0 && SlashPattern(line, p) {
      SlashFromLine(value, caret, lineStart, p);
    }
  }

  lemma SlashBackward(value: string, caret: nat, lineStart: nat, line: string, p: int, q: nat)
    requires lineStart <= caret <= |value|
    requires lineStart == 0 || value[lineStart - 1] == '\n'
    requires line == value[lineStart..caret]
    requires p == LastIndexOfChar(line, '/', |line|)
    requires SlashBefore(value, q, caret)
    ensures p >= 0 && SlashPattern(line, p)
  {
    SlashToLine(value, caret, lineStart, q);
    LastSlash(line, p, q - lineStart);
  }

  /** The pattern matches at most at the last `/`. */
  lemma LastSlash(line: string, p: int, q: nat)
    requires p == LastIndexOfChar(line, '/', |line|)
    requires SlashPattern(line, q)
    ensures p == q
  {
  }

  /** A match on the caret's line is a `/command` before the caret. */
  lemma SlashFromLine(value: string, caret: nat, lineStart: nat, p: nat)
    requires lineStart <= caret <= |value|
    requires lineStart == 0 || value[lineStart - 1] == '\n'
    requires SlashPattern(value[lineStart..caret], p)
    ensures lineStart + p < caret && SlashBefore(value, lineStart + p, caret)
    ensures value[lineStart..caret][p + 1..] == value[lineStart + p + 1..caret]
  {
    var line := value[lineStart..caret];
    var q := lineStart + p;
    assert forall k :: q < k < caret ==> value[k] == line[k - lineStart];
    if p > 0 {
      assert value[q - 1] == line[p - 1];
    }
  }

  /** A `/command` before the caret lies on the caret's line and matches there. */
  lemma SlashToLine(value: string, caret: nat, lineStart: nat, q: nat)
    requires lineStart <= caret <= |value|
    requires lineStart == 0 || value[lineStart - 1] == '\n'
    requires SlashBefore(value, q, caret)
    ensures lineStart <= q && SlashPattern(value[lineStart..caret], q - lineStart)
  {
    var line := value[lineStart..caret];
    var pq := q - lineStart;
    assert forall k :: pq < k < |line| ==> line[k] == value[k + lineStart];
    if pq > 0 {
      assert line[pq - 1] == value[q - 1];
    }
  }

  /** What choosing a menu entry does: replace the `/query` with text (the caret
      `offset` characters into it), replace it with a block on its own lines, or
      remove it and open the image toolbox. */
  datatype SlashAction = Replace(text: string, offset: nat) | Block(text: string) | OpenImage

  datatype SlashCommand = SlashCommand(id: string, name: string, description: string, keywords: seq<string>, action: SlashAction)

  /** The menu entries, in order. */
  const SlashCommands: seq<SlashCommand> := [
    SlashCommand("code", "Code Block", "Capture a code snippet", ["code", "snippet", "block"],
      Block("```ts\n// code\n```")),
    SlashCommand("mermaid", "Mermaid Diagram", "Insert a mermaid diagram block", ["mermaid", "diagram", "flowchart", "graph"],
      Block("```mermaid\nflowchart TD\n  A[Start] --> B[Done]\n```")),
    SlashCommand("table", "Table", "Insert a markdown table", ["table", "grid", "markdown"],
      Block("| Column 1 | Column 2 |\n| --- | --- |\n| Value 1 | Value 2 |")),
    SlashCommand("image", "Image", "Upload or embed an image", ["image", "photo", "media"], OpenImage),
    SlashCommand("bullet", "Bulleted List", "Create a simple bulleted list", ["bullet", "list"], Replace("- ", 2)),
    SlashCommand("ordered", "Ordered List", "Create a numbered list", ["ordered", "number", "list"], Replace("1. ", 3)),
    SlashCommand("quote", "Quote", "Insert a quote block", ["quote", "blockquote"], Replace("> ", 2)),
    SlashCommand("heading", "Heading", "Insert a level-1 heading", ["heading", "title"], Replace("# ", 2)),
    SlashCommand("link", "Link", "Insert markdown link syntax", ["link", "url"], Replace("[link text](https://)", 12)),
    SlashCommand("video", "Video", "Insert video shortcode", ["video", "youtube", "vimeo"],
      Block("@[video](https://){provider=\"youtube\",title=\"Video\"}"))
  ]

  /** The lowercased text a query is looked up in: label, description and the
      keywords, separated by spaces. */
  function Haystack(c: SlashCommand): string
  {
    Lower(c.name + " " + c.description + " " + Join(c.keywords, " "))
  }

  /** The commands whose haystack includes `query`, in menu order. */
  function MatchingCommands(commands: seq<SlashCommand>, query: string): (r: seq<SlashCommand>)
    ensures |r| <= |commands|
    ensures forall c :: c in r <==> c in commands && Contains(Haystack(c), query)
  {
    if commands == [] then []
    else
      (if Contains(Haystack(commands[0]), query) then [commands[0]] else [])
      + MatchingCommands(commands[1..], query)
  }

  /** Matching distributes over concatenation, so the matches keep menu order. */
  lemma {:induction false} MatchingCommandsAppend(commands: seq<SlashCommand>, more: seq<SlashCommand>, query: string)
    ensures MatchingCommands(commands + more, query) == MatchingCommands(commands, query) + MatchingCommands(more, query)
    decreases |commands|
  {
    if commands == [] {
      assert commands + more == more;
    } else {
      assert (commands + more)[0] == commands[0] && (commands + more)[1..] == commands[1..] + more;
      MatchingCommandsAppend(commands[1..], more, query);
    }
  }

  /** `filteredSlashCommands`: nothing while no slash is open, every command for
      a blank query, otherwise the commands matching the trimmed query. */
  function Filtered(slash: Option<SlashMatch>, commands: seq<SlashCommand>): (r: seq<SlashCommand>)
    ensures slash.None? ==> r == []
    ensures slash.Some? && Trim(slash.value.query) == "" ==> r == commands
  {
    if slash.None? then []
    else
      var query := Trim(slash.value.query);
      if query == "" then commands else MatchingCommands(commands, query)
  }

  /** For a non-blank query, exactly the commands whose haystack includes the
      trimmed query are on the menu. The statement is kept apart from
      `Filtered` so that the editor's key handling does not carry it. */
  lemma FilteredMembers(slash: Option<SlashMatch>, commands: seq<SlashCommand>)
    ensures slash.Some? && Trim(slash.value.query) != "" ==>
              forall c :: c in Filtered(slash, commands) <==> c in commands && Contains(Haystack(c), Trim(slash.value.query))
  {
  }

  /** The menu distributes over concatenation of the command list, so it
      keeps menu order for every query. */
  lemma FilteredAppend(slash: Option<SlashMatch>, commands: seq<SlashCommand>, more: seq<SlashCommand>)
    ensures Filtered(slash, commands + more) == Filtered(slash, commands) + Filtered(slash, more)
  {
    if slash.Some? && Trim(slash.value.query) != "" {
      MatchingCommandsAppend(commands, more, Trim(slash.value.query));
    }
  }

  /** Where the `i`-th part sits inside the joined text. */
  lemma {:induction false} JoinHolds(parts: seq<string>, sep: string, i: nat) returns (off: nat)
    requires i < |parts|
    ensures off + |parts[i]| <= |Join(parts, sep)| && Join(parts, sep)[off..off + |parts[i]|] == parts[i]
    decreases |parts|
  {
    if |parts| == 1 {
      off := 0;
    } else if i == 0 {
      off := 0;
      assert Join(parts, sep) == parts[0] + (sep + Join(parts[1..], sep));
    } else {
      var o := JoinHolds(parts[1..], sep, i - 1);
      off := |parts[0]| + |sep| + o;
      assert Join(parts, sep) == (parts[0] + sep) + Join(parts[1..], sep);
    }
  }

  /** Lowercasing keeps a run of lowercase letters. */
  lemma LowerKeeps(text: string, a: nat, word: string)
    requires a + |word| <= |text| && text[a..a + |word|] == word
    requires forall k :: 0 <= k < |word| ==> IsLowerLetter(word[k])
    ensures Lower(text)[a..a + |word|] == word
  {
    var low := Lower(text);
    forall k | 0 <= k < |word|
      ensures low[a + k] == word[k]
    {
      assert text[a + k] == word[k];
    }
  }

  /** A piece of the right operand of a concatenation. */
  lemma AppendPiece(x: string, y: string, o: nat, n: nat)
    requires o + n <= |y|
    ensures (x + y)[|x| + o..|x| + o + n] == y[o..o + n]
  {
  }

  /** Typing one of a command's keywords (lowercase letters only) as the query
      keeps that command in the menu. */
  lemma KeywordFinds(commands: seq<SlashCommand>, c: SlashCommand, i: nat, start: nat, end: nat)
    requires c in commands && i < |c.keywords| && c.keywords[i] != ""
    requires forall k :: 0 <= k < |c.keywords[i]| ==> IsLowerLetter(c.keywords[i][k])
    ensures c in Filtered(Some(SlashMatch(c.keywords[i], start, end)), commands)
  {
    var keyword := c.keywords[i];
    TrimOfTrimmed(keyword);
    var joined := Join(c.keywords, " ");
    var off := JoinHolds(c.keywords, " ", i);
    assert off + |keyword| <= |joined|;
    var head := c.name + " " + c.description + " ";
    AppendPiece(head, joined, off, |keyword|);
    var a := |head| + off;
    LowerKeeps(head + joined, a, keyword);
    ContainsAt(Haystack(c), keyword, a);
  }

  /** Every entry of the menu stays listed when its own id is typed after the
      slash: each id is the entry's first keyword. */
  lemma MenuFindsById(j: nat, start: nat, end: nat)
    requires j < |SlashCommands|
    ensures SlashCommands[j] in Filtered(Some(SlashMatch(SlashCommands[j].id, start, end)), SlashCommands)
  {
    var c := SlashCommands[j];
    assert c.id == c.keywords[0] != "";
    assert forall k :: 0 <= k < |c.id| ==> IsLowerLetter(c.id[k]);
    KeywordFinds(SlashCommands, c, 0, start, end);
  }

  /** The index after `current` in a list of `len` entries, wrapping to the first. */
  function NextIndex(current: nat, len: nat): (r: nat)
    requires current < len
    ensures r < len
    ensures r == (if current + 1 == len then 0 else current + 1)
  {
    (current + 1) % len
  }

  /** The index before `current`, wrapping to the last. */
  function PrevIndex(current: nat, len: nat): (r: nat)
    requires current < len
    ensures r < len
    ensures r == (if current == 0 then len - 1 else current - 1)
  {
    (current - 1 + len) % len
  }

  /** ArrowUp undoes ArrowDown and the other way round. */
  lemma ArrowsInverse(current: nat, len: nat)
    requires current < len
    ensures PrevIndex(NextIndex(current, len), len) == current
    ensures NextIndex(PrevIndex(current, len), len) == current
  {
  }

  /** `slice(0, a) + text + slice(b)`: the range `[a, b)` replaced by `text`.
      Inside the bounds everything outside the range is unchanged. */
  function ReplaceRange(value: string, a: nat, b: nat, text: string): (r: string)
    ensures a <= b <= |value| ==>
              && |r| == |value| - (b - a) + |text|
              && r[..a] == value[..a]
              && r[a..a + |text|] == text
              && r[a + |text|..] == value[b..]
  {
    var result := Slice(value, 0, a) + text + SliceFrom(value, b);
    if a <= b <= |value| then
      assert result[a + |text|..] == value[b..];
      result
    else result
  }

  /** The value after running a menu entry for the open slash `m`: the
      `/query` replaced by the entry's text, by its block on lines of its own,
      or removed for the image toolbox. */
  function RunValue(value: string, m: SlashMatch, action: SlashAction): string
  {
    match action
    case Replace(text, _) => ReplaceRange(value, m.start, m.end, text)
    case Block(text) => BlockText(Slice(value, 0, m.start), text, SliceFrom(value, m.end))
    case OpenImage => ReplaceRange(value, m.start, m.end, "")
  }

  /** Putting the replaced range back gives the original value. */
  lemma ReplaceRangeUndo(value: string, a: nat, b: nat, text: string)
    requires a <= b <= |value|
    ensures ReplaceRange(ReplaceRange(value, a, b, text), a, a + |text|, value[a..b]) == value
  {
    var r := ReplaceRange(value, a, b, text);
    var back := ReplaceRange(r, a, a + |text|, value[a..b]);
    assert back == value[..a] + value[a..b] + value[b..];
    assert value == value[..a] + value[a..b] + value[b..];
  }

  /** The keys the textarea reacts to while the menu is open. */
  datatype Key = ArrowDown | ArrowUp | Enter | Tab | Escape | OtherKey

  /** The editor's state: the textarea value, the ref that mirrors it, whether
      an IME composition is running, the values reported through `onChange` in
      order, the open slash match and the active menu entry, the selection
      restored after an edit and whether the image toolbox is open. */
  class Editor {
    var value: string
    var valueRef: string
    var composing: bool
    var reported: seq<string>
    var slash: Option<SlashMatch>
    var active: nat
    var selStart: nat
    var selEnd: nat
    var imageToolboxOpen: bool
    const commands: seq<SlashCommand>

    /** The active entry is the first, or an entry of the filtered menu. */
    predicate Valid()
      reads this`slash, this`active
    {
      active == 0 || active < |Filtered(slash, commands)|
    }

    constructor(initialContent: string, commands: seq<SlashCommand>)
      ensures value == initialContent && valueRef == initialContent
      ensures !composing && reported == [] && slash == None && active == 0
      ensures !imageToolboxOpen && this.commands == commands
      ensures Valid()
    {
      value := initialContent;
      valueRef := initialContent;
      composing := false;
      reported := [];
      slash := None;
      active := 0;
      selStart, selEnd := |initialContent|, |initialContent|;
      imageToolboxOpen := false;
      this.commands := commands;
    }

    /** `commitValue`: the value and its ref take `next`; `onChange` hears of it
        only when asked to notify and no composition is running. */
    method Commit(next: string, notify: bool)
      modifies this`value, this`valueRef, this`reported
      ensures value == next && valueRef == next
      ensures reported == if notify && !composing then old(reported) + [next] else old(reported)
    {
      value := next;
      valueRef := next;
      if notify && !composing {
        reported := reported + [next];
      }
    }

    method CompositionStart()
      modifies this`composing
      ensures composing
    {
      composing := true;
    }

    /** The end of a composition reports the textarea's final value once. */
    method CompositionEnd(current: string)
      modifies this`composing, this`valueRef, this`reported
      ensures !composing && valueRef == current
      ensures reported == old(reported) + [current]
    {
      composing := false;
      valueRef := current;
      reported := reported + [current];
    }

    /** `closeSlashMenu`. */
    method CloseSlashMenu()
      modifies this`slash, this`active
      ensures slash == None && active == 0
      ensures Valid()
    {
      slash := None;
      active := 0;
    }

    /** `updateSlashBySelection` with the effect that resets the active entry
        whenever the query changes: the menu follows the slash before the
        caret, and closes when there is none. */
    method UpdateSlashBySelection(next: string, start: nat, end: nat)
      requires start <= |next| && end <= |next|
      requires Valid()
      modifies this`slash, this`active
      ensures slash == DetectSlashContext(next, start, end)
      ensures old(slash) == None || slash == None || old(slash).value.query != slash.value.query ==> active == 0
      ensures Valid()
    {
      var m := DetectSlashContext(next, start, end);
      if m.None? {
        if slash.Some? {
          CloseSlashMenu();
        }
      } else {
        if slash.None? || slash.value.query != m.value.query {
          active := 0;
        }
        slash := m;
      }
    }

    /** `handleTextareaChange`: commit and notify, then follow the slash. While
        composing nothing is reported. */
    method TextChange(next: string, start: nat, end: nat)
      requires start <= |next| && end <= |next|
      requires Valid()
      modifies this`value, this`valueRef, this`reported, this`slash, this`active
      ensures value == next && valueRef == next
      ensures reported == if composing then old(reported) else old(reported) + [next]
      ensures slash == DetectSlashContext(next, start, end)
      ensures Valid()
    {
      Commit(next, true);
      assert slash == old(slash) && active == old(active);
      UpdateSlashBySelection(next, start, end);
    }

    /** `applySlashReplacement`: the slash range is replaced by `replacement`, the
        caret goes `offset` characters into it and the menu closes. Without an
        open slash nothing happens. */
    method ApplySlashReplacement(replacement: string, offset: nat)
      requires Valid()
      modifies this`value, this`valueRef, this`reported, this`slash, this`active, this`selStart, this`selEnd
      ensures old(slash).None? ==> value == old(value) && reported == old(reported) && slash == None
      ensures old(slash).Some? ==>
                var m := old(slash).value;
                && value == ReplaceRange(old(value), m.start, m.end, replacement)
                && selStart == selEnd == m.start + offset
                && reported == (if composing then old(reported) else old(reported) + [value])
      ensures slash == None && Valid()
    {
      if slash.None? {
        return;
      }
      var m := slash.value;
      Commit(ReplaceRange(value, m.start, m.end, replacement), true);
      CloseSlashMenu();
      selStart, selEnd := m.start + offset, m.start + offset;
    }

    /** `applySlashBlock`: the slash range is replaced by `block` on lines of its
        own (the breaks of `InsertBlock`), the caret goes after it and the menu
        closes. */
    method ApplySlashBlock(block: string)
      requires Valid()
      modifies this`value, this`valueRef, this`reported, this`slash, this`active, this`selStart, this`selEnd
      ensures old(slash).None? ==> value == old(value) && reported == old(reported) && slash == None
      ensures old(slash).Some? ==>
                var m := old(slash).value;
                var e := InsertBlock(Slice(old(value), 0, m.start), block, SliceFrom(old(value), m.end));
                && value == e.next
                && (m.start <= |old(value)| ==> selStart == selEnd == e.cursorEnd)
                && reported == (if composing then old(reported) else old(reported) + [value])
      ensures slash == None && Valid()
    {
      if slash.None? {
        return;
      }
      var m := slash.value;
      var before := Slice(value, 0, m.start);
      var after := SliceFrom(value, m.end);
      var lead, trail := LeadingBreak(before), TrailingBreak(after);
      var cursor := m.start + |lead| + |block| + |trail|;
      Commit(before + lead + block + trail + after, true);
      CloseSlashMenu();
      selStart, selEnd := cursor, cursor;
    }

    /** Running a menu entry (Enter, Tab or a click). */
    method Run(c: SlashCommand)
      requires Valid()
      modifies this`value, this`valueRef, this`reported, this`slash, this`active, this`selStart, this`selEnd, this`imageToolboxOpen
      ensures slash == None && Valid()
      ensures imageToolboxOpen == (old(imageToolboxOpen) || (c.action.OpenImage? && old(slash).Some?))
      ensures old(slash).None? ==> value == old(value) && reported == old(reported)
      ensures old(slash).Some? ==>
                && value == RunValue(old(value), old(slash).value, c.action)
                && reported == (if composing then old(reported) else old(reported) + [value])
      ensures old(slash).Some? && c.action.Replace? ==>
                selStart == selEnd == old(slash).value.start + c.action.offset
      ensures old(slash).Some? && c.action.OpenImage? ==> selStart == selEnd == old(slash).value.start
    {
      match c.action {
        case Replace(text, offset) => ApplySlashReplacement(text, offset);
        case Block(text) => ApplySlashBlock(text);
        case OpenImage =>
          if slash.Some? {
            ApplySlashReplacement("", 0);
            imageToolboxOpen := true;
          }
      }
    }

    /** Running the active entry of a showing menu. */
    method RunActive()
      requires Valid() && slash.Some? && Filtered(slash, commands) != []
      modifies this`value, this`valueRef, this`reported, this`slash, this`active, this`selStart, this`selEnd, this`imageToolboxOpen
      ensures Valid() && slash == None
      ensures var menu := Filtered(old(slash), commands);
              && value == RunValue(old(value), old(slash).value, menu[old(active)].action)
              && reported == (if composing then old(reported) else old(reported) + [value])
    {
      var menu := Filtered(slash, commands);
      Run(menu[active]);
    }

    /** `handleTextareaKeyDown`. With no menu showing, only Escape acts (it
        closes an open match). Otherwise the arrows move the active entry with
        wrap-around, Enter and Tab run the active entry, which always exists,
        and Escape closes the menu. */
    method KeyDown(key: Key)
      requires Valid()
      modifies this`value, this`valueRef, this`reported, this`slash, this`active, this`selStart, this`selEnd, this`imageToolboxOpen
      ensures Valid()
      ensures var menu := Filtered(old(slash), commands);
              menu != [] && key == ArrowDown ==> active == NextIndex(old(active), |menu|) && slash == old(slash)
      ensures var menu := Filtered(old(slash), commands);
              menu != [] && key == ArrowUp ==> active == PrevIndex(old(active), |menu|) && slash == old(slash)
      ensures key == Escape || key == Enter || key == Tab ==> slash == None || Filtered(old(slash), commands) == []
      ensures var menu := Filtered(old(slash), commands);
              old(slash).Some? && menu != [] && (key == Enter || key == Tab) ==>
                && value == RunValue(old(value), old(slash).value, menu[old(active)].action)
                && reported == (if composing then old(reported) else old(reported) + [value])
      ensures key == OtherKey || (Filtered(old(slash), commands) == [] && key != Escape) ==>
                value == old(value) && slash == old(slash) && active == old(active)
    {
      var menu := Filtered(slash, commands);
      if slash.None? || |menu| == 0 {
        IdleKey(key);
        assert key != Escape ==> value == old(value) && slash == old(slash) && active == old(active);
      } else if key == Enter || key == Tab {
        RunActive();
        assert slash == None;
      } else {
        MenuKey(key);
        assert key == OtherKey ==> value == old(value) && slash == old(slash) && active == old(active);
      }
    }

    /** A key while no menu shows: Escape closes an open match with no entries. */
    method IdleKey(key: Key)
      requires Valid() && (slash.None? || Filtered(slash, commands) == [])
      modifies this`slash, this`active
      ensures Valid()
      ensures key == Escape ==> slash == None
      ensures key != Escape ==> slash == old(slash) && active == old(active)
    {
      if key == Escape && slash.Some? {
        CloseSlashMenu();
      }
    }

    /** The arrows and Escape on a showing menu. */
    method MenuKey(key: Key)
      requires Valid() && Filtered(slash, commands) != []
      requires key != Enter && key != Tab
      modifies this`slash, this`active
      ensures Valid()
      ensures var menu := Filtered(old(slash), commands);
              && (key == ArrowDown ==> active == NextIndex(old(active), |menu|) && slash == old(slash))
              && (key == ArrowUp ==> active == PrevIndex(old(active), |menu|) && slash == old(slash))
              && (key == Escape ==> slash == None)
              && (key == OtherKey ==> slash == old(slash) && active == old(active))
    {
      var size := |Filtered(slash, commands)|;
      if key == ArrowDown {
        active := NextIndex(active, size);
      } else if key == ArrowUp {
        active := PrevIndex(active, size);
      } else if key == Escape {
        CloseSlashMenu();
      }
    }
  }
}
