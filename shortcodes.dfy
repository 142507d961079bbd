/** The media shortcodes of the Markdown dialect (`src/lib/markdown/shortcodes.ts`):
    a line `@[image](url){alt="…",width="…"}` or `@[video](url){provider="…"}`, its
    parser and its two builders. URL sanitising (`new URL` and the http/https
    check) is the parameter `sanitize`; a `None` or empty answer is a refusal. */
module Shortcodes {
  import opened Wrappers
  import opened JsText

  datatype Kind = Image | Video

  datatype Shortcode = Shortcode(kind: Kind, url: string, attrs: map<string, string>)

  /** `@[image](` or `@[video](`. */
  function Opening(kind: Kind): string
  {
    match kind
    case Image => "@[image]("
    case Video => "@[video]("
  }

  /** `sanitizeUrl` as the parser and the builders use it: a falsy answer refuses. */
  function Accepted(sanitize: string -> Option<string>, url: string): (r: Option<string>)
    ensures r.Some? ==> r.value != "" && sanitize(url) == r
    ensures r.None? ==> sanitize(url).None? || sanitize(url) == Some("")
  {
    match sanitize(url)
    case Some(u) => if u == "" then None else Some(u)
    case None => None
  }

  // ---------------------------------------------------------------------------
  // The line pattern `^@\[(image|video)\]\(([^)]+)\)(?:\{([^}]*)\})?\s*$`
  // ---------------------------------------------------------------------------

  datatype LineMatch = LineMatch(kind: Kind, url: string, attrs: Option<string>)

  /** The optional `{…}` group as written. */
  function Braced(attrs: Option<string>): string
  {
    match attrs
    case Some(a) => "{" + a + "}"
    case None => ""
  }

  /** What may follow the URL's `)`: white space only (no group), or `{`, text
      without `}`, the first `}`, and white space only. */
  function MatchTail(tail: string): (r: Option<Option<string>>)
    ensures r.Some? && r.value.Some? ==> '}' !in r.value.value
    ensures r.Some? ==> StartsWith(tail, Braced(r.value)) && AllSpace(tail[|Braced(r.value)|..])
  {
    if AllSpace(tail) then
      Some(None)
    else if tail[0] != '{' then None
    else
      var end := IndexOfChar(tail, '}', 1);
      if end < 1 || !AllSpace(tail[end + 1..]) then None
      else
        var attrs := tail[1..end];
        assert tail[..|Braced(Some(attrs))|] == Braced(Some(attrs)) by {
          assert tail[..end + 1] == [tail[0]] + attrs + [tail[end]];
        }
        Some(Some(attrs))
  }

  /** The pattern's captures: the kind, the URL up to the first `)` (at least one
      character), and the optional group; nothing but white space may follow. */
  function MatchLine(t: string): (m: Option<LineMatch>)
    ensures m.Some? ==> m.value.url != "" && ')' !in m.value.url
    ensures m.Some? && m.value.attrs.Some? ==> '}' !in m.value.attrs.value
    ensures m.Some? ==>
              var written := Opening(m.value.kind) + m.value.url + ")" + Braced(m.value.attrs);
              StartsWith(t, written) && AllSpace(t[|written|..])
  {
    var kind := if StartsWith(t, Opening(Image)) then Some(Image)
                else if StartsWith(t, Opening(Video)) then Some(Video) else None;
    if kind.None? then None
    else
      var head := Opening(kind.value);
      var rest := t[|head|..];
      var close := IndexOfChar(rest, ')', 0);
      if close <= 0 then None
      else
        var url := rest[..close];
        var tail := rest[close + 1..];
        match MatchTail(tail)
        case None => None
        case Some(attrs) =>
          MatchLineShape(t, head, url, tail, Braced(attrs));
          Some(LineMatch(kind.value, url, attrs))
  }

  lemma MatchLineShape(t: string, head: string, url: string, tail: string, braced: string)
    requires StartsWith(t, head) && |url| < |t| - |head|
    requires url == t[|head|..][..|url|] && t[|head|..][|url|] == ')' && tail == t[|head|..][|url| + 1..]
    requires StartsWith(tail, braced) && AllSpace(tail[|braced|..])
    ensures StartsWith(t, head + url + ")" + braced)
    ensures AllSpace(t[|head + url + ")" + braced|..])
  {
    var n := |head| + |url| + 1;
    assert t[..n] == head + url + ")";
    assert t[n..] == tail;
    assert t[..n + |braced|] == t[..n] + tail[..|braced|];
    assert t[n + |braced|..] == tail[|braced|..];
  }

  /** The converse: every line of the pattern's shape matches, with exactly its
      parts as the captures. */
  lemma MatchLineOf(kind: Kind, url: string, attrs: Option<string>, spaces: string)
    requires url != "" && ')' !in url
    requires attrs.Some? ==> '}' !in attrs.value
    requires AllSpace(spaces)
    ensures MatchLine(Opening(kind) + url + ")" + Braced(attrs) + spaces) == Some(LineMatch(kind, url, attrs))
  {
    var tail := Braced(attrs) + spaces;
    MatchTailOf(attrs, spaces);
    Regroup(Opening(kind), url, ")", Braced(attrs), spaces);
    MatchLineOfTail(kind, url, tail, attrs);
  }

  lemma Regroup(a: string, b: string, c: string, d: string, e: string)
    ensures a + b + c + d + e == a + (b + c + (d + e))
  {
  }

  lemma MatchLineOfTail(kind: Kind, url: string, tail: string, attrs: Option<string>)
    requires url != "" && ')' !in url && MatchTail(tail) == Some(attrs)
    ensures MatchLine(Opening(kind) + (url + ")" + tail)) == Some(LineMatch(kind, url, attrs))
  {
    var head := Opening(kind);
    var rest := url + ")" + tail;
    var t := head + rest;
    assert t[..|head|] == head && t[|head|..] == rest;
    if kind == Video {
      assert !StartsWith(t, Opening(Image)) by { assert t[2] != Opening(Image)[2]; }
    }
    IndexOfFirst(rest, url, ')');
    assert rest[..|url|] == url && rest[|url| + 1..] == tail;
  }

  lemma IndexOfFirst(s: string, before: string, c: char)
    requires c !in before && |before| < |s| && s[..|before|] == before && s[|before|] == c
    ensures IndexOfChar(s, c, 0) == |before|
  {
    assert forall k :: 0 <= k < |before| ==> s[k] == before[k];
  }

  lemma MatchTailOf(attrs: Option<string>, spaces: string)
    requires attrs.Some? ==> '}' !in attrs.value
    requires AllSpace(spaces)
    ensures MatchTail(Braced(attrs) + spaces) == Some(attrs)
  {
    var tail := Braced(attrs) + spaces;
    if attrs.Some? {
      var a := attrs.value;
      assert tail == "{" + a + "}" + spaces;
      assert tail[0] == '{' && !IsSpace(tail[0]);
      assert tail[|a| + 1] == '}';
      assert forall k :: 1 <= k < |a| + 1 ==> tail[k] == a[k - 1];
      assert IndexOfChar(tail, '}', 1) == |a| + 1;
      assert tail[|a| + 2..] == spaces;
      assert tail[1..|a| + 1] == a;
    } else {
      assert tail == spaces;
    }
  }

  // ---------------------------------------------------------------------------
  // `parseAttrs`
  // ---------------------------------------------------------------------------

  /** `.map((part) => part.trim())`. */
  function TrimAll(parts: seq<string>): (r: seq<string>)
    ensures |r| == |parts| && forall i :: 0 <= i < |parts| ==> r[i] == Trim(parts[i])
  {
    seq(|parts|, i requires 0 <= i < |parts| => Trim(parts[i]))
  }

  /** `.filter(Boolean)` on strings. */
  function NonEmpty(parts: seq<string>): (r: seq<string>)
    ensures |r| <= |parts|
    ensures forall i :: 0 <= i < |r| ==> r[i] != "" && r[i] in parts
    ensures forall i :: 0 <= i < |parts| && parts[i] != "" ==> parts[i] in r
  {
    if parts == [] then []
    else if parts[0] == "" then NonEmpty(parts[1..])
    else
      var rest := NonEmpty(parts[1..]);
      assert forall i :: 0 < i < |parts| ==> parts[i] == parts[1..][i - 1];
      [parts[0]] + rest
  }

  lemma {:induction false} NonEmptyOfNonEmpty(parts: seq<string>)
    requires forall i :: 0 <= i < |parts| ==> parts[i] != ""
    ensures NonEmpty(parts) == parts
  {
    if parts != [] {
      NonEmptyOfNonEmpty(parts[1..]);
      assert [parts[0]] + parts[1..] == parts;
    }
  }

  /** `raw.split(',').map((part) => part.trim()).filter(Boolean)`. */
  function Parts(raw: string): seq<string>
  {
    NonEmpty(TrimAll(Split(raw, ',')))
  }

  predicate IsQuote(c: char) { c == '"' || c == '\'' }

  /** `replace(/^['"]|['"]$/g, '')`: one quote off the front and one off the
      back; a lone quote goes entirely. */
  function StripQuotes(v: string): (r: string)
    ensures |r| <= |v|
    ensures |v| >= 2 && IsQuote(v[0]) && IsQuote(v[|v| - 1]) ==> r == v[1..|v| - 1]
    ensures v == [] || (!IsQuote(v[0]) && !IsQuote(v[|v| - 1])) ==> r == v
  {
    if v != [] && IsQuote(v[0]) then
      var r := v[1..];
      if r != [] && IsQuote(r[|r| - 1]) then r[..|r| - 1] else r
    else if v != [] && IsQuote(v[|v| - 1]) then v[..|v| - 1]
    else v
  }

  /** One part: `const [keyRaw, ...valueParts] = part.split('=')`, the key
      trimmed, the rest joined back with `=`, trimmed and unquoted. A part with no
      `=`, an empty key or an empty value gives nothing. */
  function Entry(part: string): (e: Option<(string, string)>)
    ensures e.Some? ==> e.value.0 != "" && e.value.1 != ""
  {
    var pieces := Split(part, '=');
    var key := Trim(pieces[0]);
    if key == "" || |pieces| == 1 then None
    else
      var value := StripQuotes(Trim(Join(pieces[1..], "=")));
      if value == "" then None else Some((key, value))
  }

  lemma {:induction false} SplitNoSeparator(s: string, sep: char)
    requires sep !in s
    ensures Split(s, sep) == [s]
    decreases |s|
  {
    if s != [] {
      SplitNoSeparator(s[1..], sep);
      assert [s[0]] + s[1..] == s;
    }
  }

  lemma {:induction false} SplitAtFirst(a: string, b: string, sep: char)
    requires sep !in a
    ensures Split(a + [sep] + b, sep) == [a] + Split(b, sep)
    decreases |a|
  {
    if a == [] {
      assert a + [sep] + b == [sep] + b;
      assert ([sep] + b)[1..] == b;
    } else {
      SplitAtFirst(a[1..], b, sep);
      var s := a + [sep] + b;
      assert s[0] == a[0] && s[1..] == a[1..] + [sep] + b;
      assert [a[0]] + a[1..] == a;
    }
  }

  /** A part without `=` gives nothing. */
  lemma EntryWithoutEquals(part: string)
    requires '=' !in part
    ensures Entry(part) == None
  {
    SplitNoSeparator(part, '=');
  }

  /** A part splits at its first `=`: the key is what comes before it, trimmed,
      and the value is all that follows, `=` included, trimmed and unquoted. */
  lemma EntryAtFirstEquals(key: string, rest: string)
    requires '=' !in key
    ensures var k, v := Trim(key), StripQuotes(Trim(rest));
            Entry(key + "=" + rest) == if k == "" || v == "" then None else Some((k, v))
  {
    SplitAtFirst(key, rest, '=');
    var pieces := Split(key + "=" + rest, '=');
    assert pieces[1..] == Split(rest, '=');
    JoinSplit(rest, '=');
  }

  /** The entry of every part, in order. */
  function Entries(parts: seq<string>): (es: seq<Option<(string, string)>>)
    ensures |es| == |parts| && forall i :: 0 <= i < |parts| ==> es[i] == Entry(parts[i])
  {
    seq(|parts|, i requires 0 <= i < |parts| => Entry(parts[i]))
  }

  /** The attributes the entries leave, later entries overriding earlier ones. */
  function Collect(es: seq<Option<(string, string)>>): map<string, string>
  {
    if es == [] then map[]
    else
      var attrs := Collect(es[..|es| - 1]);
      match es[|es| - 1]
      case Some(kv) => attrs[kv.0 := kv.1]
      case None => attrs
  }

  /** `parseAttrs(raw)`. */
  function AttrsOf(raw: Option<string>): map<string, string>
  {
    match raw
    case None => map[]
    case Some(r) => if r == "" then map[] else Collect(Entries(Parts(r)))
  }

  /** A key is kept exactly when some entry gives it. */
  lemma {:induction false} CollectKeys(es: seq<Option<(string, string)>>, key: string)
    ensures key in Collect(es) <==> exists i :: 0 <= i < |es| && es[i].Some? && es[i].value.0 == key
    decreases |es|
  {
    if es != [] {
      var n := |es| - 1;
      var init := es[..n];
      CollectKeys(init, key);
      assert forall i :: 0 <= i < n ==> es[i] == init[i];
      if exists i :: 0 <= i < |es| && es[i].Some? && es[i].value.0 == key {
        var i :| 0 <= i < |es| && es[i].Some? && es[i].value.0 == key;
        if i < n {
          assert init[i].Some? && init[i].value.0 == key;
        }
      }
    }
  }

  /** The last entry that gives a key decides its value. */
  lemma {:induction false} CollectLastWins(es: seq<Option<(string, string)>>, i: nat, key: string)
    requires i < |es| && es[i].Some? && es[i].value.0 == key
    requires forall j :: i < j < |es| ==> es[j].None? || es[j].value.0 != key
    ensures key in Collect(es) && Collect(es)[key] == es[i].value.1
    decreases |es|
  {
    var n := |es| - 1;
    var init := es[..n];
    if i < n {
      assert es[i] == init[i];
      assert forall j :: i < j < n ==> init[j] == es[j];
      CollectLastWins(init, i, key);
    }
  }

  /** Every kept attribute has a non-empty name and a non-empty value. */
  lemma {:induction false} CollectNonEmpty(es: seq<Option<(string, string)>>)
    requires forall i :: 0 <= i < |es| && es[i].Some? ==> es[i].value.0 != "" && es[i].value.1 != ""
    ensures forall k :: k in Collect(es) ==> k != "" && Collect(es)[k] != ""
    decreases |es|
  {
    if es != [] {
      var n := |es| - 1;
      assert forall i :: 0 <= i < n ==> es[..n][i] == es[i];
      CollectNonEmpty(es[..n]);
    }
  }

  lemma AttrsNonEmpty(raw: Option<string>)
    ensures forall k :: k in AttrsOf(raw) ==> k != "" && AttrsOf(raw)[k] != ""
  {
    if raw.Some? && raw.value != "" {
      CollectNonEmpty(Entries(Parts(raw.value)));
    }
  }

  lemma CollectStep(es: seq<Option<(string, string)>>, i: nat)
    requires i < |es|
    ensures Collect(es[..i + 1]) == if es[i].Some? then Collect(es[..i])[es[i].value.0 := es[i].value.1]
                                    else Collect(es[..i])
  {
    assert es[..i + 1][..i] == es[..i];
  }

  /** `parseAttrs` as the source runs it: a loop over the parts writing into a
      record. */
  method ParseAttrs(raw: Option<string>) returns (attrs: map<string, string>)
    ensures attrs == AttrsOf(raw)
  {
    attrs := map[];
    if raw.None? || raw.value == "" {
      return;
    }
    var parts := Parts(raw.value);
    ghost var es := Entries(parts);
    for i := 0 to |parts|
      invariant attrs == Collect(es[..i])
    {
      CollectStep(es, i);
      var entry := Entry(parts[i]);
      if entry.Some? {
        attrs := attrs[entry.value.0 := entry.value.1];
      }
    }
    assert es[..|parts|] == es;
  }

  // ---------------------------------------------------------------------------
  // `parseShortcodeLine`
  // ---------------------------------------------------------------------------

  /** The trimmed line must match the pattern and its URL must be accepted. */
  function ParseShortcodeLine(line: string, sanitize: string -> Option<string>): (r: Option<Shortcode>)
    ensures r.Some? ==>
              MatchLine(Trim(line)).Some?
              && var m := MatchLine(Trim(line)).value;
              r.value.kind == m.kind && Accepted(sanitize, m.url) == Some(r.value.url)
              && r.value.attrs == AttrsOf(m.attrs)
    ensures r.None? <==> MatchLine(Trim(line)).None? || Accepted(sanitize, MatchLine(Trim(line)).value.url).None?
  {
    match MatchLine(Trim(line))
    case None => None
    case Some(m) =>
      match Accepted(sanitize, m.url)
      case None => None
      case Some(u) => Some(Shortcode(m.kind, u, AttrsOf(m.attrs)))
  }

  // ---------------------------------------------------------------------------
  // The builders
  // ---------------------------------------------------------------------------

  /** An optional attribute is written only when it is a non-empty string. */
  predicate Given(v: Option<string>)
  {
    v.Some? && v.value != ""
  }

  /** The named attributes that are given, as (name, value) pairs, in order. */
  function Kept(named: seq<(string, Option<string>)>): (pairs: seq<(string, string)>)
    ensures |pairs| <= |named|
    ensures forall i :: 0 <= i < |pairs| ==> pairs[i].1 != "" && (pairs[i].0, Some(pairs[i].1)) in named
    ensures forall i :: 0 <= i < |named| && Given(named[i].1) ==> (named[i].0, named[i].1.value) in pairs
  {
    if named == [] then []
    else
      var n := |named| - 1;
      var rest := Kept(named[..n]);
      assert forall i :: 0 <= i < n ==> named[i] == named[..n][i];
      if Given(named[n].1) then rest + [(named[n].0, named[n].1.value)] else rest
  }

  /** Nothing is kept exactly when nothing is given. */
  lemma KeptEmpty(named: seq<(string, Option<string>)>)
    ensures Kept(named) == [] <==> forall i :: 0 <= i < |named| ==> !Given(named[i].1)
  {
    if Kept(named) != [] {
      var p := Kept(named)[0];
      var j :| 0 <= j < |named| && named[j] == (p.0, Some(p.1));
      assert Given(named[j].1);
    }
  }

  /** `${key}="${value}"`. */
  function Rendered(pairs: seq<(string, string)>): (parts: seq<string>)
    ensures |parts| == |pairs|
    ensures forall i :: 0 <= i < |pairs| ==> parts[i] == pairs[i].0 + "=\"" + pairs[i].1 + "\""
  {
    seq(|pairs|, i requires 0 <= i < |pairs| => pairs[i].0 + "=\"" + pairs[i].1 + "\"")
  }

  /** `[…].filter(Boolean).join(',')`. */
  function AttrString(named: seq<(string, Option<string>)>): string
  {
    Join(Rendered(Kept(named)), ",")
  }

  lemma JoinEmpty(parts: seq<string>)
    requires forall i :: 0 <= i < |parts| ==> parts[i] != ""
    ensures Join(parts, ",") == "" <==> parts == []
  {
    if |parts| > 1 {
      assert Join(parts, ",") == parts[0] + "," + Join(parts[1..], ",");
    }
  }

  /** The builders' shared shape: `''` for a refused URL, the braces only when
      some attribute is given. */
  function Build(kind: Kind, url: string, named: seq<(string, Option<string>)>,
                 sanitize: string -> Option<string>): (line: string)
    ensures Accepted(sanitize, url).None? ==> line == ""
    ensures Accepted(sanitize, url).Some? && Kept(named) == [] ==>
              line == Opening(kind) + Accepted(sanitize, url).value + ")"
    ensures Accepted(sanitize, url).Some? && Kept(named) != [] ==>
              line == Opening(kind) + Accepted(sanitize, url).value + "){" + AttrString(named) + "}"
  {
    match Accepted(sanitize, url)
    case None => ""
    case Some(u) =>
      var a := AttrString(named);
      JoinEmpty(Rendered(Kept(named)));
      if a != "" then Opening(kind) + u + "){" + a + "}" else Opening(kind) + u + ")"
  }

  datatype ImageAttrs = ImageAttrs(alt: Option<string>, width: Option<string>, align: Option<string>, caption: Option<string>)

  datatype VideoAttrs = VideoAttrs(provider: Option<string>, title: Option<string>)

  function ImageNamed(attrs: ImageAttrs): seq<(string, Option<string>)>
  {
    [("alt", attrs.alt), ("width", attrs.width), ("align", attrs.align), ("caption", attrs.caption)]
  }

  function VideoNamed(attrs: VideoAttrs): seq<(string, Option<string>)>
  {
    [("provider", attrs.provider), ("title", attrs.title)]
  }

  lemma ImageKeptEmpty(attrs: ImageAttrs)
    ensures Kept(ImageNamed(attrs)) == [] <==>
              !Given(attrs.alt) && !Given(attrs.width) && !Given(attrs.align) && !Given(attrs.caption)
  {
    var named := ImageNamed(attrs);
    KeptEmpty(named);
    if !Given(attrs.alt) && !Given(attrs.width) && !Given(attrs.align) && !Given(attrs.caption) {
      forall i | 0 <= i < |named| ensures !Given(named[i].1) {
        if i == 0 {} else if i == 1 {} else if i == 2 {} else {}
      }
    } else {
      assert Given(named[0].1) || Given(named[1].1) || Given(named[2].1) || Given(named[3].1);
    }
  }

  /** `buildImageShortcode`: alt, width, align, caption, in that order; no
      braces when none is given. */
  function BuildImageShortcode(url: string, attrs: ImageAttrs, sanitize: string -> Option<string>): (line: string)
    ensures Accepted(sanitize, url).None? ==> line == ""
    ensures Accepted(sanitize, url).Some? && !Given(attrs.alt) && !Given(attrs.width)
            && !Given(attrs.align) && !Given(attrs.caption) ==>
              line == "@[image](" + Accepted(sanitize, url).value + ")"
    ensures Accepted(sanitize, url).Some? && (Given(attrs.alt) || Given(attrs.width)
            || Given(attrs.align) || Given(attrs.caption)) ==>
              line == "@[image](" + Accepted(sanitize, url).value + "){" + AttrString(ImageNamed(attrs)) + "}"
  {
    var named := ImageNamed(attrs);
    ImageKeptEmpty(attrs);
    Build(Image, url, named, sanitize)
  }

  /** `buildVideoShortcode`: provider, then title; no braces when neither is
      given. */
  function BuildVideoShortcode(url: string, attrs: VideoAttrs, sanitize: string -> Option<string>): (line: string)
    ensures Accepted(sanitize, url).None? ==> line == ""
    ensures Accepted(sanitize, url).Some? && !Given(attrs.provider) && !Given(attrs.title) ==>
              line == "@[video](" + Accepted(sanitize, url).value + ")"
    ensures Accepted(sanitize, url).Some? && (Given(attrs.provider) || Given(attrs.title)) ==>
              line == "@[video](" + Accepted(sanitize, url).value + "){" + AttrString(VideoNamed(attrs)) + "}"
  {
    var named := VideoNamed(attrs);
    KeptEmpty(named);
    Build(Video, url, named, sanitize)
  }

  // ---------------------------------------------------------------------------
  // Round trip
  // ---------------------------------------------------------------------------

  /** The map the parser builds from (name, value) pairs, later pairs winning. */
  function MapOf(pairs: seq<(string, string)>): map<string, string>
  {
    if pairs == [] then map[]
    else MapOf(pairs[..|pairs| - 1])[pairs[|pairs| - 1].0 := pairs[|pairs| - 1].1]
  }

  /** Names the builders use: no white space at the ends, no `=`, `,` or `}`. */
  predicate PlainName(k: string)
  {
    k != "" && Trimmed(k) && '=' !in k && ',' !in k && '}' !in k
  }

  /** Values the round trip carries: no `,` or `}`. */
  predicate PlainValue(v: string)
  {
    ',' !in v && '}' !in v
  }

  predicate PlainPairs(pairs: seq<(string, string)>)
  {
    forall i :: 0 <= i < |pairs| ==> PlainName(pairs[i].0) && pairs[i].1 != "" && PlainValue(pairs[i].1)
  }

  predicate PlainNamed(named: seq<(string, Option<string>)>)
  {
    forall i :: 0 <= i < |named| ==> PlainName(named[i].0) && (named[i].1.Some? ==> PlainValue(named[i].1.value))
  }

  /** A quoted non-empty value is trimmed, and unquoting gives the value back. */
  lemma Unquote(v: string)
    requires v != ""
    ensures Trim("\"" + v + "\"") == "\"" + v + "\""
    ensures StripQuotes("\"" + v + "\"") == v
  {
    var q := "\"" + v + "\"";
    assert q[0] == '"' && q[|q| - 1] == '"';
    TrimOfTrimmed(q);
    assert q[1..|q| - 1] == v;
  }

  /** A rendered pair parses back to itself. */
  lemma EntryOfRendered(k: string, v: string)
    requires PlainName(k) && v != ""
    ensures Entry(k + "=\"" + v + "\"") == Some((k, v))
  {
    var q := "\"" + v + "\"";
    assert k + "=\"" + v + "\"" == k + "=" + q;
    EntryAtFirstEquals(k, q);
    TrimOfTrimmed(k);
    Unquote(v);
  }

  /** The entries of rendered pairs are those pairs. */
  lemma EntriesOfRendered(pairs: seq<(string, string)>)
    requires PlainPairs(pairs)
    ensures Entries(Rendered(pairs)) == seq(|pairs|, i requires 0 <= i < |pairs| => Some(pairs[i]))
  {
    forall i | 0 <= i < |pairs| ensures Entry(Rendered(pairs)[i]) == Some(pairs[i]) {
      EntryOfRendered(pairs[i].0, pairs[i].1);
    }
  }

  lemma {:induction false} CollectPairs(pairs: seq<(string, string)>)
    ensures Collect(seq(|pairs|, i requires 0 <= i < |pairs| => Some(pairs[i]))) == MapOf(pairs)
    decreases |pairs|
  {
    if pairs != [] {
      var n := |pairs| - 1;
      var es := seq(|pairs|, i requires 0 <= i < |pairs| => Some(pairs[i]));
      CollectPairs(pairs[..n]);
      assert es[..n] == seq(n, i requires 0 <= i < n => Some(pairs[..n][i]));
    }
  }

  /** The parts of a joined list of rendered pairs are those rendered pairs. */
  lemma PartsOfRendered(pairs: seq<(string, string)>)
    requires pairs != [] && PlainPairs(pairs)
    ensures Parts(Join(Rendered(pairs), ",")) == Rendered(pairs)
  {
    var parts := Rendered(pairs);
    forall i | 0 <= i < |parts|
      ensures ',' !in parts[i] && Trimmed(parts[i]) && parts[i] != ""
    {
      var k, v := pairs[i].0, pairs[i].1;
      assert parts[i] == k + "=\"" + v + "\"";
      assert parts[i][0] == k[0];
      assert forall c :: c in parts[i] ==> c in k || c == '=' || c == '"' || c in v;
    }
    SplitJoin(parts, ',');
    assert TrimAll(parts) == parts by {
      forall i | 0 <= i < |parts| ensures Trim(parts[i]) == parts[i] {
        TrimOfTrimmed(parts[i]);
      }
    }
    NonEmptyOfNonEmpty(parts);
  }

  lemma {:induction false} JoinAvoids(parts: seq<string>, c: char)
    requires c != ',' && forall i :: 0 <= i < |parts| ==> c !in parts[i]
    ensures c !in Join(parts, ",")
    decreases |parts|
  {
    if |parts| > 1 {
      JoinAvoids(parts[1..], c);
    }
  }

  lemma KeptPlain(named: seq<(string, Option<string>)>)
    requires PlainNamed(named)
    ensures PlainPairs(Kept(named))
  {
    var pairs := Kept(named);
    forall i | 0 <= i < |pairs| ensures PlainName(pairs[i].0) && pairs[i].1 != "" && PlainValue(pairs[i].1) {
      var j :| 0 <= j < |named| && named[j] == (pairs[i].0, Some(pairs[i].1));
    }
  }

  /** Rendered pairs are not empty and hold no `}`. */
  lemma RenderedPlain(pairs: seq<(string, string)>)
    requires PlainPairs(pairs)
    ensures forall i :: 0 <= i < |pairs| ==> '}' !in Rendered(pairs)[i] && Rendered(pairs)[i] != ""
  {
    var parts := Rendered(pairs);
    forall i | 0 <= i < |parts| ensures '}' !in parts[i] && parts[i] != "" {
      assert parts[i] == pairs[i].0 + "=\"" + pairs[i].1 + "\"";
      assert forall c :: c in parts[i] ==> c in pairs[i].0 || c == '=' || c == '"' || c in pairs[i].1;
    }
  }

  /** The attribute text a builder writes holds no `}`, and parsing it gives the
      map of the given attributes. */
  lemma AttrStringParses(named: seq<(string, Option<string>)>)
    requires PlainNamed(named) && Kept(named) != []
    ensures '}' !in AttrString(named)
    ensures AttrString(named) != ""
    ensures AttrsOf(Some(AttrString(named))) == MapOf(Kept(named))
  {
    var pairs := Kept(named);
    KeptPlain(named);
    var parts := Rendered(pairs);
    RenderedPlain(pairs);
    JoinAvoids(parts, '}');
    JoinEmpty(parts);
    PartsOfRendered(pairs);
    EntriesOfRendered(pairs);
    CollectPairs(pairs);
  }

  /** A line of the builders' shape parses back to its kind, its URL and the
      attributes of its group, when the URL is accepted as it is. */
  lemma ParseOfWritten(kind: Kind, u: string, attrs: Option<string>, sanitize: string -> Option<string>)
    requires Accepted(sanitize, u) == Some(u) && ')' !in u
    requires attrs.Some? ==> '}' !in attrs.value
    ensures ParseShortcodeLine(Opening(kind) + u + ")" + Braced(attrs), sanitize) == Some(Shortcode(kind, u, AttrsOf(attrs)))
  {
    var line := Opening(kind) + u + ")" + Braced(attrs);
    var m := LineMatch(kind, u, attrs);
    WrittenMatches(kind, u, attrs, line, m);
    ParseOfMatch(line, sanitize, m);
  }

  /** A written line is trimmed and matches with its own parts. */
  lemma WrittenMatches(kind: Kind, u: string, attrs: Option<string>, line: string, m: LineMatch)
    requires ')' !in u && u != "" && (attrs.Some? ==> '}' !in attrs.value)
    requires line == Opening(kind) + u + ")" + Braced(attrs) && m == LineMatch(kind, u, attrs)
    ensures Trim(line) == line && MatchLine(line) == Some(m)
  {
    WrittenTrimmed(kind, u, attrs, line);
    TrimOfTrimmed(line);
    NoSpaces(line);
    MatchLineOf(kind, u, attrs, "");
  }

  /** A trimmed line that matches, with a URL accepted as it is. */
  lemma ParseOfMatch(line: string, sanitize: string -> Option<string>, m: LineMatch)
    requires Trim(line) == line && MatchLine(line) == Some(m) && Accepted(sanitize, m.url) == Some(m.url)
    ensures ParseShortcodeLine(line, sanitize) == Some(Shortcode(m.kind, m.url, AttrsOf(m.attrs)))
  {
  }

  lemma NoSpaces(s: string)
    ensures s + "" == s
  {
  }

  /** A written line starts with `@` and ends with `)` or `}`. */
  lemma WrittenTrimmed(kind: Kind, u: string, attrs: Option<string>, line: string)
    requires line == Opening(kind) + u + ")" + Braced(attrs)
    ensures Trimmed(line)
  {
    assert line[0] == '@';
    assert line[|line| - 1] == ')' || line[|line| - 1] == '}';
  }

  /** Parsing what a builder wrote gives back the kind, the accepted URL and
      exactly the given attributes, provided sanitising an accepted URL accepts it
      unchanged, the URL holds no `)`, and no value holds `,` or `}`. */
  lemma RoundTrip(kind: Kind, url: string, named: seq<(string, Option<string>)>, sanitize: string -> Option<string>)
    requires Accepted(sanitize, url).Some?
    requires var u := Accepted(sanitize, url).value; Accepted(sanitize, u) == Some(u) && ')' !in u
    requires PlainNamed(named)
    ensures ParseShortcodeLine(Build(kind, url, named, sanitize), sanitize)
            == Some(Shortcode(kind, Accepted(sanitize, url).value, MapOf(Kept(named))))
  {
    var u := Accepted(sanitize, url).value;
    var attrs: Option<string> := if Kept(named) == [] then None else Some(AttrString(named));
    if attrs.Some? {
      AttrStringParses(named);
    }
    BuildWritten(kind, url, named, sanitize, attrs);
    ParseOfWritten(kind, u, attrs, sanitize);
  }

  /** What a builder writes, as the pattern sees it. */
  lemma BuildWritten(kind: Kind, url: string, named: seq<(string, Option<string>)>,
                     sanitize: string -> Option<string>, attrs: Option<string>)
    requires Accepted(sanitize, url).Some?
    requires attrs == if Kept(named) == [] then None else Some(AttrString(named))
    ensures Build(kind, url, named, sanitize) == Opening(kind) + Accepted(sanitize, url).value + ")" + Braced(attrs)
  {
  }

  function Names(named: seq<(string, Option<string>)>): (names: seq<string>)
    ensures |names| == |named| && forall i :: 0 <= i < |named| ==> names[i] == named[i].0
  {
    seq(|named|, i requires 0 <= i < |named| => named[i].0)
  }

  /** Only the named attributes are in the map of the kept pairs. */
  lemma {:induction false} KeptKeys(named: seq<(string, Option<string>)>, k: string)
    requires k in MapOf(Kept(named))
    ensures k in Names(named)
    decreases |named|
  {
    var n := |named| - 1;
    var init := named[..n];
    assert Names(init) == Names(named)[..n];
    if Given(named[n].1) {
      var rest := Kept(init);
      assert (rest + [(named[n].0, named[n].1.value)])[..|rest|] == rest;
      if k != named[n].0 {
        KeptKeys(init, k);
      }
    } else {
      KeptKeys(init, k);
    }
  }

  /** For names that are pairwise different, a name is in the map of the kept
      pairs exactly when its value is given, and then with that value. */
  lemma {:induction false} KeptAt(named: seq<(string, Option<string>)>, i: nat)
    requires i < |named|
    requires forall a, b :: 0 <= a < b < |named| ==> named[a].0 != named[b].0
    ensures named[i].0 in MapOf(Kept(named)) <==> Given(named[i].1)
    ensures Given(named[i].1) ==> MapOf(Kept(named))[named[i].0] == named[i].1.value
    decreases |named|
  {
    var n := |named| - 1;
    var init := named[..n];
    var rest := Kept(init);
    if Given(named[n].1) {
      assert (rest + [(named[n].0, named[n].1.value)])[..|rest|] == rest;
    }
    if i < n {
      assert init[i] == named[i];
      KeptAt(init, i);
    } else if !Given(named[n].1) {
      if named[n].0 in MapOf(rest) {
        KeptKeys(init, named[n].0);
        assert false;
      }
    }
  }

  /** The given image attributes, as a map: each name present exactly when its
      value is given, with that value, and no other name. */
  predicate ImageMap(attrs: ImageAttrs, m: map<string, string>)
  {
    && ("alt" in m <==> Given(attrs.alt))
    && ("width" in m <==> Given(attrs.width))
    && ("align" in m <==> Given(attrs.align))
    && ("caption" in m <==> Given(attrs.caption))
    && (Given(attrs.alt) ==> m["alt"] == attrs.alt.value)
    && (Given(attrs.width) ==> m["width"] == attrs.width.value)
    && (Given(attrs.align) ==> m["align"] == attrs.align.value)
    && (Given(attrs.caption) ==> m["caption"] == attrs.caption.value)
    && m.Keys <= {"alt", "width", "align", "caption"}
  }

  lemma ImageKept(attrs: ImageAttrs)
    ensures ImageMap(attrs, MapOf(Kept(ImageNamed(attrs))))
  {
    var named := ImageNamed(attrs);
    KeptAt(named, 0);
    KeptAt(named, 1);
    KeptAt(named, 2);
    KeptAt(named, 3);
    forall k | k in MapOf(Kept(named)) ensures k in {"alt", "width", "align", "caption"} {
      KeptKeys(named, k);
    }
  }

  /** The image builder's round trip: the parser finds each attribute exactly
      when it is given, with its value, and no other. */
  lemma ImageRoundTrip(url: string, attrs: ImageAttrs, sanitize: string -> Option<string>)
    requires Accepted(sanitize, url).Some?
    requires var u := Accepted(sanitize, url).value; Accepted(sanitize, u) == Some(u) && ')' !in u
    requires attrs.alt.Some? ==> PlainValue(attrs.alt.value)
    requires attrs.width.Some? ==> PlainValue(attrs.width.value)
    requires attrs.align.Some? ==> PlainValue(attrs.align.value)
    requires attrs.caption.Some? ==> PlainValue(attrs.caption.value)
    ensures var r := ParseShortcodeLine(BuildImageShortcode(url, attrs, sanitize), sanitize);
            && r.Some? && r.value.kind == Image && r.value.url == Accepted(sanitize, url).value
            && ImageMap(attrs, r.value.attrs)
  {
    var named := ImageNamed(attrs);
    assert PlainNamed(named) by {
      assert Trimmed("caption") && Trimmed("align") && Trimmed("width") && Trimmed("alt");
    }
    RoundTrip(Image, url, named, sanitize);
    ImageKept(attrs);
  }

  /** The given video attributes, as a map. */
  predicate VideoMap(attrs: VideoAttrs, m: map<string, string>)
  {
    && ("provider" in m <==> Given(attrs.provider))
    && ("title" in m <==> Given(attrs.title))
    && (Given(attrs.provider) ==> m["provider"] == attrs.provider.value)
    && (Given(attrs.title) ==> m["title"] == attrs.title.value)
    && m.Keys <= {"provider", "title"}
  }

  lemma VideoKept(attrs: VideoAttrs)
    ensures VideoMap(attrs, MapOf(Kept(VideoNamed(attrs))))
  {
    var named := VideoNamed(attrs);
    KeptAt(named, 0);
    KeptAt(named, 1);
    forall k | k in MapOf(Kept(named)) ensures k in {"provider", "title"} {
      KeptKeys(named, k);
    }
  }

  /** The video builder's round trip. */
  lemma VideoRoundTrip(url: string, attrs: VideoAttrs, sanitize: string -> Option<string>)
    requires Accepted(sanitize, url).Some?
    requires var u := Accepted(sanitize, url).value; Accepted(sanitize, u) == Some(u) && ')' !in u
    requires attrs.provider.Some? ==> PlainValue(attrs.provider.value)
    requires attrs.title.Some? ==> PlainValue(attrs.title.value)
    ensures var r := ParseShortcodeLine(BuildVideoShortcode(url, attrs, sanitize), sanitize);
            && r.Some? && r.value.kind == Video && r.value.url == Accepted(sanitize, url).value
            && VideoMap(attrs, r.value.attrs)
  {
    var named := VideoNamed(attrs);
    assert PlainNamed(named) by {
      assert Trimmed("provider") && Trimmed("title");
    }
    RoundTrip(Video, url, named, sanitize);
    VideoKept(attrs);
  }
}
