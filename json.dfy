/** JSON text (RFC 8259) as `JSON.parse` reads it and `JSON.stringify` writes
    strings and flat objects of strings. */
module Json {
  import opened Wrappers
  import opened JsText

  datatype Json =
    | JNull
    | JBool(b: bool)
    | JNum(lexeme: string)
    | JStr(s: string)
    | JArr(items: seq<Json>)
    | JObj(members: seq<(string, Json)>)

  /** The four white-space characters JSON allows between tokens. */
  predicate IsJsonSpace(c: char)
  {
    c == ' ' || c == '\t' || c == '\n' || c == '\r'
  }

  function SkipSpace(s: string): (r: string)
    ensures |r| <= |s| && r == s[|s| - |r|..]
    ensures r == [] || !IsJsonSpace(r[0])
    ensures s == [] || !IsJsonSpace(s[0]) ==> r == s
    decreases |s|
  {
    if s != [] && IsJsonSpace(s[0]) then SkipSpace(s[1..]) else s
  }

  function HexValue(c: char): (r: Option<nat>)
    ensures r.Some? ==> r.value < 16
  {
    if '0' <= c <= '9' then Some(c as int - '0' as int)
    else if 'a' <= c <= 'f' then Some(c as int - 'a' as int + 10)
    else if 'A' <= c <= 'F' then Some(c as int - 'A' as int + 10)
    else None
  }

  /** The value of four hexadecimal digits. */
  function Hex4(s: string): (r: Option<nat>)
    requires |s| >= 4
    ensures r.Some? ==> r.value < 0x10000
  {
    match (HexValue(s[0]), HexValue(s[1]), HexValue(s[2]), HexValue(s[3]))
    case (Some(a), Some(b), Some(c), Some(d)) => Some(((a * 16 + b) * 16 + c) * 16 + d)
    case _ => None
  }

  function Prepend(c: char, r: Option<(string, string)>): Option<(string, string)>
  {
    match r
    case None => None
    case Some((t, rest)) => Some(([c] + t, rest))
  }

  /** The character a one-letter escape `\\x` stands for. */
  function SimpleEscape(c: char): Option<char>
  {
    if c == '"' then Some('"')
    else if c == '\\' then Some('\\')
    else if c == '/' then Some('/')
    else if c == 'b' then Some('\U{0008}')
    else if c == 'f' then Some('\U{000C}')
    else if c == 'n' then Some('\n')
    else if c == 'r' then Some('\r')
    else if c == 't' then Some('\t')
    else None
  }

  /** A `\\uXXXX` escape at the start of `s`, or a surrogate pair of two of them:
      the character and the number of characters read. Half of a surrogate pair
      left unpaired has no character here and fails. */
  function UnicodeEscape(s: string): (r: Option<(char, nat)>)
    ensures r.Some? ==> (r.value.1 == 6 || r.value.1 == 12) && r.value.1 <= |s|
  {
    if |s| < 6 || s[0] != '\\' || s[1] != 'u' || Hex4(s[2..6]).None? then None
    else
      var u := Hex4(s[2..6]).value;
      if 0xD800 <= u <= 0xDBFF then
        if |s| >= 12 && s[6] == '\\' && s[7] == 'u' && Hex4(s[8..12]).Some?
           && 0xDC00 <= Hex4(s[8..12]).value <= 0xDFFF
        then Some(((0x10000 + (u - 0xD800) * 1024 + (Hex4(s[8..12]).value - 0xDC00)) as char, 12))
        else None
      else if 0xDC00 <= u <= 0xDFFF then None
      else Some((u as char, 6))
  }

  /** The characters of a string literal after its opening quote, up to the closing
      quote, and the text after it. */
  function ParseStringBody(s: string): (r: Option<(string, string)>)
    ensures r.Some? ==> |r.value.1| < |s|
    decreases |s|
  {
    if s == [] then None
    else if s[0] == '"' then Some(("", s[1..]))
    else if s[0] == '\\' then
      if |s| >= 2 && SimpleEscape(s[1]).Some? then Prepend(SimpleEscape(s[1]).value, ParseStringBody(s[2..]))
      else match UnicodeEscape(s)
        case Some((c, n)) => Prepend(c, ParseStringBody(s[n..]))
        case None => None
    else if s[0] < ' ' then None
    else Prepend(s[0], ParseStringBody(s[1..]))
  }

  function DigitRun(s: string): (n: nat)
    ensures n <= |s| && forall i :: 0 <= i < n ==> IsDigit(s[i])
    ensures n == |s| || !IsDigit(s[n])
    decreases |s|
  {
    if s != [] && IsDigit(s[0]) then 1 + DigitRun(s[1..]) else 0
  }

  /** `-? (0 | [1-9][0-9]*) (. [0-9]+)? ([eE] [+-]? [0-9]+)?`, kept as its text. */
  function ParseNumber(s: string): (r: Option<(Json, string)>)
    ensures r.Some? ==> |r.value.1| < |s|
  {
    var sign := if s != [] && s[0] == '-' then 1 else 0;
    var intPart := DigitRun(s[sign..]);
    if intPart == 0 || (intPart > 1 && s[sign] == '0') then None
    else
      var afterInt := sign + intPart;
      var fracLen :=
        if afterInt < |s| && s[afterInt] == '.' then 1 + DigitRun(s[afterInt + 1..]) else 0;
      if fracLen == 1 then None
      else
        var afterFrac := afterInt + fracLen;
        var expSign :=
          if afterFrac + 1 < |s| && s[afterFrac] in "eE" && s[afterFrac + 1] in "+-" then 1 else 0;
        var expDigits :=
          if afterFrac < |s| && s[afterFrac] in "eE" then DigitRun(s[afterFrac + 1 + expSign..]) else 0;
        if afterFrac < |s| && s[afterFrac] in "eE" && expDigits == 0 then None
        else
          var end := if expDigits > 0 then afterFrac + 1 + expSign + expDigits else afterFrac;
          Some((JNum(s[..end]), s[end..]))
  }

  function ParseValue(s: string): (r: Option<(Json, string)>)
    ensures r.Some? ==> |r.value.1| < |s|
    decreases |s|, 0
  {
    if s == [] then None
    else if s[0] == '{' then ParseObject(s[1..])
    else if s[0] == '[' then ParseArray(s[1..])
    else if s[0] == '"' then
      match ParseStringBody(s[1..])
      case Some((t, rest)) => Some((JStr(t), rest))
      case None => None
    else if StartsWith(s, "true") then Some((JBool(true), s[4..]))
    else if StartsWith(s, "false") then Some((JBool(false), s[5..]))
    else if StartsWith(s, "null") then Some((JNull, s[4..]))
    else if s[0] == '-' || IsDigit(s[0]) then ParseNumber(s)
    else None
  }

  /** A value with the white space around it. */
  function ParseElement(s: string): (r: Option<(Json, string)>)
    ensures r.Some? ==> |r.value.1| < |s|
    decreases |s|, 1
  {
    match ParseValue(SkipSpace(s))
    case Some((v, rest)) => Some((v, SkipSpace(rest)))
    case None => None
  }

  function ParseArray(s: string): (r: Option<(Json, string)>)
    ensures r.Some? ==> |r.value.1| < |s|
    decreases |s|, 3
  {
    var t := SkipSpace(s);
    if t != [] && t[0] == ']' then Some((JArr([]), t[1..])) else ParseItems(s, [])
  }

  function ParseItems(s: string, acc: seq<Json>): (r: Option<(Json, string)>)
    ensures r.Some? ==> |r.value.1| < |s|
    decreases |s|, 2
  {
    match ParseElement(s)
    case None => None
    case Some((v, rest)) =>
      if rest != [] && rest[0] == ',' then ParseItems(rest[1..], acc + [v])
      else if rest != [] && rest[0] == ']' then Some((JArr(acc + [v]), rest[1..]))
      else None
  }

  function ParseObject(s: string): (r: Option<(Json, string)>)
    ensures r.Some? ==> |r.value.1| < |s|
    decreases |s|, 4
  {
    var t := SkipSpace(s);
    if t != [] && t[0] == '}' then Some((JObj([]), t[1..])) else ParseMembers(s, [])
  }

  /** One member: the key string, `:` and an element. */
  function ParseMember(s: string): (r: Option<(string, Json, string)>)
    ensures r.Some? ==> |r.value.2| < |s|
    decreases |s|, 2
  {
    var t := SkipSpace(s);
    if t == [] || t[0] != '"' then None
    else match ParseStringBody(t[1..])
      case None => None
      case Some((key, r1)) => MemberValue(key, r1)
  }

  /** The rest of a member once its key has been read. */
  function MemberValue(key: string, r1: string): (r: Option<(string, Json, string)>)
    ensures r.Some? ==> |r.value.2| < |r1|
    decreases |r1|, 1
  {
    var r2 := SkipSpace(r1);
    if r2 == [] || r2[0] != ':' then None
    else match ParseElement(r2[1..])
      case None => None
      case Some((v, rest)) => Some((key, v, rest))
  }

  function ParseMembers(s: string, acc: seq<(string, Json)>): (r: Option<(Json, string)>)
    ensures r.Some? ==> |r.value.1| < |s|
    decreases |s|, 3
  {
    match ParseMember(s)
    case None => None
    case Some((key, v, rest)) =>
      if rest != [] && rest[0] == ',' then ParseMembers(rest[1..], acc + [(key, v)])
      else if rest != [] && rest[0] == '}' then Some((JObj(acc + [(key, v)]), rest[1..]))
      else None
  }

  /** `JSON.parse`: one element and nothing after it; `None` is a `SyntaxError`. */
  function Parse(text: string): Option<Json>
  {
    match ParseElement(text)
    case Some((v, rest)) => if rest == [] then Some(v) else None
    case None => None
  }

  /** A number lexeme whose value is zero: only zeros, a sign and a point before any
      exponent. */
  predicate IsZeroLexeme(l: string)
    decreases |l|
  {
    l == [] || l[0] == 'e' || l[0] == 'E' || ((l[0] == '0' || l[0] == '-' || l[0] == '.') && IsZeroLexeme(l[1..]))
  }

  /** JavaScript truthiness of a parsed value. */
  predicate Truthy(v: Json)
  {
    match v
    case JNull => false
    case JBool(b) => b
    case JNum(l) => !IsZeroLexeme(l)
    case JStr(s) => s != ""
    case JArr(_) => true
    case JObj(_) => true
  }

  /** `obj.key` on a parsed value: the last member of that name, since later
      members overwrite earlier ones; `None` is `undefined`. */
  function Member(v: Json, key: string): Option<Json>
  {
    match v
    case JObj(ms) => LastMember(ms, key)
    case _ => None
  }

  function LastMember(ms: seq<(string, Json)>, key: string): Option<Json>
    decreases |ms|
  {
    if ms == [] then None
    else if ms[|ms| - 1].0 == key then Some(ms[|ms| - 1].1)
    else LastMember(ms[..|ms| - 1], key)
  }

  function HexDigit(d: nat): char
    requires d < 16
  {
    if d < 10 then ('0' as int + d) as char else ('a' as int + d - 10) as char
  }

  /** How `JSON.stringify` writes one character inside a string literal. */
  function EscapeChar(c: char): string
  {
    if c == '"' then "\\\""
    else if c == '\\' then "\\\\"
    else if c == '\U{0008}' then "\\b"
    else if c == '\U{000C}' then "\\f"
    else if c == '\n' then "\\n"
    else if c == '\r' then "\\r"
    else if c == '\t' then "\\t"
    else if c < ' ' then "\\u00" + [HexDigit(c as int / 16), HexDigit(c as int % 16)]
    else [c]
  }

  function EscapeBody(s: string): string
    decreases |s|
  {
    if s == [] then "" else EscapeChar(s[0]) + EscapeBody(s[1..])
  }

  /** `JSON.stringify` of a string. */
  function Quote(s: string): string
  {
    "\"" + EscapeBody(s) + "\""
  }

  function MemberText(m: (string, string)): string
  {
    Quote(m.0) + ":" + Quote(m.1)
  }

  function MembersText(ms: seq<(string, string)>): string
    decreases |ms|
  {
    if ms == [] then "" else if |ms| == 1 then MemberText(ms[0]) else MemberText(ms[0]) + "," + MembersText(ms[1..])
  }

  /** `JSON.stringify` of an object whose members, in order, are strings. */
  function StringifyObject(ms: seq<(string, string)>): string
  {
    "{" + MembersText(ms) + "}"
  }

  function AsJson(ms: seq<(string, string)>): (r: seq<(string, Json)>)
    ensures |r| == |ms| && forall i :: 0 <= i < |ms| ==> r[i] == (ms[i].0, JStr(ms[i].1))
  {
    seq(|ms|, i requires 0 <= i < |ms| => (ms[i].0, JStr(ms[i].1)))
  }

  lemma HexRoundTrip(d: nat)
    requires d < 16
    ensures HexValue(HexDigit(d)) == Some(d)
  {
  }

  lemma ControlEscape(c: char, tail: string)
    requires c < ' ' && c != '\U{0008}' && c != '\U{000C}' && c != '\n' && c != '\r' && c != '\t'
    ensures ParseStringBody(EscapeChar(c) + tail) == Prepend(c, ParseStringBody(tail))
  {
    var hi, lo := c as int / 16, c as int % 16;
    HexRoundTrip(hi);
    HexRoundTrip(lo);
    var s := EscapeChar(c) + tail;
    assert s[0] == '\\' && s[1] == 'u' && s[2] == '0' && s[3] == '0';
    assert s[4] == HexDigit(hi) && s[5] == HexDigit(lo);
    assert Hex4(s[2..6]) == Some(c as int);
    assert s[6..] == tail;
  }

  lemma EscapeStep(c: char, tail: string)
    ensures ParseStringBody(EscapeChar(c) + tail) == Prepend(c, ParseStringBody(tail))
  {
    var s := EscapeChar(c) + tail;
    if c == '"' || c == '\\' || c == '\U{0008}' || c == '\U{000C}' || c == '\n' || c == '\r' || c == '\t' {
      assert s[2..] == tail;
    } else if c < ' ' {
      ControlEscape(c, tail);
    } else {
      assert s[1..] == tail;
    }
  }

  /** A string literal written by `JSON.stringify` reads back as the same string. */
  lemma {:induction false} StringBodyRoundTrip(s: string, rest: string)
    ensures ParseStringBody(EscapeBody(s) + "\"" + rest) == Some((s, rest))
    decreases |s|
  {
    if s == [] {
      assert (EscapeBody(s) + "\"" + rest)[1..] == rest;
    } else {
      var tail := EscapeBody(s[1..]) + "\"" + rest;
      assert EscapeBody(s) + "\"" + rest == EscapeChar(s[0]) + tail;
      EscapeStep(s[0], tail);
      StringBodyRoundTrip(s[1..], rest);
      assert [s[0]] + s[1..] == s;
    }
  }

  lemma ValueOfQuote(s: string)
    requires s != [] && s[0] == '"'
    ensures ParseValue(s) == match ParseStringBody(s[1..])
      case Some((t, rest)) => Some((JStr(t), rest))
      case None => None
  {
  }

  lemma ElementOfValue(s: string, v: Json, rest: string)
    requires s != [] && !IsJsonSpace(s[0])
    requires ParseValue(s) == Some((v, rest))
    requires rest == [] || !IsJsonSpace(rest[0])
    ensures ParseElement(s) == Some((v, rest))
  {
  }

  lemma QuoteText(s: string, rest: string)
    ensures Quote(s) + rest != [] && (Quote(s) + rest)[0] == '"'
    ensures (Quote(s) + rest)[1..] == EscapeBody(s) + "\"" + rest
  {
    assert Quote(s) + rest == "\"" + (EscapeBody(s) + "\"" + rest);
  }

  lemma QuoteElement(s: string, rest: string)
    requires rest == [] || !IsJsonSpace(rest[0])
    ensures ParseElement(Quote(s) + rest) == Some((JStr(s), rest))
  {
    var text := Quote(s) + rest;
    QuoteText(s, rest);
    StringBodyRoundTrip(s, rest);
    ValueOfQuote(text);
    ElementOfValue(text, JStr(s), rest);
  }

  /** What `ParseMembers` does once a member has been read and `tail` begins with the
      separator after it. */
  function AfterMember(tail: string, acc: seq<(string, Json)>): Option<(Json, string)>
    requires tail != []
  {
    if tail[0] == ',' then ParseMembers(tail[1..], acc)
    else if tail[0] == '}' then Some((JObj(acc), tail[1..]))
    else None
  }

  lemma MembersUnfold(s: string, key: string, afterKey: string, v: Json, tail: string, acc: seq<(string, Json)>)
    requires s != [] && s[0] == '"'
    requires ParseStringBody(s[1..]) == Some((key, afterKey))
    requires afterKey != [] && afterKey[0] == ':'
    requires ParseElement(afterKey[1..]) == Some((v, tail))
    requires tail != []
    ensures ParseMembers(s, acc) == AfterMember(tail, acc + [(key, v)])
  {
    MemberUnfold(s, key, afterKey, v, tail);
  }

  lemma MemberUnfold(s: string, key: string, afterKey: string, v: Json, tail: string)
    requires s != [] && s[0] == '"'
    requires ParseStringBody(s[1..]) == Some((key, afterKey))
    requires afterKey != [] && afterKey[0] == ':'
    requires ParseElement(afterKey[1..]) == Some((v, tail))
    ensures ParseMember(s) == Some((key, v, tail))
  {
    KeyUnfold(s, key, afterKey);
    ValueUnfold(key, afterKey, v, tail);
  }

  lemma KeyUnfold(s: string, key: string, afterKey: string)
    requires s != [] && s[0] == '"'
    requires ParseStringBody(s[1..]) == Some((key, afterKey))
    ensures ParseMember(s) == MemberValue(key, afterKey)
  {
  }

  lemma ValueUnfold(key: string, afterKey: string, v: Json, tail: string)
    requires afterKey != [] && afterKey[0] == ':'
    requires ParseElement(afterKey[1..]) == Some((v, tail))
    ensures MemberValue(key, afterKey) == Some((key, v, tail))
  {
  }

  lemma ColonText(q: string, x: string)
    ensures q + ":" + x == q + (":" + x)
    ensures (":" + x) != [] && (":" + x)[0] == ':' && (":" + x)[1..] == x
  {
  }

  lemma MemberStep(key: string, value: string, tail: string, acc: seq<(string, Json)>)
    requires tail != [] && (tail[0] == ',' || tail[0] == '}')
    ensures ParseMembers(Quote(key) + ":" + (Quote(value) + tail), acc)
         == AfterMember(tail, acc + [(key, JStr(value))])
  {
    var x := Quote(value) + tail;
    var afterKey := ":" + x;
    var s := Quote(key) + afterKey;
    ColonText(Quote(key), x);
    QuoteText(key, afterKey);
    StringBodyRoundTrip(key, afterKey);
    QuoteElement(value, tail);
    MembersUnfold(s, key, afterKey, JStr(value), tail, acc);
  }

  lemma MemberTextStep(m: (string, string), tail: string, acc: seq<(string, Json)>)
    requires tail != [] && (tail[0] == ',' || tail[0] == '}')
    ensures ParseMembers(MemberText(m) + tail, acc) == AfterMember(tail, acc + [(m.0, JStr(m.1))])
  {
    assert MemberText(m) + tail == Quote(m.0) + ":" + (Quote(m.1) + tail);
    MemberStep(m.0, m.1, tail, acc);
  }

  lemma LastMemberText(ms: seq<(string, string)>, acc: seq<(string, Json)>, rest: string)
    requires |ms| == 1
    ensures ParseMembers(MembersText(ms) + "}" + rest, acc) == Some((JObj(acc + AsJson(ms)), rest))
  {
    var tail := "}" + rest;
    OneMemberText(ms, rest);
    MemberTextStep(ms[0], tail, acc);
    CloseTail(rest);
    AsJsonOne(ms);
  }

  lemma OneMemberText(ms: seq<(string, string)>, rest: string)
    requires |ms| == 1
    ensures MembersText(ms) + "}" + rest == MemberText(ms[0]) + ("}" + rest)
  {
    assert MembersText(ms) == MemberText(ms[0]);
  }

  lemma CloseTail(rest: string)
    ensures ("}" + rest) != [] && ("}" + rest)[0] == '}' && ("}" + rest)[1..] == rest
  {
  }

  lemma AsJsonOne(ms: seq<(string, string)>)
    requires |ms| == 1
    ensures AsJson(ms) == [(ms[0].0, JStr(ms[0].1))]
  {
  }

  lemma Regroup(a: string, b: string, rest: string)
    ensures a + "," + b + "}" + rest == a + ("," + (b + "}" + rest))
  {
  }

  lemma MembersTextCons(ms: seq<(string, string)>, rest: string)
    requires |ms| > 1
    ensures MembersText(ms) + "}" + rest == MemberText(ms[0]) + ("," + (MembersText(ms[1..]) + "}" + rest))
  {
    var a, b := MemberText(ms[0]), MembersText(ms[1..]);
    assert MembersText(ms) == a + "," + b;
    Regroup(a, b, rest);
  }

  lemma AfterComma(tail: string, acc: seq<(string, Json)>)
    requires tail != [] && tail[0] == ','
    ensures AfterMember(tail, acc) == ParseMembers(tail[1..], acc)
  {
  }

  lemma AsJsonCons(ms: seq<(string, string)>, acc: seq<(string, Json)>)
    requires ms != []
    ensures acc + [(ms[0].0, JStr(ms[0].1))] + AsJson(ms[1..]) == acc + AsJson(ms)
  {
    assert AsJson(ms) == [(ms[0].0, JStr(ms[0].1))] + AsJson(ms[1..]);
  }

  lemma {:induction false} MembersRoundTrip(ms: seq<(string, string)>, acc: seq<(string, Json)>, rest: string)
    requires ms != []
    ensures ParseMembers(MembersText(ms) + "}" + rest, acc) == Some((JObj(acc + AsJson(ms)), rest))
    decreases |ms|
  {
    if |ms| == 1 {
      LastMemberText(ms, acc, rest);
    } else {
      var acc' := acc + [(ms[0].0, JStr(ms[0].1))];
      var later := MembersText(ms[1..]) + "}" + rest;
      var tail := "," + later;
      MembersTextCons(ms, rest);
      MemberTextStep(ms[0], tail, acc);
      assert tail[1..] == later;
      AfterComma(tail, acc');
      MembersRoundTrip(ms[1..], acc', rest);
      AsJsonCons(ms, acc);
    }
  }

  lemma ValueOfBrace(s: string)
    requires s != [] && s[0] == '{'
    ensures ParseValue(s) == ParseObject(s[1..])
  {
  }

  lemma ElementUnspaced(s: string, v: Json)
    requires s != [] && !IsJsonSpace(s[0])
    requires ParseValue(s) == Some((v, ""))
    ensures ParseElement(s) == Some((v, ""))
  {
  }

  lemma ObjectOfMember(s: string)
    requires s != [] && s[0] == '"'
    ensures ParseObject(s) == ParseMembers(s, [])
  {
  }

  lemma ObjectOfBrace(s: string)
    requires s != [] && s[0] == '}'
    ensures ParseObject(s) == Some((JObj([]), s[1..]))
  {
  }

  lemma ParseOfElement(text: string, v: Json)
    requires ParseElement(text) == Some((v, ""))
    ensures Parse(text) == Some(v)
  {
  }

  lemma ObjectUnfold(text: string, v: Json)
    requires text != [] && text[0] == '{'
    requires ParseObject(text[1..]) == Some((v, ""))
    ensures Parse(text) == Some(v)
  {
    ValueOfBrace(text);
    ElementUnspaced(text, v);
    ParseOfElement(text, v);
  }

  lemma EmptyObject()
    ensures Parse("{}") == Some(JObj([]))
  {
    var text := "{}";
    ObjectOfBrace(text[1..]);
    assert text[1..][1..] == [];
    ObjectUnfold(text, JObj([]));
  }

  lemma HeadOfConcat(a: string, b: string)
    requires a != []
    ensures (a + b)[0] == a[0]
  {
  }

  lemma QuoteHead(s: string)
    ensures Quote(s) != [] && Quote(s)[0] == '"'
  {
  }

  lemma MemberTextHead(m: (string, string))
    ensures MemberText(m) != [] && MemberText(m)[0] == '"'
  {
    QuoteHead(m.0);
    HeadOfConcat(Quote(m.0), ":" + Quote(m.1));
    assert MemberText(m) == Quote(m.0) + (":" + Quote(m.1));
  }

  lemma MembersTextHead(ms: seq<(string, string)>)
    requires ms != []
    ensures MembersText(ms) != [] && MembersText(ms)[0] == '"'
  {
    MemberTextHead(ms[0]);
    if |ms| > 1 {
      HeadOfConcat(MemberText(ms[0]), "," + MembersText(ms[1..]));
      assert MembersText(ms) == MemberText(ms[0]) + ("," + MembersText(ms[1..]));
    }
  }

  lemma BraceText(m: string)
    ensures "{" + m + "}" != [] && ("{" + m + "}")[0] == '{'
    ensures ("{" + m + "}")[1..] == m + "}" + ""
  {
    assert "{" + m + "}" == "{" + (m + "}" + "");
  }

  lemma StringifyText(ms: seq<(string, string)>)
    ensures StringifyObject(ms) != [] && StringifyObject(ms)[0] == '{'
    ensures StringifyObject(ms)[1..] == MembersText(ms) + "}" + ""
  {
    BraceText(MembersText(ms));
  }

  lemma ObjectText(text: string, body: string, v: Json)
    requires text != [] && text[0] == '{' && text[1..] == body
    requires body != [] && body[0] == '"'
    requires ParseMembers(body, []) == Some((v, ""))
    ensures Parse(text) == Some(v)
  {
    ObjectOfMember(body);
    ObjectUnfold(text, v);
  }

  lemma StringifyParseNonEmpty(ms: seq<(string, string)>)
    requires ms != []
    ensures Parse(StringifyObject(ms)) == Some(JObj(AsJson(ms)))
  {
    StringifyText(ms);
    BodyParses(ms);
    ObjectText(StringifyObject(ms), MembersText(ms) + "}" + "", JObj(AsJson(ms)));
  }

  /** The members and the closing brace parse as the object, with nothing left. */
  lemma BodyParses(ms: seq<(string, string)>)
    requires ms != []
    ensures var body := MembersText(ms) + "}" + "";
            body != [] && body[0] == '"' && ParseMembers(body, []) == Some((JObj(AsJson(ms)), ""))
  {
    MembersRoundTrip(ms, [], "");
    assert [] + AsJson(ms) == AsJson(ms);
    MembersTextHead(ms);
    HeadOfConcat(MembersText(ms), "}");
    HeadOfConcat(MembersText(ms) + "}", "");
  }

  /** An object of string members written by `JSON.stringify` parses back to the
      same members in the same order. */
  lemma StringifyParse(ms: seq<(string, string)>)
    ensures Parse(StringifyObject(ms)) == Some(JObj(AsJson(ms)))
  {
    if ms == [] {
      assert StringifyObject(ms) == "{}";
      EmptyObject();
    } else {
      StringifyParseNonEmpty(ms);
    }
  }
}
