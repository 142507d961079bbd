/** Base64url (section 5 of RFC 4648) as Node's `Buffer` implements it: encoding
    writes no padding; decoding accepts both the URL-safe and the standard alphabet,
    skips characters of neither, stops at the first `=`, and drops a final group too
    short to hold a byte. */
module Base64Url {
  import opened Wrappers
  import opened Utf8

  type Sextet = x: int | 0 <= x < 64

  function SextetChar(v: Sextet): char
  {
    if v < 26 then ('A' as int + v) as char
    else if v < 52 then ('a' as int + v - 26) as char
    else if v < 62 then ('0' as int + v - 52) as char
    else if v == 62 then '-'
    else '_'
  }

  /** The value of a character of either alphabet. */
  function CharSextet(c: char): Option<Sextet>
  {
    if 'A' <= c <= 'Z' then Some(c as int - 'A' as int)
    else if 'a' <= c <= 'z' then Some(c as int - 'a' as int + 26)
    else if '0' <= c <= '9' then Some(c as int - '0' as int + 52)
    else if c == '-' || c == '+' then Some(62)
    else if c == '_' || c == '/' then Some(63)
    else None
  }

  /** The six-bit groups of a byte string, the last group padded with zero bits. */
  function ToSextets(b: seq<Byte>): seq<Sextet>
    decreases |b|
  {
    if |b| >= 3 then
      [b[0] / 4, (b[0] % 4) * 16 + b[1] / 16, (b[1] % 16) * 4 + b[2] / 64, b[2] % 64] + ToSextets(b[3..])
    else if |b| == 2 then [b[0] / 4, (b[0] % 4) * 16 + b[1] / 16, (b[1] % 16) * 4]
    else if |b| == 1 then [b[0] / 4, (b[0] % 4) * 16]
    else []
  }

  function Chars(v: seq<Sextet>): (r: string)
    ensures |r| == |v| && forall i :: 0 <= i < |v| ==> r[i] == SextetChar(v[i])
  {
    seq(|v|, i requires 0 <= i < |v| => SextetChar(v[i]))
  }

  /** `buffer.toString('base64url')`. */
  function Encode(b: seq<Byte>): string
  {
    Chars(ToSextets(b))
  }

  /** The groups the decoder reads. */
  function ReadSextets(s: string): seq<Sextet>
    decreases |s|
  {
    if s == [] || s[0] == '=' then []
    else match CharSextet(s[0])
      case None => ReadSextets(s[1..])
      case Some(v) => [v] + ReadSextets(s[1..])
  }

  function FromSextets(v: seq<Sextet>): seq<Byte>
    decreases |v|
  {
    if |v| < 2 then []
    else
      var a: int, b: int := v[0], v[1];
      if |v| == 2 then [a * 4 + b / 16]
      else
        var c: int := v[2];
        if |v| == 3 then [a * 4 + b / 16, (b % 16) * 16 + c / 4]
        else
          var d: int := v[3];
          [a * 4 + b / 16, (b % 16) * 16 + c / 4, (c % 4) * 64 + d] + FromSextets(v[4..])
  }

  /** `Buffer.from(s, 'base64url')`: total, never fails. */
  function Decode(s: string): seq<Byte>
  {
    FromSextets(ReadSextets(s))
  }

  lemma CharRoundTrip(v: Sextet)
    ensures CharSextet(SextetChar(v)) == Some(v) && SextetChar(v) != '='
  {
  }

  lemma {:induction false} ReadChars(v: seq<Sextet>)
    ensures ReadSextets(Chars(v)) == v
    decreases |v|
  {
    if v != [] {
      var s := Chars(v);
      CharRoundTrip(v[0]);
      assert s[1..] == Chars(v[1..]);
      ReadChars(v[1..]);
      assert [v[0]] + v[1..] == v;
    }
  }

  lemma GroupRoundTrip(x: Byte, y: Byte, z: Byte)
    ensures var v0, v1, v2, v3 := x / 4, (x % 4) * 16 + y / 16, (y % 16) * 4 + z / 64, z % 64;
            v0 * 4 + v1 / 16 == x && (v1 % 16) * 16 + v2 / 4 == y && (v2 % 4) * 64 + v3 == z
  {
    var v1 := (x % 4) * 16 + y / 16;
    assert v1 / 16 == x % 4 && v1 % 16 == y / 16;
    var v2 := (y % 16) * 4 + z / 64;
    assert v2 / 4 == y % 16 && v2 % 4 == z / 64;
  }

  lemma {:induction false} FromToSextets(b: seq<Byte>)
    ensures FromSextets(ToSextets(b)) == b
    decreases |b|
  {
    if |b| >= 3 {
      GroupRoundTrip(b[0], b[1], b[2]);
      var rest := ToSextets(b[3..]);
      var v := ToSextets(b);
      assert v[4..] == rest;
      FromToSextets(b[3..]);
      assert [b[0], b[1], b[2]] + b[3..] == b;
    } else if |b| == 2 {
      GroupRoundTrip(b[0], b[1], 0);
    } else if |b| == 1 {
      GroupRoundTrip(b[0], 0, 0);
    }
  }

  /** Decoding what was encoded gives the bytes back. */
  lemma DecodeEncode(b: seq<Byte>)
    ensures Decode(Encode(b)) == b
  {
    ReadChars(ToSextets(b));
    FromToSextets(b);
  }

  /** Encoded text uses only the URL-safe alphabet: no padding, no `+`, no `/`. */
  lemma EncodeAlphabet(b: seq<Byte>)
    ensures forall i :: 0 <= i < |Encode(b)| ==> CharSextet(Encode(b)[i]).Some?
    ensures forall i :: 0 <= i < |Encode(b)| ==> Encode(b)[i] !in "=+/"
  {
  }
}
