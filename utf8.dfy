/** UTF-8 as Node's `Buffer` uses it: `Buffer.from(text, 'utf8')` encodes each code
    point in one to four bytes, and `buffer.toString('utf8')` decodes, replacing each
    maximal ill-formed subsequence by U+FFFD as the Encoding Standard prescribes. */
module Utf8 {
  type Byte = x: int | 0 <= x < 256

  const Replacement: char := '\U{FFFD}'

  function EncodeChar(c: char): (r: seq<Byte>)
    ensures 1 <= |r| <= 4
  {
    var cp := c as int;
    if cp < 0x80 then [cp]
    else if cp < 0x800 then [0xC0 + cp / 64, 0x80 + cp % 64]
    else if cp < 0x10000 then [0xE0 + cp / 4096, 0x80 + (cp / 64) % 64, 0x80 + cp % 64]
    else [0xF0 + cp / 262144, 0x80 + (cp / 4096) % 64, 0x80 + (cp / 64) % 64, 0x80 + cp % 64]
  }

  function Encode(s: string): seq<Byte>
    decreases |s|
  {
    if s == [] then [] else EncodeChar(s[0]) + Encode(s[1..])
  }

  predicate InRange(b: seq<Byte>, k: nat, lo: int, hi: int)
  {
    k < |b| && lo <= b[k] <= hi
  }

  /** Reads one code point, or one replacement character for the longest prefix of an
      ill-formed sequence, and says how many bytes it took. */
  function DecodeOne(b: seq<Byte>): (r: (char, nat))
    requires b != []
    ensures 1 <= r.1 <= |b| && r.1 <= 4
  {
    var b0: int := b[0];
    if b0 < 0x80 then (b0 as char, 1)
    else if 0xC2 <= b0 <= 0xDF then
      if InRange(b, 1, 0x80, 0xBF) then (((b0 - 0xC0) * 64 + (b[1] as int - 0x80)) as char, 2)
      else (Replacement, 1)
    else if 0xE0 <= b0 <= 0xEF then
      var lo := if b0 == 0xE0 then 0xA0 else 0x80;
      var hi := if b0 == 0xED then 0x9F else 0xBF;
      if !InRange(b, 1, lo, hi) then (Replacement, 1)
      else if !InRange(b, 2, 0x80, 0xBF) then (Replacement, 2)
      else
        var cp := (b0 - 0xE0) * 4096 + (b[1] as int - 0x80) * 64 + (b[2] as int - 0x80);
        (cp as char, 3)
    else if 0xF0 <= b0 <= 0xF4 then
      var lo := if b0 == 0xF0 then 0x90 else 0x80;
      var hi := if b0 == 0xF4 then 0x8F else 0xBF;
      if !InRange(b, 1, lo, hi) then (Replacement, 1)
      else if !InRange(b, 2, 0x80, 0xBF) then (Replacement, 2)
      else if !InRange(b, 3, 0x80, 0xBF) then (Replacement, 3)
      else
        var cp := (b0 - 0xF0) * 262144 + (b[1] as int - 0x80) * 4096 + (b[2] as int - 0x80) * 64 + (b[3] as int - 0x80);
        (cp as char, 4)
    else (Replacement, 1)
  }

  /** `buffer.toString('utf8')`: total, never fails. */
  function Decode(b: seq<Byte>): string
    decreases |b|
  {
    if b == [] then [] else
      var (c, n) := DecodeOne(b);
      [c] + Decode(b[n..])
  }

  lemma DecodeOneOfEncoded(c: char, rest: seq<Byte>)
    ensures DecodeOne(EncodeChar(c) + rest) == (c, |EncodeChar(c)|)
  {
    var cp := c as int;
    if cp < 0x80 {
    } else if cp < 0x800 {
      DecodeTwo(c, rest);
    } else if cp < 0x10000 {
      DecodeThree(c, rest);
    } else {
      DecodeFour(c, rest);
    }
  }

  lemma DecodeTwo(c: char, rest: seq<Byte>)
    requires 0x80 <= c as int < 0x800
    ensures DecodeOne(EncodeChar(c) + rest) == (c, 2)
  {
    var cp := c as int;
    var hi, lo := cp / 64, cp % 64;
    assert hi * 64 + lo == cp;
    assert 2 <= hi < 32;
    var b := EncodeChar(c) + rest;
    assert b[0] == 0xC0 + hi && b[1] == 0x80 + lo;
  }

  lemma DecodeThree(c: char, rest: seq<Byte>)
    requires 0x800 <= c as int < 0x10000
    ensures DecodeOne(EncodeChar(c) + rest) == (c, 3)
  {
    var cp := c as int;
    var q := cp / 64;
    var x, y, z := q / 64, q % 64, cp % 64;
    assert q * 64 + z == cp;
    assert x * 64 + y == q;
    assert cp / 4096 == x by { assert cp == x * 4096 + y * 64 + z; }
    assert x * 4096 + y * 64 + z == cp;
    assert cp < 0xD800 || cp >= 0xE000;
    assert x == 0 ==> y >= 0x20;
    assert x == 13 ==> y < 0x20;
    var b := EncodeChar(c) + rest;
    assert b[0] == 0xE0 + x && b[1] == 0x80 + y && b[2] == 0x80 + z;
  }

  lemma DecodeFour(c: char, rest: seq<Byte>)
    requires 0x10000 <= c as int
    ensures DecodeOne(EncodeChar(c) + rest) == (c, 4)
  {
    var cp := c as int;
    assert cp <= 0x10FFFF;
    var q := cp / 64;
    var r := q / 64;
    var w, x, y, z := r / 64, r % 64, q % 64, cp % 64;
    assert q * 64 + z == cp;
    assert r * 64 + y == q;
    assert w * 64 + x == r;
    assert cp == w * 262144 + x * 4096 + y * 64 + z;
    assert cp / 262144 == w;
    assert (cp / 4096) % 64 == x by { assert cp / 4096 == r; }
    assert w == 0 ==> x >= 0x10;
    assert w == 4 ==> x < 0x10;
    assert w <= 4;
    var b := EncodeChar(c) + rest;
    assert b[0] == 0xF0 + w && b[1] == 0x80 + x && b[2] == 0x80 + y && b[3] == 0x80 + z;
  }

  /** Decoding what was encoded gives the text back. */
  lemma {:induction false} DecodeEncode(s: string)
    ensures Decode(Encode(s)) == s
    decreases |s|
  {
    if s != [] {
      var e := EncodeChar(s[0]);
      var rest := Encode(s[1..]);
      DecodeOneOfEncoded(s[0], rest);
      assert (e + rest)[|e|..] == rest;
      DecodeEncode(s[1..]);
      assert [s[0]] + s[1..] == s;
    }
  }
}
