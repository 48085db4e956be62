/**
 * UTF-8 as Python's `str.encode("utf-8")` and strict `bytes.decode("utf-8")`
 * use it: a decoder that rejects overlong forms, surrogate code points,
 * code points above U+10FFFF, stray continuation bytes and truncated
 * sequences, and the encoder it inverts.
 */
module Utf8 {
  import opened Wrappers

  type Byte = b: int | 0 <= b < 256

  predicate IsContinuation(b: Byte)
  {
    0x80 <= b < 0xC0
  }

  predicate IsScalar(cp: int)
  {
    (0 <= cp < 0xD800) || (0xE000 <= cp < 0x11_0000)
  }

  /** The bytes of one character. */
  function EncodeChar(c: char): (r: seq<Byte>)
    ensures 1 <= |r| <= 4
  {
    var cp := c as int;
    if cp < 0x80 then [cp]
    else if cp < 0x800 then [0xC0 + cp / 64, 0x80 + cp % 64]
    else if cp < 0x1_0000 then [0xE0 + cp / 4096, 0x80 + (cp / 64) % 64, 0x80 + cp % 64]
    else [0xF0 + cp / 262144, 0x80 + (cp / 4096) % 64, 0x80 + (cp / 64) % 64, 0x80 + cp % 64]
  }

  /** `s.encode("utf-8")`. */
  function Encode(s: string): seq<Byte>
  {
    if s == [] then [] else EncodeChar(s[0]) + Encode(s[1..])
  }

  /** The payload bits of a continuation byte. */
  function Low6(b: Byte): nat
  {
    b % 64
  }

  /**
   * The character starting at index `i` and the index after it, or `None`
   * when the bytes there do not form a well-formed sequence.
   */
  function DecodeOne(b: seq<Byte>, i: nat): (r: Option<(char, nat)>)
    requires i < |b|
    ensures r.Some? ==> i < r.value.1 <= |b|
  {
    var lead := b[i];
    if lead < 0x80 then Some((lead as char, i + 1))
    else if 0xC2 <= lead < 0xE0 then
      if i + 1 < |b| && IsContinuation(b[i + 1]) then
        Some((((lead - 0xC0) * 64 + Low6(b[i + 1])) as char, i + 2))
      else None
    else if 0xE0 <= lead < 0xF0 then
      if i + 2 < |b| && IsContinuation(b[i + 1]) && IsContinuation(b[i + 2]) then
        var cp := (lead - 0xE0) * 4096 + Low6(b[i + 1]) * 64 + Low6(b[i + 2]);
        if 0x800 <= cp && IsScalar(cp) then Some((cp as char, i + 3)) else None
      else None
    else if 0xF0 <= lead < 0xF5 then
      if i + 3 < |b| && IsContinuation(b[i + 1]) && IsContinuation(b[i + 2]) && IsContinuation(b[i + 3]) then
        var cp := (lead - 0xF0) * 262144 + Low6(b[i + 1]) * 4096 + Low6(b[i + 2]) * 64 + Low6(b[i + 3]);
        if 0x1_0000 <= cp < 0x11_0000 then Some((cp as char, i + 4)) else None
      else None
    else None
  }

  /** Strict `bytes.decode("utf-8")` from index `i`; `None` is `UnicodeDecodeError`. */
  function DecodeFrom(b: seq<Byte>, i: nat): Option<string>
    decreases |b| - i
  {
    if i >= |b| then Some("")
    else
      var (c, j) :- DecodeOne(b, i);
      var rest :- DecodeFrom(b, j);
      Some([c] + rest)
  }

  function Decode(b: seq<Byte>): Option<string>
  {
    DecodeFrom(b, 0)
  }

  lemma {:induction false} Split3(cp: int)
    requires 0 <= cp
    ensures (cp / 4096) * 4096 + ((cp / 64) % 64) * 64 + cp % 64 == cp
  {
    assert cp == (cp / 64) * 64 + cp % 64;
    assert cp / 64 == (cp / 64 / 64) * 64 + (cp / 64) % 64;
    assert cp / 64 / 64 == cp / 4096;
  }

  lemma {:induction false} Split4(cp: int)
    requires 0 <= cp
    ensures (cp / 262144) * 262144 + ((cp / 4096) % 64) * 4096 + ((cp / 64) % 64) * 64 + cp % 64 == cp
  {
    Split3(cp);
    assert cp / 4096 == (cp / 4096 / 64) * 64 + (cp / 4096) % 64;
    assert cp / 4096 / 64 == cp / 262144;
  }

  /** A two-byte character decodes back to itself. */
  lemma {:induction false} DecodeTwo(b: seq<Byte>, i: nat, c: char)
    requires 0x80 <= c as int < 0x800 && i + 1 < |b|
    requires b[i] == 0xC0 + (c as int) / 64 && b[i + 1] == 0x80 + (c as int) % 64
    ensures DecodeOne(b, i) == Some((c, i + 2))
  {
    var cp := c as int;
    assert (cp / 64) * 64 + cp % 64 == cp;
    assert Low6(b[i + 1]) == cp % 64;
  }

  /** A three-byte character decodes back to itself. */
  lemma {:induction false} DecodeThree(b: seq<Byte>, i: nat, c: char)
    requires 0x800 <= c as int < 0x1_0000 && i + 2 < |b|
    requires b[i] == 0xE0 + (c as int) / 4096
    requires b[i + 1] == 0x80 + ((c as int) / 64) % 64 && b[i + 2] == 0x80 + (c as int) % 64
    ensures DecodeOne(b, i) == Some((c, i + 3))
  {
    var cp := c as int;
    Split3(cp);
    assert Low6(b[i + 1]) == (cp / 64) % 64 && Low6(b[i + 2]) == cp % 64;
    assert (b[i] - 0xE0) * 4096 + Low6(b[i + 1]) * 64 + Low6(b[i + 2]) == cp;
  }

  /** A four-byte character decodes back to itself. */
  lemma {:induction false} DecodeFour(b: seq<Byte>, i: nat, c: char)
    requires 0x1_0000 <= c as int && i + 3 < |b|
    requires b[i] == 0xF0 + (c as int) / 262144
    requires b[i + 1] == 0x80 + ((c as int) / 4096) % 64
    requires b[i + 2] == 0x80 + ((c as int) / 64) % 64 && b[i + 3] == 0x80 + (c as int) % 64
    ensures DecodeOne(b, i) == Some((c, i + 4))
  {
    var cp := c as int;
    Split4(cp);
    assert Low6(b[i + 1]) == (cp / 4096) % 64 && Low6(b[i + 2]) == (cp / 64) % 64 && Low6(b[i + 3]) == cp % 64;
    assert (b[i] - 0xF0) * 262144 + Low6(b[i + 1]) * 4096 + Low6(b[i + 2]) * 64 + Low6(b[i + 3]) == cp;
  }

  /** Each character's bytes decode back to it. */
  lemma {:induction false} DecodeEncodeChar(b: seq<Byte>, i: nat, c: char)
    requires i + |EncodeChar(c)| <= |b| && b[i..i + |EncodeChar(c)|] == EncodeChar(c)
    ensures DecodeOne(b, i) == Some((c, i + |EncodeChar(c)|))
  {
    var e := EncodeChar(c);
    var cp := c as int;
    assert b[i] == e[0];
    if cp < 0x80 {
    } else if cp < 0x800 {
      assert b[i + 1] == e[1];
      DecodeTwo(b, i, c);
    } else if cp < 0x1_0000 {
      assert b[i + 1] == e[1] && b[i + 2] == e[2];
      DecodeThree(b, i, c);
    } else {
      assert b[i + 1] == e[1] && b[i + 2] == e[2] && b[i + 3] == e[3];
      DecodeFour(b, i, c);
    }
  }

  /** Decoding goes on after a well-formed character. */
  lemma {:induction false} DecodeFromStep(b: seq<Byte>, i: nat, j: nat, s: string)
    requires i < |b| && s != []
    requires DecodeOne(b, i) == Some((s[0], j)) && DecodeFrom(b, j) == Some(s[1..])
    ensures DecodeFrom(b, i) == Some(s)
  {
    assert [s[0]] + s[1..] == s;
  }

  /** The bytes after the first character's are the encoding of the rest. */
  lemma {:induction false} EncodeSplit(b: seq<Byte>, i: nat, s: string)
    requires i <= |b| && b[i..] == Encode(s) && s != []
    ensures i + |EncodeChar(s[0])| <= |b|
    ensures b[i..i + |EncodeChar(s[0])|] == EncodeChar(s[0])
    ensures b[i + |EncodeChar(s[0])|..] == Encode(s[1..])
  {
    var e := EncodeChar(s[0]);
    assert Encode(s) == e + Encode(s[1..]);
    assert b[i..][..|e|] == e;
    assert b[i..][|e|..] == Encode(s[1..]);
  }

  /** Decoding undoes `encode("utf-8")`. */
  lemma {:induction false} DecodeEncodeFrom(b: seq<Byte>, i: nat, s: string)
    requires i <= |b| && b[i..] == Encode(s)
    ensures DecodeFrom(b, i) == Some(s)
    decreases |s|
  {
    if s != [] {
      var j := i + |EncodeChar(s[0])|;
      EncodeSplit(b, i, s);
      DecodeEncodeChar(b, i, s[0]);
      DecodeEncodeFrom(b, j, s[1..]);
      DecodeFromStep(b, i, j, s);
    } else {
      assert |b| - i == 0;
    }
  }

  lemma {:induction false} DecodeEncode(s: string)
    ensures Decode(Encode(s)) == Some(s)
  {
    var b := Encode(s);
    assert b[0..] == b;
    DecodeEncodeFrom(b, 0, s);
  }
}
