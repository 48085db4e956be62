/**
 * The base64 alphabet of section 4 of RFC 4648, as Python's
 * `base64.b64decode(text, validate=True)` reads it and `base64.b64encode`
 * writes it.
 *
 * With `validate=True` the decoder accepts exactly: alphabet characters,
 * then at most two '=' pad characters, where the number of pads completes
 * the last 4-character group (none after a full group, two after two
 * characters, one after three). Any other character, an interior '=' or a
 * wrong amount of padding is a `binascii.Error` (here `None`). The unused
 * low bits of a final partial group are ignored.
 */
module Base64 {
  import opened Wrappers
  import opened Utf8

  predicate IsAlphabetChar(c: char)
  {
    ('A' <= c <= 'Z') || ('a' <= c <= 'z') || ('0' <= c <= '9') || c == '+' || c == '/'
  }

  /** The 6-bit value of an alphabet character. */
  function SextetOf(c: char): (n: nat)
    requires IsAlphabetChar(c)
    ensures n < 64
  {
    if 'A' <= c <= 'Z' then c as int - 'A' as int
    else if 'a' <= c <= 'z' then c as int - 'a' as int + 26
    else if '0' <= c <= '9' then c as int - '0' as int + 52
    else if c == '+' then 62
    else 63
  }

  /** The alphabet character of a 6-bit value. */
  function CharOf(n: nat): (c: char)
    requires n < 64
    ensures IsAlphabetChar(c) && SextetOf(c) == n
  {
    if n < 26 then (n + 'A' as int) as char
    else if n < 52 then (n - 26 + 'a' as int) as char
    else if n < 62 then (n - 52 + '0' as int) as char
    else if n == 62 then '+'
    else '/'
  }

  /** The number of '=' characters at the end of `s`. */
  function TrailingPads(s: string): (n: nat)
    ensures n <= |s|
    ensures forall i :: |s| - n <= i < |s| ==> s[i] == '='
    ensures n < |s| ==> s[|s| - n - 1] != '='
  {
    if s != [] && s[|s| - 1] == '=' then TrailingPads(s[..|s| - 1]) + 1 else 0
  }

  predicate AllAlphabet(s: string)
  {
    forall i :: 0 <= i < |s| ==> IsAlphabetChar(s[i])
  }

  /** The bytes of a run of alphabet characters, four characters to three bytes. */
  function DecodeBody(body: string): seq<Byte>
    requires AllAlphabet(body)
  {
    if |body| >= 4 then
      var a, b, c, d := SextetOf(body[0]), SextetOf(body[1]), SextetOf(body[2]), SextetOf(body[3]);
      [a * 4 + b / 16, (b % 16) * 16 + c / 4, (c % 4) * 64 + d] + DecodeBody(body[4..])
    else if |body| == 3 then
      var a, b, c := SextetOf(body[0]), SextetOf(body[1]), SextetOf(body[2]);
      [a * 4 + b / 16, (b % 16) * 16 + c / 4]
    else if |body| == 2 then
      var a, b := SextetOf(body[0]), SextetOf(body[1]);
      [a * 4 + b / 16]
    else []
  }

  /** Whether the body length and the number of pads close the last group. */
  predicate PaddingFits(bodyLength: nat, pads: nat)
  {
    (bodyLength % 4 == 0 && pads == 0) || (bodyLength % 4 == 2 && pads == 2) || (bodyLength % 4 == 3 && pads == 1)
  }

  /** `base64.b64decode(text, validate=True)`, `None` for `binascii.Error`. */
  function Decode(text: string): (r: Option<seq<Byte>>)
    ensures r.Some? ==> |text| % 4 == 0
    ensures r.Some? ==> TrailingPads(text) <= 2
  {
    var pads := TrailingPads(text);
    var body := text[..|text| - pads];
    if AllAlphabet(body) && PaddingFits(|body|, pads) then Some(DecodeBody(body)) else None
  }

  /** The four characters of a full group of three bytes. */
  function GroupChars(x: Byte, y: Byte, z: Byte): (r: string)
    ensures |r| == 4 && AllAlphabet(r)
  {
    [CharOf(x / 4), CharOf((x % 4) * 16 + y / 16), CharOf((y % 16) * 4 + z / 64), CharOf(z % 64)]
  }

  /** The three alphabet characters of a final group of two bytes. */
  function PairChars(x: Byte, y: Byte): (r: string)
    ensures |r| == 3 && AllAlphabet(r)
  {
    [CharOf(x / 4), CharOf((x % 4) * 16 + y / 16), CharOf((y % 16) * 4)]
  }

  /** The two alphabet characters of a final group of one byte. */
  function SingleChars(x: Byte): (r: string)
    ensures |r| == 2 && AllAlphabet(r)
  {
    [CharOf(x / 4), CharOf((x % 4) * 16)]
  }

  /** `base64.b64encode(data)` as text: three bytes to four characters, '=' padded. */
  function Encode(data: seq<Byte>): string
  {
    if |data| >= 3 then GroupChars(data[0], data[1], data[2]) + Encode(data[3..])
    else if |data| == 2 then PairChars(data[0], data[1]) + "="
    else if |data| == 1 then SingleChars(data[0]) + "=="
    else []
  }

  /** Alphabet text joined to alphabet text is alphabet text. */
  lemma {:induction false} AlphabetAppend(a: string, b: string)
    requires AllAlphabet(a) && AllAlphabet(b)
    ensures AllAlphabet(a + b)
  {
    forall i | 0 <= i < |a + b|
      ensures IsAlphabetChar((a + b)[i])
    {
      if i >= |a| {
        assert (a + b)[i] == b[i - |a|];
      }
    }
  }

  /** The alphabet part of an encoding: everything but the pads. */
  function EncodeBody(data: seq<Byte>): (r: string)
    ensures AllAlphabet(r)
  {
    if |data| >= 3 then
      var g, rest := GroupChars(data[0], data[1], data[2]), EncodeBody(data[3..]);
      AlphabetAppend(g, rest);
      g + rest
    else if |data| == 2 then PairChars(data[0], data[1])
    else if |data| == 1 then SingleChars(data[0])
    else []
  }

  /** Four characters per full group, and two or three for a final partial one. */
  lemma {:induction false} EncodeBodyLength(data: seq<Byte>)
    ensures |EncodeBody(data)| % 4 == (if |data| % 3 == 0 then 0 else |data| % 3 + 1)
  {
    if |data| >= 3 {
      EncodeBodyLength(data[3..]);
      var k, m := |EncodeBody(data[3..])|, |data| - 3;
      assert |EncodeBody(data)| == k + 4 && |data[3..]| == m;
      assert (k + 4) % 4 == k % 4;
      assert (m + 3) % 3 == m % 3;
    }
  }

  /** Three bytes survive the trip through four sextets. */
  lemma {:induction false} GroupArith(x: Byte, y: Byte, z: Byte)
    ensures var a, b, c, d := x / 4, (x % 4) * 16 + y / 16, (y % 16) * 4 + z / 64, z % 64;
      a * 4 + b / 16 == x && (b % 16) * 16 + c / 4 == y && (c % 4) * 64 + d == z
  {
  }

  /** A full group decodes to its three bytes, ahead of whatever follows it. */
  lemma {:induction false} DecodeGroup(x: Byte, y: Byte, z: Byte, rest: string)
    requires AllAlphabet(rest)
    ensures AllAlphabet(GroupChars(x, y, z) + rest)
    ensures DecodeBody(GroupChars(x, y, z) + rest) == [x, y, z] + DecodeBody(rest)
  {
    var g := GroupChars(x, y, z);
    var body := g + rest;
    assert forall i :: 0 <= i < |body| ==> body[i] == if i < 4 then g[i] else rest[i - 4];
    assert body[4..] == rest;
    assert body[..4] == g;
    GroupArith(x, y, z);
  }

  /** A final pair of bytes decodes from its three characters. */
  lemma {:induction false} DecodePair(x: Byte, y: Byte)
    ensures DecodeBody(PairChars(x, y)) == [x, y]
  {
    GroupArith(x, y, 0);
  }

  /** A final single byte decodes from its two characters. */
  lemma {:induction false} DecodeSingle(x: Byte)
    ensures DecodeBody(SingleChars(x)) == [x]
  {
    GroupArith(x, 0, 0);
  }

  /** The body of three or more bytes starts with the first group's characters. */
  lemma {:induction false} EncodeBodyGroup(data: seq<Byte>)
    requires |data| >= 3
    ensures EncodeBody(data) == GroupChars(data[0], data[1], data[2]) + EncodeBody(data[3..])
  {
  }

  lemma {:induction false} SplitFirstGroup(data: seq<Byte>)
    requires |data| >= 3
    ensures data == [data[0], data[1], data[2]] + data[3..]
  {
  }

  lemma {:induction false} DecodeEncodeBody(data: seq<Byte>)
    ensures DecodeBody(EncodeBody(data)) == data
  {
    if |data| >= 3 {
      var x, y, z := data[0], data[1], data[2];
      EncodeBodyGroup(data);
      DecodeGroup(x, y, z, EncodeBody(data[3..]));
      DecodeEncodeBody(data[3..]);
      SplitFirstGroup(data);
    } else if |data| == 2 {
      DecodePair(data[0], data[1]);
    } else if |data| == 1 {
      DecodeSingle(data[0]);
    }
  }

  function Pads(n: nat): (r: string)
    ensures |r| == n && forall i :: 0 <= i < n ==> r[i] == '='
  {
    if n == 0 then "" else Pads(n - 1) + "="
  }

  /** The number of '=' characters `b64encode` appends for `n` bytes. */
  function PadCount(n: nat): nat
  {
    if n % 3 == 0 then 0 else 3 - n % 3
  }

  lemma {:induction false} EncodeSplits(data: seq<Byte>)
    ensures Encode(data) == EncodeBody(data) + Pads(PadCount(|data|))
  {
    if |data| >= 3 {
      var m := |data| - 3;
      assert (m + 3) % 3 == m % 3;
      assert PadCount(|data[3..]|) == PadCount(|data|);
      EncodeSplits(data[3..]);
      var g := GroupChars(data[0], data[1], data[2]);
      var p := Pads(PadCount(|data|));
      assert Encode(data) == g + Encode(data[3..]);
      assert EncodeBody(data) == g + EncodeBody(data[3..]);
      assert g + (EncodeBody(data[3..]) + p) == (g + EncodeBody(data[3..])) + p;
    } else if |data| == 2 {
      assert Pads(1) == "=";
    } else if |data| == 1 {
      assert Pads(2) == "==";
    }
  }

  /** One more pad at the end is one more trailing pad. */
  lemma {:induction false} TrailingPadsStep(t: string)
    ensures TrailingPads(t + "=") == TrailingPads(t) + 1
  {
    var u := t + "=";
    assert u[|u| - 1] == '=';
    assert u[..|u| - 1] == t;
  }

  lemma {:induction false} PaddedParts(body: string, n: nat)
    requires AllAlphabet(body) && n <= 2
    ensures TrailingPads(body + Pads(n)) == n
    ensures (body + Pads(n))[..|body|] == body
    decreases n
  {
    if n > 0 {
      PaddedParts(body, n - 1);
      assert body + Pads(n) == (body + Pads(n - 1)) + "=";
      TrailingPadsStep(body + Pads(n - 1));
    } else {
      assert body + Pads(0) == body;
      if body != [] {
        assert IsAlphabetChar(body[|body| - 1]);
      }
    }
  }

  /** Decoding undoes encoding: every byte string is read back from its base64 text. */
  lemma {:induction false} DecodeEncode(data: seq<Byte>)
    ensures Decode(Encode(data)) == Some(data)
  {
    var n := PadCount(|data|);
    EncodeSplits(data);
    EncodeBodyLength(data);
    PaddedParts(EncodeBody(data), n);
    DecodeEncodeBody(data);
  }
}
