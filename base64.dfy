/**
 * Base64 as `atob` reads it: the forgiving-base64 decode of the WHATWG
 * Infra standard over the alphabet of section 4 of RFC 4648, and the padded
 * encoding of that section, which a client uses to build the header.
 */
module Base64 {
  import opened Wrappers
  import opened Strings

  /** ASCII whitespace: TAB, LF, FF, CR and SPACE. */
  predicate IsAsciiWhitespace(c: char)
  {
    c == '\t' || c == '\n' || c == 12 as char || c == '\r' || c == ' '
  }

  /** Characters of the table in section 4 of RFC 4648 (padding excluded). */
  predicate IsAlphabetChar(c: char)
  {
    'A' <= c <= 'Z' || 'a' <= c <= 'z' || '0' <= c <= '9' || c == '+' || c == '/'
  }

  predicate AllAlphabet(s: string)
  {
    forall k :: 0 <= k < |s| ==> IsAlphabetChar(s[k])
  }

  /** The character for a six-bit value, per the RFC 4648 table. */
  function AlphabetChar(v: nat): (c: char)
    requires v < 64
    ensures IsAlphabetChar(c)
  {
    if v < 26 then ('A' as int + v) as char
    else if v < 52 then ('a' as int + v - 26) as char
    else if v < 62 then ('0' as int + v - 52) as char
    else if v == 62 then '+'
    else '/'
  }

  /** The six-bit value of an alphabet character: the inverse of `AlphabetChar`. */
  function SextetOf(c: char): (v: nat)
    requires IsAlphabetChar(c)
    ensures v < 64 && AlphabetChar(v) == c
  {
    if 'A' <= c <= 'Z' then c as int - 'A' as int
    else if 'a' <= c <= 'z' then c as int - 'a' as int + 26
    else if '0' <= c <= '9' then c as int - '0' as int + 52
    else if c == '+' then 62
    else 63
  }

  lemma SextetOfAlphabetChar(v: nat)
    requires v < 64
    ensures SextetOf(AlphabetChar(v)) == v
  {
  }

  /** Step 1 of forgiving-base64 decode: every ASCII whitespace character removed. */
  function RemoveWhitespace(s: string): (r: string)
    ensures |r| <= |s|
    ensures forall k :: 0 <= k < |r| ==> !IsAsciiWhitespace(r[k])
  {
    if s == [] then []
    else (if IsAsciiWhitespace(s[0]) then [] else [s[0]]) + RemoveWhitespace(s[1..])
  }

  /** Step 2: when the length is a multiple of four, one or two trailing '=' are dropped. */
  function RemovePadding(s: string): string
  {
    if |s| % 4 == 0 && |s| >= 2 && s[|s| - 2] == '=' && s[|s| - 1] == '=' then s[..|s| - 2]
    else if |s| % 4 == 0 && |s| >= 1 && s[|s| - 1] == '=' then s[..|s| - 1]
    else s
  }

  /**
   * Steps 5 to 9: each character appends six bits to a buffer; every full
   * 24 bits become three bytes; a final 12 bits lose four bits and give one
   * byte, a final 18 bits lose two bits and give two bytes.
   */
  function DecodeSextets(s: string): (b: seq<byte>)
    requires AllAlphabet(s) && |s| % 4 != 1
    decreases |s|
  {
    if |s| >= 4 then DecodeGroup(s[..4]) + DecodeSextets(s[4..]) else DecodeTail(s)
  }

  /** A full buffer of 24 bits, read as three big-endian bytes. */
  function DecodeGroup(g: string): seq<byte>
    requires |g| == 4 && AllAlphabet(g)
  {
    var n := SextetOf(g[0]) * 262144 + SextetOf(g[1]) * 4096 + SextetOf(g[2]) * 64 + SextetOf(g[3]);
    [n / 65536, n / 256 % 256, n % 256]
  }

  /** What is left in the buffer at the end: 18 bits give two bytes, 12 bits one. */
  function DecodeTail(t: string): seq<byte>
    requires AllAlphabet(t) && (|t| == 0 || |t| == 2 || |t| == 3)
  {
    if |t| == 3 then
      var n := (SextetOf(t[0]) * 4096 + SextetOf(t[1]) * 64 + SextetOf(t[2])) / 4;
      [n / 256, n % 256]
    else if |t| == 2 then
      var n := (SextetOf(t[0]) * 64 + SextetOf(t[1])) / 16;
      [n]
    else
      []
  }

  /**
   * `atob(data)` followed by taking each character code as a byte: `None`
   * where `atob` throws an "InvalidCharacterError" DOMException.
   */
  function Atob(data: string): (r: Option<seq<byte>>)
  {
    var d := RemovePadding(RemoveWhitespace(data));
    if |d| % 4 == 1 then None
    else if !AllAlphabet(d) then None
    else Some(DecodeSextets(d))
  }

  /**
   * Section 4 of RFC 4648 without the padding: each 24-bit group of three
   * bytes is split into four 6-bit groups, each written as one character; a
   * final one or two bytes are filled with zero bits to 12 or 18 bits.
   */
  function EncodeUnpadded(b: seq<byte>): (s: string)
    ensures AllAlphabet(s)
  {
    if |b| >= 3 then Quad(b[0], b[1], b[2]) + EncodeUnpadded(b[3..]) else EncodeTail(b)
  }

  /** The four characters of one full 24-bit group. */
  function Quad(b0: byte, b1: byte, b2: byte): (s: string)
    ensures |s| == 4 && AllAlphabet(s)
  {
    [AlphabetChar(b0 / 4), AlphabetChar(b0 % 4 * 16 + b1 / 16),
     AlphabetChar(b1 % 16 * 4 + b2 / 64), AlphabetChar(b2 % 64)]
  }

  /** The characters of a final group of two bytes (three characters) or one (two). */
  function EncodeTail(b: seq<byte>): (s: string)
    requires |b| < 3
    ensures AllAlphabet(s) && |s| == (if |b| == 0 then 0 else |b| + 1)
  {
    if |b| == 2 then
      [AlphabetChar(b[0] / 4), AlphabetChar(b[0] % 4 * 16 + b[1] / 16), AlphabetChar(b[1] % 16 * 4)]
    else if |b| == 1 then
      [AlphabetChar(b[0] / 4), AlphabetChar(b[0] % 4 * 16)]
    else
      []
  }

  /** Section 4 of RFC 4648: a final partial group is padded with '=' to four characters. */
  function Encode(b: seq<byte>): (s: string)
  {
    EncodeUnpadded(b) + (if |b| % 3 == 1 then "==" else if |b| % 3 == 2 then "=" else "")
  }

  /** The 24 bits of four sextets cut from three bytes are those three bytes again. */
  lemma Group3(b0: byte, b1: byte, b2: byte)
    ensures var n := (b0 / 4) * 262144 + (b0 % 4 * 16 + b1 / 16) * 4096
                     + (b1 % 16 * 4 + b2 / 64) * 64 + b2 % 64;
      n / 65536 == b0 && n / 256 % 256 == b1 && n % 256 == b2
  {
    var n := (b0 / 4) * 262144 + (b0 % 4 * 16 + b1 / 16) * 4096
             + (b1 % 16 * 4 + b2 / 64) * 64 + b2 % 64;
    assert b0 == b0 / 4 * 4 + b0 % 4;
    assert b1 == b1 / 16 * 16 + b1 % 16;
    assert b2 == b2 / 64 * 64 + b2 % 64;
    assert n == b0 * 65536 + b1 * 256 + b2;
    DivOfSum(b0, b1 * 256 + b2, 65536);
    DivOfSum(b0 * 256 + b1, b2, 256);
    DivOfSum(b0, b1, 256);
  }

  /** Division and remainder of `q * k + r` when `r` is below `k`, for the byte widths used here. */
  lemma DivOfSum(q: int, r: int, k: int)
    requires k == 256 || k == 65536
    requires 0 <= r < k
    ensures (q * k + r) / k == q && (q * k + r) % k == r
  {
  }

  lemma Group2(b0: byte, b1: byte)
    ensures var n := ((b0 / 4) * 4096 + (b0 % 4 * 16 + b1 / 16) * 64 + b1 % 16 * 4) / 4;
      n / 256 == b0 && n % 256 == b1
  {
    var m := (b0 / 4) * 4096 + (b0 % 4 * 16 + b1 / 16) * 64 + b1 % 16 * 4;
    assert b0 == b0 / 4 * 4 + b0 % 4;
    assert b1 == b1 / 16 * 16 + b1 % 16;
    assert m == (b0 * 256 + b1) * 4;
    assert m / 4 == b0 * 256 + b1;
  }

  lemma Group1(b0: byte)
    ensures ((b0 / 4) * 64 + b0 % 4 * 16) / 16 == b0
  {
    assert b0 == b0 / 4 * 4 + b0 % 4;
    assert (b0 / 4) * 64 + b0 % 4 * 16 == b0 * 16;
  }

  /** A full group decodes to its three bytes. */
  lemma DecodeQuad(b0: byte, b1: byte, b2: byte)
    ensures DecodeGroup(Quad(b0, b1, b2)) == [b0, b1, b2]
  {
    var s := Quad(b0, b1, b2);
    var a: int, x: int, y: int, z: int := b0 / 4, b0 % 4 * 16 + b1 / 16, b1 % 16 * 4 + b2 / 64, b2 % 64;
    SextetOfAlphabetChar(a);
    SextetOfAlphabetChar(x);
    SextetOfAlphabetChar(y);
    SextetOfAlphabetChar(z);
    assert SextetOf(s[0]) == a && SextetOf(s[1]) == x && SextetOf(s[2]) == y && SextetOf(s[3]) == z;
    Group3(b0, b1, b2);
  }

  /** A final partial group decodes to its one or two bytes. */
  lemma DecodeEncodeTail(b: seq<byte>)
    requires |b| < 3
    ensures DecodeTail(EncodeTail(b)) == b
  {
    var s := EncodeTail(b);
    if |b| == 2 {
      var a: int, x: int, y: int := b[0] / 4, b[0] % 4 * 16 + b[1] / 16, b[1] % 16 * 4;
      SextetOfAlphabetChar(a);
      SextetOfAlphabetChar(x);
      SextetOfAlphabetChar(y);
      assert SextetOf(s[0]) == a && SextetOf(s[1]) == x && SextetOf(s[2]) == y;
      Group2(b[0], b[1]);
    } else if |b| == 1 {
      var a: int, x: int := b[0] / 4, b[0] % 4 * 16;
      SextetOfAlphabetChar(a);
      SextetOfAlphabetChar(x);
      assert SextetOf(s[0]) == a && SextetOf(s[1]) == x;
      Group1(b[0]);
    }
  }

  /** Decoding a full group followed by more characters decodes each in turn. */
  lemma DecodeConcat(q: string, rest: string)
    requires |q| == 4 && AllAlphabet(q) && AllAlphabet(rest) && |rest| % 4 != 1
    ensures AllAlphabet(q + rest) && |q + rest| % 4 != 1
    ensures DecodeSextets(q + rest) == DecodeGroup(q) + DecodeSextets(rest)
  {
    var s := q + rest;
    LengthStep(|rest|);
    assert s[..4] == q && s[4..] == rest;
  }

  /** Decoding the unpadded encoding gives back the bytes. */
  lemma {:induction false} DecodeEncodeUnpadded(b: seq<byte>)
    ensures |EncodeUnpadded(b)| % 4 != 1
    ensures DecodeSextets(EncodeUnpadded(b)) == b
    decreases |b|
  {
    if |b| >= 3 {
      DecodeEncodeUnpadded(b[3..]);
      DecodeEncodeGroup(b);
    } else {
      DecodeEncodeTail(b);
      assert |EncodeTail(b)| == 0 || |EncodeTail(b)| == 2 || |EncodeTail(b)| == 3;
    }
  }

  /** One full group in front of a text that decodes back keeps it decoding back. */
  lemma DecodeEncodeGroup(b: seq<byte>)
    requires |b| >= 3
    requires |EncodeUnpadded(b[3..])| % 4 != 1 && DecodeSextets(EncodeUnpadded(b[3..])) == b[3..]
    ensures |EncodeUnpadded(b)| % 4 != 1
    ensures DecodeSextets(EncodeUnpadded(b)) == b
  {
    DecodeConcat(Quad(b[0], b[1], b[2]), EncodeUnpadded(b[3..]));
    DecodeQuad(b[0], b[1], b[2]);
    assert b == [b[0], b[1], b[2]] + b[3..];
  }

  lemma LengthStep(n: nat)
    requires n % 4 != 1
    ensures (n + 4) % 4 != 1
  {
  }

  /** Number of characters an unpadded final group of `r` bytes takes. */
  function TailLength(r: nat): nat
  {
    if r == 0 then 0 else r + 1
  }

  lemma {:induction false} UnpaddedLength(b: seq<byte>)
    ensures |EncodeUnpadded(b)| == 4 * (|b| / 3) + TailLength(|b| % 3)
    decreases |b|
  {
    if |b| >= 3 {
      UnpaddedLength(b[3..]);
      DivMod3Step(|b|);
    }
  }

  lemma DivMod3Step(n: nat)
    requires n >= 3
    ensures (n - 3) / 3 == n / 3 - 1 && (n - 3) % 3 == n % 3
  {
  }

  /** The length of the unpadded encoding modulo four: 0, 2 or 3 by the number of leftover bytes. */
  lemma UnpaddedLengthMod4(b: seq<byte>)
    ensures |EncodeUnpadded(b)| % 4 == TailLength(|b| % 3)
  {
    UnpaddedLength(b);
    var k, t := |b| / 3, TailLength(|b| % 3);
    assert t < 4;
    Mod4Shift(k, t);
  }

  lemma Mod4Shift(k: nat, t: nat)
    requires t < 4
    ensures (4 * k + t) % 4 == t
  {
  }

  /** Unpadded alphabet text of length 0 modulo 4 is left as it is. */
  lemma PaddingNone(u: string)
    requires AllAlphabet(u) && |u| % 4 == 0
    ensures RemovePadding(u) == u
  {
    if |u| > 0 {
      assert IsAlphabetChar(u[|u| - 1]);
    }
  }

  /** Two '=' after text of length 2 modulo 4 are taken off. */
  lemma PaddingTwo(u: string)
    requires |u| % 4 == 2
    ensures RemovePadding(u + "==") == u
  {
    var s := u + "==";
    assert |s| == |u| + 2 && |s| % 4 == 0;
    assert s[|s| - 2] == '=' && s[|s| - 1] == '=';
    assert s[..|s| - 2] == u;
  }

  /** One '=' after alphabet text of length 3 modulo 4 is taken off. */
  lemma PaddingOne(u: string)
    requires AllAlphabet(u) && |u| % 4 == 3
    ensures RemovePadding(u + "=") == u
  {
    var s := u + "=";
    assert s[|s| - 2] == u[|u| - 1];
    assert IsAlphabetChar(u[|u| - 1]);
    assert s[..|s| - 1] == u;
  }

  /** Step 2 of the decode takes off exactly the padding the encoding put on. */
  lemma RemovePaddingOfEncode(b: seq<byte>)
    ensures RemovePadding(Encode(b)) == EncodeUnpadded(b)
  {
    var u := EncodeUnpadded(b);
    UnpaddedLengthMod4(b);
    if |b| % 3 == 0 {
      PaddingNone(u);
    } else if |b| % 3 == 1 {
      PaddingTwo(u);
    } else {
      PaddingOne(u);
    }
  }

  /** `atob` inverts the padded encoding of section 4 of RFC 4648. */
  lemma AtobEncode(b: seq<byte>)
    ensures Atob(Encode(b)) == Some(b)
  {
    var s := Encode(b);
    assert forall k :: 0 <= k < |s| ==> !IsAsciiWhitespace(s[k]) by {
      assert AllAlphabet(EncodeUnpadded(b));
    }
    NoWhitespace(s);
    RemovePaddingOfEncode(b);
    DecodeEncodeUnpadded(b);
  }

  lemma {:induction false} NoWhitespace(s: string)
    requires forall k :: 0 <= k < |s| ==> !IsAsciiWhitespace(s[k])
    ensures RemoveWhitespace(s) == s
  {
    if s != [] {
      NoWhitespace(s[1..]);
      assert s == [s[0]] + s[1..];
    }
  }

  /**
   * A value whose length leaves remainder one modulo four throws; this is
   * what `atob(undefined)` meets, since `undefined` becomes "undefined".
   */
  /** Without whitespace, a length that leaves remainder one modulo four makes `atob` throw. */
  lemma AtobLengthOneMod4(data: string)
    requires forall k :: 0 <= k < |data| ==> !IsAsciiWhitespace(data[k])
    requires |data| % 4 == 1
    ensures Atob(data) == None
  {
    NoWhitespace(data);
  }

  /**
   * `atob(undefined)` throws: `undefined` becomes the nine characters
   * "undefined", and nine leaves remainder one modulo four.
   */
  lemma AtobUndefined()
    ensures Atob("undefined") == None
  {
    AtobLengthOneMod4("undefined");
  }
}
