/**
 * UTF-8 as `new TextDecoder().decode(bytes)` reads it: the UTF-8 decoder of
 * the WHATWG Encoding standard with error mode "replacement", followed by
 * removal of one leading byte order mark (the decoder's "ignore BOM" flag is
 * off by default). The encoder is the one of the same standard, which a
 * client uses to build a credential.
 */
module Utf8 {
  import opened Strings

  /** U+FFFD, written for every malformed sequence. */
  const Replacement: char := 0xFFFD as char

  /** U+FEFF, the byte order mark. */
  const Bom: char := 0xFEFF as char

  predicate IsContinuation(x: byte)
  {
    0x80 <= x <= 0xBF
  }

  /** The six low bits a continuation byte carries. */
  function Payload(x: byte): int
  {
    x as int - 0x80
  }

  /**
   * One step of the decoder: the character the leading bytes of `b` encode,
   * or U+FFFD, and how many bytes the step consumes. A byte that breaks a
   * sequence is not consumed: it is put back and starts the next step. An
   * unfinished sequence at the end of input gives one U+FFFD.
   */
  function DecodeStep(b: seq<byte>): (r: (char, nat))
    requires |b| > 0
    ensures 1 <= r.1 <= |b|
  {
    var lead: int := b[0];
    if lead < 0x80 then
      (lead as char, 1)
    else if 0xC2 <= lead <= 0xDF then
      if |b| < 2 then (Replacement, |b|)
      else if !IsContinuation(b[1]) then (Replacement, 1)
      else (((lead - 0xC0) * 64 + Payload(b[1])) as char, 2)
    else if 0xE0 <= lead <= 0xEF then
      var lower := if lead == 0xE0 then 0xA0 else 0x80;
      var upper := if lead == 0xED then 0x9F else 0xBF;
      if |b| < 2 then (Replacement, |b|)
      else if !(lower <= b[1] <= upper) then (Replacement, 1)
      else if |b| < 3 then (Replacement, |b|)
      else if !IsContinuation(b[2]) then (Replacement, 2)
      else (((lead - 0xE0) * 4096 + Payload(b[1]) * 64 + Payload(b[2])) as char, 3)
    else if 0xF0 <= lead <= 0xF4 then
      var lower := if lead == 0xF0 then 0x90 else 0x80;
      var upper := if lead == 0xF4 then 0x8F else 0xBF;
      if |b| < 2 then (Replacement, |b|)
      else if !(lower <= b[1] <= upper) then (Replacement, 1)
      else if |b| < 3 then (Replacement, |b|)
      else if !IsContinuation(b[2]) then (Replacement, 2)
      else if |b| < 4 then (Replacement, |b|)
      else if !IsContinuation(b[3]) then (Replacement, 3)
      else (((lead - 0xF0) * 262144 + Payload(b[1]) * 4096 + Payload(b[2]) * 64 + Payload(b[3])) as char, 4)
    else
      (Replacement, 1)
  }

  /** The decoder run to the end of its input, one character per step. */
  function Decode(b: seq<byte>): (s: string)
    ensures |s| <= |b|
    decreases |b|
  {
    if b == [] then [] else
      var (c, n) := DecodeStep(b);
      [c] + Decode(b[n..])
  }

  /** A leading byte order mark removed, as the decoder does when it is not told to keep it. */
  function StripBom(s: string): string
  {
    if |s| > 0 && s[0] == Bom then s[1..] else s
  }

  /** `new TextDecoder().decode(b)`. */
  function TextDecode(b: seq<byte>): string
  {
    StripBom(Decode(b))
  }

  /** The UTF-8 bytes of one character: one to four bytes by the size of its scalar value. */
  function EncodeChar(c: char): (e: seq<byte>)
    ensures 1 <= |e| <= 4
  {
    var n := c as int;
    if n < 0x80 then [n]
    else if n < 0x800 then [0xC0 + n / 64, 0x80 + n % 64]
    else if n < 0x10000 then [0xE0 + n / 4096, 0x80 + n / 64 % 64, 0x80 + n % 64]
    else [0xF0 + n / 262144, 0x80 + n / 4096 % 64, 0x80 + n / 64 % 64, 0x80 + n % 64]
  }

  function Encode(s: string): (b: seq<byte>)
  {
    if s == [] then [] else EncodeChar(s[0]) + Encode(s[1..])
  }

  lemma TwoByte(n: int)
    requires 0x80 <= n < 0x800
    ensures 0xC2 <= 0xC0 + n / 64 <= 0xDF && 0x80 <= 0x80 + n % 64 <= 0xBF
    ensures (n / 64) * 64 + n % 64 == n
  {
  }

  lemma ThreeByte(n: int)
    requires 0x800 <= n < 0x10000
    ensures var q, m, r := n / 4096, n / 64 % 64, n % 64;
      q * 4096 + m * 64 + r == n && q < 16 && m < 64 && r < 64
      && (q == 0 ==> m >= 0x20) && (q == 0xD ==> (n < 0xD800 <==> m < 0x20))
  {
    var p := n / 64;
    assert n == p * 64 + n % 64;
    assert p == p / 64 * 64 + p % 64;
    assert p / 64 == n / 4096;
  }

  lemma FourByte(n: int)
    requires 0x10000 <= n < 0x110000
    ensures var q, m, l, r := n / 262144, n / 4096 % 64, n / 64 % 64, n % 64;
      q * 262144 + m * 4096 + l * 64 + r == n && q <= 4 && m < 64 && l < 64 && r < 64
      && (q == 0 ==> m >= 0x10) && (q == 4 ==> m < 0x10)
  {
    var p := n / 64;
    var t := p / 64;
    assert n == p * 64 + n % 64;
    assert p == t * 64 + p % 64;
    assert t == t / 64 * 64 + t % 64;
    assert t == n / 4096;
    assert t / 64 == n / 262144;
  }

  /** The decoder reads back one encoded character, whatever follows it. */
  lemma DecodeStepEncodeChar(c: char, rest: seq<byte>)
    ensures DecodeStep(EncodeChar(c) + rest) == (c, |EncodeChar(c)|)
  {
    var n := c as int;
    var b := EncodeChar(c) + rest;
    if n < 0x80 {
    } else if n < 0x800 {
      TwoByte(n);
    } else if n < 0x10000 {
      ThreeByte(n);
      assert n < 0xD800 || 0xE000 <= n;
    } else {
      FourByte(n);
    }
  }

  /** Decoding inverts encoding. */
  lemma {:induction false} DecodeEncode(s: string)
    ensures Decode(Encode(s)) == s
  {
    if s != [] {
      var e := EncodeChar(s[0]);
      var rest := Encode(s[1..]);
      DecodeStepEncodeChar(s[0], rest);
      assert (e + rest)[|e|..] == rest;
      DecodeEncode(s[1..]);
      assert s == [s[0]] + s[1..];
    }
  }

  /**
   * `TextDecoder` gives back the encoded text, except that a leading
   * U+FEFF is taken for a byte order mark and dropped.
   */
  lemma TextDecodeEncode(s: string)
    ensures TextDecode(Encode(s)) == StripBom(s)
  {
    DecodeEncode(s);
  }

  /** A byte that cannot start a sequence is replaced on its own. */
  lemma StrayByteReplaced(x: byte, rest: seq<byte>)
    requires 0x80 <= x <= 0xC1 || 0xF5 <= x
    ensures DecodeStep([x] + rest) == (Replacement, 1)
  {
  }
}
