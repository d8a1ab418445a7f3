/**
 * UTF-8, as Python's `str.encode('utf-8')` and `bytes.decode('utf-8')` do it.
 * A Dafny `char` is a Unicode scalar value, so every string can be encoded;
 * decoding is strict: overlong forms, surrogates and code points above
 * U+10FFFF are rejected, as Python's decoder rejects them.
 */
module Utf8 {
  import opened Wrappers

  type byte = x: int | 0 <= x < 256

  /** A continuation byte 10xxxxxx. */
  predicate IsContinuation(b: int) {
    0x80 <= b < 0xC0
  }

  /** The one- to four-byte encoding of a single scalar value. */
  function EncodeChar(c: char): (r: seq<byte>)
    ensures |r| == if c as int < 0x80 then 1 else if c as int < 0x800 then 2 else if c as int < 0x10000 then 3 else 4
    ensures forall i :: 1 <= i < |r| ==> IsContinuation(r[i])
  {
    var n := c as int;
    if n < 0x80 then [n]
    else if n < 0x800 then [0xC0 + n / 64, 0x80 + n % 64]
    else if n < 0x10000 then [0xE0 + n / 4096, 0x80 + n / 64 % 64, 0x80 + n % 64]
    else [0xF0 + n / 262144, 0x80 + n / 4096 % 64, 0x80 + n / 64 % 64, 0x80 + n % 64]
  }

  /** `s.encode('utf-8')`: between one and four bytes per character. */
  function Encode(s: string): (r: seq<byte>)
    ensures |s| <= |r| <= 4 * |s|
  {
    if s == [] then [] else EncodeChar(s[0]) + Encode(s[1..])
  }

  /** The code point carried by a two-, three- or four-byte sequence. */
  function Payload2(b0: int, b1: int): int { (b0 - 0xC0) * 64 + (b1 - 0x80) }
  function Payload3(b0: int, b1: int, b2: int): int { (b0 - 0xE0) * 4096 + (b1 - 0x80) * 64 + (b2 - 0x80) }
  function Payload4(b0: int, b1: int, b2: int, b3: int): int
  {
    (b0 - 0xF0) * 262144 + (b1 - 0x80) * 4096 + (b2 - 0x80) * 64 + (b3 - 0x80)
  }

  /** Decodes the character at the start of `b`; the result carries the number of bytes it took. */
  function DecodeFirst(b: seq<byte>): (r: Option<(char, nat)>)
    requires |b| > 0
    ensures r.Some? ==> 1 <= r.value.1 <= |b| && r.value.1 <= 4
  {
    var b0: int := b[0];
    if b0 < 0x80 then
      Some((b0 as char, 1))
    else if 0xC2 <= b0 < 0xE0 && 2 <= |b| && IsContinuation(b[1]) then
      Some((Payload2(b0, b[1]) as char, 2))
    else if 0xE0 <= b0 < 0xF0 && 3 <= |b| && IsContinuation(b[1]) && IsContinuation(b[2]) then
      var n := Payload3(b0, b[1], b[2]);
      if 0x800 <= n && !(0xD800 <= n < 0xE000) then Some((n as char, 3)) else None
    else if 0xF0 <= b0 < 0xF5 && 4 <= |b| && IsContinuation(b[1]) && IsContinuation(b[2]) && IsContinuation(b[3]) then
      var n := Payload4(b0, b[1], b[2], b[3]);
      if 0x10000 <= n < 0x110000 then Some((n as char, 4)) else None
    else
      None
  }

  /** `None` stands for the UnicodeDecodeError Python raises on malformed input. */
  function Decode(b: seq<byte>): (r: Option<string>)
    ensures r.Some? ==> |r.value| <= |b| <= 4 * |r.value|
    decreases |b|
  {
    if b == [] then Some([])
    else match DecodeFirst(b)
      case None => None
      case Some((c, k)) =>
        match Decode(b[k..])
        case None => None
        case Some(s) => Some([c] + s)
  }

  /** Encoding distributes over concatenation. */
  lemma {:induction false} EncodeAppend(a: string, b: string)
    ensures Encode(a + b) == Encode(a) + Encode(b)
  {
    if a == [] {
      assert a + b == b;
    } else {
      assert (a + b)[1..] == a[1..] + b;
      EncodeAppend(a[1..], b);
    }
  }

  lemma Split2(n: int)
    requires 0x80 <= n < 0x800
    ensures 2 <= n / 64 < 32 && Payload2(0xC0 + n / 64, 0x80 + n % 64) == n
  {
  }

  lemma Split3(n: int)
    requires 0x800 <= n < 0x10000
    ensures n / 4096 < 16 && Payload3(0xE0 + n / 4096, 0x80 + n / 64 % 64, 0x80 + n % 64) == n
  {
    assert n / 64 == (n / 4096) * 64 + n / 64 % 64;
    assert n == (n / 64) * 64 + n % 64;
  }

  lemma Split4(n: int)
    requires 0x10000 <= n < 0x110000
    ensures n / 262144 < 5
    ensures Payload4(0xF0 + n / 262144, 0x80 + n / 4096 % 64, 0x80 + n / 64 % 64, 0x80 + n % 64) == n
  {
    assert n / 4096 == (n / 262144) * 64 + n / 4096 % 64;
    assert n / 64 == (n / 4096) * 64 + n / 64 % 64;
    assert n == (n / 64) * 64 + n % 64;
  }

  /** The decoder reads back exactly one encoded character, whatever follows it. */
  lemma DecodeFirstEncodeChar(c: char, rest: seq<byte>)
    ensures DecodeFirst(EncodeChar(c) + rest) == Some((c, |EncodeChar(c)|))
  {
    var n := c as int;
    var b := EncodeChar(c) + rest;
    if n < 0x80 {
    } else if n < 0x800 {
      Split2(n);
      assert b[0] == 0xC0 + n / 64 && b[1] == 0x80 + n % 64;
    } else if n < 0x10000 {
      Split3(n);
      assert b[0] == 0xE0 + n / 4096 && b[1] == 0x80 + n / 64 % 64 && b[2] == 0x80 + n % 64;
    } else {
      Split4(n);
      assert b[0] == 0xF0 + n / 262144 && b[1] == 0x80 + n / 4096 % 64;
      assert b[2] == 0x80 + n / 64 % 64 && b[3] == 0x80 + n % 64;
    }
  }

  lemma Join2(b0: int, b1: int)
    requires 0xC2 <= b0 < 0xE0 && IsContinuation(b1)
    ensures var n := Payload2(b0, b1); 0x80 <= n < 0x800 && 0xC0 + n / 64 == b0 && 0x80 + n % 64 == b1
  {
  }

  lemma Join3(b0: int, b1: int, b2: int)
    requires 0xE0 <= b0 < 0xF0 && IsContinuation(b1) && IsContinuation(b2)
    ensures var n := Payload3(b0, b1, b2);
      n < 0x10000 && 0xE0 + n / 4096 == b0 && 0x80 + n / 64 % 64 == b1 && 0x80 + n % 64 == b2
  {
    var n := Payload3(b0, b1, b2);
    assert n / 64 == (b0 - 0xE0) * 64 + (b1 - 0x80);
  }

  lemma Join4(b0: int, b1: int, b2: int, b3: int)
    requires 0xF0 <= b0 < 0xF5 && IsContinuation(b1) && IsContinuation(b2) && IsContinuation(b3)
    ensures var n := Payload4(b0, b1, b2, b3);
      && 0xF0 + n / 262144 == b0 && 0x80 + n / 4096 % 64 == b1
      && 0x80 + n / 64 % 64 == b2 && 0x80 + n % 64 == b3
  {
    var n := Payload4(b0, b1, b2, b3);
    assert n / 64 == (b0 - 0xF0) * 4096 + (b1 - 0x80) * 64 + (b2 - 0x80);
    assert n / 4096 == (b0 - 0xF0) * 64 + (b1 - 0x80);
  }

  /** A character the decoder accepts is re-encoded to exactly the bytes it was read from. */
  lemma EncodeCharDecodeFirst(b: seq<byte>)
    requires |b| > 0 && DecodeFirst(b).Some?
    ensures EncodeChar(DecodeFirst(b).value.0) == b[..DecodeFirst(b).value.1]
  {
    var b0: int := b[0];
    if b0 < 0x80 {
    } else if b0 < 0xE0 {
      Join2(b0, b[1]);
    } else if b0 < 0xF0 {
      Join3(b0, b[1], b[2]);
    } else {
      Join4(b0, b[1], b[2], b[3]);
    }
  }

  /** Round trip: decoding an encoding gives the string back; it never fails. */
  lemma {:induction false} DecodeEncode(s: string)
    ensures Decode(Encode(s)) == Some(s)
  {
    if s != [] {
      var e := EncodeChar(s[0]);
      DecodeFirstEncodeChar(s[0], Encode(s[1..]));
      assert (e + Encode(s[1..]))[|e|..] == Encode(s[1..]);
      DecodeEncode(s[1..]);
      assert [s[0]] + s[1..] == s;
    }
  }

  /** One step of the decoder on bytes that decode. */
  lemma DecodeStep(b: seq<byte>)
    requires b != [] && Decode(b).Some?
    ensures DecodeFirst(b).Some?
    ensures var k := DecodeFirst(b).value.1;
      Decode(b[k..]).Some? && Decode(b).value == [DecodeFirst(b).value.0] + Decode(b[k..]).value
  {
  }

  /** Bytes split after a character's encoding are the encoding of that character followed by the rest. */
  lemma EncodeCons(b: seq<byte>, k: nat, c: char, s: string)
    requires k <= |b| && EncodeChar(c) == b[..k] && Encode(s) == b[k..]
    ensures Encode([c] + s) == b
  {
    assert ([c] + s)[1..] == s;
    assert b[..k] + b[k..] == b;
  }

  /** Round trip the other way: bytes that decode are the encoding of what they decode to. */
  lemma {:induction false} EncodeDecode(b: seq<byte>)
    requires Decode(b).Some?
    ensures Encode(Decode(b).value) == b
    decreases |b|
  {
    if b != [] {
      DecodeStep(b);
      var c, k := DecodeFirst(b).value.0, DecodeFirst(b).value.1;
      var s := Decode(b[k..]).value;
      EncodeCharDecodeFirst(b);
      EncodeDecode(b[k..]);
      EncodeCons(b, k, c, s);
    }
  }
}
