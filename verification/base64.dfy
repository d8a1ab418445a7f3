/**
 * The base64 encoding of section 4 of RFC 4648 (standard alphabet, `=`
 * padding), as Python's `base64.b64encode` produces it, with a decoder that
 * reads its output back.
 *
 * Encoding goes in two steps: bytes to 6-bit values (with `Pad` standing
 * for a padding position), then each value to its character.
 */
module Base64 {
  import opened Wrappers
  import opened Utf8

  /** The value that stands for a `=` padding character. */
  const Pad := 64

  /** The 64 characters of the standard alphabet. */
  predicate IsSymbol(c: char) {
    'A' <= c <= 'Z' || 'a' <= c <= 'z' || '0' <= c <= '9' || c == '+' || c == '/'
  }

  /** The alphabet character for a 6-bit value. */
  function Symbol(i: int): (c: char)
    requires 0 <= i < 64
    ensures IsSymbol(c)
  {
    if i < 26 then ('A' as int + i) as char
    else if i < 52 then ('a' as int + i - 26) as char
    else if i < 62 then ('0' as int + i - 52) as char
    else if i == 62 then '+'
    else '/'
  }

  /** The 6-bit value of an alphabet character. */
  function Index(c: char): (i: int)
    requires IsSymbol(c)
    ensures 0 <= i < 64
  {
    if 'A' <= c <= 'Z' then c as int - 'A' as int
    else if 'a' <= c <= 'z' then c as int - 'a' as int + 26
    else if '0' <= c <= '9' then c as int - '0' as int + 52
    else if c == '+' then 62
    else 63
  }

  /** Every 6-bit value has an alphabet character, and that character's value is the one it came from. */
  lemma SymbolIndex(i: int)
    requires 0 <= i < 64
    ensures IsSymbol(Symbol(i)) && Index(Symbol(i)) == i
  {
  }

  predicate IsSextet(v: int) {
    0 <= v <= Pad
  }

  /** The character of a 6-bit value or of a padding position. */
  function CharOf(v: int): char
    requires IsSextet(v)
  {
    if v == Pad then '=' else Symbol(v)
  }

  /** The 6-bit value or padding position a character stands for; `None` for any other character. */
  function ValueOf(c: char): Option<int>
  {
    if c == '=' then Some(Pad) else if IsSymbol(c) then Some(Index(c)) else None
  }

  /** The 6-bit values of the encoding: four per group of three bytes, the last group padded. */
  function Sextets(b: seq<byte>): (r: seq<int>)
    ensures forall i :: 0 <= i < |r| ==> IsSextet(r[i])
    decreases |b|
  {
    if |b| == 0 then []
    else if |b| == 1 then [b[0] / 4, b[0] % 4 * 16, Pad, Pad]
    else if |b| == 2 then [b[0] / 4, b[0] % 4 * 16 + b[1] / 16, b[1] % 16 * 4, Pad]
    else [b[0] / 4, b[0] % 4 * 16 + b[1] / 16, b[1] % 16 * 4 + b[2] / 64, b[2] % 64] + Sextets(b[3..])
  }

  function Chars(v: seq<int>): (s: string)
    requires forall i :: 0 <= i < |v| ==> IsSextet(v[i])
    ensures |s| == |v|
    ensures forall i :: 0 <= i < |v| ==> (s[i] == '=' <==> v[i] == Pad) && (v[i] != Pad ==> IsSymbol(s[i]))
  {
    seq(|v|, i requires 0 <= i < |v| => CharOf(v[i]))
  }

  /** `base64.b64encode(b)`: alphabet symbols and `=` padding only. */
  function Encode(b: seq<byte>): (s: string)
    ensures forall i :: 0 <= i < |s| ==> IsSymbol(s[i]) || s[i] == '='
  {
    Chars(Sextets(b))
  }

  /** The values of the characters of `s`; `None` if one is outside the alphabet and `=`. */
  function Values(s: string): (r: Option<seq<int>>)
    ensures r.Some? ==> |r.value| == |s| && forall i :: 0 <= i < |s| ==> IsSextet(r.value[i])
  {
    if s == [] then Some([])
    else match (ValueOf(s[0]), Values(s[1..]))
      case (Some(v), Some(rest)) => Some([v] + rest)
      case _ => None
  }

  /** The byte made of the 6 bits of `c0` and the top 2 bits of `c1`. */
  function High(c0: int, c1: int): byte
    requires 0 <= c0 < 64 && 0 <= c1 < 64
  {
    c0 * 4 + c1 / 16
  }

  /** The byte made of the low 4 bits of `c1` and the top 4 bits of `c2`. */
  function Middle(c1: int, c2: int): byte
    requires 0 <= c1 < 64 && 0 <= c2 < 64
  {
    c1 % 16 * 16 + c2 / 4
  }

  /** The byte made of the low 2 bits of `c2` and the 6 bits of `c3`. */
  function Low(c2: int, c3: int): byte
    requires 0 <= c2 < 64 && 0 <= c3 < 64
  {
    c2 % 4 * 64 + c3
  }

  /** Groups of four values back to bytes; padding may only end the last group. */
  function DecodeSextets(v: seq<int>): Option<seq<byte>>
    requires forall i :: 0 <= i < |v| ==> IsSextet(v[i])
    decreases |v|
  {
    if |v| < 4 then
      if |v| == 0 then Some([]) else None
    else if v[0] == Pad || v[1] == Pad then None
    else
      assert IsSextet(v[0]) && IsSextet(v[1]) && IsSextet(v[2]) && IsSextet(v[3]);
      var x0 := High(v[0], v[1]);
      if v[2] == Pad then
        if v[3] == Pad && |v| == 4 then Some([x0]) else None
      else
        var x1 := Middle(v[1], v[2]);
        if v[3] == Pad then
          if |v| == 4 then Some([x0, x1]) else None
        else
          var x2 := Low(v[2], v[3]);
          match DecodeSextets(v[4..])
          case None => None
          case Some(rest) => Some([x0, x1, x2] + rest)
  }

  /** `None` for text that is not a padded base64 encoding. */
  function Decode(s: string): Option<seq<byte>>
  {
    match Values(s)
    case None => None
    case Some(v) => DecodeSextets(v)
  }

  /** The bit arithmetic of one group: the four 6-bit values give back the three bytes. */
  lemma GroupBits(b0: int, b1: int, b2: int)
    requires 0 <= b0 < 256 && 0 <= b1 < 256 && 0 <= b2 < 256
    ensures var c0, c1, c2, c3 := b0 / 4, b0 % 4 * 16 + b1 / 16, b1 % 16 * 4 + b2 / 64, b2 % 64;
      && 0 <= c0 < 64 && 0 <= c1 < 64 && 0 <= c2 < 64 && 0 <= c3 < 64
      && High(c0, c1) == b0 && Middle(c1, c2) == b1 && Low(c2, c3) == b2
  {
    var c1, c2 := b0 % 4 * 16 + b1 / 16, b1 % 16 * 4 + b2 / 64;
    assert c1 / 16 == b0 % 4 && c1 % 16 == b1 / 16;
    assert c2 / 4 == b1 % 16 && c2 % 4 == b2 / 64;
  }

  lemma SextetsLast1(b0: byte)
    ensures DecodeSextets([b0 / 4, b0 % 4 * 16, Pad, Pad]) == Some([b0])
  {
    GroupBits(b0, 0, 0);
  }

  lemma SextetsLast2(b0: byte, b1: byte)
    ensures DecodeSextets([b0 / 4, b0 % 4 * 16 + b1 / 16, b1 % 16 * 4, Pad]) == Some([b0, b1])
  {
    GroupBits(b0, b1, 0);
  }

  lemma SextetsGroup(c: seq<int>, x: seq<byte>, t: seq<int>, rest: seq<byte>)
    requires |c| == 4 && |x| == 3
    requires forall i :: 0 <= i < 4 ==> 0 <= c[i] < 64
    requires High(c[0], c[1]) == x[0] && Middle(c[1], c[2]) == x[1] && Low(c[2], c[3]) == x[2]
    requires forall i :: 0 <= i < |t| ==> IsSextet(t[i])
    requires DecodeSextets(t) == Some(rest)
    ensures DecodeSextets(c + t) == Some(x + rest)
  {
    var v := c + t;
    assert v[..4] == c && v[4..] == t;
    assert v[0] != Pad && v[1] != Pad && v[2] != Pad && v[3] != Pad;
    assert forall i :: 0 <= i < |v| ==> IsSextet(v[i]);
    assert x == [x[0], x[1], x[2]];
  }

  /** Bytes to 6-bit values and back is the identity. */
  lemma {:induction false} DecodeSextetsRoundTrip(b: seq<byte>)
    ensures DecodeSextets(Sextets(b)) == Some(b)
    decreases |b|
  {
    if |b| == 1 {
      SextetsLast1(b[0]);
      assert [b[0]] == b;
    } else if |b| == 2 {
      SextetsLast2(b[0], b[1]);
      assert [b[0], b[1]] == b;
    } else if |b| >= 3 {
      DecodeSextetsRoundTrip(b[3..]);
      GroupBits(b[0], b[1], b[2]);
      var c := [b[0] / 4, b[0] % 4 * 16 + b[1] / 16, b[1] % 16 * 4 + b[2] / 64, b[2] % 64];
      SextetsGroup(c, b[..3], Sextets(b[3..]), b[3..]);
      assert Sextets(b) == c + Sextets(b[3..]);
      assert b[..3] + b[3..] == b;
    }
  }

  /** Values to characters and back is the identity. */
  lemma {:induction false} ValuesRoundTrip(v: seq<int>)
    requires forall i :: 0 <= i < |v| ==> IsSextet(v[i])
    ensures Values(Chars(v)) == Some(v)
  {
    if v != [] {
      var s := Chars(v);
      if v[0] != Pad { SymbolIndex(v[0]); }
      assert ValueOf(s[0]) == Some(v[0]);
      assert s[1..] == Chars(v[1..]);
      ValuesRoundTrip(v[1..]);
      assert [v[0]] + v[1..] == v;
    }
  }

  /** Round trip: the decoder recovers every byte string from its encoding. */
  lemma DecodeEncode(b: seq<byte>)
    ensures Decode(Encode(b)) == Some(b)
  {
    ValuesRoundTrip(Sextets(b));
    DecodeSextetsRoundTrip(b);
  }

  /** Four characters for every started group of three bytes. */
  lemma {:induction false} EncodeLength(b: seq<byte>)
    ensures |Encode(b)| == (|b| + 2) / 3 * 4
    decreases |b|
  {
    if |b| >= 3 {
      EncodeLength(b[3..]);
      assert (|b| + 2) / 3 == (|b[3..]| + 2) / 3 + 1;
    }
  }

  /** With one byte over a multiple of three, the values end in two padding positions and have none before. */
  lemma {:induction false} SextetsTwoPads(b: seq<byte>)
    requires |b| % 3 == 1
    ensures |Sextets(b)| >= 4
    ensures Sextets(b)[|Sextets(b)| - 2..] == [Pad, Pad]
    ensures forall i :: 0 <= i < |Sextets(b)| - 2 ==> Sextets(b)[i] < Pad
    decreases |b|
  {
    if |b| >= 3 {
      SextetsTwoPads(b[3..]);
      var g, t := Sextets(b)[..4], Sextets(b[3..]);
      assert Sextets(b) == g + t;
      forall i | 0 <= i < |g + t| - 2
        ensures (g + t)[i] < Pad
      {
        if i >= 4 { assert (g + t)[i] == t[i - 4]; }
      }
    }
  }

  /**
   * When the byte count leaves one over a multiple of three, the encoding is
   * alphabet symbols followed by exactly two `=`.
   */
  lemma EncodeTwoPads(b: seq<byte>)
    requires |b| % 3 == 1
    ensures |Encode(b)| >= 4
    ensures Encode(b)[|Encode(b)| - 2..] == "=="
    ensures forall i :: 0 <= i < |Encode(b)| - 2 ==> IsSymbol(Encode(b)[i])
  {
    var v := Sextets(b);
    SextetsTwoPads(b);
    forall i | 0 <= i < |v| - 2
      ensures IsSymbol(Encode(b)[i])
    {
      SymbolIndex(v[i]);
    }
    assert Encode(b)[|v| - 2] == '=' && Encode(b)[|v| - 1] == '=';
  }

  /** The signature of a 16-byte digest: 22 alphabet symbols, then `==`. */
  lemma DigestEncoding(d: seq<byte>)
    requires |d| == 16
    ensures |Encode(d)| == 24
    ensures Encode(d)[22..] == "=="
    ensures forall i :: 0 <= i < 22 ==> IsSymbol(Encode(d)[i])
  {
    EncodeLength(d);
    EncodeTwoPads(d);
  }
}
