/**
 * `generate_config` of m350.py: the signed configuration token.
 *
 * The parameter map is rendered as `{k1=v1,k2=v2,...}` in insertion order,
 * the keyed digest is taken over the prefix bytes followed by the UTF-8
 * bytes of that body, and the token is the prefix, the body, `--` and the
 * base64 text of the digest.
 */
module M350 {
  import opened Wrappers
  import opened Utf8
  import Base64
  import opened Params

  /** The 16-byte output of HMAC-MD5. */
  type Digest = d: seq<byte> | |d| == 16 witness [0, 0, 0, 0, 0, 0, 0, 0, 0, 0, 0, 0, 0, 0, 0, 0]

  /** HMAC-MD5 as a function of the key and the message; its internals are not modelled. */
  type Hmac = (seq<byte>, seq<byte>) -> Digest

  /** The connector between the signed text and the signature. */
  const Separator: string := "--"

  /** The text of the default prefix. */
  const DefaultPrefixText: string := "___VBAR_CONFIG_V1.1.0___"

  /** The default prefix, UTF-8 encoded as the default argument is. */
  const DefaultPrefix: seq<byte> := Encode(DefaultPrefixText)

  /** The UnicodeDecodeError raised when the prefix bytes are not UTF-8. */
  datatype SignError = PrefixNotUtf8

  /** `f"{k}={v}"` for one entry. */
  function Render(e: Entry): (r: string)
    ensures |r| == |e.key| + 1 + |Text(e.value)|
    ensures r[..|e.key|] == e.key && r[|e.key|] == '=' && r[|e.key| + 1..] == Text(e.value)
  {
    e.key + "=" + Text(e.value)
  }

  function Renderings(es: seq<Entry>): (r: seq<string>)
    ensures |r| == |es|
  {
    seq(|es|, i requires 0 <= i < |es| => Render(es[i]))
  }

  /** The number of commas in `s`. */
  function Commas(s: string): nat
  {
    if s == [] then 0 else (if s[0] == ',' then 1 else 0) + Commas(s[1..])
  }

  lemma {:induction false} CommasAppend(a: string, b: string)
    ensures Commas(a + b) == Commas(a) + Commas(b)
  {
    if a == [] {
      assert a + b == b;
    } else {
      assert (a + b)[1..] == a[1..] + b;
      CommasAppend(a[1..], b);
    }
  }

  lemma {:induction false} CommaFreeCount(w: string)
    ensures CommaFree(w) ==> Commas(w) == 0
  {
    if w != [] {
      CommaFreeCount(w[1..]);
    }
  }

  predicate AllCommaFree(parts: seq<string>) {
    forall i :: 0 <= i < |parts| ==> CommaFree(parts[i])
  }

  /** `",".join(parts)`: with comma-free pieces, the commas in the result are exactly the separators. */
  function Join(parts: seq<string>): (r: string)
    ensures |parts| >= 1 && AllCommaFree(parts) ==> Commas(r) == |parts| - 1
  {
    if |parts| == 0 then ""
    else if |parts| == 1 then
      CommaFreeCount(parts[0]);
      parts[0]
    else
      var rest := Join(parts[1..]);
      assert AllCommaFree(parts) ==> AllCommaFree(parts[1..]);
      CommaFreeCount(parts[0]);
      CommasAppend(parts[0], ",");
      CommasAppend(parts[0] + ",", rest);
      parts[0] + "," + rest
  }

  /** `s.split(",")`: the pieces between commas, one more than there are commas. */
  function Split(s: string): (r: seq<string>)
    ensures |r| == Commas(s) + 1
  {
    if s == [] then [""]
    else if s[0] == ',' then [""] + Split(s[1..])
    else
      var t := Split(s[1..]);
      [[s[0]] + t[0]] + t[1..]
  }

  predicate CommaFree(s: string) {
    forall i :: 0 <= i < |s| ==> s[i] != ','
  }

  /**
   * The message body `{k1=v1,...,kn=vn}`: braces around the renderings, and
   * with comma-free renderings one comma fewer than there are entries.
   */
  function Body(params: seq<Entry>): (r: string)
    ensures |r| >= 2 && r[0] == '{' && r[|r| - 1] == '}'
    ensures |params| >= 1 && AllCommaFree(Renderings(params)) ==> Commas(r) == |params| - 1
  {
    var inner := Join(Renderings(params));
    CommasAppend("{", inner);
    CommasAppend("{" + inner, "}");
    "{" + inner + "}"
  }

  /** The bytes the digest is taken over: the prefix, then bytes that decode to the body. */
  function SignedMessage(params: seq<Entry>, prefix: seq<byte>): (r: seq<byte>)
    ensures |r| >= |prefix| && r[..|prefix|] == prefix
    ensures Decode(r[|prefix|..]) == Some(Body(params))
  {
    var r := prefix + Encode(Body(params));
    DecodeEncode(Body(params));
    assert r[|prefix|..] == Encode(Body(params));
    r
  }

  /** `generate_config(params, prefix, password)`. */
  function GenerateConfig(params: seq<Entry>, prefix: seq<byte>, password: seq<byte>, hmac: Hmac): (r: Result<string, SignError>)
    ensures r.Failure? <==> Decode(prefix).None?
    ensures r.Success? ==>
      r.value == Decode(prefix).value + Body(params) + Separator + Base64.Encode(hmac(password, SignedMessage(params, prefix)))
  {
    var msg := Encode(Body(params));
    var sig := Base64.Encode(hmac(password, prefix + msg));
    match Decode(prefix)
    case None => Failure(PrefixNotUtf8)
    case Some(p) =>
      DecodeEncode(Body(params));
      Success(p + Decode(msg).value + Separator + sig)
  }

  /** `generate_config(params)` with the default prefix, as `main` calls it; it cannot fail. */
  function GenerateDefault(params: seq<Entry>, password: seq<byte>, hmac: Hmac): (token: string)
    ensures GenerateConfig(params, DefaultPrefix, password, hmac) == Success(token)
  {
    DefaultPrefixDecodes();
    GenerateConfig(params, DefaultPrefix, password, hmac).value
  }

  lemma DefaultPrefixDecodes()
    ensures Decode(DefaultPrefix) == Some(DefaultPrefixText)
  {
    DecodeEncode(DefaultPrefixText);
  }

  lemma {:induction false} SplitCommaFree(w: string)
    requires CommaFree(w)
    ensures Split(w) == [w]
  {
    if w != [] {
      SplitCommaFree(w[1..]);
      assert [w[0]] + w[1..] == w;
    }
  }

  lemma {:induction false} SplitAfterPiece(w: string, rest: string)
    requires CommaFree(w)
    ensures Split(w + "," + rest) == [w] + Split(rest)
  {
    if w == [] {
      assert w + "," + rest == [','] + rest;
      assert ([','] + rest)[1..] == rest;
    } else {
      assert (w + "," + rest)[1..] == w[1..] + "," + rest;
      SplitAfterPiece(w[1..], rest);
      assert [w[0]] + w[1..] == w;
    }
  }

  /** Round trip: splitting the join of comma-free pieces at its commas gives the pieces back. */
  lemma {:induction false} SplitJoin(parts: seq<string>)
    requires |parts| >= 1
    requires AllCommaFree(parts)
    ensures Split(Join(parts)) == parts
  {
    if |parts| == 1 {
      SplitCommaFree(parts[0]);
    } else {
      SplitJoin(parts[1..]);
      SplitAfterPiece(parts[0], Join(parts[1..]));
      assert [parts[0]] + parts[1..] == parts;
    }
  }

  /** An empty map gives the body `{}` and still a token. */
  lemma EmptyParams(prefix: seq<byte>, password: seq<byte>, hmac: Hmac)
    requires Decode(prefix).Some?
    ensures Body([]) == "{}"
    ensures GenerateConfig([], prefix, password, hmac) ==
      Success(Decode(prefix).value + "{}--" + Base64.Encode(hmac(password, prefix + Encode("{}"))))
  {
    assert Renderings([]) == [];
    assert Body([]) == "{}";
    var p := Decode(prefix).value;
    var sig := Base64.Encode(hmac(password, prefix + Encode("{}")));
    assert p + "{}" + Separator + sig == p + "{}--" + sig;
  }

  /**
   * The body lists each entry's rendering in map order: with no comma
   * inside any rendering, splitting the text between the braces at its
   * commas gives the renderings back, one per entry.
   */
  lemma BodyLists(params: seq<Entry>)
    requires |params| >= 1
    requires AllCommaFree(Renderings(params))
    ensures |Body(params)| >= 2 && Body(params)[0] == '{' && Body(params)[|Body(params)| - 1] == '}'
    ensures Split(Body(params)[1..|Body(params)| - 1]) == Renderings(params)
  {
    var b := Body(params);
    assert b[1..|b| - 1] == Join(Renderings(params));
    SplitJoin(Renderings(params));
  }

  /** Two maps with comma-free renderings give the same body only if they render entry for entry alike. */
  lemma BodyInjective(p: seq<Entry>, q: seq<Entry>)
    requires AllCommaFree(Renderings(p)) && AllCommaFree(Renderings(q))
    requires Body(p) == Body(q)
    ensures Renderings(p) == Renderings(q)
  {
    if |p| == 0 || |q| == 0 {
    } else {
      BodyLists(p);
      BodyLists(q);
    }
  }

  /** The comma join split around one piece: what comes before it, the piece, a comma and the rest. */
  lemma {:induction false} JoinAround(parts: seq<string>, i: int)
    requires 0 <= i < |parts| - 1
    ensures Join(parts) == (if i == 0 then "" else Join(parts[..i]) + ",") + (parts[i] + "," + Join(parts[i + 1..]))
  {
    if i > 0 {
      JoinAround(parts[1..], i - 1);
      assert parts[1..][i - 1] == parts[i] && parts[1..][i..] == parts[i + 1..];
      if i > 1 {
        assert parts[..i][1..] == parts[1..][..i - 1];
      } else {
        assert parts[..i] == [parts[0]];
      }
    }
  }

  /** The position of the first comma in `s`, or `|s|` when there is none. */
  function FirstComma(s: string): (n: nat)
    ensures n <= |s|
  {
    if s == [] || s[0] == ',' then 0 else 1 + FirstComma(s[1..])
  }

  lemma {:induction false} FirstCommaAfter(x: string, a: string)
    requires CommaFree(x)
    ensures FirstComma(x + "," + a) == |x|
  {
    if x != [] {
      assert (x + "," + a)[1..] == x[1..] + "," + a;
      FirstCommaAfter(x[1..], a);
    }
  }

  /** A comma-free piece followed by a comma is determined by the text it starts. */
  lemma CommaFreeHeads(x: string, y: string, a: string, b: string)
    requires CommaFree(x) && CommaFree(y)
    requires x + "," + a == y + "," + b
    ensures x == y
  {
    FirstCommaAfter(x, a);
    FirstCommaAfter(y, b);
    assert x == (x + "," + a)[..|x|];
    assert y == (y + "," + b)[..|y|];
  }

  /** Two joins that agree before position `i` and are equal have comma-free pieces at `i` only if those are equal. */
  lemma JoinsAgreeAt(r: seq<string>, q: seq<string>, i: int)
    requires |r| == |q| && 0 <= i < |r| - 1 && r[..i] == q[..i]
    requires CommaFree(r[i]) && CommaFree(q[i])
    requires Join(r) == Join(q)
    ensures r[i] == q[i]
  {
    JoinAround(r, i);
    JoinAround(q, i);
    var lead := if i == 0 then "" else Join(r[..i]) + ",";
    var u, v := r[i] + "," + Join(r[i + 1..]), q[i] + "," + Join(q[i + 1..]);
    assert lead + u == lead + v;
    assert u == (lead + u)[|lead|..] && v == (lead + v)[|lead|..];
    CommaFreeHeads(r[i], q[i], Join(r[i + 1..]), Join(q[i + 1..]));
  }

  /**
   * Order sensitivity: exchanging two entries whose renderings differ
   * changes the body, provided those two renderings contain no comma;
   * the other entries may hold anything.
   */
  lemma SwapChangesBody(params: seq<Entry>, i: int, j: int)
    requires 0 <= i < j < |params|
    requires CommaFree(Render(params[i])) && CommaFree(Render(params[j]))
    requires Render(params[i]) != Render(params[j])
    ensures Body(params[i := params[j]][j := params[i]]) != Body(params)
  {
    var swapped := params[i := params[j]][j := params[i]];
    var r, q := Renderings(params), Renderings(swapped);
    assert r[..i] == q[..i];
    assert q[i] == Render(params[j]);
    var b, c := Body(params), Body(swapped);
    assert b[1..|b| - 1] == Join(r) && c[1..|c| - 1] == Join(q);
    if c == b {
      JoinsAgreeAt(r, q, i);
    }
  }

  /**
   * Without the comma proviso the body is not order-sensitive: two entries
   * with distinct keys, one of which holds a comma, render the same body in
   * either order.
   */
  lemma CommaSwapCollision()
    ensures var x, y := Entry("a", StrVal("1")), Entry("a=1,a", StrVal("1"));
      x.key != y.key && Render(x) != Render(y) && Body([x, y]) == Body([y, x])
  {
    var x, y := Entry("a", StrVal("1")), Entry("a=1,a", StrVal("1"));
    BodyPair(x, y);
    BodyPair(y, x);
    CollisionText();
    assert Render(x) == "a" + "=" + "1";
    assert Render(y) == "a=1,a" + "=" + "1";
    TripleSwap(Render(x), Render(y));
  }

  /** The literal text of the collision, kept apart so that no `Join` or `Body` term is in scope while it is checked. */
  lemma CollisionText()
    ensures "a" + "=" + "1" == "a=1" && "a=1,a" + "=" + "1" == "a=1" + "," + "a=1"
  {
  }

  /** A piece and its own comma-doubled copy join to the same text in either order (stated over variables, so no literal is concatenated beside `Body`). */
  lemma TripleSwap(u: string, w: string)
    requires w == u + "," + u
    ensures "{" + u + "," + w + "}" == "{" + w + "," + u + "}"
  {
    assert "{" + u + "," + w + "}" == "{" + u + "," + u + "," + u + "}";
  }

  /** The body of a two-entry map. */
  lemma BodyPair(x: Entry, y: Entry)
    ensures Body([x, y]) == "{" + Render(x) + "," + Render(y) + "}"
  {
    assert Renderings([x, y]) == [Render(x), Render(y)];
    JoinPair(Render(x), Render(y));
  }

  lemma JoinPair(u: string, w: string)
    ensures Join([u, w]) == u + "," + w
  {
    assert [u, w][1..] == [w];
  }

  /**
   * The layout of a token: the prefix text and the body, then `--`, then
   * the 24-character base64 text of the digest of the signed bytes.
   */
  lemma TokenLayout(params: seq<Entry>, prefix: seq<byte>, password: seq<byte>, hmac: Hmac)
    requires GenerateConfig(params, prefix, password, hmac).Success?
    ensures var t := GenerateConfig(params, prefix, password, hmac).value;
      && |t| == |Decode(prefix).value| + |Body(params)| + 26
      && t[..|t| - 26] == Decode(prefix).value + Body(params)
      && t[|t| - 26..|t| - 24] == Separator
      && t[|t| - 24..] == Base64.Encode(hmac(password, SignedMessage(params, prefix)))
  {
    var d := hmac(password, SignedMessage(params, prefix));
    Base64.EncodeLength(d);
    ThreeParts(Decode(prefix).value + Body(params), Separator, Base64.Encode(d));
  }

  /** Where the three parts of `a + sep + sig` lie, for a two-character separator and a 24-character signature (stated apart from `GenerateConfig`, whose definition need not be in scope for it). */
  lemma ThreeParts(a: string, sep: string, sig: string)
    requires |sep| == 2 && |sig| == 24
    ensures var t := a + sep + sig;
      && |t| == |a| + 26 && t[..|t| - 26] == a && t[|t| - 26..|t| - 24] == sep && t[|t| - 24..] == sig
  {
  }

  /**
   * The signed region: dropping the last 26 characters of a token (the
   * separator and a 24-character signature) leaves text whose UTF-8 bytes
   * are exactly the bytes that were signed; the tail is `--` followed by
   * the base64 of the digest of that text, 22 alphabet symbols and `==`.
   */
  lemma SignedRegion(params: seq<Entry>, prefix: seq<byte>, password: seq<byte>, hmac: Hmac)
    requires GenerateConfig(params, prefix, password, hmac).Success?
    ensures var t := GenerateConfig(params, prefix, password, hmac).value;
      && |t| >= 26
      && Encode(t[..|t| - 26]) == SignedMessage(params, prefix)
      && t[|t| - 26..|t| - 24] == Separator
      && t[|t| - 24..] == Base64.Encode(hmac(password, Encode(t[..|t| - 26])))
      && t[|t| - 2..] == "=="
      && forall k :: |t| - 24 <= k < |t| - 2 ==> Base64.IsSymbol(t[k])
  {
    var t := GenerateConfig(params, prefix, password, hmac).value;
    var d := hmac(password, SignedMessage(params, prefix));
    TokenLayout(params, prefix, password, hmac);
    PrefixTextSigned(params, prefix);
    Base64.DigestEncoding(d);
    SignatureTail(t, Base64.Encode(d));
  }

  /** The decoded prefix text followed by the body encodes to exactly the signed bytes. */
  lemma PrefixTextSigned(params: seq<Entry>, prefix: seq<byte>)
    requires Decode(prefix).Some?
    ensures Encode(Decode(prefix).value + Body(params)) == SignedMessage(params, prefix)
  {
    EncodeDecode(prefix);
    EncodeAppend(Decode(prefix).value, Body(params));
  }

  lemma SignatureTail(t: string, sig: string)
    requires |t| >= 24 && t[|t| - 24..] == sig
    requires |sig| == 24 && sig[22..] == "==" && forall i :: 0 <= i < 22 ==> Base64.IsSymbol(sig[i])
    ensures t[|t| - 2..] == "==" && forall k :: |t| - 24 <= k < |t| - 2 ==> Base64.IsSymbol(t[k])
  {
    forall k | |t| - 24 <= k < |t| - 2
      ensures Base64.IsSymbol(t[k])
    {
      assert t[k] == sig[k - (|t| - 24)];
    }
  }

  lemma KnownRenderings()
    ensures Renderings([Entry("a", IntVal(1)), Entry("b", StrVal("x"))]) == ["a=1", "b=x"]
  {
    var es := [Entry("a", IntVal(1)), Entry("b", StrVal("x"))];
    assert NatText(1) == "1";
    assert Render(es[0]) == "a" + "=" + "1" == "a=1";
    assert Render(es[1]) == "b" + "=" + "x" == "b=x";
  }

  /** The worked example: `{"a": 1, "b": "x"}` renders as `{a=1,b=x}`. */
  lemma KnownBody()
    ensures Body([Entry("a", IntVal(1)), Entry("b", StrVal("x"))]) == "{a=1,b=x}"
  {
    var es := [Entry("a", IntVal(1)), Entry("b", StrVal("x"))];
    BodyPair(es[0], es[1]);
    KnownRenderings();
    assert Renderings(es)[0] == Render(es[0]) && Renderings(es)[1] == Render(es[1]);
    KnownText();
  }

  /** The literal text of the worked example, kept apart so that no `Join` or `Body` term is in scope while it is checked. */
  lemma KnownText()
    ensures "{" + "a=1" + "," + "b=x" + "}" == "{a=1,b=x}"
    ensures "P" + "{a=1,b=x}" == "P{a=1,b=x}" && "P{a=1,b=x}" + "--" == "P{a=1,b=x}--"
  {
  }

  /** With a prefix given as text, the token is that text, the body, `--` and the signature over the encoded whole. */
  lemma TextPrefixToken(params: seq<Entry>, text: string, password: seq<byte>, hmac: Hmac)
    ensures GenerateConfig(params, Encode(text), password, hmac)
      == Success(text + Body(params) + Separator + Base64.Encode(hmac(password, Encode(text + Body(params)))))
  {
    DecodeEncode(text);
    EncodeAppend(text, Body(params));
  }

  /** The whole token of the worked example, for the prefix `P` and the password `k`. */
  lemma KnownToken(hmac: Hmac)
    ensures GenerateConfig([Entry("a", IntVal(1)), Entry("b", StrVal("x"))], Encode("P"), Encode("k"), hmac)
      == Success("P{a=1,b=x}--" + Base64.Encode(hmac(Encode("k"), Encode("P{a=1,b=x}"))))
  {
    var es := [Entry("a", IntVal(1)), Entry("b", StrVal("x"))];
    KnownBody();
    TextPrefixToken(es, "P", Encode("k"), hmac);
    KnownText();
  }
}
