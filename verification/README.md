# Signed configuration tokens for VGUANG M350 readers

This project models, in Dafny, how the M350 provisioning tool builds the
signed configuration token that it prints into a device's QR code, and the
per-device preparation that precedes it.

- `generate_config` (m350.py) renders an insertion-ordered parameter map as
  `{k1=v1,k2=v2,...}`, prepends the prefix `___VBAR_CONFIG_V1.1.0___`, takes
  HMAC-MD5 keyed by the password over the prefix bytes followed by the UTF-8
  bytes of the body, and returns prefix, body, `--` and the base64 text of the
  digest. Modelled in `m350.dfy` (module `M350`), on top of a concrete UTF-8
  codec (`utf8.dfy`), the padded base64 of section 4 of RFC 4648
  (`base64.dfy`), Python's `str()` of integers and strings (`params.dfy`) and
  Python's insertion-ordered `dict` (`ordered_dict.dfy`).
- `main` (main.py) replaces a missing or empty map by `get_default_config()`,
  rejects a device name with a character at or above code 128, overwrites
  `haddr` in the map in place with the quoted result of `urljoin(url,
  device_name)` (a malformed URL makes `urljoin` raise `ValueError` before
  the write), signs the map, and names the image `device_name + ".png"`.
  Modelled in `provisioning.dfy` (module `Provisioning`) as the method
  `Provision` over the mutable map `OrderedDict.ConfigDict`.

HMAC-MD5 and `urljoin` are function-valued parameters (`M350.Hmac`, whose
results are 16 bytes by type, and `Provisioning.UrlJoin`, whose `None`
stands for the `ValueError` it raises on a malformed authority). Beyond
those result types, nothing is assumed about them. The password, which the source reads from the `PASSWORD`
environment variable, is a parameter too.

The order-sensitivity of the body holds only for entries whose renderings
contain no comma: `M350.CommaSwapCollision` exhibits two entries with distinct
keys (`a` and `a=1,a`) whose swap leaves the body `{a=1,a=1,a=1}` unchanged,
since the format has no escaping. `M350.SwapChangesBody` proves that swapping
two entries with differing comma-free renderings changes the body, whatever
the other entries hold; this covers a map whose `haddr` holds a comma, as a
device name such as `a,b` passes the ASCII check and ends up there.

An empty parameter map is accepted and signed with the body `{}`; it is not an
error, as the code at m350.py:34-35 shows.

## Model

| member | source | states |
|---|---|---|
| `Utf8.Encode` | m350.py:35 | `str.encode('utf-8')` gives between one and four bytes per character |
| `Utf8.Decode` | m350.py:42 | `bytes.decode('utf-8')`, when it succeeds, gives one character per one to four bytes; `None` stands for the UnicodeDecodeError |
| `Utf8.EncodeChar` | m350.py:35 | the UTF-8 encoding of one character is one to four bytes, by code point range, with continuation bytes after the first |
| `Utf8.DecodeEncode` | m350.py:35 | decoding the UTF-8 encoding of a string gives that string back and never fails, so the body text in the token is the body that was encoded |
| `Utf8.EncodeDecode` | m350.py:42 | prefix bytes that decode are exactly the encoding of the decoded text |
| `Utf8.EncodeAppend` | m350.py:38 | encoding distributes over concatenation, so the signed bytes are the encoding of prefix text plus body |
| `Utf8.DecodeFirstEncodeChar` | m350.py:42 | the decoder reads back one encoded character and its byte count, whatever follows |
| `Utf8.EncodeCharDecodeFirst` | m350.py:42 | a character the decoder accepts re-encodes to exactly the bytes it was read from |
| `Base64.Symbol` | m350.py:39 | every 6-bit value maps to a character of the standard alphabet |
| `Base64.Index` | m350.py:39 | the value of an alphabet character is a 6-bit value |
| `Base64.SymbolIndex` | m350.py:39 | each 6-bit value maps to a character of the standard alphabet whose value is that number again |
| `Base64.Sextets` | m350.py:39 | each group of three bytes gives four values that are 6-bit values or padding positions |
| `Base64.Values` | m350.py:39 | the characters of accepted text give one 6-bit value or padding position each (the reader half of the base64 decoder, which exists for the round trip `Base64.DecodeEncode`) |
| `Base64.GroupBits` | m350.py:39 | the four 6-bit values cut from three bytes are below 64 and reassemble into those bytes |
| `Base64.Chars` | m350.py:39 | one character per value: `=` exactly at the padding positions, an alphabet symbol everywhere else |
| `Base64.Encode` | m350.py:39 | `base64.b64encode` produces only alphabet symbols and `=` |
| `Base64.DecodeSextetsRoundTrip` | m350.py:39 | the 6-bit values of any byte string, padding included, read back as that byte string |
| `Base64.ValuesRoundTrip` | m350.py:39 | characters of 6-bit values and padding read back as those values |
| `Base64.DecodeEncode` | m350.py:39 | the base64 text of any byte string decodes back to it |
| `Base64.EncodeLength` | m350.py:39 | the base64 text has four characters per started group of three bytes |
| `Base64.SextetsTwoPads` | m350.py:39 | when the byte count is one more than a multiple of three, the values end in exactly two padding positions |
| `Base64.EncodeTwoPads` | m350.py:39 | when the byte count is one more than a multiple of three, the text is alphabet symbols followed by exactly `==` |
| `Base64.DigestEncoding` | m350.py:38-39 | the base64 text of a 16-byte digest is 24 characters: 22 alphabet symbols, then `==` |
| `Params.DigitChar` | m350.py:34 | a decimal digit value becomes a digit character |
| `Params.NatText` | m350.py:34 | the decimal text of a natural number is non-empty, all digits, and starts with `0` only when it is exactly `0` |
| `Params.IntText` | m350.py:34 | `str(i)` starts with a minus sign exactly when `i` is negative, and the rest is one or more decimal digits, starting with `0` only when it is exactly `0` |
| `Params.Text` | m350.py:34 | a string value is rendered as it is, without quotes; an integer value is rendered as its canonical decimal text `IntText`, which reads back as that integer |
| `Params.IntTextRoundTrip` | m350.py:34 | the decimal text of every integer, sign included, reads back as that integer |
| `OrderedDict.Lookup` | main.py:107 | a key is found exactly when the map holds it |
| `OrderedDict.LookupAt` | main.py:107 | in a map with distinct keys, each entry is what a lookup of its key finds |
| `OrderedDict.Assign` | main.py:107 | after `d[k] = v` the key is present, and the dict has grown by one entry exactly when the key was new |
| `OrderedDict.AssignLookup` | main.py:107 | after `d[k] = v`, `d[k]` is `v` and every other key looks up as before |
| `OrderedDict.AssignExisting` | main.py:107 | assigning to a key already present replaces that entry at its position and changes nothing else |
| `OrderedDict.AssignNew` | main.py:107 | assigning to a new key appends it after all existing entries |
| `OrderedDict.AssignDistinct` | main.py:107 | assignment keeps the keys distinct |
| `OrderedDict.ConfigDict.constructor` | main.py:23-40 | a new map holds the given entries in the given order |
| `OrderedDict.ConfigDict.Put` | main.py:107 | the map's new entries are the old ones with the key assigned, keys still distinct |
| `M350.Render` | m350.py:34 | `f"{k}={v}"` is the key, then `=`, then the value's text |
| `M350.Renderings` | m350.py:34 | one `k=v` rendering per entry |
| `M350.Join` | m350.py:34 | `",".join` of one or more comma-free pieces holds exactly one comma fewer than there are pieces: the separators |
| `M350.JoinAround` | m350.py:34 | the join of a list is the join of the pieces before position `i`, a comma, the piece at `i`, a comma and the join of the rest |
| `M350.Split` | m350.py:34 | splitting at commas yields one more piece than there are commas (the reader for the joined body) |
| `M350.SplitJoin` | m350.py:34 | splitting the comma join of comma-free pieces at its commas gives the pieces back: no sorting, dropping or merging |
| `M350.Body` | m350.py:35 | the body is `{`, the joined renderings, `}`; with comma-free renderings it holds one comma fewer than there are entries |
| `M350.SignedMessage` | m350.py:38 | the signed bytes are the prefix bytes followed by bytes that decode to the body |
| `M350.GenerateConfig` | m350.py:6-42 | fails exactly when the prefix is not UTF-8; otherwise the token is prefix text, body, `--`, and the base64 of the HMAC of the password over prefix bytes plus encoded body |
| `M350.GenerateDefault` | m350.py:8 | with the default prefix the token is always produced |
| `M350.DefaultPrefixDecodes` | m350.py:8 | the default prefix decodes to `___VBAR_CONFIG_V1.1.0___` |
| `M350.EmptyParams` | m350.py:34-35 | an empty map gives the body `{}` and still a token, signed over prefix plus `{}` |
| `M350.BodyLists` | m350.py:34-35 | the body is `{`, the entries' renderings in map order separated by single commas, then `}` |
| `M350.BodyInjective` | m350.py:34-35 | two maps with comma-free renderings give the same body only if they render entry for entry alike |
| `M350.CommaFreeHeads` | m350.py:34 | a comma-free piece followed by a comma is determined by the text it starts |
| `M350.JoinsAgreeAt` | m350.py:34 | two equal joins that agree before position `i` have equal pieces at `i` when those pieces are comma-free |
| `M350.SwapChangesBody` | m350.py:34 | swapping two entries whose renderings differ and contain no comma changes the body, whatever the other entries hold |
| `M350.BodyPair` | m350.py:34-35 | the body of a two-entry map is `{`, the first rendering, `,`, the second rendering, `}` |
| `M350.CommaSwapCollision` | m350.py:34 | two entries with distinct keys, one holding a comma, give the same body in either order |
| `M350.TokenLayout` | m350.py:38-42 | a token is prefix text and body, then `--`, then the 24-character base64 text of the HMAC over prefix bytes plus encoded body |
| `M350.SignatureTail` | m350.py:39-42 | a token whose last 24 characters are a digest's base64 text ends in `==` preceded by 22 alphabet symbols |
| `M350.PrefixTextSigned` | m350.py:38-42 | the decoded prefix text followed by the body encodes to exactly the signed bytes |
| `M350.SignedRegion` | m350.py:38-42 | the last 26 characters of a token are `--` and 24 signature characters ending in `==`; the rest encodes to exactly the signed bytes, and the signature is the base64 HMAC of that |
| `M350.KnownBody` | m350.py:34-35 | the map `{"a": 1, "b": "x"}` renders as `{a=1,b=x}` |
| `M350.TextPrefixToken` | m350.py:34-42 | with a prefix given as UTF-8 text, the token is that text, the body, `--` and the base64 of the HMAC over the encoding of text plus body |
| `M350.KnownToken` | m350.py:34-42 | for `{"a": 1, "b": "x"}`, the prefix `P` and the password `k`, the token is `P{a=1,b=x}--` followed by the base64 of the HMAC of `k` over `P{a=1,b=x}` |
| `Provisioning.DefaultConfig` | main.py:13-40 | the default map has 16 distinct keys with `haddr` = `http://localhost/` at position 14 |
| `Provisioning.IsAscii` | main.py:103 | true exactly when every character has a code below 128 |
| `Provisioning.HaddrValue` | main.py:107 | the value written to `haddr` is the joined URL between two double quotes |
| `Provisioning.WithHaddr` | main.py:107 | after the update `haddr` looks up as that quoted URL, and the map grew by one entry exactly when it had no `haddr` |
| `Provisioning.Provision` | main.py:99-115 | a non-ASCII name fails, and so does a URL `urljoin` rejects, both with the caller's map untouched; otherwise the token is `generate_config` of the fallback map with `haddr` set, the file is `device_name.png`, and a non-empty caller map is updated in place while an empty one is left alone |
| `Provisioning.HaddrUpdate` | main.py:107 | after the update `haddr` holds the quoted URL, every other key keeps its value, an existing `haddr` keeps its place with nothing else moved, a missing one is appended last |
| `Provisioning.DefaultHaddrUpdate` | main.py:99-107 | on the default map `haddr` is overwritten at position 14 and the other fifteen entries stay |

## Left out

- HMAC-MD5 internals: a parameter of type `M350.Hmac`; only its 16-byte result length is used.
- `urljoin` (relative reference resolution of section 5.2 of RFC 3986, and which authorities it rejects): a parameter of type `Provisioning.UrlJoin`; the model keeps only whether it returns or raises.
- The `PASSWORD` environment lookup, the `uuid4` default device name and the default `url` of `main` (main.py:84): the first two are evaluated once when the source defines its functions; the model takes the password, the device name and the URL as arguments, so no default applies.
- QR encoding and image creation (`generate_qrcode`, main.py:43-79, called at main.py:115), and the font-size, caption-drawing and saving steps of `main` (main.py:116-133): library and filesystem calls. `Provision` stops at the token and the file name.
- `os.path.join` with the output directory and `os.makedirs`: the model gives only the file name `device_name + ".png"`.
- The floating-point font size at main.py:118: it is overwritten at main.py:124 before use.
- Reading `devices.json` and the batch loop (main.py:136-144), and every `print`: I/O.
- Values other than integers and strings: Python's generic `str()` (floats, booleans, nested objects) is not modelled. The `EncodingError` of a value that cannot be turned into text therefore has no counterpart.
- Lone surrogates in Python strings, which make `encode('utf-8')` raise: Dafny characters are Unicode scalar values, so they cannot occur.
- SwapChangesBody: proved only when the two swapped entries' renderings contain no comma (the other entries may hold commas), because the body format has no escaping and `M350.CommaSwapCollision` shows a swap of a comma-holding entry that leaves the body unchanged.
- IntText: CPython 3.11 and later raise `ValueError` when converting an integer of more than 4300 decimal digits to text, `f"{v}"` included; the model renders integers of any size.
