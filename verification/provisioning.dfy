/**
 * The per-device preparation in main.py: fall back to the default map,
 * reject a device name that is not ASCII, set `haddr` to the quoted
 * callback URL and sign the map with `generate_config`.
 */
module Provisioning {
  import opened Wrappers
  import opened Params
  import opened OrderedDict
  import opened M350
  import Utf8

  /**
   * `urljoin(base, url)`: relative reference resolution, not modelled.
   * `None` stands for the ValueError it raises on a malformed authority
   * (an unmatched `[` or `]`).
   */
  type UrlJoin = (string, string) -> Option<string>

  /** `get_default_config()`. */
  function DefaultConfig(): (r: seq<Entry>)
    ensures |r| == 16 && KeysDistinct(r)
    ensures r[14] == Entry("haddr", StrVal("http://localhost/"))
  {
    [ Entry("w_mode", IntVal(1)),
      Entry("ochannel", IntVal(64)),
      Entry("nochannel", IntVal(64)),
      Entry("owifi", IntVal(1)),
      Entry("de_type", IntVal(513)),
      Entry("nfc", IntVal(1)),
      Entry("nfc_identity_card_enable", IntVal(0)),
      Entry("nfc_card_protocol", IntVal(3)),
      Entry("st", IntVal(1)),
      Entry("len", IntVal(8)),
      Entry("nft", IntVal(0)),
      Entry("awifi_s", IntVal(2)),
      Entry("relayd", IntVal(1000)),
      Entry("awifi_f", IntVal(4)),
      Entry("haddr", StrVal("http://localhost/")),
      Entry("houttime", IntVal(5)) ]
  }

  /** `all(ord(char) < 128 for char in s)`. */
  function IsAscii(s: string): (r: bool)
    ensures r <==> forall i :: 0 <= i < |s| ==> s[i] as int < 128
  {
    if s == [] then true else s[0] as int < 128 && IsAscii(s[1..])
  }

  /** The value written to `haddr`: the resolved URL in literal double quotes. */
  function HaddrValue(joined: string): (v: Value)
    ensures v.StrVal? && |v.s| == |joined| + 2
    ensures v.s[0] == '"' && v.s[|v.s| - 1] == '"' && v.s[1..|v.s| - 1] == joined
  {
    StrVal("\"" + joined + "\"")
  }

  /** The map after `config["haddr"] = ...`. */
  function WithHaddr(config: seq<Entry>, joined: string): (r: seq<Entry>)
    ensures Lookup(r, "haddr") == Some(HaddrValue(joined))
    ensures |r| == if HasKey(config, "haddr") then |config| else |config| + 1
  {
    AssignLookup(config, "haddr", HaddrValue(joined), "");
    Assign(config, "haddr", HaddrValue(joined))
  }

  /** The ValueErrors `main` raises: a device name that is not ASCII, and a URL `urljoin` rejects. */
  datatype ProvisionError = NonAsciiDeviceName | InvalidUrl

  /** What `main` hands on: the token for the QR code and the image file name. */
  datatype Provisioned = Provisioned(token: string, fileName: string)

  /**
   * `main(device_name, url, config)` up to the rendering of the QR code.
   * `config == null` stands for `None`. A non-empty caller map is updated
   * in place; a missing or empty one is replaced by a fresh default map.
   * Either ValueError leaves the caller's map as it was.
   */
  method Provision(deviceName: string, url: string, config: ConfigDict?, password: seq<Utf8.byte>, urljoin: UrlJoin, hmac: Hmac)
    returns (r: Result<Provisioned, ProvisionError>)
    requires config != null ==> config.Valid()
    modifies config
    ensures config != null ==> config.Valid()
    ensures !IsAscii(deviceName) ==>
      && r == Failure(NonAsciiDeviceName)
      && (config != null ==> config.entries == old(config.entries))
    ensures IsAscii(deviceName) && urljoin(url, deviceName).None? ==>
      && r == Failure(InvalidUrl)
      && (config != null ==> config.entries == old(config.entries))
    ensures IsAscii(deviceName) && urljoin(url, deviceName).Some? && config != null && old(config.entries) != [] ==>
      var updated := WithHaddr(old(config.entries), urljoin(url, deviceName).value);
      && r == Success(Provisioned(GenerateDefault(updated, password, hmac), deviceName + ".png"))
      && config.entries == updated
    ensures IsAscii(deviceName) && urljoin(url, deviceName).Some? && (config == null || old(config.entries) == []) ==>
      var updated := WithHaddr(DefaultConfig(), urljoin(url, deviceName).value);
      && r == Success(Provisioned(GenerateDefault(updated, password, hmac), deviceName + ".png"))
      && (config != null ==> config.entries == [])
  {
    var d := config;
    if d == null || d.entries == [] {
      d := new ConfigDict(DefaultConfig());
    }
    if !IsAscii(deviceName) {
      return Failure(NonAsciiDeviceName);
    }
    var joined := urljoin(url, deviceName);
    if joined.None? {
      return Failure(InvalidUrl);
    }
    d.Put("haddr", HaddrValue(joined.value));
    var token := GenerateDefault(d.entries, password, hmac);
    r := Success(Provisioned(token, deviceName + ".png"));
  }

  /**
   * After the update, `haddr` holds the quoted URL and every other key
   * keeps its value. An existing `haddr` keeps its position and nothing
   * else moves; a missing one is appended last.
   */
  lemma HaddrUpdate(config: seq<Entry>, joined: string, other: string)
    requires KeysDistinct(config) && other != "haddr"
    ensures var u := WithHaddr(config, joined);
      && KeysDistinct(u)
      && Lookup(u, "haddr") == Some(HaddrValue(joined))
      && Lookup(u, other) == Lookup(config, other)
      && (forall i :: 0 <= i < |config| && config[i].key == "haddr" ==>
            u == config[i := Entry("haddr", HaddrValue(joined))])
      && (!HasKey(config, "haddr") ==> u == config + [Entry("haddr", HaddrValue(joined))])
  {
    var v := HaddrValue(joined);
    AssignLookup(config, "haddr", v, other);
    AssignDistinct(config, "haddr", v);
    forall i | 0 <= i < |config| && config[i].key == "haddr"
      ensures WithHaddr(config, joined) == config[i := Entry("haddr", v)]
    {
      AssignExisting(config, "haddr", v, i);
    }
    if !HasKey(config, "haddr") {
      AssignNew(config, "haddr", v);
    }
  }

  /** With the default map, `haddr` is overwritten at position 14 and the other fifteen entries stay as they are. */
  lemma DefaultHaddrUpdate(joined: string)
    ensures var u := WithHaddr(DefaultConfig(), joined);
      && |u| == 16
      && u[14] == Entry("haddr", HaddrValue(joined))
      && forall i :: 0 <= i < 16 && i != 14 ==> u[i] == DefaultConfig()[i]
  {
    AssignExisting(DefaultConfig(), "haddr", HaddrValue(joined), 14);
  }
}
