/** `wireless.hpp` and the Windows `enumerate_wlan_networks`: the value type describing one
    wireless network, its SSID-only equality, and the scan over the WLAN API, which is reached
    only through the oracles of `WlanApi`. */
module Wireless {
  import opened Wrappers
  import opened Text
  import opened Network
  import opened Platform

  /** `WlanNetwork`: BSSID text, optional SSID, frequency in MHz, signal strength and whether
      the strength's unit is unspecified. The fields are its getters. */
  datatype WlanNetwork = WlanNetwork(
    macAddress: string,
    ssid: Option<string>,
    frequency: nat,
    signalStrength: byte,
    signalStrengthUnspecified: bool)

  /** `WlanNetwork::operator==`: only the SSIDs are compared. */
  predicate WlanEquals(a: WlanNetwork, b: WlanNetwork)
  {
    a.ssid == b.ssid
  }

  /** `WlanNetwork::operator!=` */
  predicate WlanDiffers(a: WlanNetwork, b: WlanNetwork)
  {
    !WlanEquals(a, b)
  }

  /** The hash is computed from the SSID alone. */
  function HashKey(n: WlanNetwork): (k: Option<string>)
    ensures k == n.ssid
  {
    n.ssid
  }

  /** Equality ignores the BSSID, frequency and signal; the hash agrees with it whatever hash
      function is applied to the key; `!=` is the negation. */
  lemma EqualityIsBySsid(hash: Option<string> -> int, a: WlanNetwork, b: WlanNetwork,
                         mac: string, frequency: nat, signal: byte, unspecified: bool)
    ensures WlanEquals(a, b) <==> HashKey(a) == HashKey(b)
    ensures WlanEquals(a, b) ==> hash(HashKey(a)) == hash(HashKey(b))
    ensures WlanEquals(a, a.(macAddress := mac, frequency := frequency, signalStrength := signal,
                             signalStrengthUnspecified := unspecified))
    ensures WlanDiffers(a, b) <==> !WlanEquals(a, b)
  {
  }

  /** A hash set of networks, as the sequence of its elements in insertion order. */
  predicate SsidDistinct(nets: seq<WlanNetwork>)
  {
    forall i, j :: 0 <= i < j < |nets| ==> nets[i].ssid != nets[j].ssid
  }

  /** `std::unordered_set::insert`: an element equal to one already present is not added and
      does not replace it. */
  function InsertNetwork(nets: seq<WlanNetwork>, n: WlanNetwork): (r: seq<WlanNetwork>)
    ensures SsidDistinct(nets) ==> SsidDistinct(r)
    ensures (exists i :: 0 <= i < |nets| && WlanEquals(nets[i], n)) ==> r == nets
    ensures (forall i :: 0 <= i < |nets| ==> !WlanEquals(nets[i], n)) ==> r == nets + [n]
  {
    if exists i :: 0 <= i < |nets| && nets[i].ssid == n.ssid then nets else nets + [n]
  }

  /** Every SSID value, the absent one included, is held at most once. */
  lemma AtMostOneHidden(nets: seq<WlanNetwork>, i: nat, j: nat)
    requires SsidDistinct(nets) && i < j < |nets|
    ensures !(nets[i].ssid.None? && nets[j].ssid.None?)
  {
  }

  /** A BSSID (`DOT11_MAC_ADDRESS`), six bytes. */
  type Bssid = s: seq<byte> | |s| == 6 witness [0, 0, 0, 0, 0, 0]

  /** `DOT11_SSID`: a 32-byte buffer of which the first `uSSIDLength` bytes are the SSID. The
      length is at most 32 (section 9.4.2.2 of IEEE Std 802.11-2020). */
  datatype RawSsid = Dot11Ssid(length: nat, bytes: seq<byte>)
  type Ssid = s: RawSsid | |s.bytes| == 32 && s.length <= 32 witness Dot11Ssid(0, seq(32, _ => 0))

  /** `wlanSignalQuality`, a percentage. */
  type Quality = q: int | 0 <= q <= 100

  /** The parts of `WLAN_AVAILABLE_NETWORK` the scan reads: the SSID and signal quality for the
      record, and the SSID, `dot11BssType` and `bSecurityEnabled` that select its BSS list. */
  datatype AvailableNetwork = AvailableNetwork(ssid: Ssid, bssType: nat, securityEnabled: bool, signalQuality: Quality)

  /** The parts of `WLAN_BSS_ENTRY` the scan reads; the centre frequency is in kHz. */
  datatype BssEntry = BssEntry(bssid: Bssid, centerFrequency: nat)

  /** The scan reads entry 0 of every BSS list unchecked, so the lists the API hands back are
      taken to be non-empty. */
  type BssList = s: seq<BssEntry> | |s| >= 1 witness [BssEntry([0, 0, 0, 0, 0, 0], 0)]

  /** One `WLAN_INTERFACE_INFO`: its GUID and its description after `to_mbs`. */
  datatype WlanInterfaceInfo = WlanInterfaceInfo(guid: nat, description: string)

  /** The WLAN API as the scan sees it; `None` and `false` stand for a failed call.
      - `handleOpened`: `WlanOpenHandle` succeeded;
      - `interfaces`: `WlanEnumInterfaces`;
      - `networks(guid)`: `WlanGetAvailableNetworkList`;
      - `bssList(guid, ssid, bssType, securityEnabled)`: `WlanGetNetworkBssList`. */
  datatype WlanApi = WlanApi(
    handleOpened: bool,
    interfaces: Option<seq<WlanInterfaceInfo>>,
    networks: nat -> Option<seq<AvailableNetwork>>,
    bssList: (nat, Ssid, nat, bool) -> Option<BssList>)

  /** The BSS list `WlanGetNetworkBssList` hands back for a listed network of an interface. */
  function BssListOf(api: WlanApi, guid: nat, n: AvailableNetwork): Option<BssList>
  {
    api.bssList(guid, n.ssid, n.bssType, n.securityEnabled)
  }

  /** The SSID as text: the first `uSSIDLength` bytes, each as one character; an empty SSID
      is absent. */
  function DecodeSsid(s: Ssid): (r: Option<string>)
    ensures r.None? <==> s.length == 0
    ensures r.Some? ==> |r.value| == s.length
                        && forall k :: 0 <= k < s.length ==> r.value[k] == s.bytes[k] as char
  {
    var text := seq(s.length, k requires 0 <= k < s.length => s.bytes[k] as char);
    if text == "" then None else Some(text)
  }

  /** `ulChCenterFrequency / 1000`: kHz to MHz, truncating. */
  function KhzToMhz(khz: nat): (mhz: nat)
    ensures mhz * 1000 <= khz < (mhz + 1) * 1000
  {
    khz / 1000
  }

  /** The loop that renders a BSSID, field by field, produces the colon-separated MAC text. */
  method FormatBssid(bssid: Bssid) returns (mac: string)
    ensures mac == MacText(bssid)
    ensures |mac| == 17
  {
    mac := "";
    var k := 0;
    while k < 6
      invariant 0 <= k <= 6
      invariant k == 0 ==> mac == ""
      invariant k > 0 ==> mac == HexPairs(bssid[..k])
    {
      if k == 0 {
        mac := mac + Hex2(bssid[k]);
        assert bssid[..1] == [bssid[0]];
      } else {
        HexPairsSnoc(bssid[..k], bssid[k]);
        assert bssid[..k + 1] == bssid[..k] + [bssid[k]];
        mac := mac + ":" + Hex2(bssid[k]);
      }
      k := k + 1;
    }
  }

  /** The network record inserted for one available network and the first entry of its BSS
      list. */
  function NetworkRecord(n: AvailableNetwork, first: BssEntry): (r: WlanNetwork)
    ensures r.macAddress == MacText(first.bssid) && r.ssid == DecodeSsid(n.ssid)
    ensures r.frequency == KhzToMhz(first.centerFrequency)
    ensures r.signalStrength == n.signalQuality && !r.signalStrengthUnspecified
  {
    WlanNetwork(MacText(first.bssid), DecodeSsid(n.ssid), KhzToMhz(first.centerFrequency), n.signalQuality, false)
  }

  datatype WlanError =
    | NotWireless(typeName: string)
    | OpenHandleFailed
    | EnumInterfacesFailed
    | NetworkListFailed
    | BssListFailed(networkName: string)

  /** The name a BSS failure reports: the SSID, or "Hidden Network". */
  function ReportedName(n: AvailableNetwork): (name: string)
    ensures DecodeSsid(n.ssid).Some? ==> name == DecodeSsid(n.ssid).value
    ensures DecodeSsid(n.ssid).None? ==> name == "Hidden Network"
  {
    DecodeSsid(n.ssid).GetOr("Hidden Network")
  }

  /** The inner loop over the available networks of one interface. */
  function ScanNetworks(api: WlanApi, guid: nat, nets: seq<AvailableNetwork>): (r: Result<seq<WlanNetwork>, WlanError>)
    ensures r.Success? ==> SsidDistinct(r.value)
    ensures r.Failure? ==> r.error.BssListFailed?
    decreases |nets|
  {
    if |nets| == 0 then Success([])
    else
      var found :- ScanNetworks(api, guid, nets[..|nets| - 1]);
      var n := nets[|nets| - 1];
      match BssListOf(api, guid, n)
      case None => Failure(BssListFailed(ReportedName(n)))
      case Some(bss) => Success(InsertNetwork(found, NetworkRecord(n, bss[0])))
  }

  /** Inserting records one after another into an empty set. */
  function InsertAll(recs: seq<WlanNetwork>): seq<WlanNetwork>
  {
    if |recs| == 0 then [] else InsertNetwork(InsertAll(recs[..|recs| - 1]), recs[|recs| - 1])
  }

  /** The SSIDs a set of networks holds. */
  function Ssids(nets: seq<WlanNetwork>): set<Option<string>>
  {
    set n | n in nets :: n.ssid
  }

  /** The first record with the given SSID, if any. */
  function FirstWithSsid(recs: seq<WlanNetwork>, ssid: Option<string>): Option<WlanNetwork>
  {
    if |recs| == 0 then None
    else match FirstWithSsid(recs[..|recs| - 1], ssid)
      case Some(x) => Some(x)
      case None => if recs[|recs| - 1].ssid == ssid then Some(recs[|recs| - 1]) else None
  }

  /** One element per distinct SSID of the records, each the first record with its SSID. */
  predicate FirstPerSsid(recs: seq<WlanNetwork>, found: seq<WlanNetwork>)
  {
    && SsidDistinct(found)
    && (forall j :: 0 <= j < |recs| ==> recs[j].ssid in Ssids(found))
    && (forall i :: 0 <= i < |found| ==> FirstWithSsid(recs, found[i].ssid) == Some(found[i]))
  }

  /** Filling a hash set keyed by SSID keeps the first record of every SSID and nothing else. */
  lemma {:induction false} InsertAllKeepsFirst(recs: seq<WlanNetwork>)
    ensures FirstPerSsid(recs, InsertAll(recs))
    decreases |recs|
  {
    if |recs| == 0 {
      return;
    }
    var m := |recs| - 1;
    var prefix, rec := recs[..m], recs[m];
    InsertAllKeepsFirst(prefix);
    var found := InsertAll(prefix);
    if rec.ssid in Ssids(found) {
      var x :| x in found && x.ssid == rec.ssid;
      assert InsertAll(recs) == found;
      KeepFirstSeen(recs, found);
    } else {
      assert InsertAll(recs) == found + [rec];
      KeepFirstNew(recs, found);
    }
  }

  /** A record whose SSID is already held leaves the held records first. */
  lemma KeepFirstSeen(recs: seq<WlanNetwork>, found: seq<WlanNetwork>)
    requires |recs| > 0 && FirstPerSsid(recs[..|recs| - 1], found)
    requires recs[|recs| - 1].ssid in Ssids(found)
    ensures FirstPerSsid(recs, found)
  {
    var prefix := recs[..|recs| - 1];
    assert forall j :: 0 <= j < |prefix| ==> recs[j] == prefix[j];
    forall i | 0 <= i < |found| ensures FirstWithSsid(recs, found[i].ssid) == Some(found[i]) {
      assert FirstWithSsid(prefix, found[i].ssid) == Some(found[i]);
    }
  }

  /** A record with a new SSID is the first with it and is appended. */
  lemma KeepFirstNew(recs: seq<WlanNetwork>, found: seq<WlanNetwork>)
    requires |recs| > 0 && FirstPerSsid(recs[..|recs| - 1], found)
    requires recs[|recs| - 1].ssid !in Ssids(found)
    ensures FirstPerSsid(recs, found + [recs[|recs| - 1]])
  {
    var prefix, rec := recs[..|recs| - 1], recs[|recs| - 1];
    var r := found + [rec];
    assert forall j :: 0 <= j < |prefix| ==> recs[j] == prefix[j];
    assert Ssids(r) == Ssids(found) + {rec.ssid};
    FirstWithSsidAbsent(prefix, rec.ssid, found);
    forall i | 0 <= i < |r| ensures FirstWithSsid(recs, r[i].ssid) == Some(r[i]) {
      if i < |found| {
        assert r[i] == found[i];
        assert FirstWithSsid(prefix, r[i].ssid) == Some(r[i]);
      }
    }
  }

  /** An SSID no record of the prefix has has no first record there. */
  lemma {:induction false} FirstWithSsidAbsent(recs: seq<WlanNetwork>, ssid: Option<string>, found: seq<WlanNetwork>)
    requires forall j :: 0 <= j < |recs| ==> recs[j].ssid in Ssids(found)
    requires ssid !in Ssids(found)
    ensures FirstWithSsid(recs, ssid).None?
    decreases |recs|
  {
    if |recs| > 0 {
      var prefix := recs[..|recs| - 1];
      assert forall j :: 0 <= j < |prefix| ==> prefix[j] == recs[j];
      FirstWithSsidAbsent(prefix, ssid, found);
    }
  }

  /** The records of the networks, in list order, when every BSS list could be read. */
  function Records(api: WlanApi, guid: nat, nets: seq<AvailableNetwork>): (recs: seq<WlanNetwork>)
    requires forall j :: 0 <= j < |nets| ==> BssListOf(api, guid, nets[j]).Some?
    ensures |recs| == |nets|
    ensures forall j :: 0 <= j < |nets| ==> recs[j] == NetworkRecord(nets[j], BssListOf(api, guid, nets[j]).value[0])
  {
    if |nets| == 0 then []
    else
      var prefix, n := nets[..|nets| - 1], nets[|nets| - 1];
      assert forall j :: 0 <= j < |prefix| ==> prefix[j] == nets[j];
      var head := Records(api, guid, prefix);
      var recs := head + [NetworkRecord(n, BssListOf(api, guid, n).value[0])];
      assert forall j :: 0 <= j < |head| ==> recs[j] == head[j];
      recs
  }

  /** The index of the first network whose BSS list cannot be read. */
  function FirstBssFailure(api: WlanApi, guid: nat, nets: seq<AvailableNetwork>): (r: Option<nat>)
    ensures r.None? <==> forall j :: 0 <= j < |nets| ==> BssListOf(api, guid, nets[j]).Some?
    ensures r.Some? ==> r.value < |nets| && BssListOf(api, guid, nets[r.value]).None?
    ensures r.Some? ==> forall k :: 0 <= k < r.value ==> BssListOf(api, guid, nets[k]).Some?
  {
    if |nets| == 0 then None
    else
      var prefix := nets[..|nets| - 1];
      assert forall j :: 0 <= j < |prefix| ==> prefix[j] == nets[j];
      match FirstBssFailure(api, guid, prefix)
      case Some(j) => Some(j)
      case None => if BssListOf(api, guid, nets[|nets| - 1]).None? then Some(|nets| - 1) else None
  }

  /** The scan fails exactly when some network's BSS list cannot be read, naming the first such
      network and returning no partial set. */
  lemma {:induction false} ScanNetworksFails(api: WlanApi, guid: nat, nets: seq<AvailableNetwork>)
    ensures ScanNetworks(api, guid, nets).Failure? <==> FirstBssFailure(api, guid, nets).Some?
    ensures ScanNetworks(api, guid, nets).Failure? ==>
              ScanNetworks(api, guid, nets).error
              == BssListFailed(ReportedName(nets[FirstBssFailure(api, guid, nets).value]))
    decreases |nets|
  {
    if |nets| > 0 {
      ScanNetworksFails(api, guid, nets[..|nets| - 1]);
    }
  }

  /** A successful scan is the hash set of all the records. */
  lemma {:induction false} ScanNetworksSucceeds(api: WlanApi, guid: nat, nets: seq<AvailableNetwork>)
    requires forall j :: 0 <= j < |nets| ==> BssListOf(api, guid, nets[j]).Some?
    ensures ScanNetworks(api, guid, nets) == Success(InsertAll(Records(api, guid, nets)))
    decreases |nets|
  {
    if |nets| > 0 {
      var prefix := nets[..|nets| - 1];
      assert forall j :: 0 <= j < |prefix| ==> prefix[j] == nets[j];
      ScanNetworksSucceeds(api, guid, prefix);
      ScanStep(api, guid, nets, InsertAll(Records(api, guid, prefix)));
      InsertAllRecordsStep(api, guid, nets);
    }
  }

  /** One more network whose BSS list can be read inserts its record. */
  lemma ScanStep(api: WlanApi, guid: nat, nets: seq<AvailableNetwork>, found: seq<WlanNetwork>)
    requires |nets| > 0 && ScanNetworks(api, guid, nets[..|nets| - 1]) == Success(found)
    requires BssListOf(api, guid, nets[|nets| - 1]).Some?
    ensures ScanNetworks(api, guid, nets)
            == Success(InsertNetwork(found, NetworkRecord(nets[|nets| - 1], BssListOf(api, guid, nets[|nets| - 1]).value[0])))
  {
  }

  /** Inserting all records is inserting those of the prefix, then the last one. */
  lemma InsertAllRecordsStep(api: WlanApi, guid: nat, nets: seq<AvailableNetwork>)
    requires |nets| > 0 && forall j :: 0 <= j < |nets| ==> BssListOf(api, guid, nets[j]).Some?
    ensures var prefix := nets[..|nets| - 1];
            InsertAll(Records(api, guid, nets))
            == InsertNetwork(InsertAll(Records(api, guid, prefix)),
                             NetworkRecord(nets[|nets| - 1], BssListOf(api, guid, nets[|nets| - 1]).value[0]))
  {
    var prefix := nets[..|nets| - 1];
    assert forall j :: 0 <= j < |prefix| ==> prefix[j] == nets[j];
    var recs := Records(api, guid, nets);
    assert recs[..|recs| - 1] == Records(api, guid, prefix);
  }

  /** A successful scan holds the first record per SSID, one per distinct SSID. */
  lemma ScanKeepsFirstPerSsid(api: WlanApi, guid: nat, nets: seq<AvailableNetwork>)
    requires ScanNetworks(api, guid, nets).Success?
    ensures forall j :: 0 <= j < |nets| ==> BssListOf(api, guid, nets[j]).Some?
    ensures FirstPerSsid(Records(api, guid, nets), ScanNetworks(api, guid, nets).value)
  {
    ScanNetworksFails(api, guid, nets);
    ScanNetworksSucceeds(api, guid, nets);
    InsertAllKeepsFirst(Records(api, guid, nets));
  }

  /** The index of the first WLAN interface whose description is the given one. */
  function FirstMatch(infos: seq<WlanInterfaceInfo>, description: string): (r: Option<nat>)
    ensures r.None? <==> forall i :: 0 <= i < |infos| ==> infos[i].description != description
    ensures r.Some? ==> r.value < |infos| && infos[r.value].description == description
    ensures r.Some? ==> forall i :: 0 <= i < r.value ==> infos[i].description != description
  {
    if |infos| == 0 then None
    else if infos[0].description == description then Some(0)
    else match FirstMatch(infos[1..], description)
      case None => None
      case Some(i) => Some(i + 1)
  }

  /** `enumerate_wlan_networks` (Windows). A non-wireless interface is refused before any
      WLAN call; then the handle and the interface list must be obtained; only the first WLAN
      interface with the interface's description is scanned, and none gives an empty set. */
  function EnumerateWlanNetworks(api: WlanApi, iface: NetworkInterface): (r: Result<seq<WlanNetwork>, WlanError>)
    ensures iface.itype != TypeWireless(WindowsBuild) <==>
              r == Failure(NotWireless(InterfaceTypeName(WindowsBuild, iface.itype)))
    ensures iface.itype == TypeWireless(WindowsBuild) && !api.handleOpened ==> r == Failure(OpenHandleFailed)
    ensures iface.itype == TypeWireless(WindowsBuild) && api.handleOpened && api.interfaces.None? ==>
              r == Failure(EnumInterfacesFailed)
    ensures iface.itype == TypeWireless(WindowsBuild) && api.handleOpened && api.interfaces.Some? ==>
              var infos := api.interfaces.value;
              && (FirstMatch(infos, iface.description).None? ==> r == Success([]))
              && (FirstMatch(infos, iface.description).Some? ==>
                    var guid := infos[FirstMatch(infos, iface.description).value].guid;
                    && (api.networks(guid).None? ==> r == Failure(NetworkListFailed))
                    && (api.networks(guid).Some? ==> r == ScanNetworks(api, guid, api.networks(guid).value)))
    ensures r.Success? ==> SsidDistinct(r.value)
  {
    if iface.itype != TypeWireless(WindowsBuild) then
      Failure(NotWireless(InterfaceTypeName(WindowsBuild, iface.itype)))
    else if !api.handleOpened then
      Failure(OpenHandleFailed)
    else if api.interfaces.None? then
      Failure(EnumInterfacesFailed)
    else
      match FirstMatch(api.interfaces.value, iface.description)
      case None => Success([])
      case Some(i) =>
        var guid := api.interfaces.value[i].guid;
        match api.networks(guid)
        case None => Failure(NetworkListFailed)
        case Some(nets) =>
          ScanNetworks(api, guid, nets)
  }
}
