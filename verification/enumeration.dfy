/** Interface enumeration on POSIX systems, in its two variants: the Unix variant
    (`src/macos/network.cpp`) and the Linux variant (`src/linux/network.cpp`). Both walk the
    `getifaddrs` list once and group its entries into one interface per distinct name; the
    system is reached only through the oracles of `Host`. */
module Enumeration {
  import opened Wrappers
  import opened Text
  import opened Network
  import opened Platform

  /** An IPv4 address as the four bytes of `in_addr`, in network order. */
  type Ipv4Bytes = s: seq<byte> | |s| == 4 witness [0, 0, 0, 0]
  /** An IPv6 address as the sixteen bytes of `in6_addr`. */
  type Ipv6Bytes = s: seq<byte> | |s| == 16 witness seq(16, _ => 0)

  /** `sa_family_t`, an unsigned 16-bit value. The constants are Linux's. */
  const SA_INET: u16 := 2
  const SA_INET6: u16 := 10
  const SA_PACKET: u16 := 17

  const INET_ADDRSTRLEN: nat := 16
  const INET6_ADDRSTRLEN: nat := 46

  /** A socket address: its family and the address bytes (`sin_addr`, `sin6_addr` or
      `sll_addr`, depending on the family). */
  datatype RawSockAddr = SockAddr(family: u16, bytes: seq<byte>)

  /** A `sockaddr_ll` carries eight bytes of `sll_addr`, of which the first six are read. */
  type SockAddr = sa: RawSockAddr | sa.family == SA_PACKET ==> |sa.bytes| >= 8 witness SockAddr(0, [])

  /** One node of the `getifaddrs` list: `ifa_name` and the optional `ifa_addr`. */
  datatype IfAddrsEntry = IfAddrsEntry(name: string, addr: Option<SockAddr>)

  /** The system as the enumeration sees it. Each oracle is a fixed function of its
      arguments: the file system and the network stack do not change during one call.
      - `ntop(family, bytes)`: the text `inet_ntop` writes given unlimited room, or `None`;
      - `inetAddr(text)`: the `in_addr` bytes `inet_addr` returns;
      - `pton6(text)`: the bytes `inet_pton(AF_INET6, …)` leaves in a zeroed `in6_addr`;
      - `readlink(path)`: the link target, or `None` when `readlink` fails;
      - `canonical(target)`: `std::filesystem::canonical` of the target, relative to
        `/sys/class/net`;
      - `fileExists(path)`: `std::filesystem::exists`;
      - `firstToken(path)`: the first whitespace-delimited token of the file, or "";
      - `stoi(text)`: `std::stoi`. */
  datatype Host = Host(
    ntop: (u16, seq<byte>) -> Option<string>,
    inetAddr: string -> Ipv4Bytes,
    pton6: string -> Ipv6Bytes,
    readlink: string -> Option<string>,
    canonical: string -> string,
    fileExists: string -> bool,
    firstToken: string -> string,
    stoi: string -> int)

  /** The two source files differ in three places: the Linux variant formats no link-layer
      addresses, marks every address unicast and reads neither the type nor the MTU. */
  datatype Variant = UnixVariant | LinuxVariant

  /** `std::filesystem::path::operator/` on a path without a trailing separator. */
  function PathJoin(dir: string, child: string): string
  {
    dir + "/" + child
  }

  const SYS_CLASS_NET: string := "/sys/class/net"

  /** `read_file`: nothing when the file is missing or has no token, otherwise its first
      token. */
  function ReadFile(host: Host, path: string): (r: Option<string>)
    ensures r.None? <==> !host.fileExists(path) || host.firstToken(path) == ""
    ensures r.Some? ==> r.value == host.firstToken(path) && |r.value| > 0
  {
    if !host.fileExists(path) then None
    else
      var content := host.firstToken(path);
      if content == "" then None else Some(content)
  }

  /** `static_cast<usize>` of an `int`: reduction modulo 2^64. */
  function ToUsize(x: int): (r: nat)
    ensures r < 0x1_0000_0000_0000_0000
    ensures 0 <= x < 0x1_0000_0000_0000_0000 ==> r == x
    ensures x < 0 && -x <= 0x1_0000_0000_0000_0000 ==> r == x + 0x1_0000_0000_0000_0000
  {
    x % 0x1_0000_0000_0000_0000
  }

  /** `static_cast<InterfaceType>` of an `int`: reduction modulo 2^16. */
  function ToU16(x: int): (r: u16)
    ensures 0 <= x < 0x1_0000 ==> r == x
    ensures (r - x) % 0x1_0000 == 0
  {
    x % 0x1_0000
  }

  /** The text before the first NUL: what `std::string::data()` means to a C function. */
  function CString(s: string): (r: string)
    ensures '\0' !in r
    ensures r <= s
    ensures |r| < |s| ==> s[|r|] == '\0'
  {
    if |s| == 0 || s[0] == '\0' then [] else [s[0]] + CString(s[1..])
  }

  lemma {:induction false} CStringOfText(s: string, pad: nat)
    requires '\0' !in s
    ensures CString(s + seq(pad, _ => '\0')) == s
    decreases |s|
  {
    var t := s + seq(pad, _ => '\0');
    if |s| == 0 {
      assert pad > 0 ==> t[0] == '\0';
    } else {
      assert t[1..] == s[1..] + seq(pad, _ => '\0');
      CStringOfText(s[1..], pad);
    }
  }

  /** `ntohl` applied to `in_addr` bytes: the big-endian reading of the four bytes. */
  function HostOrder(b: Ipv4Bytes): (x: bv32)
    ensures x >> 24 == b[0] as bv32
  {
    ((b[0] as bv32) << 24) | ((b[1] as bv32) << 16) | ((b[2] as bv32) << 8) | (b[3] as bv32)
  }

  /** `is_multicast`: the IPv4 class-D test on the top nibble, the IPv6 `ff00::/8` test on the
      first byte, and `false` for every other family. */
  function IsMulticast(host: Host, family: u16, address: string): (r: bool)
    ensures family == SA_INET ==> (r <==> 224 <= host.inetAddr(CString(address))[0] < 240)
    ensures family == SA_INET6 ==> (r <==> host.pton6(CString(address))[0] == 0xff)
    ensures family != SA_INET && family != SA_INET6 ==> !r
  {
    if family == SA_INET then
      var b := host.inetAddr(CString(address));
      ClassDNibble(b);
      HostOrder(b) & 0xF000_0000 == 0xE000_0000
    else if family == SA_INET6 then
      host.pton6(CString(address))[0] == 0xff
    else
      false
  }

  /** The top nibble of the host-order value is the top nibble of the first byte. */
  lemma ClassDNibble(b: Ipv4Bytes)
    ensures HostOrder(b) & 0xF000_0000 == 0xE000_0000 <==> 224 <= b[0] < 240
  {
    TopNibble(HostOrder(b));
    ClassDByte(b[0] as bv32);
    ByteRange(b[0]);
  }

  lemma TopNibble(x: bv32)
    ensures x & 0xF000_0000 == ((x >> 24) & 0xF0) << 24
  {
  }

  lemma ClassDByte(h: bv32)
    requires h < 256
    ensures (h & 0xF0) << 24 == 0xE000_0000 <==> 0xE0 <= h < 0xF0
  {
  }

  lemma ByteRange(n: byte)
    ensures 0xE0 <= n as bv32 < 0xF0 <==> 224 <= n < 240
  {
  }

  /** The buffer `inet_ntop` writes into, as the source turns it into a string: the whole
      zero-initialised array, padding included. */
  function NtopBufferAsWritten(text: Option<string>, size: nat): (r: Option<string>)
    ensures r.Some? <==> text.Some? && |text.value| < size
    ensures r.Some? ==> |r.value| == size && r.value[..|text.value|] == text.value
  {
    if text.None? || |text.value| >= size then None
    else Some(text.value + seq(size - |text.value|, _ => '\0'))
  }

  /** The same buffer read as the text it holds, which is what callers compare and print. */
  function NtopBuffer(text: Option<string>, size: nat): (r: Option<string>)
    ensures r.Some? <==> text.Some? && |text.value| < size
    ensures r.Some? ==> r.value == text.value
  {
    if text.None? || |text.value| >= size then None else text
  }

  /** The address strings differ between the two readings by trailing NULs, yet `is_multicast`
      sees the same text, because it reads the string as a C string. */
  lemma PaddedAddressLooksLikeText(text: string, size: nat)
    requires '\0' !in text && |text| < size
    ensures NtopBufferAsWritten(Some(text), size) != NtopBuffer(Some(text), size)
    ensures CString(NtopBufferAsWritten(Some(text), size).value) == text
  {
    var padded := NtopBufferAsWritten(Some(text), size).value;
    assert |padded| == size != |text|;
    CStringOfText(text, size - |text|);
  }

  /** The padded buffer for loopback: sixteen characters, not nine. */
  lemma LoopbackIsPadded()
    ensures NtopBufferAsWritten(Some("127.0.0.1"), INET_ADDRSTRLEN).value
            == "127.0.0.1" + ['\0', '\0', '\0', '\0', '\0', '\0', '\0']
  {
  }

  /** The literal of one socket address, by family. */
  function FormatAddress(v: Variant, host: Host, sa: SockAddr): (r: Option<string>)
    ensures sa.family == SA_INET ==> r == NtopBuffer(host.ntop(SA_INET, sa.bytes), INET_ADDRSTRLEN)
    ensures sa.family == SA_INET6 ==> r == NtopBuffer(host.ntop(SA_INET6, sa.bytes), INET6_ADDRSTRLEN)
    ensures sa.family == SA_PACKET ==> (r.Some? <==> v.UnixVariant?)
    ensures sa.family == SA_PACKET && r.Some? ==> r.value == MacText(sa.bytes)
    ensures sa.family !in {SA_INET, SA_INET6, SA_PACKET} ==> r.None?
  {
    if sa.family == SA_INET then NtopBuffer(host.ntop(SA_INET, sa.bytes), INET_ADDRSTRLEN)
    else if sa.family == SA_INET6 then NtopBuffer(host.ntop(SA_INET6, sa.bytes), INET6_ADDRSTRLEN)
    else if sa.family == SA_PACKET && v.UnixVariant? then Some(MacText(sa.bytes))
    else None
  }

  /** The `InterfaceAddress` made from one socket address: its literal, its family truncated
      to the `u8` of `AddressFamily`, and its routing scheme. */
  function AddressOf(v: Variant, host: Host, sa: SockAddr): (a: InterfaceAddress)
    ensures a.address == FormatAddress(v, host, sa)
    ensures a.family as int == sa.family as int % 256
    ensures v.LinuxVariant? ==> a.scheme == Unicast
    ensures v.UnixVariant? && a.address.None? ==> a.scheme == UnknownScheme
    ensures v.UnixVariant? && a.address.Some? ==>
              (a.scheme == Multicast <==> IsMulticast(host, sa.family, a.address.value))
    ensures v.UnixVariant? && a.address.Some? ==> a.scheme in {Unicast, Multicast}
  {
    var address := FormatAddress(v, host, sa);
    var scheme :=
      if v.LinuxVariant? then Unicast
      else if address.None? then UnknownScheme
      else if IsMulticast(host, sa.family, address.value) then Multicast
      else Unicast;
    InterfaceAddress(address, (sa.family % 256) as byte, scheme)
  }

  /** The path `readlink` is asked about for an interface name. */
  function LinkPath(name: string): string
  {
    SYS_CLASS_NET + "/" + name
  }

  /** The interface made for the first entry with a name, or `None` when `readlink` fails.
      The path is the canonical link target; the link speed, type and MTU come from the
      sysfs files below it. */
  function NewInterface(v: Variant, host: Host, name: string, addrs: set<InterfaceAddress>): (r: Option<NetworkInterface>)
    ensures r.None? <==> host.readlink(LinkPath(name)).None?
    ensures r.Some? ==>
              var path := host.canonical(host.readlink(LinkPath(name)).value);
              var speed := ReadFile(host, PathJoin(path, "speed"));
              && r.value.name == path && r.value.description == name && r.value.addresses == addrs
              && (speed.None? <==> r.value.linkSpeed.None?)
              && (speed.Some? ==> r.value.linkSpeed.value == ToUsize(host.stoi(speed.value)))
    ensures r.Some? && v.UnixVariant? ==>
              var path := r.value.name;
              var typeFile := ReadFile(host, PathJoin(path, "type"));
              var mtuFile := ReadFile(host, PathJoin(path, "mtu"));
              && (host.fileExists(PathJoin(path, "ieee80211")) ==> r.value.itype == TypeWireless(PosixBuild))
              && (!host.fileExists(PathJoin(path, "ieee80211")) && typeFile.None? ==> r.value.itype == TYPE_UNKNOWN)
              && (!host.fileExists(PathJoin(path, "ieee80211")) && typeFile.Some? ==>
                    r.value.itype == ToU16(host.stoi(typeFile.value)))
              && (mtuFile.None? ==> r.value.mtu == 0)
              && (mtuFile.Some? ==> r.value.mtu == ToUsize(host.stoi(mtuFile.value)))
    ensures r.Some? && v.LinuxVariant? ==> r.value.itype == TYPE_UNKNOWN && r.value.mtu == 0
  {
    match host.readlink(LinkPath(name))
    case None => None
    case Some(target) =>
      var path := host.canonical(target);
      var speed := match ReadFile(host, PathJoin(path, "speed"))
                   case None => None
                   case Some(t) => Some(ToUsize(host.stoi(t)));
      if v.LinuxVariant? then
        Some(NetworkInterface(path, name, addrs, speed, TYPE_UNKNOWN, 0))
      else
        var read := match ReadFile(host, PathJoin(path, "type"))
                    case None => TYPE_UNKNOWN
                    case Some(t) => ToU16(host.stoi(t));
        var itype := if host.fileExists(PathJoin(path, "ieee80211")) then TypeWireless(PosixBuild) else read;
        var mtu := match ReadFile(host, PathJoin(path, "mtu"))
                   case None => 0
                   case Some(t) => ToUsize(host.stoi(t));
        Some(NetworkInterface(path, name, addrs, speed, itype, mtu))
  }

  /** The addresses passed in are stored as given; nothing else depends on them. */
  lemma NewInterfaceKeepsAddresses(v: Variant, host: Host, name: string, a: set<InterfaceAddress>, b: set<InterfaceAddress>)
    ensures NewInterface(v, host, name, a).Some? == NewInterface(v, host, name, b).Some?
    ensures NewInterface(v, host, name, a).Some? ==>
              NewInterface(v, host, name, b).value == NewInterface(v, host, name, a).value.(addresses := b)
  {
  }

  /** The index of the first interface with the given description. */
  function FindByDescription(ifs: seq<NetworkInterface>, name: string): (r: Option<nat>)
    ensures r.None? <==> forall i :: 0 <= i < |ifs| ==> ifs[i].description != name
    ensures r.Some? ==> r.value < |ifs| && ifs[r.value].description == name
    ensures r.Some? ==> forall i :: 0 <= i < r.value ==> ifs[i].description != name
  {
    if |ifs| == 0 then None
    else if ifs[0].description == name then Some(0)
    else match FindByDescription(ifs[1..], name)
      case None => None
      case Some(i) => Some(i + 1)
  }

  datatype EnumerationError = GetIfAddrsFailed | ReadLinkFailed(path: string)

  /** What distinguishes one variant's walk: how it turns a socket address into an
      `InterfaceAddress`, and how it builds an interface for a name and its first addresses. */
  datatype Builder = Builder(
    address: SockAddr -> InterfaceAddress,
    build: (string, set<InterfaceAddress>) -> Option<NetworkInterface>)

  function BuilderOf(v: Variant, host: Host): (b: Builder)
    ensures forall sa :: b.address(sa) == AddressOf(v, host, sa)
    ensures forall name, addrs :: b.build(name, addrs) == NewInterface(v, host, name, addrs)
  {
    Builder((sa: SockAddr) => AddressOf(v, host, sa), (name, addrs) => NewInterface(v, host, name, addrs))
  }

  /** A builder names the interface after the entry, stores the addresses it is given, and
      decides everything else from the name alone. */
  ghost predicate Sound(b: Builder)
  {
    && (forall name, addrs :: b.build(name, addrs).Some? ==>
          b.build(name, addrs).value.description == name && b.build(name, addrs).value.addresses == addrs)
    && (forall name, addrs :: b.build(name, addrs).Some? <==> b.build(name, {}).Some?)
    && (forall name, addrs :: b.build(name, addrs).Some? ==>
          b.build(name, addrs).value.(addresses := {}) == b.build(name, {}).value.(addresses := {}))
  }

  lemma BuilderOfSound(v: Variant, host: Host)
    ensures Sound(BuilderOf(v, host))
  {
    var b := BuilderOf(v, host);
    forall name, addrs | b.build(name, addrs).Some?
      ensures b.build(name, addrs).value.(addresses := {}) == b.build(name, {}).value.(addresses := {})
    {
      NewInterfaceKeepsAddresses(v, host, name, addrs, {});
    }
    forall name, addrs ensures b.build(name, addrs).Some? <==> b.build(name, {}).Some? {
      NewInterfaceKeepsAddresses(v, host, name, addrs, {});
    }
  }

  /** The address an entry contributes, if it has a socket address. */
  function EntryAddresses(b: Builder, e: IfAddrsEntry): set<InterfaceAddress>
  {
    if e.addr.Some? then {b.address(e.addr.value)} else {}
  }

  /** One turn of the loop: attach the entry's address to the interface that already has its
      name, or build a new interface for it. */
  function Step(b: Builder, ifs: seq<NetworkInterface>, e: IfAddrsEntry): Result<seq<NetworkInterface>, EnumerationError>
  {
    var found := FindByDescription(ifs, e.name);
    if found.Some? then
      if e.addr.Some? then
        Success(ifs[found.value := InsertAddress(ifs[found.value], b.address(e.addr.value))])
      else
        Success(ifs)
    else
      match b.build(e.name, EntryAddresses(b, e))
      case None => Failure(ReadLinkFailed(LinkPath(e.name)))
      case Some(i) => Success(ifs + [i])
  }

  /** The loop over the `getifaddrs` list; the first interface that cannot be built aborts it. */
  function Collect(b: Builder, entries: seq<IfAddrsEntry>): Result<seq<NetworkInterface>, EnumerationError>
    decreases |entries|
  {
    if |entries| == 0 then Success([])
    else
      var ifs :- Collect(b, entries[..|entries| - 1]);
      Step(b, ifs, entries[|entries| - 1])
  }

  /** The names of the entries, in list order. */
  function Names(entries: seq<IfAddrsEntry>): (names: seq<string>)
    ensures |names| == |entries|
    ensures forall j :: 0 <= j < |entries| ==> names[j] == entries[j].name
  {
    if |entries| == 0 then [] else Names(entries[..|entries| - 1]) + [entries[|entries| - 1].name]
  }

  /** The position where a value first appears. */
  function FirstIndex(xs: seq<string>, x: string): (k: nat)
    requires x in xs
    ensures k < |xs| && xs[k] == x
    ensures forall j :: 0 <= j < k ==> xs[j] != x
  {
    if xs[0] == x then 0 else 1 + FirstIndex(xs[1..], x)
  }

  /** The distinct values of a sequence in order of first appearance (see
      `DedupFirstAppearance`). */
  function Dedup(xs: seq<string>): (ys: seq<string>)
    ensures forall x :: x in ys <==> x in xs
    ensures forall i, j :: 0 <= i < j < |ys| ==> ys[i] != ys[j]
  {
    if |xs| == 0 then []
    else
      var prev := Dedup(xs[..|xs| - 1]);
      assert forall x :: x in xs <==> x in xs[..|xs| - 1] || x == xs[|xs| - 1];
      if xs[|xs| - 1] in prev then prev else prev + [xs[|xs| - 1]]
  }

  /** The distinct values are listed in the order in which each first appears. */
  lemma {:induction false} DedupFirstAppearance(xs: seq<string>)
    ensures forall i, j :: 0 <= i < j < |Dedup(xs)| ==>
              Dedup(xs)[i] in xs && Dedup(xs)[j] in xs && FirstIndex(xs, Dedup(xs)[i]) < FirstIndex(xs, Dedup(xs)[j])
    decreases |xs|
  {
    if |xs| > 0 {
      var init := xs[..|xs| - 1];
      var last := xs[|xs| - 1];
      var prev := Dedup(init);
      DedupFirstAppearance(init);
      var ys := Dedup(xs);
      assert ys == if last in prev then prev else prev + [last];
      forall i, j | 0 <= i < j < |ys|
        ensures ys[i] in xs && ys[j] in xs && FirstIndex(xs, ys[i]) < FirstIndex(xs, ys[j])
      {
        assert ys[i] == prev[i] && prev[i] in init;
        FirstIndexPrefix(xs, ys[i]);
        if j < |prev| {
          assert ys[j] == prev[j] && prev[j] in init;
          FirstIndexPrefix(xs, ys[j]);
        } else {
          assert ys[j] == last && last !in init;
          assert FirstIndex(xs, last) == |xs| - 1;
        }
      }
    } else {
      assert Dedup(xs) == [];
    }
  }

  /** A value of the prefix first appears in the whole sequence where it does in the prefix. */
  lemma FirstIndexPrefix(xs: seq<string>, x: string)
    requires |xs| > 0 && x in xs[..|xs| - 1]
    ensures FirstIndex(xs, x) == FirstIndex(xs[..|xs| - 1], x)
  {
    var init := xs[..|xs| - 1];
    var k := FirstIndex(init, x);
    var m := FirstIndex(xs, x);
    assert xs[k] == init[k];
  }

  /** Every address the entries with a given name contribute. */
  function AddressesFor(b: Builder, entries: seq<IfAddrsEntry>, name: string): set<InterfaceAddress>
  {
    if |entries| == 0 then {}
    else
      var e := entries[|entries| - 1];
      AddressesFor(b, entries[..|entries| - 1], name) + (if e.name == name then EntryAddresses(b, e) else {})
  }

  lemma {:induction false} AddressesForAbsentName(b: Builder, entries: seq<IfAddrsEntry>, name: string)
    requires name !in Names(entries)
    ensures AddressesFor(b, entries, name) == {}
    decreases |entries|
  {
    if |entries| > 0 {
      var prefix := entries[..|entries| - 1];
      assert Names(entries) == Names(prefix) + [entries[|entries| - 1].name];
      AddressesForAbsentName(b, prefix, name);
    }
  }

  /** What a successful walk produced from the entries: one interface per distinct name, in
      order of first appearance, each holding the addresses of every entry with that name, its
      other fields as the builder decides them for the name. */
  predicate Grouped(b: Builder, entries: seq<IfAddrsEntry>, ifs: seq<NetworkInterface>)
  {
    GroupedBy(b, entries, Dedup(Names(entries)), ifs)
  }

  /** `Grouped`, with the distinct names given. */
  predicate GroupedBy(b: Builder, entries: seq<IfAddrsEntry>, names: seq<string>, ifs: seq<NetworkInterface>)
  {
    && |ifs| == |names|
    && (forall i :: 0 <= i < |ifs| ==> ifs[i].description == names[i])
    && (forall i :: 0 <= i < |ifs| ==> ifs[i].addresses == AddressesFor(b, entries, names[i]))
    && (forall i :: 0 <= i < |ifs| ==>
          b.build(names[i], {}).Some? && b.build(names[i], {}).value.(addresses := {}) == ifs[i].(addresses := {}))
  }

  /** The walk fails exactly when the builder fails for some entry's name; when it succeeds the
      result is grouped by name. */
  lemma {:induction false} CollectCorrect(b: Builder, entries: seq<IfAddrsEntry>)
    requires Sound(b)
    ensures Collect(b, entries).Failure? <==> exists j :: 0 <= j < |entries| && b.build(entries[j].name, {}).None?
    ensures Collect(b, entries).Success? ==> Grouped(b, entries, Collect(b, entries).value)
    decreases |entries|
  {
    if |entries| == 0 {
      return;
    }
    var n := |entries| - 1;
    var prefix, e := entries[..n], entries[n];
    assert forall j :: 0 <= j < n ==> prefix[j] == entries[j];
    CollectCorrect(b, prefix);
    var prev := Collect(b, prefix);
    if prev.Failure? {
      var j :| 0 <= j < n && b.build(prefix[j].name, {}).None?;
      assert b.build(entries[j].name, {}).None?;
      return;
    }
    var ifs := prev.value;
    assert Collect(b, entries) == Step(b, ifs, e);
    assert Names(entries) == Names(prefix) + [e.name];
    assert forall j :: 0 <= j < n ==> b.build(entries[j].name, {}).Some?;
    var found := FindByDescription(ifs, e.name);
    if found.Some? {
      StepFoundCorrect(b, entries, ifs, found.value);
    } else if b.build(e.name, EntryAddresses(b, e)).Some? {
      StepAppendCorrect(b, entries, ifs);
      AllNamesBuild(b, entries);
    }
  }

  /** The step for a name already seen succeeds, keeps the grouping, and every entry's name
      has an interface. */
  lemma StepFoundCorrect(b: Builder, entries: seq<IfAddrsEntry>, ifs: seq<NetworkInterface>, k: nat)
    requires |entries| > 0
    requires Grouped(b, entries[..|entries| - 1], ifs)
    requires forall j :: 0 <= j < |entries| - 1 ==> b.build(entries[j].name, {}).Some?
    requires FindByDescription(ifs, entries[|entries| - 1].name) == Some(k)
    requires Names(entries) == Names(entries[..|entries| - 1]) + [entries[|entries| - 1].name]
    ensures Step(b, ifs, entries[|entries| - 1]).Success?
    ensures Grouped(b, entries, Step(b, ifs, entries[|entries| - 1]).value)
    ensures forall j :: 0 <= j < |entries| ==> b.build(entries[j].name, {}).Some?
  {
    var n := |entries| - 1;
    var prefix := entries[..n];
    var j := SeenNameIndex(b, prefix, ifs, k, entries[n].name);
    assert entries[j] == prefix[j];
    StepAttachCorrect(b, entries, ifs, k);
  }

  /** The last entry's name builds when it builds with its addresses. */
  lemma AllNamesBuild(b: Builder, entries: seq<IfAddrsEntry>)
    requires |entries| > 0 && Sound(b)
    requires forall j :: 0 <= j < |entries| - 1 ==> b.build(entries[j].name, {}).Some?
    requires b.build(entries[|entries| - 1].name, EntryAddresses(b, entries[|entries| - 1])).Some?
    ensures forall j :: 0 <= j < |entries| ==> b.build(entries[j].name, {}).Some?
  {
  }

  /** A name some interface of a grouped result carries is the name of some entry. */
  lemma SeenNameIndex(b: Builder, entries: seq<IfAddrsEntry>, ifs: seq<NetworkInterface>, k: nat, name: string)
    returns (j: nat)
    requires Grouped(b, entries, ifs) && k < |ifs| && ifs[k].description == name
    ensures j < |entries| && entries[j].name == name
  {
    assert name in Dedup(Names(entries));
    assert name in Names(entries);
    j :| 0 <= j < |Names(entries)| && Names(entries)[j] == name;
  }

  /** The step for a name already seen keeps the grouping. */
  lemma StepAttachCorrect(b: Builder, entries: seq<IfAddrsEntry>, ifs: seq<NetworkInterface>, k: nat)
    requires |entries| > 0
    requires Grouped(b, entries[..|entries| - 1], ifs)
    requires FindByDescription(ifs, entries[|entries| - 1].name) == Some(k)
    requires Names(entries) == Names(entries[..|entries| - 1]) + [entries[|entries| - 1].name]
    ensures Step(b, ifs, entries[|entries| - 1]).Success?
    ensures Grouped(b, entries, Step(b, ifs, entries[|entries| - 1]).value)
  {
    var n := |entries| - 1;
    var prefix, e := entries[..n], entries[n];
    var names := Dedup(Names(prefix));
    assert names[k] == e.name;
    DedupSeen(Names(prefix), e.name);
    AttachShape(b, ifs, e, k);
    var r := Step(b, ifs, e).value;
    forall i | 0 <= i < |r|
      ensures r[i].description == names[i]
      ensures r[i].addresses == AddressesFor(b, entries, names[i])
      ensures r[i].(addresses := {}) == ifs[i].(addresses := {})
    {
      if i != k {
        assert names[i] != e.name;
      }
    }
    assert GroupedBy(b, entries, names, r);
  }

  /** Attaching an address changes the address set of the interface found and nothing else. */
  lemma AttachShape(b: Builder, ifs: seq<NetworkInterface>, e: IfAddrsEntry, k: nat)
    requires FindByDescription(ifs, e.name) == Some(k)
    ensures Step(b, ifs, e).Success?
    ensures |Step(b, ifs, e).value| == |ifs|
    ensures forall i :: 0 <= i < |ifs| && i != k ==> Step(b, ifs, e).value[i] == ifs[i]
    ensures Step(b, ifs, e).value[k].addresses == ifs[k].addresses + EntryAddresses(b, e)
    ensures Step(b, ifs, e).value[k].description == ifs[k].description
    ensures Step(b, ifs, e).value[k].(addresses := {}) == ifs[k].(addresses := {})
  {
  }

  /** A value already seen adds nothing to the distinct values. */
  lemma DedupSeen(xs: seq<string>, x: string)
    requires x in Dedup(xs)
    ensures Dedup(xs + [x]) == Dedup(xs)
  {
    assert (xs + [x])[..|xs|] == xs;
  }

  /** The step for a new name appends the interface built for it and keeps the grouping. */
  lemma StepAppendCorrect(b: Builder, entries: seq<IfAddrsEntry>, ifs: seq<NetworkInterface>)
    requires |entries| > 0 && Sound(b)
    requires Grouped(b, entries[..|entries| - 1], ifs)
    requires FindByDescription(ifs, entries[|entries| - 1].name).None?
    requires Names(entries) == Names(entries[..|entries| - 1]) + [entries[|entries| - 1].name]
    requires b.build(entries[|entries| - 1].name, EntryAddresses(b, entries[|entries| - 1])).Some?
    ensures Step(b, ifs, entries[|entries| - 1]).Success?
    ensures Grouped(b, entries, Step(b, ifs, entries[|entries| - 1]).value)
  {
    var n := |entries| - 1;
    var prefix, e := entries[..n], entries[n];
    var oldNames := Dedup(Names(prefix));
    var names := Dedup(Names(entries));
    assert e.name !in oldNames;
    assert names == oldNames + [e.name];
    AddressesForAbsentName(b, prefix, e.name);
    var r := Step(b, ifs, e).value;
    assert r == ifs + [b.build(e.name, EntryAddresses(b, e)).value];
    forall i | 0 <= i < |r|
      ensures r[i].addresses == AddressesFor(b, entries, names[i])
    {
      if i < |ifs| {
        assert names[i] != e.name;
      }
    }
    assert GroupedBy(b, entries, names, r);
  }

  /** `enumerate_interfaces` of either variant: a failing `getifaddrs`, a failing `readlink`, or
      every interface, each built from its name and all of its addresses. No partial result is
      returned. The Unix variant hands the interfaces to a hash set; no two of them compare
      equal, so the set keeps every one. */
  function EnumerateInterfaces(v: Variant, host: Host, ifaddrs: Option<seq<IfAddrsEntry>>): (r: Result<seq<NetworkInterface>, EnumerationError>)
    ensures ifaddrs.None? ==> r == Failure(GetIfAddrsFailed)
    ensures ifaddrs.Some? ==>
              (r.Failure? <==> exists j :: 0 <= j < |ifaddrs.value| && host.readlink(LinkPath(ifaddrs.value[j].name)).None?)
    ensures ifaddrs.Some? && r.Success? ==> Grouped(BuilderOf(v, host), ifaddrs.value, r.value)
    ensures ifaddrs.Some? && r.Success? ==> forall i :: 0 <= i < |r.value| ==>
              NewInterface(v, host, r.value[i].description,
                           AddressesFor(BuilderOf(v, host), ifaddrs.value, r.value[i].description)) == Some(r.value[i])
    ensures r.Success? ==> forall i, j :: 0 <= i < j < |r.value| ==> !InterfaceEquals(r.value[i], r.value[j])
  {
    if ifaddrs.None? then Failure(GetIfAddrsFailed)
    else
      var b := BuilderOf(v, host);
      BuilderOfSound(v, host);
      CollectCorrect(b, ifaddrs.value);
      var r := Collect(b, ifaddrs.value);
      assert r.Success? ==> forall i :: 0 <= i < |r.value| ==>
        NewInterface(v, host, r.value[i].description,
                     AddressesFor(b, ifaddrs.value, r.value[i].description)) == Some(r.value[i]) by {
        if r.Success? {
          forall i | 0 <= i < |r.value|
            ensures NewInterface(v, host, r.value[i].description,
                                 AddressesFor(b, ifaddrs.value, r.value[i].description)) == Some(r.value[i])
          {
            var d := r.value[i].description;
            NewInterfaceKeepsAddresses(v, host, d, {}, r.value[i].addresses);
          }
        }
      }
      r
  }
}
