/** `network.hpp`: the enumerations that classify an interface address and an interface, their
    display names, and the two value types `InterfaceAddress` and `NetworkInterface` with the
    equality and hash keys the standard containers use for them. */
module Network {
  import opened Wrappers
  import opened Text
  import opened Platform

  /** An unsigned 16-bit value, the underlying type of `InterfaceType`. */
  type u16 = x: int | 0 <= x < 0x1_0000

  // The header's values depend on one compile-time switch, `Build`. The non-Windows branch
  // includes `<linux/if_packet.h>`, so its family values are Linux's.

  // `AddressFamily : u8`, one value per address family of the build.
  const AF_UNIX: byte := 1
  const AF_INET: byte := 2
  function AfIpx(b: Build): byte { if b.WindowsBuild? then 6 else 4 }
  function AfAppleTalk(b: Build): byte { if b.WindowsBuild? then 16 else 5 }
  function AfInet6(b: Build): byte { if b.WindowsBuild? then 23 else 10 }
  /** `AddressFamily::MAC`: `AF_LINK` on Windows, `AF_PACKET` elsewhere. */
  function AfMac(b: Build): byte { if b.WindowsBuild? then 33 else 17 }

  datatype RoutingScheme = Unicast | Multicast | Anycast | UnknownScheme

  // `InterfaceType : u16`. On POSIX builds `WIRELESS` shares the value 65535 with `UNKNOWN`.
  function TypeLoopback(b: Build): u16 { if b.WindowsBuild? then 24 else 772 }
  function TypeEthernet(b: Build): u16 { if b.WindowsBuild? then 6 else 1 }
  function TypeWireless(b: Build): u16 { if b.WindowsBuild? then 71 else 65535 }
  function TypePpp(b: Build): u16 { if b.WindowsBuild? then 23 else 512 }
  function TypeAtm(b: Build): u16 { if b.WindowsBuild? then 37 else 19 }
  function TypeTunnel(b: Build): u16 { if b.WindowsBuild? then 131 else 768 }
  const TYPE_UNKNOWN: u16 := 65535

  /** The six named interface types of a build. */
  function NamedTypes(b: Build): seq<u16>
  {
    [TypeLoopback(b), TypeEthernet(b), TypeWireless(b), TypeTunnel(b), TypePpp(b), TypeAtm(b)]
  }

  /** `get_interface_type_name`. Every named value maps to its own name, anything else to
      "Unknown"; on POSIX builds `UNKNOWN` is therefore reported as "Wireless". */
  function InterfaceTypeName(b: Build, t: u16): (name: string)
    ensures t == TypeLoopback(b) <==> name == "Loopback"
    ensures t == TypeEthernet(b) <==> name == "Ethernet"
    ensures t == TypeWireless(b) <==> name == "Wireless"
    ensures t == TypeTunnel(b) <==> name == "Tunnel"
    ensures t == TypePpp(b) <==> name == "PPP"
    ensures t == TypeAtm(b) <==> name == "ATM"
    ensures t !in NamedTypes(b) <==> name == "Unknown"
    ensures b.PosixBuild? && t == TYPE_UNKNOWN ==> name == "Wireless"
  {
    if t == TypeLoopback(b) then "Loopback"
    else if t == TypeEthernet(b) then "Ethernet"
    else if t == TypeWireless(b) then "Wireless"
    else if t == TypeTunnel(b) then "Tunnel"
    else if t == TypePpp(b) then "PPP"
    else if t == TypeAtm(b) then "ATM"
    else "Unknown"
  }

  /** The six named address families of a build. */
  function NamedFamilies(b: Build): seq<byte>
  {
    [AF_INET, AfInet6(b), AF_UNIX, AfIpx(b), AfMac(b), AfAppleTalk(b)]
  }

  /** `get_address_family_name` */
  function AddressFamilyName(b: Build, family: byte): (name: string)
    ensures family == AF_INET <==> name == "IPv4"
    ensures family == AfInet6(b) <==> name == "IPv6"
    ensures family == AF_UNIX <==> name == "UNIX"
    ensures family == AfIpx(b) <==> name == "IPX"
    ensures family == AfMac(b) <==> name == "MAC"
    ensures family == AfAppleTalk(b) <==> name == "AppleTalk"
    ensures family !in NamedFamilies(b) <==> name == "Unknown"
  {
    if family == AF_INET then "IPv4"
    else if family == AfInet6(b) then "IPv6"
    else if family == AF_UNIX then "UNIX"
    else if family == AfIpx(b) then "IPX"
    else if family == AfMac(b) then "MAC"
    else if family == AfAppleTalk(b) then "AppleTalk"
    else "Unknown"
  }

  /** `get_routing_scheme_name` */
  function RoutingSchemeName(scheme: RoutingScheme): (name: string)
    ensures scheme.Unicast? <==> name == "Unicast"
    ensures scheme.Multicast? <==> name == "Multicast"
    ensures scheme.Anycast? <==> name == "Anycast"
    ensures scheme.UnknownScheme? <==> name == "Unknown"
  {
    match scheme
    case Unicast => "Unicast"
    case Multicast => "Multicast"
    case Anycast => "Anycast"
    case UnknownScheme => "Unknown"
  }

  /** The display names are pairwise distinct, so each can be read back to its value. */
  lemma NamesIdentifyValues(b: Build, t1: u16, t2: u16, f1: byte, f2: byte)
    ensures t1 in NamedTypes(b) && InterfaceTypeName(b, t1) == InterfaceTypeName(b, t2) ==> t1 == t2
    ensures f1 in NamedFamilies(b) && AddressFamilyName(b, f1) == AddressFamilyName(b, f2) ==> f1 == f2
  {
  }

  /** `InterfaceAddress`: the optional literal address, its family and its routing scheme. */
  datatype InterfaceAddress = InterfaceAddress(address: Option<string>, family: byte, scheme: RoutingScheme)

  /** `InterfaceAddress::operator==`, field by field; `!=` is its negation. */
  predicate AddressEquals(a: InterfaceAddress, b: InterfaceAddress)
  {
    a.address == b.address && a.family == b.family && a.scheme == b.scheme
  }

  /** Address equality is exactly identity of the modelled value, so the hash over the same
      three fields agrees with it and an address set holds each address once. */
  lemma AddressEqualsIsIdentity(a: InterfaceAddress, b: InterfaceAddress)
    ensures AddressEquals(a, b) <==> a == b
  {
  }

  /** `NetworkInterface`: path, friendly name, addresses, optional link speed, type and MTU. */
  datatype NetworkInterface = NetworkInterface(
    name: string,
    description: string,
    addresses: set<InterfaceAddress>,
    linkSpeed: Option<nat>,
    itype: u16,
    mtu: nat)

  /** `NetworkInterface::operator==`: every field except the MTU. */
  predicate InterfaceEquals(a: NetworkInterface, b: NetworkInterface)
  {
    && a.name == b.name && a.description == b.description && a.addresses == b.addresses
    && a.linkSpeed == b.linkSpeed && a.itype == b.itype
  }

  /** `NetworkInterface::operator!=` */
  predicate InterfaceDiffers(a: NetworkInterface, b: NetworkInterface)
  {
    !InterfaceEquals(a, b)
  }

  /** Interface equality is equality up to the MTU. */
  lemma InterfaceEqualsIgnoresMtu(a: NetworkInterface, b: NetworkInterface)
    ensures InterfaceEquals(a, b) <==> a.(mtu := 0) == b.(mtu := 0)
    ensures InterfaceDiffers(a, b) <==> !InterfaceEquals(a, b)
  {
  }

  /** What the `NetworkInterface` hash is computed from: name, description, link speed, type
      and the addresses. */
  datatype HashKey = HashKey(name: string, description: string, linkSpeed: Option<nat>, itype: u16,
                             addresses: set<InterfaceAddress>)

  function KeyOf(i: NetworkInterface): (k: HashKey)
    ensures k.name == i.name && k.description == i.description && k.addresses == i.addresses
    ensures k.linkSpeed == i.linkSpeed && k.itype == i.itype
  {
    HashKey(i.name, i.description, i.linkSpeed, i.itype, i.addresses)
  }

  /** Equal interfaces hash equally, whatever hash function is applied to the key, and the key
      is exactly the data equality compares. */
  lemma HashAgreesWithEquality(hash: HashKey -> int, a: NetworkInterface, b: NetworkInterface)
    ensures InterfaceEquals(a, b) <==> KeyOf(a) == KeyOf(b)
    ensures InterfaceEquals(a, b) ==> hash(KeyOf(a)) == hash(KeyOf(b))
  {
  }

  /** `insert_address` (Linux builds): add one address, nothing else changes. */
  function InsertAddress(i: NetworkInterface, a: InterfaceAddress): (r: NetworkInterface)
    ensures a in r.addresses && i.addresses <= r.addresses
    ensures forall x :: x in r.addresses ==> x == a || x in i.addresses
    ensures r.(addresses := i.addresses) == i
  {
    i.(addresses := i.addresses + {a})
  }

  /** `has_addresses_by_family` */
  predicate HasAddressesByFamily(i: NetworkInterface, family: byte)
  {
    exists a :: a in i.addresses && a.family == family
  }

  /** `has_addresses_with_routing_scheme` */
  predicate HasAddressesWithRoutingScheme(i: NetworkInterface, scheme: RoutingScheme)
  {
    exists a :: a in i.addresses && a.scheme == scheme
  }

  /** The two queries against the families and schemes the interface holds, and how an
      insertion changes them. */
  lemma QueriesAfterInsert(i: NetworkInterface, a: InterfaceAddress, family: byte, scheme: RoutingScheme)
    ensures HasAddressesByFamily(i, family) <==> family in (set x | x in i.addresses :: x.family)
    ensures HasAddressesWithRoutingScheme(i, scheme) <==> scheme in (set x | x in i.addresses :: x.scheme)
    ensures HasAddressesByFamily(InsertAddress(i, a), family)
            <==> HasAddressesByFamily(i, family) || a.family == family
    ensures HasAddressesWithRoutingScheme(InsertAddress(i, a), scheme)
            <==> HasAddressesWithRoutingScheme(i, scheme) || a.scheme == scheme
  {
    var j := InsertAddress(i, a);
    if HasAddressesByFamily(j, family) {
      var x :| x in j.addresses && x.family == family;
      assert x == a || x in i.addresses;
    }
    if HasAddressesWithRoutingScheme(j, scheme) {
      var x :| x in j.addresses && x.scheme == scheme;
      assert x == a || x in i.addresses;
    }
    assert a in j.addresses;
  }

  /** Every MAC-family address of the interface carries a literal address. */
  predicate MacAddressesPresent(b: Build, i: NetworkInterface)
  {
    forall a :: a in i.addresses && a.family == AfMac(b) ==> a.address.Some?
  }

  /** `get_mac_address`: the literal of the first MAC-family address the set yields. The set's
      iteration order is unspecified, so the model picks any one. Calling it on an interface
      without a MAC address, or whose MAC address has no literal, is undefined behaviour. */
  ghost function GetMacAddress(b: Build, i: NetworkInterface): (mac: string)
    requires HasAddressesByFamily(i, AfMac(b)) && MacAddressesPresent(b, i)
    ensures exists a :: a in i.addresses && a.family == AfMac(b) && a.address == Some(mac)
  {
    var a :| a in i.addresses && a.family == AfMac(b);
    a.address.value
  }
}
