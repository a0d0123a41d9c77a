# kstd-platform in Dafny

This project models the platform layer of kstd-platform, a C++ library that hides operating-system differences. It models these pieces:

- the textual IPv4/IPv6 validators of `dns.hpp` and the POSIX DNS `Resolver`;
- the network value types of `network.hpp` (`InterfaceAddress`, `NetworkInterface`, their names, equality and hash keys);
- interface enumeration over `getifaddrs`, in its Unix (`src/macos/network.cpp`) and Linux (`src/linux/network.cpp`) variants;
- the Windows Wi-Fi scan of `src/windows/wireless.cpp` and the `WlanNetwork` value type of `wireless.hpp`;
- `FileHandle`;
- the `File` class of `src/file.cpp` and the older `platform::file::File` of `src/macos/file.cpp` and `src/windows/file.cpp`;
- the `MappingAccess` tables of `memory_mapping.hpp`;
- `FileMapping` (`src/file_mapping.cpp`), `NamedMapping` (`src/named_mapping.cpp`) and the older `platform::mm::FileMapping` (`src/macos/file_mapping.cpp`, `src/windows/file_mapping.cpp`);
- the aligned allocator of `memory.hpp`;
- `get_platform_name` and the text of `get_last_error`.

Every operating-system call is a parameter of the model. It is a function value inside a record such as `PosixOs`, `Host`, `WlanApi` or `ShmOs`, and it is a fixed function of its arguments. The model therefore shows which calls an operation makes, with which arguments, and what it does with each possible answer. Objects with mutable state (`File`, `FileMapping`, `NamedMapping`) are immutable records. Each member call is a function from the record to the record afterwards plus the call's result. Code that is selected at compile time is a `Build` (Windows or POSIX) or a `Posix` (Linux or macOS) parameter wherever constants differ.

The Wi-Fi scan is the Windows WLAN API scan, and it keeps one record per SSID. `WlanNetwork::operator==` compares the optional SSIDs only, so two hidden networks are equal and a scan keeps at most one of them (`Wireless.AtMostOneHidden`).

Where the code is evidently wrong, the model holds both versions: a member that does what the code does, with a lemma exhibiting the defect, and a corrected member that the rest of the model uses. See "## Findings".

Files: `wrappers.dfy` (Option/Result/Outcome), `text.dfy` (splitting, joining, hexadecimal), `platform.dfy`, `ip_address.dfy`, `resolver.dfy`, `network.dfy`, `enumeration.dfy`, `wireless.dfy`, `file_handle.dfy`, `file_system.dfy`, `file.dfy`, `file_legacy.dfy`, `memory_mapping.dfy`, `file_mapping.dfy`, `named_mapping.dfy`, `file_mapping_legacy.dfy`, `memory.dfy`.

## Model

| member | source | states |
|---|---|---|
| Platform.PlatformName | include/kstd/platform/platform.hpp:73-80 | each of WINDOWS, LINUX and MACOS gets its own name and only it gets that name; every other `u8` value gets "Unknown" |
| Platform.ErrorText | include/kstd/platform/platform.hpp:98 | the text is "ERROR 0x", then the code in upper-case hex without leading zeros that parses back to the code, then ": " and the message |
| Platform.WindowsErrorText | include/kstd/platform/platform.hpp:82-96 | empty exactly when the error code is 0; otherwise the same "ERROR 0x…: message" shape |
| Text.ParseUpperHex | include/kstd/platform/platform.hpp:96-98 | parsing the `{:X}` rendering of a number gives the number back |
| Text.UpperHex | include/kstd/platform/platform.hpp:96-98 | `{:X}` is at least one hex digit, none of them a lower-case letter, with no leading zero |
| Text.Hex2 | src/windows/wireless.cpp:117-124 | `{:02X}` of a byte is two hex digits, none of them a lower-case letter, with no colon, and parses back to the byte |
| Text.HexPairsSnoc | src/windows/wireless.cpp:117-124 | appending a byte appends ":" and its two digits to the colon-separated rendering |
| Text.MacText | src/macos/network.cpp:107-111 | the MAC text of six bytes is 17 characters with no lower-case letter, with colons at the five separators and each pair parsing back to its byte |
| Text.MacTextInjective | src/macos/network.cpp:109-111 | two MAC texts are equal exactly when the six bytes are equal |
| Text.JoinSplit | include/kstd/platform/dns.hpp:82-97 | joining the fields of a split with the separator restores the text (the field view used for both patterns loses nothing) |
| Text.SplitJoin | include/kstd/platform/dns.hpp:82-97 | splitting a join of separator-free fields gives the fields back |
| IpAddress.IsIPv4Address | include/kstd/platform/dns.hpp:82-85 | the whole text is four dot-separated groups of 1-3 decimal digits; `IPv4FromGroups` and `IPv4IsGroups` give both directions |
| IpAddress.IPv4FromGroups | include/kstd/platform/dns.hpp:82-85 | any four groups of 1-3 digits joined by dots pass `is_ipv4_address` |
| IpAddress.IPv4IsGroups | include/kstd/platform/dns.hpp:82-85 | every text that passes is four groups of 1-3 digits joined by dots |
| IpAddress.IPv4HasNoColon | include/kstd/platform/dns.hpp:82-85 | an accepted IPv4 text contains no colon |
| IpAddress.IPv4AcceptsOutOfRangeGroups | include/kstd/platform/dns.hpp:83 | the pattern limits group length, not value: "999.999.999.999" passes |
| IpAddress.IPv4RejectsThreeGroups | include/kstd/platform/dns.hpp:83 | "1.2.3" does not pass |
| IpAddress.IPv4RejectsFiveGroups | include/kstd/platform/dns.hpp:83 | "1.2.3.4.5" does not pass |
| IpAddress.IPv4RejectsLongGroup | include/kstd/platform/dns.hpp:83 | a four-digit group ("1234.1.1.1") does not pass |
| IpAddress.IsIPv6Address | include/kstd/platform/dns.hpp:87-97 | the whole text matches one of the alternatives of the pattern: the plain and compressed group forms, the `fe80:` zone form, and the two forms ending in a dotted IPv4 address |
| IpAddress.IPv6FullFormAccepted | include/kstd/platform/dns.hpp:89 | any eight groups of 1-4 hex digits joined by colons pass `is_ipv6_address` |
| IpAddress.IPv6CompressedExamples | include/kstd/platform/dns.hpp:92 | "::" and "::1" pass |
| IpAddress.IPv6LinkLocalAccepted | include/kstd/platform/dns.hpp:92-93 | "fe80::" followed by up to four groups of 0-4 hex digits, "%" and an alphanumeric zone passes |
| IpAddress.IPv6HexRunsAtMostFour | include/kstd/platform/dns.hpp:87-97 | no colon-separated field of an accepted text is a hex run longer than four digits |
| IpAddress.OctetInRange | include/kstd/platform/dns.hpp:93-95 | an octet accepted by `(25[0-5]\|(2[0-4]\|1{0,1}[0-9]){0,1}[0-9])` is a decimal numeral of value at most 255 |
| IpAddress.IPv6EmbeddedOctetsInRange | include/kstd/platform/dns.hpp:93-95 | an accepted text with a dot ends in four dotted decimal octets, each 0-255 |
| IpAddress.IPv6HasColon | include/kstd/platform/dns.hpp:87-97 | every accepted IPv6 text contains a colon |
| IpAddress.NotBothFamilies | include/kstd/platform/dns.hpp:82-97 | no text passes both validators, so the resolver's family choice is unambiguous |
| Resolver.DefaultResolver | src/linux/dns.cpp:32-34 | the default resolver has no nameserver list of its own |
| Resolver.NewResolver | src/macos/dns.cpp:25-30 | the list constructor fails exactly for an empty list and otherwise keeps the list |
| Resolver.NewResolverLinuxAsWritten | src/linux/dns.cpp:25-30 | as written, the Linux list constructor throws "No DNS server specified" whatever list it is given |
| Resolver.LinuxListConstructorAlwaysThrows | src/linux/dns.cpp:25-30 | as written, the Linux list constructor fails for every list, because it tests the moved-from parameter |
| Resolver.ConfigureServers | src/linux/dns.cpp:50-66 | succeeds exactly when every entry is IPv4 or IPv6 text; each entry keeps its text and port 53 and gets AF_INET exactly when it is IPv4 text; a failure names the first illegal entry |
| Resolver.Prepare | src/linux/dns.cpp:38-71 | "localhost" is answered before any query; with a nameserver list, an illegal entry fails before any query; otherwise the query is issued for the name and record type, with a nameserver table exactly when the list is not empty |
| Resolver.CheckLength | src/linux/dns.cpp:73-80 | a negative length is a failed query, 0 is "no response", and a positive length is accepted as the reply length |
| Resolver.ResponseBuffer | src/linux/dns.cpp:69-71 | the buffer has the build's size (512 or 4096) and holds the reply bytes followed by zeros |
| Resolver.ResolveAsWritten | src/linux/dns.cpp:38-83 | as written, a successful result is the first `length + 1` bytes of the response buffer |
| Resolver.ResolveAsWrittenAppendsByte | src/linux/dns.cpp:81-82 | as written, a reply of n bytes yields a result of n + 1 characters whose last one is NUL |
| Resolver.Resolve | src/linux/dns.cpp:38-83 | "localhost" is answered without a query. An illegal server aborts before the query. A negative length means failure, 0 means "no response", and a positive length in the buffer gives exactly that many reply bytes |
| Resolver.LocalhostNeedsNoQuery | src/macos/dns.cpp:39-45 | "localhost" gives 127.0.0.1 or ::1 whatever the resolver and the query oracle are |
| Resolver.IllegalServerAbortsBeforeQuery | src/macos/dns.cpp:51-63 | a list with an illegal entry fails every non-localhost resolution without a query, naming the first such entry |
| Resolver.DefaultResolverUsesSystemServers | src/macos/dns.cpp:50-51 | the default resolver issues its query without installing a nameserver table |
| Network.InterfaceTypeName | include/kstd/platform/network.hpp:149-158 | each named interface type gets its own name and only it does; every other value gets "Unknown"; on POSIX builds UNKNOWN (= WIRELESS = 65535) gets "Wireless" |
| Network.AddressFamilyName | include/kstd/platform/network.hpp:168-177 | each named family gets its own name and only it does; every other value gets "Unknown" |
| Network.RoutingSchemeName | include/kstd/platform/network.hpp:189-195 | each routing scheme gets its own name, in both directions |
| Network.NamesIdentifyValues | include/kstd/platform/network.hpp:149-177 | a name of a named type or family identifies the value |
| Network.AddressEquals | include/kstd/platform/network.hpp:133-139 | two addresses are equal when address text, family and routing scheme are; `AddressEqualsIsIdentity` shows this is identity of the record |
| Network.AddressEqualsIsIdentity | include/kstd/platform/network.hpp:133-139 | address equality compares all three fields, so it is identity and an address set holds each address once |
| Network.InterfaceEquals | include/kstd/platform/network.hpp:363-366 | two interfaces are equal when name, description, addresses, link speed and type are; the MTU is not compared |
| Network.InterfaceDiffers | include/kstd/platform/network.hpp:368-370 | `!=` is the negation of `==` |
| Network.InterfaceEqualsIgnoresMtu | include/kstd/platform/network.hpp:363-370 | interfaces are equal exactly when they agree on everything but the MTU; `!=` is the negation |
| Network.HashAgreesWithEquality | include/kstd/platform/network.hpp:389-393 | equal interfaces have equal keys and hashes, and equal keys mean equal interfaces |
| Network.InsertAddress | include/kstd/platform/network.hpp:253-255 | the address is added, nothing is removed, nothing but the address set changes |
| Network.HasAddressesByFamily | include/kstd/platform/network.hpp:279-286 | some address of the interface has the family |
| Network.HasAddressesWithRoutingScheme | include/kstd/platform/network.hpp:295-301 | some address of the interface has the routing scheme |
| Network.QueriesAfterInsert | include/kstd/platform/network.hpp:279-301 | `has_addresses_by_family` and `has_addresses_with_routing_scheme` are membership in the sets of families and schemes held; an insertion adds exactly the new address's family and scheme |
| Network.GetMacAddress | include/kstd/platform/network.hpp:264-269 | the result is the literal of some MAC-family address of the interface |
| Enumeration.ReadFile | src/macos/network.cpp:37-50 | nothing exactly when the file is missing or has no token; otherwise its first token, which is not empty |
| Enumeration.ToUsize | src/macos/network.cpp:153 | `static_cast<usize>` of an `int` is the value modulo 2^64 |
| Enumeration.ToU16 | src/macos/network.cpp:156 | `static_cast<InterfaceType>` keeps a value that fits in 16 bits and otherwise reduces it modulo 2^16 |
| Enumeration.CString | src/macos/network.cpp:54-57 | what a C function reads of a string: the longest NUL-free prefix |
| Enumeration.CStringOfText | src/macos/network.cpp:54-57 | a NUL-free text padded with NULs reads back as the text |
| Enumeration.IsMulticast | src/macos/network.cpp:52-62 | IPv4 is multicast exactly for a first byte 224-239, IPv6 exactly for a first byte 0xff, and every other family is not multicast |
| Enumeration.ClassDNibble | src/macos/network.cpp:54 | the `ntohl(...) & 0xF0000000 == 0xE0000000` test is exactly 224 <= first byte < 240 |
| Enumeration.NtopBufferAsWritten | src/macos/network.cpp:89-96 | as written, the address string is the whole zero-filled `inet_ntop` buffer: the text followed by NULs up to the buffer size |
| Enumeration.PaddedAddressLooksLikeText | src/macos/network.cpp:95 | the padded string differs from the text, yet reads as the text through `data()` |
| Enumeration.LoopbackIsPadded | src/linux/network.cpp:63-68 | as written, the loopback address is "127.0.0.1" followed by seven NULs |
| Enumeration.NtopBuffer | src/linux/network.cpp:62-79 | `inet_ntop` succeeds exactly when the text fits its buffer, and the address is then the text itself |
| Enumeration.FormatAddress | src/macos/network.cpp:88-114 | IPv4 and IPv6 addresses are formatted by `inet_ntop` in buffers of 16 and 46 bytes; link-layer addresses become MAC text in the Unix variant only; other families have no literal |
| Enumeration.AddressOf | src/macos/network.cpp:116-134 | the family is truncated to a `u8`. The Linux variant marks every address unicast. The Unix variant marks an address with no literal UNKNOWN, and otherwise multicast exactly when `is_multicast` says so and unicast otherwise |
| Enumeration.NewInterface | src/macos/network.cpp:139-167 | fails exactly when `readlink` fails. The path is the canonical link target and the speed is read from sysfs. In the Unix variant, a wireless directory makes the type WIRELESS, else it is read from sysfs, and the MTU defaults to 0. The Linux variant has type UNKNOWN and MTU 0 |
| Enumeration.NewInterfaceKeepsAddresses | src/linux/network.cpp:117 | the addresses passed to a new interface are stored as given and influence nothing else |
| Enumeration.FindByDescription | src/linux/network.cpp:49-51 | the index of the first interface with the name, and none exactly when no interface has it |
| Enumeration.BuilderOfSound | src/macos/network.cpp:128-167 | the interfaces a variant builds carry the entry's name and exactly the addresses given |
| Enumeration.Step | src/macos/network.cpp:76-168 | one loop turn: an entry whose name is known adds its address to that interface; an unknown name builds a new interface, and a failed build fails the walk (`StepAttachCorrect`, `StepAppendCorrect`) |
| Enumeration.Collect | src/macos/network.cpp:71-169 | the loop over the `getifaddrs` list, stopping at the first failure (`CollectCorrect`) |
| Enumeration.Names | src/macos/network.cpp:76-78 | the name of every entry, in list order |
| Enumeration.Dedup | src/macos/network.cpp:76-78 | the distinct names, each once, exactly the names that occur |
| Enumeration.DedupFirstAppearance | src/macos/network.cpp:76-78 | the distinct names are listed in the order in which each first appears in the list |
| Enumeration.AddressesFor | src/macos/network.cpp:126-135 | the union of the addresses of every entry with the name, the reference for `CollectCorrect` |
| Enumeration.Grouped | src/macos/network.cpp:71-169 | one interface per distinct name in order of first appearance, each built from its name and holding the addresses of every entry with that name |
| Enumeration.AddressesForAbsentName | src/macos/network.cpp:129-135 | a name no entry carries collects no address |
| Enumeration.CollectCorrect | src/macos/network.cpp:71-169 | the walk fails exactly when some name cannot be resolved; otherwise it holds one interface per distinct name, in order of first appearance, with the addresses of every entry of that name |
| Enumeration.StepAttachCorrect | src/macos/network.cpp:129-132 | an entry whose name is already known adds its address to that interface and keeps the grouping |
| Enumeration.StepAppendCorrect | src/macos/network.cpp:138-168 | an entry with a new name appends a new interface and keeps the grouping |
| Enumeration.EnumerateInterfaces | src/macos/network.cpp:64-173 | a failed `getifaddrs` or `readlink` gives an error, with no partial result. Otherwise each interface is the one built from its name and all of its addresses, and no two compare equal, so the hash set keeps them all |
| Wireless.WlanEquals | include/kstd/platform/wireless.hpp:94-96 | two networks are equal when their optional SSIDs are |
| Wireless.EqualityIsBySsid | include/kstd/platform/wireless.hpp:94-108 | two networks are equal exactly when their SSIDs are, whatever BSSID, frequency or signal they have; the hash key is the SSID; `!=` is the negation |
| Wireless.InsertNetwork | include/kstd/platform/wireless.hpp:94-96 | inserting a network whose SSID is present leaves the set unchanged; otherwise it is appended; SSIDs stay distinct |
| Wireless.AtMostOneHidden | include/kstd/platform/wireless.hpp:94-96 | a set of networks holds at most one network without an SSID |
| Wireless.DecodeSsid | src/windows/wireless.cpp:87-95 | the SSID is the first `uSSIDLength` bytes as characters; it is absent exactly when that length is 0 |
| Wireless.KhzToMhz | src/windows/wireless.cpp:128 | the frequency in MHz is the kHz value divided by 1000, rounded down |
| Wireless.FormatBssid | src/windows/wireless.cpp:114-124 | the loop produces the 17-character MAC text of the six BSSID bytes |
| Wireless.NetworkRecord | src/windows/wireless.cpp:126-129 | the record holds the MAC text of the first BSS entry, the decoded SSID, the frequency in MHz, the signal quality and a specified unit |
| Wireless.ReportedName | src/windows/wireless.cpp:107-112 | a BSS failure names the SSID, or "Hidden Network" when there is none |
| Wireless.ScanNetworks | src/windows/wireless.cpp:84-130 | a scan that succeeds holds networks with distinct SSIDs; a scan that fails fails on a BSS list |
| Wireless.FirstBssFailure | src/windows/wireless.cpp:98-112 | the index of the first network whose BSS list cannot be read, and none exactly when all can be |
| Wireless.ScanNetworksFails | src/windows/wireless.cpp:98-112 | the scan fails exactly when some BSS list cannot be read, naming the first such network, with no partial set |
| Wireless.Records | src/windows/wireless.cpp:84-130 | one record per available network, in list order, from its first BSS entry |
| Wireless.InsertAll | src/windows/wireless.cpp:126-129 | the records inserted one after another into an empty set (`InsertAllKeepsFirst`) |
| Wireless.ScanNetworksSucceeds | src/windows/wireless.cpp:84-130 | when every BSS list can be read, the scan is the hash set filled with all the records in list order |
| Wireless.InsertAllKeepsFirst | src/windows/wireless.cpp:127-129 | filling a set keyed by SSID keeps, for every SSID, exactly the first record with it |
| Wireless.ScanKeepsFirstPerSsid | src/windows/wireless.cpp:84-130 | a successful scan holds one network per distinct SSID, namely the first one listed |
| Wireless.FirstMatch | src/windows/wireless.cpp:63-68 | the first WLAN interface whose description matches, and none exactly when none matches |
| Wireless.EnumerateWlanNetworks | src/windows/wireless.cpp:27-136 | a non-wireless interface is refused, naming its type, before any WLAN call. Handle and interface-list failures are reported in that order. No matching interface gives an empty set. Only the first matching interface is scanned |
| FileHandle.DefaultHandle | include/kstd/platform/file_handle.hpp:37-39 | the default handle is the build's invalid value and is not valid |
| FileHandle.HandleLaws | include/kstd/platform/file_handle.hpp:33-61 | wrapping and converting back is the identity; `==` and `!=` are complementary and mean identity of the value; validity excludes exactly -1 on POSIX and NULL and INVALID_HANDLE_VALUE on Windows |
| FileSystem.PosixAccess | src/file.cpp:91-104 | READ opens O_RDONLY, WRITE and READ_WRITE open O_RDWR |
| FileSystem.PosixPermissions | src/file.cpp:91-104 | read bits unless WRITE, write bits unless READ, never execute bits, nothing else |
| FileSystem.PosixOpenFlags | src/file.cpp:106-108 | the access flags of the mode, plus O_CREAT exactly when the path does not exist, and nothing else |
| FileSystem.WindowsAccess | src/file.cpp:78-82 | GENERIC_READ unless WRITE, GENERIC_WRITE unless READ, nothing else |
| FileSystem.Disposition | src/file.cpp:84 | OPEN_EXISTING exactly for an existing path, CREATE_NEW otherwise |
| FileSystem.ExecMode | src/file.cpp:154-161 | all three execute bits are set or cleared, and every other bit is kept |
| FileSystem.ExecBitLaws | src/file.cpp:154-161 | after `set_executable(x)` the execute test answers x; setting twice is setting once; the test reads only the execute bits |
| FileSystem.ExecBitsAnyOf | src/file.cpp:190-191 | the three-way execute test is "some execute bit is set" |
| FileSystem.ToUsize | src/file.cpp:218 | `static_cast<usize>` keeps a non-negative size and wraps a negative one modulo 2^64 |
| FileSystem.ToOffset | src/file.cpp:249 | the signed offset of a size converts back to the size |
| FileSystem.PosixSetExecutable | src/file.cpp:145-170 | a failed `fstat` is an error; otherwise the call succeeds exactly when `fchmod` accepts the mode with the execute bits set or cleared |
| FileSystem.PosixIsExecutable | src/file.cpp:183-191 | an error exactly when `fstat` fails; otherwise whether any execute bit is set |
| FileSystem.PosixSize | src/file.cpp:211-218 | an error exactly when `fstat` fails; otherwise a non-negative `st_size` as the size |
| FileSystem.PosixResize | src/file.cpp:249-252 | succeeds exactly when `ftruncate` to the size does |
| FileSystem.WindowsSize | src/file.cpp:202-209 | an error exactly when `GetFileSizeEx` fails; otherwise a non-negative size as is |
| FileSystem.WindowsResize | src/file.cpp:228-247 | succeeds exactly when moving the pointer, truncating and moving back all succeed; the first failing call decides the error |
| Files.NewFile | src/file.cpp:41-45 | the file keeps path and mode and is not open |
| Files.PosixOpen | src/file.cpp:47-119 | an open file is refused and unchanged. Otherwise `open` is called with the flag and permission tables, and the call succeeds exactly when the descriptor is valid |
| Files.WindowsOpen | src/file.cpp:47-119 | an open file is refused. A failed security descriptor fails before `CreateFileW`. Otherwise the call succeeds exactly when the handle is valid |
| Files.PosixClose | src/file.cpp:121-143 | a file that is not open is refused. A failed `close` keeps the handle. Success leaves the file closed and otherwise unchanged |
| Files.WindowsClose | src/file.cpp:121-143 | the same, with `CloseHandle` |
| Files.OpenThenClose | src/file.cpp:41-143 | a successful open followed by a successful close gives back the file as constructed |
| Files.SetExecutable | src/file.cpp:145-170 | no open check; on Windows it does nothing and succeeds |
| Files.PosixFileIsExecutable | src/file.cpp:172-192 | refused when not open; a failed `fstat` is an error; otherwise whether any execute bit is set |
| Files.WindowsFileIsExecutable | src/file.cpp:173-176 | the answer is whether `GetBinaryTypeW` recognises the path; it never fails |
| Files.PosixFileSize | src/file.cpp:195-220 | refused when not open; otherwise the `fstat` size |
| Files.WindowsFileSize | src/file.cpp:195-220 | refused when not open; otherwise the `GetFileSizeEx` size |
| Files.PosixFileResize | src/file.cpp:222-256 | refused when not open; otherwise succeeds exactly when `ftruncate` does |
| Files.WindowsFileResize | src/file.cpp:222-256 | refused when not open; otherwise the three-call resize |
| Files.ClosedFileRefusesQueries | src/file.cpp:178-181 | a file never opened refuses `is_executable`, `resize` and `close`, whatever the system would answer |
| LegacyFile.Default | src/macos/file.cpp:39-42 | mode READ, empty path, nothing owned |
| LegacyFile.PosixConstruct | src/macos/file.cpp:44-84 | throws exactly when `open`, with the flag and permission tables, gives an invalid descriptor; otherwise owns that descriptor |
| LegacyFile.WindowsConstruct | src/windows/file.cpp:43-83 | throws when the security descriptor or `CreateFileW` fails; otherwise owns the handle |
| LegacyFile.PosixConstructIsOpen | src/macos/file.cpp:44-84 | the constructor succeeds exactly when `File::open` of a fresh closed file does, and reaches the same fields |
| LegacyFile.WindowsConstructIsOpen | src/windows/file.cpp:43-83 | the same for the Windows constructor |
| LegacyFile.PosixCopy | src/macos/file.cpp:28-30 | the copy opens the other's path again in its mode |
| LegacyFile.MoveConstruct | src/macos/file.cpp:32-37 | the target takes the fields, the source owns nothing, and together they own what the original owned |
| LegacyFile.MoveAssign | src/macos/file.cpp:100-106 | the same transfer into an existing object |
| LegacyFile.MoveAssignDropsHandle | src/windows/file.cpp:100-106 | the handle held before a move assignment is owned by neither object afterwards |
| LegacyFile.MoveAssignClosing | src/macos/file.cpp:100-106 | the corrected move assignment: the held handle is closed exactly when it is valid, then the target takes the other's fields and the source owns nothing |
| LegacyFile.MoveAssignClosingLosesNothing | src/macos/file.cpp:100-106 | with the held handle closed first, every handle owned before is either closed or owned by one object afterwards, and the closed one by neither |
| LegacyFile.PosixCopyAssign | src/macos/file.cpp:92-98 | self-assignment changes nothing; otherwise a throwing constructor fails the assignment and success holds the other's path and mode over a valid descriptor |
| LegacyFile.Destroy | src/macos/file.cpp:86-90 | the destructor closes the handle exactly when it is valid |
| LegacyFile.MoveThenDestroyClosesOnce | src/windows/file.cpp:31-36 | after a move the source closes nothing and the target closes what the original would have |
| LegacyFile.SetExecutable | src/macos/file.cpp:108-129 | on macOS, `fstat` then `fchmod` with the execute bits set or cleared, with no open check; on Windows nothing, successfully |
| LegacyFile.PosixIsExecutableOf | src/macos/file.cpp:131-140 | an error exactly when `fstat` fails; otherwise whether any execute bit is set |
| LegacyFile.LegacySkipsOpenCheck | src/macos/file.cpp:131-158 | on an object that is not open, the older class asks the system and the newer one refuses |
| MemoryMapping.DeriveFileModeAsWritten | include/kstd/platform/memory_mapping.hpp:35-47 | as written: READ\|WRITE opens READ_WRITE, WRITE alone opens READ, anything without WRITE opens WRITE |
| MemoryMapping.RoundTripAsWritten | include/kstd/platform/memory_mapping.hpp:35-55 | as written, only READ_WRITE survives mode → access → mode; READ comes back WRITE and WRITE comes back READ |
| MemoryMapping.DeriveFileMode | include/kstd/platform/memory_mapping.hpp:35-47 | the file is opened for writing exactly when the mapping writes, for reading too exactly when it also reads |
| MemoryMapping.DeriveAccess | include/kstd/platform/memory_mapping.hpp:49-55 | READ unless WRITE mode, WRITE unless READ mode, never EXECUTE |
| MemoryMapping.RoundTrip | include/kstd/platform/memory_mapping.hpp:35-55 | every file mode survives mode → access → mode |
| MemoryMapping.ExecuteIgnored | include/kstd/platform/memory_mapping.hpp:35-47 | EXECUTE and every bit above WRITE play no part in the derived mode |
| MemoryMapping.PosixProt | src/file_mapping.cpp:103-115 | one PROT bit per granted kind of access and no other bit |
| MemoryMapping.PosixMapFlags | src/file_mapping.cpp:104-119 | always MAP_SHARED; MAP_EXECUTABLE exactly on Linux for an executable mapping |
| MemoryMapping.SharedWriteNeedsReadWrite | include/kstd/platform/memory_mapping.hpp:42-43 | with the corrected table a writing mapping opens its file O_RDWR; as written a WRITE-only mapping opens it O_RDONLY yet asks for PROT_WRITE |
| MemoryMapping.PageProtection | src/file_mapping.cpp:64-72 | writable pages when writing, read-only ones when only reading, the executable variants when executing, none otherwise |
| MemoryMapping.ViewAccess | src/file_mapping.cpp:74-86 | the view has write, read and execute rights exactly as the mapping asks; reading and writing together ask for all access |
| MemoryMapping.ProtectionCoversView | src/file_mapping.cpp:64-86 | whenever the mapping reads or writes, the view it asks for is one its page protection permits |
| FileMappings.NewMapping | src/file_mapping.cpp:32-35 | not mapped, file not open, file mode derived from the access |
| FileMappings.Lift | src/file_mapping.cpp:48-58 | a file error is forwarded unchanged as the mapping's error |
| FileMappings.Prepare | src/file_mapping.cpp:43-61 | the size to map is at least 1. It is the file's size, or 1 after the file was grown to one byte when its size is 0 or unreadable. A failing file step is the error |
| FileMappings.PosixSoftMapAsWritten | src/file_mapping.cpp:37-130 | as written, an already mapped object is refused, and whatever `mmap` returns is stored as the address |
| FileMappings.MapFailureGoesUnnoticed | src/file_mapping.cpp:121-126 | as written, a failing `mmap` reports success and leaves the object mapped at MAP_FAILED |
| FileMappings.PosixSoftMap | src/file_mapping.cpp:37-130 | an already mapped object is refused; otherwise the call succeeds exactly when the object ends mapped, at an address `mmap` returned that is not MAP_FAILED; the file and access are untouched |
| FileMappings.PosixSoftUnmap | src/file_mapping.cpp:132-161 | an unmapped object is refused. Success needs a readable non-zero size and a successful `munmap`, and clears the address; failure changes nothing |
| FileMappings.PosixFlush | src/file_mapping.cpp:208-217 | an unreadable size is the error; otherwise succeeds exactly when `msync` does |
| FileMappings.WindowsSoftMap | src/file_mapping.cpp:63-101 | an already mapped object is refused; a failed preparation is passed on unchanged; otherwise the call succeeds exactly when the object ends mapped with a valid handle. On success the handle is the file-mapping object created over the file with the page protection derived from the access's read/write/execute flags, and the address is the view mapped from it with the matching view access |
| FileMappings.WindowsSoftUnmap | src/file_mapping.cpp:138-144 | succeeds exactly when unmapping the view and closing the handle both succeed; success clears address and handle; failure changes nothing |
| FileMappings.PosixBackendSound | src/file_mapping.cpp:37-161 | the POSIX steps refuse the wrong state, report success exactly when they reach the right one, and never touch the file |
| FileMappings.WindowsBackendSound | src/file_mapping.cpp:37-161 | the same for the Windows steps |
| FileMappings.Map | src/file_mapping.cpp:163-169 | a failed `open` stops the call with the file's error; otherwise `soft_map` on the opened file decides |
| FileMappings.Unmap | src/file_mapping.cpp:171-177 | a failed `soft_unmap` is the result; otherwise closing the file decides |
| FileMappings.Resize | src/file_mapping.cpp:179-199 | an unmapped mapping only resizes its file; a mapped one whose unmapping fails stops there |
| FileMappings.Sync | src/file_mapping.cpp:201-221 | refused when not mapped; otherwise the build's flush |
| FileMappings.ResizeKeepsMappedState | src/file_mapping.cpp:179-199 | a successful resize leaves the mapping mapped exactly when it was before, over the same file |
| FileMappings.MapFromNew | src/file_mapping.cpp:163-169 | a fresh mapping's `map` succeeds exactly when it leaves the mapping mapped |
| FileMappings.UnmapThenSyncRefuses | src/file_mapping.cpp:171-221 | after a successful `unmap` the mapping is unmapped and `sync` refuses |
| NamedMappings.NewNamedMapping | src/named_mapping.cpp:24-28 | name, access and size kept, not mapped, no valid handle |
| NamedMappings.ShmFlags | src/named_mapping.cpp:93-103 | always O_CREAT and O_EXCL; O_RDWR when writing, O_RDONLY otherwise; nothing else |
| NamedMappings.ShmPermissions | src/named_mapping.cpp:105-121 | one owner bit per granted kind of access and no other bit |
| NamedMappings.PosixMap | src/named_mapping.cpp:30-139 | an already mapped object is refused. Otherwise `shm_open` with those flags and permissions, then `mmap` of the whole size. Success means a valid handle and a mapped address other than MAP_FAILED. Name, access and size are untouched |
| NamedMappings.PosixMapAsWritten | src/named_mapping.cpp:123-135 | as written: the `mmap` result is stored, and the call fails only when `shm_open` fails or `mmap` returns NULL |
| NamedMappings.NamedMapFailureGoesUnnoticed | src/named_mapping.cpp:130-135 | when `mmap` returns MAP_FAILED, `map` as written succeeds and counts as mapped at MAP_FAILED, while the corrected `map` fails and stays unmapped |
| NamedMappings.PosixUnmap | src/named_mapping.cpp:141-163 | succeeds exactly when `munmap`, `close` and `shm_unlink` all succeed; success clears handle and address; failure changes nothing |
| NamedMappings.WindowsMap | src/named_mapping.cpp:30-91 | an already mapped object is refused. A failed security descriptor comes first. Success means a valid handle and a mapped view: the handle is the named mapping created under the object's name with the view access and page protection derived from its read/write/execute flags and its size, and the address is the view mapped from that handle with the same view access |
| NamedMappings.WindowsUnmap | src/named_mapping.cpp:141-163 | succeeds exactly when unmapping the view and closing the handle succeed; success clears both |
| NamedMappings.PosixBackendSound | src/named_mapping.cpp:30-163 | the POSIX `map` and `unmap` report success exactly when they reach the right state and never change the size |
| NamedMappings.WindowsBackendSound | src/named_mapping.cpp:30-163 | the same for Windows |
| NamedMappings.Resize | src/named_mapping.cpp:165-183 | an unmapped object only takes the new size; a mapped one whose unmapping fails stops there |
| NamedMappings.Sync | src/named_mapping.cpp:185-198 | refused when not mapped; otherwise the build's flush |
| NamedMappings.ResizeLaws | src/named_mapping.cpp:165-183 | a successful resize has the new size and is mapped exactly when it was before; a failed unmapping keeps the object as it was |
| LegacyMapping.Default | src/macos/file_mapping.cpp:38-42 | no access, nothing mapped, nothing owned |
| LegacyMapping.SizeToMap | src/macos/file_mapping.cpp:57-62 | the file's non-zero size, else 1 after growing the file, else the growing error |
| LegacyMapping.MacMapFile | src/macos/file_mapping.cpp:49-84 | success maps the sized file with one PROT bit per access flag, at an address that is neither NULL nor MAP_FAILED |
| LegacyMapping.MacMapFileAsWritten | src/macos/file_mapping.cpp:49-84 | as written: success maps the sized file at any non-NULL address `mmap` returns, and agrees with the corrected step whenever that succeeds |
| LegacyMapping.MacMapFailureGoesUnnoticed | src/macos/file_mapping.cpp:79-84 | when `mmap` returns MAP_FAILED, the constructor as written does not throw and holds MAP_FAILED, while the corrected step fails |
| LegacyMapping.MacConstruct | src/macos/file_mapping.cpp:44-85 | a failing file constructor is the error; success holds that file, open, with the derived mode, and a mapped address |
| LegacyMapping.MacConstructAsWritten | src/macos/file_mapping.cpp:44-85 | as written: the file is opened in the mode of the exchanged `derive_file_mode` table, then mapped with the NULL-only test |
| LegacyMapping.MacConstructModesAsWritten | src/macos/file_mapping.cpp:45 | as written, READ access opens the file O_RDWR with write-only permissions and WRITE access opens it O_RDONLY while asking for PROT_WRITE; the corrected constructor opens READ and WRITE |
| LegacyMapping.WinMapFile | src/windows/file_mapping.cpp:49-100 | success holds a valid file-mapping handle created with the page protection and a view taken with the view access |
| LegacyMapping.WinConstruct | src/windows/file_mapping.cpp:44-101 | a failing file constructor is the error; success holds the open file, a valid handle and a mapped address |
| LegacyMapping.WinConstructAsWritten | src/windows/file_mapping.cpp:44-101 | as written: the file is opened in the mode of the exchanged `derive_file_mode` table, then mapped |
| LegacyMapping.WinConstructReadAsWritten | src/windows/file_mapping.cpp:45 | as written, READ access opens the file with GENERIC_WRITE and without GENERIC_READ, yet asks for PAGE_READONLY; the corrected constructor opens it with GENERIC_READ |
| LegacyMapping.MacCopy | src/macos/file_mapping.cpp:26-28 | the copy maps the other's path again with its access |
| LegacyMapping.WinCopy | src/windows/file_mapping.cpp:25-27 | the Windows copy is the constructor applied to the other's path and access; a successful copy has that path and access |
| LegacyMapping.MoveConstructAsWritten | src/windows/file_mapping.cpp:30-36 | as written, file, access and address move and the source's address is cleared, but the target starts with a default handle and the source keeps the real one |
| LegacyMapping.MovedHandleNeverClosed | src/windows/file_mapping.cpp:120-125 | as written, after a move the target's destructor closes INVALID_HANDLE_VALUE and the source's closes nothing, so the real handle leaks |
| LegacyMapping.MoveConstruct | src/windows/file_mapping.cpp:30-36 | with the handle moved as well, the target is the original and the source owns nothing |
| LegacyMapping.MoveKeepsTeardown | src/windows/file_mapping.cpp:120-125 | with the handle moved, the target releases exactly what the original would have and the source releases nothing |
| LegacyMapping.MoveAssign | src/macos/file_mapping.cpp:95-102 | the target takes file, access and address but keeps its own handle; the source's address is cleared |
| LegacyMapping.MacDestroy | src/macos/file_mapping.cpp:104-114 | unmaps exactly when mapped with a readable non-zero size, never closes a mapping handle, then the file closes its descriptor |
| LegacyMapping.WinDestroy | src/windows/file_mapping.cpp:120-125 | a mapped object unmaps its view and closes its handle, whatever it is; then the file closes its handle |
| LegacyMapping.MacResize | src/macos/file_mapping.cpp:116-118 | succeeds exactly when `ftruncate` does; the mapping is not touched |
| LegacyMapping.WinResize | src/windows/file_mapping.cpp:127-129 | succeeds exactly when the three-call resize does |
| LegacyMapping.MacSync | src/macos/file_mapping.cpp:120-131 | an unreadable size is the error; otherwise succeeds exactly when `msync` does; there is no mapped check |
| LegacyMapping.WinSync | src/windows/file_mapping.cpp:131-133 | `sync` on Windows always succeeds, mapped or not |
| Memory.LeRoundTrip | include/kstd/platform/memory.hpp:55 | a size written as little-endian bytes reads back as the size |
| Memory.AlignUp | include/kstd/platform/memory.hpp:54 | the address is a multiple of the alignment, at most one alignment above the address asked for |
| Memory.AllocAlignedAsWritten | include/kstd/platform/memory.hpp:50-58 | as written: a fresh block of size + 8 bytes whose first word holds the size, aligned at its start; the pointer is one word in and reaches exactly `size` bytes; no other block changes |
| Memory.AsWrittenAlignment | include/kstd/platform/memory.hpp:54-56 | as written, the pointer is 8 mod the alignment past a multiple of it, so it is aligned exactly when the alignment divides 8 |
| Memory.AllocSixteenMisaligned | include/kstd/platform/memory.hpp:54-56 | `alloc_aligned(8, 16)` as written returns a pointer that is 8 mod 16; the corrected allocation returns a 16-aligned one |
| Memory.AllocAligned | include/kstd/platform/memory.hpp:50-58 | the corrected allocation: the pointer itself is a multiple of the alignment, with the size word just below it, above every live block; it reaches exactly `size` bytes and no other block changes |
| Memory.FreeAligned | include/kstd/platform/memory.hpp:60-66 | exactly the block one word below the pointer is released |
| Memory.Store | test/test_memory.cpp:57-58 | writing through a user pointer reads back. The header, the bytes outside the write and every other block are unchanged |
| Memory.ReallocAligned | include/kstd/platform/memory.hpp:68-78 | a new block of the new size at an aligned pointer, whose first `min(old_size, size)` bytes are the old ones; the old block is freed; every other block is untouched |
| Memory.ReallocAlignedAsWritten | include/kstd/platform/memory.hpp:68-78 | as written: the copy of `old_size` bytes overruns the new block exactly when it shrinks; otherwise it is the corrected operation |
| Memory.ShrinkOverruns | include/kstd/platform/memory.hpp:73-74 | shrinking a block overruns as written, while the corrected operation keeps the first `size` bytes |
| Memory.ReallocKeepsFoo | test/test_memory.cpp:52-80 | a `Foo` written into a block survives doubling it; the second `Foo` slot is written without disturbing the first; the pointer is pointer-aligned |

## Left out

- Windows DNS (`src/windows/dns.cpp`), process, dynamic-library and Linux wireless code: not part of the core modelled here.
- IPv6 nameservers: the resolver writes every nameserver with `inet_addr` into an IPv4 `sin_addr`, which garbles an IPv6 address. The model records the family and text handed over, not the resulting bytes.
- `res_init`, `res_query`, `getifaddrs`, `inet_ntop`, `inet_pton`, `inet_addr`, `readlink`, `canonical`, `std::stoi`, the file system and every WLAN, POSIX and Windows call are oracles. `std::stoi` throwing on malformed sysfs text is not modelled.
- `std::filesystem::current_path("/sys/class/net")`: a process-wide side effect. The model resolves link targets relative to that directory and does not model the change itself.
- `create_directories` for a missing parent directory in `File::open` and in the older `File` constructor: a file-system side effect outside the oracles.
- Hash-set iteration order: sets of interfaces, addresses and networks are sequences in insertion order or Dafny sets. `Network.GetMacAddress` picks some MAC address, not the first in an unspecified order.
- The Linux enumeration declares `Result<std::vector<…>>` while the header declares `Result<std::unordered_set<…>>`. Both are modelled as the sequence of interfaces, and `Enumeration.EnumerateInterfaces` shows that no two compare equal, so the two containers hold the same interfaces.
- The four-argument `NetworkInterface` constructor used by the Linux enumeration is not in the header shown. The model gives those interfaces type UNKNOWN and MTU 0.
- The Windows scan returns a set of `WifiNetwork` while the header declares `WlanNetwork`. The model uses `WlanNetwork` for both, with the fields the scan fills.
- Enumeration.ToU16: the Unix variant casts the parsed `int` straight to `InterfaceType`; the model reduces it modulo 2^16, which is what the cast does for the value range of the underlying type.
- Moved-from `std::filesystem::path` and `std::vector` values are modelled as empty, which is what the standard library's implementations leave.
- Security descriptors: `File::open`, the older Windows `File` and `NamedMapping::map` heap-allocate one. Its lifetime is not modelled (it leaks when `InitializeSecurityDescriptor` fails and on repeated opens), only whether initialising it succeeds.
- The oracles have no history: a file's size does not change after `resize` in the model, so properties that need "the size after resize" are not stated.
- `is_mapped` of the `Mapping` base class is not part of this model; it is taken to mean "the address is not null".
- The copy assignment of the older `mm::FileMapping` (`src/macos/file_mapping.cpp:87-93`) is construction followed by move assignment, both modelled; it has no member of its own.
- `get_usable_size`, `get_page_size` and the Windows paths of `memory.hpp` (`_aligned_malloc`, `_aligned_free`, `_aligned_realloc`): allocator internals with no POSIX counterpart to model.
- Memory.AllocAligned: the underlying `aligned_alloc` is a bump allocator that never fails. The source writes the size word without checking the result for null, and that case is not modelled.
- Memory.AlignUp: the `aligned_alloc` requirement that the size be a multiple of the alignment is not checked, because the source does not ensure it.
- The target is taken to be a little-endian 64-bit system: `sizeof(usize)` is 8, and handle values, addresses and MAP_FAILED are 64-bit.
- `MappingAccess` flag tests in `src/file_mapping.cpp:43-45` and `src/named_mapping.cpp:36-38` are written `!(_access & FLAG)`, and `_file.is_executable()` is negated as a `Result`. Both go through kstd bit-flag and result operators whose definitions are not part of this model, so both are the `Operators` parameter of the model.
- FileMappings.NewMapping: `src/file_mapping.cpp:34` calls the `derive_file_mode` of namespace `kstd::platform`, whose definition is not part of this model (the `memory_mapping.hpp` present is the `mm` one). The model assumes it is the corrected table `MemoryMapping.DeriveFileMode`.
- Network.HashAgreesWithEquality: the source hashes the addresses with `kstd::hash_range` over the `unordered_set`'s iteration order. `hash_range` is not part of this model, and two equal sets need not iterate in the same order. The lemma holds for the set of addresses, that is, for a hash that does not depend on the order.
- Resolver.ConfigureServers: glibc's `_res.nsaddr_list` has room for MAXNS = 3 servers, and the source writes one slot per list entry. Four or more servers write past the array. The model keeps every entry and does not model that overrun.
- Memory.AllocAligned: `size + sizeof(usize)` is computed in `usize` and wraps for sizes within 8 of 2^64. The model allocates `size + 8` bytes without wrapping.
- Resolver.Resolve (and Resolver.ResolveAsWritten): where a reply's length field points past the end of the response buffer, src/linux/dns.cpp:81-82 reads beyond the buffer, which is undefined behaviour; the model reports the error `ReadsPastBuffer` in its place instead of guessing what the read returns.
- Wireless.NetworkRecord: the BSS list is a non-empty sequence (`BssList`); src/windows/wireless.cpp:116 reads the first BSS entry without checking that the list has one, and the empty case, undefined behaviour there, is not modelled.
- Memory.AllocAligned: the corrected allocation skips the padding below the size word, and the heap records each block from its size word on, so `free_aligned` still steps back one word. Recovering the true start of the padded block, which a real fix must store or recompute from the alignment, is not modelled.
- LegacyFile.MoveAssign: a self-move `a = std::move(a)` empties the path and leaves the object with an invalid handle. The model takes the object assigned to and the object moved from as two values and cannot express that aliasing.
- FileMappings.Resize and NamedMappings.Resize: the contracts state the unmapped and failed-unmap paths; the mapped success path is stated by `ResizeKeepsMappedState` and `ResizeLaws` over any sound backend.

## Findings

| source | as written | input that shows it | evidently intended | confidence | as-written member | corrected member |
|---|---|---|---|---|---|---|
| src/linux/dns.cpp:25-30 | the emptiness test reads `dns_addresses` after it was moved into the member | `Resolver({"1.1.1.1", "8.8.8.8"})` throws "No DNS server specified" | test the member (or the argument before the move), as the macOS constructor does | high, not executed | Resolver.NewResolverLinuxAsWritten (lemma Resolver.LinuxListConstructorAlwaysThrows) | Resolver.NewResolver |
| src/linux/dns.cpp:81-82 | the answer is `response_length + 1` bytes of the buffer | a reply of 40 bytes yields 41 characters ending in NUL; a reply filling the buffer reads past its end | exactly `response_length` bytes | high, not executed | Resolver.ResolveAsWritten (lemma Resolver.ResolveAsWrittenAppendsByte) | Resolver.Resolve |
| include/kstd/platform/memory_mapping.hpp:42-46 | WRITE alone derives `FileMode::READ`, and no WRITE derives `FileMode::WRITE` | `derive_file_mode(READ)` is WRITE; `derive_file_mode(derive_access(READ))` is WRITE | READ-only access opens READ, WRITE-only access opens WRITE, so the round trip is the identity | high, not executed | MemoryMapping.DeriveFileModeAsWritten (lemmas MemoryMapping.RoundTripAsWritten, MemoryMapping.SharedWriteNeedsReadWrite); the constructors that call it at src/macos/file_mapping.cpp:45 and src/windows/file_mapping.cpp:45 are LegacyMapping.MacConstructAsWritten and LegacyMapping.WinConstructAsWritten (lemmas LegacyMapping.MacConstructModesAsWritten, LegacyMapping.WinConstructReadAsWritten) | MemoryMapping.DeriveFileMode (lemma MemoryMapping.RoundTrip), used by LegacyMapping.MacConstruct and LegacyMapping.WinConstruct |
| src/file_mapping.cpp:121-126 | the `mmap` result is compared against `nullptr`; `src/named_mapping.cpp:130-135` and `src/macos/file_mapping.cpp:79-84` do the same | an `mmap` that fails returns MAP_FAILED, and the call reports success and counts as mapped | compare against MAP_FAILED | high, not executed | FileMappings.PosixSoftMapAsWritten (lemma FileMappings.MapFailureGoesUnnoticed), NamedMappings.PosixMapAsWritten (lemma NamedMappings.NamedMapFailureGoesUnnoticed), LegacyMapping.MacMapFileAsWritten (lemma LegacyMapping.MacMapFailureGoesUnnoticed) | FileMappings.PosixSoftMap, NamedMappings.PosixMap, LegacyMapping.MacMapFile |
| src/linux/network.cpp:68 | the address string is built from the whole `inet_ntop` buffer (`data.cbegin()` to `data.cend()`), as also at src/linux/network.cpp:77 and src/macos/network.cpp:95,104 | 127.0.0.1 is stored as "127.0.0.1" followed by seven NULs | the string up to the terminating NUL | high, not executed | Enumeration.NtopBufferAsWritten (lemmas Enumeration.LoopbackIsPadded, Enumeration.PaddedAddressLooksLikeText) | Enumeration.NtopBuffer |
| src/windows/file_mapping.cpp:30-36 | the move constructor moves file, access and address but not `_handle`; the move assignment at 111-118 keeps the target's own handle | moving a mapped object: the new object's destructor closes INVALID_HANDLE_VALUE and the file-mapping handle is never closed | move `_handle` with the address and reset it in the source | medium, not executed | LegacyMapping.MoveConstructAsWritten (lemma LegacyMapping.MovedHandleNeverClosed) | LegacyMapping.MoveConstruct (lemma LegacyMapping.MoveKeepsTeardown) |
| include/kstd/platform/memory.hpp:68-78 | `realloc_aligned` copies `old_size` bytes into the new block of `size` bytes | `realloc_aligned(p, 16, 8, 8)` copies 16 bytes into an 8-byte block | copy `min(old_size, size)` bytes, as `realloc` does | medium, not executed | Memory.ReallocAlignedAsWritten (lemma Memory.ShrinkOverruns) | Memory.ReallocAligned |
| include/kstd/platform/memory.hpp:54-56 | the pointer returned is `aligned_alloc(alignment, size + 8) + 8`, so the block, not the pointer, is aligned | `alloc_aligned(8, 16)` returns a pointer that is 8 mod 16 | pad the header to a multiple of the alignment so that the returned pointer is aligned, as `_aligned_malloc` on Windows does | high, not executed | Memory.AllocAlignedAsWritten (lemmas Memory.AsWrittenAlignment, Memory.AllocSixteenMisaligned) | Memory.AllocAligned, used by Memory.ReallocAligned |
| src/macos/file.cpp:100-106 | move assignment overwrites `_handle` without closing it; src/windows/file.cpp:100-106 does the same, and the copy assignment at src/macos/file.cpp:92-98 goes through it | `a = File{path, mode}` on an open `a` leaves a's old descriptor open and owned by no object | close the held handle before taking over the other's | high, not executed | LegacyFile.MoveAssign (lemma LegacyFile.MoveAssignDropsHandle) | LegacyFile.MoveAssignClosing (lemma LegacyFile.MoveAssignClosingLosesNothing) |
