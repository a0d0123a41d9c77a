/** The POSIX DNS resolver of `src/linux/dns.cpp` and `src/macos/dns.cpp`.

    `Resolver::resolve` answers "localhost" itself, otherwise installs the resolver's own
    nameserver list into the global resolver state (classifying each entry as IPv4 or IPv6 and
    refusing the first entry that is neither), issues one `res_query` and turns the answer
    length into a result. `res_query` is an oracle here: a function from the query it is given
    to the reply length and the bytes it writes into the response buffer. */
module Resolver {
  import opened Wrappers
  import opened Text
  import IpAddress
  import opened Platform

  datatype RecordType = A | AAAA

  /** AF_INET, the same on both builds. */
  const AF_INET: nat := 2

  /** AF_INET6: 10 on Linux, 30 on Darwin. */
  function AfInet6(p: Posix): nat {
    match p
    case Linux => 10
    case MacOs => 30
  }

  /** The DNS port of section 4.2 of RFC 1035, written into every configured entry. */
  const DNS_PORT: nat := 53

  /** Size of the on-stack response buffer handed to `res_query`. */
  function BufferSize(p: Posix): nat {
    match p
    case Linux => 512
    case MacOs => 4096
  }

  /** The resolver object: its own list of nameserver address texts (empty = use the
      system's configuration). */
  datatype Resolver = Resolver(nameservers: seq<string>)

  /** One entry of `_res.nsaddr_list` as written by `resolve`: the family chosen for the text,
      the text given to `inet_addr`, and the port. */
  datatype NameServer = NameServer(family: nat, address: string, port: nat)

  /** What `res_query` is asked: the name, the record type and, when the resolver has its own
      list, the nameserver table installed before the call (`_res.nscount` is its length). */
  datatype Query = Query(name: string, record: RecordType, servers: Option<seq<NameServer>>)

  /** What `res_query` answers: the returned length and the bytes it wrote. */
  datatype Reply = Reply(length: int, data: seq<byte>)

  datatype ConstructError = NoServerSpecified

  /** `ReadsPastBuffer`: the reply is longer than the buffer. The source then builds its
      result past the end of the array (undefined behaviour); the model reports it instead. */
  datatype ResolveError =
    | IllegalServer(name: string, server: string)
    | QueryFailed(name: string)
    | NoResponse(name: string)
    | ReadsPastBuffer(name: string, length: int)

  /** The result of `resolve` together with the query it issued, if any. */
  datatype Resolution = Resolution(result: Result<string, ResolveError>, issued: Option<Query>)

  // ---------------------------------------------------------------------------------------
  // Constructors

  /** `Resolver()`: no list of its own. */
  function DefaultResolver(): (r: Resolver)
    ensures |r.nameservers| == 0
  {
    Resolver([])
  }

  /** `Resolver(const std::vector<std::string>)` of the Darwin build: copies the list and
      throws iff the (untouched) argument is empty. */
  function NewResolver(servers: seq<string>): (r: Result<Resolver, ConstructError>)
    ensures r.Failure? <==> |servers| == 0
    ensures r.Success? ==> r.value.nameservers == servers
  {
    if |servers| == 0 then Failure(NoServerSpecified) else Success(Resolver(servers))
  }

  /** A `std::vector` that has been moved from by its move constructor is left empty. */
  function MovedFrom(v: seq<string>): (rest: seq<string>)
    ensures |rest| == 0
  {
    []
  }

  /** `Resolver(std::vector<std::string>)` of the Linux build as written: the member is
      move-constructed from the parameter, and the emptiness test then reads the moved-from
      parameter. */
  function NewResolverLinuxAsWritten(servers: seq<string>): (r: Result<Resolver, ConstructError>)
    ensures r == Failure(NoServerSpecified)
  {
    var member := Resolver(servers);
    var parameter := MovedFrom(servers);
    if |parameter| == 0 then Failure(NoServerSpecified) else Success(member)
  }

  /** The Linux list constructor throws whatever list it is given, including the two public
      resolvers of `test_resolve_with_valid_nameservers`. */
  lemma LinuxListConstructorAlwaysThrows(servers: seq<string>)
    ensures NewResolverLinuxAsWritten(servers) == Failure(NoServerSpecified)
    ensures NewResolver(servers).Success? <==> |servers| > 0
  {
  }

  // ---------------------------------------------------------------------------------------
  // Nameserver classification

  /** An entry the loop accepts. */
  predicate IsLegalServer(server: string) {
    IpAddress.IsIPv4Address(server) || IpAddress.IsIPv6Address(server)
  }

  /** The family the loop writes for an accepted entry: AF_INET when the IPv4 test passes,
      otherwise AF_INET6. */
  function FamilyOf(p: Posix, server: string): nat {
    if IpAddress.IsIPv4Address(server) then AF_INET else AfInet6(p)
  }

  /** The nameserver loop of `resolve`: classifies each entry in order and stops with an error
      naming the first entry that is neither an IPv4 nor an IPv6 text. */
  function ConfigureServers(p: Posix, name: string, servers: seq<string>): (r: Result<seq<NameServer>, ResolveError>)
    ensures r.Success? <==> forall i :: 0 <= i < |servers| ==> IsLegalServer(servers[i])
    ensures r.Success? ==> |r.value| == |servers|
    ensures r.Success? ==> forall i :: 0 <= i < |servers| ==>
      r.value[i].address == servers[i] && r.value[i].port == DNS_PORT &&
      (r.value[i].family == AF_INET <==> IpAddress.IsIPv4Address(servers[i])) &&
      (r.value[i].family == AfInet6(p) <==> !IpAddress.IsIPv4Address(servers[i]))
    ensures r.Failure? ==>
      exists i ::
        && 0 <= i < |servers| && !IsLegalServer(servers[i])
        && (forall j :: 0 <= j < i ==> IsLegalServer(servers[j]))
        && r.error == IllegalServer(name, servers[i])
    decreases |servers|
  {
    if |servers| == 0 then Success([])
    else if !IsLegalServer(servers[0]) then Failure(IllegalServer(name, servers[0]))
    else
      match ConfigureServers(p, name, servers[1..])
      case Failure(e) =>
        assert forall j :: 1 <= j < |servers| ==> servers[j] == servers[1..][j - 1];
        Failure(e)
      case Success(rest) =>
        Success([NameServer(FamilyOf(p, servers[0]), servers[0], DNS_PORT)] + rest)
  }

  // ---------------------------------------------------------------------------------------
  // resolve

  /** The zero-initialised response array after `res_query` wrote `data` into it. */
  function ResponseBuffer(p: Posix, data: seq<byte>): (buffer: seq<byte>)
    ensures |buffer| == BufferSize(p)
    ensures forall i :: 0 <= i < |buffer| ==> buffer[i] == if i < |data| then data[i] else 0
  {
    seq(BufferSize(p), i requires 0 <= i => if i < |data| then data[i] else 0)
  }

  function AsText(bytes: seq<byte>): (s: string)
    ensures |s| == |bytes|
  {
    seq(|bytes|, i requires 0 <= i < |bytes| => bytes[i] as char)
  }

  /** The localhost short cut of section 6.3 of RFC 6761. */
  function LocalhostAnswer(t: RecordType): string {
    match t
    case A => "127.0.0.1"
    case AAAA => "::1"
  }

  /** Everything `resolve` does up to and including the `res_query` call: either a result
      decided before any query, or the query issued and its reply. */
  function Prepare(p: Posix, r: Resolver, name: string, t: RecordType): (q: Result<Query, Resolution>)
    ensures name == "localhost" ==> q == Failure(Resolution(Success(LocalhostAnswer(t)), None))
    ensures q.Failure? ==> q.error.issued.None?
    ensures q.Success? ==> name != "localhost" && q.value.name == name && q.value.record == t
    ensures q.Success? ==> (q.value.servers.None? <==> |r.nameservers| == 0)
    ensures name != "localhost" ==> (q.Failure? <==> |r.nameservers| > 0 && ConfigureServers(p, name, r.nameservers).Failure?)
  {
    if name == "localhost" then
      Failure(Resolution(Success(LocalhostAnswer(t)), None))
    else if |r.nameservers| > 0 then
      match ConfigureServers(p, name, r.nameservers)
      case Failure(e) => Failure(Resolution(Failure(e), None))
      case Success(table) => Success(Query(name, t, Some(table)))
    else
      Success(Query(name, t, None))
  }

  /** The length checks shared by both slicing variants. */
  function CheckLength(q: Query, reply: Reply): (r: Result<nat, ResolveError>)
    ensures r.Success? <==> reply.length > 0
    ensures r.Success? ==> r.value == reply.length
    ensures reply.length < 0 ==> r == Failure(QueryFailed(q.name))
    ensures reply.length == 0 ==> r == Failure(NoResponse(q.name))
  {
    if reply.length < 0 then Failure(QueryFailed(q.name))
    else if reply.length == 0 then Failure(NoResponse(q.name))
    else Success(reply.length)
  }

  /** `Resolver::resolve` as written: the result is the first `response_length + 1` bytes of
      the response buffer. */
  function ResolveAsWritten(p: Posix, r: Resolver, name: string, t: RecordType, resQuery: Query -> Reply): (out: Resolution)
    ensures name != "localhost" && out.result.Success? ==>
      out.issued.Some? &&
      var reply := resQuery(out.issued.value);
      0 < reply.length < BufferSize(p) &&
      |out.result.value| == reply.length + 1 &&
      out.result.value == AsText(ResponseBuffer(p, reply.data)[..reply.length + 1])
  {
    match Prepare(p, r, name, t)
    case Failure(decided) => decided
    case Success(q) =>
      var reply := resQuery(q);
      match CheckLength(q, reply)
      case Failure(e) => Resolution(Failure(e), Some(q))
      case Success(n) =>
        if n + 1 > BufferSize(p) then Resolution(Failure(ReadsPastBuffer(name, n)), Some(q))
        else Resolution(Success(AsText(ResponseBuffer(p, reply.data)[..n + 1])), Some(q))
  }

  /** The result carries one byte more than `res_query` reported: for a reply shorter than
      the buffer that byte is the array's zero fill. */
  lemma ResolveAsWrittenAppendsByte(p: Posix, r: Resolver, name: string, t: RecordType, resQuery: Query -> Reply)
    requires name != "localhost"
    requires |r.nameservers| == 0
    requires 0 < resQuery(Query(name, t, None)).length < BufferSize(p)
    requires |resQuery(Query(name, t, None)).data| == resQuery(Query(name, t, None)).length
    ensures var out := ResolveAsWritten(p, r, name, t, resQuery);
      var n := resQuery(Query(name, t, None)).length;
      && out.result.Success?
      && |out.result.value| == n + 1
      && out.result.value[n] == 0 as char
  {
  }

  /** `Resolver::resolve` with the reply taken as exactly `response_length` bytes. */
  function Resolve(p: Posix, r: Resolver, name: string, t: RecordType, resQuery: Query -> Reply): (out: Resolution)
    ensures name == "localhost" ==> out == Resolution(Success(LocalhostAnswer(t)), None)
    ensures name != "localhost" && |r.nameservers| > 0 && ConfigureServers(p, name, r.nameservers).Failure? ==>
      out == Resolution(Failure(ConfigureServers(p, name, r.nameservers).error), None)
    ensures name != "localhost" && |r.nameservers| > 0 && ConfigureServers(p, name, r.nameservers).Success? ==>
      out.issued == Some(Query(name, t, Some(ConfigureServers(p, name, r.nameservers).value)))
    ensures name != "localhost" && |r.nameservers| == 0 ==> out.issued == Some(Query(name, t, None))
    ensures out.issued.Some? ==>
      var reply := resQuery(out.issued.value);
      && (reply.length < 0 <==> out.result == Failure(QueryFailed(name)))
      && (reply.length == 0 <==> out.result == Failure(NoResponse(name)))
      && (0 < reply.length <= BufferSize(p) <==> out.result.Success?)
      && (out.result.Success? ==>
            |out.result.value| == reply.length
            && forall i :: 0 <= i < reply.length ==>
                 out.result.value[i] == (if i < |reply.data| then reply.data[i] else 0) as char)
  {
    match Prepare(p, r, name, t)
    case Failure(decided) => decided
    case Success(q) =>
      var reply := resQuery(q);
      match CheckLength(q, reply)
      case Failure(e) => Resolution(Failure(e), Some(q))
      case Success(n) =>
        if n > BufferSize(p) then Resolution(Failure(ReadsPastBuffer(name, n)), Some(q))
        else Resolution(Success(AsText(ResponseBuffer(p, reply.data)[..n])), Some(q))
  }

  /** "localhost" is answered without consulting `res_query` or the nameserver list:
      any two oracles give the same result. */
  lemma LocalhostNeedsNoQuery(p: Posix, r1: Resolver, r2: Resolver, t: RecordType, q1: Query -> Reply, q2: Query -> Reply)
    ensures Resolve(p, r1, "localhost", t, q1) == Resolve(p, r2, "localhost", t, q2)
    ensures Resolve(p, r1, "localhost", A, q1).result == Success("127.0.0.1")
    ensures Resolve(p, r1, "localhost", AAAA, q1).result == Success("::1")
  {
  }

  /** A list holding an entry that is neither IPv4 nor IPv6 text makes every non-localhost
      resolution fail before any query, naming the first such entry. */
  lemma IllegalServerAbortsBeforeQuery(p: Posix, r: Resolver, name: string, t: RecordType, q: Query -> Reply, i: nat)
    requires name != "localhost"
    requires i < |r.nameservers| && !IsLegalServer(r.nameservers[i])
    requires forall j :: 0 <= j < i ==> IsLegalServer(r.nameservers[j])
    ensures Resolve(p, r, name, t, q) == Resolution(Failure(IllegalServer(name, r.nameservers[i])), None)
  {
    var k :| 0 <= k < |r.nameservers| && !IsLegalServer(r.nameservers[k])
      && (forall j :: 0 <= j < k ==> IsLegalServer(r.nameservers[j]))
      && ConfigureServers(p, name, r.nameservers).error == IllegalServer(name, r.nameservers[k]);
    assert k == i;
  }

  /** The default resolver never installs a nameserver table. */
  lemma DefaultResolverUsesSystemServers(p: Posix, name: string, t: RecordType, q: Query -> Reply)
    requires name != "localhost"
    ensures Resolve(p, DefaultResolver(), name, t, q).issued == Some(Query(name, t, None))
  {
  }
}
