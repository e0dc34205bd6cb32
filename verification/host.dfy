/** `archer/core/host.py`: a remote host and the ports discovered on it. */
module Hosts {
  import opened Wrappers
  import Util
  import Ports

  /** `Host.ports`: protocol name -> port number -> port. The constructor creates the
      two protocol maps and nothing ever adds or removes a protocol, so the keys are
      fixed. */
  type PortTable = m: map<string, map<int, Ports.Port>> | m.Keys == {"tcp", "udp"}
    witness map["tcp" := map[], "udp" := map[]]

  datatype Host = Host(
    ip: string,
    mac: Option<string>,
    os: Option<string>,
    lastActivity: Option<int>,
    state: string,
    ports: PortTable)

  /** `Host.IPError`, `Host.DuplicateError` and `Host.ObjectError`. */
  datatype Error = IPError | DuplicateError | ObjectError

  /** A host as the constructor and the port operations keep it: a valid address, and
      every port filed under its own protocol and number. */
  predicate Valid(h: Host) {
    && Util.IsIp(h.ip)
    && forall proto, n :: proto in h.ports && n in h.ports[proto] ==>
         h.ports[proto][n].proto == proto && h.ports[proto][n].num == n
  }

  /** `Host(ip)`: fails exactly when the address is invalid; otherwise the address is
      kept verbatim, everything else is unknown and both protocol maps are empty. */
  function New(ip: string): (r: Result<Host, Error>)
    ensures r.Success? <==> Util.IsIp(ip)
    ensures r.Failure? ==> r.error == IPError
    ensures r.Success? ==> r.value.ip == ip && Valid(r.value)
    ensures r.Success? ==> r.value.mac == None && r.value.os == None && r.value.lastActivity == None
    ensures r.Success? ==> r.value.state == Ports.UnknownState
    ensures r.Success? ==> r.value.ports["tcp"] == map[] && r.value.ports["udp"] == map[]
  {
    if !Util.IsIp(ip) then Failure(IPError)
    else Success(Host(ip, None, None, None, Ports.UnknownState, map["tcp" := map[], "udp" := map[]]))
  }

  /** In a valid host a port is filed under its own protocol and number. */
  lemma PortFiled(h: Host, proto: string, n: int)
    requires Valid(h) && proto in h.ports && n in h.ports[proto]
    ensures h.ports[proto][n].proto == proto && h.ports[proto][n].num == n
    ensures Owns(h, h.ports[proto][n])
  {
  }

  /** `allPorts()`: it walks the protocol maps' KEYS, so it yields port numbers, one
      entry per stored port; a number open on both protocols appears twice. */
  function AllPorts(h: Host): (r: multiset<int>)
    ensures |r| == |h.ports["tcp"]| + |h.ports["udp"]|
    ensures forall n :: r[n] == (if n in h.ports["tcp"] then 1 else 0) + (if n in h.ports["udp"] then 1 else 0)
  {
    multiset(h.ports["tcp"].Keys) + multiset(h.ports["udp"].Keys)
  }

  /** True if this very port is the one stored under its protocol and number. */
  predicate Owns(h: Host, port: Ports.Port) {
    port.num in h.ports[port.proto] && h.ports[port.proto][port.num] == port
  }

  /** `addPort(port)`: fails with DuplicateError when its protocol/number pair is
      taken; otherwise files the port under that pair and changes nothing else. */
  function AddPort(h: Host, port: Ports.Port): (r: Result<Host, Error>)
    ensures r.Success? <==> port.num !in h.ports[port.proto]
    ensures r.Failure? ==> r.error == DuplicateError
    ensures r.Success? ==> Owns(r.value, port) && r.value.(ports := h.ports) == h
    ensures r.Success? ==> r.value.ports[port.proto].Keys == h.ports[port.proto].Keys + {port.num}
    ensures r.Success? ==> forall proto, n :: proto in h.ports && n in h.ports[proto] ==>
              n in r.value.ports[proto] && r.value.ports[proto][n] == h.ports[proto][n]
    ensures r.Success? ==> forall proto :: proto in h.ports && proto != port.proto ==>
              r.value.ports[proto] == h.ports[proto]
  {
    var table := h.ports[port.proto];
    if port.num in table then Failure(DuplicateError)
    else Success(h.(ports := h.ports[port.proto := table[port.num := port]]))
  }

  /** `dropPort(port)`: fails with ObjectError unless the host holds this port;
      otherwise removes its protocol/number pair and changes nothing else. */
  function DropPort(h: Host, port: Ports.Port): (r: Result<Host, Error>)
    ensures r.Success? <==> Owns(h, port)
    ensures r.Failure? ==> r.error == ObjectError
    ensures r.Success? ==> port.num !in r.value.ports[port.proto] && r.value.(ports := h.ports) == h
    ensures r.Success? ==> r.value.ports[port.proto].Keys == h.ports[port.proto].Keys - {port.num}
    ensures r.Success? ==> forall proto, n :: proto in r.value.ports && n in r.value.ports[proto] ==>
              n in h.ports[proto] && r.value.ports[proto][n] == h.ports[proto][n]
    ensures r.Success? ==> forall proto :: proto in h.ports && proto != port.proto ==>
              r.value.ports[proto] == h.ports[proto]
  {
    if !Owns(h, port) then Failure(ObjectError)
    else Success(h.(ports := h.ports[port.proto := h.ports[port.proto] - {port.num}]))
  }

  /** Both port operations keep a host valid. */
  lemma PortOperationsPreserveValid(h: Host, port: Ports.Port)
    requires Valid(h)
    ensures AddPort(h, port).Success? ==> Valid(AddPort(h, port).value)
    ensures DropPort(h, port).Success? ==> Valid(DropPort(h, port).value)
  {
  }

  /** Dropping a port just added gives the host back. */
  lemma AddThenDrop(h: Host, port: Ports.Port)
    requires AddPort(h, port).Success?
    ensures DropPort(AddPort(h, port).value, port) == Success(h)
  {
    var table := h.ports[port.proto];
    var added := h.(ports := h.ports[port.proto := table[port.num := port]]);
    assert AddPort(h, port).value == added;
    assert table[port.num := port] - {port.num} == table;
    assert added.ports[port.proto := table] == h.ports;
  }

  /** Adding back a port just dropped gives the host back. */
  lemma DropThenAdd(h: Host, port: Ports.Port)
    requires DropPort(h, port).Success?
    ensures AddPort(DropPort(h, port).value, port) == Success(h)
  {
    var table := h.ports[port.proto];
    var dropped := h.(ports := h.ports[port.proto := table - {port.num}]);
    assert DropPort(h, port).value == dropped;
    assert (table - {port.num})[port.num := port] == table;
    assert dropped.ports[port.proto := table] == h.ports;
  }
}
