/** `archer/controller.py`: the path-addressed facade over the topology. A path
    `/iface/host/proto/port` is resolved against the LocalHost the controller owns, and
    the operations read or rewrite the map at the deepest level the path reaches.

    Every Python exception that is not a `Controller.Error` (an attribute the code reads
    but the object lacks, a method it calls that does not exist) is `Unhandled`: a
    failure with no message, raised before anything is changed. */
module Controller {
  import opened Wrappers
  import opened Text
  import Util
  import Ports
  import Hosts
  import Interfaces
  import Jobs
  import LocalHosts

  type LocalHost = LocalHosts.LocalHost

  /** `Controller.Error`, one variant per message, plus `Unhandled`. */
  datatype Error =
    | InterfaceNotFound(dev: string)
    | HostNotFound(iface: string, dev: string)
    | UnknownProto(dev: string)
    | InvalidPortNumber(dev: string)
    | PortNotFound(proto: string, num: int)
    | JunkComponent(dev: string)
    | CannotCreate(what: string)
    | InvalidIp(name: string)
    | HostExists(path: string, name: string)
    | PortExists(path: string, name: string)
    | CannotDrop(what: string)
    | JobNotFound(jid: int)
    | Unhandled

  /** The text a `Controller.Error` carries. The source prints the interface object
      itself in "host not found"; its name stands in for it here. */
  function Message(e: Error): (m: string)
    requires !e.Unhandled?
    ensures (e.InterfaceNotFound? || e.HostNotFound? || e.UnknownProto? ||
             e.InvalidPortNumber? || e.JunkComponent?) ==> EndsWith(m, e.dev)
    ensures e.PortNotFound? ==> EndsWith(m, "/" + IntToString(e.num))
    ensures (e.CannotCreate? || e.CannotDrop?) ==> EndsWith(m, " " + e.what)
    ensures e.InvalidIp? ==> EndsWith(m, e.name)
    ensures (e.HostExists? || e.PortExists?) ==> EndsWith(m, e.path + "/" + e.name)
    ensures e.JobNotFound? ==> EndsWith(m, " " + IntToString(e.jid))
  {
    match e
    case InterfaceNotFound(dev) => Quote("interface not found: ", dev)
    case HostNotFound(iface, dev) => Quote("host not found: " + iface + "/", dev)
    case UnknownProto(dev) => Quote("unknown transport proto: ", dev)
    case InvalidPortNumber(dev) => Quote("invalid port number: ", dev)
    case PortNotFound(proto, num) => Quote("port not found: " + proto, "/" + IntToString(num))
    case JunkComponent(dev) => Quote("junk path component: ", dev)
    case CannotCreate(what) => Quote("can not create", " " + what)
    case InvalidIp(name) => Quote("invalid ip address: ", name)
    case HostExists(path, name) => Quote("host exists: ", path + "/" + name)
    case PortExists(path, name) => Quote("port exists: ", path + "/" + name)
    case CannotDrop(what) => Quote("can not drop", " " + what)
    case JobNotFound(jid) => Quote("no job found with id", " " + IntToString(jid))
  }

  /** A fixed text followed by the value it reports. */
  function Quote(prefix: string, value: string): (m: string)
    ensures EndsWith(m, value)
  {
    var m := prefix + value;
    assert m[|m| - |value|..] == value;
    m
  }

  /** `t` is the tail of `s`. */
  predicate EndsWith(s: string, t: string) {
    |t| <= |s| && s[|s| - |t|..] == t
  }

  // ===========================================================================
  // Path resolution (`_parsePath`)

  /** The `pstat` record: the keys of the interface, host, protocol and port a path
      reached, None below the deepest level reached. */
  datatype PathStat = PathStat(
    interface: Option<string>,
    host: Option<string>,
    proto: Option<string>,
    port: Option<int>)

  const Root: PathStat := PathStat(None, None, None, None)

  datatype Level = RootLevel | InterfaceLevel | HostLevel | ProtoLevel | PortLevel

  /** The deepest level a record reaches. */
  function LevelOf(ps: PathStat): Level {
    if ps.port.Some? then PortLevel
    else if ps.proto.Some? then ProtoLevel
    else if ps.host.Some? then HostLevel
    else if ps.interface.Some? then InterfaceLevel
    else RootLevel
  }

  /** Each level is only set when the level above it is. */
  predicate Layered(ps: PathStat) {
    && (ps.port.Some? ==> ps.proto.Some?)
    && (ps.proto.Some? ==> ps.host.Some?)
    && (ps.host.Some? ==> ps.interface.Some?)
  }

  /** The number of levels a record sets. */
  function Depth(ps: PathStat): nat {
    (if ps.interface.Some? then 1 else 0) + (if ps.host.Some? then 1 else 0) +
    (if ps.proto.Some? then 1 else 0) + (if ps.port.Some? then 1 else 0)
  }

  /** `q` sets exactly one level more than `ps` and keeps every key `ps` set. */
  predicate Deepens(ps: PathStat, q: PathStat) {
    && Depth(q) == Depth(ps) + 1
    && (ps.interface.Some? ==> q.interface == ps.interface)
    && (ps.host.Some? ==> q.host == ps.host)
    && (ps.proto.Some? ==> q.proto == ps.proto)
    && (ps.port.Some? ==> q.port == ps.port)
  }

  /** Every key in the record is found in the map owned by the level above. */
  predicate Resolves(lh: LocalHost, ps: PathStat) {
    && Layered(ps)
    && (ps.interface.Some? ==> ps.interface.value in lh.interfaces)
    && (ps.host.Some? ==> ps.host.value in lh.interfaces[ps.interface.value].hosts)
    && (ps.proto.Some? ==>
          ps.proto.value in lh.interfaces[ps.interface.value].hosts[ps.host.value].ports)
    && (ps.port.Some? ==>
          ps.port.value in lh.interfaces[ps.interface.value].hosts[ps.host.value].ports[ps.proto.value])
  }

  function InterfaceAt(lh: LocalHost, ps: PathStat): Interfaces.Interface
    requires Resolves(lh, ps) && ps.interface.Some?
  {
    lh.interfaces[ps.interface.value]
  }

  function HostAt(lh: LocalHost, ps: PathStat): Hosts.Host
    requires Resolves(lh, ps) && ps.host.Some?
  {
    InterfaceAt(lh, ps).hosts[ps.host.value]
  }

  function PortsAt(lh: LocalHost, ps: PathStat): map<int, Ports.Port>
    requires Resolves(lh, ps) && ps.proto.Some?
  {
    HostAt(lh, ps).ports[ps.proto.value]
  }

  function PortAt(lh: LocalHost, ps: PathStat): Ports.Port
    requires Resolves(lh, ps) && ps.port.Some?
  {
    PortsAt(lh, ps)[ps.port.value]
  }

  /** `path.strip("/").split("/")`. */
  function Segments(path: string): seq<string> {
    Split(Strip(path, '/'), '/')
  }

  /** The segments before the first empty one: resolution stops there. */
  function Live(segs: seq<string>): (live: seq<string>)
    ensures |live| <= |segs| && live == segs[..|live|]
    ensures forall i :: 0 <= i < |live| ==> live[i] != ""
    ensures |live| < |segs| ==> segs[|live|] == ""
    decreases |segs|
  {
    if |segs| == 0 || segs[0] == "" then [] else [segs[0]] + Live(segs[1..])
  }

  /** The segments of a path that resolution consumes. */
  function PathSegments(path: string): seq<string> {
    Live(Segments(path))
  }

  /** One turn of the loop of `_parsePath`: the segment is taken as the key of the
      first level not yet set and looked up in the map of the level above. */
  function Step(lh: LocalHost, ps: PathStat, dev: string): (r: Result<PathStat, Error>)
    requires Resolves(lh, ps)
    ensures r.Success? ==> Resolves(lh, r.value) && Deepens(ps, r.value) && Layered(r.value)
    ensures LevelOf(ps) == RootLevel && r.Success? ==> r.value.interface == Some(dev)
    ensures LevelOf(ps) == InterfaceLevel && r.Success? ==> r.value.host == Some(dev)
    ensures LevelOf(ps) == HostLevel && r.Success? ==> r.value.proto == Some(Lower(dev))
    ensures LevelOf(ps) == ProtoLevel && r.Success? ==> r.value.port == ParseInt(dev)
    ensures LevelOf(ps) == PortLevel ==> r == Failure(JunkComponent(dev))
  {
    if ps.interface.None? then
      if dev in lh.interfaces then Success(ps.(interface := Some(dev)))
      else Failure(InterfaceNotFound(dev))
    else if ps.host.None? then
      if dev in InterfaceAt(lh, ps).hosts then Success(ps.(host := Some(dev)))
      else Failure(HostNotFound(ps.interface.value, dev))
    else if ps.proto.None? then
      var proto := Lower(dev);
      if proto in HostAt(lh, ps).ports then Success(ps.(proto := Some(proto)))
      else Failure(UnknownProto(dev))
    else if ps.port.None? then
      match ParseInt(dev)
      case None => Failure(InvalidPortNumber(dev))
      case Some(num) =>
        if num in PortsAt(lh, ps) then Success(ps.(port := Some(num)))
        else Failure(PortNotFound(ps.proto.value, num))
    else
      Failure(JunkComponent(dev))
  }

  /** The loop of `_parsePath` over the remaining segments. */
  function Resolve(lh: LocalHost, segs: seq<string>, ps: PathStat): (r: Result<PathStat, Error>)
    requires Resolves(lh, ps)
    ensures r.Success? ==> Resolves(lh, r.value)
    decreases |segs|
  {
    if |segs| == 0 || segs[0] == "" then Success(ps)
    else
      var next :- Step(lh, ps, segs[0]);
      Resolve(lh, segs[1..], next)
  }

  /** Reference definition of resolution by position: the k-th segment is the key at
      level k (interface name, host address, protocol lower-cased, port number), each
      looked up in the map of the level before; a fifth segment is junk. */
  function ByPosition(lh: LocalHost, segs: seq<string>): Result<PathStat, Error> {
    if |segs| == 0 then Success(Root)
    else if segs[0] !in lh.interfaces then Failure(InterfaceNotFound(segs[0]))
    else if |segs| == 1 then Success(PathStat(Some(segs[0]), None, None, None))
    else if segs[1] !in lh.interfaces[segs[0]].hosts then Failure(HostNotFound(segs[0], segs[1]))
    else if |segs| == 2 then Success(PathStat(Some(segs[0]), Some(segs[1]), None, None))
    else
      var ports := lh.interfaces[segs[0]].hosts[segs[1]].ports;
      var proto := Lower(segs[2]);
      if proto !in ports then Failure(UnknownProto(segs[2]))
      else if |segs| == 3 then Success(PathStat(Some(segs[0]), Some(segs[1]), Some(proto), None))
      else if ParseInt(segs[3]).None? then Failure(InvalidPortNumber(segs[3]))
      else if ParseInt(segs[3]).value !in ports[proto] then
        Failure(PortNotFound(proto, ParseInt(segs[3]).value))
      else if |segs| == 4 then Success(PathStat(Some(segs[0]), Some(segs[1]), Some(proto), ParseInt(segs[3])))
      else Failure(JunkComponent(segs[4]))
  }

  /** `_parsePath(path)`: agrees with the positional reference on the segments before
      the first empty one, and what it returns resolves in `lh`. */
  function ParsePath(lh: LocalHost, path: string): (r: Result<PathStat, Error>)
    ensures r == ByPosition(lh, PathSegments(path))
    ensures r.Success? ==> Resolves(lh, r.value)
  {
    ResolveLive(lh, Segments(path), Root);
    ResolveByPosition(lh, PathSegments(path));
    Resolve(lh, Segments(path), Root)
  }

  /** Resolution never looks past the first empty segment. */
  lemma {:induction false} ResolveLive(lh: LocalHost, segs: seq<string>, ps: PathStat)
    requires Resolves(lh, ps)
    ensures Resolve(lh, segs, ps) == Resolve(lh, Live(segs), ps)
    decreases |segs|
  {
    if |segs| > 0 && segs[0] != "" {
      var live := Live(segs);
      assert live[0] == segs[0] && live[1..] == Live(segs[1..]);
      match Step(lh, ps, segs[0])
      case Failure(_) =>
      case Success(next) => ResolveLive(lh, segs[1..], next);
    }
  }

  /** The loop and the positional reference agree on segments that are not empty. */
  lemma ResolveByPosition(lh: LocalHost, segs: seq<string>)
    requires forall i :: 0 <= i < |segs| ==> segs[i] != ""
    ensures Resolve(lh, segs, Root) == ByPosition(lh, segs)
  {
    if |segs| > 0 && segs[0] in lh.interfaces {
      var s1 := PathStat(Some(segs[0]), None, None, None);
      assert Resolve(lh, segs, Root) == Resolve(lh, segs[1..], s1);
      if |segs| > 1 && segs[1] in lh.interfaces[segs[0]].hosts {
        var s2 := s1.(host := Some(segs[1]));
        var t1 := segs[1..];
        assert Resolve(lh, t1, s1) == Resolve(lh, t1[1..], s2);
        var ports := lh.interfaces[segs[0]].hosts[segs[1]].ports;
        if |segs| > 2 && Lower(segs[2]) in ports {
          var proto := Lower(segs[2]);
          var s3 := s2.(proto := Some(proto));
          var t2 := t1[1..];
          assert t2[0] == segs[2];
          assert Resolve(lh, t2, s2) == Resolve(lh, t2[1..], s3);
          if |segs| > 3 && ParseInt(segs[3]).Some? && ParseInt(segs[3]).value in ports[proto] {
            var s4 := s3.(port := ParseInt(segs[3]));
            var t3 := t2[1..];
            assert t3[0] == segs[3];
            assert Resolve(lh, t3, s3) == Resolve(lh, t3[1..], s4);
            if |segs| > 4 {
              var t4 := t3[1..];
              assert t4[0] == segs[4];
            }
          }
        }
      }
    }
  }

  /** Paths made only of slashes, the empty path among them, name the local host. */
  lemma SlashesAreRoot(lh: LocalHost, path: string)
    requires forall i :: 0 <= i < |path| ==> path[i] == '/'
    ensures ParsePath(lh, path) == Success(Root)
  {
    assert Strip(path, '/') == "";
    assert Segments(path) == [""];
  }

  /** `""` and `"/"` both resolve to the empty record. */
  lemma RootPaths(lh: LocalHost)
    ensures ParsePath(lh, "") == Success(Root)
    ensures ParsePath(lh, "/") == Success(Root)
  {
    SlashesAreRoot(lh, "");
    SlashesAreRoot(lh, "/");
  }

  /** A key that can stand as one path segment. */
  predicate IsSegment(s: string) {
    |s| > 0 && '/' !in s
  }

  /** The keys of a record, as path segments. */
  function KeySegments(ps: PathStat): (segs: seq<string>)
    requires Layered(ps)
    ensures |segs| <= 4
  {
    if ps.interface.None? then []
    else if ps.host.None? then [ps.interface.value]
    else if ps.proto.None? then [ps.interface.value, ps.host.value]
    else if ps.port.None? then [ps.interface.value, ps.host.value, ps.proto.value]
    else [ps.interface.value, ps.host.value, ps.proto.value, IntToString(ps.port.value)]
  }

  /** The canonical path of a record: one segment per level reached. */
  function FormatPath(ps: PathStat): string
    requires Layered(ps)
  {
    if ps.interface.None? then "/" else "/" + Join(KeySegments(ps), '/')
  }

  /** Parsing inverts formatting: the canonical path of a resolvable record resolves
      back to that record. */
  lemma ParseFormat(lh: LocalHost, ps: PathStat)
    requires Resolves(lh, ps)
    requires ps.interface.Some? ==> IsSegment(ps.interface.value)
    requires ps.host.Some? ==> IsSegment(ps.host.value)
    ensures ParsePath(lh, FormatPath(ps)) == Success(ps)
  {
    if ps.interface.None? {
      SlashesAreRoot(lh, "/");
    } else {
      if ps.proto.Some? {
        assert IsSegment("tcp") && IsSegment("udp");
      }
      SegmentsOfFormat(ps);
      LiveOfSegments(KeySegments(ps));
      ByPositionOfKeys(lh, ps);
    }
  }

  /** The key segments of a record are the segments of its canonical path. */
  lemma SegmentsOfFormat(ps: PathStat)
    requires Layered(ps) && ps.interface.Some?
    requires IsSegment(ps.interface.value)
    requires ps.host.Some? ==> IsSegment(ps.host.value)
    requires ps.proto.Some? ==> IsSegment(ps.proto.value)
    ensures Segments(FormatPath(ps)) == KeySegments(ps)
    ensures forall i :: 0 <= i < |KeySegments(ps)| ==> IsSegment(KeySegments(ps)[i])
  {
    if ps.port.Some? {
      IntToStringPlain(ps.port.value);
    }
    SegmentsOfSlashJoin(KeySegments(ps));
  }

  /** A leading slash followed by a join of segments splits back into the segments. */
  lemma SegmentsOfSlashJoin(segs: seq<string>)
    requires |segs| >= 1 && forall i :: 0 <= i < |segs| ==> IsSegment(segs[i])
    ensures Segments("/" + Join(segs, '/')) == segs
  {
    var j := Join(segs, '/');
    JoinEnds(segs, '/');
    StripOne(j, '/');
    assert "/" + j == ['/'] + j;
    SplitJoin(segs, '/');
  }

  /** The positional reference resolves the keys of a resolvable record to it. */
  lemma ByPositionOfKeys(lh: LocalHost, ps: PathStat)
    requires Resolves(lh, ps)
    ensures ByPosition(lh, KeySegments(ps)) == Success(ps)
  {
    if ps.proto.Some? {
      assert ps.proto.value == "tcp" || ps.proto.value == "udp";
      LowerProtos();
    }
    if ps.port.Some? {
      ParseIntToString(ps.port.value);
    }
  }

  /** The protocol segment is matched case-insensitively: `/iface/host/TCP` names the
      host's "tcp" protocol. */
  lemma ProtoIsLowered(lh: LocalHost, iface: string, ip: string)
    requires iface in lh.interfaces && ip in lh.interfaces[iface].hosts
    requires IsSegment(iface) && IsSegment(ip)
    ensures ParsePath(lh, FormatPath(PathStat(Some(iface), Some(ip), Some("TCP"), None)))
         == Success(PathStat(Some(iface), Some(ip), Some("tcp"), None))
  {
    var shouted := PathStat(Some(iface), Some(ip), Some("TCP"), None);
    assert IsSegment("TCP");
    SegmentsOfFormat(shouted);
    LiveOfSegments(KeySegments(shouted));
    assert Lower("TCP") == "tcp";
  }

  /** A join of non-empty separator-free pieces neither starts nor ends with the
      separator. */
  lemma {:induction false} JoinEnds(parts: seq<string>, sep: char)
    requires |parts| >= 1
    requires forall i :: 0 <= i < |parts| ==> |parts[i]| > 0 && sep !in parts[i]
    ensures var j := Join(parts, sep); |j| > 0 && j[0] != sep && j[|j| - 1] != sep
    decreases |parts|
  {
    if |parts| > 1 {
      JoinEnds(parts[1..], sep);
      var rest := Join(parts[1..], sep);
      assert Join(parts, sep) == parts[0] + [sep] + rest;
      assert parts[0][0] in parts[0];
      assert Join(parts, sep)[0] == parts[0][0];
    } else {
      assert parts[0][0] in parts[0];
      assert parts[0][|parts[0]| - 1] in parts[0];
    }
  }

  /** Segments that are all non-empty are all live. */
  lemma {:induction false} LiveOfSegments(segs: seq<string>)
    requires forall i :: 0 <= i < |segs| ==> IsSegment(segs[i])
    ensures Live(segs) == segs
    decreases |segs|
  {
    if |segs| > 0 {
      LiveOfSegments(segs[1..]);
    }
  }

  // ===========================================================================
  // Projections (`_toJson`)

  /** The JSON objects `_toJson` and `stat` build. There is no port record: the port
      branch of `_toJson` reads `number`, which a Port does not have, so projecting a
      port always fails. */
  datatype Record =
    | LocalHostRecord(username: string, hostname: string)
    | InterfaceRecord(name: string, ip: string, mask: string, mac: string, gateway: string, state: string)
    | HostRecord(ip: string, hostMac: Option<string>, os: Option<string>, lastActivity: Option<int>, state: string)
    | ProtoRecord(name: string)

  function LocalHostJson(lh: LocalHost): (r: Record)
    ensures r.LocalHostRecord?
    ensures r.username == lh.username && r.hostname == lh.hostname
  {
    LocalHostRecord(lh.username, lh.hostname)
  }

  function InterfaceJson(i: Interfaces.Interface): (r: Record)
    ensures r.InterfaceRecord? && r.name == i.name
    ensures r.ip == i.ip && r.mask == i.mask && r.mac == i.mac
    ensures r.gateway == i.gateway && r.state == i.state
  {
    InterfaceRecord(i.name, i.ip, i.mask, i.mac, i.gateway, i.state)
  }

  function HostJson(h: Hosts.Host): (r: Record)
    ensures r.HostRecord? && r.ip == h.ip
    ensures r.hostMac == h.mac && r.os == h.os
    ensures r.lastActivity == h.lastActivity && r.state == h.state
  {
    HostRecord(h.ip, h.mac, h.os, h.lastActivity, h.state)
  }

  /** The local host record keeps the user and host names and nothing else. */
  lemma LocalHostJsonKeeps(a: LocalHost, b: LocalHost)
    ensures LocalHostJson(a) == LocalHostJson(b) <==>
              a.username == b.username && a.hostname == b.hostname
  {
  }

  /** The interface record keeps the name and the configuration, not the hosts. */
  lemma InterfaceJsonKeeps(a: Interfaces.Interface, b: Interfaces.Interface)
    ensures InterfaceJson(a) == InterfaceJson(b) <==>
              a.name == b.name && Interfaces.ConfigOf(a) == Interfaces.ConfigOf(b)
  {
  }

  /** The host record keeps every field of the host but its ports. */
  lemma HostJsonKeeps(a: Hosts.Host, b: Hosts.Host)
    ensures HostJson(a) == HostJson(b) <==> a.(ports := b.ports) == b
  {
  }

  // ===========================================================================
  // Reading operations. Each is a path wrapper around a function of the resolved
  // record, which carries the level-by-level contract.

  /** What `list` returns for the device a resolved record names. */
  function ListDevice(lh: LocalHost, ps: PathStat): (r: Result<set<string>, Error>)
    requires Resolves(lh, ps)
    ensures LevelOf(ps) == PortLevel ==> r == Success({})
    ensures LevelOf(ps) == ProtoLevel ==>
      && (r.Success? <==> PortsAt(lh, ps) == map[])
      && (r.Success? ==> r.value == {})
      && (r.Failure? ==> r.error == Unhandled)
    ensures LevelOf(ps) == HostLevel ==> r == Success({"tcp", "udp"})
    ensures LevelOf(ps) == InterfaceLevel ==>
      && r.Success?
      && (Interfaces.Valid(InterfaceAt(lh, ps)) ==> r.value == InterfaceAt(lh, ps).hosts.Keys)
    ensures LevelOf(ps) == RootLevel ==>
      && r.Success?
      && (LocalHosts.Valid(lh) ==> r.value == lh.interfaces.Keys)
  {
    match LevelOf(ps)
    case PortLevel => Success({})
    case ProtoLevel =>
      // Each port is printed through `number`, which a Port does not have.
      if PortsAt(lh, ps) == map[] then Success({}) else Failure(Unhandled)
    case HostLevel => Success(HostAt(lh, ps).ports.Keys)
    case InterfaceLevel =>
      var hosts := InterfaceAt(lh, ps).hosts;
      Success(set ip | ip in hosts :: hosts[ip].ip)
    case RootLevel =>
      Success(set name | name in lh.interfaces :: lh.interfaces[name].name)
  }

  /** `list(path)`: a path that does not resolve fails with the resolution error;
      otherwise the names of the subdevices of the device it names. */
  function List(lh: LocalHost, path: string): (r: Result<set<string>, Error>)
    ensures ParsePath(lh, path).Failure? ==> r == Failure(ParsePath(lh, path).error)
    ensures ParsePath(lh, path).Success? ==> r == ListDevice(lh, ParsePath(lh, path).value)
  {
    var ps :- ParsePath(lh, path);
    ListDevice(lh, ps)
  }

  /** What `stat` returns for the device a resolved record names: the record of the
      deepest level reached. */
  function StatDevice(lh: LocalHost, ps: PathStat): (r: Result<Record, Error>)
    requires Resolves(lh, ps)
    ensures LevelOf(ps) == PortLevel ==> r == Failure(Unhandled)
    ensures LevelOf(ps) == ProtoLevel ==>
      && r == Success(ProtoRecord(ps.proto.value))
      && (r.value.name == "tcp" || r.value.name == "udp")
    ensures LevelOf(ps) == HostLevel ==>
      && r == Success(HostJson(HostAt(lh, ps)))
      && (LocalHosts.Valid(lh) ==> r.value.ip == ps.host.value)
    ensures LevelOf(ps) == InterfaceLevel ==>
      && r == Success(InterfaceJson(InterfaceAt(lh, ps)))
      && (LocalHosts.Valid(lh) ==> r.value.name == ps.interface.value)
    ensures LevelOf(ps) == RootLevel ==> r == Success(LocalHostRecord(lh.username, lh.hostname))
  {
    match LevelOf(ps)
    case PortLevel => Failure(Unhandled)
    case ProtoLevel => Success(ProtoRecord(ps.proto.value))
    case HostLevel => Success(HostJson(HostAt(lh, ps)))
    case InterfaceLevel => Success(InterfaceJson(InterfaceAt(lh, ps)))
    case RootLevel => Success(LocalHostJson(lh))
  }

  /** `stat(path)`. */
  function Stat(lh: LocalHost, path: string): (r: Result<Record, Error>)
    ensures ParsePath(lh, path).Failure? ==> r == Failure(ParsePath(lh, path).error)
    ensures ParsePath(lh, path).Success? ==> r == StatDevice(lh, ParsePath(lh, path).value)
  {
    var ps :- ParsePath(lh, path);
    StatDevice(lh, ps)
  }

  /** What `listat` returns for the device a resolved record names: the records of its
      subdevices. At a host it projects the port numbers `allPorts` yields, which
      `_toJson` rejects. */
  function ListAtDevice(lh: LocalHost, ps: PathStat): (r: Result<set<Record>, Error>)
    requires Resolves(lh, ps)
    ensures LevelOf(ps) == PortLevel ==> r == Success({})
    ensures LevelOf(ps) == ProtoLevel ==>
      && (r.Success? <==> PortsAt(lh, ps) == map[])
      && (r.Success? ==> r.value == {})
      && (r.Failure? ==> r.error == Unhandled)
    ensures LevelOf(ps) == HostLevel ==>
      && (r.Success? <==> Hosts.AllPorts(HostAt(lh, ps)) == multiset{})
      && (r.Success? ==> r.value == {})
      && (r.Failure? ==> r.error == Unhandled)
    ensures LevelOf(ps) == InterfaceLevel ==>
      && r.Success?
      && (forall ip :: ip in InterfaceAt(lh, ps).hosts ==> HostJson(InterfaceAt(lh, ps).hosts[ip]) in r.value)
      && (forall rec :: rec in r.value ==> rec.HostRecord?)
    ensures LevelOf(ps) == RootLevel ==>
      && r.Success?
      && (forall name :: name in lh.interfaces ==> InterfaceJson(lh.interfaces[name]) in r.value)
      && (forall rec :: rec in r.value ==> rec.InterfaceRecord?)
  {
    match LevelOf(ps)
    case PortLevel => Success({})
    case ProtoLevel =>
      if PortsAt(lh, ps) == map[] then Success({}) else Failure(Unhandled)
    case HostLevel =>
      // `allPorts` yields numbers, and `_toJson` rejects anything but a device.
      if Hosts.AllPorts(HostAt(lh, ps)) == multiset{} then Success({}) else Failure(Unhandled)
    case InterfaceLevel =>
      var hosts := InterfaceAt(lh, ps).hosts;
      Success(set ip | ip in hosts :: HostJson(hosts[ip]))
    case RootLevel =>
      Success(set name | name in lh.interfaces :: InterfaceJson(lh.interfaces[name]))
  }

  /** `listat(path)`. */
  function ListAt(lh: LocalHost, path: string): (r: Result<set<Record>, Error>)
    ensures ParsePath(lh, path).Failure? ==> r == Failure(ParsePath(lh, path).error)
    ensures ParsePath(lh, path).Success? ==> r == ListAtDevice(lh, ParsePath(lh, path).value)
  {
    var ps :- ParsePath(lh, path);
    ListAtDevice(lh, ps)
  }

  /** The record one level below `ps`, keyed `key`. */
  function Child(ps: PathStat, key: string): (c: PathStat)
    requires Layered(ps) && ps.host.None?
    ensures Layered(c)
  {
    if ps.interface.None? then ps.(interface := Some(key)) else ps.(host := Some(key))
  }

  /** Interface names that can stand as path segments. */
  predicate SegmentNames(lh: LocalHost) {
    forall name :: name in lh.interfaces ==> IsSegment(name)
  }

  /** The record `stat` gives for subdevice `key` of a device above the host level. */
  function ChildRecord(lh: LocalHost, ps: PathStat, key: string): Record
    requires Resolves(lh, ps) && ps.host.None?
    requires key in ListDevice(lh, ps).value
    requires LocalHosts.Valid(lh)
  {
    if ps.interface.None? then InterfaceJson(lh.interfaces[key])
    else HostJson(InterfaceAt(lh, ps).hosts[key])
  }

  /** Stat of a subdevice's canonical path is its record. */
  lemma StatOfChild(lh: LocalHost, ps: PathStat, key: string)
    requires LocalHosts.Valid(lh) && SegmentNames(lh)
    requires Resolves(lh, ps) && ps.host.None?
    requires key in ListDevice(lh, ps).value
    ensures Stat(lh, FormatPath(Child(ps, key))) == Success(ChildRecord(lh, ps, key))
  {
    var c := Child(ps, key);
    if ps.interface.Some? {
      Util.IpIsPathSegment(InterfaceAt(lh, ps).hosts[key].ip);
      assert LevelOf(c) == HostLevel && Resolves(lh, c);
    } else {
      assert LevelOf(c) == InterfaceLevel && Resolves(lh, c);
    }
    ParseFormat(lh, c);
    assert Stat(lh, FormatPath(c)) == StatDevice(lh, c);
  }

  /** Above the host level, `listat` projects exactly the subdevices `list` names. */
  lemma ListAtIsChildRecords(lh: LocalHost, ps: PathStat)
    requires LocalHosts.Valid(lh)
    requires Resolves(lh, ps) && ps.host.None?
    ensures ListDevice(lh, ps).Success? && ListAtDevice(lh, ps).Success?
    ensures ListAtDevice(lh, ps).value ==
              set key | key in ListDevice(lh, ps).value :: ChildRecord(lh, ps, key)
  {
  }

  /** Above the host level, `listat` is `list` followed by `stat` of the canonical path
      of every subdevice listed, as its documentation promises. */
  lemma ListAtIsStatOfListed(lh: LocalHost, ps: PathStat)
    requires LocalHosts.Valid(lh) && SegmentNames(lh)
    requires Resolves(lh, ps) && ps.host.None?
    ensures ListDevice(lh, ps).Success? && ListAtDevice(lh, ps).Success?
    ensures forall key :: key in ListDevice(lh, ps).value ==> Stat(lh, FormatPath(Child(ps, key))).Success?
    ensures ListAtDevice(lh, ps).value ==
              set key | key in ListDevice(lh, ps).value :: Stat(lh, FormatPath(Child(ps, key))).value
  {
    ListAtIsChildRecords(lh, ps);
    var keys := ListDevice(lh, ps).value;
    forall key | key in keys
      ensures Stat(lh, FormatPath(Child(ps, key))) == Success(ChildRecord(lh, ps, key))
    {
      StatOfChild(lh, ps, key);
    }
  }

  /** `jobs`' choice of context: the deepest of port, host and interface the path names
      (a protocol is skipped, so a protocol path counts as its host), None at the root. */
  function JobScope(ps: PathStat): (d: Option<Jobs.Device>)
    requires Layered(ps)
    ensures d.None? <==> ps.interface.None?
    ensures d.Some? ==> d.value.iface == ps.interface.value
    ensures (d.Some? && d.value.PortDevice?) <==> ps.port.Some?
    ensures (d.Some? && d.value.HostDevice?) <==> ps.host.Some? && ps.port.None?
    ensures d.Some? && !d.value.InterfaceDevice? ==> d.value.ip == ps.host.value
    ensures d.Some? && d.value.PortDevice? ==>
              d.value.proto == ps.proto.value && d.value.num == ps.port.value
  {
    if ps.port.Some? then Some(Jobs.PortDevice(ps.interface.value, ps.host.value, ps.proto.value, ps.port.value))
    else if ps.host.Some? then Some(Jobs.HostDevice(ps.interface.value, ps.host.value))
    else if ps.interface.Some? then Some(Jobs.InterfaceDevice(ps.interface.value))
    else None
  }

  /** `jobs(path)`: the ids of the jobs run in the context of the device the path
      names, all of them registered. */
  function JobIds(lh: LocalHost, path: string): (r: Result<seq<int>, Error>)
    ensures r.Success? <==> ParsePath(lh, path).Success?
    ensures r.Failure? ==> r.error == ParsePath(lh, path).error
    ensures r.Success? ==> forall k :: 0 <= k < |r.value| ==> r.value[k] in lh.jobs
  {
    var ps :- ParsePath(lh, path);
    Success(LocalHosts.JobsInContext(lh, JobScope(ps)))
  }

  /** `_getJob(jid)`: fails for an unknown id; for a known one the source falls off the
      end of the function, so the caller gets None rather than the job. */
  function GetJob(lh: LocalHost, jid: int): (r: Result<Option<Jobs.Job>, Error>)
    ensures r.Failure? <==> jid !in lh.jobs
    ensures r.Failure? ==> r.error == JobNotFound(jid)
    ensures r.Success? ==> r.value == None
  {
    if jid !in lh.jobs then Failure(JobNotFound(jid)) else Success(None)
  }

  // ===========================================================================
  // Writing operations

  function WithInterface(lh: LocalHost, name: string, i: Interfaces.Interface): LocalHost {
    lh.(interfaces := lh.interfaces[name := i])
  }

  function WithHost(lh: LocalHost, ps: PathStat, h: Hosts.Host): LocalHost
    requires Resolves(lh, ps) && ps.host.Some?
  {
    var i := InterfaceAt(lh, ps);
    WithInterface(lh, ps.interface.value, i.(hosts := i.hosts[ps.host.value := h]))
  }

  /** `lh2` differs from `lh` at most in the hosts of interface `iface`. */
  predicate OnlyInterfaceChanged(lh: LocalHost, lh2: LocalHost, iface: string) {
    && iface in lh.interfaces
    && lh2.(interfaces := lh.interfaces) == lh
    && lh2.interfaces.Keys == lh.interfaces.Keys
    && (forall k :: k in lh.interfaces && k != iface ==> lh2.interfaces[k] == lh.interfaces[k])
    && lh2.interfaces[iface].(hosts := lh.interfaces[iface].hosts) == lh.interfaces[iface]
  }

  /** `lh2` differs from `lh` at most in the ports of host `ip` of interface `iface`. */
  predicate OnlyHostChanged(lh: LocalHost, lh2: LocalHost, iface: string, ip: string) {
    && OnlyInterfaceChanged(lh, lh2, iface)
    && var hosts, hosts2 := lh.interfaces[iface].hosts, lh2.interfaces[iface].hosts;
    && ip in hosts
    && hosts2.Keys == hosts.Keys
    && (forall a :: a in hosts && a != ip ==> hosts2[a] == hosts[a])
    && hosts2[ip].(ports := hosts[ip].ports) == hosts[ip]
  }

  /** Host `ip` was filed under interface `iface`, fresh as `Host(ip)` makes it. */
  predicate HostCreated(lh: LocalHost, lh2: LocalHost, iface: string, ip: string) {
    && OnlyInterfaceChanged(lh, lh2, iface)
    && var hosts, hosts2 := lh.interfaces[iface].hosts, lh2.interfaces[iface].hosts;
    && hosts2.Keys == hosts.Keys + {ip}
    && (forall a :: a in hosts ==> hosts2[a] == hosts[a])
    && Hosts.New(ip) == Success(hosts2[ip])
  }

  /** Port `num` of protocol `proto` was added to host `ip` of interface `iface`, fresh
      as `Port(num, proto)` makes it. */
  predicate PortCreated(lh: LocalHost, lh2: LocalHost, iface: string, ip: string, proto: string, num: int) {
    && OnlyHostChanged(lh, lh2, iface, ip)
    && var ports, ports2 := lh.interfaces[iface].hosts[ip].ports, lh2.interfaces[iface].hosts[ip].ports;
    && proto in ports
    && ports2[proto].Keys == ports[proto].Keys + {num}
    && (forall n :: n in ports[proto] ==> ports2[proto][n] == ports[proto][n])
    && (forall q :: q in ports && q != proto ==> ports2[q] == ports[q])
    && ports2[proto][num].num == num && ports2[proto][num].proto == proto
    && ports2[proto][num].lastActivity == None && ports2[proto][num].state == Ports.UnknownState
  }

  /** Port `num` of protocol `proto` was removed from host `ip` of interface `iface`. */
  predicate PortRemoved(lh: LocalHost, lh2: LocalHost, iface: string, ip: string, proto: string, num: int) {
    && OnlyHostChanged(lh, lh2, iface, ip)
    && var ports, ports2 := lh.interfaces[iface].hosts[ip].ports, lh2.interfaces[iface].hosts[ip].ports;
    && proto in ports
    && ports2[proto].Keys == ports[proto].Keys - {num}
    && (forall n :: n in ports2[proto] ==> ports2[proto][n] == ports[proto][n])
    && (forall q :: q in ports && q != proto ==> ports2[q] == ports[q])
  }

  /** What `create` does under the device a resolved record names: under an interface,
      files a host with address `name`; under a protocol, a port with number `name`;
      refuses anywhere else. `path` is only quoted in the messages. */
  function CreateIn(lh: LocalHost, ps: PathStat, path: string, name: string): (r: Result<LocalHost, Error>)
    requires Resolves(lh, ps)
    ensures LevelOf(ps) == PortLevel ==> r == Failure(CannotCreate("subdevice to port"))
    ensures LevelOf(ps) == HostLevel ==> r == Failure(CannotCreate("transport protocol"))
    ensures LevelOf(ps) == RootLevel ==> r == Failure(CannotCreate("interface"))
    ensures LevelOf(ps) == InterfaceLevel ==>
      var hosts := InterfaceAt(lh, ps).hosts;
      && (r.Success? <==> Util.IsIp(name) && name !in hosts)
      && (!Util.IsIp(name) ==> r == Failure(InvalidIp(name)))
      && (Util.IsIp(name) && name in hosts ==> r == Failure(HostExists(path, name)))
      && (r.Success? ==> HostCreated(lh, r.value, ps.interface.value, name))
    ensures LevelOf(ps) == ProtoLevel ==>
      var n := ParseInt(name);
      && (r.Success? <==> n.Some? && 0 < n.value < 65536 && n.value !in PortsAt(lh, ps))
      && (n.None? || !(0 < n.value < 65536) ==> r == Failure(Unhandled))
      && (n.Some? && 0 < n.value < 65536 && n.value in PortsAt(lh, ps) ==> r == Failure(PortExists(path, name)))
      && (r.Success? ==> PortCreated(lh, r.value, ps.interface.value, ps.host.value, ps.proto.value, n.value))
  {
    match LevelOf(ps)
    case PortLevel => Failure(CannotCreate("subdevice to port"))
    case ProtoLevel =>
      // `int(name)` and `Port(...)` may raise; the handler names `Port.InvalidNumber`,
      // which does not exist, so either failure escapes unhandled.
      (match ParseInt(name)
       case None => Failure(Unhandled)
       case Some(num) =>
         (match Ports.New(num, ps.proto.value)
          case Failure(_) => Failure(Unhandled)
          case Success(port) =>
            (match Hosts.AddPort(HostAt(lh, ps), port)
             case Failure(_) => Failure(PortExists(path, name))
             case Success(h) => Success(WithHost(lh, ps, h)))))
    case HostLevel => Failure(CannotCreate("transport protocol"))
    case InterfaceLevel =>
      (match Hosts.New(name)
       case Failure(_) => Failure(InvalidIp(name))
       case Success(host) =>
         (match Interfaces.AddHost(InterfaceAt(lh, ps), host)
          case Failure(_) => Failure(HostExists(path, name))
          case Success(i) => Success(WithInterface(lh, ps.interface.value, i))))
    case RootLevel => Failure(CannotCreate("interface"))
  }

  /** `create(path, name)`: the new topology. */
  function Create(lh: LocalHost, path: string, name: string): (r: Result<LocalHost, Error>)
    ensures ParsePath(lh, path).Failure? ==> r == Failure(ParsePath(lh, path).error)
    ensures ParsePath(lh, path).Success? ==> r == CreateIn(lh, ParsePath(lh, path).value, path, name)
  {
    var ps :- ParsePath(lh, path);
    CreateIn(lh, ps, path, name)
  }

  /** In a valid topology the port a path reaches carries the path's protocol and
      number, so its host owns it. */
  lemma PortFiledUnderKeys(lh: LocalHost, ps: PathStat)
    requires Resolves(lh, ps) && ps.port.Some?
    ensures LocalHosts.Valid(lh) ==>
      && PortAt(lh, ps).proto == ps.proto.value && PortAt(lh, ps).num == ps.port.value
      && Hosts.Owns(HostAt(lh, ps), PortAt(lh, ps))
  {
    if LocalHosts.Valid(lh) {
      assert Interfaces.Valid(InterfaceAt(lh, ps));
      var h := HostAt(lh, ps);
      assert Hosts.Valid(h);
      Hosts.PortFiled(h, ps.proto.value, ps.port.value);
    }
  }

  /** What `delete` does to the device a resolved record names: only a port can go. A
      host path calls `dropHost`, which Interface does not have. */
  function DeleteDevice(lh: LocalHost, ps: PathStat): (r: Result<LocalHost, Error>)
    requires Resolves(lh, ps)
    ensures LevelOf(ps) == PortLevel ==>
      && (r.Success? <==> Hosts.Owns(HostAt(lh, ps), PortAt(lh, ps)))
      && (r.Failure? ==> r.error == Unhandled)
      && (r.Success? ==> PortRemoved(lh, r.value, ps.interface.value, ps.host.value,
                                     PortAt(lh, ps).proto, PortAt(lh, ps).num))
      && (LocalHosts.Valid(lh) ==>
            r.Success? && PortRemoved(lh, r.value, ps.interface.value, ps.host.value, ps.proto.value, ps.port.value))
    ensures LevelOf(ps) == ProtoLevel ==> r == Failure(CannotDrop("protocol"))
    ensures LevelOf(ps) == HostLevel ==> r == Failure(Unhandled)
    ensures LevelOf(ps) == InterfaceLevel ==> r == Failure(CannotDrop("interface"))
    ensures LevelOf(ps) == RootLevel ==> r == Failure(CannotDrop("localhost"))
  {
    match LevelOf(ps)
    case PortLevel =>
      PortFiledUnderKeys(lh, ps);
      (match Hosts.DropPort(HostAt(lh, ps), PortAt(lh, ps))
       case Failure(_) => Failure(Unhandled)
       case Success(h) => Success(WithHost(lh, ps, h)))
    case ProtoLevel => Failure(CannotDrop("protocol"))
    case HostLevel => Failure(Unhandled)
    case InterfaceLevel => Failure(CannotDrop("interface"))
    case RootLevel => Failure(CannotDrop("localhost"))
  }

  /** `delete(path)`: the new topology. */
  function Delete(lh: LocalHost, path: string): (r: Result<LocalHost, Error>)
    ensures ParsePath(lh, path).Failure? ==> r == Failure(ParsePath(lh, path).error)
    ensures ParsePath(lh, path).Success? ==> r == DeleteDevice(lh, ParsePath(lh, path).value)
  {
    var ps :- ParsePath(lh, path);
    DeleteDevice(lh, ps)
  }

  // ===========================================================================
  // Properties relating the writing operations

  /** Filing a valid interface under its own name keeps a topology valid. */
  lemma WithInterfaceValid(lh: LocalHost, name: string, i: Interfaces.Interface)
    requires LocalHosts.Valid(lh) && Interfaces.Valid(i) && i.name == name
    ensures LocalHosts.Valid(WithInterface(lh, name, i))
  {
    LocalHosts.FileInterfaceValid(lh, i);
  }

  /** Filing a valid host under its own address keeps a topology valid. */
  lemma {:induction false} WithHostValid(lh: LocalHost, ps: PathStat, h: Hosts.Host)
    requires LocalHosts.Valid(lh) && Resolves(lh, ps) && ps.host.Some?
    requires Hosts.Valid(h) && h.ip == ps.host.value
    ensures LocalHosts.Valid(WithHost(lh, ps, h))
  {
    var i := InterfaceAt(lh, ps);
    assert Interfaces.Valid(i) && i.name == ps.interface.value;
    Interfaces.FileHostValid(i, h);
    WithInterfaceValid(lh, ps.interface.value, i.(hosts := i.hosts[ps.host.value := h]));
  }

  /** Creating keeps a valid topology valid. */
  lemma CreatePreservesValid(lh: LocalHost, ps: PathStat, path: string, name: string)
    requires LocalHosts.Valid(lh) && Resolves(lh, ps)
    requires CreateIn(lh, ps, path, name).Success?
    ensures LocalHosts.Valid(CreateIn(lh, ps, path, name).value)
  {
    if LevelOf(ps) == ProtoLevel {
      CreatePortPreservesValid(lh, ps, path, name);
    } else {
      CreateHostPreservesValid(lh, ps, path, name);
    }
  }

  /** Creating a port keeps a valid topology valid. */
  lemma CreatePortPreservesValid(lh: LocalHost, ps: PathStat, path: string, name: string)
    requires LocalHosts.Valid(lh) && Resolves(lh, ps) && LevelOf(ps) == ProtoLevel
    requires CreateIn(lh, ps, path, name).Success?
    ensures LocalHosts.Valid(CreateIn(lh, ps, path, name).value)
  {
    var i := InterfaceAt(lh, ps);
    assert Interfaces.Valid(i) && i.name == ps.interface.value;
    var h := HostAt(lh, ps);
    var port := Ports.New(ParseInt(name).value, ps.proto.value).value;
    var h2 := Hosts.AddPort(h, port).value;
    assert CreateIn(lh, ps, path, name) == Success(WithHost(lh, ps, h2));
    assert Hosts.Valid(h) by { assert ps.host.value in i.hosts; }
    Hosts.PortOperationsPreserveValid(h, port);
    WithHostValid(lh, ps, h2);
  }

  /** Creating a host keeps a valid topology valid. */
  lemma CreateHostPreservesValid(lh: LocalHost, ps: PathStat, path: string, name: string)
    requires LocalHosts.Valid(lh) && Resolves(lh, ps) && LevelOf(ps) == InterfaceLevel
    requires CreateIn(lh, ps, path, name).Success?
    ensures LocalHosts.Valid(CreateIn(lh, ps, path, name).value)
  {
    var i := InterfaceAt(lh, ps);
    assert Interfaces.Valid(i) && i.name == ps.interface.value;
    var host := Hosts.New(name).value;
    var i2 := Interfaces.AddHost(i, host).value;
    assert CreateIn(lh, ps, path, name) == Success(WithInterface(lh, ps.interface.value, i2));
    Interfaces.FileHostValid(i, host);
    WithInterfaceValid(lh, ps.interface.value, i2);
  }

  /** Deleting keeps a valid topology valid. */
  lemma DeletePreservesValid(lh: LocalHost, ps: PathStat)
    requires LocalHosts.Valid(lh) && Resolves(lh, ps)
    requires DeleteDevice(lh, ps).Success?
    ensures LocalHosts.Valid(DeleteDevice(lh, ps).value)
  {
    var i := InterfaceAt(lh, ps);
    assert Interfaces.Valid(i) && i.name == ps.interface.value;
    var h := HostAt(lh, ps);
    Hosts.PortOperationsPreserveValid(h, PortAt(lh, ps));
    WithHostValid(lh, ps, Hosts.DropPort(h, PortAt(lh, ps)).value);
  }

  /** Replacing a host by itself changes nothing, and a second replacement undoes the
      first. */
  lemma WithHostTwice(lh: LocalHost, ps: PathStat, h: Hosts.Host)
    requires Resolves(lh, ps) && ps.host.Some?
    ensures WithHost(lh, ps, HostAt(lh, ps)) == lh
    ensures Resolves(WithHost(lh, ps, h), ps.(proto := None, port := None))
    ensures WithHost(WithHost(lh, ps, h), ps.(proto := None, port := None), HostAt(lh, ps)) == lh
  {
    var i := InterfaceAt(lh, ps);
    assert i.hosts[ps.host.value := HostAt(lh, ps)] == i.hosts;
    assert lh.interfaces[ps.interface.value := i] == lh.interfaces;
    var lh2 := WithHost(lh, ps, h);
    var i2 := i.(hosts := i.hosts[ps.host.value := h]);
    assert i2.hosts[ps.host.value := HostAt(lh, ps)] == i.hosts;
    assert lh2.interfaces[ps.interface.value := i] == lh.interfaces;
  }

  /** Deleting the canonical path of a port just created gives the topology back. */
  lemma CreateThenDelete(lh: LocalHost, ps: PathStat, path: string, name: string)
    requires LocalHosts.Valid(lh) && SegmentNames(lh) && Resolves(lh, ps)
    requires LevelOf(ps) == ProtoLevel && CreateIn(lh, ps, path, name).Success?
    ensures ParseInt(name).Some?
    ensures Delete(CreateIn(lh, ps, path, name).value, FormatPath(ps.(port := ParseInt(name)))) == Success(lh)
  {
    var num := ParseInt(name).value;
    var port := Ports.New(num, ps.proto.value).value;
    var h := HostAt(lh, ps);
    var lh2 := WithHost(lh, ps, Hosts.AddPort(h, port).value);
    assert CreateIn(lh, ps, path, name).value == lh2;
    var ps2 := ps.(port := Some(num));
    DropAddedPort(lh, ps, port);
    Util.IpIsPathSegment(h.ip);
    assert Interfaces.Valid(InterfaceAt(lh, ps));
    DeleteFormatted(lh2, ps2);
  }

  /** Under a resolved protocol, the port just filed there resolves, and deleting it
      restores the topology. */
  lemma DropAddedPort(lh: LocalHost, ps: PathStat, port: Ports.Port)
    requires Resolves(lh, ps) && LevelOf(ps) == ProtoLevel && port.proto == ps.proto.value
    requires Hosts.AddPort(HostAt(lh, ps), port).Success?
    ensures
      var lh2 := WithHost(lh, ps, Hosts.AddPort(HostAt(lh, ps), port).value);
      var ps2 := ps.(port := Some(port.num));
      Resolves(lh2, ps2) && DeleteDevice(lh2, ps2) == Success(lh)
  {
    var h := HostAt(lh, ps);
    var h2 := Hosts.AddPort(h, port).value;
    var lh2 := WithHost(lh, ps, h2);
    var ps2 := ps.(port := Some(port.num));
    assert Resolves(lh2, ps2);
    assert HostAt(lh2, ps2) == h2;
    assert PortAt(lh2, ps2) == port;
    Hosts.AddThenDrop(h, port);
    assert DeleteDevice(lh2, ps2) == Success(WithHost(lh2, ps2, h));
    WithHostTwice(lh, ps, h2);
    assert ps2.(proto := None, port := None) == ps.(proto := None, port := None);
  }

  /** Deleting at the printed path of a resolved port deletes that port. */
  lemma DeleteFormatted(lh: LocalHost, ps: PathStat)
    requires Resolves(lh, ps) && LevelOf(ps) == PortLevel
    requires IsSegment(ps.interface.value) && IsSegment(ps.host.value)
    ensures Delete(lh, FormatPath(ps)) == DeleteDevice(lh, ps)
  {
    ParseFormat(lh, ps);
  }

  /** A path that stops at an interface resolves the same way in any topology with the
      same interface names. */
  lemma InterfacePathStable(lh: LocalHost, lh2: LocalHost, path: string)
    requires ParsePath(lh, path).Success? && LevelOf(ParsePath(lh, path).value) == InterfaceLevel
    requires lh2.interfaces.Keys == lh.interfaces.Keys
    ensures ParsePath(lh2, path) == ParsePath(lh, path)
  {
    var segs := PathSegments(path);
    InterfaceLevelSegments(lh, segs);
    assert ByPosition(lh2, segs) == ByPosition(lh, segs);
  }

  /** Only a single segment resolves to an interface. */
  lemma InterfaceLevelSegments(lh: LocalHost, segs: seq<string>)
    requires ByPosition(lh, segs).Success? && LevelOf(ByPosition(lh, segs).value) == InterfaceLevel
    ensures |segs| == 1 && segs[0] in lh.interfaces
  {
  }

  /** Creating a host under an interface adds exactly its address to the interface's
      listing. */
  lemma CreatedHostIsListed(lh: LocalHost, ps: PathStat, path: string, name: string)
    requires LocalHosts.Valid(lh) && Resolves(lh, ps) && LevelOf(ps) == InterfaceLevel
    requires CreateIn(lh, ps, path, name).Success?
    ensures Resolves(CreateIn(lh, ps, path, name).value, ps)
    ensures ListDevice(lh, ps).Success?
    ensures ListDevice(CreateIn(lh, ps, path, name).value, ps) == Success(ListDevice(lh, ps).value + {name})
  {
    var lh2 := CreateIn(lh, ps, path, name).value;
    CreatePreservesValid(lh, ps, path, name);
    assert Interfaces.Valid(InterfaceAt(lh, ps));
    assert Interfaces.Valid(InterfaceAt(lh2, ps));
  }

  /** The same, through the path: listing the interface's path after `create` shows the
      new address along with the old ones. */
  lemma CreateThenList(lh: LocalHost, path: string, name: string)
    requires LocalHosts.Valid(lh)
    requires ParsePath(lh, path).Success? && LevelOf(ParsePath(lh, path).value) == InterfaceLevel
    requires Create(lh, path, name).Success?
    ensures List(lh, path).Success?
    ensures List(Create(lh, path, name).value, path) == Success(List(lh, path).value + {name})
  {
    var ps := ParsePath(lh, path).value;
    var lh2 := CreateIn(lh, ps, path, name).value;
    CreatedHostIsListed(lh, ps, path, name);
    InterfacePathStable(lh, lh2, path);
  }

  /** Creating the same host twice: the second attempt is refused as a duplicate and
      quotes the path as given. */
  lemma CreateHostTwice(lh: LocalHost, path: string, name: string)
    requires ParsePath(lh, path).Success? && LevelOf(ParsePath(lh, path).value) == InterfaceLevel
    requires Create(lh, path, name).Success?
    ensures Create(Create(lh, path, name).value, path, name) == Failure(HostExists(path, name))
  {
    var ps := ParsePath(lh, path).value;
    var lh2 := CreateIn(lh, ps, path, name).value;
    InterfacePathStable(lh, lh2, path);
    assert name in InterfaceAt(lh2, ps).hosts;
  }
}
