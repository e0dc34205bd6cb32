# archer: network topology and path-addressed controller, in Dafny

This project models the core of archer, a network-reconnaissance front end. The
model covers two parts:

- The in-memory topology. A `LocalHost` holds its interfaces by name. Each interface
  holds the hosts seen behind it by IP address. Each host holds its TCP and UDP
  ports by number.
- The `Controller` facade. It addresses a device by a path such as
  `/eth0/10.0.0.5/tcp/22`, and lists, stats, creates and deletes devices.

Everything is an immutable value. `Controller.Create` and `Controller.Delete` return
the new topology instead of mutating objects in place. Every operation that can fail
returns a `Result`.

Modules follow the source files:

| module | file | source |
|---|---|---|
| `Wrappers` | wrappers.dfy | `Option` and `Result` |
| `Text` | text.dfy | the Python built-ins the core relies on: `str.strip`, `str.split`, `str.lower`, `int()`, `str()` |
| `Util` | util.dfy | `archer/util.py` |
| `Ports` | port.dfy | `archer/core/port.py` |
| `Hosts` | host.dfy | `archer/core/host.py` |
| `Interfaces` | interface.dfy | `archer/core/interface.py` |
| `Jobs` | job.dfy | `archer/core/job.py` |
| `LocalHosts` | localhost.dfy | `archer/core/localhost.py` |
| `Controller` | controller.dfy | `archer/controller.py` |

### Path resolution
`Controller.ParsePath` models `_parsePath` as the source's left-to-right loop
(`Step`, `Resolve`). It is proved equal to a separate positional definition,
`ByPosition`: the k-th non-empty segment is the key at level k, looked up in the map
of the level before it. The resolved record `PathStat` holds the keys (interface
name, host address, lower-cased protocol, port number), not the objects. The
objects are read back with `InterfaceAt`, `HostAt` and `PortAt`.

### Source behaviour the model follows
The model follows the code where the code differs from what its comments and
documentation describe, except the empty-bodied methods listed last, which follow
their documentation. A Python exception that is not a `Controller.Error` becomes
`Controller.Unhandled`: a failure with no message, before anything changes. This
gives the following behaviour.

- `list` at a protocol and `listat` at a protocol fail as soon as the protocol has a
  port, because they read `port.number` and a Port stores `num`. `stat` of a port
  fails for the same reason.
- `listat` at a host fails as soon as the host has a port, because `allPorts` yields
  port numbers and `_toJson` rejects them.
- In `create` under a protocol, a name that is not an integer is `Unhandled`, and so
  is a number outside 1..65535. The handler names `Port.InvalidNumber`, which does not
  exist.
- `delete` of a host is `Unhandled`, because the controller calls `dropHost` and
  Interface only has `drop`. Only a port can be deleted.
- `_getJob` finds the job but returns None (`Controller.GetJob`).
- The bodies of `addPort`, `dropPort`, `addHost`, `drop`, `update` and `isRunning`
  are empty in the source. They are modelled by the behaviour their documentation
  states: duplicate and foreign-object errors, filing under the key.

## Model

| member | source | states |
|---|---|---|
| `Text.Strip` | archer/controller.py:325 | `path.strip("/")`: the result is the path with a run of leading and a run of trailing slashes removed and nothing else, and a non-empty result neither starts nor ends with `/`, so exactly the framing slashes go; the result is empty exactly when the path is all slashes |
| `Text.Split` | archer/controller.py:325 | `split("/")` yields at least one part and no part contains the separator |
| `Text.SplitJoin` | archer/util.py:11 | splitting a join of separator-free parts gives the parts back |
| `Text.JoinSplit` | archer/util.py:11 | joining the parts of a split gives the string back |
| `Text.ParseInt` | archer/util.py:11 | `int()` accepts exactly an optional sign followed by one or more ASCII digits, and an accepted text holds no `/` or `.` |
| `Text.ParseIntToString` | archer/controller.py:353-361 | `int()` inverts the decimal rendering of any integer |
| `Text.ParseIntValue` | archer/controller.py:353-361 | the value `int()` gives a digit run is its decimal value; a leading `+` or a leading zero leaves it unchanged (`022` and `+22` are 22) and a leading `-` negates it |
| `Text.LeadingZero` | archer/controller.py:353-361 | a leading zero does not change the decimal value of a run of digits |
| `Text.Lower` | archer/controller.py:347 | `dev.lower()`: every ASCII capital becomes its lower-case letter (code point plus 32), every other character is kept, and the length is unchanged |
| `Text.LowerIdempotent` | archer/controller.py:347 | lower-casing a lower-cased segment changes nothing |
| `Util.ParseAll` | archer/util.py:11 | `[int(s) for s in parts]`: fails exactly when some part is not an integer; otherwise one value per part, each the value `int()` gives that part |
| `Util.IsIp` | archer/util.py:6-14 | true exactly when the text splits on `.` into four parts, each an integer in 0..255 |
| `Util.FormatIpIsIp` | archer/util.py:11-14 | a dotted quad of four integers is accepted exactly when all four are in 0..255 |
| `Util.IpIsPathSegment` | archer/util.py:11-14 | an accepted address is non-empty and holds no `/`, so it can stand as one path segment |
| `Util.LowestAddress` | archer/util.py:14 | `0.0.0.0` is accepted |
| `Util.HighestAddress` | archer/util.py:14 | `255.255.255.255` is accepted |
| `Util.OctetOverflow` | archer/util.py:14 | `256.0.0.0` is rejected |
| `Util.LettersRejected` | archer/util.py:10-13 | a part that is not an integer (`a.b.c.d`) makes the address invalid |
| `Util.EmptyPartRejected` | archer/util.py:10-13 | an empty part (`1..2.3`) makes the address invalid |
| `Util.TooFewParts` | archer/util.py:14 | three in-range parts (`1.2.3`) are rejected |
| `Util.TooManyParts` | archer/util.py:14 | five in-range parts (`1.2.3.4.5`) are rejected |
| `Util.FirstPartRejected` | archer/util.py:10-14 | an address whose first part is not an integer in 0..255 is rejected, whatever follows |
| `Util.NonNumericFirstPart` | archer/util.py:10-13 | an address that starts with a character that is not a digit or a sign, followed by a dot, is rejected |
| `Ports.New` | archer/core/port.py:20-37 | succeeds exactly for a number in 1..65535 with protocol exactly `tcp` or `udp`; a bad number is NumberError whatever the protocol; on success number and protocol are stored as given, no last activity, state "unknown" |
| `Ports.NumberCheckedFirst` | archer/core/port.py:29-32 | an invalid number with an invalid protocol is NumberError; the protocol check is case-sensitive |
| `Hosts.New` | archer/core/host.py:26-49 | fails with IPError exactly when the address is invalid; otherwise the address is kept verbatim, mac/os/last activity unknown, state "unknown", both protocol maps empty |
| `Hosts.PortFiled` | archer/core/host.py:47-49 | in a valid host each port is filed under its own protocol and number and so belongs to the host |
| `Hosts.AllPorts` | archer/core/host.py:52-56 | yields one entry per stored port, its number; the count of a number is how many protocol maps hold it |
| `Hosts.AddPort` | archer/core/host.py:59-64 | DuplicateError exactly when the protocol/number pair is taken; otherwise the host owns the port and every other entry and field is unchanged |
| `Hosts.DropPort` | archer/core/host.py:67-71 | ObjectError exactly when the host does not own the port; otherwise that pair is gone and nothing else changes |
| `Hosts.PortOperationsPreserveValid` | archer/core/host.py:47-71 | adding and dropping ports keep every port filed under its own protocol and number |
| `Hosts.AddThenDrop` | archer/core/host.py:59-71 | dropping a port just added restores the host |
| `Hosts.DropThenAdd` | archer/core/host.py:59-71 | adding back a port just dropped restores the host |
| `Interfaces.New` | archer/core/interface.py:24-38 | the name is kept, every configuration field is empty and no host is known |
| `Interfaces.Update` | archer/core/interface.py:41-48 | unchanged configuration gives the interface itself; otherwise the new interface has the current configuration, the same name and inherits every host |
| `Interfaces.AddHost` | archer/core/interface.py:51-55 | DuplicateError exactly when the address is taken; otherwise `hosts[host.ip]` is the host and the rest is unchanged |
| `Interfaces.Drop` | archer/core/interface.py:58-62 | ObjectError exactly when the interface does not hold this host; otherwise its address is gone and nothing else changes |
| `Interfaces.HostOperationsPreserveValid` | archer/core/interface.py:38-62 | adding a valid host and dropping a host keep every host valid and filed under its own address |
| `Interfaces.AddThenDrop` | archer/core/interface.py:51-62 | dropping a host just added restores the interface |
| `Interfaces.DropThenAdd` | archer/core/interface.py:51-62 | adding back a host just dropped restores the interface |
| `Jobs.New` | archer/core/job.py:42-52 | missing `interface`, `host` and `port` context keys are added as None and present keys keep their values; name kept, state init, no ids, no return code |
| `Jobs.IsRunning` | archer/core/job.py:94-97 | a job is running exactly when it has left the "init" state |
| `Jobs.Run` | archer/core/job.py:55-62 | the job is running with a process id, and nothing but process id and state changes |
| `Jobs.RunLifecycle` | archer/core/job.py:49-97 | a fresh job is not running, a job that was run is, and running again changes nothing |
| `LocalHosts.New` | archer/core/localhost.py:9-18 | no interfaces, no jobs, empty user and host names, and valid |
| `LocalHosts.AddJob` | archer/core/localhost.py:21-34 | the job is stored under id 0 with that id, is exactly that job run (running, with the spawned process id 0), keeps its name, context and return code; other jobs and the topology are unchanged |
| `LocalHosts.SecondJobReplacesFirst` | archer/core/localhost.py:27-28 | since the id is always 0, a second job replaces the first and the registry does not grow |
| `LocalHosts.JobsInContext` | archer/core/localhost.py:47-54 | every id returned names a registered job |
| `Controller.Live` | archer/controller.py:325-328 | resolution consumes the prefix of non-empty segments and stops at the first empty one |
| `Controller.Step` | archer/controller.py:330-365 | one segment sets exactly the next level and keeps every level already set: the interface name or host address as typed, the protocol lower-cased, the port as `int()` parses it; the record still resolves; after a port the segment is junk |
| `Controller.Resolve` | archer/controller.py:325-367 | the loop over the segments returns only records that resolve in the topology, layered level by level |
| `Controller.ResolveLive` | archer/controller.py:325-328 | nothing after the first empty segment affects the result |
| `Controller.ResolveByPosition` | archer/controller.py:325-367 | the loop agrees with the positional definition: the k-th segment is the key at level k, with "interface not found", "host not found", "unknown transport proto", "invalid port number", "port not found" and "junk path component" for the first level that fails |
| `Controller.ParsePath` | archer/controller.py:308-367 | `_parsePath` equals the positional definition on the live segments, and a result resolves in the topology |
| `Controller.SlashesAreRoot` | archer/controller.py:317-328 | any path made only of slashes names the local host (all four fields None) |
| `Controller.RootPaths` | archer/controller.py:317-328 | `""` and `"/"` name the local host (any run of slashes does, by `SlashesAreRoot`) |
| `Controller.ParseFormat` | archer/controller.py:325-367 | the canonical path of any resolvable record resolves back to that record |
| `Controller.ProtoIsLowered` | archer/controller.py:346-349 | a `TCP` segment resolves to the `tcp` protocol |
| `Controller.ListDevice` | archer/controller.py:34-54 | port: nothing; protocol: nothing when it has no ports, otherwise Unhandled; host: `tcp` and `udp`; interface: the host addresses; root: the interface names |
| `Controller.List` | archer/controller.py:26-54 | a resolution error is returned unchanged; otherwise the listing of the device the path names |
| `Controller.LocalHostJson` | archer/controller.py:375-379 | a local host record whose `username` and `hostname` are the local host's |
| `Controller.LocalHostJsonKeeps` | archer/controller.py:375-379 | two local hosts project alike exactly when their user and host names agree |
| `Controller.InterfaceJson` | archer/controller.py:381-389 | an interface record whose `name`, `ip`, `mask`, `mac`, `gateway` and `state` are the interface's attributes of the same name |
| `Controller.InterfaceJsonKeeps` | archer/controller.py:381-389 | two interfaces project alike exactly when name and configuration agree; the hosts are not part of the record |
| `Controller.HostJson` | archer/controller.py:391-398 | a host record whose `ip`, `mac`, `os`, `last_activity` and `state` are the host's attributes of the same name |
| `Controller.HostJsonKeeps` | archer/controller.py:391-398 | two hosts project alike exactly when they agree on every field but the ports |
| `Controller.Message` | archer/controller.py:123-440 | every error text ends with what it reports: the segment as typed, `proto/num`, the device kind, the address, `path/name` or the job id |
| `Controller.StatDevice` | archer/controller.py:63-75 | port: Unhandled; protocol: `{name}` of `tcp` or `udp`; host, interface, root: the record of that device, naming the path's key |
| `Controller.Stat` | archer/controller.py:57-75 | a resolution error is returned unchanged; otherwise the record of the device the path names |
| `Controller.ListAtDevice` | archer/controller.py:90-110 | port: nothing; protocol and host: nothing when empty, otherwise Unhandled; interface and root: a record for each host or interface, and only records of that kind; under validity exactly the children's records (see `Controller.ListAtIsChildRecords`) |
| `Controller.ListAt` | archer/controller.py:78-110 | a resolution error is returned unchanged; otherwise the records of the subdevices |
| `Controller.StatOfChild` | archer/controller.py:63-75 | stat of a listed subdevice's canonical path is its record |
| `Controller.ListAtIsChildRecords` | archer/controller.py:104-110 | above the host level, listat gives exactly the records of the listed subdevices |
| `Controller.ListAtIsStatOfListed` | archer/controller.py:78-85 | above the host level, listat equals list followed by stat of each listed subdevice |
| `Controller.JobScope` | archer/controller.py:206-211 | the job context is the deepest of port, host and interface; a protocol path counts as its host; None at the root |
| `Controller.JobIds` | archer/controller.py:197-215 | fails exactly when the path does not resolve, with its error; every id returned is a registered job |
| `Controller.GetJob` | archer/controller.py:432-439 | "no job found" exactly for an unknown id; a known id gives None |
| `Controller.CreateIn` | archer/controller.py:121-153 | under an interface: "invalid ip address", "host exists" or a fresh host filed under the name, nothing else changed; under a protocol: a new port exactly for a free number in range, "port exists" for a taken one, Unhandled for a bad number; "can not create ..." elsewhere |
| `Controller.Create` | archer/controller.py:113-153 | a resolution error is returned unchanged; otherwise the create of the device the path names |
| `Controller.PortFiledUnderKeys` | archer/controller.py:164-166 | in a valid topology the port a path reaches carries the path's protocol and number and belongs to its host |
| `Controller.DeleteDevice` | archer/controller.py:164-182 | port: removed, nothing else changed, always possible in a valid topology; protocol, interface, root: "can not drop ..."; host: Unhandled |
| `Controller.Delete` | archer/controller.py:156-182 | a resolution error is returned unchanged; otherwise the delete of the device the path names |
| `Controller.CreatePreservesValid` | archer/controller.py:121-153 | create keeps a valid topology valid |
| `Controller.DeletePreservesValid` | archer/controller.py:164-166 | delete keeps a valid topology valid |
| `Controller.CreateThenDelete` | archer/controller.py:126-166 | deleting the canonical path of a port just created restores the topology |
| `Controller.DropAddedPort` | archer/controller.py:126-132 | under a resolved protocol, a port just filed resolves at its number, and deleting it restores the topology |
| `Controller.InterfacePathStable` | archer/controller.py:325-335 | a path ending at an interface resolves alike in topologies with the same interface names |
| `Controller.CreatedHostIsListed` | archer/controller.py:141-149 | creating a host adds exactly its address to the interface's listing |
| `Controller.CreateThenList` | archer/controller.py:48-51 | listing an interface's path after create shows the new address with the old ones |
| `Controller.CreateHostTwice` | archer/controller.py:141-149 | creating the same host twice is refused with "host exists", quoting the path as given |

## Left out

- `archer/core/muxjob.py`: every method is a stub, and its constructor names undefined identifiers.
- Job `update`, `read`, `write` and `signal`: subprocess I/O and operating-system signals, and empty in the source.
- The controller's `info`, `signal`, `read` and `write`: outside the modelled core. Each starts from `_getJob`, which returns None for a registered id (see `Controller.GetJob`), so each raises before it reaches a job.
- The controller's `drop`: it hands the job `_getJob` returns to `LocalHost.dropJob`, which `LocalHost` does not define, so there is no behaviour to model past `Controller.GetJob`.
- `run` and `runMux` of the controller: manifest loading is not part of this model. `LocalHosts.AddJob` models the registration they end in.
- `LocalHost.update` and `findParents`: placeholders; `LocalHost.update` returns no events.
- `Controller.update`: it renames each event's `object` key to `device`, but since `LocalHost.update` returns no events it always returns an empty list and never reaches `_pathToObject`.
- `_pathToObject`: unreachable from `Controller.update` (above), and defective as written: its `elif` chain only ever records the first name, and one branch applies `len` to the comparison `devs >= 3`.
- `LocalHosts.JobsInContext`: its source body returns no jobs for any device, and the model does the same. Its contract only says that what it returns is registered.
- `Controller.JobIds`: built on `LocalHosts.JobsInContext`, so it states only resolution failure and that every id returned is registered, not which jobs a device has.
- The `ObjectError` that `addJob` documents for a context outside the topology: the source never raises it, and neither does the model.
- Interface, user and host-name discovery: system calls. `LocalHosts.New` starts empty, and `Interfaces.Update` takes the current configuration as a parameter.
- Python `int()` also accepts surrounding whitespace, underscores between digits and non-ASCII digits. `Text.ParseInt` accepts only an optional sign followed by ASCII digits.
- `Text.Lower` lower-cases ASCII letters only, not the full Unicode mapping of `str.lower`.
- The "host not found" message prints the interface object's default representation. The model prints the interface name instead.
- Dictionary order: `list` and `listat` return sets, and `allPorts` a multiset. The model does not fix an order.
- Object identity: "belongs to" in `dropPort` and `drop` is value equality of the stored entry.
