/** `archer/core/interface.py`: a local network interface and the hosts discovered
    behind it. */
module Interfaces {
  import opened Wrappers
  import Hosts

  datatype Interface = Interface(
    name: string,
    mac: string,
    ip: string,
    mask: string,
    gateway: string,
    state: string,
    hosts: map<string, Hosts.Host>)

  /** The configuration fields of an interface, as the operating system reports them. */
  datatype Config = Config(mac: string, ip: string, mask: string, gateway: string, state: string)

  /** `Interface.DuplicateError` and `Interface.ObjectError`. */
  datatype Error = DuplicateError | ObjectError

  function ConfigOf(i: Interface): Config {
    Config(i.mac, i.ip, i.mask, i.gateway, i.state)
  }

  /** Every host filed under its own address, and valid. */
  predicate Valid(i: Interface) {
    forall ip :: ip in i.hosts ==> i.hosts[ip].ip == ip && Hosts.Valid(i.hosts[ip])
  }

  /** `Interface(name)`: the name is kept, every configuration field is the empty
      string and no host is known. */
  function New(name: string): (r: Interface)
    ensures r.name == name && r.hosts == map[]
    ensures ConfigOf(r) == Config("", "", "", "", "")
    ensures Valid(r)
  {
    Interface(name, "", "", "", "", "", map[])
  }

  /** `update()`, given the configuration the system reports now: the interface itself
      when nothing changed, otherwise an interface with the new configuration that keeps
      the name and inherits every host. */
  function Update(i: Interface, current: Config): (r: Interface)
    ensures ConfigOf(i) == current ==> r == i
    ensures r.name == i.name && r.hosts == i.hosts
    ensures ConfigOf(r) == current
  {
    if ConfigOf(i) == current then i
    else Interface(i.name, current.mac, current.ip, current.mask, current.gateway, current.state, i.hosts)
  }

  /** True if this very host is the one stored under its address. */
  predicate Owns(i: Interface, h: Hosts.Host) {
    h.ip in i.hosts && i.hosts[h.ip] == h
  }

  /** `addHost(host)`: fails with DuplicateError when its address is taken; otherwise
      files the host under its address and changes nothing else. */
  function AddHost(i: Interface, h: Hosts.Host): (r: Result<Interface, Error>)
    ensures r.Success? <==> h.ip !in i.hosts
    ensures r.Failure? ==> r.error == DuplicateError
    ensures r.Success? ==> Owns(r.value, h) && r.value.(hosts := i.hosts) == i
    ensures r.Success? ==> r.value.hosts.Keys == i.hosts.Keys + {h.ip}
    ensures r.Success? ==> forall ip :: ip in i.hosts ==> r.value.hosts[ip] == i.hosts[ip]
  {
    if h.ip in i.hosts then Failure(DuplicateError)
    else Success(i.(hosts := i.hosts[h.ip := h]))
  }

  /** `drop(host)`: fails with ObjectError unless the interface holds this host;
      otherwise forgets its address and changes nothing else. */
  function Drop(i: Interface, h: Hosts.Host): (r: Result<Interface, Error>)
    ensures r.Success? <==> Owns(i, h)
    ensures r.Failure? ==> r.error == ObjectError
    ensures r.Success? ==> r.value.(hosts := i.hosts) == i
    ensures r.Success? ==> r.value.hosts.Keys == i.hosts.Keys - {h.ip}
    ensures r.Success? ==> forall ip :: ip in r.value.hosts ==> r.value.hosts[ip] == i.hosts[ip]
  {
    if !Owns(i, h) then Failure(ObjectError)
    else Success(i.(hosts := i.hosts - {h.ip}))
  }

  /** Filing a valid host under its own address keeps an interface valid. */
  lemma FileHostValid(i: Interface, h: Hosts.Host)
    requires Valid(i) && Hosts.Valid(h)
    ensures Valid(i.(hosts := i.hosts[h.ip := h]))
  {
  }

  /** Adding a valid host and dropping a host keep an interface valid. */
  lemma HostOperationsPreserveValid(i: Interface, h: Hosts.Host)
    requires Valid(i)
    ensures Hosts.Valid(h) && AddHost(i, h).Success? ==> Valid(AddHost(i, h).value)
    ensures Drop(i, h).Success? ==> Valid(Drop(i, h).value)
  {
    if Hosts.Valid(h) && AddHost(i, h).Success? {
      FileHostValid(i, h);
    }
  }

  /** Dropping a host just added gives the interface back. */
  lemma AddThenDrop(i: Interface, h: Hosts.Host)
    requires AddHost(i, h).Success?
    ensures Drop(AddHost(i, h).value, h) == Success(i)
  {
    assert i.hosts[h.ip := h] - {h.ip} == i.hosts;
  }

  /** Adding back a host just dropped gives the interface back. */
  lemma DropThenAdd(i: Interface, h: Hosts.Host)
    requires Drop(i, h).Success?
    ensures AddHost(Drop(i, h).value, h) == Success(i)
  {
    assert (i.hosts - {h.ip})[h.ip := h] == i.hosts;
  }
}
