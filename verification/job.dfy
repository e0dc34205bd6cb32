/** `archer/core/job.py`: a job's identity, context and run-state. The subprocess it
    drives (reading, writing, signalling, parsing its output) is not modelled. */
module Jobs {
  import opened Wrappers

  /** A device of the topology named by the keys that lead to it from the root: the
      interface name, then the host address, then the protocol and port number. */
  datatype Device =
    | InterfaceDevice(iface: string)
    | HostDevice(iface: string, ip: string)
    | PortDevice(iface: string, ip: string, proto: string, num: int)

  /** `Job.context`: context key -> device, None standing for Python's None. */
  type Context = map<string, Option<Device>>

  /** The keys every job context ends up with. */
  const ContextKeys: set<string> := {"interface", "host", "port"}

  /** The two states the source ever assigns: "init" and "running". */
  datatype State = Init | Running

  /** A job. `jid` is set to None by the constructor and never written again; the id
      the registry assigns lives in a separate attribute `id`, absent (None here) until
      the job is registered. */
  datatype Job = Job(
    name: string,
    context: Context,
    jid: Option<int>,
    id: Option<int>,
    pid: Option<int>,
    state: State,
    returnCode: Option<int>)

  /** The process id `run()` records; the source writes a fixed 0 where the spawned
      process's id would go. */
  const SpawnedPid: int := 0

  /** `Job(name, context)`: every missing context key is added with value None, every
      present key keeps its value; the job starts in "init" with no ids and no return
      code. */
  function New(name: string, context: Context): (j: Job)
    ensures j.context.Keys == context.Keys + ContextKeys
    ensures forall k :: k in context ==> j.context[k] == context[k]
    ensures forall k :: k in ContextKeys && k !in context ==> j.context[k] == None
    ensures j.name == name && j.state == Init
    ensures j.jid == None && j.id == None && j.pid == None && j.returnCode == None
  {
    var full := map k | k in context.Keys + ContextKeys :: if k in context then context[k] else None;
    Job(name, full, None, None, None, Init, None)
  }

  /** `isRunning()`: whether the job is in the running state, that is, has left "init". */
  predicate IsRunning(j: Job)
    ensures IsRunning(j) <==> j.state != Init
  {
    j.state == Running
  }

  /** `run()`: the job is running and has a process id; name, context, ids and return
      code are kept. */
  function Run(j: Job): (r: Job)
    ensures IsRunning(r) && r.pid.Some?
    ensures r.(pid := j.pid, state := j.state) == j
  {
    j.(pid := Some(SpawnedPid), state := Running)
  }

  /** A fresh job is not running; a job that has been run is, and running it again
      changes nothing. */
  lemma RunLifecycle(name: string, context: Context)
    ensures !IsRunning(New(name, context))
    ensures IsRunning(Run(New(name, context)))
    ensures Run(Run(New(name, context))) == Run(New(name, context))
  {
  }
}
