/** `archer/core/localhost.py`: the root of the topology, holding the interfaces and
    the job registry. */
module LocalHosts {
  import opened Wrappers
  import Interfaces
  import Jobs

  datatype LocalHost = LocalHost(
    username: string,
    hostname: string,
    interfaces: map<string, Interfaces.Interface>,
    jobs: map<int, Jobs.Job>)

  /** Every interface filed under its own name, and valid. */
  predicate Valid(lh: LocalHost) {
    forall name :: name in lh.interfaces ==>
      lh.interfaces[name].name == name && Interfaces.Valid(lh.interfaces[name])
  }

  /** Filing a valid interface under its own name keeps a local host valid. */
  lemma FileInterfaceValid(lh: LocalHost, i: Interfaces.Interface)
    requires Valid(lh) && Interfaces.Valid(i)
    ensures Valid(lh.(interfaces := lh.interfaces[i.name := i]))
  {
  }

  /** `LocalHost()`: empty user and host names, no interfaces, no jobs. Discovering the
      user, the host name and the interfaces from the system is not modelled. */
  function New(): (lh: LocalHost)
    ensures lh.interfaces == map[] && lh.jobs == map[]
    ensures lh.username == "" && lh.hostname == ""
    ensures Valid(lh)
  {
    LocalHost("", "", map[], map[])
  }

  /** The id `addJob` assigns: the source always assigns 0. */
  const AssignedJobId: int := 0

  /** `addJob(job)`: the job gets the id 0, is stored under it (replacing whatever was
      there) and is run; the rest of the registry and the topology are untouched. */
  function AddJob(lh: LocalHost, job: Jobs.Job): (r: LocalHost)
    ensures r.jobs.Keys == lh.jobs.Keys + {AssignedJobId}
    ensures r.jobs[AssignedJobId].id == Some(AssignedJobId)
    ensures Jobs.IsRunning(r.jobs[AssignedJobId])
    ensures r.jobs[AssignedJobId].pid == Some(Jobs.SpawnedPid)
    ensures r.jobs[AssignedJobId] == Jobs.Run(job.(id := Some(AssignedJobId)))
    ensures r.jobs[AssignedJobId].(id := job.id, pid := job.pid, state := job.state) == job
    ensures forall k :: k in lh.jobs && k != AssignedJobId ==> r.jobs[k] == lh.jobs[k]
    ensures r.(jobs := lh.jobs) == lh
  {
    var registered := job.(id := Some(AssignedJobId));
    lh.(jobs := lh.jobs[AssignedJobId := Jobs.Run(registered)])
  }

  /** Since the id is always 0, a second job replaces the first: the registry after two
      additions is the registry after the second alone. */
  lemma SecondJobReplacesFirst(lh: LocalHost, first: Jobs.Job, second: Jobs.Job)
    ensures AddJob(AddJob(lh, first), second) == AddJob(lh, second)
    ensures |AddJob(AddJob(lh, first), second).jobs| == |AddJob(lh, first).jobs|
  {
  }

  /** `jobsInContext(obj)`: the source's body is a placeholder that returns no jobs,
      whatever the device; the ids of the jobs it returns are given here. */
  function JobsInContext(lh: LocalHost, device: Option<Jobs.Device>): (ids: seq<int>)
    ensures forall k :: 0 <= k < |ids| ==> ids[k] in lh.jobs
  {
    []
  }
}
