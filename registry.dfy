/**
  The job registry of registry.go as an explicit object: jobs keyed by the
  name they report, duplicate names refused, and copy-out listings.
*/
module JobRegistration {
  import opened Wrappers
  import opened Collections

  /** The error RegisterJob reports for a name that is taken. */
  datatype RegistryError = AlreadyRegistered(name: string)

  /** The table after registering `job`: unchanged when its name is taken, extended otherwise. */
  function Registered<J>(jobs: map<string, J>, name: string, job: J): (r: map<string, J>)
    ensures name in r && (name !in jobs ==> r[name] == job)
    ensures forall k :: k in jobs ==> k in r && r[k] == jobs[k]
    ensures r.Keys == jobs.Keys + {name}
  {
    if name in jobs then jobs else jobs[name := job]
  }

  class JobRegistry<J> {
    /** The name a job reports, its Name() method. */
    const nameOf: J -> string
    var jobs: map<string, J>

    /** Every job is stored under the name it reports. */
    ghost predicate Valid()
      reads this
    {
      forall k :: k in jobs ==> nameOf(jobs[k]) == k
    }

    constructor (nameOf: J -> string)
      ensures Valid() && jobs == map[] && this.nameOf == nameOf
    {
      this.nameOf := nameOf;
      jobs := map[];
    }

    /** RegisterJob: store the job under its name, or refuse a name already taken. */
    method RegisterJob(job: J) returns (err: Option<RegistryError>)
      requires Valid()
      modifies this
      ensures Valid()
      ensures err == None <==> nameOf(job) !in old(jobs)
      ensures err != None ==> err == Some(AlreadyRegistered(nameOf(job))) && jobs == old(jobs)
      ensures jobs == Registered(old(jobs), nameOf(job), job)
    {
      var name := nameOf(job);
      if name in jobs {
        return Some(AlreadyRegistered(name));
      }
      jobs := jobs[name := job];
      return None;
    }

    /** SafeRegisterJob: register, reporting a refusal only to the log. */
    method SafeRegisterJob(job: J)
      requires Valid()
      modifies this
      ensures Valid()
      ensures jobs == Registered(old(jobs), nameOf(job), job)
    {
      var err := RegisterJob(job);
    }

    /** GetRegisteredJobs: a copy of the table, entry by entry. */
    method GetRegisteredJobs() returns (r: map<string, J>)
      ensures r == jobs
    {
      r := map[];
      var remaining := jobs.Keys;
      while remaining != {}
        invariant remaining <= jobs.Keys
        invariant r.Keys == jobs.Keys - remaining
        invariant forall k :: k in r ==> r[k] == jobs[k]
        decreases remaining
      {
        var k :| k in remaining;
        r := r[k := jobs[k]];
        remaining := remaining - {k};
      }
      assert r.Keys == jobs.Keys;
    }

    /** ListRegistered: every registered name once, in no particular order. */
    method ListRegistered() returns (ids: seq<string>)
      ensures Distinct(ids)
      ensures forall k :: k in ids <==> k in jobs
      ensures |ids| == |jobs|
    {
      ids := [];
      var remaining := jobs.Keys;
      while remaining != {}
        invariant remaining <= jobs.Keys
        invariant Distinct(ids)
        invariant forall k :: k in ids <==> k in jobs && k !in remaining
        decreases remaining
      {
        var k :| k in remaining;
        DistinctSnoc(ids, k);
        ids := ids + [k];
        remaining := remaining - {k};
      }
      DistinctCard(ids);
      assert (set k | k in ids) == jobs.Keys;
    }

    /** GetRegisteredJob: the job stored under the id, if any. */
    method GetRegisteredJob(id: string) returns (r: Option<J>)
      ensures r.Some? <==> id in jobs
      ensures r.Some? ==> r.value == jobs[id]
    {
      if id in jobs {
        return Some(jobs[id]);
      }
      return None;
    }
  }

  /** Registering two jobs that report the same name keeps the first. */
  method SecondRegistrationRefused() returns (first: Option<RegistryError>, second: Option<RegistryError>, kept: Option<int>)
    ensures first == None && second == Some(AlreadyRegistered("backup"))
    ensures kept == Some(1)
  {
    var reg := new JobRegistry<int>((j: int) => "backup");
    first := reg.RegisterJob(1);
    second := reg.RegisterJob(2);
    kept := reg.GetRegisteredJob("backup");
  }
}
