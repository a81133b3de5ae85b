/**
  The statistics table of monitor.go: one `Stats` record per task id, whose
  counters and flags are updated in place, and getters that hand out copies.
*/
module TaskMonitor {
  import opened Wrappers
  import opened Calendar

  /** The fields of one statistics record. */
  datatype StatsValue = StatsValue(
    id: string,
    schedule: string,
    runCount: int,
    successCount: int,
    lastRun: DateTime,
    isRunning: bool,
    createdAt: DateTime)

  /** A freshly added task: no runs, not running, never run. */
  function Initial(id: string, schedule: string, createdAt: DateTime): StatsValue {
    StatsValue(id, schedule, 0, 0, Zero, false, createdAt)
  }

  /** The counters are consistent: successes are among the runs. */
  predicate Consistent(v: StatsValue) {
    0 <= v.successCount <= v.runCount
  }

  /** One execution recorded: one more run, one more success when it succeeded, last run now. */
  function Recorded(v: StatsValue, success: bool, now: DateTime): (r: StatsValue)
    ensures r.runCount == v.runCount + 1
    ensures r.successCount == v.successCount + (if success then 1 else 0)
    ensures r.lastRun == now
    ensures r.(runCount := v.runCount, successCount := v.successCount, lastRun := v.lastRun) == v
    ensures Consistent(v) ==> Consistent(r)
  {
    v.(runCount := v.runCount + 1,
       successCount := if success then v.successCount + 1 else v.successCount,
       lastRun := now)
  }

  /** The counters after recording `outcomes` in order, each true for a success. */
  function RecordedAll(v: StatsValue, outcomes: seq<bool>, now: DateTime): StatsValue
  {
    if outcomes == [] then v
    else Recorded(RecordedAll(v, outcomes[..|outcomes| - 1], now), outcomes[|outcomes| - 1], now)
  }

  function Successes(outcomes: seq<bool>): nat {
    if outcomes == [] then 0
    else Successes(outcomes[..|outcomes| - 1]) + (if outcomes[|outcomes| - 1] then 1 else 0)
  }

  /**
    From a fresh record, the run count is the number of recorded executions
    and the success count the number of successful ones.
  */
  lemma {:induction false} CountsAfterRecording(id: string, schedule: string, createdAt: DateTime,
                                                outcomes: seq<bool>, now: DateTime)
    ensures var r := RecordedAll(Initial(id, schedule, createdAt), outcomes, now);
      r.runCount == |outcomes| && r.successCount == Successes(outcomes) && Consistent(r)
  {
    if outcomes != [] {
      CountsAfterRecording(id, schedule, createdAt, outcomes[..|outcomes| - 1], now);
    }
  }

  class Stats {
    var id: string
    var schedule: string
    var runCount: int
    var successCount: int
    var lastRun: DateTime
    var isRunning: bool
    var createdAt: DateTime

    function Value(): StatsValue
      reads this
    {
      StatsValue(id, schedule, runCount, successCount, lastRun, isRunning, createdAt)
    }

    constructor (v: StatsValue)
      ensures Value() == v
    {
      id, schedule := v.id, v.schedule;
      runCount, successCount := v.runCount, v.successCount;
      lastRun, isRunning, createdAt := v.lastRun, v.isRunning, v.createdAt;
    }

    /** The in-place counter and timestamp updates of recordExecution. */
    method Record(success: bool, now: DateTime)
      modifies this
      ensures Value() == Recorded(old(Value()), success, now)
    {
      runCount := runCount + 1;
      if success {
        successCount := successCount + 1;
      }
      lastRun := now;
    }
  }

  class Monitor {
    var stats: map<string, Stats>

    /** Each record sits under its own id, holds consistent counters and is shared by no other id. */
    ghost predicate Valid()
      reads this, stats.Values
    {
      && (forall id :: id in stats ==> stats[id].id == id && Consistent(stats[id].Value()))
      && (forall a, b :: a in stats && b in stats && a != b ==> stats[a] != stats[b])
    }

    /** The table's contents as values. */
    ghost function Contents(): map<string, StatsValue>
      reads this, stats.Values
    {
      map id | id in stats :: stats[id].Value()
    }

    constructor ()
      ensures Valid() && Contents() == map[]
    {
      stats := map[];
    }

    /** addTask: a new record with zero counters, replacing any record under the id. */
    method AddTask(id: string, schedule: string, createdAt: DateTime)
      requires Valid()
      modifies this
      ensures Valid()
      ensures Contents() == old(Contents())[id := Initial(id, schedule, createdAt)]
      ensures id in stats && fresh(stats[id])
    {
      var s := new Stats(Initial(id, schedule, createdAt));
      stats := stats[id := s];
    }

    /** removeTask: drop the record under the id, if any. */
    method RemoveTask(id: string)
      requires Valid()
      modifies this
      ensures Valid()
      ensures Contents() == old(Contents()) - {id}
    {
      stats := stats - {id};
    }

    /**
      recordExecution: for a known id, one more run, one more success when it
      succeeded, and the last run set to `now`; an unknown id changes nothing.
      The duration argument is not used.
    */
    method RecordExecution(id: string, duration: int, success: bool, now: DateTime)
      requires Valid()
      modifies if id in stats then {stats[id]} else {}
      ensures Valid()
      ensures id !in old(Contents()) ==> Contents() == old(Contents())
      ensures id in old(Contents()) ==> Contents() == old(Contents())[id := Recorded(old(Contents())[id], success, now)]
    {
      if id !in stats {
        return;
      }
      var s := stats[id];
      s.Record(success, now);
      forall other | other in stats && other != id ensures stats[other] != s {
      }
    }

    /** setRunning: set only the running flag of a known id. */
    method SetRunning(id: string, running: bool)
      requires Valid()
      modifies if id in stats then {stats[id]} else {}
      ensures Valid()
      ensures id !in old(Contents()) ==> Contents() == old(Contents())
      ensures id in old(Contents()) ==> Contents() == old(Contents())[id := old(Contents())[id].(isRunning := running)]
    {
      if id in stats {
        var s := stats[id];
        s.isRunning := running;
        forall other | other in stats && other != id ensures stats[other] != s {
        }
      }
    }

    /** GetStats: a fresh copy of the record under the id, or nothing. */
    method GetStats(id: string) returns (r: Option<Stats>)
      ensures id in Contents() <==> r.Some?
      ensures r.Some? ==> fresh(r.value) && r.value.Value() == Contents()[id]
    {
      if id !in stats {
        return None;
      }
      var copy := new Stats(stats[id].Value());
      return Some(copy);
    }

    /** GetAllStats: a fresh copy of every record, under the same ids. */
    method GetAllStats() returns (r: map<string, Stats>)
      ensures r.Keys == Contents().Keys
      ensures forall id :: id in r ==> fresh(r[id]) && r[id].Value() == Contents()[id]
    {
      r := map[];
      var remaining := stats.Keys;
      while remaining != {}
        invariant remaining <= stats.Keys
        invariant r.Keys == stats.Keys - remaining
        invariant forall id :: id in r ==> fresh(r[id]) && r[id].Value() == stats[id].Value()
        decreases remaining
      {
        var id :| id in remaining;
        var copy := new Stats(stats[id].Value());
        r := r[id := copy];
        remaining := remaining - {id};
      }
    }
  }

  /** A copy handed out by GetStats does not follow later updates of the table. */
  method CopiesAreSnapshots(createdAt: DateTime, now: DateTime) returns (copy: StatsValue, current: StatsValue)
    ensures copy.runCount == 0 && current.runCount == 1 && current.successCount == 1
  {
    var m := new Monitor();
    m.AddTask("job", "* * * * * *", createdAt);
    var got := m.GetStats("job");
    m.RecordExecution("job", 0, true, now);
    var after := m.GetStats("job");
    copy := got.value.Value();
    current := after.value.Value();
  }
}
