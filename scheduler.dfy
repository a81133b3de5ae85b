/**
  The task table of scheduler.go: job models (`jobModel`), the options that
  configure them (options.go), their admission and counter steps, their run
  loop, and the scheduler's name-to-model table with its registration and
  stop operations. Contexts are reduced to a `cancelled` flag; goroutines,
  timers and the job callbacks themselves are not modelled.
*/
module Scheduler {
  import opened Wrappers
  import opened Calendar
  import opened CronParse

  /** The errors scheduler.go returns. */
  datatype SchedError = ErrNotFoundJob | ErrAlreadyRegister | ErrJobDOFuncNil | ErrInvalidSpec

  /** The job options of options.go; each sets one field of a job model. */
  datatype JobOption =
    | WithAsync(async: bool)
    | WithTryCatch(tryCatch: bool)
    | WithTimeout(timeout: int)
    | WithMaxConcurrent(maxConcurrent: int)

  /** The fields of a job model the options write. */
  datatype Settings = Settings(async: bool, tryCatch: bool, timeout: int, maxConcurrent: int)

  /** The zero values a job model starts with. */
  const DefaultSettings := Settings(false, false, 0, 0)

  /** The two options write the same field. */
  predicate SameKind(a: JobOption, b: JobOption) {
    match (a, b)
    case (WithAsync(_), WithAsync(_)) => true
    case (WithTryCatch(_), WithTryCatch(_)) => true
    case (WithTimeout(_), WithTimeout(_)) => true
    case (WithMaxConcurrent(_), WithMaxConcurrent(_)) => true
    case _ => false
  }

  /** The field `opt` writes holds the value `opt` carries. */
  predicate Sets(opt: JobOption, s: Settings) {
    match opt
    case WithAsync(b) => s.async == b
    case WithTryCatch(b) => s.tryCatch == b
    case WithTimeout(d) => s.timeout == d
    case WithMaxConcurrent(n) => s.maxConcurrent == n
  }

  /** One option applied: its own field takes its value, every other field is kept. */
  function Apply(s: Settings, opt: JobOption): (r: Settings)
    ensures Sets(opt, r)
    ensures forall k :: !SameKind(k, opt) ==> (Sets(k, r) <==> Sets(k, s))
  {
    match opt
    case WithAsync(b) => s.(async := b)
    case WithTryCatch(b) => s.(tryCatch := b)
    case WithTimeout(d) => s.(timeout := d)
    case WithMaxConcurrent(n) => s.(maxConcurrent := n)
  }

  /** The options applied in order, as NewJobModel does. */
  function ApplyAll(s: Settings, opts: seq<JobOption>): Settings {
    if opts == [] then s else Apply(ApplyAll(s, opts[..|opts| - 1]), opts[|opts| - 1])
  }

  /** The last option of each kind wins. */
  lemma {:induction false} LastOptionOfKindWins(s: Settings, opts: seq<JobOption>, i: nat)
    requires i < |opts|
    requires forall j :: i < j < |opts| ==> !SameKind(opts[j], opts[i])
    ensures Sets(opts[i], ApplyAll(s, opts))
  {
    var init := opts[..|opts| - 1];
    if i < |opts| - 1 {
      assert opts[i] == init[i];
      LastOptionOfKindWins(s, init, i);
    }
  }

  /** A field no option writes keeps its starting value. */
  lemma {:induction false} UnmentionedFieldKept(s: Settings, opts: seq<JobOption>, k: JobOption)
    requires forall j :: 0 <= j < |opts| ==> !SameKind(opts[j], k)
    ensures Sets(k, ApplyAll(s, opts)) <==> Sets(k, s)
  {
    if opts != [] {
      var init := opts[..|opts| - 1];
      assert forall j :: 0 <= j < |init| ==> init[j] == opts[j];
      UnmentionedFieldKept(s, init, k);
      assert !SameKind(k, opts[|opts| - 1]) by {
        assert !SameKind(opts[|opts| - 1], k);
      }
    }
  }

  // ---------------------------------------------------------------------------
  // Admission (runWithTryCatch)

  /**
    The skip rule as written: an async job with a limit is skipped when
    `running`, which counts 1 for the job being alive, reaches the limit.
  */
  predicate SkipsAsWritten(async: bool, maxConcurrent: int, running: int) {
    async && maxConcurrent > 0 && running >= maxConcurrent
  }

  /**
    The skip rule with the alive marker taken out: skipped when the runs
    already in flight, `running - 1`, reach the limit.
  */
  predicate Skips(async: bool, maxConcurrent: int, running: int) {
    async && maxConcurrent > 0 && running - 1 >= maxConcurrent
  }

  /**
    Whether a run that passed the skip rule of an async job with a limit
    waits on the `queue` channel: for ever when the channel is nil, and
    until a slot frees when all `queued` slots of its capacity are held.
  */
  predicate QueueBlocks(queueCapacity: Option<int>, queued: int) {
    queueCapacity.None? || queued >= queueCapacity.value
  }

  /**
    How many of `attempts` overlapping starts of an async job are admitted
    when none completes in between, under the corrected skip rule or as
    written. A start that passes the skip rule then needs a queue slot; one
    that finds none stays blocked and is not counted.
  */
  function Admissions(corrected: bool, maxConcurrent: int, running: int,
                      queueCapacity: Option<int>, queued: int, attempts: nat): nat
    decreases attempts
  {
    if attempts == 0 then 0
    else if (if corrected then Skips(true, maxConcurrent, running) else SkipsAsWritten(true, maxConcurrent, running))
         || (maxConcurrent > 0 && QueueBlocks(queueCapacity, queued)) then
      Admissions(corrected, maxConcurrent, running, queueCapacity, queued, attempts - 1)
    else 1 + Admissions(corrected, maxConcurrent, running + 1, queueCapacity, queued + 1, attempts - 1)
  }

  function Min(a: int, b: int): int { if a <= b then a else b }

  /**
    With `inFlight` runs started, each holding a slot of a queue whose
    capacity is the limit (as SetMaxConcurrent allocates it), the corrected
    rule admits up to the limit, no more.
  */
  lemma {:induction false} CorrectedAdmitsUpToLimit(maxConcurrent: int, inFlight: nat, attempts: nat)
    requires maxConcurrent >= 1 && inFlight <= maxConcurrent
    ensures Admissions(true, maxConcurrent, 1 + inFlight, Some(maxConcurrent), inFlight, attempts)
         == Min(attempts, maxConcurrent - inFlight)
    decreases attempts
  {
    if attempts > 0 {
      if inFlight == maxConcurrent {
        CorrectedAdmitsUpToLimit(maxConcurrent, inFlight, attempts - 1);
      } else {
        CorrectedAdmitsUpToLimit(maxConcurrent, inFlight + 1, attempts - 1);
      }
    }
  }

  /** As written, even with the queue allocated, one slot fewer than the limit is ever admitted. */
  lemma {:induction false} AsWrittenAdmitsOneFewer(maxConcurrent: int, inFlight: nat, attempts: nat)
    requires maxConcurrent >= 1 && inFlight <= maxConcurrent - 1
    ensures Admissions(false, maxConcurrent, 1 + inFlight, Some(maxConcurrent), inFlight, attempts)
         == Min(attempts, maxConcurrent - 1 - inFlight)
    decreases attempts
  {
    if attempts > 0 {
      if inFlight == maxConcurrent - 1 {
        AsWrittenAdmitsOneFewer(maxConcurrent, inFlight, attempts - 1);
      } else {
        AsWrittenAdmitsOneFewer(maxConcurrent, inFlight + 1, attempts - 1);
      }
    }
  }

  /**
    A job whose limit was set through WithMaxConcurrent keeps a nil queue:
    under either skip rule, no start is ever admitted.
  */
  lemma {:induction false} NilQueueAdmitsNothing(corrected: bool, maxConcurrent: int, running: int, queued: int, attempts: nat)
    requires maxConcurrent >= 1
    ensures Admissions(corrected, maxConcurrent, running, None, queued, attempts) == 0
    decreases attempts
  {
    if attempts > 0 {
      NilQueueAdmitsNothing(corrected, maxConcurrent, running, queued, attempts - 1);
    }
  }

  /**
    The default async configuration (limit 1) with its queue allocated: as
    written no start is ever admitted; with the corrected rule exactly one
    runs at a time.
  */
  lemma {:induction false} SerialAsyncJobNeverRunsAsWritten(attempts: nat)
    requires attempts >= 1
    ensures Admissions(false, 1, 1, Some(1), 0, attempts) == 0
    ensures Admissions(true, 1, 1, Some(1), 0, attempts) == 1
  {
    AsWrittenAdmitsOneFewer(1, 0, attempts);
    CorrectedAdmitsUpToLimit(1, 0, attempts);
  }

  // ---------------------------------------------------------------------------
  // jobModel

  /** Why a run loop returned, or that it is still waiting for its timer. */
  datatype RunExit = NoNextTime | Stopped | Waiting

  /**
    The outcome of the admission step of one run: skipped by the limit,
    blocked on the `queue` channel, or admitted, holding a queue slot or not.
  */
  datatype Admission = Skipped | Blocked | Admitted(holdsSlot: bool)

  /** What happens to a running loop: its timer fires at `now`, or it is killed. */
  datatype Event = Fire(now: DateTime) | Kill

  class JobModel {
    var name: string
    const spec: string
    var schedule: Option<Schedule>
    /** Whether the `do` callback is set. */
    const hasDo: bool
    var async: bool
    var tryCatch: bool
    var timeout: int
    var maxConcurrent: int
    /** 1 while the job is alive, plus one per run in flight; 0 once killed. */
    var running: int
    /** The capacity of the `queue` channel, None while it is nil. */
    var queueCapacity: Option<int>
    /** How many slots of the `queue` channel runs in flight hold. */
    var queued: int
    /** Whether a context (and its cancel function) was attached. */
    var hasCancel: bool
    /** Whether the attached context is cancelled. */
    var cancelled: bool

    function CurrentSettings(): Settings
      reads this
    {
      Settings(async, tryCatch, timeout, maxConcurrent)
    }

    /** The struct literal built by NewJobModel before its options apply. */
    constructor (spec: string, schedule: Option<Schedule>, hasDo: bool)
      ensures this.spec == spec && this.schedule == schedule && this.hasDo == hasDo
      ensures name == "" && CurrentSettings() == DefaultSettings && running == 1
      ensures queueCapacity == None && queued == 0 && !hasCancel && !cancelled
    {
      this.spec := spec;
      this.schedule := schedule;
      this.hasDo := hasDo;
      name := "";
      async, tryCatch, timeout, maxConcurrent := false, false, 0, 0;
      running := 1;
      queueCapacity := None;
      queued := 0;
      hasCancel, cancelled := false, false;
    }

    /** The option loop of NewJobModel. */
    method ApplyOptions(opts: seq<JobOption>)
      modifies this`async, this`tryCatch, this`timeout, this`maxConcurrent
      ensures CurrentSettings() == ApplyAll(old(CurrentSettings()), opts)
    {
      for i := 0 to |opts|
        invariant CurrentSettings() == ApplyAll(old(CurrentSettings()), opts[..i])
      {
        assert opts[..i + 1][..i] == opts[..i];
        match opts[i]
        case WithAsync(b) => async := b;
        case WithTryCatch(b) => tryCatch := b;
        case WithTimeout(d) => timeout := d;
        case WithMaxConcurrent(n) => maxConcurrent := n;
      }
      assert opts[..|opts|] == opts;
    }

    /** SetMaxConcurrent: sets the limit and, for a positive one, a new empty queue of that size. */
    method SetMaxConcurrent(n: int)
      modifies this`maxConcurrent, this`queueCapacity, this`queued
      ensures maxConcurrent == n
      ensures queueCapacity == if n > 0 then Some(n) else old(queueCapacity)
      ensures queued == if n > 0 then 0 else old(queued)
    {
      maxConcurrent := n;
      if n > 0 {
        queueCapacity := Some(n);
        queued := 0;
      }
    }

    /**
      validate: a missing callback is refused first; a missing schedule is
      parsed from the spec and stored, or refused when the spec does not parse.
    */
    method Validate(parse: string -> Result<Schedule, ParseError>) returns (err: Option<SchedError>)
      modifies this`schedule
      ensures err == ValidationError(hasDo, old(schedule), spec, parse)
      ensures err == None <==> hasDo && schedule.Some?
      ensures err == None && old(schedule).None? ==> schedule == Some(parse(spec).value)
      ensures err != None || old(schedule).Some? ==> schedule == old(schedule)
    {
      if !hasDo {
        return Some(ErrJobDOFuncNil);
      }
      if schedule.None? {
        var parsed := parse(spec);
        if parsed.Failure? {
          return Some(ErrInvalidSpec);
        }
        schedule := Some(parsed.value);
      }
      return None;
    }

    /** kill: the counter drops to 0 and an attached context is cancelled. */
    method Kill()
      modifies this`running, this`cancelled
      ensures running == 0
      ensures cancelled == (old(cancelled) || hasCancel)
    {
      running := 0;
      if hasCancel {
        cancelled := true;
      }
    }

    /**
      The admission and increment at the start of runWithTryCatch, as written:
      an async job with a limit is skipped when `running`, which still counts 1
      for the job being alive, has reached the limit; otherwise it takes a slot
      of the `queue` channel, and blocks when there is none (for ever when the
      channel is nil). An admitted run adds 1 to `running`. An admitted async
      run with a limit never takes `running` past the limit nor the queue past
      its capacity.
    */
    method BeginRun() returns (a: Admission)
      modifies this`running, this`queued
      ensures a == Skipped <==> SkipsAsWritten(async, maxConcurrent, old(running))
      ensures a == Blocked <==> !SkipsAsWritten(async, maxConcurrent, old(running))
                                && async && maxConcurrent > 0 && QueueBlocks(queueCapacity, old(queued))
      ensures a.Admitted? ==> a.holdsSlot == (async && maxConcurrent > 0)
      ensures running == if a.Admitted? then old(running) + 1 else old(running)
      ensures queued == if a == Admitted(true) then old(queued) + 1 else old(queued)
      ensures a.Admitted? && async && maxConcurrent > 0 ==>
                running <= maxConcurrent && queued <= queueCapacity.value
    {
      var holdsSlot := false;
      if async && maxConcurrent > 0 {
        var currentRunning := running;
        if currentRunning >= maxConcurrent {
          return Skipped;
        }
        if QueueBlocks(queueCapacity, queued) {
          return Blocked;
        }
        queued := queued + 1;
        holdsSlot := true;
      }
      running := running + 1;
      return Admitted(holdsSlot);
    }

    /**
      The same step with the corrected skip rule, which leaves the alive marker
      out of the count: an admitted async run keeps the runs in flight,
      `running - 1`, within the limit. The queue step is unchanged, so a job
      whose queue is nil still blocks.
    */
    method BeginRunCorrected() returns (a: Admission)
      modifies this`running, this`queued
      ensures a == Skipped <==> Skips(async, maxConcurrent, old(running))
      ensures a == Blocked <==> !Skips(async, maxConcurrent, old(running))
                                && async && maxConcurrent > 0 && QueueBlocks(queueCapacity, old(queued))
      ensures a.Admitted? ==> a.holdsSlot == (async && maxConcurrent > 0)
      ensures running == if a.Admitted? then old(running) + 1 else old(running)
      ensures queued == if a == Admitted(true) then old(queued) + 1 else old(queued)
      ensures a.Admitted? && async && maxConcurrent > 0 && old(running) >= 1 ==>
                1 <= running - 1 <= maxConcurrent && queued <= queueCapacity.value
    {
      var holdsSlot := false;
      if async && maxConcurrent > 0 {
        var inFlight := running - 1;
        if inFlight >= maxConcurrent {
          return Skipped;
        }
        if QueueBlocks(queueCapacity, queued) {
          return Blocked;
        }
        queued := queued + 1;
        holdsSlot := true;
      }
      running := running + 1;
      return Admitted(holdsSlot);
    }

    /** The deferred steps at the end of an admitted run: release its queue slot, if any, and uncount it. */
    method EndRun(holdsSlot: bool)
      modifies this`running, this`queued
      ensures running == old(running) - 1
      ensures queued == if holdsSlot then old(queued) - 1 else old(queued)
    {
      if holdsSlot {
        queued := queued - 1;
      }
      running := running - 1;
    }

    /**
      run: compute the first activation; then, while the job is alive, on each
      timer firing run the job once (admission and counter steps only) and
      compute the next activation. Returns when an activation cannot be found,
      when the job is killed, or when the events run out.
    */
    method Run(start: DateTime, events: seq<Event>) returns (exit: RunExit, fired: nat, at: DateTime, next: DateTime)
      requires schedule.Some? && Valid(start)
      requires forall j :: 0 <= j < |events| ==> events[j].Fire? ==> Valid(events[j].now)
      modifies this`running, this`queued, this`cancelled
      ensures fired <= |events|
      ensures Valid(at) && IsNextOf(schedule.value, at, next)
      ensures exit == NoNextTime <==> next == Zero
      ensures exit == Stopped ==> running <= 0
      ensures exit == Waiting ==> running > 0 && fired == |events|
      ensures (forall j :: 0 <= j < |events| ==> events[j].Fire?) ==> running == old(running) && queued == old(queued)
    {
      at := start;
      next := ScheduleNext(schedule.value, start);
      fired := 0;
      if next == Zero {
        return NoNextTime, fired, at, next;
      }
      var i := 0;
      while running > 0 && i < |events|
        invariant 0 <= fired == i <= |events|
        invariant Valid(at) && IsNextOf(schedule.value, at, next) && next != Zero
        invariant (forall j :: 0 <= j < i ==> events[j].Fire?) ==> running == old(running) && queued == old(queued)
        decreases |events| - i
      {
        match events[i]
        case Kill =>
          Kill();
          return Stopped, fired, at, next;
        case Fire(now) =>
          var admission := BeginRun();
          if admission.Admitted? {
            EndRun(admission.holdsSlot);
          }
          fired := fired + 1;
          at := now;
          next := ScheduleNext(schedule.value, now);
          if next == Zero {
            return NoNextTime, fired, at, next;
          }
        i := i + 1;
      }
      exit := if running > 0 then Waiting else Stopped;
    }
  }

  /** The error validate reports for a model in this state, if any. */
  function ValidationError(hasDo: bool, schedule: Option<Schedule>, spec: string,
                           parse: string -> Result<Schedule, ParseError>): Option<SchedError>
  {
    if !hasDo then Some(ErrJobDOFuncNil)
    else if schedule.None? && parse(spec).Failure? then Some(ErrInvalidSpec)
    else None
  }

  /**
    NewJobModel: parse the spec with all six fields, build the model with its
    counter at 1, then apply the options in order.
  */
  method NewJobModel(spec: string, hasDo: bool, opts: seq<JobOption>,
                     parse: string -> Result<Schedule, ParseError>) returns (r: Result<JobModel, SchedError>)
    ensures r.Failure? <==> parse(spec).Failure?
    ensures r.Failure? ==> r.error == ErrInvalidSpec
    ensures r.Success? ==>
      && fresh(r.value)
      && r.value.spec == spec && r.value.hasDo == hasDo
      && r.value.schedule == Some(parse(spec).value)
      && r.value.running == 1 && r.value.name == ""
      && r.value.CurrentSettings() == ApplyAll(DefaultSettings, opts)
      && r.value.queueCapacity == None && r.value.queued == 0 && !r.value.hasCancel && !r.value.cancelled
  {
    var parsed := parse(spec);
    if parsed.Failure? {
      return Failure(ErrInvalidSpec);
    }
    var job := new JobModel(spec, Some(parsed.value), hasDo);
    job.ApplyOptions(opts);
    return Success(job);
  }

  // ---------------------------------------------------------------------------
  // cronScheduler

  /** What reset reports, given the validation result and whether the name is taken. */
  function ResetError(validation: Option<SchedError>, denyReplace: bool, present: bool): Option<SchedError> {
    if validation.Some? then validation
    else if denyReplace && present then Some(ErrAlreadyRegister)
    else None
  }

  class CronScheduler {
    var tasks: map<string, JobModel>
    /** Whether the scheduler's own context is cancelled (by Stop). */
    var cancelled: bool

    /** Every stored model passed validation and has a context attached. */
    ghost predicate Valid()
      reads this, tasks.Values
    {
      forall n :: n in tasks ==> tasks[n].hasDo && tasks[n].schedule.Some? && tasks[n].hasCancel
    }

    constructor ()
      ensures Valid() && tasks == map[] && !cancelled
    {
      tasks := map[];
      cancelled := false;
    }

    /**
      reset: validate the model; give it a fresh child context and the name;
      refuse a taken name when replacing is denied; otherwise kill the model
      stored under the name, if any, and store the new one.
    */
    method Reset(name: string, model: JobModel, denyReplace: bool,
                 parse: string -> Result<Schedule, ParseError>) returns (err: Option<SchedError>)
      requires Valid()
      modifies this`tasks, model, if name in tasks then {tasks[name]} else {}
      ensures Valid()
      ensures err == ResetError(old(ValidationError(model.hasDo, model.schedule, model.spec, parse)), denyReplace, name in old(tasks))
      ensures err != None ==> tasks == old(tasks)
      ensures err == None ==> tasks == old(tasks)[name := model]
      ensures old(ValidationError(model.hasDo, model.schedule, model.spec, parse)) != None ==> unchanged(model)
      ensures old(ValidationError(model.hasDo, model.schedule, model.spec, parse)) == None ==>
        model.name == name && model.hasCancel && model.schedule.Some?
      ensures err == None && name in old(tasks) ==> old(tasks)[name].running == 0 && old(tasks)[name].cancelled
      ensures err == Some(ErrAlreadyRegister) || (err == None && (name in old(tasks) ==> old(tasks)[name] != model)) ==>
        model.running == old(model.running) && model.cancelled == cancelled
    {
      var validation := model.Validate(parse);
      if validation.Some? {
        return validation;
      }
      model.hasCancel := true;
      model.cancelled := cancelled;
      model.name := name;
      if name in tasks {
        var oldModel := tasks[name];
        if denyReplace {
          return Some(ErrAlreadyRegister);
        }
        oldModel.Kill();
      }
      tasks := tasks[name := model];
      return None;
    }

    /** Register: name the model and store it, refusing a name already taken. */
    method Register(name: string, model: JobModel,
                    parse: string -> Result<Schedule, ParseError>) returns (err: Option<SchedError>)
      requires Valid()
      modifies this`tasks, model, if name in tasks then {tasks[name]} else {}
      ensures Valid()
      ensures model.name == name
      ensures err == ResetError(old(ValidationError(model.hasDo, model.schedule, model.spec, parse)), true, name in old(tasks))
      ensures err != None ==> tasks == old(tasks)
      ensures err == None ==> tasks == old(tasks)[name := model] && model.running == old(model.running)
      ensures err == None ==> model.hasCancel && model.cancelled == cancelled
    {
      model.name := name;
      err := Reset(name, model, true, parse);
    }

    /** DynamicRegister: store the model under the name, killing any model it replaces. */
    method DynamicRegister(name: string, model: JobModel,
                           parse: string -> Result<Schedule, ParseError>) returns (err: Option<SchedError>)
      requires Valid()
      modifies this`tasks, model, if name in tasks then {tasks[name]} else {}
      ensures Valid()
      ensures err == old(ValidationError(model.hasDo, model.schedule, model.spec, parse))
      ensures err != None ==> tasks == old(tasks) && unchanged(model)
      ensures err == None ==> tasks == old(tasks)[name := model] && model.name == name
      ensures err == None && name in old(tasks) ==> old(tasks)[name].running == 0 && old(tasks)[name].cancelled
      ensures err == None && (name in old(tasks) ==> old(tasks)[name] != model) ==>
        model.running == old(model.running) && model.cancelled == cancelled
    {
      err := Reset(name, model, false, parse);
    }

    /** UpdateJobModel: the same replacing registration as DynamicRegister. */
    method UpdateJobModel(name: string, model: JobModel,
                          parse: string -> Result<Schedule, ParseError>) returns (err: Option<SchedError>)
      requires Valid()
      modifies this`tasks, model, if name in tasks then {tasks[name]} else {}
      ensures Valid()
      ensures err == old(ValidationError(model.hasDo, model.schedule, model.spec, parse))
      ensures err != None ==> tasks == old(tasks) && unchanged(model)
      ensures err == None ==> tasks == old(tasks)[name := model] && model.name == name
      ensures err == None && name in old(tasks) ==> old(tasks)[name].running == 0 && old(tasks)[name].cancelled
      ensures err == None && (name in old(tasks) ==> old(tasks)[name] != model) ==>
        model.running == old(model.running) && model.cancelled == cancelled
    {
      err := Reset(name, model, false, parse);
    }

    /** UnRegister: kill and remove the named job, or report that it is not there. */
    method UnRegister(name: string) returns (err: Option<SchedError>)
      requires Valid()
      modifies this`tasks, if name in tasks then {tasks[name]} else {}
      ensures Valid()
      ensures name !in old(tasks) ==> err == Some(ErrNotFoundJob) && tasks == old(tasks)
      ensures name in old(tasks) ==>
        && err == None && tasks == old(tasks) - {name}
        && old(tasks)[name].running == 0 && old(tasks)[name].cancelled
    {
      if name !in tasks {
        return Some(ErrNotFoundJob);
      }
      var oldModel := tasks[name];
      oldModel.Kill();
      tasks := tasks - {name};
      return None;
    }

    /** StopService: kill and remove the named job when it is there. */
    method StopService(name: string)
      requires Valid()
      modifies this`tasks, if name in tasks then {tasks[name]} else {}
      ensures Valid()
      ensures tasks == old(tasks) - {name}
      ensures name in old(tasks) ==> old(tasks)[name].running == 0 && old(tasks)[name].cancelled
    {
      if name !in tasks {
        return;
      }
      var job := tasks[name];
      job.Kill();
      tasks := tasks - {name};
    }

    /**
      StopServicePrefix: kill and remove exactly the jobs whose name starts
      with `prefix`; only their models change.
    */
    method StopServicePrefix(prefix: string)
      requires Valid()
      modifies this`tasks, set n | n in tasks && prefix <= n :: tasks[n]
      ensures Valid()
      ensures forall n :: n in tasks <==> n in old(tasks) && !(prefix <= n)
      ensures forall n :: n in tasks ==> tasks[n] == old(tasks)[n]
      ensures forall n :: n in old(tasks) && prefix <= n ==> old(tasks)[n].running == 0 && old(tasks)[n].cancelled
    {
      var remaining := tasks.Keys;
      while remaining != {}
        invariant remaining <= old(tasks).Keys
        invariant forall n :: n in tasks <==> n in old(tasks) && (n in remaining || !(prefix <= n))
        invariant forall n :: n in tasks ==> tasks[n] == old(tasks)[n]
        invariant forall n :: n in old(tasks) && prefix <= n && n !in remaining ==>
          old(tasks)[n].running == 0 && old(tasks)[n].cancelled
        invariant Valid()
        decreases remaining
      {
        var n :| n in remaining;
        if prefix <= n {
          var job := tasks[n];
          job.Kill();
          tasks := tasks - {n};
        }
        remaining := remaining - {n};
      }
    }

    /** Stop: kill every job, empty the table and cancel the scheduler's context. */
    method Stop()
      requires Valid()
      modifies this, tasks.Values
      ensures Valid()
      ensures tasks == map[] && cancelled
      ensures forall n :: n in old(tasks) ==> old(tasks)[n].running == 0 && old(tasks)[n].cancelled
    {
      var remaining := tasks.Keys;
      while remaining != {}
        invariant remaining <= old(tasks).Keys
        invariant tasks == map n | n in old(tasks) && n in remaining :: old(tasks)[n]
        invariant forall n :: n in old(tasks) && n !in remaining ==>
          old(tasks)[n].running == 0 && old(tasks)[n].cancelled
        invariant Valid()
        decreases remaining
      {
        var n :| n in remaining;
        var job := tasks[n];
        job.Kill();
        tasks := tasks - {n};
        remaining := remaining - {n};
      }
      cancelled := true;
    }

    /** GetServiceCron: the model stored under the name. */
    method GetServiceCron(name: string) returns (r: Result<JobModel, SchedError>)
      ensures name in tasks ==> r == Success(tasks[name])
      ensures name !in tasks ==> r == Failure(ErrNotFoundJob)
    {
      if name !in tasks {
        return Failure(ErrNotFoundJob);
      }
      return Success(tasks[name]);
    }

    /** GetServiceStatus: whether the named job's counter is positive. */
    method GetServiceStatus(name: string) returns (r: Result<bool, SchedError>)
      ensures name in tasks ==> r == Success(tasks[name].running > 0)
      ensures name !in tasks ==> r == Failure(ErrNotFoundJob)
    {
      if name !in tasks {
        return Failure(ErrNotFoundJob);
      }
      return Success(tasks[name].running > 0);
    }
  }

  // ---------------------------------------------------------------------------
  // Scenarios

  /** A freshly registered model reports running; registering the name again is refused. */
  method RegisterThenStatus(schedule: Schedule) returns (status: Result<bool, SchedError>, again: Option<SchedError>)
    ensures status == Success(true)
    ensures again == Some(ErrAlreadyRegister)
  {
    var parse := (s: string) => Success(schedule);
    var c := new CronScheduler();
    var m := new JobModel("* * * * * *", Some(schedule), true);
    var err := c.Register("job", m, parse);
    status := c.GetServiceStatus("job");
    var m2 := new JobModel("* * * * * *", Some(schedule), true);
    again := c.Register("job", m2, parse);
  }

  /**
    Replacing a name with the very model already stored under it kills that
    model: it stays in the table but reports not running.
  */
  method ReplaceWithSameModel(schedule: Schedule) returns (status: Result<bool, SchedError>)
    ensures status == Success(false)
  {
    var parse := (s: string) => Success(schedule);
    var c := new CronScheduler();
    var m := new JobModel("* * * * * *", Some(schedule), true);
    var err := c.Register("job", m, parse);
    err := c.DynamicRegister("job", m, parse);
    status := c.GetServiceStatus("job");
  }

  /** A model without a callback is refused before anything changes. */
  method RegisterWithoutCallback(schedule: Schedule) returns (err: Option<SchedError>, size: nat)
    ensures err == Some(ErrJobDOFuncNil) && size == 0
  {
    var parse := (s: string) => Success(schedule);
    var c := new CronScheduler();
    var m := new JobModel("* * * * * *", None, false);
    err := c.Register("job", m, parse);
    size := |c.tasks|;
  }

  /**
    The configuration AddJob gives an async job without a limit (async, limit
    1, set through WithMaxConcurrent): on a fresh model the skip rule as
    written refuses the first run; the corrected skip rule lets it through to
    the nil queue, where it blocks; once SetMaxConcurrent allocates the queue,
    the corrected rule admits it.
  */
  method SerialAsyncJobAdmission(schedule: Schedule) returns (asWritten: Admission, skipFixed: Admission, queueFixed: Admission)
    ensures asWritten == Skipped && skipFixed == Blocked && queueFixed == Admitted(true)
  {
    var m := new JobModel("* * * * * *", Some(schedule), true);
    m.ApplyOptions([WithAsync(true), WithMaxConcurrent(1)]);
    assert [WithAsync(true), WithMaxConcurrent(1)][..1] == [WithAsync(true)];
    asWritten := m.BeginRun();
    skipFixed := m.BeginRunCorrected();
    m.SetMaxConcurrent(1);
    queueFixed := m.BeginRunCorrected();
  }
}
