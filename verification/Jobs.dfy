/** The compressor object under any number of threads: its shared fields, its jobs, and every atomic
    step that a mutex section or an atomic store makes. */
module Jobs {
  import opened Types
  import opened Session

  datatype JobState = Idle | Running | Completed | Failed | Cancelled | Rejected

  predicate Terminal(state: JobState) {
    state.Completed? || state.Failed? || state.Cancelled? || state.Rejected?
  }

  // The state a finished run leaves behind.
  function StateAfter(error: Error): JobState {
    if error == Ok then Completed else if error == Error.Cancelled then JobState.Cancelled else Failed
  }

  // How far the thread that carries a job has come: the submitter until a worker is created, then
  // the worker; or the submitter all the way when the job was rejected or no worker came about.
  datatype Phase =
    | Refused                 // rejected in the submitting section; callback still to come
    | Accepted                // owns the instance; no worker yet
    | SetupRejected(error: Error)
    | SetupStored
    | Working
    | ResultStored
    | StateStored
    | Fetched(fetched: Run)   // finishAsyncJob has copied the result
    | Released(fetched: Run)  // the instance is free again; callback still to come
    | Finished

  datatype Job = Job(
    id: uint32,
    state: JobState,
    result: Run,
    cancelRequested: bool,
    hasCallback: bool,
    phase: Phase,
    viaWorker: bool,          // whether a worker was created for it
    returned: bool,           // whether the caller has the handle
    completions: seq<Run>)    // what onComplete has been called with

  datatype JobStep =
    | SetupFails(error: Error)
    | StoreSetupError
    | StartWorker
    | ReturnHandle
    | StoreResult(run: Run)
    | StoreState
    | Fetch
    | Release
    | Complete
    | RequestCancel

  // The part of a step that concerns the job itself; None when the step is not possible.
  function StepJob(job: Job, step: JobStep): Option<Job> {
    match step
    case SetupFails(error) =>
      if job.phase.Accepted? && error in {NoMemory, InternalError}
      then Some(job.(state := Rejected, phase := SetupRejected(error))) else None
    case StoreSetupError =>
      if job.phase.SetupRejected?
      then Some(job.(result := job.result.(error := job.phase.error), phase := SetupStored)) else None
    case StartWorker =>
      if job.phase.Accepted? then Some(job.(phase := Working, viaWorker := true)) else None
    case ReturnHandle =>
      if !job.returned && (job.viaWorker || job.phase.Finished?) then Some(job.(returned := true)) else None
    case StoreResult(run) =>
      if job.phase.Working? then Some(job.(result := run, phase := ResultStored)) else None
    case StoreState =>
      if job.phase.ResultStored?
      then Some(job.(state := StateAfter(job.result.error), phase := StateStored)) else None
    case Fetch =>
      if job.phase.StateStored? || job.phase.SetupStored?
      then Some(job.(phase := Fetched(job.result))) else None
    case Release =>
      if job.phase.Fetched? then Some(job.(phase := Released(job.phase.fetched))) else None
    case Complete =>
      if job.phase.Refused? then Some(Called(job, job.result))
      else if job.phase.Released? then Some(Called(job, job.phase.fetched))
      else None
    case RequestCancel =>
      if job.returned then Some(job.(cancelRequested := true)) else None
  }

  function Called(job: Job, run: Run): Job {
    job.(phase := Finished, completions := job.completions + if job.hasCallback then [run] else [])
  }

  // A synchronous call: it frees the instance first and stores its result afterwards.
  datatype Sync = SyncRunning | SyncReleased(run: Run) | SyncDone(run: Run)

  datatype DeinitPhase = Signalling | Watching | Polling | Returned

  // A deinit call: the job it saw active, and how many inits had succeeded when it began.
  datatype Deinit = Deinit(phase: DeinitPhase, target: Option<nat>, inits: nat)

  datatype State = State(
    config: int,
    initialized: bool,
    busy: bool,
    active: Option<nat>,
    lastResult: Run,
    nextId: uint32,
    inits: nat,
    jobs: seq<Job>,
    syncs: seq<Sync>,
    deinits: seq<Deinit>)

  const START := State(0, false, false, None, EmptyRun(Ok), 1, 0, [], [], [])

  datatype Event =
    | Init(config: int, valid: bool)
    | Submit(hasEndpoints: bool, hasCallback: bool)
    | OnJob(job: nat, step: JobStep)
    | SyncBegin
    | SyncRelease(sync: nat, run: Run)
    | SyncStore(sync: nat)
    | DeinitBegin
    | DeinitSignal(deinit: nat)
    | DeinitSeesTerminal(deinit: nat)
    | DeinitPoll(deinit: nat)

  function InitSection(s: State, config: int, valid: bool): State {
    if !valid || s.busy then s
    else s.(config := config, initialized := true, inits := s.inits + 1)
  }

  // The section of submitAsync: an identifier is spent in any case.
  function SubmitSection(s: State, hasEndpoints: bool, hasCallback: bool): State {
    var next := s.(nextId := (s.nextId + 1) % 0x1_0000_0000);
    var job := Job(s.nextId, Idle, EmptyRun(Ok), false, hasCallback, Refused, false, false, []);
    if !s.initialized then WithRefused(next, job, NotInitialized)
    else if !hasEndpoints then WithRefused(next, job, InvalidArgument)
    else if s.busy then WithRefused(next, job, Busy)
    else
      next.(jobs := s.jobs + [job.(state := Running, phase := Accepted)],
            busy := true, active := Some(|s.jobs|))
  }

  function WithRefused(s: State, job: Job, error: Error): State {
    var refused := job.(state := Rejected, result := EmptyRun(error));
    s.(jobs := s.jobs + [refused], lastResult := refused.result)
  }

  function ReleaseSection(s: State, j: nat, run: Run): State {
    s.(lastResult := run, active := if s.active == Some(j) then None else s.active, busy := false)
  }

  function OnJobStep(s: State, j: nat, step: JobStep): Option<State>
    requires j < |s.jobs|
  {
    match StepJob(s.jobs[j], step)
    case None => None
    case Some(job) =>
      var next := s.(jobs := s.jobs[j := job]);
      Some(if step.Release? then ReleaseSection(next, j, job.phase.fetched) else next)
  }

  function DeinitStep(s: State, d: nat, e: Event): Option<State>
    requires d < |s.deinits|
    requires s.deinits[d].target.Some? ==> s.deinits[d].target.value < |s.jobs|
  {
    var deinit := s.deinits[d];
    match e
    case DeinitSignal(_) =>
      if deinit.phase.Signalling? && deinit.target.Some? then
        var j := deinit.target.value;
        Some(s.(jobs := s.jobs[j := s.jobs[j].(cancelRequested := true)],
                deinits := s.deinits[d := deinit.(phase := Watching)]))
      else None
    case DeinitSeesTerminal(_) =>
      if deinit.phase.Watching? && deinit.target.Some? && Terminal(s.jobs[deinit.target.value].state)
      then Some(s.(deinits := s.deinits[d := deinit.(phase := Polling)])) else None
    case DeinitPoll(_) =>
      if !deinit.phase.Polling? then None
      else if s.busy then Some(s)
      else Some(s.(active := None, deinits := s.deinits[d := deinit.(phase := Returned)]))
    case _ => None
  }

  function Apply(s: State, e: Event): Option<State> {
    match e
    case Init(config, valid) => Some(InitSection(s, config, valid))
    case Submit(hasEndpoints, hasCallback) => Some(SubmitSection(s, hasEndpoints, hasCallback))
    case OnJob(j, step) => if j < |s.jobs| then OnJobStep(s, j, step) else None
    case SyncBegin =>
      if s.initialized && !s.busy then Some(s.(busy := true, syncs := s.syncs + [SyncRunning])) else None
    case SyncRelease(i, run) =>
      if i < |s.syncs| && s.syncs[i].SyncRunning?
      then Some(s.(busy := false, syncs := s.syncs[i := SyncReleased(run)])) else None
    case SyncStore(i) =>
      if i < |s.syncs| && s.syncs[i].SyncReleased?
      then Some(s.(lastResult := s.syncs[i].run, syncs := s.syncs[i := SyncDone(s.syncs[i].run)])) else None
    case DeinitBegin =>
      var phase := if s.active.Some? then Signalling else Polling;
      Some(s.(initialized := false, deinits := s.deinits + [Deinit(phase, s.active, s.inits)]))
    case DeinitSignal(d) => if Waits(s, d) then DeinitStep(s, d, e) else None
    case DeinitSeesTerminal(d) => if Waits(s, d) then DeinitStep(s, d, e) else None
    case DeinitPoll(d) => if Waits(s, d) then DeinitStep(s, d, e) else None
  }

  predicate Waits(s: State, d: nat) {
    d < |s.deinits| && (s.deinits[d].target.Some? ==> s.deinits[d].target.value < |s.jobs|)
  }

  // A run: events one after the other, each of them possible when it comes.
  function Execute(s: State, events: seq<Event>): Option<State>
    decreases |events|
  {
    if events == [] then Some(s)
    else
      match Execute(s, events[..|events| - 1])
      case None => None
      case Some(before) => Apply(before, events[|events| - 1])
  }

  ghost predicate Reachable(s: State) {
    exists events :: Execute(START, events) == Some(s)
  }
}
