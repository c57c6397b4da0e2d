/** What holds in every interleaving of the threads that share a compressor. */
module JobTheorems {
  import opened Types
  import opened Session
  import opened Jobs

  /* ---- who owns the instance ---- */

  datatype Owner = JobOwner(job: nat) | SyncOwner(sync: nat)

  predicate OwningPhase(phase: Phase) {
    !(phase.Refused? || phase.Released? || phase.Finished?)
  }

  ghost predicate Owns(s: State, o: Owner) {
    match o
    case JobOwner(j) => j < |s.jobs| && OwningPhase(s.jobs[j].phase)
    case SyncOwner(i) => i < |s.syncs| && s.syncs[i].SyncRunning?
  }

  /* ---- the invariant ---- */

  ghost predicate GoodJob(job: Job) {
    && job.completions == (if job.phase.Finished? && job.hasCallback then [job.result] else [])
    && (job.returned ==> job.viaWorker || job.phase.Finished?)
    && match job.phase
       case Refused =>
         !job.viaWorker && job.state == Rejected && job.result.error in {NotInitialized, InvalidArgument, Busy}
       case Accepted => !job.viaWorker && job.state == Running
       case SetupRejected(error) => !job.viaWorker && job.state == Rejected && error != Ok && error != Error.Cancelled
       case SetupStored => !job.viaWorker && job.state == Rejected && Agrees(job)
       case Working => job.viaWorker && job.state == Running
       case ResultStored => job.viaWorker && job.state == Running
       case StateStored => job.viaWorker && Agrees(job)
       case Fetched(run) => run == job.result && Agrees(job)
       case Released(run) => run == job.result && Agrees(job)
       case Finished => Agrees(job)
  }

  // The stored state and the stored result tell the same story.
  ghost predicate Agrees(job: Job) {
    && Terminal(job.state)
    && (job.state == Completed <==> job.result.error == Ok)
    && (job.state == JobState.Cancelled <==> job.result.error == Error.Cancelled)
    && (job.state == Rejected <==> !job.viaWorker)
  }

  ghost predicate Exclusive(s: State) {
    && (forall o, o' :: Owns(s, o) && Owns(s, o') ==> o == o')
    && (s.busy <==> exists o :: Owns(s, o))
    && (forall j: nat :: s.active == Some(j) <==> Owns(s, JobOwner(j)))
  }

  ghost predicate GoodDeinit(s: State, deinit: Deinit) {
    && (deinit.target.Some? ==> deinit.target.value < |s.jobs|)
    && deinit.inits <= s.inits && (deinit.inits == s.inits ==> !s.initialized)
    && (deinit.phase.Signalling? || deinit.phase.Watching? ==> deinit.target.Some?)
  }

  ghost predicate Invariant(s: State) {
    && Exclusive(s)
    && (forall j | 0 <= j < |s.jobs| :: GoodJob(s.jobs[j]))
    && (forall d | 0 <= d < |s.deinits| :: GoodDeinit(s, s.deinits[d]))
  }

  lemma StepJobGood(job: Job, step: JobStep)
    requires GoodJob(job) && StepJob(job, step).Some?
    ensures GoodJob(StepJob(job, step).value)
  {
  }

  lemma OwnersSame(s: State, s': State)
    requires Exclusive(s) && s'.busy == s.busy && s'.active == s.active
    requires forall o :: Owns(s', o) <==> Owns(s, o)
    ensures Exclusive(s')
  {
    forall j: nat
      ensures s'.active == Some(j) <==> Owns(s', JobOwner(j))
    {
      assert s.active == Some(j) <==> Owns(s, JobOwner(j));
    }
    if s.busy {
      var o :| Owns(s, o);
      assert Owns(s', o);
    }
  }

  // The instance passes from nobody to one owner.
  lemma OwnerTakes(s: State, s': State, owner: Owner)
    requires Exclusive(s) && !s.busy && s'.busy
    requires forall o :: Owns(s', o) <==> Owns(s, o) || o == owner
    requires s'.active == if owner.JobOwner? then Some(owner.job) else s.active
    ensures Exclusive(s')
  {
    assert forall o :: !Owns(s, o);
    assert Owns(s', owner);
    forall j: nat
      ensures s'.active == Some(j) <==> Owns(s', JobOwner(j))
    {
      assert s.active == Some(j) <==> Owns(s, JobOwner(j));
    }
  }

  // The one owner gives it back.
  lemma OwnerFrees(s: State, s': State, owner: Owner)
    requires Exclusive(s) && Owns(s, owner) && !s'.busy
    requires forall o :: Owns(s', o) <==> Owns(s, o) && o != owner
    requires s'.active == if owner.JobOwner? then None else s.active
    ensures Exclusive(s')
  {
    assert forall o :: !Owns(s', o);
    forall j: nat
      ensures s'.active == Some(j) <==> Owns(s', JobOwner(j))
    {
      assert s.active == Some(j) <==> Owns(s, JobOwner(j));
    }
  }

  lemma NobodyOwns(s: State)
    requires Exclusive(s) && !s.busy
    ensures forall o :: !Owns(s, o)
    ensures s.active == None
  {
  }

  lemma SubmitKeeps(s: State, hasEndpoints: bool, hasCallback: bool)
    requires Invariant(s)
    ensures Invariant(SubmitSection(s, hasEndpoints, hasCallback))
  {
    var s' := SubmitSection(s, hasEndpoints, hasCallback);
    var j := |s.jobs|;
    assert forall i | 0 <= i < j :: s'.jobs[i] == s.jobs[i];
    assert GoodJob(s'.jobs[j]);
    if s'.jobs[j].phase.Accepted? {
      OwnerTakes(s, s', JobOwner(j));
    } else {
      OwnersSame(s, s');
    }
  }

  lemma OnJobKeeps(s: State, j: nat, step: JobStep)
    requires Invariant(s) && j < |s.jobs| && OnJobStep(s, j, step).Some?
    ensures Invariant(OnJobStep(s, j, step).value)
  {
    hide GoodJob;
    var s' := OnJobStep(s, j, step).value;
    StepJobGood(s.jobs[j], step);
    StepJobOwning(s.jobs[j], step);
    assert forall i | 0 <= i < |s.jobs| && i != j :: s'.jobs[i] == s.jobs[i];
    if step.Release? {
      assert Owns(s, JobOwner(j));
      assert s.active == Some(j);
      OwnerFrees(s, s', JobOwner(j));
    } else {
      OwnersSame(s, s');
    }
  }

  // Only the release section ends an ownership, and no other step of a job starts one.
  lemma StepJobOwning(job: Job, step: JobStep)
    requires StepJob(job, step).Some?
    ensures OwningPhase(job.phase) <==>
            (OwningPhase(StepJob(job, step).value.phase) || step.Release?)
    ensures step.Release? ==> !OwningPhase(StepJob(job, step).value.phase)
  {
  }

  lemma SyncKeeps(s: State, e: Event)
    requires Invariant(s) && Apply(s, e).Some? && (e.SyncBegin? || e.SyncRelease? || e.SyncStore?)
    ensures Invariant(Apply(s, e).value)
  {
    hide GoodJob;
    var s' := Apply(s, e).value;
    match e
    case SyncBegin => OwnerTakes(s, s', SyncOwner(|s.syncs|));
    case SyncRelease(i, _) =>
      assert Owns(s, SyncOwner(i));
      OwnerFrees(s, s', SyncOwner(i));
    case SyncStore(i) => OwnersSame(s, s');
  }

  lemma CancelGood(job: Job)
    requires GoodJob(job)
    ensures GoodJob(job.(cancelRequested := true))
  {
  }

  lemma DeinitKeeps(s: State, e: Event)
    requires Invariant(s) && Apply(s, e).Some?
    requires e.DeinitBegin? || e.DeinitSignal? || e.DeinitSeesTerminal? || e.DeinitPoll?
    ensures Invariant(Apply(s, e).value)
  {
    hide GoodJob;
    var s' := Apply(s, e).value;
    if e.DeinitSignal? {
      CancelGood(s.jobs[s.deinits[e.deinit].target.value]);
    }
    if e.DeinitBegin? && s.active.Some? {
      assert Owns(s, JobOwner(s.active.value));
    }
    if e.DeinitPoll? && !s.busy {
      NobodyOwns(s);
    }
    OwnersSame(s, s');
  }

  lemma InitKeeps(s: State, config: int, valid: bool)
    requires Invariant(s)
    ensures Invariant(InitSection(s, config, valid))
  {
    hide GoodJob;
    OwnersSame(s, InitSection(s, config, valid));
  }

  lemma ApplyKeeps(s: State, e: Event)
    requires Invariant(s) && Apply(s, e).Some?
    ensures Invariant(Apply(s, e).value)
  {
    hide Invariant, InitSection, SubmitSection, OnJobStep, DeinitStep;
    match e
    case Init(config, valid) => InitKeeps(s, config, valid);
    case Submit(hasEndpoints, hasCallback) => SubmitKeeps(s, hasEndpoints, hasCallback);
    case OnJob(j, step) => OnJobKeeps(s, j, step);
    case SyncBegin => SyncKeeps(s, e);
    case SyncRelease(_, _) => SyncKeeps(s, e);
    case SyncStore(_) => SyncKeeps(s, e);
    case DeinitBegin => DeinitKeeps(s, e);
    case DeinitSignal(_) => DeinitKeeps(s, e);
    case DeinitSeesTerminal(_) => DeinitKeeps(s, e);
    case DeinitPoll(_) => DeinitKeeps(s, e);
  }

  lemma {:induction false} RunKeeps(s: State, events: seq<Event>)
    requires Invariant(s) && Execute(s, events).Some?
    ensures Invariant(Execute(s, events).value)
    decreases |events|
  {
    hide Invariant, Apply;
    if events != [] {
      var front := events[..|events| - 1];
      RunKeeps(s, front);
      ApplyKeeps(Execute(s, front).value, events[|events| - 1]);
    }
  }

  lemma ReachableKeeps(s: State)
    requires Reachable(s)
    ensures Invariant(s)
  {
    assert Invariant(START) by {
      assert forall o :: !Owns(START, o);
    }
    var events :| Execute(START, events) == Some(s);
    RunKeeps(START, events);
  }

  /* ---- exclusive runs ---- */

  // In every reachable state the instance is busy exactly when one run owns it, that run is the
  // active job exactly when it is an asynchronous one, and nobody else owns anything.
  lemma ExclusiveRuns(s: State)
    requires Reachable(s)
    ensures s.busy <==> exists o :: Owns(s, o)
    ensures forall o, o' :: Owns(s, o) && Owns(s, o') ==> o == o'
    ensures forall o :: Owns(s, o) ==> s.active == if o.JobOwner? then Some(o.job) else None
    ensures !s.busy ==> s.active == None
  {
    ReachableKeeps(s);
    forall o | Owns(s, o)
      ensures s.active == if o.JobOwner? then Some(o.job) else None
    {
      if s.active.Some? {
        assert Owns(s, JobOwner(s.active.value));
      }
    }
    if !s.busy {
      NobodyOwns(s);
    }
  }

  // While a run owns the instance no step changes the configuration it reads.
  lemma ConfigStable(s: State, e: Event)
    requires Reachable(s) && Apply(s, e).Some? && Apply(s, e).value.config != s.config
    ensures e.Init? && e.valid && forall o :: !Owns(s, o)
  {
    ReachableKeeps(s);
    if e.Init? && s.busy {
      assert false;
    }
    NobodyOwns(s);
  }

  /* ---- the life of a job ---- */

  // Job by job, what one step may do: states move from Running to a terminal one and stay there;
  // once the caller has the handle and sees a terminal state, the result is final; callbacks are
  // only ever added.
  ghost predicate Moves(before: Job, after: Job) {
    && after.id == before.id && after.hasCallback == before.hasCallback
    && (after.state == before.state || (before.state == Running && Terminal(after.state)))
    && (before.viaWorker ==> after.viaWorker) && (before.returned ==> after.returned)
    && (before.returned && Terminal(before.state) ==> after.result == before.result)
    && before.completions <= after.completions
    && (before.cancelRequested ==> after.cancelRequested)
  }

  lemma StepJobMoves(job: Job, step: JobStep)
    requires GoodJob(job) && StepJob(job, step).Some?
    ensures Moves(job, StepJob(job, step).value)
  {
  }

  lemma ApplyMoves(s: State, e: Event)
    requires Invariant(s) && Apply(s, e).Some?
    ensures var s' := Apply(s, e).value;
            && |s.jobs| <= |s'.jobs|
            && (forall j | 0 <= j < |s.jobs| :: Moves(s.jobs[j], s'.jobs[j]))
            && (forall j | |s.jobs| <= j < |s'.jobs| :: s'.jobs[j].state in {Running, Rejected})
  {
    hide GoodJob, StepJob;
    if e.OnJob? {
      StepJobMoves(s.jobs[e.job], e.step);
    }
  }

  lemma {:induction false} RunMoves(s: State, events: seq<Event>, j: nat)
    requires Invariant(s) && Execute(s, events).Some? && j < |s.jobs|
    ensures var s' := Execute(s, events).value; j < |s'.jobs| && Moves(s.jobs[j], s'.jobs[j])
    decreases |events|
  {
    hide Invariant, Apply;
    if events != [] {
      var front := events[..|events| - 1];
      RunKeeps(s, front);
      RunMoves(s, front, j);
      var middle := Execute(s, front).value;
      ApplyMoves(middle, events[|events| - 1]);
    }
  }

  // Over any run from a reachable state: a terminal job keeps its state for ever, and if its
  // handle is with the caller, the result that the caller reads is final and agrees with it.
  lemma DoneIsFinal(s: State, events: seq<Event>, j: nat)
    requires Reachable(s) && Execute(s, events).Some? && j < |s.jobs| && Terminal(s.jobs[j].state)
    ensures var s' := Execute(s, events).value;
            && j < |s'.jobs| && s'.jobs[j].state == s.jobs[j].state
            && (s.jobs[j].returned ==> s'.jobs[j].result == s.jobs[j].result && Agrees(s.jobs[j]))
  {
    ReachableKeeps(s);
    RunMoves(s, events, j);
    assert GoodJob(s.jobs[j]);
  }

  // onComplete is called at most once per job, and the job's path ends only after that call has
  // been made with the stored result.
  lemma CompletesOnce(s: State, j: nat)
    requires Reachable(s) && j < |s.jobs|
    ensures var job := s.jobs[j];
            && job.completions == (if job.phase.Finished? && job.hasCallback then [job.result] else [])
            && (job.returned && !job.viaWorker ==> job.phase.Finished?)
  {
    ReachableKeeps(s);
    assert GoodJob(s.jobs[j]);
  }

  /* ---- deinit ---- */

  // A deinit call has asked its job to stop before it watches it, and has seen it terminal before
  // it waits for the instance.
  ghost predicate Asked(s: State, deinit: Deinit) {
    deinit.target.Some? && deinit.target.value < |s.jobs| && !deinit.phase.Signalling? ==>
      && s.jobs[deinit.target.value].cancelRequested
      && (!deinit.phase.Watching? ==> Terminal(s.jobs[deinit.target.value].state))
  }

  ghost predicate AllAsked(s: State) {
    forall d | 0 <= d < |s.deinits| :: Asked(s, s.deinits[d])
  }

  lemma AskedStays(s: State, s': State, deinit: Deinit)
    requires Asked(s, deinit) && |s.jobs| <= |s'.jobs|
    requires deinit.target.Some? ==> deinit.target.value < |s.jobs|
    requires forall j | 0 <= j < |s.jobs| :: Moves(s.jobs[j], s'.jobs[j])
    ensures Asked(s', deinit)
  {
    if deinit.target.Some? {
      assert Moves(s.jobs[deinit.target.value], s'.jobs[deinit.target.value]);
    }
  }

  lemma ApplyAsked(s: State, e: Event)
    requires Invariant(s) && AllAsked(s) && Apply(s, e).Some?
    ensures AllAsked(Apply(s, e).value)
  {
    var s' := Apply(s, e).value;
    ApplyMoves(s, e);
    forall d | 0 <= d < |s'.deinits|
      ensures Asked(s', s'.deinits[d])
    {
      if d < |s.deinits| && s'.deinits[d] == s.deinits[d] {
        assert GoodDeinit(s, s.deinits[d]);
        AskedStays(s, s', s.deinits[d]);
      } else {
        DeinitMoves(s, e, d);
      }
    }
  }

  lemma DeinitMoves(s: State, e: Event, d: nat)
    requires Invariant(s) && AllAsked(s) && Apply(s, e).Some? && d < |Apply(s, e).value.deinits|
    requires d < |s.deinits| ==> Apply(s, e).value.deinits[d] != s.deinits[d]
    ensures Asked(Apply(s, e).value, Apply(s, e).value.deinits[d])
  {
    hide GoodJob, Exclusive;
    if d < |s.deinits| {
      assert Asked(s, s.deinits[d]) && GoodDeinit(s, s.deinits[d]);
    } else {
      assert e.DeinitBegin?;
    }
  }

  lemma {:induction false} RunAsked(events: seq<Event>)
    requires Execute(START, events).Some?
    ensures Invariant(Execute(START, events).value) && AllAsked(Execute(START, events).value)
    decreases |events|
  {
    hide Invariant, Apply, Asked;
    if events == [] {
      assert Reachable(START);
      ReachableKeeps(START);
    } else {
      var front := events[..|events| - 1];
      RunAsked(front);
      ApplyKeeps(Execute(START, front).value, events[|events| - 1]);
      ApplyAsked(Execute(START, front).value, events[|events| - 1]);
    }
  }

  // Every deinit call takes as its target the job that owned the instance when it began, asks it to
  // stop, and does not return before that job is terminal.
  lemma DeinitStopsOwner(s: State, j: nat)
    requires Reachable(s)
    ensures Apply(s, DeinitBegin).value.deinits[|s.deinits|].target == Some(j) <==> Owns(s, JobOwner(j))
    ensures forall d | 0 <= d < |s.deinits| && s.deinits[d].phase == Returned && s.deinits[d].target == Some(j) ::
              j < |s.jobs| && s.jobs[j].cancelRequested && Terminal(s.jobs[j].state)
  {
    hide Owns, GoodJob;
    ReachableKeeps(s);
    var events :| Execute(START, events) == Some(s);
    RunAsked(events);
    assert s.active == Some(j) <==> Owns(s, JobOwner(j));
    forall d | 0 <= d < |s.deinits| && s.deinits[d].phase == Returned && s.deinits[d].target == Some(j)
      ensures j < |s.jobs| && s.jobs[j].cancelRequested && Terminal(s.jobs[j].state)
    {
      assert Asked(s, s.deinits[d]) && GoodDeinit(s, s.deinits[d]);
    }
  }

  lemma {:induction false} QuietWithoutInit(s: State, events: seq<Event>)
    requires Invariant(s) && !s.initialized && !s.busy && Execute(s, events).Some?
    requires forall i | 0 <= i < |events| :: !events[i].Init?
    ensures var s' := Execute(s, events).value; !s'.initialized && !s'.busy && Invariant(s')
    decreases |events|
  {
    if events != [] {
      var front := events[..|events| - 1];
      QuietWithoutInit(s, front);
      QuietStep(Execute(s, front).value, events[|events| - 1]);
    }
  }

  lemma QuietStep(s: State, e: Event)
    requires Invariant(s) && !s.initialized && !s.busy && Apply(s, e).Some? && !e.Init?
    ensures var s' := Apply(s, e).value; !s'.initialized && !s'.busy && Invariant(s')
  {
    hide GoodJob, GoodDeinit;
    ApplyKeeps(s, e);
  }

  // When deinit returns, no run is in flight and every job is terminal; and unless an init has
  // succeeded meanwhile, that stays so until the next one does.
  lemma DeinitQuiesces(s: State, d: nat, events: seq<Event>)
    requires Reachable(s) && d < |s.deinits|
    requires Apply(s, DeinitPoll(d)).Some? && Apply(s, DeinitPoll(d)).value.deinits[d].phase == Returned
    requires Execute(Apply(s, DeinitPoll(d)).value, events).Some?
    requires forall i | 0 <= i < |events| :: !events[i].Init?
    ensures var s' := Apply(s, DeinitPoll(d)).value;
            && (forall o :: !Owns(s', o))
            && (forall j | 0 <= j < |s'.jobs| :: Terminal(s'.jobs[j].state))
            && (s.deinits[d].inits == s.inits ==>
                  forall o :: !Owns(Execute(s', events).value, o))
  {
    ReachableKeeps(s);
    var s' := Apply(s, DeinitPoll(d)).value;
    ApplyKeeps(s, DeinitPoll(d));
    NobodyOwns(s');
    forall j | 0 <= j < |s'.jobs|
      ensures Terminal(s'.jobs[j].state)
    {
      assert GoodJob(s'.jobs[j]);
      assert !Owns(s', JobOwner(j));
    }
    assert GoodDeinit(s, s.deinits[d]);
    if s.deinits[d].inits == s.inits {
      QuietWithoutInit(s', events);
      NobodyOwns(Execute(s', events).value);
    }
  }
}
