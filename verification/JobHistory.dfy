/** What the fields of a compressor and the results of its jobs are, told by the events alone. */
module JobHistory {
  import opened Types
  import opened Session
  import opened Jobs
  import opened JobTheorems
  import opened JobRecords
  import opened JobResults

  ghost predicate Unowned(s: State) {
    forall o :: !Owns(s, o)
  }

  // An init with a valid configuration succeeds exactly when no run owns the instance.
  ghost predicate Succeeds(s: State, e: Event) {
    e.Init? && e.valid && Unowned(s)
  }

  // The configuration of the last init that succeeded.
  ghost function Configured(events: seq<Event>): int
    requires Execute(START, events).Some?
    decreases |events|
  {
    if events == [] then 0
    else
      FrontRuns(events);
      var front, e := events[..|events| - 1], events[|events| - 1];
      if Succeeds(Execute(START, front).value, e) then e.config else Configured(front)
  }

  // Whether the last init that succeeded came after the last deinit.
  ghost predicate Started(events: seq<Event>)
    requires Execute(START, events).Some?
    decreases |events|
  {
    events != [] &&
    (FrontRuns(events);
     var front, e := events[..|events| - 1], events[|events| - 1];
     Succeeds(Execute(START, front).value, e) || (!e.DeinitBegin? && Started(front)))
  }

  ghost function Successes(events: seq<Event>): nat
    requires Execute(START, events).Some?
    decreases |events|
  {
    if events == [] then 0
    else
      FrontRuns(events);
      var front, e := events[..|events| - 1], events[|events| - 1];
      Successes(front) + if Succeeds(Execute(START, front).value, e) then 1 else 0
  }

  lemma StepConfigures(s: State, e: Event)
    requires Invariant(s) && Apply(s, e).Some?
    ensures var s' := Apply(s, e).value;
            && s'.config == (if Succeeds(s, e) then e.config else s.config)
            && s'.initialized == (if Succeeds(s, e) then true else if e.DeinitBegin? then false else s.initialized)
            && s'.inits == s.inits + (if Succeeds(s, e) then 1 else 0)
  {
    hide GoodJob, StepJob, Owns;
    assert s.busy <==> exists o :: Owns(s, o);
  }

  // Over every run of the machine: the configuration is that of the last init that met an instance
  // owned by nobody, and the instance is initialized if no deinit has begun since.
  lemma {:induction false} ConfigIsLatest(s: State, events: seq<Event>)
    requires Execute(START, events) == Some(s)
    ensures s.config == Configured(events) && (s.initialized <==> Started(events)) && s.inits == Successes(events)
    decreases |events|
  {
    hide Invariant, Apply, Succeeds, Numbered, Reported;
    if events == [] {
      assert Execute(START, events) == Some(START);
    } else {
      FrontRuns(events);
      var front, e := events[..|events| - 1], events[|events| - 1];
      ConfigIsLatest(Execute(START, front).value, front);
      RunRecords(front);
      StepConfigures(Execute(START, front).value, e);
    }
  }

  /* ---- what a call is answered ---- */

  // A submission adds one job: running and the owner, or refused with the first reason that applies.
  lemma SubmissionAnswered(s: State, hasEndpoints: bool, hasCallback: bool)
    requires Invariant(s)
    ensures var s' := Apply(s, Submit(hasEndpoints, hasCallback)).value;
            && |s'.jobs| == |s.jobs| + 1 && s'.jobs[..|s.jobs|] == s.jobs
            && var job := s'.jobs[|s.jobs|];
               && job.hasCallback == hasCallback && job.completions == [] && !job.cancelRequested && !job.returned
               && (s.initialized && hasEndpoints && Unowned(s) ==>
                     job.state == Running && Owns(s', JobOwner(|s.jobs|)))
               && (!s.initialized ==> job.state == Rejected && job.result == Run(NotInitialized, 0, 0, 0))
               && (s.initialized && !hasEndpoints ==>
                     job.state == Rejected && job.result == Run(InvalidArgument, 0, 0, 0))
               && (s.initialized && hasEndpoints && !Unowned(s) ==>
                     job.state == Rejected && job.result == Run(Busy, 0, 0, 0))
  {
    hide GoodJob;
    assert s.busy <==> exists o :: Owns(s, o);
  }

  // A synchronous call starts exactly on an initialized instance that nobody owns, and then owns it.
  lemma SynchronousAnswered(s: State)
    requires Invariant(s)
    ensures Apply(s, SyncBegin).Some? <==> s.initialized && Unowned(s)
    ensures Apply(s, SyncBegin).Some? ==> Owns(Apply(s, SyncBegin).value, SyncOwner(|s.syncs|))
  {
    hide GoodJob;
    assert s.busy <==> exists o :: Owns(s, o);
  }

  // An accepted job gets a worker, or fails for want of memory or of a thread; nothing else can come
  // between.
  lemma SetupMayFail(s: State, j: nat, error: Error)
    requires Invariant(s) && j < |s.jobs|
    ensures var job, failed := s.jobs[j], Apply(s, OnJob(j, SetupFails(error)));
            && (Apply(s, OnJob(j, StartWorker)).Some? <==> job.state == Running && !job.viaWorker)
            && (failed.Some? <==> job.state == Running && !job.viaWorker && error in {NoMemory, InternalError})
            && (failed.Some? ==> failed.value == s.(jobs := s.jobs[j := failed.value.jobs[j]])
                                 && failed.value.jobs[j].state == Rejected)
  {
    assert GoodJob(s.jobs[j]);
  }

  // A cancel by the caller is possible exactly with the handle, and changes nothing but the request.
  lemma CancelReaches(s: State, j: nat)
    requires j < |s.jobs|
    ensures Apply(s, OnJob(j, RequestCancel)).Some? <==> s.jobs[j].returned
    ensures s.jobs[j].returned ==>
              Apply(s, OnJob(j, RequestCancel)).value == s.(jobs := s.jobs[j := s.jobs[j].(cancelRequested := true)])
  {
  }

  /* ---- where a result comes from ---- */

  // What a job has been given: the result of its run, the error of its failed set-up, or the reason
  // of its refusal.
  ghost function Verdict(events: seq<Event>, j: nat): Option<Run>
    requires Execute(START, events).Some?
    decreases |events|
  {
    if events == [] then None
    else
      FrontRuns(events);
      var front, e := events[..|events| - 1], events[|events| - 1];
      var s := Execute(START, front).value;
      match Given(s, e, j)
      case None => Verdict(front, j)
      case Some(run) => Some(run)
  }

  ghost function Given(s: State, e: Event, j: nat): Option<Run> {
    match e
    case OnJob(i, StoreResult(run)) => if i == j then Some(run) else None
    case OnJob(i, SetupFails(error)) => if i == j then Some(Run(error, 0, 0, 0)) else None
    case Submit(hasEndpoints, _) =>
      if j != |s.jobs| then None
      else if !s.initialized then Some(Run(NotInitialized, 0, 0, 0))
      else if !hasEndpoints then Some(Run(InvalidArgument, 0, 0, 0))
      else if !Unowned(s) then Some(Run(Busy, 0, 0, 0))
      else None
    case _ => None
  }

  // What a job holds of it, phase by phase.
  ghost predicate Holds(job: Job, verdict: Option<Run>) {
    match job.phase
    case Accepted => verdict == None && job.result == Run(Ok, 0, 0, 0)
    case Working => verdict == None && job.result == Run(Ok, 0, 0, 0)
    case SetupRejected(error) => verdict == Some(Run(error, 0, 0, 0)) && job.result == Run(Ok, 0, 0, 0)
    case _ => verdict == Some(job.result)
  }

  lemma StepHolds(job: Job, step: JobStep, verdict: Option<Run>)
    requires Holds(job, verdict) && StepJob(job, step).Some?
    ensures Holds(StepJob(job, step).value,
                  match step
                  case StoreResult(run) => Some(run)
                  case SetupFails(error) => Some(Run(error, 0, 0, 0))
                  case _ => verdict)
  {
  }

  lemma OthersHold(s: State, e: Event, j: nat, verdict: Option<Run>)
    requires Apply(s, e).Some? && j < |s.jobs| && Holds(s.jobs[j], verdict)
    requires !(e.OnJob? && e.job == j)
    ensures Holds(Apply(s, e).value.jobs[j], verdict) && Given(s, e, j) == None
  {
    hide StepJob;
  }

  lemma NewHolds(s: State, e: Event)
    requires Invariant(s) && Apply(s, e).Some? && |Apply(s, e).value.jobs| > |s.jobs|
    ensures Holds(Apply(s, e).value.jobs[|s.jobs|], Given(s, e, |s.jobs|))
  {
    hide GoodJob, StepJob;
    assert s.busy <==> exists o :: Owns(s, o);
  }

  lemma {:induction false} RunHolds(events: seq<Event>, j: nat)
    requires Execute(START, events).Some?
    ensures var s := Execute(START, events).value;
            if j < |s.jobs| then Holds(s.jobs[j], Verdict(events, j)) else Verdict(events, j) == None
    decreases |events|
  {
    hide Invariant, Apply, Holds, Numbered, Reported, Given;
    if events == [] {
      assert Execute(START, events) == Some(START);
    } else {
      FrontRuns(events);
      var front, e := events[..|events| - 1], events[|events| - 1];
      var s := Execute(START, front).value;
      RunHolds(front, j);
      RunRecords(front);
      OneHolds(s, e, j, Verdict(front, j));
    }
  }

  lemma OneHolds(s: State, e: Event, j: nat, verdict: Option<Run>)
    requires Invariant(s) && Apply(s, e).Some?
    requires if j < |s.jobs| then Holds(s.jobs[j], verdict) else verdict == None
    ensures var s', v := Apply(s, e).value, if Given(s, e, j).Some? then Given(s, e, j) else verdict;
            if j < |s'.jobs| then Holds(s'.jobs[j], v) else v == None
  {
    var s' := Apply(s, e).value;
    if j < |s.jobs| && e.OnJob? && e.job == j {
      hide GoodJob, StepJob, Holds, Invariant;
      StepHolds(s.jobs[j], e.step, verdict);
    } else if j < |s.jobs| {
      hide Invariant, Holds, Apply, Given;
      OthersHold(s, e, j, verdict);
    } else {
      hide Holds, GoodJob, StepJob, Exclusive;
      OneJobAtATime(s, e);
      if j < |s'.jobs| {
        NewHolds(s, e);
      }
    }
  }

  lemma OneJobAtATime(s: State, e: Event)
    requires Apply(s, e).Some?
    ensures |s.jobs| <= |Apply(s, e).value.jobs| <= |s.jobs| + 1
    ensures !e.Submit? ==> |Apply(s, e).value.jobs| == |s.jobs|
    ensures e.OnJob? ==> e.job < |s.jobs|
  {
    hide StepJob;
  }

  // Over every run of the machine, the result that a caller finds with a job that is done is the one
  // its run produced, or the error of its failed set-up, or the reason why it was refused.
  lemma ResultIsVerdict(s: State, events: seq<Event>, j: nat)
    requires Execute(START, events) == Some(s) && j < |s.jobs| && s.jobs[j].returned && Terminal(s.jobs[j].state)
    ensures Verdict(events, j) == Some(s.jobs[j].result)
    ensures s.jobs[j].state ==
            if s.jobs[j].viaWorker
            then (if s.jobs[j].result.error == Ok then Completed
                  else if s.jobs[j].result.error == Error.Cancelled then JobState.Cancelled else JobState.Failed)
            else Rejected
  {
    RunHolds(events, j);
    RunRecords(events);
    assert GoodJob(s.jobs[j]);
  }
}
