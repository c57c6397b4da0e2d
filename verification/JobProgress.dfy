/** That nothing the threads of a compressor do can get stuck: every job can finish and every deinit
    can return. */
module JobProgress {
  import opened Types
  import opened Session
  import opened Jobs
  import opened JobTheorems

  /* ---- jobs ---- */

  // The step that the thread carrying the job takes next when nothing fails.
  function NextStep(phase: Phase): JobStep {
    match phase
    case Accepted => StartWorker
    case SetupRejected(_) => StoreSetupError
    case Working => StoreResult(EmptyRun(Ok))
    case ResultStored => StoreState
    case StateStored => Fetch
    case SetupStored => Fetch
    case Fetched(_) => Release
    case _ => Complete
  }

  // A job that has not finished can always take its next step, whatever the other threads do, and
  // is then nearer to its end.
  lemma NeverStuck(s: State, j: nat)
    requires j < |s.jobs| && !s.jobs[j].phase.Finished?
    ensures var after := Apply(s, OnJob(j, NextStep(s.jobs[j].phase)));
            && after.Some? && j < |after.value.jobs|
            && Distance(after.value.jobs[j].phase) < Distance(s.jobs[j].phase)
  {
    hide NextStep, Distance;
    Nearer(s.jobs[j]);
  }

  lemma Nearer(job: Job)
    requires !job.phase.Finished?
    ensures var after := StepJob(job, NextStep(job.phase));
            after.Some? && Distance(after.value.phase) < Distance(job.phase)
    ensures NextStep(job.phase).Release? ==> StepJob(job, NextStep(job.phase)).value.phase.Released?
  {
  }

  function Distance(phase: Phase): nat {
    match phase
    case Accepted => 6
    case SetupRejected(_) => 5
    case Working => 5
    case SetupStored => 4
    case ResultStored => 4
    case StateStored => 3
    case Fetched(_) => 2
    case Released(_) => 1
    case Refused => 1
    case Finished => 0
  }

  // So from every reachable state every job can come to its end, with its callback made.
  lemma {:induction false} JobRunsOn(s: State, j: nat) returns (events: seq<Event>, after: State)
    requires Invariant(s) && j < |s.jobs|
    ensures Execute(s, events) == Some(after) && Invariant(after)
    ensures j < |after.jobs| && after.jobs[j].phase.Finished? && after.jobs[j].hasCallback == s.jobs[j].hasCallback
    decreases Distance(s.jobs[j].phase)
  {
    hide Invariant, Apply, Distance, NextStep;
    if s.jobs[j].phase.Finished? {
      events, after := [], s;
      assert Execute(s, []) == Some(s);
    } else {
      var e := OnJob(j, NextStep(s.jobs[j].phase));
      NeverStuck(s, j);
      ApplyKeeps(s, e);
      ApplyMoves(s, e);
      events, after := JobRunsOn(Apply(s, e).value, j);
      ExecuteOne(s, e);
      ExecuteThen(s, [e], events);
      events := [e] + events;
    }
  }

  lemma JobCanFinish(s: State, j: nat)
    requires Reachable(s) && j < |s.jobs|
    ensures exists events ::
              && Execute(s, events).Some? && j < |Execute(s, events).value.jobs|
              && var job := Execute(s, events).value.jobs[j];
                 && job.phase.Finished? && Terminal(job.state)
                 && job.completions == if s.jobs[j].hasCallback then [job.result] else []
  {
    ReachableKeeps(s);
    var events, after := JobRunsOn(s, j);
    assert GoodJob(after.jobs[j]);
    assert Execute(s, events) == Some(after);
  }

  /* ---- deinit ---- */

  lemma {:induction false} ExecuteThen(s: State, a: seq<Event>, b: seq<Event>)
    requires Execute(s, a).Some?
    ensures Execute(s, a + b) == Execute(Execute(s, a).value, b)
    decreases |b|
  {
    hide Apply;
    if b == [] {
      assert a + b == a;
    } else {
      assert (a + b)[..|a + b| - 1] == a + b[..|b| - 1];
      ExecuteThen(s, a, b[..|b| - 1]);
    }
  }

  lemma ExecuteOne(s: State, e: Event)
    ensures Execute(s, [e]) == Apply(s, e)
  {
    assert [e][..0] == [];
    assert Execute(s, []) == Some(s);
  }

  // Events that lead from one good state to another and leave the calls of deinit where they are.
  ghost predicate Leads(s: State, events: seq<Event>, after: State) {
    Execute(s, events) == Some(after) && Invariant(after) && after.deinits == s.deinits && |s.jobs| <= |after.jobs|
  }

  lemma LeadsThrough(s: State, e: Event, middle: State, events: seq<Event>, after: State)
    requires Apply(s, e) == Some(middle) && middle.deinits == s.deinits && |s.jobs| <= |middle.jobs|
    requires Leads(middle, events, after)
    ensures Leads(s, [e] + events, after)
  {
    hide Invariant, Apply;
    ExecuteOne(s, e);
    ExecuteThen(s, [e], events);
  }

  // No completion callback is made in between.
  ghost predicate NoCalls(s: State, after: State) {
    |after.jobs| == |s.jobs| && forall i | 0 <= i < |s.jobs| :: after.jobs[i].completions == s.jobs[i].completions
  }

  lemma {:induction false} JobCanRelease(s: State, j: nat) returns (events: seq<Event>, after: State)
    requires Invariant(s) && Owns(s, JobOwner(j))
    ensures Leads(s, events, after) && !after.busy
    ensures NoCalls(s, after)
    decreases Distance(s.jobs[j].phase)
  {
    hide GoodJob, GoodDeinit, StepJob, Distance;
    var step := NextStep(s.jobs[j].phase);
    NeverStuck(s, j);
    StepJobOwning(s.jobs[j], step);
    OwnerMakesNoCall(s.jobs[j]);
    var middle := Apply(s, OnJob(j, step)).value;
    ApplyKeeps(s, OnJob(j, step));
    if step.Release? {
      events, after := [], middle;
    } else {
      events, after := JobCanRelease(middle, j);
    }
    LeadsThrough(s, OnJob(j, step), middle, events, after);
    events := [OnJob(j, step)] + events;
  }

  lemma OwnerMakesNoCall(job: Job)
    requires OwningPhase(job.phase) && StepJob(job, NextStep(job.phase)).Some?
    ensures StepJob(job, NextStep(job.phase)).value.completions == job.completions
  {
  }

  // Whoever owns the instance can give it back.
  lemma OwnerCanRelease(s: State) returns (events: seq<Event>, after: State)
    requires Invariant(s)
    ensures Leads(s, events, after) && !after.busy
    ensures NoCalls(s, after)
  {
    hide GoodJob, GoodDeinit;
    if !s.busy {
      return [], s;
    }
    var o :| Owns(s, o);
    match o
    case JobOwner(j) => events, after := JobCanRelease(s, j);
    case SyncOwner(i) =>
      var e := SyncRelease(i, EmptyRun(Ok));
      after := Apply(s, e).value;
      ApplyKeeps(s, e);
      LeadsThrough(s, e, after, [], after);
      events := [e] + [];
  }

  // The number of steps a deinit call still has to make once the instance is free.
  function StepsLeft(phase: DeinitPhase): nat {
    match phase
    case Signalling => 3
    case Watching => 2
    case Polling => 1
    case Returned => 0
  }

  lemma {:induction false} IdleDeinitReturns(s: State, d: nat) returns (events: seq<Event>, after: State)
    requires Invariant(s) && !s.busy && d < |s.deinits|
    ensures Execute(s, events) == Some(after) && Invariant(after) && NoCalls(s, after)
    ensures d < |after.deinits| && after.deinits[d].phase == Returned
    decreases StepsLeft(s.deinits[d].phase)
  {
    hide GoodJob, Exclusive;
    assert GoodDeinit(s, s.deinits[d]);
    match s.deinits[d].phase
    case Returned => events, after := [], s;
    case Signalling => events, after := IdleDeinitSteps(s, d, DeinitSignal(d));
    case Watching =>
      IdleJobTerminal(s, s.deinits[d].target.value);
      events, after := IdleDeinitSteps(s, d, DeinitSeesTerminal(d));
    case Polling => events, after := IdleDeinitSteps(s, d, DeinitPoll(d));
  }

  lemma {:induction false} IdleDeinitSteps(s: State, d: nat, e: Event) returns (events: seq<Event>, after: State)
    requires Invariant(s) && !s.busy && d < |s.deinits| && Apply(s, e).Some?
    requires var next := Apply(s, e).value;
             && !next.busy && d < |next.deinits| && NoCalls(s, next)
             && StepsLeft(next.deinits[d].phase) < StepsLeft(s.deinits[d].phase)
    ensures Execute(s, events) == Some(after) && Invariant(after) && NoCalls(s, after)
    ensures d < |after.deinits| && after.deinits[d].phase == Returned
    decreases StepsLeft(s.deinits[d].phase), 0
  {
    hide Invariant, Apply;
    ApplyKeeps(s, e);
    events, after := IdleDeinitReturns(Apply(s, e).value, d);
    ExecuteOne(s, e);
    ExecuteThen(s, [e], events);
    events := [e] + events;
  }

  lemma IdleJobTerminal(s: State, j: nat)
    requires Invariant(s) && !s.busy && j < |s.jobs|
    ensures Terminal(s.jobs[j].state)
  {
    NobodyOwns(s);
    assert GoodJob(s.jobs[j]);
    assert !Owns(s, JobOwner(j));
  }

  // From every reachable state every call of deinit can still return: no interleaving deadlocks it.
  lemma DeinitCanReturn(s: State, d: nat)
    requires Reachable(s) && d < |s.deinits|
    ensures exists events ::
              Execute(s, events).Some? && d < |Execute(s, events).value.deinits|
              && Execute(s, events).value.deinits[d].phase == Returned
  {
    hide Invariant, Apply;
    ReachableKeeps(s);
    var freeing, free := OwnerCanRelease(s);
    var returning, after := IdleDeinitReturns(free, d);
    ExecuteThen(s, freeing, returning);
    assert Execute(s, freeing + returning) == Some(after);
  }

  /* ---- deinit and the completion callback ---- */

  // When deinit returns, a completion callback has been made or is the only thing its job has left
  // to do; that of a job rejected into its caller's hands has been made.
  lemma CallbacksAtReturn(s: State, d: nat, j: nat)
    requires Reachable(s) && d < |s.deinits| && Apply(s, DeinitPoll(d)).Some?
    requires Apply(s, DeinitPoll(d)).value.deinits[d].phase == Returned && j < |s.jobs|
    ensures var job := Apply(s, DeinitPoll(d)).value.jobs[j];
            && (job.completions != [] <==> job.hasCallback && job.phase.Finished?)
            && (!job.phase.Finished? ==> job.phase.Released? || job.phase.Refused?)
            && (job.returned && !job.viaWorker ==> job.phase.Finished?)
  {
    ReachableKeeps(s);
    var s' := Apply(s, DeinitPoll(d)).value;
    ApplyKeeps(s, DeinitPoll(d));
    NobodyOwns(s');
    assert GoodJob(s'.jobs[j]);
    assert !Owns(s', JobOwner(j));
  }

  // A run at whose end the deinit call has returned and the callback has not been made.
  ghost predicate ReturnsBefore(s: State, events: seq<Event>, d: nat, j: nat) {
    && Execute(s, events).Some?
    && var after := Execute(s, events).value;
       && d < |after.deinits| && after.deinits[d].phase == Returned
       && j < |after.jobs| && after.jobs[j].completions == []
  }

  // Such a run exists exactly as long as the callback has not been made: nothing in the program makes
  // deinit wait for it.
  lemma DeinitPrecedesCallback(s: State, d: nat, j: nat)
    requires Reachable(s) && d < |s.deinits| && j < |s.jobs| && s.jobs[j].hasCallback
    ensures (exists events :: ReturnsBefore(s, events, d, j)) <==> s.jobs[j].completions == []
  {
    ReachableKeeps(s);
    forall events | ReturnsBefore(s, events, d, j)
      ensures s.jobs[j].completions == []
    {
      RunMoves(s, events, j);
    }
    if s.jobs[j].completions == [] {
      var events := DeinitGoesAhead(s, d, j);
      assert ReturnsBefore(s, events, d, j);
    }
  }

  lemma DeinitGoesAhead(s: State, d: nat, j: nat) returns (events: seq<Event>)
    requires Invariant(s) && d < |s.deinits| && j < |s.jobs| && s.jobs[j].completions == []
    ensures ReturnsBefore(s, events, d, j)
  {
    hide Invariant, Apply;
    var freeing, free := OwnerCanRelease(s);
    var returning, after := IdleDeinitReturns(free, d);
    ExecuteThen(s, freeing, returning);
    events := freeing + returning;
  }
}
