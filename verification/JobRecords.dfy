/** What the compressor object reports about its jobs: their numbers and the last result. */
module JobRecords {
  import opened Types
  import opened Session
  import opened Jobs
  import opened JobTheorems

  /* ---- numbers ---- */

  // Jobs are numbered from one in the order of their submission, modulo 2^32.
  function Number(index: nat): nat {
    (1 + index) % 0x1_0000_0000
  }

  ghost predicate Numbered(s: State) {
    s.nextId == Number(|s.jobs|) && forall j | 0 <= j < |s.jobs| :: s.jobs[j].id == Number(j)
  }

  lemma StepJobId(job: Job, step: JobStep)
    requires StepJob(job, step).Some?
    ensures StepJob(job, step).value.id == job.id
  {
  }

  lemma NumberNext(index: nat)
    ensures (Number(index) + 1) % 0x1_0000_0000 == Number(index + 1)
  {
  }

  lemma ApplyNumbered(s: State, e: Event)
    requires Numbered(s) && Apply(s, e).Some?
    ensures Numbered(Apply(s, e).value)
  {
    hide StepJob, Number;
    NumberNext(|s.jobs|);
    if e.OnJob? {
      StepJobId(s.jobs[e.job], e.step);
    }
  }

  /* ---- the last result ---- */

  // The run's result was stored by a run that has given the instance back, or by a refusal.
  ghost predicate EndedWith(s: State, run: Run) {
    || (exists j :: 0 <= j < |s.jobs| && !OwningPhase(s.jobs[j].phase) && s.jobs[j].result == run)
    || (exists i :: 0 <= i < |s.syncs| && s.syncs[i] == SyncDone(run))
  }

  ghost predicate Reported(s: State) {
    s.lastResult == EmptyRun(Ok) || EndedWith(s, s.lastResult)
  }

  // A job that has given the instance back keeps its result and never takes it again.
  lemma EndedStays(job: Job, step: JobStep)
    requires !OwningPhase(job.phase) && StepJob(job, step).Some?
    ensures var after := StepJob(job, step).value; !OwningPhase(after.phase) && after.result == job.result
    ensures !step.Release?
  {
  }

  lemma ReleasedWith(job: Job, step: JobStep)
    requires GoodJob(job) && StepJob(job, step).Some?
    ensures step.Release? ==>
              var after := StepJob(job, step).value;
              && job.phase.Fetched? && after.phase == Released(job.phase.fetched)
              && after.result == job.phase.fetched && !OwningPhase(after.phase)
  {
  }

  lemma OnJobEnded(s: State, j: nat, step: JobStep, run: Run)
    requires j < |s.jobs| && OnJobStep(s, j, step).Some? && EndedWith(s, run)
    ensures EndedWith(OnJobStep(s, j, step).value, run)
  {
    hide StepJob, OwningPhase;
    var s' := OnJobStep(s, j, step).value;
    if k :| 0 <= k < |s.jobs| && !OwningPhase(s.jobs[k].phase) && s.jobs[k].result == run {
      if k == j {
        EndedStays(s.jobs[j], step);
      }
      assert !OwningPhase(s'.jobs[k].phase) && s'.jobs[k].result == run;
    } else {
      var i :| 0 <= i < |s.syncs| && s.syncs[i] == SyncDone(run);
      assert s'.syncs[i] == SyncDone(run);
    }
  }

  lemma OtherEnded(s: State, e: Event, run: Run)
    requires Apply(s, e).Some? && !e.OnJob? && EndedWith(s, run)
    ensures EndedWith(Apply(s, e).value, run)
  {
    hide OwningPhase;
    var s' := Apply(s, e).value;
    if k :| 0 <= k < |s.jobs| && !OwningPhase(s.jobs[k].phase) && s.jobs[k].result == run {
      assert !OwningPhase(s'.jobs[k].phase) && s'.jobs[k].result == run;
    } else {
      var i :| 0 <= i < |s.syncs| && s.syncs[i] == SyncDone(run);
      assert s'.syncs[i] == SyncDone(run);
    }
  }

  lemma ApplyReported(s: State, e: Event)
    requires Invariant(s) && Reported(s) && Apply(s, e).Some?
    ensures Reported(Apply(s, e).value)
  {
    hide EndedWith, GoodJob, StepJob;
    var s' := Apply(s, e).value;
    if s'.lastResult == s.lastResult {
      if s.lastResult != EmptyRun(Ok) {
        if e.OnJob? {
          OnJobEnded(s, e.job, e.step, s.lastResult);
        } else {
          OtherEnded(s, e, s.lastResult);
        }
      }
    } else {
      NewlyReported(s, e);
    }
  }

  // The last result is written by exactly three steps: a refusal, the release of an asynchronous
  // job, and the store of a synchronous call, each with the stored result of the run it ends.
  lemma LastResultWritten(s: State, e: Event)
    requires Invariant(s) && Apply(s, e).Some?
    ensures var s' := Apply(s, e).value;
            match e
            case Submit(_, _) =>
              s'.lastResult == if s'.jobs[|s.jobs|].state == Rejected then s'.jobs[|s.jobs|].result else s.lastResult
            case OnJob(j, step) =>
              s'.lastResult == if step.Release? then s'.jobs[j].result else s.lastResult
            case SyncStore(i) => s'.syncs[i] == SyncDone(s'.lastResult)
            case _ => s'.lastResult == s.lastResult
  {
    hide GoodJob;
    if e.OnJob? {
      ReleasedWith(s.jobs[e.job], e.step);
    }
  }

  lemma NewlyReported(s: State, e: Event)
    requires Invariant(s) && Apply(s, e).Some? && Apply(s, e).value.lastResult != s.lastResult
    ensures EndedWith(Apply(s, e).value, Apply(s, e).value.lastResult)
  {
    hide GoodJob, StepJob;
    LastResultWritten(s, e);
    var s' := Apply(s, e).value;
    match e
    case OnJob(j, step) =>
      ReleasedWith(s.jobs[j], step);
      assert !OwningPhase(s'.jobs[j].phase) && s'.jobs[j].result == s'.lastResult;
    case Submit(_, _) =>
      var j := |s.jobs|;
      assert !OwningPhase(s'.jobs[j].phase) && s'.jobs[j].result == s'.lastResult;
    case SyncStore(i) =>
      assert s'.syncs[i] == SyncDone(s'.lastResult);
    case _ =>
  }

  lemma {:induction false} RunRecords(events: seq<Event>)
    requires Execute(START, events).Some?
    ensures var s := Execute(START, events).value; Invariant(s) && Numbered(s) && Reported(s)
    decreases |events|
  {
    hide Invariant, Apply, Numbered, Reported;
    if events == [] {
      StartRecords();
    } else {
      var front := events[..|events| - 1];
      RunRecords(front);
      var before := Execute(START, front).value;
      ApplyKeeps(before, events[|events| - 1]);
      ApplyNumbered(before, events[|events| - 1]);
      ApplyReported(before, events[|events| - 1]);
    }
  }

  lemma StartRecords()
    ensures Invariant(START) && Numbered(START) && Reported(START)
  {
    assert forall o :: !Owns(START, o);
  }

  lemma SameNumber(i: nat, j: nat)
    requires i <= j
    ensures Number(i) == Number(j) <==> (j - i) % 0x1_0000_0000 == 0
  {
    var p, q := (1 + i) / 0x1_0000_0000, (1 + j) / 0x1_0000_0000;
    assert j - i == 0x1_0000_0000 * (q - p) + (Number(j) - Number(i));
  }

  // Jobs are numbered from 1 on, in 32 bits; so two of them share a number only when a multiple of
  // 2^32 submissions lies between them.
  lemma NumbersDistinct(s: State, i: nat, j: nat)
    requires Reachable(s) && i <= j < |s.jobs|
    ensures s.jobs[j].id == (j + 1) % 0x1_0000_0000
    ensures s.jobs[i].id == s.jobs[j].id <==> (j - i) % 0x1_0000_0000 == 0
  {
    var events :| Execute(START, events) == Some(s);
    hide Apply, Invariant, Reported, Number;
    RunRecords(events);
    SameNumber(i, j);
  }

  // What the instance reports as its last result is always the stored result of a run that has
  // ended, or still the initial one. It is never the result of a run in flight.
  lemma LastResultEnded(s: State)
    requires Reachable(s)
    ensures s.lastResult == EmptyRun(Ok) || EndedWith(s, s.lastResult)
  {
    var events :| Execute(START, events) == Some(s);
    RunRecords(events);
  }

  /* ---- what does not hold ---- */

  lemma Extend(events: seq<Event>, s: State, e: Event) returns (events': seq<Event>, s': State)
    requires Execute(START, events) == Some(s) && Apply(s, e).Some?
    ensures Apply(s, e) == Some(s') && Execute(START, events') == Some(s')
  {
    hide Apply;
    events', s' := events + [e], Apply(s, e).value;
    assert events'[..|events'| - 1] == events;
  }

  // The last result need not be that of the latest run: a synchronous call frees the instance
  // before it stores its result, and a later call may have stored its own in between.
  lemma LastResultMayBeStale(first: Run, second: Run) returns (s: State)
    ensures Reachable(s) && !s.busy && s.syncs == [SyncDone(first), SyncDone(second)]
    ensures s.lastResult == first
  {
    var events: seq<Event> := [];
    s := START;
    events, s := Extend(events, s, Init(0, true));
    events, s := Extend(events, s, SyncBegin);
    events, s := Extend(events, s, SyncRelease(0, first));
    events, s := Extend(events, s, SyncBegin);
    events, s := Extend(events, s, SyncRelease(1, second));
    events, s := Extend(events, s, SyncStore(1));
    events, s := Extend(events, s, SyncStore(0));
  }

  // The only job of a compressor, and a deinit that waits for it.
  function Alone(state: JobState, result: Run, cancelled: bool, phase: Phase): Job {
    Job(1, state, result, cancelled, true, phase, true, false, [])
  }

  function Waiting(job: Job, initialized: bool, deinits: seq<Deinit>): State {
    State(0, initialized, true, Some(0), EmptyRun(Ok), 2, 1, [job], [], deinits)
  }

  lemma JobStarts() returns (events: seq<Event>)
    ensures Execute(START, events) == Some(Waiting(Alone(Running, EmptyRun(Ok), false, Working), true, []))
  {
    var s := START;
    events := [];
    events, s := Extend(events, s, Init(0, true));
    events, s := Extend(events, s, Submit(true, true));
    events, s := Extend(events, s, OnJob(0, StartWorker));
    assert s.jobs == [Alone(Running, EmptyRun(Ok), false, Working)];
  }

  lemma DeinitWatches() returns (events: seq<Event>)
    ensures Execute(START, events) ==
            Some(Waiting(Alone(Running, EmptyRun(Ok), true, Working), false, [Deinit(Watching, Some(0), 1)]))
  {
    events := JobStarts();
    var s := Waiting(Alone(Running, EmptyRun(Ok), false, Working), true, []);
    events, s := Extend(events, s, DeinitBegin);
    events, s := Extend(events, s, DeinitSignal(0));
    assert s.jobs == [Alone(Running, EmptyRun(Ok), true, Working)];
    assert s.deinits == [Deinit(Watching, Some(0), 1)];
  }

  lemma DeinitPolls(run: Run) returns (events: seq<Event>)
    ensures Execute(START, events) ==
            Some(Waiting(Alone(StateAfter(run.error), run, true, StateStored), false, [Deinit(Polling, Some(0), 1)]))
  {
    events := DeinitWatches();
    var s := Waiting(Alone(Running, EmptyRun(Ok), true, Working), false, [Deinit(Watching, Some(0), 1)]);
    events, s := Extend(events, s, OnJob(0, StoreResult(run)));
    events, s := Extend(events, s, OnJob(0, StoreState));
    events, s := Extend(events, s, DeinitSeesTerminal(0));
    assert s.jobs == [Alone(StateAfter(run.error), run, true, StateStored)];
    assert s.deinits == [Deinit(Polling, Some(0), 1)];
  }

  // Deinit may return while the completion callback of the job it waited for is still to come.
  lemma DeinitMayPrecedeCallback(run: Run) returns (s: State)
    ensures Reachable(s) && |s.deinits| == 1 && s.deinits[0].phase == Returned
    ensures |s.jobs| == 1 && s.jobs[0].hasCallback && s.jobs[0].completions == []
    ensures s.deinits[0].target == Some(0) && s.inits == s.deinits[0].inits
  {
    var events := DeinitPolls(run);
    s := Waiting(Alone(StateAfter(run.error), run, true, StateStored), false, [Deinit(Polling, Some(0), 1)]);
    events, s := Extend(events, s, OnJob(0, Fetch));
    events, s := Extend(events, s, OnJob(0, Release));
    events, s := Extend(events, s, DeinitPoll(0));
  }
}
