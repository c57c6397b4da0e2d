/** When the last result is the result of the latest run. */
module JobResults {
  import opened Types
  import opened Session
  import opened Jobs
  import opened JobTheorems
  import opened JobRecords

  // A run ends when it frees the instance, or by being refused.
  ghost predicate Ends(s: State, e: Event)
    requires Apply(s, e).Some?
  {
    match e
    case SyncRelease(_, _) => true
    case OnJob(_, step) => step.Release?
    case Submit(_, _) => Apply(s, e).value.jobs[|s.jobs|].state == Rejected
    case _ => false
  }

  ghost function EndedBy(s: State, e: Event): Run
    requires Apply(s, e).Some? && Ends(s, e)
  {
    match e
    case SyncRelease(_, run) => run
    case OnJob(j, _) => Apply(s, e).value.jobs[j].result
    case Submit(_, _) => Apply(s, e).value.jobs[|s.jobs|].result
  }

  lemma FrontRuns(events: seq<Event>)
    requires events != [] && Execute(START, events).Some?
    ensures Execute(START, events[..|events| - 1]).Some?
    ensures Apply(Execute(START, events[..|events| - 1]).value, events[|events| - 1]) == Execute(START, events)
  {
  }

  // The result of the run that ended last.
  ghost function Ended(events: seq<Event>): Option<Run>
    requires Execute(START, events).Some?
    decreases |events|
  {
    if events == [] then None
    else
      FrontRuns(events);
      var front, e := events[..|events| - 1], events[|events| - 1];
      var s := Execute(START, front).value;
      if Ends(s, e) then Some(EndedBy(s, e)) else Ended(front)
  }

  // Before any run has ended the instance reports an empty one.
  ghost function Latest(events: seq<Event>): Run
    requires Execute(START, events).Some?
  {
    match Ended(events)
    case None => EmptyRun(Ok)
    case Some(run) => run
  }

  // A synchronous call has freed the instance and not yet stored its result.
  ghost predicate Storing(s: State) {
    exists i :: 0 <= i < |s.syncs| && s.syncs[i].SyncReleased?
  }

  // No run ends while a synchronous call is between its last two steps.
  ghost predicate Orderly(events: seq<Event>)
    requires Execute(START, events).Some?
    decreases |events|
  {
    events == [] ||
    (FrontRuns(events);
     var front, e := events[..|events| - 1], events[|events| - 1];
     var s := Execute(START, front).value;
     Orderly(front) && (Ends(s, e) ==> !Storing(s)))
  }

  // The last result to be written came from a synchronous call that another run had overtaken: one
  // with a different result ended after the call had freed the instance and before it stored.
  // `OrderDecides` says the same of the order of events alone.
  ghost predicate Overtaken(events: seq<Event>)
    requires Execute(START, events).Some?
    decreases |events|
  {
    events != [] &&
    (FrontRuns(events);
     var front, e := events[..|events| - 1], events[|events| - 1];
     var s := Execute(START, front).value;
     if e.SyncStore? then Ended(front) != Some(s.syncs[e.sync].run)
     else if Ends(s, e) && !e.SyncRelease? then false
     else Overtaken(front))
  }

  /* ---- one step ---- */

  // What a step does to the calls that are storing, and to the last result.
  lemma StepReports(s: State, e: Event)
    requires Invariant(s) && Apply(s, e).Some?
    ensures var s' := Apply(s, e).value;
            && |s.syncs| <= |s'.syncs| && (e.SyncStore? || e.SyncRelease? ==> |s'.syncs| == |s.syncs|)
            && (e.SyncStore? ==>
                  && e.sync < |s.syncs| && s.syncs[e.sync].SyncReleased? && s'.lastResult == s.syncs[e.sync].run
                  && forall i | 0 <= i < |s'.syncs| && s'.syncs[i].SyncReleased? :: s.syncs[i] == s'.syncs[i])
            && (e.SyncRelease? ==>
                  && e.sync < |s.syncs| && s'.syncs[e.sync] == SyncReleased(e.run) && s'.lastResult == s.lastResult
                  && forall i | 0 <= i < |s.syncs| && i != e.sync :: s'.syncs[i] == s.syncs[i])
            && (!e.SyncStore? && !e.SyncRelease? ==>
                  && s'.lastResult == (if Ends(s, e) then EndedBy(s, e) else s.lastResult)
                  && (forall i | 0 <= i < |s.syncs| :: s'.syncs[i] == s.syncs[i])
                  && (forall i | |s.syncs| <= i < |s'.syncs| :: s'.syncs[i].SyncRunning?))
  {
    hide GoodJob, StepJob;
    LastResultWritten(s, e);
  }

  /* ---- orderly runs ---- */

  // While a call is storing, it is the one that ended last; otherwise the last result is the latest.
  ghost predicate UpToDate(s: State, ended: Option<Run>, latest: Run) {
    && (forall i | 0 <= i < |s.syncs| && s.syncs[i].SyncReleased? :: ended == Some(s.syncs[i].run))
    && (!Storing(s) ==> s.lastResult == latest)
  }

  lemma {:induction false} OrderlyUpToDate(events: seq<Event>)
    requires Execute(START, events).Some? && Orderly(events)
    ensures UpToDate(Execute(START, events).value, Ended(events), Latest(events))
    decreases |events|
  {
    hide Invariant, Apply, Ends, EndedBy, Reported, Numbered, UpToDate;
    if events == [] {
      NothingRuns();
      assert Ended(events) == None && Execute(START, events) == Some(START);
    } else {
      FrontRuns(events);
      var front, e := events[..|events| - 1], events[|events| - 1];
      var s := Execute(START, front).value;
      OrderlyUpToDate(front);
      RunRecords(front);
      StepReports(s, e);
      KeepsUpToDate(s, e, Ended(front), Latest(front), Ended(events), Latest(events));
      assert Apply(s, e) == Execute(START, events);
    }
  }

  lemma NothingRuns()
    ensures UpToDate(START, None, EmptyRun(Ok))
  {
  }

  lemma KeepsUpToDate(s: State, e: Event, ended: Option<Run>, latest: Run, ended': Option<Run>, latest': Run)
    requires Invariant(s) && Apply(s, e).Some? && UpToDate(s, ended, latest)
    requires Ends(s, e) ==> !Storing(s) && ended' == Some(EndedBy(s, e))
    requires !Ends(s, e) ==> ended' == ended
    requires latest' == if ended'.Some? then ended'.value else EmptyRun(Ok)
    requires latest == if ended.Some? then ended.value else EmptyRun(Ok)
    ensures UpToDate(Apply(s, e).value, ended', latest')
  {
    hide Invariant, Apply;
    StepReports(s, e);
    var s' := Apply(s, e).value;
    if Storing(s) && !e.SyncStore? {
      var i :| 0 <= i < |s.syncs| && s.syncs[i].SyncReleased?;
      assert s'.syncs[i].SyncReleased?;
    }
    forall i | 0 <= i < |s'.syncs| && s'.syncs[i].SyncReleased?
      ensures ended' == Some(s'.syncs[i].run)
    {
      if e.SyncRelease? && i == e.sync {
        assert EndedBy(s, e) == e.run;
      } else {
        assert i < |s.syncs| && s'.syncs[i] == s.syncs[i];
        assert Storing(s);
      }
    }
    if e.SyncRelease? {
      assert s'.syncs[e.sync].SyncReleased?;
    }
  }

  // Over every orderly run the last result is, whenever no call is storing, the latest run's.
  lemma OrderlyReportsLatest(s: State, events: seq<Event>)
    requires Execute(START, events) == Some(s) && Orderly(events) && !Storing(s)
    ensures s.lastResult == Latest(events)
  {
    OrderlyUpToDate(events);
  }

  /* ---- every run ---- */

  lemma {:induction false} ReportsExactly(events: seq<Event>)
    requires Execute(START, events).Some?
    ensures var s := Execute(START, events).value;
            && (Storing(s) ==> Ended(events).Some?)
            && (Storing(s) || (s.lastResult == Latest(events) <==> !Overtaken(events)))
    decreases |events|
  {
    hide Invariant, Apply, Ends, EndedBy, Reported, Numbered;
    if events != [] {
      FrontRuns(events);
      var front, e := events[..|events| - 1], events[|events| - 1];
      var s, s' := Execute(START, front).value, Execute(START, events).value;
      ReportsExactly(front);
      RunRecords(front);
      StepReports(s, e);
      SomeEnd(s, e);
      if e.SyncStore? {
        assert Storing(s);
      } else if e.SyncRelease? {
        assert s'.syncs[e.sync].SyncReleased?;
      } else if Storing(s) {
        var i :| 0 <= i < |s.syncs| && s.syncs[i].SyncReleased?;
        assert s'.syncs[i].SyncReleased?;
      }
    }
  }

  lemma SomeEnd(s: State, e: Event)
    requires Apply(s, e).Some?
    ensures e.SyncRelease? ==> Ends(s, e)
    ensures e.SyncStore? ==> !Ends(s, e)
  {
  }

  // Over every run the last result is, whenever no call is storing, the latest run's if and only if
  // the result written last was not overtaken.
  lemma ReportsLatestExactly(s: State, events: seq<Event>)
    requires Execute(START, events) == Some(s) && !Storing(s)
    ensures s.lastResult == Latest(events) <==> !Overtaken(events)
    ensures Orderly(events) ==> !Overtaken(events)
  {
    ReportsExactly(events);
    if Orderly(events) {
      OrderlyReportsLatest(s, events);
    }
  }

  /* ---- order alone ---- */

  // The run that ended last, and the run whose result was written last.
  ghost function LastEnded(events: seq<Event>): Option<Owner>
    requires Execute(START, events).Some?
    decreases |events|
  {
    if events == [] then None
    else
      FrontRuns(events);
      var front, e := events[..|events| - 1], events[|events| - 1];
      var s := Execute(START, front).value;
      if Ends(s, e) then Some(EndOf(s, e)) else LastEnded(front)
  }

  ghost function LastWriter(events: seq<Event>): Option<Owner>
    requires Execute(START, events).Some?
    decreases |events|
  {
    if events == [] then None
    else
      FrontRuns(events);
      var front, e := events[..|events| - 1], events[|events| - 1];
      var s := Execute(START, front).value;
      if e.SyncStore? then Some(SyncOwner(e.sync))
      else if Ends(s, e) && !e.SyncRelease? then Some(EndOf(s, e))
      else LastWriter(front)
  }

  ghost function EndOf(s: State, e: Event): Owner
    requires Apply(s, e).Some? && Ends(s, e)
  {
    match e
    case SyncRelease(i, _) => SyncOwner(i)
    case OnJob(j, _) => JobOwner(j)
    case Submit(_, _) => JobOwner(|s.jobs|)
  }

  // What the two say of a state: a synchronous call that ended or wrote last keeps its result, and
  // as long as no call is storing only such a call can have written last without ending last.
  ghost predicate Ordered(s: State, ended: Option<Owner>, writer: Option<Owner>, result: Option<Run>) {
    && (ended.Some? && ended.value.SyncOwner? ==>
          && ended.value.sync < |s.syncs| && !s.syncs[ended.value.sync].SyncRunning?
          && result == Some(s.syncs[ended.value.sync].run))
    && (writer.Some? && writer.value.SyncOwner? ==>
          && writer.value.sync < |s.syncs| && s.syncs[writer.value.sync].SyncDone?
          && s.lastResult == s.syncs[writer.value.sync].run)
    && (Storing(s) || writer == ended || (writer.Some? && writer.value.SyncOwner?))
    && (writer == ended && (ended.Some? ==> ended.value.JobOwner?) ==>
          s.lastResult == match result case None => EmptyRun(Ok) case Some(run) => run)
    && (ended == None ==> result == None)
  }

  lemma {:induction false} RunOrdered(events: seq<Event>)
    requires Execute(START, events).Some?
    ensures Ordered(Execute(START, events).value, LastEnded(events), LastWriter(events), Ended(events))
    decreases |events|
  {
    hide Invariant, Apply, Ends, EndedBy, EndOf, Reported, Numbered, Ordered;
    if events == [] {
      NothingOrdered();
      assert Execute(START, events) == Some(START);
    } else {
      FrontRuns(events);
      var front, e := events[..|events| - 1], events[|events| - 1];
      var s := Execute(START, front).value;
      RunOrdered(front);
      RunRecords(front);
      KeepsOrdered(s, e, LastEnded(front), LastWriter(front), Ended(front));
    }
  }

  lemma NothingOrdered()
    ensures Ordered(START, None, None, None)
  {
  }

  lemma KeepsOrdered(s: State, e: Event, ended: Option<Owner>, writer: Option<Owner>, result: Option<Run>)
    requires Invariant(s) && Apply(s, e).Some? && Ordered(s, ended, writer, result)
    ensures Ordered(Apply(s, e).value,
                    if Ends(s, e) then Some(EndOf(s, e)) else ended,
                    if e.SyncStore? then Some(SyncOwner(e.sync))
                    else if Ends(s, e) && !e.SyncRelease? then Some(EndOf(s, e)) else writer,
                    if Ends(s, e) then Some(EndedBy(s, e)) else result)
  {
    StepReports(s, e);
    SyncStays(s, e);
    hide Invariant, Apply;
    var s' := Apply(s, e).value;
    if e.SyncRelease? {
      assert s'.syncs[e.sync].SyncReleased?;
    } else if Storing(s) && !e.SyncStore? {
      var i :| 0 <= i < |s.syncs| && s.syncs[i].SyncReleased?;
      assert s'.syncs[i].SyncReleased?;
    }
  }

  // A synchronous call that has ended keeps its result, and one that has stored is done.
  lemma SyncStays(s: State, e: Event)
    requires Apply(s, e).Some?
    ensures var s' := Apply(s, e).value;
            && |s.syncs| <= |s'.syncs|
            && (forall i | 0 <= i < |s.syncs| && !s.syncs[i].SyncRunning? ::
                  && !s'.syncs[i].SyncRunning? && s'.syncs[i].run == s.syncs[i].run
                  && (s.syncs[i].SyncDone? ==> s'.syncs[i].SyncDone?))
            && (e.SyncStore? ==> s'.syncs[e.sync].SyncDone?)
  {
    hide StepJob;
  }

  // The same events, where synchronous calls may have had other results.
  ghost predicate SameEvent(e: Event, e': Event) {
    e == e' || (e.SyncRelease? && e'.SyncRelease? && e.sync == e'.sync)
  }

  ghost predicate SameOrder(events: seq<Event>, events': seq<Event>) {
    |events| == |events'| && forall k | 0 <= k < |events| :: SameEvent(events[k], events'[k])
  }

  ghost predicate Alike(s: State, s': State) {
    && s' == s.(lastResult := s'.lastResult, syncs := s'.syncs)
    && |s'.syncs| == |s.syncs|
    && forall i | 0 <= i < |s.syncs| ::
      && (s.syncs[i].SyncRunning? <==> s'.syncs[i].SyncRunning?)
      && (s.syncs[i].SyncReleased? <==> s'.syncs[i].SyncReleased?)
  }

  // Results decide nothing about the course of a run.
  lemma AlikeStep(s: State, s': State, e: Event, e': Event)
    requires Alike(s, s') && SameEvent(e, e') && Apply(s, e).Some?
    ensures Apply(s', e').Some? && Alike(Apply(s, e).value, Apply(s', e').value)
    ensures Ends(s, e) <==> Ends(s', e')
    ensures Ends(s, e) ==> EndOf(s, e) == EndOf(s', e')
    ensures Ends(s, e) && !e.SyncRelease? ==> EndedBy(s, e) == EndedBy(s', e')
  {
    hide Alike, Apply;
    if e.SyncRelease? || e.SyncBegin? || e.SyncStore? {
      AlikeSync(s, s', e, e');
    } else if e.OnJob? {
      AlikeOnJob(s, s', e);
    } else if e.Submit? || e.Init? {
      AlikeSubmit(s, s', e);
    } else {
      AlikeDeinit(s, s', e);
    }
  }

  lemma AlikeSync(s: State, s': State, e: Event, e': Event)
    requires Alike(s, s') && SameEvent(e, e') && Apply(s, e).Some?
    requires e.SyncRelease? || e.SyncBegin? || e.SyncStore?
    ensures Apply(s', e').Some? && Alike(Apply(s, e).value, Apply(s', e').value)
  {
  }

  lemma AlikeOnJob(s: State, s': State, e: Event)
    requires Alike(s, s') && Apply(s, e).Some? && e.OnJob?
    ensures Apply(s', e).Some? && Alike(Apply(s, e).value, Apply(s', e).value)
    ensures Ends(s, e) <==> Ends(s', e)
    ensures Ends(s, e) ==> EndedBy(s, e) == EndedBy(s', e)
  {
    hide StepJob;
  }

  lemma AlikeSubmit(s: State, s': State, e: Event)
    requires Alike(s, s') && Apply(s, e).Some? && (e.Submit? || e.Init?)
    ensures Apply(s', e).Some? && Alike(Apply(s, e).value, Apply(s', e).value)
    ensures Ends(s, e) <==> Ends(s', e)
    ensures Ends(s, e) ==> EndedBy(s, e) == EndedBy(s', e) && EndOf(s, e) == EndOf(s', e)
  {
  }

  lemma AlikeDeinit(s: State, s': State, e: Event)
    requires Alike(s, s') && Apply(s, e).Some?
    requires e.DeinitBegin? || e.DeinitSignal? || e.DeinitSeesTerminal? || e.DeinitPoll?
    ensures Apply(s', e).Some? && Alike(Apply(s, e).value, Apply(s', e).value)
  {
  }

  lemma {:induction false} AlikeRuns(events: seq<Event>, events': seq<Event>)
    requires Execute(START, events).Some? && SameOrder(events, events')
    ensures Execute(START, events').Some?
    ensures Alike(Execute(START, events).value, Execute(START, events').value)
    ensures LastEnded(events') == LastEnded(events) && LastWriter(events') == LastWriter(events)
    decreases |events|
  {
    hide Apply, Ends, EndedBy, EndOf, Alike;
    if events == [] {
      assert Execute(START, events) == Execute(START, events') == Some(START);
      assert Alike(START, START) by { StartAlike(); }
    } else {
      var n := |events| - 1;
      FrontRuns(events);
      AlikeRuns(events[..n], events'[..n]);
      assert SameEvent(events[n], events'[n]);
      AlikeStep(Execute(START, events[..n]).value, Execute(START, events'[..n]).value, events[n], events'[n]);
      FrontRuns(events');
    }
  }

  lemma StartAlike()
    ensures Alike(START, START)
  {
  }

  // The events with another result for one synchronous call.
  ghost function Redone(events: seq<Event>, i: nat, run: Run): (r: seq<Event>)
    ensures SameOrder(events, r)
  {
    seq(|events|, k requires 0 <= k < |events| =>
      if events[k].SyncRelease? && events[k].sync == i then SyncRelease(i, run) else events[k])
  }

  // That call then has that result, and if it did not end last, the latest result is the same.
  lemma {:induction false} RedoneRuns(events: seq<Event>, i: nat, run: Run)
    requires Execute(START, events).Some?
    ensures Execute(START, Redone(events, i, run)).Some?
    ensures var s := Execute(START, Redone(events, i, run)).value;
            i < |s.syncs| && !s.syncs[i].SyncRunning? ==> s.syncs[i].run == run
    ensures LastEnded(events) != Some(SyncOwner(i)) ==> Ended(Redone(events, i, run)) == Ended(events)
    decreases |events|
  {
    hide Apply, Ends, EndedBy, EndOf, Alike;
    var events' := Redone(events, i, run);
    AlikeRuns(events, events');
    if events == [] {
      assert Execute(START, events') == Some(START);
    } else {
      var n := |events| - 1;
      FrontRuns(events);
      FrontRuns(events');
      assert events'[..n] == Redone(events[..n], i, run);
      RedoneRuns(events[..n], i, run);
      AlikeRuns(events[..n], events'[..n]);
      var s, s' := Execute(START, events[..n]).value, Execute(START, events'[..n]).value;
      AlikeStep(s, s', events[n], events'[n]);
      RedoneStep(s, s', events[n], events'[n], i, run);
    }
  }

  lemma RedoneStep(s: State, s': State, e: Event, e': Event, i: nat, run: Run)
    requires Alike(s, s') && Apply(s, e).Some? && Apply(s', e').Some?
    requires e' == if e.SyncRelease? && e.sync == i then SyncRelease(i, run) else e
    requires i < |s'.syncs| && !s'.syncs[i].SyncRunning? ==> s'.syncs[i].run == run
    ensures var t := Apply(s', e').value;
            i < |t.syncs| && !t.syncs[i].SyncRunning? ==> t.syncs[i].run == run
    ensures Ends(s, e) && EndOf(s, e) != SyncOwner(i) ==>
              Ends(s', e') && EndedBy(s', e') == EndedBy(s, e)
  {
    hide StepJob;
    AlikeStep(s, s', e, e');
  }

  ghost predicate ReportsLatest(events: seq<Event>) {
    Execute(START, events).Some? && Execute(START, events).value.lastResult == Latest(events)
  }

  // The order of events decides it: whenever no call is storing, the last result is the latest run's
  // whatever the results of synchronous calls were, if and only if the run that wrote last is the run
  // that ended last.
  lemma OrderDecides(s: State, events: seq<Event>)
    requires Execute(START, events) == Some(s) && !Storing(s)
    ensures (forall events' | SameOrder(events, events') :: ReportsLatest(events')) <==>
            LastWriter(events) == LastEnded(events)
  {
    hide Apply, Ends, EndedBy, EndOf, Invariant;
    if LastWriter(events) == LastEnded(events) {
      forall events' | SameOrder(events, events')
        ensures ReportsLatest(events')
      {
        AlikeRuns(events, events');
        RunOrdered(events');
      }
    } else {
      RunOrdered(events);
      var i := LastWriter(events).value.sync;
      var run := Latest(events).(blocks := Latest(events).blocks + 1);
      RedoneRuns(events, i, run);
      AlikeRuns(events, Redone(events, i, run));
      RunOrdered(Redone(events, i, run));
      assert !ReportsLatest(Redone(events, i, run));
    }
  }
}
