/** What holds in every run of a timer. */
module TimerLaws {
  import opened Fields
  import opened TimerQueue
  import opened TimerRuns

  // ----- safety in every reachable state -----

  /** When the worker sleeps past the due time of the first job, or the timer has been closed, the
      event is already signalled or some thread is about to signal it. */
  lemma NoLostWakeup(s: State, steps: seq<Action>, t: State)
    requires Init(s) && Run(s, steps, t)
    ensures Known(t.shared.queue, t.shared.cbs)
    ensures t.worker.Blocked? && t.shared.queue != [] &&
            (t.worker.until == None || t.shared.cbs[t.shared.queue[0]].timeToRun < t.worker.until.value)
            ==> t.signalled || t.owed > 0
    ensures t.worker.Blocked? && !t.shared.alive ==> t.signalled || t.owed > 0
  {
    InitInv(s);
    RunKeeps(s, steps, t);
  }

  /** The queue is sorted, holds no callback twice and, while the timer is alive, exactly the
      callbacks that are marked as being on the list; at most one callback is being processed. */
  lemma QueueConserved(s: State, steps: seq<Action>, t: State)
    requires Init(s) && Run(s, steps, t)
    ensures Known(t.shared.queue, t.shared.cbs) && Sorted(t.shared.queue, t.shared.cbs) && NoRepeats(t.shared.queue)
    ensures t.shared.alive ==> forall c | c in t.shared.cbs :: t.shared.cbs[c].onList <==> c in t.shared.queue
    ensures forall c, d | c in t.shared.cbs && d in t.shared.cbs && t.shared.cbs[c].processing && t.shared.cbs[d].processing :: c == d
  {
    InitInv(s);
    RunKeeps(s, steps, t);
  }

  /** How an insertion left the queue is settled once and for all. */
  lemma FateKept(s: State, a: Action)
    requires Inv(s) && Enabled(s, a)
    ensures forall k | k in s.fate :: k in Apply(s, a).fate && Apply(s, a).fate[k] == s.fate[k]
    ensures s.next <= Apply(s, a).next
  {
    hide Sorted, NoRepeats, Insert, Without;
  }

  lemma {:induction false} FateSettled(s: State, steps: seq<Action>, t: State, k: nat)
    requires Inv(s) && Run(s, steps, t) && k in s.fate
    ensures k in t.fate && t.fate[k] == s.fate[k]
    decreases |steps|
  {
    if steps != [] {
      FateKept(s, steps[0]);
      StepKeeps(s, steps[0]);
      FateSettled(Apply(s, steps[0]), steps[1..], t, k);
    }
  }

  /** Every insertion of a run is still in the queue, or was taken out by the worker, by cancel or
      by close; when close has finished, no callback is left on the list. */
  lemma EveryInsertionAccounted(s: State, steps: seq<Action>, t: State, k: nat)
    requires Init(s) && Run(s, steps, t) && k < t.next
    ensures k in t.fate <==> !InQueue(t, t.shared.queue + t.draining, k)
    ensures t.drained && t.draining == [] ==>
      k in t.fate && forall c | c in t.shared.cbs :: !t.shared.cbs[c].onList
  {
    InitInv(s);
    RunKeeps(s, steps, t);
  }

  // ----- cancel -----

  /** No run of `c` can start before it is scheduled again. */
  ghost predicate Idle(s: State, c: TimerCallback) {
    && c in s.shared.cbs
    && (s.shared.alive ==> c !in s.shared.queue)
    && (s.shared.alive && s.shared.cbs[c].processing ==> s.shared.cbs[c].cancelled)
  }

  predicate Starts(s: State, a: Action, c: TimerCallback)
    requires Known(s.shared.queue, s.shared.cbs) && Enabled(s, a)
  {
    a == Work && var d := NextJob(s.shared, s.worker.now).1; d.RunJob? && d.work == c
  }

  /** Cancel keeps its promise unless the callback has queued itself again while it is being
      processed: then cancel does not take it off the queue. */
  lemma CancelIdles(s: State, c: TimerCallback)
    requires Inv(s) && Enabled(s, Cancel(c))
    ensures Idle(Apply(s, Cancel(c)), c) <==>
            !(s.shared.alive && s.shared.cbs[c].processing && s.shared.cbs[c].onList)
  {
    if s.shared.alive && !s.shared.cbs[c].processing && s.shared.cbs[c].onList {
      WithoutSorted(s.shared.queue, s.shared.cbs, c);
    }
  }

  /** One step more at the end of a run. */
  lemma {:induction false} RunFurther(s: State, steps: seq<Action>, t: State, a: Action)
    requires Inv(s) && Run(s, steps, t) && Inv(t) && Enabled(t, a)
    ensures Run(s, steps + [a], Apply(t, a)) && Inv(Apply(t, a))
    decreases |steps|
  {
    hide TicketInv, QueueInv, FlagsInv, WakeInv, Apply;
    StepKeeps(t, a);
    if steps == [] {
      assert steps + [a] == [a] && [a][1..] == [];
    } else {
      StepKeeps(s, steps[0]);
      RunFurther(Apply(s, steps[0]), steps[1..], t, a);
      assert (steps + [a])[0] == steps[0] && (steps + [a])[1..] == steps[1..] + [a];
    }
  }

  /** A callback that schedules itself while it is being run, and is then cancelled, stays queued. */
  lemma CancelledYetQueued(s: State, c: TimerCallback) returns (steps: seq<Action>, t: State)
    requires Init(s) && s.shared.cbs.Keys == {c}
    ensures Inv(s) && Run(s, steps, t) && steps != [] && steps[|steps| - 1] == Cancel(c)
    ensures t.shared.alive && t.shared.queue == [c] && !Idle(t, c)
  {
    hide Inv, TicketInv;
    InitInv(s);
    var again := Schedule(c, s.clock, 0.0, 0.0);
    steps, t := [], s;
    steps, t := steps + [again], Further(s, steps, t, again);
    assert t.shared.queue == [c] && t.worker.Starting?;
    steps, t := steps + [Start], Further(s, steps, t, Start);
    steps, t := steps + [Work], Further(s, steps, t, Work);
    assert t.shared.queue == [] && t.worker.Running?;
    steps, t := steps + [again], Further(s, steps, t, again);
    steps, t := steps + [Cancel(c)], Further(s, steps, t, Cancel(c));
  }

  ghost function Further(s: State, steps: seq<Action>, t: State, a: Action): (u: State)
    requires Inv(s) && Run(s, steps, t) && Inv(t) && Enabled(t, a)
    ensures u == Apply(t, a) && Inv(u) && Run(s, steps + [a], u)
  {
    RunFurther(s, steps, t, a);
    Apply(t, a)
  }

  lemma IdleKept(s: State, a: Action, c: TimerCallback)
    requires Inv(s) && Enabled(s, a) && Idle(s, c)
    requires a.Schedule? ==> a.c != c
    ensures Idle(Apply(s, a), c) && !Starts(s, a, c)
  {
    hide TicketInv, Sorted, NoRepeats, AfterCallback, AfterSchedule, AfterCancel;
    match a
    case CallbackDone => IdleAfterCallback(s, c);
    case Schedule(d, now, delay, period) => IdleAfterSchedule(s, d, now, delay, period, c);
    case Cancel(d) => IdleAfterCancel(s, d, c);
    case _ =>
  }

  lemma IdleAfterCallback(s: State, c: TimerCallback)
    requires Inv(s) && s.worker.Running? && Idle(s, c)
    ensures Idle(AfterCallback(s), c)
  {
    hide TicketInv, Sorted, NoRepeats, Insert;
    CallbackMembers(s);
  }

  lemma IdleAfterSchedule(s: State, d: TimerCallback, now: real, delay: real, period: real, c: TimerCallback)
    requires Inv(s) && d in s.shared.cbs && Idle(s, c) && d != c
    ensures Idle(AfterSchedule(s, d, now, delay, period), c)
  {
    hide TicketInv, Sorted, NoRepeats, Insert;
    ScheduleMembers(s, d, now, delay, period);
  }

  lemma IdleAfterCancel(s: State, d: TimerCallback, c: TimerCallback)
    requires Inv(s) && d in s.shared.cbs && Idle(s, c)
    ensures Idle(AfterCancel(s, d), c)
  {
    hide TicketInv, Sorted, NoRepeats, Without;
    CancelMembers(s, d);
  }

  lemma CancelMembers(s: State, c: TimerCallback)
    requires Inv(s) && c in s.shared.cbs
    ensures forall x :: x in AfterCancel(s, c).shared.queue ==> x in s.shared.queue
    ensures forall x :: x in s.shared.queue && x != c ==> x in AfterCancel(s, c).shared.queue
  {
    if s.shared.cbs[c].onList && s.shared.alive && !s.shared.cbs[c].processing {
      WithoutSorted(s.shared.queue, s.shared.cbs, c);
    }
  }

  lemma CallbackMembers(s: State)
    requires Inv(s) && s.worker.Running?
    ensures forall x :: x in AfterCallback(s).shared.queue <==>
      x in s.shared.queue || (x == s.worker.work && Repeats(s.shared, s.worker.work))
  {
    var work := s.worker.work;
    if Repeats(s.shared, work) {
      var cb := s.shared.cbs[work].(processing := false);
      var next := NextDue(cb.timeToRun, cb.period, s.worker.waitfor, s.worker.now, s.clock);
      var cbs := s.shared.cbs[work := cb.(timeToRun := next.0)];
      SortedOthers(s.shared.queue, s.shared.cbs, cbs, work);
      InsertMembers(s.shared.queue, cbs, work);
    }
  }

  lemma ScheduleMembers(s: State, c: TimerCallback, now: real, delay: real, period: real)
    requires Inv(s) && c in s.shared.cbs
    ensures forall x :: x in AfterSchedule(s, c, now, delay, period).shared.queue <==>
      x in s.shared.queue || (x == c && s.shared.alive)
  {
    if s.shared.alive && !s.shared.cbs[c].onList {
      var cbs := s.shared.cbs[c := s.shared.cbs[c].(timeToRun := now + delay, period := period)];
      SortedOthers(s.shared.queue, s.shared.cbs, cbs, c);
      InsertMembers(s.shared.queue, cbs, c);
    }
  }

  /** No action of the run schedules `c`. */
  predicate NotScheduled(steps: seq<Action>, c: TimerCallback) {
    forall i | 0 <= i < |steps| && steps[i].Schedule? :: steps[i].c != c
  }

  /** How often a run of `c` starts. */
  ghost function Count(s: State, steps: seq<Action>, t: State, c: TimerCallback): nat
    requires Inv(s) && Run(s, steps, t)
    decreases |steps|
  {
    if steps == [] then 0
    else
      StepKeeps(s, steps[0]);
      (if Starts(s, steps[0], c) then 1 else 0) + Count(Apply(s, steps[0]), steps[1..], t, c)
  }

  /** After a cancel, no run of the callback starts until it is scheduled again. */
  lemma {:induction false} IdleNeverStarts(s: State, steps: seq<Action>, t: State, c: TimerCallback)
    requires Inv(s) && Run(s, steps, t) && Idle(s, c) && NotScheduled(steps, c)
    ensures Count(s, steps, t, c) == 0 && Idle(t, c)
    decreases |steps|
  {
    if steps != [] {
      StepKeeps(s, steps[0]);
      IdleKept(s, steps[0], c);
      assert forall i | 0 <= i < |steps[1..]| :: steps[1..][i] == steps[i + 1];
      IdleNeverStarts(Apply(s, steps[0]), steps[1..], t, c);
    }
  }

  // ----- time -----

  /** The worker's idea of the time is never ahead of the clock; a periodic callback that is being
      processed was due `waitfor` after it. */
  ghost predicate TimeInv(s: State) {
    && (s.worker.Top? || s.worker.Ready? || s.worker.Running? ==> s.worker.now <= s.clock)
    && (s.worker.Running? ==> s.worker.waitfor <= 0.0)
    && (s.worker.Running? && s.worker.work in s.shared.cbs && s.shared.cbs[s.worker.work].period > 0.0 ==>
        s.worker.waitfor == s.shared.cbs[s.worker.work].timeToRun - s.worker.now)
  }

  lemma TimeKept(s: State, a: Action)
    requires Inv(s) && TimeInv(s) && Enabled(s, a)
    ensures TimeInv(Apply(s, a))
  {
    hide TicketInv, Sorted, NoRepeats, AfterCallback, AfterSchedule, AfterCancel;
    match a
    case CallbackDone => CallbackTime(s);
    case Schedule(c, now, delay, period) => TimeAfterSchedule(s, c, now, delay, period);
    case Cancel(c) => TimeAfterCancel(s, c);
    case _ =>
  }

  lemma TimeAfterSchedule(s: State, c: TimerCallback, now: real, delay: real, period: real)
    requires Inv(s) && TimeInv(s) && c in s.shared.cbs && (s.shared.cbs[c].processing ==> period <= 0.0)
    ensures TimeInv(AfterSchedule(s, c, now, delay, period))
  {
    hide TicketInv, Sorted, NoRepeats, Insert;
  }

  lemma TimeAfterCancel(s: State, c: TimerCallback)
    requires Inv(s) && TimeInv(s) && c in s.shared.cbs
    ensures TimeInv(AfterCancel(s, c))
  {
    hide TicketInv, Sorted, NoRepeats, Without;
  }

  lemma {:induction false} RunTime(s: State, steps: seq<Action>, t: State)
    requires Inv(s) && TimeInv(s) && Run(s, steps, t)
    ensures TimeInv(t)
    decreases |steps|
  {
    if steps != [] {
      StepKeeps(s, steps[0]);
      TimeKept(s, steps[0]);
      RunTime(Apply(s, steps[0]), steps[1..], t);
    }
  }

  /** No callback runs before it is due. */
  lemma NeverEarly(s: State, steps: seq<Action>, t: State, c: TimerCallback)
    requires Init(s) && Run(s, steps, t) && Known(t.shared.queue, t.shared.cbs)
    requires Enabled(t, Work) && Starts(t, Work, c)
    ensures c in t.shared.cbs && t.shared.cbs[c].timeToRun <= t.clock
    ensures forall d | d in t.shared.queue :: t.shared.cbs[c].timeToRun <= t.shared.cbs[d].timeToRun
  {
    InitInv(s);
    RunKeeps(s, steps, t);
    RunTime(s, steps, t);
  }

  /** The worker's idea of the time is that of the clock when it starts, and after each sleep. */
  lemma ReadsNow(s: State, a: Action)
    requires Inv(s) && Enabled(s, a)
    ensures a == Start ==> Apply(s, a).worker == Top(s.clock)
    ensures a == ReadClock ==> Apply(s, a).worker == Ready(s.clock)
    ensures a == Relock ==> Apply(s, a).worker == Top(s.worker.now)
  {}

  /** The worker starts a callback exactly if the timer is alive and some callback is due by its idea of
      the time; it is the first of those that are due earliest. */
  lemma StartsIffDue(s: State, c: TimerCallback)
    requires Inv(s) && s.worker.Top?
    ensures Starts(s, Work, c) <==>
      && s.shared.alive && s.shared.queue != [] && c == s.shared.queue[0]
      && exists d | d in s.shared.queue :: s.shared.cbs[d].timeToRun <= s.worker.now
  {
    if d :| d in s.shared.queue && s.shared.cbs[d].timeToRun <= s.worker.now {
      var i :| 0 <= i < |s.shared.queue| && s.shared.queue[i] == d;
      assert s.shared.cbs[s.shared.queue[0]].timeToRun <= s.shared.cbs[s.shared.queue[i]].timeToRun;
    }
  }

  // ----- delays -----

  /** `c` was not queued and the timer is alive: the callback is accepted, and is queued for the time that
      was asked for. */
  lemma ScheduledFor(s: State, c: TimerCallback, now: real, delay: real, period: real)
    requires Inv(s) && Enabled(s, Schedule(c, now, delay, period))
    ensures var t := Apply(s, Schedule(c, now, delay, period));
      if s.shared.alive && c !in s.shared.queue then
        && c in t.shared.queue && c in t.shared.cbs
        && t.shared.cbs[c].timeToRun == now + delay && t.shared.cbs[c].period == period && !t.shared.cbs[c].cancelled
        && t.clock == s.clock
      else t == s
  {
    hide TicketInv, Sorted, NoRepeats, Insert;
    ScheduleMembers(s, c, now, delay, period);
  }

  /** In every step that starts `c` the clock shows `due` or later. */
  ghost predicate StartsFrom(s: State, steps: seq<Action>, t: State, c: TimerCallback, due: real)
    requires Inv(s) && Run(s, steps, t)
    decreases |steps|
  {
    steps != [] ==>
      (Starts(s, steps[0], c) ==> due <= s.clock) &&
      (StepKeeps(s, steps[0]); StartsFrom(Apply(s, steps[0]), steps[1..], t, c, due))
  }

  /** The clock has reached `due`, or `c` is not to be run before. */
  ghost predicate DueFrom(s: State, c: TimerCallback, due: real) {
    due <= s.clock ||
    (c in s.shared.cbs && due <= s.shared.cbs[c].timeToRun &&
     (s.worker.Running? && s.worker.work == c ==> s.shared.cbs[c].period <= 0.0))
  }

  lemma ClockForward(s: State, a: Action)
    requires Inv(s) && Enabled(s, a)
    ensures s.clock <= Apply(s, a).clock
  {
    hide TicketInv, Sorted, NoRepeats, Insert, Without;
  }

  lemma DueFromKept(s: State, a: Action, c: TimerCallback, due: real)
    requires Inv(s) && TimeInv(s) && Enabled(s, a) && DueFrom(s, c, due) && (a.Schedule? ==> a.c != c)
    ensures DueFrom(Apply(s, a), c, due) && (Starts(s, a, c) ==> due <= s.clock)
  {
    hide TicketInv, Sorted, NoRepeats, AfterCallback, AfterSchedule, AfterCancel, AfterWork;
    ClockForward(s, a);
    if s.clock < due {
      DueKept(s, a, c);
      if !(a.CallbackDone? && s.worker.work == c) { RunsAfter(s, a, c); } else { CallbackTime(s); }
      if Starts(s, a, c) { StartedDue(s, c); }
    }
  }

  lemma StartedDue(s: State, c: TimerCallback)
    requires Inv(s) && TimeInv(s) && s.worker.Top? && Starts(s, Work, c)
    ensures c in s.shared.cbs && s.shared.cbs[c].timeToRun <= s.clock
  {
    hide TicketInv;
  }

  lemma {:induction false} DueFromStarts(s: State, steps: seq<Action>, t: State, c: TimerCallback, due: real)
    requires Inv(s) && TimeInv(s) && Run(s, steps, t) && NotScheduled(steps, c) && DueFrom(s, c, due)
    ensures StartsFrom(s, steps, t, c, due)
    decreases |steps|
  {
    hide TicketInv, QueueInv, FlagsInv, WakeInv, TimeInv, Apply, DueFrom, Starts;
    if steps != [] {
      StepKeeps(s, steps[0]);
      TimeKept(s, steps[0]);
      DueFromKept(s, steps[0], c, due);
      assert forall i | 0 <= i < |steps[1..]| :: steps[1..][i] == steps[i + 1];
      DueFromStarts(Apply(s, steps[0]), steps[1..], t, c, due);
    }
  }

  /** A callback that is scheduled does not start before the delay that was asked for is over, in any run
      in which it is not scheduled again. */
  lemma NotBeforeDelay(s: State, c: TimerCallback, now: real, delay: real, period: real, steps: seq<Action>, t: State)
    requires Inv(s) && TimeInv(s) && Enabled(s, Schedule(c, now, delay, period)) && s.shared.alive && c !in s.shared.queue
    requires Inv(Apply(s, Schedule(c, now, delay, period)))
    requires Run(Apply(s, Schedule(c, now, delay, period)), steps, t) && NotScheduled(steps, c)
    ensures StartsFrom(Apply(s, Schedule(c, now, delay, period)), steps, t, c, now + delay)
  {
    hide TicketInv, Sorted, NoRepeats, Insert, AfterSchedule;
    var a := Schedule(c, now, delay, period);
    ScheduledFor(s, c, now, delay, period);
    ScheduleWorker(s, c, now, delay, period);
    TimeKept(s, a);
    DueFromStarts(Apply(s, a), steps, t, c, now + delay);
  }

  // ----- periodic callbacks -----

  /** After a callback has run it is in the queue exactly if it has been queued meanwhile, or is periodic,
      has not been cancelled, and the timer is alive.  No other callback is concerned. */
  lemma QueuedAgainIff(s: State, c: TimerCallback)
    requires Inv(s) && s.worker.Running?
    ensures c in Apply(s, CallbackDone).shared.queue <==>
      c in s.shared.queue ||
      (c == s.worker.work && s.shared.cbs[c].period > 0.0 && s.shared.alive && !s.shared.cbs[c].cancelled)
  {
    hide TicketInv, Sorted, NoRepeats, Insert;
    CallbackMembers(s);
  }

  /** A periodic callback that is queued or being run and has not been cancelled. */
  ghost predicate Periodic(s: State, c: TimerCallback) {
    && c in s.shared.cbs && s.shared.cbs[c].period > 0.0 && !s.shared.cbs[c].cancelled
    && (s.shared.alive ==> c in s.shared.queue || s.shared.cbs[c].processing)
  }

  predicate NotCancelled(steps: seq<Action>, c: TimerCallback) {
    forall i | 0 <= i < |steps| && steps[i].Cancel? :: steps[i].c != c
  }

  lemma PeriodicKept(s: State, a: Action, c: TimerCallback)
    requires Inv(s) && Enabled(s, a) && Periodic(s, c) && (a.Schedule? ==> a.c != c) && (a.Cancel? ==> a.c != c)
    ensures Periodic(Apply(s, a), c)
  {
    hide TicketInv, Sorted, NoRepeats, AfterCallback, AfterSchedule, AfterCancel;
    match a
    case CallbackDone => PeriodicAfterCallback(s, c);
    case Schedule(d, now, delay, period) => PeriodicAfterSchedule(s, d, now, delay, period, c);
    case Cancel(d) => PeriodicAfterCancel(s, d, c);
    case _ =>
  }

  lemma PeriodicAfterCallback(s: State, c: TimerCallback)
    requires Inv(s) && s.worker.Running? && Periodic(s, c)
    ensures Periodic(AfterCallback(s), c)
  {
    hide TicketInv, Sorted, NoRepeats, Insert;
    CallbackMembers(s);
  }

  lemma PeriodicAfterSchedule(s: State, d: TimerCallback, now: real, delay: real, period: real, c: TimerCallback)
    requires Inv(s) && d in s.shared.cbs && d != c && Periodic(s, c)
    ensures Periodic(AfterSchedule(s, d, now, delay, period), c)
  {
    hide TicketInv, Sorted, NoRepeats, Insert;
    ScheduleMembers(s, d, now, delay, period);
  }

  lemma PeriodicAfterCancel(s: State, d: TimerCallback, c: TimerCallback)
    requires Inv(s) && d in s.shared.cbs && d != c && Periodic(s, c)
    ensures Periodic(AfterCancel(s, d), c)
  {
    hide TicketInv, Sorted, NoRepeats, Without;
    CancelMembers(s, d);
  }

  /** A periodic callback stays in business: in every later state it is queued or being processed, as long
      as the timer is alive and nobody cancels it or schedules it anew. */
  lemma {:induction false} PeriodicStays(s: State, steps: seq<Action>, t: State, c: TimerCallback)
    requires Inv(s) && Run(s, steps, t) && Periodic(s, c) && NotScheduled(steps, c) && NotCancelled(steps, c)
    ensures Periodic(t, c) && (t.shared.alive ==> c in t.shared.queue || t.shared.cbs[c].processing)
    decreases |steps|
  {
    hide TicketInv, QueueInv, FlagsInv, WakeInv, Apply, Periodic;
    if steps != [] {
      StepKeeps(s, steps[0]);
      PeriodicKept(s, steps[0], c);
      assert forall i | 0 <= i < |steps[1..]| :: steps[1..][i] == steps[i + 1];
      PeriodicStays(Apply(s, steps[0]), steps[1..], t, c);
    }
    PeriodicMeans(t, c);
  }

  lemma PeriodicMeans(t: State, c: TimerCallback)
    ensures Periodic(t, c) ==> c in t.shared.cbs && (t.shared.alive ==> c in t.shared.queue || t.shared.cbs[c].processing)
  {}

  /** Scheduling with a period puts a callback in business, also if it has been cancelled before. */
  lemma ScheduledPeriodic(s: State, c: TimerCallback, now: real, delay: real, period: real)
    requires Inv(s) && Enabled(s, Schedule(c, now, delay, period)) && period > 0.0 && s.shared.alive && c !in s.shared.queue
    ensures Periodic(Apply(s, Schedule(c, now, delay, period)), c)
  {
    hide TicketInv, Sorted, NoRepeats, Insert, AfterSchedule;
    ScheduledFor(s, c, now, delay, period);
  }

  // ----- lateness -----

  /** The worker sleeps until the first job is due, plus the time by which its idea of the time
      is behind the clock.  It wakes up in time exactly if it has read the clock just now. */
  lemma WakesLateBy(s: State)
    requires Inv(s) && TimeInv(s) && s.worker.Top? && NextJob(s.shared, s.worker.now).1.WaitFor?
    ensures var w := AfterWork(s).worker;
      && w.Blocked? && w.until == Some(s.shared.cbs[s.shared.queue[0]].timeToRun)
      && w.wakeAt == Some(w.until.value + (s.clock - s.worker.now))
      && (w.wakeAt == w.until <==> s.worker.now == s.clock)
      && w.wakeAt.value >= w.until.value
  {}

  /** The clock is not read after a callback: when the next job is not due yet, it will be late
      by the time since the clock was last read, the running time of the callback included. */
  lemma SlowCallbackDelaysNext(s: State)
    requires Inv(s) && TimeInv(s) && s.worker.Running? && !Repeats(s.shared, s.worker.work)
    requires s.shared.alive && s.shared.queue != []
    requires s.shared.cbs[s.shared.queue[0]].timeToRun > s.worker.now
    ensures Known(AfterCallback(s).shared.queue, AfterCallback(s).shared.cbs) && AfterCallback(s).worker.Top?
    ensures AfterWork(AfterCallback(s)).worker ==
      (var due := s.shared.cbs[s.shared.queue[0]].timeToRun;
       Blocked(Some(due), Some(due + (s.clock - s.worker.now))))
  {}

  /** A periodic callback is queued again for a time after the worker's idea of the time, at the
      next point of its phase unless it is a full period behind. */
  lemma RequeuedLater(s: State)
    requires Inv(s) && TimeInv(s) && s.worker.Running? && Repeats(s.shared, s.worker.work)
    ensures var t, c := AfterCallback(s), s.worker.work;
      var due, period := s.shared.cbs[c].timeToRun, s.shared.cbs[c].period;
      && t.worker.Top? && c in t.shared.cbs && t.shared.cbs[c].timeToRun > t.worker.now
      && t.shared.cbs[c].timeToRun >= due + period
      && (s.worker.now < due + period ==> t.shared.cbs[c].timeToRun == due + period && t.worker.now == s.worker.now)
      && (s.worker.now >= due + period ==> t.shared.cbs[c].timeToRun == s.clock + period && t.worker.now == s.clock)
  {}

  /** The step leaves due time and period of `c` alone. */
  predicate SameDue(a: Callbacks, b: Callbacks, c: TimerCallback) {
    c in a ==> c in b && b[c].timeToRun == a[c].timeToRun && b[c].period == a[c].period
  }

  lemma CallbackDue(s: State, c: TimerCallback)
    requires Inv(s) && s.worker.Running?
    ensures !(s.worker.work == c && Repeats(s.shared, c)) ==> SameDue(s.shared.cbs, AfterCallback(s).shared.cbs, c)
  {
    hide TicketInv, Sorted, NoRepeats, Insert;
  }

  lemma ScheduleDue(s: State, d: TimerCallback, now: real, delay: real, period: real, c: TimerCallback)
    requires Inv(s) && d in s.shared.cbs
    ensures c in s.shared.queue || c != d ==>
      SameDue(s.shared.cbs, AfterSchedule(s, d, now, delay, period).shared.cbs, c)
  {
    hide TicketInv, Sorted, NoRepeats, Insert;
  }

  lemma CancelDue(s: State, d: TimerCallback, c: TimerCallback)
    requires Inv(s) && d in s.shared.cbs
    ensures SameDue(s.shared.cbs, AfterCancel(s, d).shared.cbs, c)
  {
    hide TicketInv, Sorted, NoRepeats, Without;
  }

  lemma WorkDue(s: State, c: TimerCallback)
    requires Inv(s) && s.worker.Top?
    ensures SameDue(s.shared.cbs, AfterWork(s).shared.cbs, c)
  {
    hide TicketInv, Sorted, NoRepeats;
  }

  /** The due time of a callback changes only when it is scheduled while it is not queued, or is
      queued again by the worker. */
  lemma DueKept(s: State, a: Action, c: TimerCallback)
    requires Inv(s) && Enabled(s, a)
    requires c in s.shared.queue || (a.Schedule? ==> a.c != c)
    requires !(a.CallbackDone? && s.worker.work == c && Repeats(s.shared, c))
    ensures SameDue(s.shared.cbs, Apply(s, a).shared.cbs, c)
  {
    hide TicketInv, Sorted, NoRepeats, Insert, AfterCallback, AfterSchedule, AfterCancel, AfterWork;
    match a
    case CallbackDone => CallbackDue(s, c);
    case Schedule(d, now, delay, period) => ScheduleDue(s, d, now, delay, period, c);
    case Cancel(d) => CancelDue(s, d, c);
    case Work => WorkDue(s, c);
    case _ =>
  }

  /** The callback is not due at the time at which the worker last read the clock. */
  ghost predicate NotYet(s: State, c: TimerCallback) {
    && c in s.shared.cbs && (s.worker.Running? ==> s.worker.work != c)
    && (c in s.shared.queue && (s.worker.Top? || s.worker.Ready? || s.worker.Running?) ==>
        s.shared.cbs[c].timeToRun > s.worker.now)
  }

  /** The worker reads the clock in this step. */
  predicate ReadsClock(s: State, a: Action)
    requires Enabled(s, a)
  {
    a == Start || a == ReadClock ||
    (a == CallbackDone && s.worker.work in s.shared.cbs && Repeats(s.shared, s.worker.work) &&
     s.worker.waitfor <= -s.shared.cbs[s.worker.work].period)
  }

  /** A callback that is not due stays so, and does not start, until the worker reads the clock. */
  lemma NotYetKept(s: State, a: Action, c: TimerCallback)
    requires Inv(s) && TimeInv(s) && Enabled(s, a) && NotYet(s, c) && !ReadsClock(s, a)
    requires a.Schedule? ==> a.c != c
    ensures NotYet(Apply(s, a), c) && !Starts(s, a, c)
  {
    hide TicketInv, Sorted, NoRepeats, AfterCallback, AfterSchedule, AfterCancel;
    DueKept(s, a, c);
    match a
    case CallbackDone => CallbackMembers(s); CallbackTime(s);
    case Schedule(d, now, delay, period) => ScheduleMembers(s, d, now, delay, period); ScheduleWorker(s, d, now, delay, period);
    case Cancel(d) => CancelMembers(s, d); CancelWorker(s, d);
    case _ =>
  }

  lemma CallbackTime(s: State)
    requires Inv(s) && s.worker.Running?
    ensures AfterCallback(s).worker.Top?
    ensures s.worker.now <= s.clock ==> AfterCallback(s).worker.now <= AfterCallback(s).clock
    ensures s.worker.now == AfterCallback(s).worker.now ||
      (Repeats(s.shared, s.worker.work) && s.worker.waitfor <= -s.shared.cbs[s.worker.work].period)
  {
    hide TicketInv, Sorted, NoRepeats, Insert;
  }

  lemma ScheduleWorker(s: State, c: TimerCallback, now: real, delay: real, period: real)
    requires Inv(s) && c in s.shared.cbs
    ensures AfterSchedule(s, c, now, delay, period).worker == s.worker
  {
    hide TicketInv, Sorted, NoRepeats, Insert;
  }

  lemma CancelWorker(s: State, c: TimerCallback)
    requires Inv(s) && c in s.shared.cbs
    ensures AfterCancel(s, c).worker == s.worker
  {
    hide TicketInv, Sorted, NoRepeats, Without;
  }

  /** Not due at the last reading of the clock, or being run and not queued. */
  ghost predicate Served(s: State, c: TimerCallback) {
    NotYet(s, c) || (c in s.shared.cbs && c !in s.shared.queue && s.worker.Running? && s.worker.work == c)
  }

  /** The worker does not read the clock during the run. */
  ghost predicate NeverReads(s: State, steps: seq<Action>, t: State)
    requires Inv(s) && Run(s, steps, t)
    decreases |steps|
  {
    steps != [] ==> !ReadsClock(s, steps[0]) && (StepKeeps(s, steps[0]); NeverReads(Apply(s, steps[0]), steps[1..], t))
  }

  lemma ServedKept(s: State, a: Action, c: TimerCallback)
    requires Inv(s) && TimeInv(s) && Enabled(s, a) && Served(s, c) && !ReadsClock(s, a)
    requires a.Schedule? ==> a.c != c
    ensures Served(Apply(s, a), c) && !Starts(s, a, c)
  {
    hide TicketInv, Sorted, NoRepeats, AfterCallback, AfterSchedule, AfterCancel;
    if NotYet(s, c) {
      NotYetKept(s, a, c);
    } else {
      match a
      case CallbackDone =>
        CallbackMembers(s);
        CallbackTime(s);
        if Repeats(s.shared, c) { RequeuedLater(s); } else { DueKept(s, a, c); }
      case Schedule(d, now, delay, period) =>
        DueKept(s, a, c);
        ScheduleMembers(s, d, now, delay, period);
        ScheduleWorker(s, d, now, delay, period);
      case Cancel(d) => DueKept(s, a, c); CancelMembers(s, d); CancelWorker(s, d);
      case _ =>
    }
  }

  /** A callback that starts has left the queue. */
  lemma StartServes(s: State, a: Action, c: TimerCallback)
    requires Inv(s) && Enabled(s, a) && Starts(s, a, c)
    ensures Served(Apply(s, a), c)
  {
    hide TicketInv, Sorted;
  }

  lemma {:induction false} ServedNeverStarts(s: State, steps: seq<Action>, t: State, c: TimerCallback)
    requires Inv(s) && TimeInv(s) && Run(s, steps, t) && Served(s, c) && NotScheduled(steps, c) && NeverReads(s, steps, t)
    ensures Count(s, steps, t, c) == 0
    decreases |steps|
  {
    hide TicketInv, Sorted, NoRepeats, Served, Apply, ReadsClock;
    if steps != [] {
      StepKeeps(s, steps[0]);
      TimeKept(s, steps[0]);
      assert forall i | 0 <= i < |steps[1..]| :: steps[1..][i] == steps[i + 1];
      ServedKept(s, steps[0], c);
      ServedNeverStarts(Apply(s, steps[0]), steps[1..], t, c);
    }
  }

  /** Between two readings of the clock a callback that is not scheduled anew runs at most once. */
  lemma {:induction false} RunsAtMostOnce(s: State, steps: seq<Action>, t: State, c: TimerCallback)
    requires Inv(s) && TimeInv(s) && Run(s, steps, t) && NotScheduled(steps, c) && NeverReads(s, steps, t)
    ensures Count(s, steps, t, c) <= 1
    decreases |steps|
  {
    hide TicketInv, Sorted, NoRepeats, Served, Apply, ReadsClock;
    if steps != [] {
      var rest := steps[1..];
      StepKeeps(s, steps[0]);
      TimeKept(s, steps[0]);
      assert forall i | 0 <= i < |rest| :: rest[i] == steps[i + 1];
      if Starts(s, steps[0], c) {
        StartServes(s, steps[0], c);
        ServedNeverStarts(Apply(s, steps[0]), rest, t, c);
      } else {
        RunsAtMostOnce(Apply(s, steps[0]), rest, t, c);
      }
    }
  }

  // ----- fairness -----

  /** `c` stays in the queue during the whole run. */
  ghost predicate Waits(s: State, steps: seq<Action>, t: State, c: TimerCallback)
    requires Inv(s) && Run(s, steps, t)
    decreases |steps|
  {
    c in s.shared.queue &&
    (steps != [] ==> (StepKeeps(s, steps[0]); Waits(Apply(s, steps[0]), steps[1..], t, c)))
  }

  /** A waiting callback is overtaken a bounded number of times: a periodic callback `x` that is
      only queued by the worker starts at most once for every period between its due time and
      that of the waiting callback, and once more. */
  lemma {:induction false} OvertakenBoundedly(s: State, steps: seq<Action>, t: State, c: TimerCallback, x: TimerCallback)
    requires Inv(s) && TimeInv(s) && Run(s, steps, t) && Waits(s, steps, t, c)
    requires c != x && c in s.shared.cbs && x in s.shared.cbs && NotScheduled(steps, x) && NotScheduled(steps, c)
    requires s.shared.cbs[x].period > 0.0
    ensures var n := Count(s, steps, t, x);
      n == 0 || Ahead(n, s.worker.Running? && s.worker.work == x, s.shared.cbs[x].period,
                      s.shared.cbs[c].timeToRun - s.shared.cbs[x].timeToRun)
    decreases |steps|
  {
    hide TicketInv, Sorted, NoRepeats, Insert, AfterCallback, AfterSchedule, AfterCancel, AfterWork;
    if steps != [] {
      var a, r, rest := steps[0], Apply(s, steps[0]), steps[1..];
      StepKeeps(s, a);
      TimeKept(s, a);
      assert forall i | 0 <= i < |rest| :: rest[i] == steps[i + 1];
      DueKept(s, a, c);
      if a.CallbackDone? && s.worker.work == x {
        CallbackMembers(s);
        if Repeats(s.shared, x) {
          RequeuedLater(s);
          CallbackPeriod(s);
          OvertakenBoundedly(r, rest, t, c, x);
          OnePeriodLess(Count(r, rest, t, x), s.shared.cbs[x].period,
                        s.shared.cbs[c].timeToRun, s.shared.cbs[x].timeToRun, r.shared.cbs[x].timeToRun);
        } else {
          CallbackIdles(s);
          IdleNeverStarts(r, rest, t, x);
        }
      } else {
        DueKept(s, a, x);
        RunsAfter(s, a, x);
        OvertakenBoundedly(r, rest, t, c, x);
        if Starts(s, a, x) { StartsFirst(s, x, c); }
      }
    }
  }

  lemma OnePeriodLess(n: nat, period: real, dueC: real, dueX: real, dueX': real)
    requires dueX' >= dueX + period && period > 0.0
    requires n == 0 || Ahead(n, false, period, dueC - dueX')
    ensures n == 0 || Ahead(n, true, period, dueC - dueX)
  {
    assert (n as real) * period == (n as real - 1.0) * period + period;
  }

  lemma CallbackPeriod(s: State)
    requires Inv(s) && s.worker.Running?
    ensures s.worker.work in AfterCallback(s).shared.cbs
    ensures AfterCallback(s).shared.cbs[s.worker.work].period == s.shared.cbs[s.worker.work].period
  {
    hide TicketInv, Sorted, NoRepeats, Insert;
  }

  /** A callback that is not queued again has finished. */
  lemma CallbackIdles(s: State)
    requires Inv(s) && s.worker.Running? && !Repeats(s.shared, s.worker.work)
    requires s.shared.cbs[s.worker.work].period > 0.0
    ensures Idle(AfterCallback(s), s.worker.work)
  {
    hide TicketInv, Sorted, NoRepeats, Insert;
  }

  lemma RunsAfter(s: State, a: Action, x: TimerCallback)
    requires Inv(s) && Enabled(s, a) && !(a.CallbackDone? && s.worker.work == x)
    ensures (Apply(s, a).worker.Running? && Apply(s, a).worker.work == x) <==>
            (s.worker.Running? && s.worker.work == x) || Starts(s, a, x)
  {
    hide TicketInv, Sorted, NoRepeats, Insert, Without;
  }

  lemma StartsFirst(s: State, x: TimerCallback, c: TimerCallback)
    requires Inv(s) && Enabled(s, Work) && Starts(s, Work, x) && c in s.shared.queue
    ensures x in s.shared.cbs && s.shared.cbs[x].timeToRun <= s.shared.cbs[c].timeToRun
  {
    hide TicketInv;
  }

  /** `n` more starts, one period apart, fit into `gap`; the first of them is a period away if
      the callback is running already. */
  predicate Ahead(n: nat, running: bool, period: real, gap: real) {
    (if running then n as real else n as real - 1.0) * period <= gap
  }

  // ----- phase -----

  predicate Requeues(s: State, a: Action, c: TimerCallback)
    requires Enabled(s, a)
  {
    a == CallbackDone && s.worker.work == c && c in s.shared.cbs && Repeats(s.shared, c)
  }

  /** How often the worker queues `c` again. */
  ghost function Requeued(s: State, steps: seq<Action>, t: State, c: TimerCallback): nat
    requires Inv(s) && Run(s, steps, t)
    decreases |steps|
  {
    if steps == [] then 0
    else
      StepKeeps(s, steps[0]);
      (if Requeues(s, steps[0], c) then 1 else 0) + Requeued(Apply(s, steps[0]), steps[1..], t, c)
  }

  /** The callback is never a full period behind when it is queued again. */
  ghost predicate KeepsUp(s: State, steps: seq<Action>, t: State, c: TimerCallback)
    requires Inv(s) && Run(s, steps, t)
    decreases |steps|
  {
    steps != [] ==>
      (Requeues(s, steps[0], c) ==> s.worker.now < s.shared.cbs[c].timeToRun + s.shared.cbs[c].period) &&
      (StepKeeps(s, steps[0]); KeepsUp(Apply(s, steps[0]), steps[1..], t, c))
  }

  lemma OneMore(n: nat, p: real)
    ensures ((n + 1) as real) * p == (n as real) * p + p
  {}

  /** Then its due times are whole periods apart: the phase does not drift. */
  lemma {:induction false} PhaseKept(s: State, steps: seq<Action>, t: State, c: TimerCallback)
    requires Inv(s) && TimeInv(s) && Run(s, steps, t) && c in s.shared.cbs && NotScheduled(steps, c)
    requires KeepsUp(s, steps, t, c)
    ensures c in t.shared.cbs && t.shared.cbs[c].period == s.shared.cbs[c].period
    ensures t.shared.cbs[c].timeToRun == s.shared.cbs[c].timeToRun + (Requeued(s, steps, t, c) as real) * s.shared.cbs[c].period
    decreases |steps|
  {
    hide TicketInv, QueueInv, FlagsInv, WakeInv, TimeInv, AfterCallback, AfterSchedule, AfterCancel, AfterWork;
    if steps != [] {
      var a, r, rest := steps[0], Apply(s, steps[0]), steps[1..];
      StepKeeps(s, a);
      TimeKept(s, a);
      assert forall i | 0 <= i < |rest| :: rest[i] == steps[i + 1];
      var n, p := Requeued(r, rest, t, c), s.shared.cbs[c].period;
      if Requeues(s, a, c) {
        RequeuedLater(s);
        CallbackPeriod(s);
        PhaseKept(r, rest, t, c);
        OneMore(n, p);
      } else {
        DueKept(s, a, c);
        PhaseKept(r, rest, t, c);
      }
    }
  }
}
