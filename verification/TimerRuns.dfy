/** Runs of a timer: one worker, any number of schedulers, a mutex and a binary event.  A step ends
    where the code gives the mutex up.  The properties hold in every state of every run. */
module TimerRuns {
  import opened Fields
  import opened TimerQueue

  /** Where the worker is.  It holds the mutex only at the top of its loop. */
  datatype Worker =
    | Starting
    | Top(now: real)
    | Blocked(until: Option<real>, wakeAt: Option<real>)
    | Awake
    | Ready(now: real)
    | Running(work: TimerCallback, waitfor: real, now: real)
    | Exited

  datatype Fate = Popped | Erased | Drained

  /** `owed` counts the threads that have decided to signal the event and have not done so yet.
      Every insertion into the queue gets a ticket; `fate` records how it left the queue. */
  datatype State = State(
    shared: Shared, signalled: bool, owed: nat, worker: Worker,
    draining: seq<TimerCallback>, drained: bool, clock: real,
    next: nat, ticket: map<TimerCallback, nat>, fate: map<nat, Fate>)

  datatype Action =
    | Start
    | Tick(d: real)
    | Work
    | Wake
    | TimeOut
    | ReadClock
    | Relock
    | CallbackDone
    | Schedule(c: TimerCallback, now: real, delay: real, period: real)
    | Signal
    | Cancel(c: TimerCallback)
    | Close
    | DrainStart
    | DrainOne

  // ----- invariants -----

  /** No callback is queued twice, and the queue is sorted by due time. */
  ghost predicate QueueInv(s: State) {
    && Known(s.shared.queue, s.shared.cbs) && Known(s.draining, s.shared.cbs)
    && NoRepeats(s.shared.queue) && NoRepeats(s.draining)
    && (s.draining != [] ==> s.shared.queue == [])
    && (s.shared.queue != [] ==> !s.drained) && (!s.drained ==> s.draining == [])
    && (s.drained ==> s.worker == Exited) && (s.worker == Exited ==> !s.shared.alive)
    && Sorted(s.shared.queue, s.shared.cbs)
  }

  /** While the timer is alive, a callback is on the list exactly if it is in the queue; the one
      callback that is being processed is the one that the worker runs. */
  ghost predicate FlagsInv(s: State) {
    var cbs := s.shared.cbs;
    && (s.shared.alive ==> forall c | c in cbs :: cbs[c].onList <==> c in s.shared.queue)
    && (forall c | c in cbs :: cbs[c].onList ==> c in s.shared.queue || c in s.draining)
    && (forall c | c in cbs :: cbs[c].processing <==> s.worker.Running? && s.worker.work == c)
    && (s.worker.Running? ==> s.worker.work in cbs)
    && (s.worker.Running? && cbs[s.worker.work].onList ==> cbs[s.worker.work].period <= 0.0)
    && (s.shared.waiting <==> s.worker.Blocked? || s.worker.Awake? || s.worker.Ready?)
  }

  /** Something for the worker to do before it would wake up by itself. */
  predicate Needed(s: State)
    requires Known(s.shared.queue, s.shared.cbs)
  {
    s.worker.Blocked? &&
    (!s.shared.alive ||
     (s.shared.queue != [] &&
      (s.worker.until == None || s.shared.cbs[s.shared.queue[0]].timeToRun < s.worker.until.value)))
  }

  /** No lost wakeup. */
  ghost predicate WakeInv(s: State)
    requires Known(s.shared.queue, s.shared.cbs)
  {
    Needed(s) ==> s.signalled || s.owed > 0
  }

  /** Every insertion is still in the queue, or has left it in exactly one way. */
  ghost predicate TicketInv(s: State) {
    var q := s.shared.queue + s.draining;
    && (forall c | c in q :: c in s.ticket && s.ticket[c] < s.next && s.ticket[c] !in s.fate)
    && (forall c, d | c in q && d in q && c != d :: s.ticket[c] != s.ticket[d])
    && (forall t | t in s.fate :: t < s.next)
    && (forall t: nat | t < s.next && t !in s.fate :: InQueue(s, q, t))
  }

  ghost predicate InQueue(s: State, q: seq<TimerCallback>, t: nat)
  {
    exists c | c in q :: c in s.ticket && s.ticket[c] == t
  }

  ghost predicate Inv(s: State) {
    QueueInv(s) && FlagsInv(s) && WakeInv(s) && TicketInv(s)
  }

  // ----- steps -----

  predicate MutexFree(s: State) {
    !s.worker.Top?
  }

  /** A step that some thread can take.  A callback that is being processed must not be scheduled
      with a period, because the worker would queue it a second time. */
  predicate Enabled(s: State, a: Action) {
    match a
    case Start => s.worker.Starting?
    case Tick(d) => d >= 0.0
    case Work => s.worker.Top?
    case Wake => s.worker.Blocked? && s.signalled
    case TimeOut => s.worker.Blocked? && s.worker.wakeAt.Some? && s.worker.wakeAt.value <= s.clock
    case ReadClock => s.worker.Awake?
    case Relock => s.worker.Ready?
    case CallbackDone => s.worker.Running?
    case Schedule(c, now, _, period) =>
      MutexFree(s) && c in s.shared.cbs && now <= s.clock && (s.shared.cbs[c].processing ==> period <= 0.0)
    case Signal => s.owed > 0
    case Cancel(c) => MutexFree(s) && c in s.shared.cbs
    case Close => MutexFree(s)
    case DrainStart => s.worker.Exited? && !s.drained
    case DrainOne => s.draining != []
  }

  function Enter(s: State, c: TimerCallback, shared: Shared): State {
    s.(shared := shared, ticket := s.ticket[c := s.next], next := s.next + 1)
  }

  function Leave(s: State, c: TimerCallback, shared: Shared, how: Fate): State {
    s.(shared := shared, fate := if c in s.ticket then s.fate[s.ticket[c] := how] else s.fate)
  }

  function AfterWork(s: State): State
    requires s.worker.Top? && Known(s.shared.queue, s.shared.cbs)
  {
    var now := s.worker.now;
    var (shared, decision) := NextJob(s.shared, now);
    match decision
    case Exit => s.(worker := Exited)
    case WaitForever => s.(shared := shared, worker := Blocked(None, None))
    case RunJob(work, waitfor) => Leave(s, work, shared, Popped).(worker := Running(work, waitfor, now))
    case WaitFor(waitfor) =>
      s.(shared := shared,
         worker := Blocked(Some(s.shared.cbs[s.shared.queue[0]].timeToRun), Some(s.clock + waitfor)))
  }

  function AfterCallback(s: State): State
    requires s.worker.Running? && Known(s.shared.queue, s.shared.cbs) && s.worker.work in s.shared.cbs
    requires Repeats(s.shared, s.worker.work) ==> !s.shared.cbs[s.worker.work].onList
  {
    var work := s.worker.work;
    var (shared, now) := FinishJob(s.shared, work, s.worker.waitfor, s.worker.now, s.clock);
    (if Repeats(s.shared, work) then Enter(s, work, shared) else s.(shared := shared)).(worker := Top(now))
  }

  function AfterSchedule(s: State, c: TimerCallback, now: real, delay: real, period: real): State
    requires Known(s.shared.queue, s.shared.cbs) && c in s.shared.cbs
  {
    var (shared, outcome) := TimerQueue.Schedule(s.shared, c, now, delay, period);
    match outcome
    case Queued(wakeup) => Enter(s, c, shared).(owed := s.owed + if wakeup then 1 else 0)
    case _ => s
  }

  function AfterCancel(s: State, c: TimerCallback): State
    requires c in s.shared.cbs
  {
    var (shared, _) := TimerQueue.Cancel(s.shared, c);
    if shared.queue != s.shared.queue then Leave(s, c, shared, Erased) else s.(shared := shared)
  }

  function AfterDrainOne(s: State): State
    requires s.draining != [] && s.draining[0] in s.shared.cbs
  {
    var c := s.draining[0];
    var shared := s.shared.(cbs := s.shared.cbs[c := s.shared.cbs[c].(onList := false)]);
    Leave(s, c, shared, Drained).(draining := s.draining[1..])
  }

  ghost function Apply(s: State, a: Action): State
    requires QueueInv(s) && FlagsInv(s) && Enabled(s, a)
  {
    match a
    case Start => s.(worker := Top(s.clock))
    case Tick(d) => s.(clock := s.clock + d)
    case Work => AfterWork(s)
    case Wake => s.(signalled := false, worker := Awake)
    case TimeOut => s.(worker := Awake)
    case ReadClock => s.(worker := Ready(s.clock))
    case Relock => s.(shared := s.shared.(waiting := false), worker := Top(s.worker.now))
    case CallbackDone => AfterCallback(s)
    case Schedule(c, now, delay, period) => AfterSchedule(s, c, now, delay, period)
    case Signal => s.(owed := s.owed - 1, signalled := true)
    case Cancel(c) => AfterCancel(s, c)
    case Close => if s.shared.alive then s.(shared := s.shared.(alive := false), owed := s.owed + 1) else s
    case DrainStart => s.(shared := s.shared.(queue := []), draining := s.shared.queue, drained := true)
    case DrainOne => AfterDrainOne(s)
  }

  // ----- every step keeps the invariants -----

  /** Putting a callback into the queue gives it a ticket of its own. */
  lemma EnterKeeps(s: State, c: TimerCallback, t: State)
    requires TicketInv(s) && c !in s.shared.queue + s.draining && t.draining == s.draining
    requires t.ticket == s.ticket[c := s.next] && t.next == s.next + 1 && t.fate == s.fate
    requires forall x :: x in t.shared.queue <==> x == c || x in s.shared.queue
    ensures TicketInv(t)
  {
    var q0, q1 := s.shared.queue + s.draining, t.shared.queue + t.draining;
    assert forall x :: x in q1 <==> x == c || x in q0;
    forall k: nat | k < t.next && k !in t.fate
      ensures InQueue(t, q1, k)
    {
      if k == s.next {
        assert c in q1;
      } else {
        assert InQueue(s, q0, k);
        var d :| d in q0 && d in s.ticket && s.ticket[d] == k;
        assert d in q1;
      }
    }
  }

  /** Taking a callback out of the queue, in any of the three ways, settles its ticket. */
  lemma LeaveKeeps(s: State, c: TimerCallback, t: State, how: Fate)
    requires TicketInv(s) && c in s.shared.queue + s.draining
    requires t.ticket == s.ticket && t.next == s.next
    requires c in s.ticket ==> t.fate == s.fate[s.ticket[c] := how]
    requires forall x :: x in t.shared.queue + t.draining <==> x in s.shared.queue + s.draining && x != c
    ensures TicketInv(t)
  {
    var q0, q1 := s.shared.queue + s.draining, t.shared.queue + t.draining;
    forall k: nat | k < t.next && k !in t.fate
      ensures InQueue(t, q1, k)
    {
      assert InQueue(s, q0, k);
      var x :| x in q0 && x in s.ticket && s.ticket[x] == k;
      assert x in q1;
    }
  }

  /** Only the queue, what is being drained and the history matter for the tickets. */
  lemma SameTickets(s: State, t: State)
    requires TicketInv(s) && s.shared.queue == t.shared.queue && s.draining == t.draining
    requires s.ticket == t.ticket && s.next == t.next && s.fate == t.fate
    ensures TicketInv(t)
  {
    var q := s.shared.queue + s.draining;
    forall k: nat | k < t.next && k !in t.fate
      ensures InQueue(t, q, k)
    {
      assert InQueue(s, q, k);
    }
  }

  /** Only the due times matter for the order. */
  lemma SortedSame(q: seq<TimerCallback>, a: Callbacks, b: Callbacks)
    requires Known(q, a) && Sorted(q, a)
    requires forall c | c in a :: c in b && b[c].timeToRun == a[c].timeToRun
    ensures Known(q, b) && Sorted(q, b)
  {}

  lemma PopKeeps(s: State)
    requires Inv(s) && s.worker.Top? && NextJob(s.shared, s.worker.now).1.RunJob?
    ensures Inv(AfterWork(s))
  {
    hide TicketInv, Sorted, NoRepeats;
    var t := AfterWork(s);
    var q, rest, work := s.shared.queue, s.shared.queue[1..], s.shared.queue[0];
    FirstErased(q);
    ErasedKeeps(q, s.shared.cbs, 0, rest);
    SortedSame(rest, s.shared.cbs, t.shared.cbs);
    LeaveKeeps(s, work, t, Popped);
  }

  lemma FirstErased(q: seq<TimerCallback>)
    requires q != []
    ensures Shorter(q, 0, q[1..])
  {}

  lemma WorkKeeps(s: State)
    requires Inv(s) && s.worker.Top?
    ensures Inv(AfterWork(s))
  {
    hide TicketInv, Sorted, NoRepeats;
    if NextJob(s.shared, s.worker.now).1.RunJob? {
      PopKeeps(s);
    } else {
      SameTickets(s, AfterWork(s));
    }
  }

  lemma DoneKeeps(s: State)
    requires Inv(s) && s.worker.Running?
    ensures Inv(AfterCallback(s))
  {
    hide TicketInv, Insert, Sorted, NoRepeats;
    var t := AfterCallback(s);
    var work := s.worker.work;
    if Repeats(s.shared, work) {
      var cb := s.shared.cbs[work].(processing := false);
      var next := NextDue(cb.timeToRun, cb.period, s.worker.waitfor, s.worker.now, s.clock);
      var cbs := s.shared.cbs[work := cb.(timeToRun := next.0)];
      SortedOthers(s.shared.queue, s.shared.cbs, cbs, work);
      InsertSorted(s.shared.queue, cbs, work);
      InsertMembers(s.shared.queue, cbs, work);
      SortedSame(t.shared.queue, cbs, t.shared.cbs);
      EnterKeeps(s, work, t);
    } else {
      SortedSame(t.shared.queue, s.shared.cbs, t.shared.cbs);
      SameTickets(s, t);
    }
  }

  lemma SortedOthers(q: seq<TimerCallback>, a: Callbacks, b: Callbacks, c: TimerCallback)
    requires Known(q, a) && Sorted(q, a) && c !in q
    requires forall d | d in a && d != c :: d in b && b[d].timeToRun == a[d].timeToRun
    ensures Known(q, b) && Sorted(q, b)
  {}

  lemma QueuedKeeps(s: State, c: TimerCallback, now: real, delay: real, period: real)
    requires Inv(s) && c in s.shared.cbs && (s.shared.cbs[c].processing ==> period <= 0.0)
    requires !s.shared.cbs[c].onList && s.shared.alive
    ensures Inv(AfterSchedule(s, c, now, delay, period))
  {
    hide TicketInv, Insert, Sorted, NoRepeats, InQueue;
    var t := AfterSchedule(s, c, now, delay, period);
    var cbs := s.shared.cbs[c := s.shared.cbs[c].(timeToRun := now + delay, period := period)];
    var q := Insert(s.shared.queue, cbs, c);
    assert t.shared.queue == q;
    SortedOthers(s.shared.queue, s.shared.cbs, cbs, c);
    InsertSorted(s.shared.queue, cbs, c);
    InsertMembers(s.shared.queue, cbs, c);
    assert QueueInv(t) by { SortedSame(q, cbs, t.shared.cbs); }
    EnterKeeps(s, c, t);
  }

  lemma ScheduleKeeps(s: State, c: TimerCallback, now: real, delay: real, period: real)
    requires Inv(s) && c in s.shared.cbs && (s.shared.cbs[c].processing ==> period <= 0.0)
    ensures Inv(AfterSchedule(s, c, now, delay, period))
  {
    if !s.shared.cbs[c].onList && s.shared.alive {
      QueuedKeeps(s, c, now, delay, period);
    }
  }

  lemma EraseKeeps(s: State, c: TimerCallback)
    requires Inv(s) && c in s.shared.cbs && !s.shared.cbs[c].processing && s.shared.cbs[c].onList && s.shared.alive
    ensures c in s.shared.queue && Inv(AfterCancel(s, c))
  {
    hide TicketInv, Without, Sorted, NoRepeats;
    var rest := Without(s.shared.queue, c);
    WithoutSorted(s.shared.queue, s.shared.cbs, c);
    assert rest != s.shared.queue;
    var t := AfterCancel(s, c);
    assert t.shared.queue == rest;
    assert QueueInv(t) by { SortedSame(rest, s.shared.cbs, t.shared.cbs); }
    assert FlagsInv(t);
    assert WakeInv(t);
    LeaveKeeps(s, c, t, Erased);
  }

  lemma CancelKeeps(s: State, c: TimerCallback)
    requires Inv(s) && c in s.shared.cbs
    ensures Inv(AfterCancel(s, c))
  {
    hide TicketInv, Without, Sorted, NoRepeats;
    var cb := s.shared.cbs[c];
    if !cb.processing && cb.onList && s.shared.alive {
      EraseKeeps(s, c);
    } else {
      var t := AfterCancel(s, c);
      SortedSame(s.shared.queue, s.shared.cbs, t.shared.cbs);
      SameTickets(s, t);
    }
  }

  lemma DrainKeeps(s: State)
    requires Inv(s)
    ensures Enabled(s, DrainStart) ==> Inv(Apply(s, DrainStart))
    ensures Enabled(s, DrainOne) ==> Inv(Apply(s, DrainOne))
  {
    hide TicketInv, Sorted;
    if Enabled(s, DrainStart) {
      var t := Apply(s, DrainStart);
      assert s.shared.queue + s.draining == t.shared.queue + t.draining;
      SortedNone(t.shared.cbs);
      MovedTickets(s, t);
    }
    if Enabled(s, DrainOne) {
      var t := Apply(s, DrainOne);
      SortedNone(t.shared.cbs);
      LeaveKeeps(s, s.draining[0], t, Drained);
    }
  }

  lemma SortedNone(cbs: Callbacks)
    ensures Sorted([], cbs)
  {}

  lemma MovedTickets(s: State, t: State)
    requires TicketInv(s) && s.shared.queue + s.draining == t.shared.queue + t.draining
    requires s.ticket == t.ticket && s.next == t.next && s.fate == t.fate
    ensures TicketInv(t)
  {
    var q := s.shared.queue + s.draining;
    forall k: nat | k < t.next && k !in t.fate
      ensures InQueue(t, q, k)
    {
      assert InQueue(s, q, k);
    }
  }

  lemma StepKeeps(s: State, a: Action)
    requires Inv(s) && Enabled(s, a)
    ensures Inv(Apply(s, a))
  {
    hide TicketInv, Sorted, NoRepeats, AfterWork, AfterCallback, AfterSchedule, AfterCancel, AfterDrainOne;
    match a
    case Work => WorkKeeps(s);
    case CallbackDone => DoneKeeps(s);
    case Schedule(c, now, delay, period) => ScheduleKeeps(s, c, now, delay, period);
    case Cancel(c) => CancelKeeps(s, c);
    case DrainStart => DrainKeeps(s);
    case DrainOne => DrainKeeps(s);
    case _ => SameTickets(s, Apply(s, a));
  }

  // ----- runs -----

  ghost predicate Init(s: State) {
    && s.shared.queue == [] && s.shared.alive && !s.shared.waiting && s.worker == Starting
    && !s.signalled && s.owed == 0 && s.draining == [] && !s.drained
    && s.next == 0 && s.ticket == map[] && s.fate == map[]
    && forall c | c in s.shared.cbs :: !s.shared.cbs[c].onList && !s.shared.cbs[c].processing
  }

  lemma InitInv(s: State)
    requires Init(s)
    ensures Inv(s)
  {}

  /** The actions `steps` lead from `s` to `t`. */
  ghost predicate Run(s: State, steps: seq<Action>, t: State)
    requires Inv(s)
    decreases |steps|
  {
    if steps == [] then t == s
    else Enabled(s, steps[0]) && (StepKeeps(s, steps[0]); Run(Apply(s, steps[0]), steps[1..], t))
  }

  lemma {:induction false} RunKeeps(s: State, steps: seq<Action>, t: State)
    requires Inv(s) && Run(s, steps, t)
    ensures Inv(t)
    decreases |steps|
  {
    if steps != [] {
      StepKeeps(s, steps[0]);
      RunKeeps(Apply(s, steps[0]), steps[1..], t);
    }
  }
}
