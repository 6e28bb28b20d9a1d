/** The timer's queue and its callbacks: what every critical section of Timer does to them.
    Times are exact reals. */
module TimerQueue {
  import opened Fields

  class TimerCallback {
    var timeToRun: real
    var period: real
    var onList: bool
    var cancelled: bool
    var processing: bool

    constructor ()
      ensures !onList && !cancelled && !processing && period == 0.0
    {
      timeToRun, period := 0.0, 0.0;
      onList, cancelled, processing := false, false, false;
    }
  }

  /** The fields of a callback. */
  datatype Callback = Callback(timeToRun: real, period: real, onList: bool, cancelled: bool, processing: bool)

  type Callbacks = map<TimerCallback, Callback>

  /** What the mutex protects. */
  datatype Shared = Shared(queue: seq<TimerCallback>, cbs: Callbacks, waiting: bool, alive: bool)

  // ----- the sorted queue -----

  predicate Known(q: seq<TimerCallback>, cbs: Callbacks) {
    forall c | c in q :: c in cbs
  }

  predicate Sorted(q: seq<TimerCallback>, cbs: Callbacks)
    requires Known(q, cbs)
  {
    forall i, j | 0 <= i < j < |q| :: cbs[q[i]].timeToRun <= cbs[q[j]].timeToRun
  }

  predicate NoRepeats(q: seq<TimerCallback>) {
    forall i, j | 0 <= i < j < |q| :: q[i] != q[j]
  }

  /** std::list::merge with a list of one element: it goes behind all elements that are not due
      later. */
  function Insert(q: seq<TimerCallback>, cbs: Callbacks, c: TimerCallback): (r: seq<TimerCallback>)
    requires Known(q, cbs) && c in cbs
    ensures |r| == |q| + 1
  {
    if q == [] || cbs[c].timeToRun < cbs[q[0]].timeToRun then [c] + q
    else [q[0]] + Insert(q[1..], cbs, c)
  }

  /** The place of the new element is the only one that keeps the queue sorted and puts it behind
      elements that are due at the same time; the others keep their order. */
  lemma {:induction false} InsertPlace(q: seq<TimerCallback>, cbs: Callbacks, c: TimerCallback, i: nat)
    requires Known(q, cbs) && c in cbs && i <= |q|
    requires forall j | 0 <= j < i :: cbs[q[j]].timeToRun <= cbs[c].timeToRun
    requires i < |q| ==> cbs[c].timeToRun < cbs[q[i]].timeToRun
    ensures Insert(q, cbs, c) == q[..i] + [c] + q[i..]
    decreases i
  {
    if i == 0 {
      assert q[..0] + [c] + q[0..] == [c] + q;
    } else {
      assert forall j | 0 <= j < i - 1 :: q[1..][j] == q[j + 1];
      InsertPlace(q[1..], cbs, c, i - 1);
      assert q[1..][..i - 1] == q[..i][1..];
      assert q[..i] == [q[0]] + q[..i][1..];
    }
  }

  /** There is such a place in every sorted queue. */
  lemma {:induction false} InsertPlaceExists(q: seq<TimerCallback>, cbs: Callbacks, c: TimerCallback) returns (i: nat)
    requires Known(q, cbs) && c in cbs && Sorted(q, cbs)
    ensures i <= |q| && Insert(q, cbs, c) == q[..i] + [c] + q[i..]
    ensures forall j | 0 <= j < i :: cbs[q[j]].timeToRun <= cbs[c].timeToRun
    ensures forall j | i <= j < |q| :: cbs[c].timeToRun < cbs[q[j]].timeToRun
  {
    i := 0;
    while i < |q| && cbs[q[i]].timeToRun <= cbs[c].timeToRun
      invariant i <= |q| && forall j | 0 <= j < i :: cbs[q[j]].timeToRun <= cbs[c].timeToRun
    {
      i := i + 1;
    }
    InsertPlace(q, cbs, c, i);
  }

  /** Position `j` of a queue with `c` put in at `i`. */
  function Spliced(q: seq<TimerCallback>, c: TimerCallback, i: nat, j: nat): TimerCallback
    requires i <= |q| && j <= |q|
  {
    if j < i then q[j] else if j == i then c else q[j - 1]
  }

  lemma InsertIndices(q: seq<TimerCallback>, cbs: Callbacks, c: TimerCallback) returns (i: nat)
    requires Known(q, cbs) && c in cbs && Sorted(q, cbs)
    ensures i <= |q| && forall j | 0 <= j <= |q| :: Insert(q, cbs, c)[j] == Spliced(q, c, i, j)
    ensures forall j | 0 <= j < i :: cbs[q[j]].timeToRun <= cbs[c].timeToRun
    ensures forall j | i <= j < |q| :: cbs[c].timeToRun < cbs[q[j]].timeToRun
  {
    i := InsertPlaceExists(q, cbs, c);
    var head := q[..i] + [c];
    assert Insert(q, cbs, c) == head + q[i..];
    forall j | 0 <= j <= |q|
      ensures Insert(q, cbs, c)[j] == Spliced(q, c, i, j)
    {
      if j <= i { assert (head + q[i..])[j] == head[j]; } else { assert (head + q[i..])[j] == q[i..][j - i - 1]; }
    }
  }

  lemma InsertMembers(q: seq<TimerCallback>, cbs: Callbacks, c: TimerCallback)
    requires Known(q, cbs) && c in cbs && Sorted(q, cbs)
    ensures forall x :: x in Insert(q, cbs, c) <==> x == c || x in q
    ensures Insert(q, cbs, c)[0] == if q == [] || cbs[c].timeToRun < cbs[q[0]].timeToRun then c else q[0]
  {
    var i := InsertPlaceExists(q, cbs, c);
    assert q == q[..i] + q[i..];
  }

  lemma InsertSorted(q: seq<TimerCallback>, cbs: Callbacks, c: TimerCallback)
    requires Known(q, cbs) && c in cbs && Sorted(q, cbs) && NoRepeats(q) && c !in q
    ensures Known(Insert(q, cbs, c), cbs) && Sorted(Insert(q, cbs, c), cbs) && NoRepeats(Insert(q, cbs, c))
  {
    hide Insert;
    var i := InsertIndices(q, cbs, c);
    InsertMembers(q, cbs, c);
  }

  function Without(q: seq<TimerCallback>, c: TimerCallback): (r: seq<TimerCallback>)
  {
    if q == [] then [] else if q[0] == c then q[1..] else [q[0]] + Without(q[1..], c)
  }

  /** Erasing element `i` of a queue without repetitions. */
  lemma {:induction false} WithoutPlace(q: seq<TimerCallback>, c: TimerCallback, i: nat)
    requires NoRepeats(q) && i < |q| && q[i] == c
    ensures Without(q, c) == q[..i] + q[i + 1..]
    decreases i
  {
    if i == 0 {
      assert q[..0] + q[1..] == q[1..];
    } else {
      assert q[1..][i - 1] == c;
      WithoutPlace(q[1..], c, i - 1);
      assert q[1..][..i - 1] == q[..i][1..] && q[1..][i..] == q[i + 1..];
      assert q[..i] == [q[0]] + q[..i][1..];
    }
  }

  /** Position `j` of a queue whose element `i` has been taken out. */
  function Skipping(q: seq<TimerCallback>, i: nat, j: nat): TimerCallback
    requires j + 1 < |q|
  {
    if j < i then q[j] else q[j + 1]
  }

  /** `r` is `q` without its element `i`. */
  predicate Shorter(q: seq<TimerCallback>, i: nat, r: seq<TimerCallback>) {
    && i < |q| && |r| == |q| - 1
    && forall j | 0 <= j < |r| :: r[j] == Skipping(q, i, j)
  }

  lemma WithoutIndices(q: seq<TimerCallback>, c: TimerCallback) returns (i: nat)
    requires NoRepeats(q) && c in q
    ensures Shorter(q, i, Without(q, c)) && q[i] == c
  {
    i :| i < |q| && q[i] == c;
    WithoutPlace(q, c, i);
    ErasedParts(q, i);
  }

  lemma ErasedParts(q: seq<TimerCallback>, i: nat)
    requires i < |q|
    ensures Shorter(q, i, q[..i] + q[i + 1..])
  {
    var head, tail := q[..i], q[i + 1..];
    forall j | 0 <= j < |q| - 1
      ensures (head + tail)[j] == Skipping(q, i, j)
    {
      if j >= i { assert (head + tail)[j] == tail[j - i]; }
    }
  }

  lemma ErasedKeeps(q: seq<TimerCallback>, cbs: Callbacks, i: nat, r: seq<TimerCallback>)
    requires Known(q, cbs) && Sorted(q, cbs) && NoRepeats(q) && Shorter(q, i, r)
    ensures forall x :: x in r <==> x in q && x != q[i]
    ensures Known(r, cbs) && Sorted(r, cbs) && NoRepeats(r)
    ensures r != [] ==> cbs[q[0]].timeToRun <= cbs[r[0]].timeToRun
  {
    forall x | x in q && x != q[i]
      ensures x in r
    {
      var k :| 0 <= k < |q| && q[k] == x;
      assert r[if k < i then k else k - 1] == x;
    }
    forall k | 0 <= k < |r|
      ensures r[k] in q && r[k] != q[i]
    {
      assert r[k] == Skipping(q, i, k);
    }
  }

  lemma WithoutSorted(q: seq<TimerCallback>, cbs: Callbacks, c: TimerCallback)
    requires Known(q, cbs) && Sorted(q, cbs) && NoRepeats(q) && c in q
    ensures forall x :: x in Without(q, c) <==> x in q && x != c
    ensures Known(Without(q, c), cbs) && Sorted(Without(q, c), cbs) && NoRepeats(Without(q, c))
    ensures Without(q, c) != [] ==> q != [] && cbs[q[0]].timeToRun <= cbs[Without(q, c)[0]].timeToRun
  {
    var i := WithoutIndices(q, c);
    ErasedKeeps(q, cbs, i, Without(q, c));
  }

  // ----- critical sections -----

  /** Timer::addElement. */
  function AddElement(s: Shared, c: TimerCallback): Shared
    requires Known(s.queue, s.cbs) && c in s.cbs && !s.cbs[c].onList
  {
    s.(queue := Insert(s.queue, s.cbs, c), cbs := s.cbs[c := s.cbs[c].(onList := true, cancelled := false)])
  }

  /** Timer::cancel. */
  function Cancel(s: Shared, c: TimerCallback): (Shared, bool)
    requires c in s.cbs
  {
    var cb := s.cbs[c];
    if cb.processing then (s.(cbs := s.cbs[c := cb.(cancelled := true)]), true)
    else if !cb.onList then (s, false)
    else if !s.alive then (s.(cbs := s.cbs[c := cb.(onList := false)]), true)
    else (s.(cbs := s.cbs[c := cb.(onList := false)], queue := Without(s.queue, c)), true)
  }

  datatype ScheduleOutcome = AlreadyQueued | Stopped | Queued(wakeup: bool)

  /** Timer::schedulePeriodic, while it holds the mutex. */
  function Schedule(s: Shared, c: TimerCallback, now: real, delay: real, period: real): (Shared, ScheduleOutcome)
    requires Known(s.queue, s.cbs) && c in s.cbs
  {
    if s.cbs[c].onList then (s, AlreadyQueued)
    else if !s.alive then (s, Stopped)
    else
      var t := AddElement(s.(cbs := s.cbs[c := s.cbs[c].(timeToRun := now + delay, period := period)]), c);
      (t, Queued(s.waiting && t.queue[0] == c))
  }

  datatype Decision =
    | Exit
    | WaitForever
    | RunJob(work: TimerCallback, waitfor: real)
    | WaitFor(waitfor: real)

  /** The worker's loop up to the place where it gives the mutex up: it stops, sleeps until it is
      woken, takes the first job off the queue, or sleeps until the first job is due. */
  function NextJob(s: Shared, now: real): (Shared, Decision)
    requires Known(s.queue, s.cbs)
  {
    if !s.alive then (s, Exit)
    else if s.queue == [] then (s.(waiting := true), WaitForever)
    else
      var work := s.queue[0];
      var waitfor := s.cbs[work].timeToRun - now;
      if waitfor <= 0.0 then
        (s.(queue := s.queue[1..], cbs := s.cbs[work := s.cbs[work].(onList := false, processing := true)]),
         RunJob(work, waitfor))
      else (s.(waiting := true), WaitFor(waitfor))
  }

  /** The callback is to be queued again after it has run. */
  predicate Repeats(s: Shared, work: TimerCallback)
    requires work in s.cbs
  {
    s.cbs[work].period > 0.0 && s.alive && !s.cbs[work].cancelled
  }

  /** The next due time of a periodic callback and the worker's idea of the time.  A callback that
      is a full period behind starts a new phase. */
  function NextDue(timeToRun: real, period: real, waitfor: real, now: real, clock: real): (real, real) {
    if waitfor <= -period then (clock + period, clock) else (timeToRun + period, now)
  }

  /** The worker after a callback, from taking the mutex to the top of its loop. */
  function FinishJob(s: Shared, work: TimerCallback, waitfor: real, now: real, clock: real): (Shared, real)
    requires Known(s.queue, s.cbs) && work in s.cbs
    requires Repeats(s, work) ==> !s.cbs[work].onList
  {
    var cb := s.cbs[work].(processing := false);
    if Repeats(s, work) then
      var next := NextDue(cb.timeToRun, cb.period, waitfor, now, clock);
      (AddElement(s.(cbs := s.cbs[work := cb.(timeToRun := next.0)]), work).(waiting := false), next.1)
    else (s.(cbs := s.cbs[work := cb], waiting := false), now)
  }
}
