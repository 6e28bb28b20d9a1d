/** Timer: the methods that run while the mutex is held, on the objects themselves.  Each one does
    to the objects what the function of the same name does to their fields. */
module Timers {
  import opened Fields
  import opened TimerQueue

  function FieldsOf(c: TimerCallback): Callback
    reads c
  {
    Callback(c.timeToRun, c.period, c.onList, c.cancelled, c.processing)
  }

  class Timer {
    var queue: seq<TimerCallback>
    var waiting: bool
    var alive: bool
    /** All callbacks that are used with this timer. */
    ghost var callbacks: set<TimerCallback>

    ghost predicate Valid()
      reads this
    {
      forall c | c in queue :: c in callbacks
    }

    ghost function Snapshot(): (s: Shared)
      reads this, callbacks
    {
      Shared(queue, map c | c in callbacks :: FieldsOf(c), waiting, alive)
    }

    constructor (ghost callbacks: set<TimerCallback>)
      ensures Valid() && this.callbacks == callbacks
      ensures queue == [] && alive && !waiting
    {
      queue, waiting, alive := [], false, true;
      this.callbacks := callbacks;
    }

    method AddElement(c: TimerCallback)
      requires Valid() && c in callbacks && !c.onList
      modifies this`queue, c
      ensures Valid() && Snapshot() == TimerQueue.AddElement(old(Snapshot()), c)
      ensures c in queue && c.onList && !c.cancelled
      ensures c.timeToRun == old(c.timeToRun) && c.period == old(c.period) && c.processing == old(c.processing)
      ensures forall x :: x in queue <==> x == c || x in old(queue)
    {
      hide Insert;
      ghost var s := Snapshot();
      c.onList := true;
      c.cancelled := false;
      assert Snapshot().cbs == s.cbs[c := s.cbs[c].(onList := true, cancelled := false)];
      var i := 0;
      while i < |queue| && queue[i].timeToRun <= c.timeToRun
        invariant 0 <= i <= |queue| && forall j | 0 <= j < i :: queue[j].timeToRun <= c.timeToRun
      {
        i := i + 1;
      }
      InsertPlace(queue, s.cbs, c, i);
      ghost var cbs := Snapshot().cbs;
      queue := queue[..i] + [c] + queue[i..];
      assert Snapshot().cbs == cbs;
    }

    /** The search finds the callback, so the error after it is never raised. */
    method Cancel(c: TimerCallback) returns (r: bool)
      requires Valid() && c in callbacks && NoRepeats(queue)
      requires alive && c.onList && !c.processing ==> c in queue
      modifies this`queue, c
      ensures Valid() && (Snapshot(), r) == TimerQueue.Cancel(old(Snapshot()), c)
      ensures r <==> old(c.processing || c.onList)
      ensures if old(c.processing) then c.cancelled && queue == old(queue) else !c.onList && (alive && r ==> c !in queue)
    {
      ghost var s := Snapshot();
      if c.processing {
        c.cancelled := true;
        assert Snapshot().cbs == s.cbs[c := s.cbs[c].(cancelled := true)];
        return true;
      }
      if !c.onList {
        return false;
      }
      if !alive {
        c.onList := false;
        assert Snapshot().cbs == s.cbs[c := s.cbs[c].(onList := false)];
        return true;
      }
      var it := 0;
      while it < |queue| && queue[it] != c
        invariant 0 <= it <= |queue| && forall j | 0 <= j < it :: queue[j] != c
      {
        it := it + 1;
      }
      WithoutPlace(queue, c, it);
      c.onList := false;
      queue := queue[..it] + queue[it + 1..];
      assert Snapshot().cbs == s.cbs[c := s.cbs[c].(onList := false)];
      return true;
    }

    method IsScheduled(c: TimerCallback) returns (r: bool)
      requires c in callbacks
      ensures r == Snapshot().cbs[c].onList
    {
      return c.onList;
    }

    /** The part of schedulePeriodic that holds the mutex; the caller signals the event if told to. */
    method SchedulePeriodic(c: TimerCallback, now: real, delay: real, period: real) returns (outcome: ScheduleOutcome)
      requires Valid() && c in callbacks
      modifies this`queue, c
      ensures Valid() && (Snapshot(), outcome) == TimerQueue.Schedule(old(Snapshot()), c, now, delay, period)
      ensures outcome.Queued? <==> !old(c.onList) && alive
      ensures outcome.Queued? ==>
        && c in queue && c.onList && !c.cancelled && c.timeToRun == now + delay && c.period == period
        && (outcome.wakeup <==> waiting && queue[0] == c)
      ensures !outcome.Queued? ==> queue == old(queue) && FieldsOf(c) == old(FieldsOf(c)) && (outcome.Stopped? <==> !c.onList)
    {
      ghost var s := Snapshot();
      if c.onList {
        return AlreadyQueued;
      }
      if !alive {
        return Stopped;
      }
      c.timeToRun := now + delay;
      c.period := period;
      assert Snapshot().cbs == s.cbs[c := s.cbs[c].(timeToRun := now + delay, period := period)];
      AddElement(c);
      return Queued(waiting && queue[0] == c);
    }

    /** The worker's loop, from its top to the place where it gives the mutex up. */
    method NextJob(now: real) returns (d: Decision)
      requires Valid()
      modifies this`queue, this`waiting, callbacks
      ensures Valid() && (Snapshot(), d) == TimerQueue.NextJob(old(Snapshot()), now)
      ensures d == Exit <==> !alive
      ensures d == WaitForever <==> alive && old(queue) == []
      ensures d.RunJob? <==> alive && old(queue) != [] && old(queue[0].timeToRun) <= now
      ensures d.RunJob? ==>
        && d.work == old(queue)[0] && d.waitfor == old(queue[0].timeToRun) - now
        && queue == old(queue)[1..] && d.work.processing && !d.work.onList
      ensures d.WaitFor? ==> d.waitfor == old(queue[0].timeToRun) - now
      ensures waiting <==> old(waiting) || d.WaitForever? || d.WaitFor?
    {
      ghost var s := Snapshot();
      if !alive {
        return Exit;
      }
      if queue == [] {
        waiting := true;
        assert Snapshot().cbs == s.cbs;
        return WaitForever;
      }
      var work := queue[0];
      var waitfor := work.timeToRun - now;
      if waitfor <= 0.0 {
        work.onList := false;
        work.processing := true;
        queue := queue[1..];
        assert Snapshot().cbs == s.cbs[work := s.cbs[work].(onList := false, processing := true)];
        return RunJob(work, waitfor);
      }
      waiting := true;
      assert Snapshot().cbs == s.cbs;
      return WaitFor(waitfor);
    }

    /** The next due time of a periodic callback; one that is a full period behind starts a new
        phase. */
    static method Advance(work: TimerCallback, waitfor: real, now: real, clock: real) returns (now': real)
      modifies work`timeToRun
      ensures (work.timeToRun, now') == NextDue(old(work.timeToRun), work.period, waitfor, now, clock)
      ensures if waitfor <= -work.period then work.timeToRun == clock + work.period && now' == clock
        else work.timeToRun == old(work.timeToRun) + work.period && now' == now
    {
      now' := now;
      if waitfor <= -work.period {
        now' := clock;
        work.timeToRun := now';
      }
      work.timeToRun := work.timeToRun + work.period;
    }

    /** The worker's loop after a callback, up to its end. */
    method FinishJob(work: TimerCallback, waitfor: real, now: real, clock: real) returns (now': real)
      requires Valid() && work in callbacks
      requires Repeats(Snapshot(), work) ==> !work.onList
      modifies this`queue, this`waiting, work
      ensures Valid() && (Snapshot(), now') == TimerQueue.FinishJob(old(Snapshot()), work, waitfor, now, clock)
      ensures !work.processing && !waiting
      ensures work in queue <==> work in old(queue) || (work.period > 0.0 && alive && !old(work.cancelled))
      ensures work.period == old(work.period)
    {
      hide Insert, TimerQueue.AddElement;
      ghost var s := Snapshot();
      now' := now;
      work.processing := false;
      assert Snapshot().cbs == s.cbs[work := s.cbs[work].(processing := false)];
      if work.period > 0.0 && alive && !work.cancelled {
        now' := Requeue(work, waitfor, now, clock);
        ghost var cb := s.cbs[work].(processing := false);
        ghost var again := cb.(timeToRun := NextDue(cb.timeToRun, cb.period, waitfor, now, clock).0);
        assert s.cbs[work := cb][work := again] == s.cbs[work := again];
      }
      ghost var cbs := Snapshot().cbs;
      waiting := false;
      assert Snapshot().cbs == cbs;
    }

    method Requeue(work: TimerCallback, waitfor: real, now: real, clock: real) returns (now': real)
      requires Valid() && work in callbacks && !work.onList
      modifies this`queue, work
      ensures Valid() && work.period == old(work.period) && work.processing == old(work.processing) && work in queue
      ensures var s, next := old(Snapshot()), NextDue(old(work.timeToRun), old(work.period), waitfor, now, clock);
        && now' == next.1
        && Snapshot() == TimerQueue.AddElement(s.(cbs := s.cbs[work := s.cbs[work].(timeToRun := next.0)]), work)
    {
      hide Insert, TimerQueue.AddElement;
      ghost var s := Snapshot();
      now' := Advance(work, waitfor, now, clock);
      assert Snapshot().cbs == s.cbs[work := s.cbs[work].(timeToRun := NextDue(s.cbs[work].timeToRun, work.period, waitfor, now, clock).0)];
      AddElement(work);
    }

    /** The first call ends the life of the timer, later calls do nothing. */
    method Close() returns (first: bool)
      modifies this`alive
      ensures first == old(alive) && !alive
    {
      first := alive;
      alive := false;
    }

    /** After the worker has stopped, every queued callback is told so, in order. */
    method Drain() returns (stopped: seq<TimerCallback>)
      requires Valid() && !alive
      modifies this`queue, callbacks
      ensures queue == [] && stopped == old(queue)
      ensures forall c | c in callbacks ::
        FieldsOf(c) == if c in old(queue) then old(FieldsOf(c)).(onList := false) else old(FieldsOf(c))
    {
      var temp := queue;
      queue := [];
      stopped := [];
      while temp != []
        invariant queue == [] && stopped + temp == old(queue)
        invariant forall c | c in callbacks ::
          FieldsOf(c) == if c in stopped then old(FieldsOf(c)).(onList := false) else old(FieldsOf(c))
        decreases |temp|
      {
        var head := temp[0];
        head.onList := false;
        stopped := stopped + [head];
        temp := temp[1..];
      }
    }
  }
}
