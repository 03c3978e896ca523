/** The objects of the timer scheduler. Each method is a run of the step system: a call that is not
    interleaved with others takes exactly the steps named in its contract. */
module TimeoutManagement {
  import opened TimerScheduler

  class BinarySemaphore {
    var value: nat

    ghost predicate Valid()
      reads this
    {
      value <= 1
    }

    constructor (initial: int)
      ensures Valid() && value == if initial == 0 then 0 else 1
    {
      var i := 0;
      if initial != 0 {
        i := 1;
      }
      value := i;
    }

    method TryWait()
      modifies this
      ensures value == if old(value) > 0 then old(value) - 1 else 0
    {
      if value > 0 {
        value := value - 1;
      }
    }

    /** However often it is posted, the value never exceeds one. */
    method Post()
      requires Valid()
      modifies this
      ensures Valid() && value == 1
    {
      TryWait();
      value := value + 1;
    }

    /** A wait that finds the semaphore at 0 ends with the deadline, unless it is interrupted. */
    method TimedWait(interrupted: bool) returns (timedOut: bool)
      modifies this
      ensures timedOut == (old(value) == 0 && !interrupted)
      ensures value == if old(value) > 0 then old(value) - 1 else 0
    {
      if value > 0 {
        value := value - 1;
        timedOut := false;
      } else {
        timedOut := !interrupted;
      }
    }
  }

  class PriorityQueue {
    var q: seq<Timer>
    var counter: nat

    constructor ()
      ensures q == [] && counter == 0
    {
      q, counter := [], 0;
    }

    method Enqueue(t: Timer, signal: bool, listener: BinarySemaphore)
      requires listener.Valid()
      modifies this, listener
      ensures q == Inserted(old(q), t) && counter == old(counter) + 1
      ensures multiset(q) == multiset(old(q)) + multiset{t}
      ensures Sorted(old(q)) ==> Sorted(q) && PutIn(old(q), t, q)
      ensures listener.Valid() && listener.value == if signal then 1 else old(listener.value)
    {
      hide Sorted, PutIn, UpperBound;
      InsertedIsPutIn(q, t);
      var position := UpperBound(q, t);
      q := q[..position] + [t] + q[position..];
      if signal {
        listener.Post();
      }
      counter := counter + 1;
    }

    /** Blocks while the counter is 0. */
    method Dequeue() returns (t: Timer)
      requires counter > 0 && q != []
      modifies this
      ensures old(q) == [t] + q && counter == old(counter) - 1
    {
      counter := counter - 1;
      t := q[0];
      q := q[1..];
    }
  }

  datatype Call = Timeout(timer: Timer) | CancelTimer(timer: Timer)

  /** The steps the worker takes on the timer it holds. */
  function WorkerSteps(t: Timer, canceled: bool, posted: bool, interrupted: bool): seq<Event> {
    if canceled then [Check]
    else if posted then [Check, Wake, Requeue, Repost]
    else if interrupted then [Check, Interrupt, Requeue, Repost]
    else [Check, TimeOut]
  }

  ghost predicate Reaches(s: State, events: seq<Event>, after: State) {
    ValidRun(s, events) && Run(s, events) == after
  }

  lemma OneStep(s: State, e: Event)
    requires Enabled(s, e)
    ensures Reaches(s, [e], Step(s, e))
  {
    assert [e][..0] == [];
  }

  lemma StepMore(s: State, events: seq<Event>, middle: State, e: Event)
    requires Reaches(s, events, middle) && Enabled(middle, e)
    ensures Reaches(s, events + [e], Step(middle, e))
  {
    assert (events + [e])[..|events|] == events;
  }

  lemma TwoSteps(s: State, a: Event, b: Event)
    requires Enabled(s, a) && Enabled(Step(s, a), b)
    ensures Reaches(s, [a, b], Step(Step(s, a), b))
  {
    OneStep(s, a);
    StepMore(s, [a], Step(s, a), b);
    assert [a] + [b] == [a, b];
  }

  /** A woken worker puts its timer back. */
  lemma PutBack(s: State, e: Event)
    requires s.worker.Holding? && s.worker.held !in s.canceled
    requires Enabled(Step(s, Check), e) && (e == Wake || e == Interrupt)
    ensures Reaches(s, [Check, e, Requeue, Repost],
                    s.(queue := Inserted(s.queue, s.worker.held), counter := s.counter + 1, worker := Idle,
                       sem := if e == Wake then s.sem - 1 else s.sem))
  {
    hide Inserted;
    TwoSteps(s, Check, e);
    var woken := Step(Step(s, Check), e);
    StepMore(s, [Check, e], woken, Requeue);
    StepMore(s, [Check, e] + [Requeue], Step(woken, Requeue), Repost);
    assert [Check, e] + [Requeue] + [Repost] == [Check, e, Requeue, Repost];
  }

  class TimeoutEventManager {
    const queue: PriorityQueue
    const semaphore: BinarySemaphore
    var canceled: set<Timer>
    // What was handed to the dispatcher as TimerFiredEvents
    var dispatched: seq<Timer>

    /** The objects hold the shared part of a state. */
    ghost predicate Matches(s: State)
      reads this, queue, semaphore
    {
      && queue.q == s.queue && queue.counter == s.counter
      && semaphore.value == s.sem && semaphore.Valid()
      && canceled == s.canceled && dispatched == s.fired
    }

    constructor ()
      ensures fresh(queue) && fresh(semaphore)
      ensures queue.q == [] && queue.counter == 0 && semaphore.value == 0 && canceled == {} && dispatched == []
      ensures forall clock :: Matches(Init(clock))
    {
      queue := new PriorityQueue();
      semaphore := new BinarySemaphore(0);
      canceled, dispatched := {}, [];
    }

    method ImoduleCancelTimer(t: Timer)
      requires semaphore.Valid()
      modifies this`canceled, semaphore
      ensures canceled == old(canceled) + {t} && semaphore.Valid() && semaphore.value == 1
    {
      canceled := canceled + {t};
      semaphore.Post();
    }

    /** A new timer goes into the queue, in front of all later ones, and the worker is signalled. A
        cancellation is not queued behind timers but takes effect at once. */
    method Enqueue(call: Call, ghost s: State)
      requires Matches(s)
      modifies this`canceled, queue, semaphore
      ensures semaphore.value == 1 && dispatched == old(dispatched)
      ensures call.CancelTimer? ==>
                && canceled == old(canceled) + {call.timer}
                && queue.q == old(queue.q) && queue.counter == old(queue.counter)
                && ValidRun(s, [Event.Cancel(call.timer)]) && Matches(Run(s, [Event.Cancel(call.timer)]))
      ensures call.Timeout? ==>
                && canceled == old(canceled)
                && queue.counter == old(queue.counter) + 1
                && multiset(queue.q) == multiset(old(queue.q)) + multiset{call.timer}
                && (Sorted(old(queue.q)) ==> Sorted(queue.q) && PutIn(old(queue.q), call.timer, queue.q))
                && ValidRun(s, [Event.Enqueue(call.timer), PostCount])
                && Matches(Run(s, [Event.Enqueue(call.timer), PostCount]))
    {
      hide Inserted, Sorted, PutIn;
      match call {
        case CancelTimer(t) =>
          OneStep(s, Event.Cancel(t));
          ImoduleCancelTimer(t);
        case Timeout(t) =>
          TwoSteps(s, Event.Enqueue(t), PostCount);
          queue.Enqueue(t, true, semaphore);
      }
    }

    /** What the worker does with a timer it has dequeued: a cancelled one is dropped and unmarked, one
        whose deadline is reached undisturbed is handed over, any other goes back into the queue. */
    method ImoduleTimeout(t: Timer, interrupted: bool, ghost s: State)
      requires Matches(s) && s.worker == Holding(t)
      requires t !in s.canceled && s.sem == 0 && !interrupted ==> !Earlier(s.clock, t.deadline)
      modifies this, queue, semaphore
      ensures var events := WorkerSteps(t, t in s.canceled, s.sem > 0, interrupted);
              ValidRun(s, events) && Matches(Run(s, events)) && Run(s, events).worker.Idle?
      ensures t in old(canceled) ==>
                && canceled == old(canceled) - {t} && dispatched == old(dispatched)
                && queue.q == old(queue.q) && queue.counter == old(queue.counter)
                && semaphore.value == old(semaphore.value)
      ensures t !in old(canceled) ==> canceled == old(canceled) && semaphore.value == 0
      ensures t !in old(canceled) && old(semaphore.value) == 0 && !interrupted ==>
                && dispatched == old(dispatched) + [t]
                && queue.q == old(queue.q) && queue.counter == old(queue.counter)
      ensures t !in old(canceled) && (old(semaphore.value) > 0 || interrupted) ==>
                && dispatched == old(dispatched)
                && queue.counter == old(queue.counter) + 1
                && multiset(queue.q) == multiset(old(queue.q)) + multiset{t}
                && (Sorted(old(queue.q)) ==> Sorted(queue.q) && PutIn(old(queue.q), t, queue.q))
    {
      hide Inserted, Earlier, Sorted, PutIn;
      if t in canceled {
        OneStep(s, Check);
        canceled := canceled - {t};
        return;
      }
      if semaphore.value > 0 {
        PutBack(s, Wake);
      } else if interrupted {
        PutBack(s, Interrupt);
      } else {
        TwoSteps(s, Check, TimeOut);
      }
      var timedOut := semaphore.TimedWait(interrupted);
      if timedOut {
        dispatched := dispatched + [t];
        return;
      }
      queue.Enqueue(t, false, semaphore);
    }

    /** One round of the worker thread. In every reachable state a positive counter means that there
        is a front to take. */
    method ProcessNext(interrupted: bool, ghost s: State) returns (ghost events: seq<Event>)
      requires Matches(s) && Inv(s) && s.worker.Idle? && queue.counter > 0
      requires s.queue != [] && s.queue[0] !in s.canceled && s.sem == 0 && !interrupted ==>
                 !Earlier(s.clock, s.queue[0].deadline)
      modifies this, queue, semaphore
      ensures ValidRun(s, events) && Matches(Run(s, events)) && Run(s, events).worker.Idle?
      ensures events == [TakeCount, Pop] +
                        WorkerSteps(s.queue[0], s.queue[0] in s.canceled, s.sem > 0, interrupted)
      ensures var t, rest := old(queue.q)[0], old(queue.q)[1..];
              if t in old(canceled) then
                && canceled == old(canceled) - {t} && dispatched == old(dispatched)
                && queue.q == rest && queue.counter == old(queue.counter) - 1
                && semaphore.value == old(semaphore.value)
              else if old(semaphore.value) == 0 && !interrupted then
                && canceled == old(canceled) && dispatched == old(dispatched) + [t]
                && queue.q == rest && queue.counter == old(queue.counter) - 1
                && semaphore.value == 0
              else
                && canceled == old(canceled) && dispatched == old(dispatched)
                && PutIn(rest, t, queue.q) && queue.counter == old(queue.counter)
                && semaphore.value == 0
    {
      hide Inserted, Earlier, Guarded, Conserved, Sorted, PutIn;
      RestIsSorted(s);
      TwoSteps(s, TakeCount, Pop);
      ghost var dequeued := Run(s, [TakeCount, Pop]);
      ghost var more := WorkerSteps(s.queue[0], s.queue[0] in canceled, semaphore.value > 0, interrupted);
      var t := queue.Dequeue();
      ImoduleTimeout(t, interrupted, dequeued);
      JoinRuns(s, [TakeCount, Pop], more);
      events := [TakeCount, Pop] + more;
    }
  }

  lemma RestIsSorted(s: State)
    requires Inv(s) && s.queue != []
    ensures Sorted(s.queue[1..])
  {
  }

  lemma {:induction false} JoinRuns(s: State, first: seq<Event>, second: seq<Event>)
    requires ValidRun(s, first) && ValidRun(Run(s, first), second)
    ensures ValidRun(s, first + second) && Run(s, first + second) == Run(Run(s, first), second)
    decreases |second|
  {
    hide Step, Enabled;
    if second == [] {
      assert first + second == first;
    } else {
      var before := second[..|second| - 1];
      JoinRuns(s, first, before);
      assert (first + second)[..|first + second| - 1] == first + before;
    }
  }
}
