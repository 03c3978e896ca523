/** The timer scheduler as a step system: callers enqueue and cancel timers, one worker thread holds
    the earliest timer and waits for its deadline on a binary semaphore. */
module TimerScheduler {

  datatype Time = Time(sec: int, nsec: int)

  // A timer is an object with an identity and an absolute deadline
  datatype Timer = Timer(id: nat, deadline: Time)

  predicate Earlier(a: Time, b: Time) {
    if a.sec < b.sec then true
    else if a.sec == b.sec && a.nsec < b.nsec then true
    else false
  }

  predicate Before(a: Timer, b: Timer) {
    Earlier(a.deadline, b.deadline)
  }

  const NANOSECONDS := 1_000_000_000

  function Instant(t: Time): int {
    NANOSECONDS * t.sec + t.nsec
  }

  /** On normalized times the order is the order of instants. */
  lemma OrderOfInstants(a: Time, b: Time)
    requires 0 <= a.nsec < NANOSECONDS && 0 <= b.nsec < NANOSECONDS
    ensures Earlier(a, b) <==> Instant(a) < Instant(b)
  {
  }

  // ---------- the sorted queue ----------

  ghost predicate Sorted(q: seq<Timer>) {
    forall i, j :: 0 <= i < j < |q| ==> !Before(q[j], q[i])
  }

  /** The position upper_bound finds: the first element that comes after `t`. */
  function UpperBound(q: seq<Timer>, t: Timer): (k: nat)
    ensures k <= |q| && (forall i :: 0 <= i < k ==> !Before(t, q[i])) && (k < |q| ==> Before(t, q[k]))
  {
    if q == [] || Before(t, q[0]) then 0 else 1 + UpperBound(q[1..], t)
  }

  function Inserted(q: seq<Timer>, t: Timer): seq<Timer> {
    var k := UpperBound(q, t);
    q[..k] + [t] + q[k..]
  }

  /** On all times it is a strict weak order, as searching a sorted list requires. */
  lemma WeakOrder(a: Timer, b: Timer, c: Timer)
    ensures !Before(a, a)
    ensures Before(a, b) ==> !Before(b, a)
    ensures Before(a, b) ==> Before(a, c) || Before(c, b)
    ensures Before(a, b) && Before(b, c) ==> Before(a, c)
  {
  }

  /** In a sorted queue the bound divides what comes after `t` from what does not. */
  lemma BoundDivides(q: seq<Timer>, t: Timer)
    requires Sorted(q)
    ensures forall i :: 0 <= i < |q| ==> (i < UpperBound(q, t) <==> !Before(t, q[i]))
  {
    hide Before;
    var k := UpperBound(q, t);
    forall i | k <= i < |q| ensures Before(t, q[i]) {
      WeakOrder(t, q[k], q[i]);
    }
  }

  /** Insertion keeps the queue sorted and puts a timer behind its equals. */
  lemma InsertedIsSorted(q: seq<Timer>, t: Timer)
    requires Sorted(q)
    ensures Sorted(Inserted(q, t))
    ensures var k := UpperBound(q, t);
            Inserted(q, t)[k] == t && (forall i :: 0 <= i < |q| ==> (i < k <==> !Before(t, q[i])))
  {
    hide Before, UpperBound;
    var k := UpperBound(q, t);
    BoundDivides(q, t);
    forall i | k <= i < |q| ensures !Before(q[i], t) {
      WeakOrder(t, q[i], t);
    }
  }

  /** `t` has come into the queue in front of exactly the timers with later deadlines. */
  ghost predicate PutIn(q: seq<Timer>, t: Timer, after: seq<Timer>) {
    exists k: nat :: PutAt(q, t, after, k)
  }

  ghost predicate PutAt(q: seq<Timer>, t: Timer, after: seq<Timer>, k: nat) {
    && k <= |q| && after == q[..k] + [t] + q[k..]
    && forall i :: 0 <= i < |q| ==> (k <= i <==> Earlier(t.deadline, q[i].deadline))
  }

  lemma InsertedIsPutIn(q: seq<Timer>, t: Timer)
    ensures multiset(Inserted(q, t)) == multiset(q) + multiset{t}
    ensures Sorted(q) ==> Sorted(Inserted(q, t)) && PutIn(q, t, Inserted(q, t))
  {
    hide Earlier, Sorted;
    InsertedContents(q, t);
    if Sorted(q) {
      InsertedIsSorted(q, t);
      assert PutAt(q, t, Inserted(q, t), UpperBound(q, t));
    }
  }

  lemma InsertedContents(q: seq<Timer>, t: Timer)
    ensures |Inserted(q, t)| == |q| + 1
    ensures multiset(Inserted(q, t)) == multiset(q) + multiset{t}
    ensures forall u :: u in Inserted(q, t) <==> u in q || u == t
  {
    hide UpperBound;
    var k := UpperBound(q, t);
    assert q == q[..k] + q[k..];
  }

  // ---------- states and steps ----------

  datatype Worker =
    | Idle                   // about to wait on the counter of the queue
    | Counted                // has taken a count, not yet the front of the queue
    | Holding(held: Timer)   // has dequeued a timer, not yet looked at the cancellations
    | Waiting(held: Timer)   // in the timed wait
    | Woken(held: Timer)     // the wait ended before the deadline
    | Posting                // has put the timer back, not yet posted the counter
    | Undefined              // has read the front of an empty list

  datatype State = State(
    queue: seq<Timer>,
    counter: nat,             // the counting semaphore of the queue
    pending: nat,             // callers that have inserted but not yet posted the counter
    sem: nat,                 // the binary semaphore
    canceled: set<Timer>,
    worker: Worker,
    clock: Time,
    enqueued: multiset<Timer>, // history: enqueued by callers,
    fired: seq<Timer>,         // handed to the dispatcher,
    dropped: seq<Timer>)       // discarded because of a cancellation

  datatype Event =
    | Enqueue(timer: Timer) | PostCount | Cancel(timer: Timer) | Tick(now: Time)
    | TakeCount | Pop | Check | Wake | Interrupt | TimeOut | Requeue | Repost

  function Init(clock: Time): State {
    State([], 0, 0, 0, {}, Idle, clock, multiset{}, [], [])
  }

  predicate Enabled(s: State, e: Event) {
    match e
    case Enqueue(_) => true
    case PostCount => s.pending > 0
    case Cancel(_) => true
    case Tick(now) => !Earlier(now, s.clock)
    case TakeCount => s.worker.Idle? && s.counter > 0
    case Pop => s.worker.Counted?
    case Check => s.worker.Holding?
    case Wake => s.worker.Waiting? && s.sem > 0
    case Interrupt => s.worker.Waiting?
    case TimeOut => s.worker.Waiting? && s.sem == 0 && !Earlier(s.clock, s.worker.held.deadline)
    case Requeue => s.worker.Woken?
    case Repost => s.worker.Posting?
  }

  function Step(s: State, e: Event): State
    requires Enabled(s, e)
  {
    match e
    case Enqueue(t) =>
      s.(queue := Inserted(s.queue, t), pending := s.pending + 1, sem := 1, enqueued := s.enqueued + multiset{t})
    case PostCount => s.(pending := s.pending - 1, counter := s.counter + 1)
    case Cancel(t) => s.(canceled := s.canceled + {t}, sem := 1)
    case Tick(now) => s.(clock := now)
    case TakeCount => s.(counter := s.counter - 1, worker := Counted)
    case Pop =>
      if s.queue == [] then s.(worker := Undefined)
      else s.(queue := s.queue[1..], worker := Holding(s.queue[0]))
    case Check =>
      var t := s.worker.held;
      if t in s.canceled then s.(canceled := s.canceled - {t}, worker := Idle, dropped := s.dropped + [t])
      else s.(worker := Waiting(t))
    case Wake => s.(sem := s.sem - 1, worker := Woken(s.worker.held))
    case Interrupt => s.(worker := Woken(s.worker.held))
    case TimeOut => s.(worker := Idle, fired := s.fired + [s.worker.held])
    case Requeue => s.(queue := Inserted(s.queue, s.worker.held), worker := Posting)
    case Repost => s.(counter := s.counter + 1, worker := Idle)
  }

  ghost predicate ValidRun(s: State, events: seq<Event>)
    decreases |events|, 0
  {
    events != [] ==>
      var before := events[..|events| - 1];
      ValidRun(s, before) && Enabled(Run(s, before), events[|events| - 1])
  }

  /** The state after some events. */
  ghost function Run(s: State, events: seq<Event>): State
    requires ValidRun(s, events)
    decreases |events|, 1
  {
    if events == [] then s
    else Step(Run(s, events[..|events| - 1]), events[|events| - 1])
  }

  lemma {:induction false} PrefixOfRun(s: State, events: seq<Event>, i: nat)
    requires ValidRun(s, events) && i <= |events|
    ensures ValidRun(s, events[..i])
    ensures i < |events| ==> Enabled(Run(s, events[..i]), events[i]) && ValidRun(s, events[..i + 1])
                             && Run(s, events[..i + 1]) == Step(Run(s, events[..i]), events[i])
  {
    if i == |events| {
      assert events[..i] == events;
    } else {
      var before := events[..|events| - 1];
      PrefixOfRun(s, before, i);
      assert before[..i] == events[..i];
      assert events[..i + 1][..i] == events[..i];
      if i + 1 < |events| {
        assert before[..i + 1] == events[..i + 1];
      } else {
        assert events[..i + 1] == events;
      }
    }
  }

  // ---------- the invariant ----------

  predicate Holds(w: Worker, t: Timer) {
    (w.Holding? || w.Waiting? || w.Woken?) && w.held == t
  }

  ghost function Count(q: seq<Timer>, t: Timer): nat {
    multiset(q)[t]
  }

  /** In how many places a timer is. */
  ghost function Copies(s: State, t: Timer): nat {
    Count(s.queue, t) + (if Holds(s.worker, t) then 1 else 0) + Count(s.fired, t) + Count(s.dropped, t)
  }

  ghost predicate NoneBefore(q: seq<Timer>, t: Timer) {
    forall u :: u in q ==> !Before(u, t)
  }

  /** The counter of the queue, together with the operations that are midway. */
  ghost predicate Counts(s: State) {
    && s.sem <= 1 && !s.worker.Undefined?
    && s.counter + s.pending + (if s.worker.Counted? || s.worker.Posting? then 1 else 0) == |s.queue|
  }

  /** Every timer is in as many places as it was enqueued times: queued, held, fired or dropped. */
  ghost predicate Conserved(s: State) {
    forall t :: Copies(s, t) == s.enqueued[t]
  }

  /** Unless the semaphore says so, nothing has happened that the worker should wake up for. */
  ghost predicate Guarded(s: State) {
    && Sorted(s.queue)
    && (s.sem == 0 && (s.worker.Holding? || s.worker.Waiting?) ==> NoneBefore(s.queue, s.worker.held))
    && (s.sem == 0 && s.worker.Waiting? ==> s.worker.held !in s.canceled)
  }

  ghost predicate Inv(s: State) {
    Counts(s) && Conserved(s) && Guarded(s)
  }

  lemma StepCounts(s: State, e: Event)
    requires Counts(s) && Enabled(s, e)
    ensures Counts(Step(s, e))
  {
    hide Inserted, Earlier;
    InsertedContents(s.queue, if e.Enqueue? then e.timer else if e.Requeue? then s.worker.held else Timer(0, s.clock));
  }

  lemma CountSplits(a: seq<Timer>, b: seq<Timer>, t: Timer)
    ensures Count(a + b, t) == Count(a, t) + Count(b, t)
    ensures forall u :: Count([u], t) == if u == t then 1 else 0
  {
  }

  lemma CopiesStep(s: State, e: Event, t: Timer)
    requires Enabled(s, e)
    ensures Copies(Step(s, e), t) == Copies(s, t) + if e == Enqueue(t) then 1 else 0
  {
    hide Inserted, Earlier, Count;
    if e.Enqueue? {
      InsertedCount(s.queue, e.timer, t);
    } else if e.Requeue? {
      InsertedCount(s.queue, s.worker.held, t);
    } else if e.Pop? && s.queue != [] {
      assert s.queue == [s.queue[0]] + s.queue[1..];
      CountSplits([s.queue[0]], s.queue[1..], t);
    } else if e.TimeOut? {
      CountSplits(s.fired, [s.worker.held], t);
    } else if e.Check? {
      CountSplits(s.dropped, [s.worker.held], t);
    }
  }

  lemma InsertedCount(q: seq<Timer>, u: Timer, t: Timer)
    ensures Count(Inserted(q, u), t) == Count(q, t) + if u == t then 1 else 0
  {
    InsertedContents(q, u);
  }

  lemma StepConserves(s: State, e: Event)
    requires Conserved(s) && Enabled(s, e)
    ensures Conserved(Step(s, e))
  {
    hide Copies, Enabled, Inserted;
    forall t ensures Copies(Step(s, e), t) == Step(s, e).enqueued[t] {
      CopiesStep(s, e, t);
    }
  }

  lemma StepGuards(s: State, e: Event)
    requires Guarded(s) && Enabled(s, e)
    ensures Guarded(Step(s, e))
  {
    hide Inserted, Before, Earlier;
    match e {
      case Enqueue(t) => InsertedIsSorted(s.queue, t);
      case Requeue => InsertedIsSorted(s.queue, s.worker.held);
      case _ =>
    }
  }

  lemma StepKeepsInv(s: State, e: Event)
    requires Inv(s) && Enabled(s, e)
    ensures Inv(Step(s, e))
  {
    hide Counts, Conserved, Guarded, Step, Enabled;
    StepCounts(s, e);
    StepConserves(s, e);
    StepGuards(s, e);
  }

  /** The invariant holds in every reachable state: the queue is sorted and never read when empty,
      its counter is its length up to operations that are midway, no timer is lost or duplicated, and
      while the semaphore is 0 the timer waited on is neither cancelled nor preceded by a queued one. */
  lemma {:induction false} RunKeepsInv(clock: Time, events: seq<Event>)
    requires ValidRun(Init(clock), events)
    ensures Inv(Run(Init(clock), events))
  {
    hide Inv, Step, Enabled;
    if events != [] {
      var before := events[..|events| - 1];
      RunKeepsInv(clock, before);
      StepKeepsInv(Run(Init(clock), before), events[|events| - 1]);
    } else {
      InitKeepsInv(clock);
    }
  }

  lemma InitKeepsInv(clock: Time)
    ensures Inv(Init(clock))
  {
  }

  // ---------- what the invariant is for ----------

  /** A worker that has taken a count finds a timer at the front of the queue. */
  lemma FrontIsThere(clock: Time, events: seq<Event>)
    requires ValidRun(Init(clock), events)
    ensures Run(Init(clock), events).worker.Counted? ==> Run(Init(clock), events).queue != []
  {
    hide Guarded, Conserved;
    RunKeepsInv(clock, events);
  }

  /** A timer is handed over only when it is due, not cancelled, and the earliest one present. */
  lemma FiresRight(clock: Time, events: seq<Event>, i: nat)
    requires ValidRun(Init(clock), events) && i < |events| && events[i].TimeOut?
    ensures ValidRun(Init(clock), events[..i]) && ValidRun(Init(clock), events[..i + 1])
    ensures var s, after := Run(Init(clock), events[..i]), Run(Init(clock), events[..i + 1]);
            && s.worker.Waiting? && after.fired == s.fired + [s.worker.held]
            && !Earlier(s.clock, s.worker.held.deadline)
            && s.worker.held !in s.canceled
            && NoneBefore(s.queue, s.worker.held)
  {
    hide Earlier, Before;
    PrefixOfRun(Init(clock), events, i);
    RunKeepsInv(clock, events[..i]);
  }

  lemma CountIsMembership(q: seq<Timer>, t: Timer)
    ensures t in q <==> Count(q, t) > 0
  {
  }

  lemma {:induction false} HistoryGrows(s: State, events: seq<Event>, i: nat, t: Timer)
    requires ValidRun(s, events) && i <= |events|
    ensures ValidRun(s, events[..i])
    ensures var earlier, now := Run(s, events[..i]), Run(s, events);
            && Count(earlier.fired, t) <= Count(now.fired, t)
            && Count(earlier.dropped, t) <= Count(now.dropped, t)
            && earlier.enqueued[t] <= now.enqueued[t]
    decreases |events| - i
  {
    hide Earlier, Count, Inserted;
    PrefixOfRun(s, events, i);
    if i < |events| {
      HistoryGrows(s, events, i + 1, t);
      var earlier := Run(s, events[..i]);
      if events[i].Check? || events[i].TimeOut? {
        CountSplits(earlier.dropped, [earlier.worker.held], t);
        CountSplits(earlier.fired, [earlier.worker.held], t);
      }
    } else {
      assert events[..i] == events;
    }
  }

  /** Not fired, and either marked or already discarded. */
  ghost predicate Doomed(s: State, t: Timer) {
    t !in s.fired && (t in s.canceled || t in s.dropped)
  }

  lemma DoomedStep(s: State, e: Event, t: Timer)
    requires Inv(s) && Enabled(s, e) && Doomed(s, t) && s.enqueued[t] <= 1
    ensures Doomed(Step(s, e), t)
  {
    hide Inserted, Earlier, Sorted, NoneBefore, Count;
    CountIsMembership(s.dropped, t);
    assert Copies(s, t) == s.enqueued[t];
  }

  lemma CancelDooms(s: State, t: Timer)
    requires t !in s.fired
    ensures Doomed(Step(s, Cancel(t)), t)
  {
  }

  /** A timer whose cancellation comes before its time-out never fires, if it is enqueued at most
      once in the run. */
  lemma {:induction false} CancelledNeverFires(clock: Time, events: seq<Event>, i: nat, t: Timer)
    requires ValidRun(Init(clock), events) && i < |events| && events[i] == Cancel(t)
    requires Run(Init(clock), events).enqueued[t] <= 1
    requires ValidRun(Init(clock), events[..i]) && t !in Run(Init(clock), events[..i]).fired
    ensures Doomed(Run(Init(clock), events), t)
    decreases |events|
  {
    hide Inv, Enabled, Step, Doomed, Count;
    var n := |events| - 1;
    PrefixOfRun(Init(clock), events, n);
    assert events[..n + 1] == events;
    RunKeepsInv(clock, events[..n]);
    HistoryGrows(Init(clock), events, n, t);
    if i < n {
      assert events[..n][..i] == events[..i];
      CancelledNeverFires(clock, events[..n], i, t);
      DoomedStep(Run(Init(clock), events[..n]), events[n], t);
    } else {
      CancelDooms(Run(Init(clock), events[..n]), t);
    }
  }

  /** Timers fire in the order of their deadlines: if `u` fires after `t`, although it had been
      enqueued by the time `t` fired, then its deadline is not earlier. */
  lemma FiringOrder(clock: Time, events: seq<Event>, i: nat, j: nat)
    requires ValidRun(Init(clock), events) && i < j < |events| && events[i].TimeOut? && events[j].TimeOut?
    requires ValidRun(Init(clock), events[..i]) && ValidRun(Init(clock), events[..j])
    requires var s, later := Run(Init(clock), events[..i]), Run(Init(clock), events[..j]);
             later.worker.Waiting? && s.enqueued[later.worker.held] == later.enqueued[later.worker.held] == 1
    ensures var s, later := Run(Init(clock), events[..i]), Run(Init(clock), events[..j]);
            s.worker.Waiting? && !Before(later.worker.held, s.worker.held)
  {
    hide Before, Earlier, Count, Step, Enabled, Sorted;
    var s, later := Run(Init(clock), events[..i]), Run(Init(clock), events[..j]);
    var u := later.worker.held;
    FiresRight(clock, events, i);
    RunKeepsInv(clock, events[..i]);
    RunKeepsInv(clock, events[..j]);
    PrefixOfRun(Init(clock), events, j);
    assert events[..j][..i] == events[..i] && events[..j][..i + 1] == events[..i + 1];
    HistoryGrows(Init(clock), events[..j], i, u);
    HistoryGrows(Init(clock), events[..j], i + 1, u);
    CountSplits(s.fired, [s.worker.held], u);
    CountIsMembership(s.queue, u);
    assert Copies(s, u) == 1 && Copies(later, u) == 1;
  }

  // ---------- progress ----------

  /** No call comes in and no wait is interrupted. */
  predicate Quiet(e: Event) {
    !e.Enqueue? && !e.Cancel? && !e.Interrupt?
  }

  /** A queued or held timer is never stranded: some step of the worker or of a caller that is midway
      is possible, at the latest when the deadline has come. */
  lemma Progress(s: State) returns (e: Event)
    requires Inv(s) && (s.queue != [] || !s.worker.Idle?)
    ensures Enabled(s, e) && Quiet(e)
    ensures e.Tick? ==> Enabled(Step(s, e), TimeOut)
  {
    hide Sorted, Copies, Inserted, NoneBefore;
    match s.worker {
      case Idle => e := if s.counter > 0 then TakeCount else PostCount;
      case Counted => e := Pop;
      case Holding(_) => e := Check;
      case Waiting(t) =>
        e := if s.sem > 0 then Wake else if Earlier(s.clock, t.deadline) then Tick(t.deadline) else TimeOut;
      case Woken(_) => e := Requeue;
      case Posting => e := Repost;
    }
  }

  /** What fires out of a queue that nobody adds to: its timers in order, without those cancelled. */
  ghost function Fires(q: seq<Timer>, canceled: set<Timer>): seq<Timer> {
    if q == [] then []
    else if q[0] in canceled then Fires(q[1..], canceled - {q[0]})
    else [q[0]] + Fires(q[1..], canceled)
  }

  ghost function Future(s: State): seq<Timer> {
    match s.worker
    case Holding(t) => s.fired + Fires([t] + s.queue, s.canceled)
    case Waiting(t) => s.fired + [t] + Fires(s.queue, s.canceled)
    case _ => s.fired + Fires(s.queue, s.canceled)
  }

  ghost predicate Undisturbed(s: State) {
    s.sem == 0 && (s.worker.Idle? || s.worker.Counted? || s.worker.Holding? || s.worker.Waiting?)
  }

  lemma QuietStep(s: State, e: Event)
    requires Inv(s) && Undisturbed(s) && Enabled(s, e) && Quiet(e)
    ensures Undisturbed(Step(s, e)) && Future(Step(s, e)) == Future(s)
  {
    hide Sorted, Conserved, NoneBefore, Earlier, Inserted;
    if e.Pop? {
      assert s.queue != [];
      assert [s.queue[0]] + s.queue[1..] == s.queue;
    } else if e.Check? {
      assert ([s.worker.held] + s.queue)[1..] == s.queue;
    }
  }

  /** While no call comes in and no wait is interrupted, from any state in which the semaphore is at 0
      and the worker has not just been woken, every schedule fires the same timers in the same order:
      those in the queue that are not cancelled, from front to back. */
  lemma {:induction false} QuietRun(s: State, events: seq<Event>)
    requires Inv(s) && Undisturbed(s) && ValidRun(s, events)
    requires forall e :: e in events ==> Quiet(e)
    ensures var end := Run(s, events);
            && Inv(end) && Undisturbed(end) && Future(end) == Future(s)
            && (end.queue == [] && end.worker.Idle? ==> end.fired == Future(s))
  {
    hide Inv, Enabled, Step, Future;
    if events != [] {
      var before, last := events[..|events| - 1], events[|events| - 1];
      QuietRun(s, before);
      StepKeepsInv(Run(s, before), last);
      QuietStep(Run(s, before), last);
    }
    FutureOfEmpty(Run(s, events));
  }

  lemma FutureOfEmpty(s: State)
    ensures s.queue == [] && s.worker.Idle? ==> Future(s) == s.fired
  {
  }

  // ---------- a quiet schedule ends ----------

  /** An upper bound on what is left to do, in any state. */
  ghost function Work(s: State): nat {
    8 * |s.queue| + s.pending + 10 * s.sem +
    match s.worker
    case Idle => 4
    case Counted => 3
    case Holding(_) => 6
    case Waiting(_) => 5
    case Woken(_) => 14
    case Posting => 5
    case Undefined => 0
  }

  lemma QuietStepWorks(s: State, e: Event)
    requires Inv(s) && Enabled(s, e) && Quiet(e)
    ensures Work(Step(s, e)) + (if e.Tick? then 0 else 1) <= Work(s)
  {
    hide Conserved, Guarded, Earlier, Inserted;
    if e.Requeue? {
      InsertedContents(s.queue, s.worker.held);
    }
  }

  /** How many of the events are more than the passing of time. */
  ghost function Busy(events: seq<Event>): nat {
    if events == [] then 0
    else Busy(events[..|events| - 1]) + if events[|events| - 1].Tick? then 0 else 1
  }

  lemma {:induction false} RunFromInv(s: State, events: seq<Event>)
    requires Inv(s) && ValidRun(s, events)
    ensures Inv(Run(s, events))
  {
    hide Inv, Enabled, Step;
    if events != [] {
      var before := events[..|events| - 1];
      RunFromInv(s, before);
      StepKeepsInv(Run(s, before), events[|events| - 1]);
    }
  }

  /** From every reachable state, every quiet schedule is finite, but for the passing of time. */
  lemma {:induction false} QuietRunIsBounded(s: State, events: seq<Event>)
    requires Inv(s) && ValidRun(s, events) && forall e :: e in events ==> Quiet(e)
    ensures Busy(events) + Work(Run(s, events)) <= Work(s)
  {
    hide Inv, Enabled, Step, Work;
    if events != [] {
      var before, last := events[..|events| - 1], events[|events| - 1];
      QuietRunIsBounded(s, before);
      RunFromInv(s, before);
      QuietStepWorks(Run(s, before), last);
    }
  }

  lemma RunOneMore(s: State, events: seq<Event>, e: Event)
    requires ValidRun(s, events) && Enabled(Run(s, events), e)
    ensures ValidRun(s, events + [e]) && Run(s, events + [e]) == Step(Run(s, events), e)
  {
    hide Enabled, Step;
    assert (events + [e])[..|events|] == events;
  }

  /** And wherever a quiet schedule has got to, it can go on until the queue is empty and nothing is
      midway. Every timer has then fired or was dropped as often as it was enqueued. */
  lemma {:induction false} QuietRunCompletes(s: State, events: seq<Event>) returns (longer: seq<Event>)
    requires Inv(s) && ValidRun(s, events) && forall e :: e in events ==> Quiet(e)
    ensures events <= longer && ValidRun(s, longer) && forall e :: e in longer ==> Quiet(e)
    ensures Done(Run(s, longer))
    ensures Undisturbed(s) ==> Run(s, longer).fired == Future(s)
    decreases Work(Run(s, events))
  {
    hide Inv, Enabled, Step, Work, Done, Undisturbed, Future;
    var here := Run(s, events);
    RunFromInv(s, events);
    if here.queue == [] && here.worker.Idle? {
      longer := events;
      EmptyIsDone(here);
      if Undisturbed(s) {
        QuietRun(s, events);
      }
    } else {
      var e := Progress(here);
      var more := events + [e];
      RunOneMore(s, events, e);
      QuietStepWorks(here, e);
      if e.Tick? {
        RunFromInv(s, more);
        RunOneMore(s, more, TimeOut);
        QuietStepWorks(Run(s, more), TimeOut);
        more := more + [TimeOut];
      }
      longer := QuietRunCompletes(s, more);
    }
  }

  ghost predicate Done(s: State) {
    && s.queue == [] && s.worker.Idle? && s.counter == 0 && s.pending == 0
    && forall t :: Count(s.fired, t) + Count(s.dropped, t) == s.enqueued[t]
  }

  lemma EmptyIsDone(s: State)
    requires Inv(s) && s.queue == [] && s.worker.Idle?
    ensures Done(s)
  {
    hide Guarded;
    forall t ensures Count(s.fired, t) + Count(s.dropped, t) == s.enqueued[t] {
      assert Copies(s, t) == s.enqueued[t];
      assert Count([], t) == 0;
    }
  }

  /** So no timer is ever forgotten: every run of the scheduler, wherever it stands, can be continued
      without new calls until every timer that was enqueued has fired or was dropped. */
  lemma EveryTimerIsServed(clock: Time, events: seq<Event>) returns (more: seq<Event>)
    requires ValidRun(Init(clock), events)
    ensures ValidRun(Run(Init(clock), events), more) && (forall e :: e in more ==> Quiet(e))
    ensures var end := Run(Run(Init(clock), events), more);
            Done(end) && end.enqueued == Run(Init(clock), events).enqueued
  {
    hide Inv, Enabled, Step, Done;
    RunKeepsInv(clock, events);
    more := QuietRunCompletes(Run(Init(clock), events), []);
    QuietKeepsEnqueued(Run(Init(clock), events), more);
  }

  lemma {:induction false} QuietKeepsEnqueued(s: State, events: seq<Event>)
    requires ValidRun(s, events) && forall e :: e in events ==> Quiet(e)
    ensures Run(s, events).enqueued == s.enqueued
  {
    hide Inserted, Earlier;
    if events != [] {
      assert Quiet(events[|events| - 1]);
      QuietKeepsEnqueued(s, events[..|events| - 1]);
    }
  }
}
