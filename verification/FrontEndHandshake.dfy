/** The handshake of one socket between the threads that call into the front end and the receivers of
    responses from the back end: two semaphores around one receive buffer, as a step system. */
module FrontEndHandshake {

  // A response from the back end, and the call it answers
  datatype Response = Response(call: nat, value: int)

  // What a call returned from
  datatype Taken = Taken(call: nat, response: Response)

  datatype State = State(
    flag: nat,
    sem: nat,
    buffer: Response,
    entering: map<nat, Response>, // receivers that passed the flag, with what they are about to store
    leaving: set<nat>,            // receivers that stored, before posting the semaphore
    waiting: set<nat>,            // calls that were sent and have not passed the semaphore
    reading: set<nat>,            // calls that passed the semaphore, before posting the flag
    sent: set<nat>,               // history: all calls sent,
    answered: set<nat>,           // calls whose response has arrived,
    stored: seq<Response>,        // responses in the order they were stored,
    consumed: seq<Taken>)         // and what calls took, in the order they finished

  datatype Event =
    | Send(call: nat)
    | FlagWait(receiver: nat, response: Response)
    | Store(receiver: nat)
    | SemPost(receiver: nat)
    | SemWait(call: nat)
    | FlagPost(call: nat)

  /** A new socket; its buffer holds whatever it holds. */
  function Init(buffer: Response): State {
    State(1, 0, buffer, map[], {}, {}, {}, {}, {}, [], [])
  }

  predicate Enabled(s: State, e: Event) {
    match e
    case Send(c) => c !in s.sent
    case FlagWait(r, _) => s.flag > 0 && r !in s.entering && r !in s.leaving
    case Store(r) => r in s.entering
    case SemPost(r) => r in s.leaving
    case SemWait(c) => c in s.waiting && s.sem > 0
    case FlagPost(c) => c in s.reading
  }

  function Step(s: State, e: Event): State
    requires Enabled(s, e)
  {
    match e
    case Send(c) => s.(waiting := s.waiting + {c}, sent := s.sent + {c})
    case FlagWait(r, m) =>
      s.(flag := s.flag - 1, entering := s.entering[r := m], answered := s.answered + {m.call})
    case Store(r) =>
      s.(buffer := s.entering[r], stored := s.stored + [s.entering[r]],
         entering := s.entering - {r}, leaving := s.leaving + {r})
    case SemPost(r) => s.(sem := s.sem + 1, leaving := s.leaving - {r})
    case SemWait(c) => s.(sem := s.sem - 1, waiting := s.waiting - {c}, reading := s.reading + {c})
    case FlagPost(c) =>
      s.(flag := s.flag + 1, reading := s.reading - {c}, consumed := s.consumed + [Taken(c, s.buffer)])
  }

  ghost predicate Steps(states: seq<State>, events: seq<Event>) {
    && |states| == |events| + 1
    && forall i :: 0 <= i < |events| ==> Enabled(states[i], events[i]) && states[i + 1] == Step(states[i], events[i])
  }

  /** Any interleaving of any number of calls and receivers. */
  ghost predicate Execution(states: seq<State>, events: seq<Event>) {
    Steps(states, events) && states[0] == Init(states[0].buffer)
  }

  // ---------- mutual exclusion ----------

  ghost function Tokens(s: State): nat {
    s.flag + s.sem + |s.entering.Keys| + |s.leaving| + |s.reading|
  }

  ghost predicate Full(s: State) {
    s.sem > 0 || s.leaving != {} || s.reading != {}
  }

  /** There is one token: the flag, the semaphore, a receiver writing, or a call reading. */
  ghost predicate Exclusive(s: State) {
    Tokens(s) == 1 && Roles(s)
  }

  /** Nobody is at two places at once. */
  ghost predicate Roles(s: State) {
    s.entering.Keys !! s.leaving && s.waiting !! s.reading && s.waiting + s.reading <= s.sent
  }

  /** What was taken is what was stored, in order, but for a response that is still in the buffer. */
  ghost predicate InOrder(s: State) {
    && |s.stored| == |s.consumed| + (if Full(s) then 1 else 0)
    && (forall i :: 0 <= i < |s.consumed| ==> s.consumed[i].response == s.stored[i])
    && (Full(s) ==> s.buffer == s.stored[|s.stored| - 1])
  }

  lemma Singleton(group: set<nat>, x: nat)
    requires x in group && |group| <= 1
    ensures group == {x}
  {
    assert |group - {x}| == 0;
  }

  /** Whoever holds the token is alone. */
  lemma OneHolder(s: State)
    requires Exclusive(s)
    ensures s.flag > 0 ==> s.flag == 1 && s.sem == 0 && s.entering == map[] && s.leaving == {} && s.reading == {}
    ensures s.sem > 0 ==> s.flag == 0 && s.sem == 1 && s.entering == map[] && s.leaving == {} && s.reading == {}
    ensures forall r :: r in s.entering ==>
              s.flag == 0 && s.sem == 0 && s.entering.Keys == {r} && s.leaving == {} && s.reading == {}
    ensures forall r :: r in s.leaving ==>
              s.flag == 0 && s.sem == 0 && s.entering == map[] && s.leaving == {r} && s.reading == {}
    ensures forall c :: c in s.reading ==>
              s.flag == 0 && s.sem == 0 && s.entering == map[] && s.leaving == {} && s.reading == {c}
  {
    forall r | r in s.entering ensures s.entering.Keys == {r} {
      Singleton(s.entering.Keys, r);
    }
    forall r | r in s.leaving ensures s.leaving == {r} {
      Singleton(s.leaving, r);
    }
    forall c | c in s.reading ensures s.reading == {c} {
      Singleton(s.reading, c);
    }
  }

  lemma OneMore(group: set<nat>, x: nat)
    requires x !in group
    ensures |group + {x}| == |group| + 1
  {
  }

  lemma OneLess(group: set<nat>, x: nat)
    requires x in group
    ensures |group - {x}| == |group| - 1
  {
  }

  lemma ReceiverKeepsToken(s: State, e: Event)
    requires Exclusive(s) && Enabled(s, e) && (e.FlagWait? || e.Store?)
    ensures Tokens(Step(s, e)) == Tokens(s)
  {
    var keys, after := s.entering.Keys, Step(s, e);
    if e.FlagWait? {
      OneMore(keys, e.receiver);
      assert after.entering.Keys == keys + {e.receiver};
    } else {
      OneLess(keys, e.receiver);
      OneMore(s.leaving, e.receiver);
      assert after.entering.Keys == keys - {e.receiver};
    }
  }

  lemma StepKeepsToken(s: State, e: Event)
    requires Exclusive(s) && Enabled(s, e)
    ensures Tokens(Step(s, e)) == 1
  {
    if e.FlagWait? || e.Store? {
      ReceiverKeepsToken(s, e);
    } else if e.SemPost? {
      OneLess(s.leaving, e.receiver);
    } else if e.SemWait? {
      OneMore(s.reading, e.call);
    } else if e.FlagPost? {
      OneLess(s.reading, e.call);
    }
  }

  lemma StepKeepsRoles(s: State, e: Event)
    requires Roles(s) && Enabled(s, e)
    ensures Roles(Step(s, e))
  {
  }

  lemma StepKeepsOrder(s: State, e: Event)
    requires Exclusive(s) && InOrder(s) && Enabled(s, e)
    ensures InOrder(Step(s, e))
  {
    hide Exclusive, Tokens;
    OneHolder(s);
    match e {
      case FlagPost(c) =>
        assert s.reading - {c} == {};
      case Store(r) =>
        assert s.stored + [s.entering[r]] != [];
      case _ =>
    }
  }

  ghost predicate Inv(s: State) {
    Exclusive(s) && InOrder(s)
  }

  lemma StepKeepsInv(s: State, e: Event)
    requires Inv(s) && Enabled(s, e)
    ensures Inv(Step(s, e))
  {
    hide Tokens, Roles, InOrder, Step, Enabled;
    StepKeepsToken(s, e);
    StepKeepsRoles(s, e);
    StepKeepsOrder(s, e);
  }

  /** In every reachable state exactly one of the flag, the semaphore, the receivers writing and the
      calls reading holds the token, and every stored response is taken once, in the order stored. */
  lemma {:induction false} ExecutionKeepsInv(states: seq<State>, events: seq<Event>, i: nat)
    requires Execution(states, events) && i < |states|
    ensures Inv(states[i])
  {
    if i > 0 {
      ExecutionKeepsInv(states, events, i - 1);
      StepKeepsInv(states[i - 1], events[i - 1]);
    }
  }

  /** The buffer is not written while a call reads it. */
  lemma {:induction false} BufferIsStable(states: seq<State>, events: seq<Event>, i: nat, j: nat, c: nat)
    requires Execution(states, events) && i <= j < |states|
    requires forall k :: i <= k <= j ==> c in states[k].reading
    ensures states[j].buffer == states[i].buffer
    ensures states[j].stored != [] && states[j].buffer == states[j].stored[|states[j].stored| - 1]
  {
    hide Exclusive, InOrder, Step, Enabled;
    ExecutionKeepsInv(states, events, j);
    LastStored(states[j], c);
    if i < j {
      BufferIsStable(states, events, i, j - 1, c);
      ExecutionKeepsInv(states, events, j - 1);
      ReadersKeepBuffer(states[j - 1], events[j - 1]);
    }
  }

  lemma ReadersKeepBuffer(s: State, e: Event)
    requires Exclusive(s) && Enabled(s, e) && s.reading != {}
    ensures Step(s, e).buffer == s.buffer
  {
    OneHolder(s);
  }

  lemma LastStored(s: State, c: nat)
    requires InOrder(s) && c in s.reading
    ensures s.stored != [] && s.buffer == s.stored[|s.stored| - 1]
  {
  }

  // ---------- returning to the initial state ----------

  /** As the constructor leaves it, whatever the buffer holds. */
  ghost predicate Pristine(s: State) {
    s.flag == 1 && s.sem == 0 && s.entering == map[] && s.leaving == {} && s.waiting == {} && s.reading == {}
  }

  /** When a call has posted the flag, the socket is as the constructor left it exactly if no other
      call is in flight. */
  lemma CallLeavesPristine(states: seq<State>, events: seq<Event>, i: nat)
    requires Execution(states, events) && i < |events| && events[i].FlagPost?
    ensures Pristine(states[i + 1]) <==> states[i].waiting + states[i].reading == {events[i].call}
  {
    ExecutionKeepsInv(states, events, i);
    ExecutionKeepsInv(states, events, i + 1);
    OneHolder(states[i]);
    OneHolder(states[i + 1]);
    assert events[i].call in states[i].reading;
  }

  // ---------- who gets which response ----------

  /** Some call has left with the response to another. */
  ghost predicate MixedUp(s: State) {
    exists i :: 0 <= i < |s.consumed| && s.consumed[i].response.call != s.consumed[i].call
  }

  /** The back end answers each call once. */
  predicate AnswersOnce(s: State, e: Event) {
    e.FlagWait? ==> e.response.call in s.sent && e.response.call !in s.answered
  }

  /** No call is sent while another one waits. */
  predicate Patient(s: State, e: Event) {
    e.Send? ==> s.waiting == {}
  }

  // ---------- patience is enough ----------

  ghost predicate OneWaits(s: State) {
    && (forall a, b :: a in s.waiting && b in s.waiting ==> a == b)
    && s.answered <= s.sent <= s.answered + s.waiting + s.reading
  }

  /** The token carries the response to the call that waits, or to the call that reads. */
  ghost predicate Addressed(s: State) {
    && (forall r :: r in s.entering ==> s.entering[r].call in s.waiting * s.answered)
    && (s.leaving != {} || s.sem > 0 ==> s.buffer.call in s.waiting * s.answered)
    && (forall c :: c in s.reading ==> s.buffer.call == c && c in s.answered)
    && (s.flag > 0 || s.reading != {} ==> s.waiting !! s.answered)
    && !MixedUp(s)
  }

  lemma PatientStep(s: State, e: Event)
    requires Exclusive(s) && Addressed(s) && OneWaits(s)
    requires Enabled(s, e) && AnswersOnce(s, e) && Patient(s, e)
    ensures Addressed(Step(s, e)) && OneWaits(Step(s, e))
  {
    hide Exclusive, Tokens;
    assert Roles(s) by { RolesHold(s); }
    OneHolder(s);
  }

  lemma RolesHold(s: State)
    requires Exclusive(s)
    ensures Roles(s)
  {
  }

  lemma SomeHolder(s: State)
    requires Exclusive(s)
    ensures s.flag > 0 || s.sem > 0 || s.entering.Keys != {} || s.leaving != {} || s.reading != {}
  {
  }

  lemma {:induction false} PatientSteps(states: seq<State>, events: seq<Event>, n: nat)
    requires Steps(states, events) && n <= |events|
    requires Exclusive(states[0]) && Addressed(states[0]) && OneWaits(states[0])
    requires forall k :: 0 <= k < n ==> AnswersOnce(states[k], events[k]) && Patient(states[k], events[k])
    ensures Exclusive(states[n]) && Addressed(states[n]) && OneWaits(states[n])
  {
    hide Exclusive, Addressed, OneWaits, Step, Enabled, AnswersOnce, Patient;
    if n > 0 {
      PatientSteps(states, events, n - 1);
      ExclusiveStep(states[n - 1], events[n - 1]);
      PatientStep(states[n - 1], events[n - 1]);
    }
  }

  lemma ExclusiveStep(s: State, e: Event)
    requires Exclusive(s) && Enabled(s, e)
    ensures Exclusive(Step(s, e))
  {
    StepKeepsToken(s, e);
    StepKeepsRoles(s, e);
    hide Step, Tokens, Roles;
  }

  lemma BeginsWell(buffer: Response)
    ensures var s := Init(buffer);
            Exclusive(s) && Addressed(s) && OneWaits(s) && Booked(s)
  {
  }

  /** With one response to each call, and calls that are not sent while another one waits, every call
      takes its own response; and whenever no call is in flight the socket is untouchable: it is as the
      constructor left it, and nothing but a new call can happen. */
  lemma OwnResponse(states: seq<State>, events: seq<Event>, n: nat)
    requires Execution(states, events) && n <= |events|
    requires forall k :: 0 <= k < n ==> AnswersOnce(states[k], events[k]) && Patient(states[k], events[k])
    ensures !MixedUp(states[n])
    ensures states[n].waiting + states[n].reading == {} ==>
              Pristine(states[n]) && forall e :: Enabled(states[n], e) && AnswersOnce(states[n], e) ==> e.Send?
  {
    BeginsWell(states[0].buffer);
    PatientSteps(states, events, n);
    OneHolder(states[n]);
    SomeHolder(states[n]);
    hide Exclusive, Steps;
  }

  // ---------- impatience is too much ----------

  /** Every response that has arrived was stored or is about to be; a call that took one is not in
      flight any more. */
  ghost predicate Booked(s: State) {
    && (forall c :: c in s.answered ==> StoredFor(s, c) || EnteringFor(s, c))
    && Finished(s)
  }

  ghost predicate Finished(s: State) {
    forall i :: 0 <= i < |s.consumed| ==>
      s.consumed[i].call in s.sent && s.consumed[i].call !in s.waiting && s.consumed[i].call !in s.reading
  }

  lemma FinishedStep(s: State, e: Event)
    requires Finished(s) && Roles(s) && Enabled(s, e)
    ensures Finished(Step(s, e))
  {
  }

  ghost predicate StoredFor(s: State, c: nat) {
    exists i :: 0 <= i < |s.stored| && s.stored[i].call == c
  }

  ghost predicate EnteringFor(s: State, c: nat) {
    exists r :: r in s.entering && s.entering[r].call == c
  }

  lemma ArrivedStep(s: State, e: Event, c: nat)
    requires Enabled(s, e) && Exclusive(s) && c in Step(s, e).answered
    requires c in s.answered ==> StoredFor(s, c) || EnteringFor(s, c)
    ensures StoredFor(Step(s, e), c) || EnteringFor(Step(s, e), c)
  {
    OneHolder(s);
    hide Exclusive;
    var after := Step(s, e);
    if c !in s.answered {
      assert after.entering[e.receiver].call == c;
    } else if StoredFor(s, c) {
      var i :| 0 <= i < |s.stored| && s.stored[i].call == c;
      assert after.stored[i].call == c;
    } else {
      var r :| r in s.entering && s.entering[r].call == c;
      if e == Store(r) {
        assert after.stored[|s.stored|].call == c;
      } else {
        assert r in after.entering && after.entering[r].call == c;
      }
    }
  }

  lemma BookedStep(s: State, e: Event)
    requires Booked(s) && Exclusive(s) && Enabled(s, e)
    ensures Booked(Step(s, e))
  {
    RolesHold(s);
    FinishedStep(s, e);
    hide Exclusive, StoredFor, EnteringFor, Finished, Step, Enabled;
    forall c | c in Step(s, e).answered ensures StoredFor(Step(s, e), c) || EnteringFor(Step(s, e), c) {
      ArrivedStep(s, e, c);
    }
  }

  lemma {:induction false} ExecutionBooked(states: seq<State>, events: seq<Event>, n: nat)
    requires Execution(states, events) && n <= |events|
    ensures Inv(states[n]) && Booked(states[n])
  {
    hide Inv, Booked, Step, Enabled;
    ExecutionKeepsInv(states, events, n);
    if n > 0 {
      ExecutionBooked(states, events, n - 1);
      assert Exclusive(states[n - 1]) by { InvIsExclusive(states[n - 1]); }
      BookedStep(states[n - 1], events[n - 1]);
    } else {
      BeginsWell(states[0].buffer);
    }
  }

  lemma InvIsExclusive(s: State)
    requires Inv(s)
    ensures Exclusive(s) && InOrder(s)
  {
  }

  /** A way to go on from `s` that ends in a mix-up, with one response to each call and no impatience
      any more. */
  ghost predicate GoesWrong(s: State, states: seq<State>, events: seq<Event>) {
    && Steps(states, events) && states[0] == s
    && (forall k :: 0 <= k < |events| ==> AnswersOnce(states[k], events[k]) && Patient(states[k], events[k]))
    && MixedUp(states[|events|])
  }

  ghost predicate CanMixUp(s: State) {
    exists states, events :: GoesWrong(s, states, events)
  }

  lemma MixedUpAlready(s: State)
    requires MixedUp(s)
    ensures CanMixUp(s)
  {
    var none: seq<Event> := [];
    assert GoesWrong(s, [s], none);
  }

  lemma MixUpComes(s: State, e: Event)
    requires Enabled(s, e) && AnswersOnce(s, e) && Patient(s, e) && CanMixUp(Step(s, e))
    ensures CanMixUp(s)
  {
    hide Step, Enabled, AnswersOnce, Patient, MixedUp;
    var states, events :| GoesWrong(Step(s, e), states, events);
    var longer, more := [s] + states, [e] + events;
    forall k | 0 <= k < |more|
      ensures Enabled(longer[k], more[k]) && longer[k + 1] == Step(longer[k], more[k])
              && AnswersOnce(longer[k], more[k]) && Patient(longer[k], more[k])
    {
      if k > 0 {
        assert longer[k] == states[k - 1] && more[k] == events[k - 1] && longer[k + 1] == states[k];
      }
    }
    assert longer[|more|] == states[|events|];
    assert GoesWrong(s, longer, more);
  }

  /** Whoever waits may take a response: the program does not look at which call it belongs to. */
  lemma TakenByAnother(s: State, c: nat)
    requires s.sem > 0 && c in s.waiting && s.buffer.call != c
    ensures CanMixUp(s)
  {
    var reading := Step(s, SemWait(c));
    LeavesWithAnother(reading, c);
    MixUpComes(s, SemWait(c));
  }

  lemma LeavesWithAnother(s: State, c: nat)
    requires c in s.reading && s.buffer.call != c
    ensures CanMixUp(s)
  {
    var left := Step(s, FlagPost(c));
    assert left.consumed[|s.consumed|] == Taken(c, s.buffer);
    MixedUpAlready(left);
    MixUpComes(s, FlagPost(c));
  }

  lemma TwoWait(s: State, a: nat, b: nat)
    requires s.sem > 0 && a in s.waiting && b in s.waiting && a != b
    ensures CanMixUp(s)
  {
    TakenByAnother(s, if s.buffer.call == a then b else a);
  }

  lemma TwoWaitForReceiver(s: State, r: nat, a: nat, b: nat)
    requires r in s.leaving || r in s.entering
    requires a in s.waiting && b in s.waiting && a != b
    ensures CanMixUp(s)
    decreases r !in s.leaving
  {
    if r in s.leaving {
      TwoWait(Step(s, SemPost(r)), a, b);
      MixUpComes(s, SemPost(r));
    } else {
      TwoWaitForReceiver(Step(s, Store(r)), r, a, b);
      MixUpComes(s, Store(r));
    }
  }

  /** While the flag is free no waiting call has been answered, unless there was a mix-up already. */
  lemma WaitersUnanswered(s: State, c: nat)
    requires Inv(s) && Booked(s) && s.flag > 0 && !MixedUp(s) && c in s.waiting
    ensures c in s.sent && c !in s.answered
  {
    OneHolder(s);
    RolesHold(s);
    hide Exclusive;
    forall i | 0 <= i < |s.stored| ensures s.stored[i].call != c {
      assert s.consumed[i].response == s.stored[i];
    }
  }

  lemma TwoWaitForFlag(s: State, a: nat, b: nat)
    requires Inv(s) && Booked(s) && s.flag > 0
    requires a in s.waiting && b in s.waiting && a != b
    ensures CanMixUp(s)
  {
    if MixedUp(s) {
      MixedUpAlready(s);
    } else {
      OneHolder(s);
      WaitersUnanswered(s, a);
      var e := FlagWait(0, Response(a, 0));
      TwoWaitForReceiver(Step(s, e), 0, a, b);
      MixUpComes(s, e);
    }
  }

  lemma TwoWaitForReader(s: State, c: nat, a: nat, b: nat)
    requires Inv(s) && Booked(s) && c in s.reading
    requires a in s.waiting && b in s.waiting && a != b
    ensures CanMixUp(s)
  {
    StepKeepsInv(s, FlagPost(c));
    BookedStep(s, FlagPost(c));
    RolesHold(s);
    TwoWaitForFlag(Step(s, FlagPost(c)), a, b);
    MixUpComes(s, FlagPost(c));
  }

  /** Wherever the token is, two calls that wait at once can be mixed up. */
  lemma ImpatienceMixesUp(s: State, a: nat, b: nat)
    requires Inv(s) && Booked(s)
    requires a in s.waiting && b in s.waiting && a != b
    ensures CanMixUp(s)
  {
    SomeHolder(s);
    hide Inv, Booked, CanMixUp;
    if s.flag > 0 {
      TwoWaitForFlag(s, a, b);
    } else if s.sem > 0 {
      TwoWait(s, a, b);
    } else if s.entering.Keys != {} {
      var r :| r in s.entering.Keys;
      TwoWaitForReceiver(s, r, a, b);
    } else if s.leaving != {} {
      var r :| r in s.leaving;
      TwoWaitForReceiver(s, r, a, b);
    } else {
      var c :| c in s.reading;
      TwoWaitForReader(s, c, a, b);
    }
  }

  /** When does every call get its own response? Take any run with one response to each call. From none
      of its states can things go wrong, however the threads are scheduled and however patiently calls
      are sent from there on, if and only if each call of the run was sent while no other one waited. */
  lemma OwnResponseExactly(states: seq<State>, events: seq<Event>)
    requires Execution(states, events)
    requires forall k :: 0 <= k < |events| ==> AnswersOnce(states[k], events[k])
    ensures (forall n :: 0 <= n <= |events| ==> !CanMixUp(states[n]))
            <==> (forall k :: 0 <= k < |events| ==> Patient(states[k], events[k]))
  {
    hide Inv, Booked, Patient, AnswersOnce, CanMixUp, Step, Enabled;
    if k :| 0 <= k < |events| && !Patient(states[k], events[k]) {
      ExecutionBooked(states, events, k);
      ExecutionBooked(states, events, k + 1);
      var other := Impatient(states[k], events[k]);
      ImpatienceMixesUp(states[k + 1], events[k].call, other);
    } else {
      forall n | 0 <= n <= |events| ensures !CanMixUp(states[n]) {
        BeginsWell(states[0].buffer);
        PatientSteps(states, events, n);
        NoMixUp(states[n]);
      }
    }
  }

  lemma Impatient(s: State, e: Event) returns (other: nat)
    requires Inv(s) && Enabled(s, e) && !Patient(s, e)
    ensures e.Send? && other in Step(s, e).waiting && e.call in Step(s, e).waiting && e.call != other
  {
    other :| other in s.waiting;
  }

  lemma NoMixUp(s: State)
    requires Exclusive(s) && Addressed(s) && OneWaits(s)
    ensures !CanMixUp(s)
  {
    forall states, events ensures !GoesWrong(s, states, events) {
      if GoesWrong(s, states, events) {
        PatientSteps(states, events, |events|);
      }
    }
  }

  /** For example: two calls are sent, and one leaves with the response to the other. */
  lemma MixUp(first: nat, second: nat, m: Response) returns (states: seq<State>, events: seq<Event>)
    requires first != second && m.call == first
    ensures Execution(states, events)
    ensures states[|events|].consumed == [Taken(second, m)]
  {
    var s0 := Init(m);
    var s1 := Step(s0, Send(first));
    var s2 := Step(s1, Send(second));
    var s3 := Step(s2, FlagWait(0, m));
    var s4 := Step(s3, Store(0));
    var s5 := Step(s4, SemPost(0));
    var s6 := Step(s5, SemWait(second));
    events := [Send(first), Send(second), FlagWait(0, m), Store(0), SemPost(0), SemWait(second), FlagPost(second)];
    states := [s0, s1, s2, s3, s4, s5, s6, Step(s6, FlagPost(second))];
  }
}
