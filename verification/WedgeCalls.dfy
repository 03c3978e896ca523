/** The call table of the kernel wedge as a step system: callers take slots, wait on them and free
    them, while replies from the daemon are matched to slots by socket and call type only. */
module WedgeCalls {
  import opened Maybes

  const MAX_CALLS: nat := 100
  // The call id of a free slot: -1 as an unsigned 32-bit number
  const FREE: nat := 0xffff_ffff
  const ACK: int := 200
  const NACK: int := 6666

  datatype Body = Body(ret: int, msg: int, len: int)

  datatype Slot = Slot(callId: nat, sock: int, kind: nat, reply: bool, waitSem: nat, body: Body)

  function Key(slot: Slot): (int, nat) {
    (slot.sock, slot.kind)
  }

  /** The first free slot from `i` on. */
  function FirstFree(slots: seq<Slot>, i: nat): (found: Maybe<nat>)
    requires i <= |slots|
    ensures match found
            case Just(k) => i <= k < |slots| && slots[k].callId == FREE
                            && forall j :: i <= j < k ==> slots[j].callId != FREE
            case Nothing => forall j :: i <= j < |slots| ==> slots[j].callId != FREE
    decreases |slots| - i
  {
    if i == |slots| then Nothing
    else if slots[i].callId == FREE then Just(i)
    else FirstFree(slots, i + 1)
  }

  predicate Matches(slot: Slot, key: (int, nat)) {
    slot.callId != FREE && Key(slot) == key
  }

  /** The first used slot from `i` on with this socket and call type. */
  function Find(slots: seq<Slot>, key: (int, nat), i: nat): (found: Maybe<nat>)
    requires i <= |slots|
    ensures match found
            case Just(k) => i <= k < |slots| && Matches(slots[k], key)
                            && forall j :: i <= j < k ==> !Matches(slots[j], key)
            case Nothing => forall j :: i <= j < |slots| ==> !Matches(slots[j], key)
    decreases |slots| - i
  {
    if i == |slots| then Nothing
    else if Matches(slots[i], key) then Just(i)
    else Find(slots, key, i + 1)
  }

  // ---------- states and steps ----------

  datatype Phase = Sending | Waiting | Awake | Finishing

  // What a call knows: its slot, and the key it asked for
  datatype Caller = Caller(slot: nat, key: (int, nat), phase: Phase)

  // Who holds the semaphore of the table: a reply is handled in three stages
  datatype Stage = Found | Filled | Flagged
  datatype Lock = Unlocked | Replying(slot: nat, key: (int, nat), body: Body, stage: Stage)

  datatype State = State(
    slots: seq<Slot>,
    count: nat,                // how many calls have been numbered; the program keeps it modulo 2^32
    callers: map<nat, Caller>, // the calls that have a slot, by number
    lock: Lock)

  datatype Event =
    | Insert(key: (int, nat))
    | SendFails(call: nat)
    | Sent(call: nat)
    | Down(call: nat)
    | Interrupt(call: nat)
    | Read(call: nat)
    | Free(call: nat)
    | BeginReply(key: (int, nat), body: Body)
    | Fill
    | Flag
    | Up
    | Wake(slot: nat)          // remove_all, and the removal of a socket, wake slots without a reply

  ghost predicate Initial(s: State) {
    && |s.slots| == MAX_CALLS && (forall i :: 0 <= i < MAX_CALLS ==> s.slots[i].callId == FREE)
    && s.count == 0 && s.callers == map[] && s.lock == Unlocked
  }

  predicate At(s: State, call: nat, phase: Phase) {
    call in s.callers && s.callers[call].phase == phase && s.callers[call].slot < |s.slots|
  }

  /** A reply for which no slot is found is not a step: the program would then write before the
      table. */
  predicate Enabled(s: State, e: Event) {
    match e
    case Insert(_) => s.lock.Unlocked?
    case SendFails(c) => At(s, c, Sending)
    case Sent(c) => At(s, c, Sending)
    case Down(c) => At(s, c, Waiting) && s.slots[s.callers[c].slot].waitSem > 0
    case Interrupt(c) => At(s, c, Waiting)
    case Read(c) => At(s, c, Awake)
    case Free(c) => At(s, c, Finishing)
    case BeginReply(key, _) => s.lock.Unlocked? && Find(s.slots, key, 0).Just?
    case Fill => s.lock.Replying? && s.lock.stage == Found && s.lock.slot < |s.slots|
    case Flag => s.lock.Replying? && s.lock.stage == Filled && s.lock.slot < |s.slots|
    case Up => s.lock.Replying? && s.lock.stage == Flagged && s.lock.slot < |s.slots|
    case Wake(i) => i < |s.slots|
  }

  function Moved(s: State, call: nat, phase: Phase): State
    requires call in s.callers
  {
    s.(callers := s.callers[call := s.callers[call].(phase := phase)])
  }

  function Released(s: State, call: nat): State
    requires call in s.callers && s.callers[call].slot < |s.slots|
  {
    var i := s.callers[call].slot;
    s.(slots := s.slots[i := s.slots[i].(callId := FREE)], callers := s.callers - {call})
  }

  function Posted(s: State, i: nat): State
    requires i < |s.slots|
  {
    s.(slots := s.slots[i := s.slots[i].(waitSem := s.slots[i].waitSem + 1)])
  }

  function Taken(slot: Slot, id: nat, key: (int, nat)): Slot {
    Slot(id, key.0, key.1, false, 0, slot.body.(ret := 0))
  }

  function Step(s: State, e: Event): State
    requires Enabled(s, e)
  {
    match e
    case Insert(key) =>
      var id := s.count % 0x1_0000_0000;
      (match FirstFree(s.slots, 0)
       case Nothing => s.(count := s.count + 1)
       case Just(i) =>
         s.(slots := s.slots[i := Taken(s.slots[i], id, key)], count := s.count + 1,
            callers := s.callers[s.count := Caller(i, key, Sending)]))
    case SendFails(c) => Released(s, c)
    case Sent(c) => Moved(s, c, Waiting)
    case Down(c) =>
      var i := s.callers[c].slot;
      Moved(s.(slots := s.slots[i := s.slots[i].(waitSem := s.slots[i].waitSem - 1)]), c, Awake)
    case Interrupt(c) => Moved(s, c, Awake)
    case Read(c) => Moved(s, c, Finishing)
    case Free(c) => Released(s, c)
    case BeginReply(key, body) =>
      s.(lock := Replying(Find(s.slots, key, 0).value, key, body, Found))
    case Fill =>
      var i := s.lock.slot;
      s.(slots := s.slots[i := s.slots[i].(body := s.lock.body)], lock := s.lock.(stage := Filled))
    case Flag =>
      var i := s.lock.slot;
      s.(slots := s.slots[i := s.slots[i].(reply := true)], lock := s.lock.(stage := Flagged))
    case Up => Posted(s.(lock := Unlocked), s.lock.slot)
    case Wake(i) => Posted(s, i)
  }

  ghost predicate Steps(states: seq<State>, events: seq<Event>) {
    && |states| == |events| + 1
    && forall i :: 0 <= i < |events| ==> Enabled(states[i], events[i]) && states[i + 1] == Step(states[i], events[i])
  }

  ghost predicate Execution(states: seq<State>, events: seq<Event>) {
    Steps(states, events) && Initial(states[0])
  }

  // ---------- ownership ----------

  /** Every call in the table has a slot that carries its number and its key; every used slot carries
      the number of a call that has it. */
  ghost predicate Owned(s: State) {
    && |s.slots| == MAX_CALLS
    && (forall c :: c in s.callers ==>
          && c < s.count && c != FREE && s.callers[c].slot < MAX_CALLS
          && s.slots[s.callers[c].slot].callId == c && Key(s.slots[s.callers[c].slot]) == s.callers[c].key)
    && (forall i :: 0 <= i < MAX_CALLS && s.slots[i].callId != FREE ==>
          s.slots[i].callId in s.callers && s.callers[s.slots[i].callId].slot == i)
  }

  /** The slot a reply is being written to has the key of the reply, or has been freed meanwhile. */
  ghost predicate LockFits(s: State) {
    s.lock.Replying? ==>
      && s.lock.slot < |s.slots|
      && (s.slots[s.lock.slot].callId != FREE ==> Key(s.slots[s.lock.slot]) == s.lock.key)
      && (s.lock.stage != Found ==> s.slots[s.lock.slot].body == s.lock.body)
  }

  /** Ids, keys and callers are the same, though phases and replies may differ. */
  ghost predicate SameTable(s: State, t: State) {
    && |s.slots| == |t.slots| && s.count == t.count
    && (forall i :: 0 <= i < |s.slots| ==> s.slots[i].callId == t.slots[i].callId && Key(s.slots[i]) == Key(t.slots[i]))
    && s.callers.Keys == t.callers.Keys
    && (forall c :: c in s.callers ==> s.callers[c].slot == t.callers[c].slot && s.callers[c].key == t.callers[c].key)
  }

  lemma SameTableSameOwners(s: State, t: State)
    requires SameTable(s, t) && Owned(s)
    ensures Owned(t)
  {
    forall i | 0 <= i < MAX_CALLS && t.slots[i].callId != FREE
      ensures t.slots[i].callId in t.callers && t.callers[t.slots[i].callId].slot == i
    {
      assert s.slots[i].callId in s.callers.Keys;
    }
    forall c | c in t.callers
      ensures c < t.count && c != FREE && t.callers[c].slot < MAX_CALLS
      ensures t.slots[t.callers[c].slot].callId == c && Key(t.slots[t.callers[c].slot]) == t.callers[c].key
    {
      assert c in s.callers.Keys;
    }
  }

  lemma QuietStep(s: State, e: Event)
    requires Enabled(s, e) && !e.Insert? && !e.SendFails? && !e.Free?
    ensures SameTable(s, Step(s, e))
  {
    hide Find;
  }

  lemma ReleaseKeepsOwned(s: State, c: nat)
    requires Owned(s) && c in s.callers
    ensures Owned(Released(s, c))
  {
    hide Key;
  }

  lemma InsertKeepsOwned(s: State, key: (int, nat))
    requires Owned(s) && s.lock.Unlocked? && s.count < FREE
    ensures Owned(Step(s, Insert(key)))
  {
    assert s.count % 0x1_0000_0000 == s.count;
    if FirstFree(s.slots, 0).Just? {
      Assign(s, FirstFree(s.slots, 0).value, key);
    }
  }

  lemma Assign(s: State, i: nat, key: (int, nat))
    requires Owned(s) && s.count < FREE && i < MAX_CALLS && s.slots[i].callId == FREE
    ensures Owned(s.(slots := s.slots[i := Taken(s.slots[i], s.count, key)], count := s.count + 1,
                     callers := s.callers[s.count := Caller(i, key, Sending)]))
  {
    assert Key(Taken(s.slots[i], s.count, key)) == key;
    hide Key;
  }

  lemma StepKeepsLock(s: State, e: Event)
    requires LockFits(s) && Enabled(s, e)
    ensures LockFits(Step(s, e))
  {
    hide Find;
    if e.BeginReply? {
      FoundMatches(s.slots, e.key);
    }
  }

  lemma FoundMatches(slots: seq<Slot>, key: (int, nat))
    requires Find(slots, key, 0).Just?
    ensures Find(slots, key, 0).value < |slots| && Matches(slots[Find(slots, key, 0).value], key)
  {
  }

  lemma StepKeepsOwned(s: State, e: Event)
    requires Owned(s) && Enabled(s, e) && (e.Insert? ==> s.count < FREE)
    ensures Owned(Step(s, e))
  {
    if e.Insert? {
      InsertKeepsOwned(s, e.key);
    } else if e.SendFails? || e.Free? {
      ReleaseKeepsOwned(s, e.call);
    } else {
      QuietStep(s, e);
      SameTableSameOwners(s, Step(s, e));
    }
  }

  /** While fewer than 2^32 - 1 calls have been numbered, the table and the calls agree. */
  lemma {:induction false} ExecutionOwned(states: seq<State>, events: seq<Event>, j: nat)
    requires Execution(states, events) && j < |states| && states[j].count <= FREE
    ensures Owned(states[j]) && LockFits(states[j])
  {
    hide Owned, LockFits, Find;
    if j == 0 {
      InitiallyOwned(states[0]);
    } else {
      ExecutionOwned(states, events, j - 1);
      StepKeepsOwned(states[j - 1], events[j - 1]);
      StepKeepsLock(states[j - 1], events[j - 1]);
    }
  }

  lemma InitiallyOwned(s: State)
    requires Initial(s)
    ensures Owned(s) && LockFits(s)
  {
  }

  /** Each used slot has exactly one owner: the call whose number it carries. */
  lemma OneOwner(s: State, i: nat)
    requires Owned(s) && i < MAX_CALLS && s.slots[i].callId != FREE
    ensures s.slots[i].callId in s.callers
    ensures forall c :: c in s.callers ==> (s.callers[c].slot == i <==> c == s.slots[i].callId)
  {
  }

  /** That the numbers stay below 2^32 - 1 is exactly what is needed: the call numbered 2^32 - 1 gets a
      slot that still looks free. */
  lemma OwnedUntilRollover(s: State, key: (int, nat))
    requires Owned(s) && s.lock.Unlocked? && s.count <= FREE && FirstFree(s.slots, 0).Just?
    ensures Owned(Step(s, Insert(key))) <==> s.count < 0xffff_ffff
    ensures s.count == 0xffff_ffff ==> FirstFree(Step(s, Insert(key)).slots, 0) == FirstFree(s.slots, 0)
  {
    if s.count < FREE {
      InsertKeepsOwned(s, key);
    } else {
      var i, after := FirstFree(s.slots, 0).value, Step(s, Insert(key));
      assert s.count in after.callers;
      assert after.slots[i].callId == FREE;
      assert forall j :: 0 <= j < i ==> after.slots[j] == s.slots[j];
    }
  }

  /** A reply finds a slot exactly if a call for this socket and type is in the table. Otherwise the
      program goes on with index -1. */
  lemma ReplyFindsSlot(s: State, key: (int, nat))
    requires Owned(s)
    ensures Find(s.slots, key, 0).Just? <==> exists c :: c in s.callers && s.callers[c].key == key
  {
    if Find(s.slots, key, 0).Just? {
      var i := Find(s.slots, key, 0).value;
      assert s.callers[s.slots[i].callId].key == key;
    }
    forall c | c in s.callers && s.callers[c].key == key ensures Find(s.slots, key, 0).Just? {
      assert Matches(s.slots[s.callers[c].slot], key);
    }
  }

  // ---------- runs that get there ----------

  lemma Extend(states: seq<State>, events: seq<Event>, e: Event)
    requires Execution(states, events) && Enabled(states[|events|], e)
    ensures Execution(states + [Step(states[|events|], e)], events + [e])
  {
    hide Step, Enabled, Initial;
  }

  /** No call is in the table. */
  ghost predicate Vacant(s: State) {
    && |s.slots| == MAX_CALLS && (forall i :: 0 <= i < MAX_CALLS ==> s.slots[i].callId == FREE)
    && s.callers == map[] && s.lock == Unlocked
  }

  lemma InsertIntoVacant(s: State, key: (int, nat))
    requires Vacant(s)
    ensures Enabled(s, Insert(key))
    ensures var after, id := Step(s, Insert(key)), s.count % 0x1_0000_0000;
            && after == s.(slots := s.slots[0 := Taken(s.slots[0], id, key)], count := s.count + 1,
                           callers := map[s.count := Caller(0, key, Sending)])
            && At(after, s.count, Sending)
  {
  }

  lemma ReleaseVacates(s: State, t: State, c: nat)
    requires Vacant(s) && |t.slots| == MAX_CALLS && (forall i :: 1 <= i < MAX_CALLS ==> t.slots[i] == s.slots[i])
    requires t.callers.Keys == {c} && t.callers[c].slot == 0 && t.lock == Unlocked
    ensures Vacant(Released(t, c)) && Released(t, c).count == t.count
  {
    assert Released(t, c).callers.Keys == {};
  }

  /** The reply to a call that was sent and then interrupted finds no slot: the daemon has the request,
      and the slot is free again. */
  lemma InterruptedCallLosesReply(s: State, key: (int, nat)) returns (states: seq<State>, events: seq<Event>)
    requires Initial(s)
    ensures Execution(states, events) && states[0] == s
    ensures events == [Insert(key), Sent(0), Interrupt(0), Read(0), Free(0)]
    ensures Find(states[5].slots, key, 0) == Nothing
  {
    hide Find, FirstFree, Taken;
    InsertIntoVacant(s, key);
    var s1 := Step(s, Insert(key));
    var s2 := Step(s1, Sent(0));
    var s3 := Step(s2, Interrupt(0));
    var s4 := Step(s3, Read(0));
    ReleaseVacates(s, s4, 0);
    states, events := [s, s1, s2, s3, s4, Step(s4, Free(0))], [Insert(key), Sent(0), Interrupt(0), Read(0), Free(0)];
    VacantFindsNothing(states[5], key);
  }

  lemma VacantFindsNothing(s: State, key: (int, nat))
    requires Vacant(s)
    ensures Find(s.slots, key, 0) == Nothing
  {
  }

  /** Calls that cannot be sent use up numbers one by one and leave the table vacant. */
  lemma {:induction false} NumbersRunUp(s: State, key: (int, nat), n: nat)
    returns (states: seq<State>, events: seq<Event>)
    requires Initial(s)
    ensures Execution(states, events) && states[0] == s
    ensures states[|events|].count == n && Vacant(states[|events|])
  {
    if n == 0 {
      states, events := [s], [];
    } else {
      hide Step, Enabled, Execution, Initial;
      states, events := NumbersRunUp(s, key, n - 1);
      states, events := FailedCall(states, events, key);
    }
  }

  lemma FailedCall(before: seq<State>, run: seq<Event>, key: (int, nat))
    returns (states: seq<State>, events: seq<Event>)
    requires Execution(before, run) && Vacant(before[|run|])
    ensures Execution(states, events) && states[0] == before[0]
    ensures states[|events|].count == before[|run|].count + 1 && Vacant(states[|events|])
  {
    hide FirstFree, Taken, Initial;
    var s := before[|run|];
    InsertIntoVacant(s, key);
    var taken := Step(s, Insert(key));
    Extend(before, run, Insert(key));
    ReleaseVacates(s, taken, s.count);
    Extend(before + [taken], run + [Insert(key)], SendFails(s.count));
    states := before + [taken] + [Step(taken, SendFails(s.count))];
    events := run + [Insert(key)] + [SendFails(s.count)];
  }

  /** The numbers do roll over in some run, and then two calls share a slot, which has the key of the
      second. */
  lemma RolloverSharesSlot(s: State, key: (int, nat), other: (int, nat))
    returns (states: seq<State>, events: seq<Event>, c: nat, d: nat)
    requires Initial(s)
    ensures Execution(states, events) && states[0] == s && c != d
    ensures var end := states[|events|];
            && At(end, c, Sending) && At(end, d, Sending) && end.callers[c].slot == end.callers[d].slot
            && end.callers[c].key == key && Key(end.slots[end.callers[c].slot]) == other
            && !Owned(end)
  {
    hide Step, Enabled, Initial, Vacant;
    states, events := NumbersRunUp(s, key, FREE);
    var s0 := states[|events|];
    TwoCallsInOneSlot(s0, key, other);
    Extend(states, events, Insert(key));
    var s1 := Step(s0, Insert(key));
    states, events := states + [s1], events + [Insert(key)];
    Extend(states, events, Insert(other));
    states, events := states + [Step(s1, Insert(other))], events + [Insert(other)];
    c, d := FREE, FREE + 1;
  }

  lemma TwoCallsInOneSlot(s: State, key: (int, nat), other: (int, nat))
    requires Vacant(s) && s.count == FREE
    ensures Enabled(s, Insert(key)) && Enabled(Step(s, Insert(key)), Insert(other))
    ensures var end := Step(Step(s, Insert(key)), Insert(other));
            && At(end, FREE, Sending) && At(end, FREE + 1, Sending)
            && end.callers[FREE].slot == end.callers[FREE + 1].slot == 0
            && end.callers[FREE].key == key && Key(end.slots[0]) == other
  {
    InsertIntoVacant(s, key);
    assert Step(s, Insert(key)).slots[0].callId == FREE;
  }

  // ---------- where a reply comes from ----------

  /** The reply being handled was found while all present calls already had their slots. */
  lemma {:induction false} LockOrigin(states: seq<State>, events: seq<Event>, j: nat) returns (b: nat)
    requires Execution(states, events) && j < |states| && states[j].lock.Replying?
    ensures b < j && events[b] == BeginReply(states[j].lock.key, states[j].lock.body)
    ensures forall c :: c in states[j].callers ==>
              c in states[b].callers && states[b].callers[c].slot == states[j].callers[c].slot
                                     && states[b].callers[c].key == states[j].callers[c].key
  {
    hide Find;
    var s, e := states[j - 1], events[j - 1];
    LockStep(s, e);
    if e.BeginReply? {
      b := j - 1;
    } else {
      b := LockOrigin(states, events, j - 1);
    }
  }

  lemma LockStep(s: State, e: Event)
    requires Enabled(s, e) && Step(s, e).lock.Replying?
    ensures if e.BeginReply? then Step(s, e).lock.key == e.key && Step(s, e).lock.body == e.body
            else s.lock.Replying? && s.lock.key == Step(s, e).lock.key && s.lock.body == Step(s, e).lock.body
    ensures forall c :: c in Step(s, e).callers ==>
              c in s.callers && s.callers[c].slot == Step(s, e).callers[c].slot
                             && s.callers[c].key == Step(s, e).callers[c].key
  {
    hide Find;
  }

  /** What a step can do to the slot of a call that is in the table afterwards. */
  lemma ReplyStep(s: State, e: Event, c: nat)
    requires Owned(s) && LockFits(s) && Enabled(s, e) && (e.Insert? ==> s.count < FREE)
    requires c in Step(s, e).callers
    ensures var after := Step(s, e);
            var i := after.callers[c].slot;
            && i < |after.slots|
            && (c !in s.callers ==> !after.slots[i].reply)
            && (c in s.callers ==>
                  && s.callers[c].slot == i && s.callers[c].key == after.callers[c].key && i < |s.slots|
                  && ((after.slots[i].reply == s.slots[i].reply && after.slots[i].body == s.slots[i].body)
                      || (s.lock.Replying? && s.lock.slot == i && s.lock.key == s.callers[c].key
                          && (after.slots[i].reply ==> after.slots[i].body == s.lock.body))))
  {
    hide Find, FirstFree;
    if e.Insert? {
      InsertedAt(s);
    }
    if c in s.callers {
      OneOwner(s, s.callers[c].slot);
    }
  }

  lemma InsertedAt(s: State)
    ensures FirstFree(s.slots, 0).Just? ==>
              FirstFree(s.slots, 0).value < |s.slots| && s.slots[FirstFree(s.slots, 0).value].callId == FREE
  {
  }

  /** A call sees the reply flag only if a reply with its own socket and type was handled, from its
      very beginning, after the call had taken its slot; and it then sees the body of such a reply.
      This holds however many interrupted calls have freed slots for others. */
  lemma {:induction false} ReplyOrigin(states: seq<State>, events: seq<Event>, j: nat, c: nat) returns (b: nat)
    requires Execution(states, events) && j < |states| && states[j].count <= FREE
    requires c in states[j].callers && states[j].callers[c].slot < |states[j].slots|
    requires states[j].slots[states[j].callers[c].slot].reply
    ensures b < j && events[b] == BeginReply(states[j].callers[c].key, states[j].slots[states[j].callers[c].slot].body)
    ensures c in states[b].callers && states[b].callers[c].slot == states[j].callers[c].slot
  {
    hide Owned, LockFits, Step, Enabled;
    assert j > 0;
    var s, e, i := states[j - 1], events[j - 1], states[j].callers[c].slot;
    CountGrows(s, e);
    ExecutionOwned(states, events, j - 1);
    ReplyStep(s, e, c);
    if s.slots[i].reply == states[j].slots[i].reply && s.slots[i].body == states[j].slots[i].body {
      b := ReplyOrigin(states, events, j - 1, c);
    } else {
      b := LockOrigin(states, events, j - 1);
    }
  }

  lemma CountGrows(s: State, e: Event)
    requires Enabled(s, e)
    ensures Step(s, e).count == s.count + if e.Insert? then 1 else 0
  {
  }

  // ---------- nobody is left asleep ----------

  /** If it has been answered, the call can pass its semaphore, unless the handler is just about to
      post it. */
  ghost predicate CanWake(s: State, c: nat)
    requires c in s.callers && s.callers[c].slot < |s.slots|
  {
    var i := s.callers[c].slot;
    s.slots[i].reply && !(s.lock.Replying? && s.lock.slot == i && s.lock.stage == Flagged) ==> s.slots[i].waitSem > 0
  }

  ghost predicate Asleep(s: State, c: nat) {
    At(s, c, Waiting) || At(s, c, Sending)
  }

  ghost predicate Awakened(s: State) {
    forall c :: Asleep(s, c) ==> CanWake(s, c)
  }

  lemma CallerStepKeepsAwakened(s: State, e: Event, c: nat)
    requires Owned(s) && LockFits(s) && Enabled(s, e) && (e.Insert? ==> s.count < FREE)
    requires Asleep(Step(s, e), c) && (Asleep(s, c) ==> CanWake(s, c))
    ensures CanWake(Step(s, e), c)
  {
    hide Find, FirstFree, Key;
    if e.Insert? {
      InsertedAt(s);
    }
    if c in s.callers {
      OneOwner(s, s.callers[c].slot);
    }
  }

  lemma StepKeepsAwakened(s: State, e: Event)
    requires Owned(s) && LockFits(s) && Awakened(s) && Enabled(s, e) && (e.Insert? ==> s.count < FREE)
    ensures Awakened(Step(s, e))
  {
    hide Owned, LockFits, Enabled, Step;
    forall c | Asleep(Step(s, e), c) ensures CanWake(Step(s, e), c) {
      CallerStepKeepsAwakened(s, e, c);
    }
  }

  lemma {:induction false} AnsweredCallsWake(states: seq<State>, events: seq<Event>, j: nat)
    requires Execution(states, events) && j < |states| && states[j].count <= FREE
    ensures Awakened(states[j])
    ensures var s := states[j];
            forall c :: (At(s, c, Waiting) && s.lock.Unlocked? && s.slots[s.callers[c].slot].reply) ==>
              Enabled(s, Down(c))
  {
    hide Owned, LockFits, Step, Find;
    if j > 0 {
      CountGrows(states[j - 1], events[j - 1]);
      ExecutionOwned(states, events, j - 1);
      AnsweredCallsWake(states, events, j - 1);
      StepKeepsAwakened(states[j - 1], events[j - 1]);
    }
    assert forall c :: At(states[j], c, Waiting) ==> Asleep(states[j], c);
  }

  // ---------- nobody passes unasked ----------

  /** The event posts the semaphore of slot `i`: the end of a reply written there, or a call told to give up. */
  predicate PostsSlot(s: State, e: Event, i: nat) {
    e == Wake(i) || (e == Up && s.lock.Replying? && s.lock.slot == i)
  }

  /** How often slot `i` was posted between two moments of a run. */
  ghost function Posts(states: seq<State>, events: seq<Event>, i: nat, lo: nat, hi: nat): nat
    requires hi <= |events| < |states|
    decreases hi
  {
    if hi <= lo then 0
    else Posts(states, events, i, lo, hi - 1) + if PostsSlot(states[hi - 1], events[hi - 1], i) then 1 else 0
  }

  /** How often call `c` passed its semaphore. */
  ghost function Passes(events: seq<Event>, c: nat, lo: nat, hi: nat): nat
    requires hi <= |events|
    decreases hi
  {
    if hi <= lo then 0 else Passes(events, c, lo, hi - 1) + if events[hi - 1] == Down(c) then 1 else 0
  }

  lemma SemaphoreStep(s: State, e: Event, c: nat)
    requires Owned(s) && Enabled(s, e) && (e.Insert? ==> s.count < FREE)
    requires c in s.callers && c in Step(s, e).callers
    ensures var i, after := s.callers[c].slot, Step(s, e);
            && after.callers[c].slot == i && i < |s.slots| == |after.slots|
            && after.slots[i].waitSem + (if e == Down(c) then 1 else 0)
               == s.slots[i].waitSem + (if PostsSlot(s, e, i) then 1 else 0)
  {
    hide Find, FirstFree, Key;
    if e.Insert? {
      InsertedAt(s);
    }
    OneOwner(s, s.callers[c].slot);
  }

  /** Only an insertion brings a call into the table, under the next number, and with a semaphore at 0. */
  lemma EntryStep(s: State, e: Event, c: nat)
    requires Enabled(s, e) && c !in s.callers && c in Step(s, e).callers
    ensures e.Insert? && c == s.count
    ensures var after := Step(s, e);
            after.callers[c].slot < |after.slots| && after.slots[after.callers[c].slot].waitSem == 0
  {
    hide Find;
    if e.Insert? {
      InsertedAt(s);
    }
  }

  /** From the insertion of a call on, its semaphore holds how often its slot was posted, less how often the
      call passed. */
  lemma {:induction false} SemaphoreCounts(states: seq<State>, events: seq<Event>, b: nat, j: nat, c: nat)
    requires Execution(states, events) && b < j <= |events| && states[j].count <= FREE
    requires events[b].Insert? && states[b].count == c && c in states[j].callers
    ensures states[j].count > c
    ensures var i := states[j].callers[c].slot;
            && i < |states[j].slots|
            && states[j].slots[i].waitSem + Passes(events, c, b, j) == Posts(states, events, i, b, j)
  {
    hide Owned, LockFits, Step, Enabled, PostsSlot;
    var s, e := states[j - 1], events[j - 1];
    CountGrows(s, e);
    ExecutionOwned(states, events, j - 1);
    if j == b + 1 {
      FirstCount(states, events, b, c);
    } else {
      CountStays(states, events, b + 1, j - 1);
      CountGrows(states[b], events[b]);
      if c !in s.callers {
        EntryStep(s, e, c);
        assert false;
      }
      SemaphoreCounts(states, events, b, j - 1, c);
      SemaphoreStep(s, e, c);
    }
  }

  lemma FirstCount(states: seq<State>, events: seq<Event>, b: nat, c: nat)
    requires b < |events| < |states| && Enabled(states[b], events[b]) && states[b + 1] == Step(states[b], events[b])
    requires events[b].Insert? && Owned(states[b]) && states[b].count == c && c in states[b + 1].callers
    ensures var i := states[b + 1].callers[c].slot;
            && i < |states[b + 1].slots| && states[b + 1].slots[i].waitSem == 0
            && Passes(events, c, b, b + 1) == 0 == Posts(states, events, i, b, b + 1)
  {
    EntryStep(states[b], events[b], c);
  }

  lemma {:induction false} CountStays(states: seq<State>, events: seq<Event>, i: nat, j: nat)
    requires Execution(states, events) && i <= j < |states|
    ensures states[i].count <= states[j].count
  {
    hide Step, Enabled, Initial;
    if i < j {
      CountStays(states, events, i, j - 1);
      CountGrows(states[j - 1], events[j - 1]);
    }
  }

  lemma {:induction false} InsertedBefore(states: seq<State>, events: seq<Event>, j: nat, c: nat) returns (b: nat)
    requires Execution(states, events) && j < |states| && c in states[j].callers
    ensures b < j && events[b].Insert? && states[b].count == c
  {
    hide Step, Enabled;
    assert j > 0;
    if c in states[j - 1].callers {
      b := InsertedBefore(states, events, j - 1, c);
    } else {
      EntryStep(states[j - 1], events[j - 1], c);
      b := j - 1;
    }
  }

  lemma {:induction false} SomePost(states: seq<State>, events: seq<Event>, i: nat, lo: nat, hi: nat) returns (k: nat)
    requires hi <= |events| < |states| && Posts(states, events, i, lo, hi) > 0
    ensures lo <= k < hi && PostsSlot(states[k], events[k], i)
    decreases hi
  {
    hide PostsSlot;
    if PostsSlot(states[hi - 1], events[hi - 1], i) {
      k := hi - 1;
    } else {
      k := SomePost(states, events, i, lo, hi - 1);
    }
  }

  /** A call passes its semaphore only if, after its own insertion, a reply was written to its slot to the end
      or its slot was woken. */
  lemma PassesOnlyIfPosted(states: seq<State>, events: seq<Event>, j: nat, c: nat) returns (b: nat, k: nat)
    requires Execution(states, events) && j < |events| && states[j].count <= FREE && events[j] == Down(c)
    ensures c in states[j].callers && b < k < j
    ensures events[b].Insert? && states[b].count == c
    ensures var i := states[j].callers[c].slot;
            events[k] == Wake(i) || (events[k] == Up && states[k].lock.Replying? && states[k].lock.slot == i)
  {
    assert Enabled(states[j], events[j]);
    hide Step, Enabled, Owned, Initial;
    b := InsertedBefore(states, events, j, c);
    SemaphoreCounts(states, events, b, j, c);
    k := SomePost(states, events, states[j].callers[c].slot, b, j);
    assert k != b;
  }

  // ---------- everybody is told to give up ----------

  /** The used ones among the first `n` slots are woken, each once, in the order of the table. */
  ghost predicate WakesUsed(slots: seq<Slot>, events: seq<Event>, n: nat) {
    && (forall k :: 0 <= k < |events| ==>
          events[k].Wake? && events[k].slot < n && events[k].slot < |slots| && slots[events[k].slot].callId != FREE)
    && (forall j, k :: 0 <= j < k < |events| ==> events[j].slot < events[k].slot)
    && (forall i :: 0 <= i < n && i < |slots| && slots[i].callId != FREE ==> Wake(i) in events)
  }

  /** What waking does to them: used ones are posted once, free ones stay as they are. */
  ghost predicate PostedOnce(before: seq<Slot>, after: seq<Slot>, n: nat) {
    && |after| == |before|
    && forall i :: 0 <= i < |before| ==>
         after[i] == if i < n && before[i].callId != FREE then before[i].(waitSem := before[i].waitSem + 1)
                     else before[i]
  }

  lemma {:induction false} WakeRun(s: State, n: nat) returns (states: seq<State>, events: seq<Event>)
    requires n <= |s.slots|
    ensures |states| == |events| + 1 && Steps(states, events) && states[0] == s
    ensures states[|events|] == s.(slots := states[|events|].slots)
    ensures WakesUsed(s.slots, events, n) && PostedOnce(s.slots, states[|events|].slots, n)
  {
    hide Step, Enabled, Steps, WakesUsed, PostedOnce;
    if n == 0 {
      states, events := [s], [];
      NoneWoken(s);
    } else {
      states, events := WakeRun(s, n - 1);
      var last := states[|events|];
      SlotNotYetWoken(s.slots, events, last.slots, n);
      if s.slots[n - 1].callId != FREE {
        WakeOne(last, n - 1);
        WakesMore(s.slots, events, n);
        StepsMore(states, events, Wake(n - 1));
        states, events := states + [Step(last, Wake(n - 1))], events + [Wake(n - 1)];
      }
    }
  }

  lemma NoneWoken(s: State)
    ensures var none: seq<Event> := [];
            Steps([s], none) && WakesUsed(s.slots, none, 0) && PostedOnce(s.slots, s.slots, 0)
  {
  }

  lemma StepsMore(states: seq<State>, events: seq<Event>, e: Event)
    requires Steps(states, events) && Enabled(states[|events|], e)
    ensures |states| == |events| + 1 && Steps(states + [Step(states[|events|], e)], events + [e])
  {
    hide Step, Enabled;
  }

  lemma SlotNotYetWoken(slots: seq<Slot>, events: seq<Event>, now: seq<Slot>, n: nat)
    requires 0 < n <= |slots| && WakesUsed(slots, events, n - 1) && PostedOnce(slots, now, n - 1)
    ensures |now| == |slots| && now[n - 1] == slots[n - 1]
    ensures slots[n - 1].callId == FREE ==> WakesUsed(slots, events, n) && PostedOnce(slots, now, n)
    ensures slots[n - 1].callId != FREE ==>
              PostedOnce(slots, now[n - 1 := now[n - 1].(waitSem := now[n - 1].waitSem + 1)], n)
  {
  }

  lemma WakesMore(slots: seq<Slot>, events: seq<Event>, n: nat)
    requires 0 < n <= |slots| && WakesUsed(slots, events, n - 1) && slots[n - 1].callId != FREE
    ensures WakesUsed(slots, events + [Wake(n - 1)], n)
  {
    var more := events + [Wake(n - 1)];
    assert more[|events|] == Wake(n - 1);
    forall i | 0 <= i < n && slots[i].callId != FREE ensures Wake(i) in more {
      assert i < n - 1 ==> Wake(i) in events;
    }
  }

  lemma WakeOne(s: State, i: nat)
    requires i < |s.slots|
    ensures Enabled(s, Wake(i))
    ensures Step(s, Wake(i)) == s.(slots := s.slots[i := s.slots[i].(waitSem := s.slots[i].waitSem + 1)])
  {
  }

  /** When the daemon stops, every call that waits can pass its semaphore. */
  lemma EveryWaiterIsWoken(s: State, t: State)
    requires Owned(s) && t == s.(slots := t.slots) && PostedOnce(s.slots, t.slots, |s.slots|)
    ensures forall c :: At(s, c, Waiting) ==> Enabled(t, Down(c))
  {
    forall c | At(s, c, Waiting) ensures Enabled(t, Down(c)) {
      assert s.slots[s.callers[c].slot].callId == c != FREE;
    }
  }
}
