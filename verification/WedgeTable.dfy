/** The call table of the kernel wedge as the array it is, with the loops that scan it. */
module WedgeTable {
  import opened Maybes
  import opened WedgeCalls

  const MODULUS: nat := 0x1_0000_0000

  /** The index the program uses for a slot that may not exist. */
  function Index(found: Maybe<nat>): int {
    if found.Just? then found.value else -1
  }

  /** What a woken call returns. */
  function Confirmation(slot: Slot): int {
    if !slot.reply then -1
    else if slot.body.ret == ACK then (if slot.body.len == 0 then 0 else -1)
    else if slot.body.ret == NACK then -slot.body.msg
    else -1
  }

  class CallTable {
    const calls: array<Slot>
    var callCount: nat

    ghost predicate Valid()
      reads this
    {
      calls.Length == MAX_CALLS && callCount < MODULUS
    }

    /** The table part of a state. */
    ghost predicate Represents(s: State)
      reads this, calls
    {
      Valid() && calls[..] == s.slots && callCount == s.count % MODULUS
    }

    constructor ()
      ensures Valid() && fresh(calls) && calls.Length == 100 && callCount == 0
      ensures forall i :: 0 <= i < 100 ==> calls[i].callId == 0xffff_ffff
      ensures forall s :: Represents(s) && s.count == 0 && s.callers == map[] && s.lock == Unlocked ==> Initial(s)
    {
      callCount := 0;
      calls := new Slot[MAX_CALLS](_ => Slot(0, 0, 0, false, 0, Body(0, 0, 0)));
      new;
      for i := 0 to MAX_CALLS
        invariant callCount == 0
        invariant forall k :: 0 <= k < i ==> calls[k].callId == FREE
      {
        calls[i] := calls[i].(callId := FREE);
      }
    }

    method Insert(callId: nat, key: (int, nat)) returns (index: int)
      requires Valid()
      modifies calls
      ensures index == Index(FirstFree(old(calls[..]), 0))
      ensures calls[..] == if index == -1 then old(calls[..])
                           else old(calls[..])[index := Taken(old(calls[index]), callId, key)]
      ensures index >= 0 ==>
                var body := old(calls[index]).body;
                calls[index] == Slot(callId, key.0, key.1, false, 0, Body(0, body.msg, body.len))
    {
      for i := 0 to MAX_CALLS
        invariant calls[..] == old(calls[..])
        invariant FirstFree(calls[..], 0) == FirstFree(calls[..], i)
      {
        if calls[i].callId == FREE {
          calls[i] := Taken(calls[i], callId, key);
          return i;
        }
      }
      index := -1;
    }

    method FindCall(key: (int, nat)) returns (index: int)
      requires Valid()
      ensures index == Index(Find(calls[..], key, 0))
    {
      for i := 0 to MAX_CALLS
        invariant Find(calls[..], key, 0) == Find(calls[..], key, i)
      {
        if calls[i].callId != FREE && calls[i].sock == key.0 && calls[i].kind == key.1 {
          return i;
        }
      }
      index := -1;
    }

    /** A caller numbers its call and takes a slot: one step of the system. */
    method StartCall(key: (int, nat), ghost s: State) returns (index: int)
      requires Represents(s) && s.lock.Unlocked?
      modifies this`callCount, calls
      ensures Represents(Step(s, Event.Insert(key)))
      ensures index == Index(FirstFree(s.slots, 0))
      ensures callCount == (old(callCount) + 1) % 0x1_0000_0000
      ensures index >= 0 ==> Step(s, Event.Insert(key)).callers == s.callers[s.count := Caller(index, key, Sending)]
    {
      hide Taken;
      var callId := callCount;
      Wrap(s.count);
      callCount := (callCount + 1) % MODULUS;
      index := Insert(callId, key);
    }

    lemma Wrap(n: nat)
      ensures (n % MODULUS + 1) % MODULUS == (n + 1) % MODULUS
    {
    }

    /** A reply for which there is a slot: the four steps of its handler. */
    method HandleReply(key: (int, nat), msg: int, len: int, ghost s: State)
      requires Represents(s) && Enabled(s, BeginReply(key, Body(ACK, msg, len)))
      modifies calls
      ensures Represents(Replied(s, key, Body(ACK, msg, len)))
      ensures var i := Find(s.slots, key, 0).value;
              calls[..] == s.slots[i := s.slots[i].(body := Body(200, msg, len), reply := true,
                                                    waitSem := s.slots[i].waitSem + 1)]
    {
      hide Find;
      RepliedSlot(s, key, Body(ACK, msg, len));
      var i := FindCall(key);
      calls[i] := calls[i].(body := Body(ACK, msg, len));
      calls[i] := calls[i].(reply := true);
      calls[i] := calls[i].(waitSem := calls[i].waitSem + 1);
    }

    /** The end of a call that was woken: the confirmation is read and the slot freed. */
    method FinishCall(i: nat, ghost c: nat, ghost s: State) returns (rc: int)
      requires Represents(s) && At(s, c, Awake) && i == s.callers[c].slot
      modifies calls
      ensures Represents(Step(Step(s, Read(c)), Event.Free(c)))
      ensures rc == Confirmation(s.slots[i])
      ensures !s.slots[i].reply || s.slots[i].body.ret !in {200, 6666} ==> rc == -1
      ensures s.slots[i].reply && s.slots[i].body.ret == 200 ==> rc == if s.slots[i].body.len == 0 then 0 else -1
      ensures s.slots[i].reply && s.slots[i].body.ret == 6666 ==> rc == -s.slots[i].body.msg
    {
      if calls[i].reply {
        rc := CheckConfirmation(i);
      } else {
        rc := -1;
      }
      calls[i] := calls[i].(callId := FREE);
    }

    method CheckConfirmation(i: nat) returns (rc: int)
      requires Valid() && i < MAX_CALLS && calls[i].reply
      ensures rc == Confirmation(calls[i])
    {
      var body := calls[i].body;
      if body.ret == ACK {
        if body.len == 0 {
          rc := 0;
        } else {
          rc := -1;
        }
      } else if body.ret == NACK {
        rc := -body.msg;
      } else {
        rc := -1;
      }
    }

    /** Every call in the table is woken, and nothing else changes: this is the run that posts each used slot
        once, and afterwards every call that waits can go on. */
    method RemoveAll(ghost s: State) returns (ghost states: seq<State>, ghost events: seq<Event>)
      requires Represents(s)
      modifies calls
      ensures forall i :: 0 <= i < 100 ==>
                calls[i] == if old(calls[i]).callId == 0xffff_ffff then old(calls[i])
                            else old(calls[i]).(waitSem := old(calls[i]).waitSem + 1)
      ensures Steps(states, events) && states[0] == s && WakesUsed(s.slots, events, 100) && Represents(states[|events|])
      ensures Owned(s) ==> forall c :: At(s, c, Waiting) ==> Enabled(states[|events|], Down(c))
    {
      hide Step, Enabled, Owned;
      for i := 0 to MAX_CALLS
        invariant forall k :: 0 <= k < i ==>
                    calls[k] == if old(calls[k]).callId == FREE then old(calls[k])
                                else old(calls[k]).(waitSem := old(calls[k]).waitSem + 1)
        invariant forall k :: i <= k < MAX_CALLS ==> calls[k] == old(calls[k])
      {
        if calls[i].callId != FREE {
          calls[i] := calls[i].(waitSem := calls[i].waitSem + 1);
        }
      }
      states, events := WakeRun(s, MAX_CALLS);
      assert calls[..] == states[|events|].slots;
      if Owned(s) {
        EveryWaiterIsWoken(s, states[|events|]);
      }
    }
  }

  /** After an uninterrupted reply. */
  ghost function Replied(s: State, key: (int, nat), body: Body): State
    requires Enabled(s, BeginReply(key, body))
  {
    Step(Step(Step(Step(s, BeginReply(key, body)), Fill), Flag), Up)
  }

  lemma RepliedSlot(s: State, key: (int, nat), body: Body)
    requires Enabled(s, BeginReply(key, body))
    ensures var i := Find(s.slots, key, 0).value;
            Replied(s, key, body) ==
              s.(slots := s.slots[i := s.slots[i].(body := body, reply := true, waitSem := s.slots[i].waitSem + 1)])
  {
  }

  /** Whatever the daemon returned, an answered call returns 0 exactly if nothing followed the response
      structure, and -1 otherwise. */
  lemma ReturnValueIsIgnored(s: State, key: (int, nat), msg: int, len: int)
    requires Enabled(s, BeginReply(key, Body(ACK, msg, len)))
    ensures var after := Replied(s, key, Body(ACK, msg, len));
            var i := Find(s.slots, key, 0).value;
            i < |after.slots| && Confirmation(after.slots[i]) == if len == 0 then 0 else -1
  {
    RepliedSlot(s, key, Body(ACK, msg, len));
  }

  /** A reply to call `c` with nothing behind the response structure, handled after `c` had its slot. */
  ghost predicate AnsweredEmpty(states: seq<State>, events: seq<Event>, b: nat, c: nat, key: (int, nat))
    requires b < |states| && b < |events|
  {
    events[b].BeginReply? && events[b].key == key && events[b].body.len == 0 && c in states[b].callers
  }

  /** What a caller may conclude from its result, in every run where all replies carry an ACK, as all
      replies of the handler do: it is 0 or -1, and 0 only if a reply to its own socket and type, with
      nothing behind it, was handled after the call had taken its slot. */
  lemma SuccessMeansAnswered(states: seq<State>, events: seq<Event>, j: nat, c: nat)
    requires Execution(states, events) && j < |states| && states[j].count <= FREE
    requires c in states[j].callers && states[j].callers[c].slot < |states[j].slots|
    requires forall k :: 0 <= k < |events| && events[k].BeginReply? ==> events[k].body.ret == ACK
    ensures var rc := Confirmation(states[j].slots[states[j].callers[c].slot]);
            && (rc == 0 || rc == -1)
            && (rc == 0 ==> exists b :: 0 <= b < j && AnsweredEmpty(states, events, b, c, states[j].callers[c].key))
  {
    hide Step, Enabled, Initial;
    var slot := states[j].slots[states[j].callers[c].slot];
    if slot.reply {
      var b := ReplyOrigin(states, events, j, c);
      assert events[b].body == slot.body;
      assert slot.body.len == 0 ==> AnsweredEmpty(states, events, b, c, states[j].callers[c].key);
    }
  }
}
