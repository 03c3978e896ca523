/** The buffer object under whole runs: its assertions hold in every run, and it hands out the stream. */
module ReceiveRuns {
  import opened Bytes
  import opened SequenceNumbers
  import opened PacketBuffer
  import opened Reassembly
  import opened Wraparound
  import opened StreamDelivery
  import opened ReceiveBuffer

  lemma FitsUpTo(log: Log, events: seq<Event>, n: nat)
    requires RunFits(log, events) && n <= |events|
    ensures RunFits(log, events[..n])
  {
    assert events == events[..n] + events[n..];
    FitsPrefix(log, events[..n], events[n..]);
  }

  /** One more event on 32-bit numbers. */
  lemma OneMoreEvent(start: int, events: seq<Event>, n: nat)
    requires n < |events|
    ensures Run32(start, events[..n + 1]) ==
            Step(Wrapped32, Run32(start, events[..n]),
                 if events[n].Arrive? then Arrive(WrapPacket(events[n].p)) else events[n])
  {
    assert events[..n + 1] == events[..n] + [events[n]];
    WrapEventsJoin(events[..n], [events[n]]);
    RunJoin(Wrapped32, WrapLog(Begin(start)), WrapEvents(events[..n]), WrapEvents([events[n]]));
    RunOne(Run32(start, events[..n]), WrapEvents([events[n]])[0]);
    assert WrapEvents([events[n]]) == [WrapEvents([events[n]])[0]];
  }

  /** Whatever the packets carry, also if they disagree about a byte. */
  lemma AssertionHolds(start: int, events: seq<Event>, n: nat)
    requires RunFits(Begin(start), events) && n < |events| && events[n].Arrive?
    ensures Insert(Wrapped32, Run32(start, events[..n]).st, WrapPacket(events[n].p)).1 >= 0
  {
    hide Run32, RunFits, PacketBuffer.Insert;
    FitsUpTo(Begin(start), events, n + 1);
    assert events[..n] + [Arrive(events[n].p)] == events[..n + 1];
    InsertNeverAborts(start, events[..n], events[n].p);
  }

  /** A connection from its start: each packet is inserted as it arrives, the application reads, sizes
      are asked for. The precondition of every insertion, which is an assertion of the program, holds;
      the state of the object is that of the run; and if the packets carry bytes of one stream, what was
      read is the stream so far. */
  method Replay(start: int, events: seq<Event>) returns (buffer: TCPPacketBuffer, text: seq<byte>, inserted: int)
    requires RunFits(Begin(start), events)
    ensures buffer.Valid() && buffer.Model() == Run32(start, events).st
    ensures text == Run32(start, events).delivered
    ensures inserted == |Arrived(events, start)|
    ensures forall stream :: EventsCarry(events, stream) ==> text == Slice(stream, start, start + |text|)
  {
    hide Run32, RunFits, EventsCarry, PacketBuffer.Insert, Read;
    buffer := new TCPPacketBuffer();
    buffer.SetFirstSequenceNumber(Wrap(start));
    text, inserted := [], 0;
    EmptyRun(start, events);
    for n := 0 to |events|
      invariant fresh(buffer) && buffer.Valid() && buffer.started
      invariant buffer.Model() == Run32(start, events[..n]).st
      invariant text == Run32(start, events[..n]).delivered && inserted == Run32(start, events[..n]).inserted
    {
      OneMoreEvent(start, events, n);
      match events[n] {
        case Arrive(p) =>
          AssertionHolds(start, events, n);
          var total := buffer.Insert(WrapPacket(p));
          inserted := inserted + total;
        case Deliver =>
          text := buffer.GetContinuousData(buffer.firstExpected, text);
        case AskSize =>
          var _ := buffer.Size();
      }
    }
    assert events[..|events|] == events;
    RunKeepsCount(start, events);
    forall stream | EventsCarry(events, stream) ensures text == Slice(stream, start, start + |text|) {
      DeliversPrefix(start, events, stream);
    }
  }

  lemma EmptyRun(start: int, events: seq<Event>)
    ensures Run32(start, events[..0]) == Log(State(Wrap(start), [], -1), [], 0)
  {
    assert WrapEvents(events[..0]) == [];
    assert WrapAll([]) == [];
  }
}
