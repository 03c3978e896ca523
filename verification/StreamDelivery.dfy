/** What a whole run of the 32-bit reassembly buffer delivers. Events are written with the unbounded
    stream positions of their packets; the buffer only ever sees the wrapped numbers. */
module StreamDelivery {
  import opened Bytes
  import opened SequenceNumbers
  import opened PacketBuffer
  import opened Reassembly
  import opened Wraparound

  function Run32(start: int, events: seq<Event>): Log {
    Run(Wrapped32, WrapLog(Begin(start)), WrapEvents(events))
  }

  lemma BeginIsGood(start: int, stream: Stream)
    ensures Counted(Begin(start), start, {}) && Streamed(Begin(start), start, stream)
    ensures Fits(Begin(start).st, start)
  {
  }

  lemma BeginCounts(start: int, events: seq<Event>)
    ensures Counted(Run(Unbounded, Begin(start), events), start, Arrived(events, start))
  {
    BeginIsGood(start, _ => 0);
    RunCounts(Begin(start), events, start, {});
    assert {} + Arrived(events, start) == Arrived(events, start);
  }

  lemma CountedMeans(log: Log, start: int, arrived: set<int>)
    requires Counted(log, start, arrived)
    ensures log.st.first == start + |log.delivered|
    ensures Interval(start, log.st.first) <= arrived
    ensures Pending(log.st) == arrived - Interval(start, log.st.first)
    ensures log.inserted == |arrived| == |log.delivered| + SizeFrom(Unbounded, log.st.buffer, log.st.first)
    ensures log.st.size == -1 || log.st.size == SizeFrom(Unbounded, log.st.buffer, log.st.first)
  {
    SizeCounts(log.st.buffer, log.st.first);
    IntervalSize(start, log.st.first);
    assert Interval(start, log.st.first) !! Pending(log.st);
  }

  lemma UnboundedRun(start: int, events: seq<Event>)
    ensures var log, arrived := Run(Unbounded, Begin(start), events), Arrived(events, start);
            && log.st.first == start + |log.delivered|
            && Interval(start, log.st.first) <= arrived
            && Pending(log.st) == arrived - Interval(start, log.st.first)
            && log.inserted == |arrived| == |log.delivered| + SizeFrom(Unbounded, log.st.buffer, log.st.first)
            && (log.st.size == -1 || log.st.size == SizeFrom(Unbounded, log.st.buffer, log.st.first))
  {
    hide Counted;
    BeginCounts(start, events);
    CountedMeans(Run(Unbounded, Begin(start), events), start, Arrived(events, start));
  }

  lemma UnboundedRead(start: int, events: seq<Event>)
    ensures Run(Unbounded, Begin(start), events + [Deliver]).st.first !in Arrived(events, start)
  {
    hide Counted;
    BeginCounts(start, events);
    DeliverIsLast(Begin(start), events, start, Arrived(events, start));
  }

  lemma RunRefines(start: int, events: seq<Event>)
    requires RunFits(Begin(start), events)
    ensures var log := Run(Unbounded, Begin(start), events);
            && Run32(start, events) == WrapLog(log)
            && SizeFrom(Wrapped32, WrapAll(log.st.buffer), Wrap(log.st.first)) ==
               SizeFrom(Unbounded, log.st.buffer, log.st.first) <= INT_MAX
  {
    assert Fits(Begin(start).st, start);
    RunWraps(Begin(start), events);
    var st := Run(Unbounded, Begin(start), events).st;
    var lo :| Fits(st, lo);
    SizeWraps(st.buffer, st.first, lo);
    SizeIsBounded(st.buffer, st.first, lo);
  }

  /** Every run, whatever its packets carry, keeps the books: nothing is handed out that has not
      arrived, the first expected number is the start plus the bytes handed out, and the insert results
      add up to the positions that arrived, and to the bytes handed out plus `size()`. */
  lemma RunKeepsCount(start: int, events: seq<Event>)
    requires RunFits(Begin(start), events)
    ensures var run := Run32(start, events);
            var end := start + |run.delivered|;
            && run.st.first == Wrap(end)
            && Interval(start, end) <= Arrived(events, start)
            && run.inserted == |Arrived(events, start)|
            && run.inserted == |run.delivered| + CachedSize(Wrapped32, run.st)
  {
    RunRefines(start, events);
    UnboundedRun(start, events);
  }

  /** Every run of packets that carry bytes of one stream hands out exactly a prefix of the stream: no
      byte is lost, repeated or reordered, and the books are kept. */
  lemma DeliversPrefix(start: int, events: seq<Event>, stream: Stream)
    requires EventsCarry(events, stream) && RunFits(Begin(start), events)
    ensures var run := Run32(start, events);
            var end := start + |run.delivered|;
            && run.delivered == Slice(stream, start, end)
            && run.st.first == Wrap(end)
            && Interval(start, end) <= Arrived(events, start)
            && run.inserted == |Arrived(events, start)|
            && run.inserted == |run.delivered| + CachedSize(Wrapped32, run.st)
  {
    hide Run32, Counted, Streamed, EventsCarry;
    RunKeepsCount(start, events);
    RunRefines(start, events);
    BeginIsGood(start, stream);
    assert Good(Begin(start).st);
    RunStreams(Begin(start), events, start, stream);
    StreamedMeans(start, events, stream);
  }

  lemma StreamedMeans(start: int, events: seq<Event>, stream: Stream)
    requires Streamed(Run(Unbounded, Begin(start), events), start, stream)
    ensures var delivered := Run(Unbounded, Begin(start), events).delivered;
            delivered == Slice(stream, start, start + |delivered|)
  {
    UnboundedRun(start, events);
  }

  /** In every run, also if packets disagree about a byte, each byte handed out is what some packet that
      arrived carries at its position. */
  lemma EveryByteArrived(start: int, events: seq<Event>)
    requires RunFits(Begin(start), events)
    ensures Vouched(Run32(start, events).delivered, start, Packets(events))
  {
    hide Run, RunFits, Sourced, Good;
    assert Good(Begin(start).st) && Sourced(Begin(start), start, Packets(events)) by {
      BeginSourced(start, Packets(events));
    }
    RunSourced(Begin(start), events, start, Packets(events));
    RunRefines(start, events);
    SourcedMeans(Run(Unbounded, Begin(start), events), start, Packets(events));
  }

  lemma BeginSourced(start: int, packets: set<Packet>)
    ensures Good(Begin(start).st) && Sourced(Begin(start), start, packets)
  {
  }

  lemma SourcedMeans(log: Log, start: int, packets: set<Packet>)
    requires Sourced(log, start, packets)
    ensures Vouched(log.delivered, start, packets)
  {
  }

  /** In every reachable state the cached count is dirty or equals a fresh recomputation, and a
      count always fits a 32-bit signed int. */
  lemma CacheIsRight(start: int, events: seq<Event>)
    requires RunFits(Begin(start), events)
    ensures var st := Run32(start, events).st;
            && (st.size == -1 || st.size == SizeFrom(Wrapped32, st.buffer, st.first))
            && SizeFrom(Wrapped32, st.buffer, st.first) <= INT_MAX
  {
    RunRefines(start, events);
    UnboundedRun(start, events);
  }

  lemma {:induction false} SizeIsBounded(buffer: seq<Packet>, pos: int, lo: int)
    requires BufferFits(buffer, pos, lo)
    ensures SizeFrom(Unbounded, buffer, pos) < lo + HALF - pos
  {
    if buffer != [] {
      StepUnbounded(buffer[0], pos);
      NextWraps(buffer[0], pos, lo);
      SizeIsBounded(buffer[1..], Next(Unbounded, buffer[0], pos), lo);
    }
  }

  lemma DeliverIsLast(log: Log, events: seq<Event>, start: int, arrived: set<int>)
    requires Counted(Run(Unbounded, log, events), start, arrived)
    ensures Run(Unbounded, log, events + [Deliver]).st.first !in arrived
  {
    hide Counted;
    var before := Run(Unbounded, log, events);
    DeliverCounts(before, start, arrived);
    RunJoin(Unbounded, log, events, [Deliver]);
    assert Run(Unbounded, before, [Deliver]) == Step(Unbounded, before, Deliver);
  }

  /** A read hands out the longest run that has arrived: the next position never arrived. */
  lemma ReadIsMaximal(start: int, events: seq<Event>)
    requires RunFits(Begin(start), events)
    ensures var run, arrived := Run32(start, events + [Deliver]), Arrived(events, start);
            var end := start + |run.delivered|;
            && Interval(start, end) <= arrived && end !in arrived
            && run.st.first == Wrap(end)
            && run.inserted == |arrived|
            && CachedSize(Wrapped32, run.st) == |arrived| - |run.delivered|
  {
    UnboundedRead(start, events);
    FitsThenDeliver(Begin(start), events);
    RunRefines(start, events + [Deliver]);
    UnboundedRun(start, events + [Deliver]);
    NoneBrought(events, start);
  }

  lemma NoneBrought(events: seq<Event>, start: int)
    ensures Arrived(events + [Deliver], start) == Arrived(events, start)
  {
    ArrivedJoin(events, [Deliver], start);
    assert Arrived([Deliver], start) == {};
  }

  lemma {:induction false} FitsThenDeliver(log: Log, events: seq<Event>)
    requires RunFits(log, events)
    ensures RunFits(log, events + [Deliver])
    decreases |events|
  {
    if events != [] {
      assert (events + [Deliver])[1..] == events[1..] + [Deliver];
      FitsThenDeliver(Step(Unbounded, log, events[0]), events[1..]);
    }
  }

  lemma ArrivedJoin(a: seq<Event>, b: seq<Event>, start: int)
    ensures Arrived(a + b, start) == Arrived(a, start) + Arrived(b, start)
  {
    forall x | x in Arrived(a + b, start) ensures x in Arrived(a, start) + Arrived(b, start) {
      var ev :| ev in a + b && x in Brought(ev, start);
      assert ev in a || ev in b;
    }
    forall x | x in Arrived(a, start) + Arrived(b, start) ensures x in Arrived(a + b, start) {
      var ev :| (ev in a || ev in b) && x in Brought(ev, start);
      assert ev in a + b;
    }
  }

  /** After a read, only the set of positions that have arrived matters to the books: neither the order
      of the packets, nor duplicates, nor overlaps, nor the reads in between, nor what the packets carry
      change how much was handed out, what is expected next, or how many bytes wait. */
  lemma OnlyArrivalsCount(start: int, a: seq<Event>, b: seq<Event>)
    requires RunFits(Begin(start), a) && RunFits(Begin(start), b)
    requires Arrived(a, start) == Arrived(b, start)
    ensures var runA, runB := Run32(start, a + [Deliver]), Run32(start, b + [Deliver]);
            && |runA.delivered| == |runB.delivered|
            && runA.st.first == runB.st.first
            && runA.inserted == runB.inserted
            && CachedSize(Wrapped32, runA.st) == CachedSize(Wrapped32, runB.st)
  {
    hide Run32, RunFits, CachedSize;
    ReadIsMaximal(start, a);
    ReadIsMaximal(start, b);
    FirstMissingIsUnique(Arrived(a, start), start, start + |Run32(start, a + [Deliver]).delivered|,
                         start + |Run32(start, b + [Deliver]).delivered|);
  }

  /** And if the packets of both runs carry bytes of one stream, the same bytes were handed out. */
  lemma OnlyArrivalsMatter(start: int, a: seq<Event>, b: seq<Event>, stream: Stream)
    requires EventsCarry(a, stream) && RunFits(Begin(start), a)
    requires EventsCarry(b, stream) && RunFits(Begin(start), b)
    requires Arrived(a, start) == Arrived(b, start)
    ensures var runA, runB := Run32(start, a + [Deliver]), Run32(start, b + [Deliver]);
            && runA.delivered == runB.delivered
            && runA.st.first == runB.st.first
            && runA.inserted == runB.inserted
            && CachedSize(Wrapped32, runA.st) == CachedSize(Wrapped32, runB.st)
  {
    OnlyArrivalsCount(start, a, b);
    FitsThenDeliver(Begin(start), a);
    FitsThenDeliver(Begin(start), b);
    hide Run32, RunFits, CachedSize;
    DeliversPrefix(start, a + [Deliver], stream);
    DeliversPrefix(start, b + [Deliver], stream);
  }

  lemma FirstMissingIsUnique(arrived: set<int>, start: int, endA: int, endB: int)
    requires start <= endA && Interval(start, endA) <= arrived && endA !in arrived
    requires start <= endB && Interval(start, endB) <= arrived && endB !in arrived
    ensures endA == endB
  {
    assert endA !in Interval(start, endB) && endB !in Interval(start, endA);
  }

  ghost predicate OnlyArrivals(events: seq<Event>) {
    forall ev :: ev in events ==> ev.Arrive?
  }

  lemma {:induction false} NothingDelivered(log: Log, events: seq<Event>)
    requires OnlyArrivals(events)
    ensures Run(Wrapped32, log, WrapEvents(events)).delivered == log.delivered
    decreases |events|
  {
    if events != [] {
      assert events[0] in events;
      assert WrapEvents(events)[1..] == WrapEvents(events[1..]);
      NothingDelivered(Step(Wrapped32, log, WrapEvents(events)[0]), events[1..]);
    }
  }

  /** The positions the buffer still has to hand out after a run, told by the unbounded positions. */
  ghost function PendingAfter(start: int, events: seq<Event>): set<int> {
    Pending(Run(Unbounded, Begin(start), events).st)
  }

  /** What is pending is what has arrived and was not handed out. */
  lemma PendingIsArrived(start: int, events: seq<Event>)
    requires RunFits(Begin(start), events)
    ensures PendingAfter(start, events) == Arrived(events, start)
                                           - Interval(start, start + |Run32(start, events).delivered|)
  {
    hide Run, RunFits, Arrived, SizeFrom, Interval;
    UnboundedRun(start, events);
    RunRefines(start, events);
  }

  /** Between reads, inserting the same packets in any order and with any duplication reports the same
      total, leaves the same positions covered and the same `size()`, and the next read hands out as
      much. */
  lemma OrderBetweenReadsCounts(start: int, before: seq<Event>, a: seq<Event>, b: seq<Event>)
    requires RunFits(Begin(start), before + a) && RunFits(Begin(start), before + b)
    requires OnlyArrivals(a) && OnlyArrivals(b)
    requires forall ev :: ev in a <==> ev in b
    ensures Arrived(before + a, start) == Arrived(before + b, start)
    ensures var runA, runB := Run32(start, before + a), Run32(start, before + b);
            && runA.inserted == runB.inserted
            && PendingAfter(start, before + a) == PendingAfter(start, before + b)
            && CachedSize(Wrapped32, runA.st) == CachedSize(Wrapped32, runB.st)
            && |Run32(start, before + a + [Deliver]).delivered| == |Run32(start, before + b + [Deliver]).delivered|
  {
    hide Run32, RunFits, CachedSize, PendingAfter, Interval, Arrived, OnlyArrivals;
    SameArrivals(a, b, start);
    ArrivedJoin(before, a, start);
    ArrivedJoin(before, b, start);
    OnlyArrivalsCount(start, before + a, before + b);
    RunKeepsCount(start, before + a);
    RunKeepsCount(start, before + b);
    DeliveredSoFar(start, before, a);
    DeliveredSoFar(start, before, b);
    PendingIsArrived(start, before + a);
    PendingIsArrived(start, before + b);
  }

  /** And if they carry bytes of one stream, the next read hands out the same bytes. */
  lemma OrderBetweenReads(start: int, before: seq<Event>, a: seq<Event>, b: seq<Event>, stream: Stream)
    requires EventsCarry(before + a, stream) && RunFits(Begin(start), before + a)
    requires EventsCarry(before + b, stream) && RunFits(Begin(start), before + b)
    requires OnlyArrivals(a) && OnlyArrivals(b)
    requires forall ev :: ev in a <==> ev in b
    ensures var runA, runB := Run32(start, before + a), Run32(start, before + b);
            && runA.inserted == runB.inserted
            && PendingAfter(start, before + a) == PendingAfter(start, before + b)
            && CachedSize(Wrapped32, runA.st) == CachedSize(Wrapped32, runB.st)
            && Run32(start, before + a + [Deliver]).delivered == Run32(start, before + b + [Deliver]).delivered
  {
    hide Run32, RunFits, EventsCarry, CachedSize, PendingAfter, Arrived, OnlyArrivals;
    OrderBetweenReadsCounts(start, before, a, b);
    OnlyArrivalsMatter(start, before + a, before + b, stream);
  }

  lemma DeliveredSoFar(start: int, before: seq<Event>, a: seq<Event>)
    requires OnlyArrivals(a)
    ensures Run32(start, before + a).delivered == Run32(start, before).delivered
  {
    WrapEventsJoin(before, a);
    RunJoin(Wrapped32, WrapLog(Begin(start)), WrapEvents(before), WrapEvents(a));
    NothingDelivered(Run32(start, before), a);
  }

  lemma WrapEventsJoin(a: seq<Event>, b: seq<Event>)
    ensures WrapEvents(a + b) == WrapEvents(a) + WrapEvents(b)
  {
  }

  lemma {:induction false} FitsPrefix(log: Log, a: seq<Event>, b: seq<Event>)
    requires RunFits(log, a + b)
    ensures RunFits(log, a)
    decreases |a|
  {
    if a != [] {
      assert (a + b)[1..] == a[1..] + b;
      FitsPrefix(Step(Unbounded, log, a[0]), a[1..], b);
    }
  }

  lemma OneBrought(p: Packet, start: int)
    ensures Arrived([Arrive(p)], start) == Span(p, start)
  {
    var one: seq<Event> := [Arrive(p)];
    forall x | x in Span(p, start) ensures x in Arrived(one, start) {
      assert one[0] in one && x in Brought(one[0], start);
    }
    forall x | x in Arrived(one, start) ensures x in Span(p, start) {
      var ev :| ev in one && x in Brought(ev, start);
    }
  }

  lemma SameArrivals(a: seq<Event>, b: seq<Event>, start: int)
    requires forall ev :: ev in a <==> ev in b
    ensures Arrived(a, start) == Arrived(b, start)
  {
    hide Brought;
  }

  /** The program asserts that an insert never reports a negative number. In a reachable state it
      reports exactly the number of stream positions that no earlier packet of the run has brought. */
  lemma InsertNeverAborts(start: int, events: seq<Event>, p: Packet)
    requires RunFits(Begin(start), events + [Arrive(p)])
    ensures Insert(Wrapped32, Run32(start, events).st, WrapPacket(p)).1 == |Span(p, start) - Arrived(events, start)|
  {
    hide Run32, RunFits, CachedSize, Insert, Interval;
    FitsPrefix(Begin(start), events, [Arrive(p)]);
    RunKeepsCount(start, events);
    RunKeepsCount(start, events + [Arrive(p)]);
    ArrivedJoin(events, [Arrive(p)], start);
    OneBrought(p, start);
    SetGrows(Arrived(events, start), Span(p, start));
    RunOneMore(start, events, p);
  }

  lemma RunOneMore(start: int, events: seq<Event>, p: Packet)
    ensures Run32(start, events + [Arrive(p)]).inserted ==
            Run32(start, events).inserted + Insert(Wrapped32, Run32(start, events).st, WrapPacket(p)).1
  {
    WrapEventsJoin(events, [Arrive(p)]);
    RunJoin(Wrapped32, WrapLog(Begin(start)), WrapEvents(events), WrapEvents([Arrive(p)]));
    assert WrapEvents([Arrive(p)]) == [Arrive(WrapPacket(p))];
    RunOne(Run32(start, events), Arrive(WrapPacket(p)));
  }

  // ---------- two packets with one number ----------

  function Only(p: Packet): seq<Packet> {
    if p.data == [] then [] else [p]
  }

  lemma OneAlone(p: Packet)
    ensures SizeFrom(Unbounded, [p], p.seqno) == |p.data| && SizeFrom(Unbounded, [], p.seqno) == 0
    ensures SweepFrom(Unbounded, [p], p.seqno) == Sweep(p.data, p.End(), 1)
    ensures PlacedIn(Unbounded, [], p) == [p]
  {
    assert [p][1..] == [] && [p][0] == p;
    assert SweepFrom(Unbounded, [], p.End()) == Sweep([], p.End(), 0);
    assert Next(Unbounded, p, p.seqno) == p.End() && Unread(Unbounded, p, p.seqno) == p.data;
    assert p.data + [] == p.data;
    assert LowerBound(Unbounded, [], p) == 0;
    assert SizeFrom(Unbounded, [], p.End()) == 0;
  }

  lemma OneOverOther(p: Packet, q: Packet)
    requires p.seqno == q.seqno
    ensures LowerBound(Unbounded, [p], q) == 0 && LowerBound(Unbounded, [], q) == 0
    ensures PlacedIn(Unbounded, [p], q) == [if |p.data| <= |q.data| then q else p]
  {
    assert [p][0] == p && [p][1..] == [] && [p][..0] == [];
  }

  lemma FirstCopy(p: Packet)
    ensures Insert(Unbounded, State(p.seqno, [], -1), p) == (State(p.seqno, Only(p), |p.data|), |p.data|)
  {
    hide SizeFrom, PlacedIn, LowerBound;
    OneAlone(p);
  }

  lemma SecondCopy(p: Packet, q: Packet)
    requires p.seqno == q.seqno
    ensures Insert(Unbounded, State(p.seqno, Only(p), |p.data|), q).0
            == State(p.seqno, Only(if |p.data| <= |q.data| then q else p),
                     if |p.data| <= |q.data| then |q.data| else |p.data|)
  {
    hide SizeFrom, PlacedIn, LowerBound;
    OneAlone(p);
    OneAlone(q);
    OneOverOther(p, q);
  }

  lemma ReadCopy(p: Packet, size: int)
    ensures Read(Unbounded, State(p.seqno, Only(p), size)).1 == p.data
  {
    hide SweepFrom;
    OneAlone(p);
  }

  lemma CopiesRun(start: int, p: Packet, q: Packet)
    requires p.seqno == q.seqno == start
    ensures var events, winner := [Arrive(p), Arrive(q), Deliver], if |p.data| <= |q.data| then q else p;
            && RunFits(Begin(start), events)
            && Run(Unbounded, Begin(start), events).delivered == winner.data
  {
    hide Insert, Read;
    var winner := if |p.data| <= |q.data| then q else p;
    FirstCopy(p);
    SecondCopy(p, q);
    ReadCopy(winner, |winner.data|);
    var one := Step(Unbounded, Begin(start), Arrive(p));
    var two := Step(Unbounded, one, Arrive(q));
    assert FitsIn(Begin(start).st, start, HALF) && PacketFitsIn(p, start, HALF);
    assert FitsIn(one.st, start, HALF) && PacketFitsIn(q, start, HALF);
    ThreeEvents(Begin(start), one, two, Arrive(p), Arrive(q));
  }

  lemma ThreeEvents(log: Log, one: Log, two: Log, a: Event, b: Event)
    requires one == Step(Unbounded, log, a) && two == Step(Unbounded, one, b) && a.Arrive? && b.Arrive?
    requires exists lo :: FitsIn(log.st, lo, HALF) && PacketFitsIn(a.p, lo, HALF)
    requires exists lo :: FitsIn(one.st, lo, HALF) && PacketFitsIn(b.p, lo, HALF)
    ensures RunFits(log, [a, b, Deliver])
    ensures Run(Unbounded, log, [a, b, Deliver]) == Step(Unbounded, two, Deliver)
  {
    hide Step, FitsIn, PacketFitsIn;
    var events := [a, b, Deliver];
    assert events[1..] == [b, Deliver] && events[1..][1..] == [Deliver] && events[1..][1..][1..] == [];
    var three := Step(Unbounded, two, Deliver);
    assert Run(Unbounded, three, []) == three;
    assert Run(Unbounded, two, [Deliver]) == three;
    assert RunFitsIn(three, [], HALF);
    assert RunFitsIn(two, [Deliver], HALF);
    assert RunFitsIn(one, [b, Deliver], HALF);
  }

  /** Of two packets with one number the longer one is handed out, and of two equally long ones the one that
      came later. */
  lemma LaterCopyWins(start: int, a: Payload, b: Payload)
    ensures Run32(start, [Arrive(Packet(start, a)), Arrive(Packet(start, b)), Deliver]).delivered
            == if |a| <= |b| then b else a
  {
    hide Run, RunFits;
    var events := [Arrive(Packet(start, a)), Arrive(Packet(start, b)), Deliver];
    CopiesRun(start, Packet(start, a), Packet(start, b));
    RunRefines(start, events);
  }

  /** How far ahead a byte may be: in a new buffer, a packet of one byte at a distance of less than a
      turn is counted as new exactly if it is less than half a turn ahead, or just half a turn across
      zero. Otherwise it is taken for an old byte, and lost. */
  lemma LonePacketExactly(start: int, ahead: nat, b: byte)
    requires ahead < MODULUS
    ensures var p := Packet(start + ahead, [b]);
            Insert(Wrapped32, WrapState(Begin(start).st), WrapPacket(p)).1 ==
              if ahead < HALF || (ahead == HALF && Wrap(start) > Wrap(p.seqno)) then 1 else 0
  {
    var p := Packet(start + ahead, [b]);
    var wrapped, pos := WrapPacket(p), Wrap(start);
    assert WrapAll([]) == [];
    assert PlacedIn(Wrapped32, [], wrapped) == [wrapped];
    assert [wrapped][1..] == [];
    assert SizeFrom(Wrapped32, [wrapped], pos) == NewBytes(Wrapped32, wrapped, pos);
    BehindBy(start, ahead);
    BetweenTestsSegment(wrapped.seqno, pos, 1);
    WrapAbsorbs(p.seqno, 0);
    WrapAbsorbs(start, 0);
    hide Wrap, LessThan, Between;
  }

  lemma BehindBy(start: int, ahead: nat)
    requires ahead < MODULUS
    ensures Wrap(start) == Wrap(start + ahead) <==> ahead == 0
    ensures LessThan(Wrap(start + ahead), Wrap(start)) <==>
              HALF < ahead || (ahead == HALF && Wrap(start) < Wrap(start + ahead))
  {
    LessThanMeasuresDistance(start + ahead, start);
    WrapMove(0, 0 - ahead);
    WrapAbsorbs(start, ahead);
    WrapMove(Wrap(start), ahead);
  }

  /** Every insert result of the run is right. */
  ghost predicate CountsRight(start: int, events: seq<Event>) {
    Run32(start, events).inserted == |Arrived(events, start)|
  }

  lemma {:induction false} NarrowerFits(log: Log, events: seq<Event>, n: int)
    requires n <= HALF && RunFitsIn(log, events, n)
    ensures RunFits(log, events)
    decreases |events|
  {
    hide Step;
    if events != [] {
      NarrowerFits(Step(Unbounded, log, events[0]), events[1..], n);
      if events[0].Arrive? {
        var lo :| FitsIn(log.st, lo, n) && PacketFitsIn(events[0].p, lo, n);
        assert FitsIn(log.st, lo, HALF) && PacketFitsIn(events[0].p, lo, HALF);
      }
    }
  }

  /** How wide the window may be: insert results are right for all runs with windows of `n` positions if
      and only if `n` is at most half of the sequence space. */
  lemma WidestWindow(n: nat)
    ensures (forall start, events :: RunFitsIn(Begin(start), events, n) ==> CountsRight(start, events)) <==> n <= HALF
  {
    if n <= HALF {
      forall start, events | RunFitsIn(Begin(start), events, n) ensures CountsRight(start, events) {
        NarrowerFits(Begin(start), events, n);
        RunKeepsCount(start, events);
      }
    } else {
      var p := Packet(0, [7]);
      OldByteCounts(p);
      assert FitsIn(Begin(HALF).st, 0, n) && PacketFitsIn(p, 0, n);
      assert [Arrive(p)][1..] == [];
      assert RunFitsIn(Begin(HALF), [Arrive(p)], n);
      assert !CountsRight(HALF, [Arrive(p)]);
    }
  }

  /** A byte half a turn behind is counted, although it is old. */
  lemma OldByteCounts(p: Packet)
    requires p == Packet(0, [7])
    ensures Run32(HALF, [Arrive(p)]).inserted == 1 && Arrived([Arrive(p)], HALF) == {}
  {
    hide Run32, Insert, WrapState, Arrived;
    assert WrapPacket(p) == WrapPacket(Packet(MODULUS, [7]));
    assert Wrap(HALF) > Wrap(MODULUS);
    LonePacketExactly(HALF, HALF, 7);
    OneBrought(p, HALF);
    assert Span(p, HALF) == {};
    NothingRun(HALF);
    assert [] + [Arrive(p)] == [Arrive(p)];
    RunOneMore(HALF, [], p);
  }

  lemma NothingRun(start: int)
    ensures Run32(start, []) == WrapLog(Begin(start))
  {
    assert WrapEvents([]) == [];
  }

  /** The window is needed: a packet one whole turn ahead is handed out as if it were due now. */
  lemma WindowIsNeeded(stream: Stream)
    requires stream(0) == 0 && stream(MODULUS) == 1
    ensures var events := [Arrive(Packet(MODULUS, [1])), Deliver];
            EventsCarry(events, stream) && Run32(0, events).delivered == [1] != Slice(stream, 0, 1)
  {
    var p, early := Packet(MODULUS, [1]), Packet(0, [1]);
    var events := [Arrive(p), Deliver];
    assert Carries(p, stream);
    assert WrapEvents(events) == [Arrive(early)] + [Deliver];
    RunJoin(Wrapped32, WrapLog(Begin(0)), [Arrive(early)], [Deliver]);
    OneByte(early);
    var log := Log(State(0, [early], 1), [], 1);
    assert Step(Wrapped32, WrapLog(Begin(0)), Arrive(early)) == log;
    RunOne(WrapLog(Begin(0)), Arrive(early));
    RunOne(log, Deliver);
    assert Slice(stream, 0, 1)[0] == 0;
  }

  lemma RunOne(log: Log, ev: Event)
    ensures Run(Wrapped32, log, [ev]) == Step(Wrapped32, log, ev)
  {
  }

  lemma OneByte(p: Packet)
    requires p == Packet(0, [1])
    ensures Insert(Wrapped32, WrapState(State(0, [], -1)), p) == (State(0, [p], 1), 1)
    ensures Read(Wrapped32, State(0, [p], 1)) == (State(1, [], -1), [1])
  {
    var st := WrapState(State(0, [], -1));
    assert st == State(0, [], -1);
    assert PlacedIn(Wrapped32, [], p) == [p];
    assert NewBytes(Wrapped32, p, 0) == 1 && Next(Wrapped32, p, 0) == 1;
    assert [p][1..] == [];
    assert SizeFrom(Wrapped32, [p], 0) == 1;
    assert SweepFrom(Wrapped32, [], 1) == Sweep([], 1, 0);
    assert SweepFrom(Wrapped32, [p], 0) == Sweep([1], 1, 1);
  }
}
