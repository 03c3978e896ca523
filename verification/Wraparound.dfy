/** The buffer running on 32-bit numbers does, step for step, what it does on unbounded positions,
    as long as the positions alive at each arrival fit in half of the sequence space. */
module Wraparound {
  import opened SequenceNumbers
  import opened PacketBuffer
  import opened Reassembly

  function WrapPacket(p: Packet): Packet {
    Packet(Wrap(p.seqno), p.data)
  }

  function WrapAll(buffer: seq<Packet>): (wrapped: seq<Packet>)
    ensures |wrapped| == |buffer|
  {
    seq(|buffer|, i requires 0 <= i < |buffer| => WrapPacket(buffer[i]))
  }

  function WrapState(st: State): State {
    State(Wrap(st.first), WrapAll(st.buffer), st.size)
  }

  function WrapEvents(events: seq<Event>): (wrapped: seq<Event>)
    ensures |wrapped| == |events|
  {
    seq(|events|, i requires 0 <= i < |events| =>
      if events[i].Arrive? then Arrive(WrapPacket(events[i].p)) else events[i])
  }

  function WrapLog(log: Log): Log {
    log.(st := WrapState(log.st))
  }

  // ---------- the window ----------

  // A window is a stretch of `n` positions from `lo` on

  ghost predicate PacketFitsIn(p: Packet, lo: int, n: int) {
    lo <= p.seqno && p.End() < lo + n
  }

  ghost predicate FitsIn(st: State, lo: int, n: int) {
    lo <= st.first < lo + n && forall p :: p in st.buffer ==> PacketFitsIn(p, lo, n)
  }

  /** At every arrival, one window holds the first expected position and both ends of the arriving
      packet and of every buffered packet. */
  ghost predicate RunFitsIn(log: Log, events: seq<Event>, n: int)
    decreases |events|
  {
    events != [] ==>
      && (events[0].Arrive? ==> exists lo :: FitsIn(log.st, lo, n) && PacketFitsIn(events[0].p, lo, n))
      && RunFitsIn(Step(Unbounded, log, events[0]), events[1..], n)
  }

  // Half the circle is the widest window the program can do with

  ghost predicate PacketFits(p: Packet, lo: int) {
    PacketFitsIn(p, lo, HALF)
  }

  ghost predicate BufferFits(buffer: seq<Packet>, pos: int, lo: int) {
    lo <= pos < lo + HALF && forall p :: p in buffer ==> PacketFits(p, lo)
  }

  ghost predicate Fits(st: State, lo: int) {
    BufferFits(st.buffer, st.first, lo)
  }

  ghost predicate RunFits(log: Log, events: seq<Event>) {
    RunFitsIn(log, events, HALF)
  }

  // ---------- one packet ----------

  lemma LocateWraps(p: Packet, pos: int, lo: int)
    requires PacketFits(p, lo) && lo <= pos < lo + HALF
    ensures Locate(Wrapped32, WrapPacket(p), Wrap(pos)) == Locate(Unbounded, p, pos)
  {
    WrapKeepsOrder(p.seqno, pos);
    WrapKeepsIntervals(p.seqno, pos, p.End());
    WrapAbsorbs(p.seqno, |p.data|);
    WrapAbsorbs(pos, 0);
  }

  lemma NewBytesWrap(p: Packet, pos: int, lo: int)
    requires PacketFits(p, lo) && lo <= pos < lo + HALF
    ensures NewBytes(Wrapped32, WrapPacket(p), Wrap(pos)) == NewBytes(Unbounded, p, pos)
  {
    LocateWraps(p, pos, lo);
    if Locate(Unbounded, p, pos) == Overlap {
      WrapKeepsDistance(pos, p.seqno);
    }
  }

  lemma NextWraps(p: Packet, pos: int, lo: int)
    requires PacketFits(p, lo) && lo <= pos < lo + HALF
    ensures Next(Wrapped32, WrapPacket(p), Wrap(pos)) == Wrap(Next(Unbounded, p, pos))
    ensures lo <= Next(Unbounded, p, pos) < lo + HALF
  {
    LocateWraps(p, pos, lo);
    NewBytesWrap(p, pos, lo);
    WrapAbsorbs(pos, NewBytes(Unbounded, p, pos));
    WrapAbsorbs(p.seqno, |p.data|);
    StepUnbounded(p, pos);
  }

  // ---------- the sweeps ----------

  lemma {:induction false} SizeWraps(buffer: seq<Packet>, pos: int, lo: int)
    requires BufferFits(buffer, pos, lo)
    ensures SizeFrom(Wrapped32, WrapAll(buffer), Wrap(pos)) == SizeFrom(Unbounded, buffer, pos)
  {
    if buffer != [] {
      assert WrapAll(buffer)[1..] == WrapAll(buffer[1..]);
      NewBytesWrap(buffer[0], pos, lo);
      NextWraps(buffer[0], pos, lo);
      SizeWraps(buffer[1..], Next(Unbounded, buffer[0], pos), lo);
    }
  }

  lemma {:induction false} SweepWraps(buffer: seq<Packet>, pos: int, lo: int)
    requires BufferFits(buffer, pos, lo)
    ensures var s := SweepFrom(Unbounded, buffer, pos);
            SweepFrom(Wrapped32, WrapAll(buffer), Wrap(pos)) == s.(pos := Wrap(s.pos))
  {
    if buffer != [] {
      assert WrapAll(buffer)[1..] == WrapAll(buffer[1..]);
      LocateWraps(buffer[0], pos, lo);
      NewBytesWrap(buffer[0], pos, lo);
      NextWraps(buffer[0], pos, lo);
      SweepWraps(buffer[1..], Next(Unbounded, buffer[0], pos), lo);
    }
  }

  lemma {:induction false} SweepStays(buffer: seq<Packet>, pos: int, lo: int)
    requires BufferFits(buffer, pos, lo)
    ensures lo <= SweepFrom(Unbounded, buffer, pos).pos < lo + HALF
  {
    if buffer != [] {
      NextWraps(buffer[0], pos, lo);
      SweepStays(buffer[1..], Next(Unbounded, buffer[0], pos), lo);
    }
  }

  lemma OrderWraps(q: Packet, p: Packet, lo: int)
    requires PacketFits(q, lo) && PacketFits(p, lo)
    ensures Wrapped32.Less(WrapPacket(q).seqno, WrapPacket(p).seqno) <==> q.seqno < p.seqno
    ensures WrapPacket(q).seqno == WrapPacket(p).seqno <==> q.seqno == p.seqno
  {
    WrapKeepsOrder(q.seqno, p.seqno);
    WrapAbsorbs(q.seqno, 0);
    WrapAbsorbs(p.seqno, 0);
  }

  lemma {:induction false} LowerBoundWraps(buffer: seq<Packet>, p: Packet, lo: int)
    requires BufferFits(buffer, p.seqno, lo) && PacketFits(p, lo)
    ensures LowerBound(Wrapped32, WrapAll(buffer), WrapPacket(p)) == LowerBound(Unbounded, buffer, p)
  {
    if buffer != [] {
      assert PacketFits(buffer[0], lo);
      OrderWraps(buffer[0], p, lo);
      assert WrapAll(buffer)[1..] == WrapAll(buffer[1..]);
      LowerBoundWraps(buffer[1..], p, lo);
    }
  }

  lemma HoldsWraps(buffer: seq<Packet>, i: nat, p: Packet, lo: int)
    requires BufferFits(buffer, p.seqno, lo) && PacketFits(p, lo)
    ensures Holds(WrapAll(buffer), i, WrapPacket(p).seqno) <==> Holds(buffer, i, p.seqno)
  {
    if i < |buffer| {
      assert PacketFits(buffer[i], lo);
      OrderWraps(buffer[i], p, lo);
    }
  }

  lemma PlacedWraps(buffer: seq<Packet>, p: Packet, lo: int)
    requires BufferFits(buffer, p.seqno, lo) && PacketFits(p, lo)
    ensures PlacedIn(Wrapped32, WrapAll(buffer), WrapPacket(p)) == WrapAll(PlacedIn(Unbounded, buffer, p))
    ensures forall q :: q in PlacedIn(Unbounded, buffer, p) ==> PacketFits(q, lo)
  {
    LowerBoundWraps(buffer, p, lo);
    HoldsWraps(buffer, LowerBound(Unbounded, buffer, p), p, lo);
  }

  // ---------- one call ----------

  lemma InsertWraps(st: State, p: Packet, lo: int)
    requires Fits(st, lo) && PacketFits(p, lo)
    ensures var (after, total) := Insert(Unbounded, st, p);
            && Insert(Wrapped32, WrapState(st), WrapPacket(p)) == (WrapState(after), total)
            && Fits(after, lo)
  {
    PlacedWraps(st.buffer, p, lo);
    LowerBoundWraps(st.buffer, p, lo);
    HoldsWraps(st.buffer, LowerBound(Unbounded, st.buffer, p), p, lo);
    SizeWraps(st.buffer, st.first, lo);
    SizeWraps(PlacedIn(Unbounded, st.buffer, p), st.first, lo);
  }

  lemma ReadWraps(st: State, lo: int)
    requires Fits(st, lo)
    ensures var (after, data) := Read(Unbounded, st);
            && Read(Wrapped32, WrapState(st)) == (WrapState(after), data)
            && Fits(after, lo)
  {
    SweepWraps(st.buffer, st.first, lo);
    SweepStays(st.buffer, st.first, lo);
    var s := SweepFrom(Unbounded, st.buffer, st.first);
    assert WrapAll(st.buffer)[s.taken..] == WrapAll(st.buffer[s.taken..]);
  }

  // ---------- whole runs ----------

  lemma StepWraps(log: Log, ev: Event, lo: int)
    requires Fits(log.st, lo) && (ev.Arrive? ==> PacketFits(ev.p, lo))
    ensures Step(Wrapped32, WrapLog(log), if ev.Arrive? then Arrive(WrapPacket(ev.p)) else ev)
         == WrapLog(Step(Unbounded, log, ev))
    ensures Fits(Step(Unbounded, log, ev).st, lo)
  {
    match ev
    case Arrive(p) => InsertWraps(log.st, p, lo);
    case Deliver => ReadWraps(log.st, lo);
    case AskSize => SizeWraps(log.st.buffer, log.st.first, lo);
  }

  lemma Window(log: Log, events: seq<Event>) returns (lo: int)
    requires RunFits(log, events) && events != [] && exists lo :: Fits(log.st, lo)
    ensures Fits(log.st, lo) && (events[0].Arrive? ==> PacketFits(events[0].p, lo))
    ensures RunFits(Step(Unbounded, log, events[0]), events[1..])
  {
    if events[0].Arrive? {
      lo :| FitsIn(log.st, lo, HALF) && PacketFitsIn(events[0].p, lo, HALF);
    } else {
      lo :| Fits(log.st, lo);
    }
  }

  /** The simulation: wrapping commutes with whole runs, including runs that cross 2^32 any number
      of times. */
  lemma {:induction false} RunWraps(log: Log, events: seq<Event>)
    requires RunFits(log, events) && exists lo :: Fits(log.st, lo)
    ensures Run(Wrapped32, WrapLog(log), WrapEvents(events)) == WrapLog(Run(Unbounded, log, events))
    ensures exists lo :: Fits(Run(Unbounded, log, events).st, lo)
    decreases |events|
  {
    if events != [] {
      var ev := events[0];
      var lo := Window(log, events);
      StepWraps(log, ev, lo);
      assert WrapEvents(events)[1..] == WrapEvents(events[1..]);
      RunWraps(Step(Unbounded, log, ev), events[1..]);
    }
  }
}
