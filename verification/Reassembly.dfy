/** What the reassembly buffer does on unbounded positions: which bytes it holds, what a read
    hands out, and what whole runs of arrivals and reads deliver. */
module Reassembly {
  import opened Bytes
  import opened PacketBuffer

  // ---------- byte positions ----------

  predicate Within(a: int, x: int, b: int) {
    a <= x < b
  }

  ghost function Interval(a: int, b: int): set<int> {
    set x: int | a <= x < b && Within(a, x, b)
  }

  lemma {:induction false} IntervalSize(a: int, b: int)
    requires a <= b
    ensures |Interval(a, b)| == b - a
    decreases b - a
  {
    if a < b {
      IntervalSize(a, b - 1);
      assert Interval(a, b) == Interval(a, b - 1) + {b - 1};
    } else {
      assert Interval(a, b) == {};
    }
  }

  /** The positions of one packet that lie at or after `pos`. */
  ghost function Span(p: Packet, pos: int): set<int> {
    Interval(if p.seqno < pos then pos else p.seqno, p.End())
  }

  /** The positions at or after `pos` that some packet covers. */
  ghost function Covered(buffer: seq<Packet>, pos: int): set<int> {
    set p, x | p in buffer && x in Span(p, pos) :: x
  }

  ghost predicate Sorted(buffer: seq<Packet>) {
    forall i, j :: 0 <= i < j < |buffer| ==> buffer[i].seqno <= buffer[j].seqno
  }

  ghost predicate StrictlySorted(buffer: seq<Packet>) {
    forall i, j :: 0 <= i < j < |buffer| ==> buffer[i].seqno < buffer[j].seqno
  }

  /** Where the first packet's new bytes begin and end for a sweep that has reached `pos`. */
  function From(p: Packet, pos: int): int {
    if p.seqno < pos then pos else p.seqno
  }

  function To(p: Packet, pos: int): int {
    if p.End() < pos then pos else p.End()
  }

  lemma CoveredSplit(buffer: seq<Packet>, pos: int)
    requires Sorted(buffer) && buffer != []
    ensures var from, to := From(buffer[0], pos), To(buffer[0], pos);
            && from <= to
            && Covered(buffer, pos) == Interval(from, to) + Covered(buffer[1..], to)
            && Interval(from, to) !! Covered(buffer[1..], to)
  {
    var p, rest := buffer[0], buffer[1..];
    var from, to := From(p, pos), To(p, pos);
    forall x | x in Covered(buffer, pos) ensures x in Interval(from, to) || x in Covered(rest, to) {
      var q :| q in buffer && x in Span(q, pos);
      assert p.seqno <= q.seqno;
      if x >= to {
        assert q in rest && x in Span(q, to);
      }
    }
    forall x | x in Covered(rest, to) ensures x in Covered(buffer, pos) {
      var q :| q in rest && x in Span(q, to);
      assert q in buffer && x in Span(q, pos);
    }
    forall x | x in Interval(from, to) ensures x in Covered(buffer, pos) {
      assert p in buffer && x in Span(p, pos);
    }
  }

  // ---------- counting ----------

  lemma StepUnbounded(p: Packet, pos: int)
    ensures NewBytes(Unbounded, p, pos) == To(p, pos) - From(p, pos)
    ensures Next(Unbounded, p, pos) == To(p, pos)
  {
  }

  /** The counting sweep returns the number of distinct covered positions, for any sorted list of
      overlapping, nested, disjoint or empty packets. */
  lemma {:induction false} SizeCounts(buffer: seq<Packet>, pos: int)
    requires Sorted(buffer)
    ensures SizeFrom(Unbounded, buffer, pos) == |Covered(buffer, pos)|
  {
    if buffer == [] {
      assert Covered(buffer, pos) == {};
    } else {
      var from, to := From(buffer[0], pos), To(buffer[0], pos);
      StepUnbounded(buffer[0], pos);
      CoveredSplit(buffer, pos);
      IntervalSize(from, to);
      SizeCounts(buffer[1..], to);
    }
  }

  // ---------- reading ----------

  type Stream = int -> byte

  /** The bytes of the stream at positions `from` up to `to`. */
  function Slice(stream: Stream, from: int, to: int): (bytes: seq<byte>)
    requires from <= to
    ensures |bytes| == to - from
  {
    seq(to - from, i => stream(from + i))
  }

  ghost predicate Carries(p: Packet, stream: Stream) {
    p.data == Slice(stream, p.seqno, p.End())
  }

  ghost predicate CarriesAll(buffer: seq<Packet>, stream: Stream) {
    forall p :: p in buffer ==> Carries(p, stream)
  }

  /** A reading sweep stops at the first position nothing covers, and the packets it leaves cover
      exactly what it has not handed out. */
  lemma {:induction false} SweepCovers(buffer: seq<Packet>, pos: int)
    requires Sorted(buffer)
    ensures var s := SweepFrom(Unbounded, buffer, pos);
            && pos <= s.pos && |s.data| == s.pos - pos
            && s.pos !in Covered(buffer, pos)
            && Covered(buffer, pos) == Interval(pos, s.pos) + Covered(buffer[s.taken..], s.pos)
  {
    if buffer == [] || pos < buffer[0].seqno {
      SweepStops(buffer, pos);
      assert Covered(buffer, pos) == Interval(pos, pos) + Covered(buffer, pos);
    } else {
      var to := To(buffer[0], pos);
      StepUnbounded(buffer[0], pos);
      CoveredSplit(buffer, pos);
      SweepCovers(buffer[1..], to);
      var r := SweepFrom(Unbounded, buffer[1..], to);
      assert buffer[r.taken + 1..] == buffer[1..][r.taken..];
      IntervalJoin(pos, to, r.pos);
    }
  }

  /** It hands out the bytes of the stream from where it started to where it stopped. */
  lemma {:induction false} SweepDelivers(buffer: seq<Packet>, pos: int, stream: Stream)
    requires Sorted(buffer) && CarriesAll(buffer, stream)
    ensures var s := SweepFrom(Unbounded, buffer, pos);
            pos <= s.pos && s.data == Slice(stream, pos, s.pos)
  {
    if buffer != [] && buffer[0].seqno <= pos {
      var to := To(buffer[0], pos);
      SweepStep(buffer[0], pos, stream);
      StepUnbounded(buffer[0], pos);
      SweepDelivers(buffer[1..], to, stream);
      SliceJoin(stream, pos, to, SweepFrom(Unbounded, buffer[1..], to).pos);
    }
  }

  lemma SliceJoin(stream: Stream, a: int, b: int, c: int)
    requires a <= b <= c
    ensures Slice(stream, a, b) + Slice(stream, b, c) == Slice(stream, a, c)
  {
  }

  lemma IntervalJoin(a: int, b: int, c: int)
    requires a <= b <= c
    ensures Interval(a, b) + Interval(b, c) == Interval(a, c)
  {
  }

  lemma SweepStops(buffer: seq<Packet>, pos: int)
    requires Sorted(buffer) && (buffer == [] || pos < buffer[0].seqno)
    ensures SweepFrom(Unbounded, buffer, pos) == Sweep([], pos, 0)
    ensures pos !in Covered(buffer, pos)
  {
  }

  lemma SweepStep(p: Packet, pos: int, stream: Stream)
    requires Carries(p, stream) && p.seqno <= pos
    ensures Unread(Unbounded, p, pos) == Slice(stream, pos, To(p, pos))
  {
    StepUnbounded(p, pos);
  }

  // ---------- inserting ----------

  lemma {:induction false} LowerBoundSplits(buffer: seq<Packet>, p: Packet)
    ensures var i := LowerBound(Unbounded, buffer, p);
            && (forall k :: 0 <= k < i ==> buffer[k].seqno < p.seqno)
            && (i < |buffer| ==> p.seqno <= buffer[i].seqno)
  {
    if buffer != [] && buffer[0].seqno < p.seqno {
      LowerBoundSplits(buffer[1..], p);
    }
  }

  /** `q` covers every position `p` covers. */
  predicate Contains(q: Packet, p: Packet) {
    q.seqno == p.seqno && |p.data| <= |q.data|
  }

  lemma Join(front: seq<Packet>, p: Packet, back: seq<Packet>)
    requires StrictlySorted(front) && StrictlySorted(back)
    requires forall k :: 0 <= k < |front| ==> front[k].seqno < p.seqno
    requires forall k :: 0 <= k < |back| ==> p.seqno < back[k].seqno
    ensures StrictlySorted(front + [p] + back)
    ensures forall q :: q in front + [p] + back <==> q in front || q == p || q in back
  {
  }

  lemma PlacedIsSorted(buffer: seq<Packet>, p: Packet)
    requires StrictlySorted(buffer)
    ensures StrictlySorted(PlacedIn(Unbounded, buffer, p))
    ensures forall q :: q in PlacedIn(Unbounded, buffer, p) ==> q in buffer || q == p
  {
    hide LowerBound;
    var i := LowerBound(Unbounded, buffer, p);
    LowerBoundSplits(buffer, p);
    PartsAreSorted(buffer, i);
    if !Holds(buffer, i, p.seqno) {
      hide StrictlySorted;
      Join(buffer[..i], p, buffer[i..]);
    } else if |buffer[i].data| <= |p.data| {
      Join(buffer[..i], p, buffer[i + 1..]);
    }
  }

  lemma PartsAreSorted(buffer: seq<Packet>, i: nat)
    requires StrictlySorted(buffer) && i <= |buffer|
    ensures StrictlySorted(buffer[..i]) && StrictlySorted(buffer[i..])
  {
  }

  lemma PlacedKeeps(buffer: seq<Packet>, p: Packet)
    requires StrictlySorted(buffer)
    ensures var placed := PlacedIn(Unbounded, buffer, p);
            && (forall q :: q in buffer ==> q in placed || (p in placed && Contains(p, q)))
            && (p in placed || exists q :: q in placed && Contains(q, p))
  {
    var i := LowerBound(Unbounded, buffer, p);
    if !Holds(buffer, i, p.seqno) {
      assert buffer == buffer[..i] + buffer[i..];
    } else if |buffer[i].data| <= |p.data| {
      assert buffer == buffer[..i] + [buffer[i]] + buffer[i + 1..];
    } else {
      assert buffer[i] in buffer && Contains(buffer[i], p);
    }
  }

  /** No packet with the number of `p` is longer; of equally long ones the later wins. */
  ghost predicate Wins(buffer: seq<Packet>, p: Packet) {
    forall q :: q in buffer && q.seqno == p.seqno ==> |q.data| <= |p.data|
  }

  ghost predicate Numbered(buffer: seq<Packet>, seqno: int) {
    exists q :: q in buffer && q.seqno == seqno
  }

  /** Exactly which packets the list holds after an insertion: of those with the number of `p` the longest,
      `p` itself in a draw, and all others. */
  lemma PlacedExactly(buffer: seq<Packet>, p: Packet)
    requires StrictlySorted(buffer)
    ensures var placed := PlacedIn(Unbounded, buffer, p);
            && (p in placed <==> Wins(buffer, p))
            && (forall q :: q != p ==>
                  (q in placed <==> q in buffer && (q.seqno == p.seqno ==> |p.data| < |q.data|)))
    ensures Numbered(buffer, p.seqno) <==> Holds(buffer, LowerBound(Unbounded, buffer, p), p.seqno)
  {
    hide LowerBound, StrictlySorted;
    Around(buffer, p);
  }

  /** Where the list is cut for `p`, and what is on both sides. */
  lemma Around(buffer: seq<Packet>, p: Packet)
    requires StrictlySorted(buffer)
    ensures var i := LowerBound(Unbounded, buffer, p);
            var back := if Holds(buffer, i, p.seqno) then buffer[i + 1..] else buffer[i..];
            && (forall q :: q in buffer[..i] ==> q.seqno < p.seqno) && (forall q :: q in back ==> p.seqno < q.seqno)
            && (forall q :: q in buffer <==>
                  q in buffer[..i] || q in back || (Holds(buffer, i, p.seqno) && q == buffer[i]))
  {
    hide LowerBound;
    var i := LowerBound(Unbounded, buffer, p);
    LowerBoundSplits(buffer, p);
    if Holds(buffer, i, p.seqno) {
      assert buffer == buffer[..i] + [buffer[i]] + buffer[i + 1..];
    } else {
      assert buffer == buffer[..i] + buffer[i..];
    }
  }

  lemma ContainsSpan(q: Packet, p: Packet, pos: int)
    requires Contains(q, p)
    ensures Span(p, pos) <= Span(q, pos)
  {
  }

  /** Placing a packet covers exactly the packet's positions more, although a packet with the same
      sequence number may have been thrown away for it, or it for that packet. */
  lemma PlacedCovers(buffer: seq<Packet>, p: Packet, pos: int)
    requires StrictlySorted(buffer)
    ensures Covered(PlacedIn(Unbounded, buffer, p), pos) == Covered(buffer, pos) + Span(p, pos)
  {
    hide PlacedIn, StrictlySorted, Contains, Span;
    var placed := PlacedIn(Unbounded, buffer, p);
    PlacedIsSorted(buffer, p);
    PlacedKeeps(buffer, p);
    forall x | x in Span(p, pos) ensures x in Covered(placed, pos) {
      if p !in placed {
        var q :| q in placed && Contains(q, p);
        ContainsSpan(q, p, pos);
        assert q in placed && x in Span(q, pos);
      }
    }
    forall x | x in Covered(buffer, pos) ensures x in Covered(placed, pos) {
      var q :| q in buffer && x in Span(q, pos);
      if q !in placed {
        ContainsSpan(p, q, pos);
      }
    }
    forall x | x in Covered(placed, pos) ensures x in Covered(buffer, pos) + Span(p, pos) {
      var q :| q in placed && x in Span(q, pos);
    }
  }

  // ---------- one call ----------

  /** The list is strictly sorted and the cached count is dirty or right. */
  ghost predicate Good(st: State) {
    && StrictlySorted(st.buffer)
    && (st.size == -1 || st.size == SizeFrom(Unbounded, st.buffer, st.first))
  }

  /** The positions a buffer still has to hand out. */
  ghost function Pending(st: State): set<int> {
    Covered(st.buffer, st.first)
  }

  lemma SetGrows<T>(a: set<T>, b: set<T>)
    ensures |a + b| == |a| + |b - a|
    ensures |b - a| == 0 ==> a + b == a
  {
    assert a + b == a + (b - a);
  }

  /** An insert keeps the list sorted and its cache right, even when it erases the packet it has
      just inserted without marking the cache dirty. */
  lemma InsertKeeps(st: State, p: Packet)
    requires Good(st)
    ensures var after := Insert(Unbounded, st, p).0;
            && Good(after) && after.first == st.first
            && (forall q :: q in after.buffer ==> q in st.buffer || q == p)
  {
    PlacedIsSorted(st.buffer, p);
  }

  /** An insert covers exactly the packet's positions more, and returns exactly the number of
      positions that were not covered before: it never reports a negative number. */
  lemma InsertCounts(st: State, p: Packet)
    requires Good(st)
    ensures var (after, total) := Insert(Unbounded, st, p);
            && after.size == |Pending(after)|
            && Pending(after) == Pending(st) + Span(p, st.first)
            && total == |Span(p, st.first) - Pending(st)|
  {
    var placed := PlacedIn(Unbounded, st.buffer, p);
    PlacedIsSorted(st.buffer, p);
    PlacedCovers(st.buffer, p, st.first);
    SizeCounts(st.buffer, st.first);
    SizeCounts(placed, st.first);
    SetGrows(Pending(st), Span(p, st.first));
    InsertUnfolds(st, p, placed, |Pending(st)|, |Covered(placed, st.first)|);
  }

  /** Exactly which packets are held after an insert. A packet with a new number stays only if it brings a
      position that was not covered. */
  lemma HeldExactly(st: State, p: Packet)
    requires Good(st)
    ensures var held := Insert(Unbounded, st, p).0.buffer;
            && (p in held <==> if Numbered(st.buffer, p.seqno) then Wins(st.buffer, p)
                               else !(Span(p, st.first) <= Pending(st)))
            && (forall q :: q != p ==>
                  (q in held <==> q in st.buffer && (q.seqno == p.seqno ==> |p.data| < |q.data|)))
  {
    hide PlacedIn, LowerBound, SizeFrom, Span, StrictlySorted, Pending;
    assert StrictlySorted(st.buffer);
    PlacedExactly(st.buffer, p);
    InsertCounts(st, p);
    NothingNew(Span(p, st.first), Pending(st));
    KeptList(st, p);
  }

  lemma KeptList(st: State, p: Packet)
    ensures var total := Insert(Unbounded, st, p).1;
            Insert(Unbounded, st, p).0.buffer ==
              if total == 0 && !Holds(st.buffer, LowerBound(Unbounded, st.buffer, p), p.seqno) then st.buffer
              else PlacedIn(Unbounded, st.buffer, p)
  {
  }

  lemma NothingNew(a: set<int>, b: set<int>)
    ensures |a - b| == 0 <==> a <= b
  {
    if a <= b {
      assert a - b == {};
    } else if a - b == {} {
      forall x | x in a ensures x in b {
        assert x !in b ==> x in a - b;
      }
    }
  }

  lemma InsertUnfolds(st: State, p: Packet, placed: seq<Packet>, before: int, after: int)
    requires placed == PlacedIn(Unbounded, st.buffer, p)
    requires SizeFrom(Unbounded, st.buffer, st.first) == before
    requires SizeFrom(Unbounded, placed, st.first) == after
    requires st.size == -1 || st.size == before
    ensures var kept := Insert(Unbounded, st, p).0.buffer;
            && Insert(Unbounded, st, p) == (State(st.first, kept, after), after - before)
            && (kept == placed || (kept == st.buffer && after == before))
  {
  }

  /** A read stops at the first position nothing covers, and what was pending is now either behind
      it or still pending. */
  lemma ReadCovers(st: State)
    requires Good(st)
    ensures var (after, data) := Read(Unbounded, st);
            && Good(after) && st.first <= after.first && |data| == after.first - st.first
            && after.first !in Pending(st)
            && Pending(st) == Interval(st.first, after.first) + Pending(after)
            && (forall q :: q in after.buffer ==> q in st.buffer)
  {
    if st.buffer == [] {
      assert Pending(st) == {} == Interval(st.first, st.first);
    } else {
      SweepCovers(st.buffer, st.first);
    }
  }

  lemma ReadDelivers(st: State, stream: Stream)
    requires Good(st) && CarriesAll(st.buffer, stream)
    ensures var (after, data) := Read(Unbounded, st);
            st.first <= after.first && data == Slice(stream, st.first, after.first)
  {
    SweepDelivers(st.buffer, st.first, stream);
  }

  // ---------- moving the first expected number ----------

  ghost function Beyond(buffer: seq<Packet>): (end: int)
    ensures forall p :: p in buffer ==> p.End() <= end
  {
    if buffer == [] then 0 else
    var end := Beyond(buffer[1..]);
    if end < buffer[0].End() then buffer[0].End() else end
  }

  /** Moving the first expected number leaves the cached count as it is. That is right for every new
      number exactly if the cache is dirty or no buffered packet carries data. */
  lemma RebaseIsSafe(st: State)
    requires Good(st)
    ensures (forall first :: Good(st.(first := first))) <==>
            (st.size == -1 || forall p :: p in st.buffer ==> p.data == [])
  {
    if forall p :: p in st.buffer ==> p.data == [] {
      forall first ensures SizeFrom(Unbounded, st.buffer, first) == 0 {
        SizeCounts(st.buffer, first);
        assert Covered(st.buffer, first) == {};
      }
    } else if st.size != -1 {
      var p :| p in st.buffer && p.data != [];
      var end := Beyond(st.buffer);
      SizeCounts(st.buffer, end);
      SizeCounts(st.buffer, p.seqno);
      assert Covered(st.buffer, end) == {};
      assert p.seqno in Span(p, p.seqno) && p.seqno in Covered(st.buffer, p.seqno);
      assert !Good(st.(first := end)) || !Good(st.(first := p.seqno));
    }
  }

  // ---------- whole runs ----------

  datatype Event = Arrive(p: Packet) | Deliver | AskSize

  /** The buffer, all bytes handed out so far, and the sum of all insert results. */
  datatype Log = Log(st: State, delivered: seq<byte>, inserted: int)

  function Begin(start: int): Log {
    Log(State(start, [], -1), [], 0)
  }

  function Step(ar: Arithmetic, log: Log, ev: Event): Log {
    match ev
    case Arrive(p) =>
      var (after, total) := Insert(ar, log.st, p);
      Log(after, log.delivered, log.inserted + total)
    case Deliver =>
      var (after, data) := Read(ar, log.st);
      Log(after, log.delivered + data, log.inserted)
    case AskSize => log.(st := log.st.(size := CachedSize(ar, log.st)))
  }

  function Run(ar: Arithmetic, log: Log, events: seq<Event>): Log
    decreases |events|
  {
    if events == [] then log else Run(ar, Step(ar, log, events[0]), events[1..])
  }

  lemma {:induction false} RunJoin(ar: Arithmetic, log: Log, a: seq<Event>, b: seq<Event>)
    ensures Run(ar, log, a + b) == Run(ar, Run(ar, log, a), b)
    decreases |a|
  {
    if a == [] {
      assert a + b == b;
    } else {
      assert (a + b)[0] == a[0] && (a + b)[1..] == a[1..] + b;
      RunJoin(ar, Step(ar, log, a[0]), a[1..], b);
    }
  }

  ghost predicate EventsCarry(events: seq<Event>, stream: Stream) {
    forall ev :: ev in events && ev.Arrive? ==> Carries(ev.p, stream)
  }

  /** The positions at or after `start` of all packets that have arrived. */
  ghost function Arrived(events: seq<Event>, start: int): set<int> {
    set ev, x | ev in events && x in Brought(ev, start) :: x
  }

  ghost function Brought(ev: Event, start: int): set<int> {
    if ev.Arrive? then Span(ev.p, start) else {}
  }

  /** Every position that has arrived is either delivered or pending, and has been counted once. This
      does not depend on what the packets carry. */
  ghost predicate Counted(log: Log, start: int, arrived: set<int>) {
    && Good(log.st)
    && start <= log.st.first && |log.delivered| == log.st.first - start
    && Interval(start, log.st.first) + Pending(log.st) == arrived
    && log.inserted == |arrived|
  }

  /** If all packets carry bytes of one stream, so far it is the stream that was delivered. */
  ghost predicate Streamed(log: Log, start: int, stream: Stream) {
    && CarriesAll(log.st.buffer, stream)
    && start <= log.st.first
    && log.delivered == Slice(stream, start, log.st.first)
  }

  lemma NewPositions(p: Packet, start: int, first: int, pending: set<int>)
    requires start <= first
    ensures var arrived := Interval(start, first) + pending;
            && Span(p, start) - arrived == Span(p, first) - pending
            && Interval(start, first) + (pending + Span(p, first)) == arrived + Span(p, start)
  {
  }

  lemma ArrivalCounted(log: Log, p: Packet, after: State, total: int, start: int, arrived: set<int>)
    requires Counted(log, start, arrived)
    requires Good(after) && after.first == log.st.first
    requires Pending(after) == Pending(log.st) + Span(p, log.st.first)
    requires total == |Span(p, log.st.first) - Pending(log.st)|
    ensures Counted(Log(after, log.delivered, log.inserted + total), start, arrived + Span(p, start))
  {
    hide Good, Pending, Span, Interval;
    SetGrows(arrived, Span(p, start));
    NewPositions(p, start, log.st.first, Pending(log.st));
  }

  lemma ArriveCounts(log: Log, p: Packet, start: int, arrived: set<int>)
    requires Counted(log, start, arrived)
    ensures Counted(Step(Unbounded, log, Arrive(p)), start, arrived + Span(p, start))
  {
    hide Insert, Good, Pending, Interval, Span;
    var (after, total) := Insert(Unbounded, log.st, p);
    InsertKeeps(log.st, p);
    InsertCounts(log.st, p);
    ArrivalCounted(log, p, after, total, start, arrived);
  }

  lemma DeliverCounts(log: Log, start: int, arrived: set<int>)
    requires Counted(log, start, arrived)
    ensures Counted(Step(Unbounded, log, Deliver), start, arrived)
    ensures Step(Unbounded, log, Deliver).st.first !in arrived
  {
    hide Read, Good, Pending, Interval;
    ReadCovers(log.st);
    var first, after := log.st.first, Read(Unbounded, log.st).0;
    IntervalJoin(start, first, after.first);
    assert Interval(start, after.first) + Pending(after)
           == Interval(start, first) + (Interval(first, after.first) + Pending(after));
    NotBefore(start, first, after.first);
  }

  lemma NotBefore(a: int, b: int, x: int)
    requires b <= x
    ensures x !in Interval(a, b)
  {
  }

  lemma StepCounts(log: Log, ev: Event, start: int, arrived: set<int>)
    requires Counted(log, start, arrived)
    ensures Counted(Step(Unbounded, log, ev), start, arrived + Brought(ev, start))
  {
    match ev
    case Arrive(p) => ArriveCounts(log, p, start, arrived);
    case Deliver =>
      DeliverCounts(log, start, arrived);
      assert arrived + Brought(ev, start) == arrived;
    case AskSize =>
      assert arrived + Brought(ev, start) == arrived;
  }

  /** Over any run, whatever the packets carry: positions are conserved. */
  lemma {:induction false} RunCounts(log: Log, events: seq<Event>, start: int, arrived: set<int>)
    requires Counted(log, start, arrived)
    ensures Counted(Run(Unbounded, log, events), start, arrived + Arrived(events, start))
    decreases |events|
  {
    hide Counted, Step, Brought;
    if events == [] {
      assert arrived + Arrived(events, start) == arrived;
    } else {
      StepCounts(log, events[0], start, arrived);
      ArrivedSplit(arrived, events, start);
      RunCounts(Step(Unbounded, log, events[0]), events[1..], start, arrived + Brought(events[0], start));
    }
  }

  lemma StepStreams(log: Log, ev: Event, start: int, stream: Stream)
    requires Good(log.st) && Streamed(log, start, stream)
    requires ev.Arrive? ==> Carries(ev.p, stream)
    ensures Good(Step(Unbounded, log, ev).st) && Streamed(Step(Unbounded, log, ev), start, stream)
  {
    hide Carries;
    match ev
    case Arrive(p) =>
      InsertKeeps(log.st, p);
      hide Insert, Good;
    case Deliver =>
      ReadCovers(log.st);
      ReadDelivers(log.st, stream);
      hide Read, Good;
      SliceJoin(stream, start, log.st.first, Step(Unbounded, log, Deliver).st.first);
    case AskSize =>
  }

  /** Over any run of packets that carry bytes of one stream, that stream is delivered. */
  lemma {:induction false} RunStreams(log: Log, events: seq<Event>, start: int, stream: Stream)
    requires Good(log.st) && Streamed(log, start, stream) && EventsCarry(events, stream)
    ensures Streamed(Run(Unbounded, log, events), start, stream)
    decreases |events|
  {
    hide Good, Streamed, Step, Carries;
    if events != [] {
      StepStreams(log, events[0], start, stream);
      RunStreams(Step(Unbounded, log, events[0]), events[1..], start, stream);
    }
  }

  // ---------- where every byte comes from ----------

  /** `p` carries the byte `b` at position `x`. */
  ghost predicate Supplies(p: Packet, x: int, b: byte) {
    p.seqno <= x < p.End() && p.data[x - p.seqno] == b
  }

  ghost predicate Vouched(data: seq<byte>, from: int, packets: set<Packet>) {
    forall i :: 0 <= i < |data| ==> SuppliedBy(packets, from + i, data[i])
  }

  ghost predicate SuppliedBy(packets: set<Packet>, x: int, b: byte) {
    exists p :: p in packets && Supplies(p, x, b)
  }

  lemma VouchedJoin(a: seq<byte>, b: seq<byte>, from: int, packets: set<Packet>)
    requires Vouched(a, from, packets) && Vouched(b, from + |a|, packets)
    ensures Vouched(a + b, from, packets)
  {
    hide SuppliedBy;
    forall i | 0 <= i < |a + b| ensures SuppliedBy(packets, from + i, (a + b)[i]) {
      if i >= |a| {
        assert from + |a| + (i - |a|) == from + i && b[i - |a|] == (a + b)[i];
      }
    }
  }

  lemma UnreadVouched(p: Packet, pos: int, packets: set<Packet>)
    requires p.seqno <= pos && p in packets
    ensures Vouched(Unread(Unbounded, p, pos), pos, packets)
    ensures pos + |Unread(Unbounded, p, pos)| == To(p, pos)
  {
    StepUnbounded(p, pos);
    var unread := Unread(Unbounded, p, pos);
    forall i | 0 <= i < |unread| ensures SuppliedBy(packets, pos + i, unread[i]) {
      assert Supplies(p, pos + i, unread[i]);
    }
  }

  lemma {:induction false} SweepVouched(buffer: seq<Packet>, pos: int, packets: set<Packet>)
    requires forall p :: p in buffer ==> p in packets
    ensures Vouched(SweepFrom(Unbounded, buffer, pos).data, pos, packets)
  {
    hide Vouched, Unread, NewBytes;
    if buffer == [] || pos < buffer[0].seqno {
      NothingVouched(pos, packets);
      assert SweepFrom(Unbounded, buffer, pos).data == [] by { NothingSwept(buffer, pos); }
    } else {
      var p, rest := buffer[0], buffer[1..];
      UnreadVouched(p, pos, packets);
      StepUnbounded(p, pos);
      SweepVouched(rest, To(p, pos), packets);
      VouchedJoin(Unread(Unbounded, p, pos), SweepFrom(Unbounded, rest, To(p, pos)).data, pos, packets);
    }
  }

  /** The byte at `x` is that of the first packet of the list that reaches beyond `x`. */
  ghost predicate PickedAt(buffer: seq<Packet>, x: int, b: byte, k: nat) {
    k < |buffer| && Supplies(buffer[k], x, b) && forall j :: 0 <= j < k ==> buffer[j].End() <= x
  }

  ghost predicate Picked(buffer: seq<Packet>, x: int, b: byte) {
    exists k: nat :: PickedAt(buffer, x, b, k)
  }

  lemma PickedLater(buffer: seq<Packet>, x: int, b: byte)
    requires buffer != [] && buffer[0].End() <= x && Picked(buffer[1..], x, b)
    ensures Picked(buffer, x, b)
  {
    var k: nat :| PickedAt(buffer[1..], x, b, k);
    assert buffer[k + 1] == buffer[1..][k];
    assert forall j :: 1 <= j < k + 1 ==> buffer[j] == buffer[1..][j - 1];
    assert PickedAt(buffer, x, b, k + 1);
  }

  lemma UnreadSupplies(p: Packet, pos: int)
    requires p.seqno <= pos
    ensures var unread := Unread(Unbounded, p, pos);
            && pos + |unread| == To(p, pos) && forall i :: 0 <= i < |unread| ==> Supplies(p, pos + i, unread[i])
  {
    StepUnbounded(p, pos);
  }

  ghost predicate AllPicked(buffer: seq<Packet>, from: int, data: seq<byte>) {
    forall i :: 0 <= i < |data| ==> Picked(buffer, from + i, data[i])
  }

  lemma PickedFirst(buffer: seq<Packet>, pos: int)
    requires buffer != [] && buffer[0].seqno <= pos
    ensures var unread := Unread(Unbounded, buffer[0], pos);
            pos + |unread| == To(buffer[0], pos) && AllPicked(buffer, pos, unread)
  {
    hide Unread, Supplies;
    UnreadSupplies(buffer[0], pos);
    var unread := Unread(Unbounded, buffer[0], pos);
    forall i | 0 <= i < |unread| ensures Picked(buffer, pos + i, unread[i]) {
      assert PickedAt(buffer, pos + i, unread[i], 0);
    }
  }

  lemma PickedJoin(buffer: seq<Packet>, pos: int, a: seq<byte>, b: seq<byte>)
    requires buffer != [] && buffer[0].End() <= pos + |a|
    requires AllPicked(buffer, pos, a) && AllPicked(buffer[1..], pos + |a|, b)
    ensures AllPicked(buffer, pos, a + b)
  {
    hide PickedAt;
    forall i | 0 <= i < |a + b| ensures Picked(buffer, pos + i, (a + b)[i]) {
      if i >= |a| {
        assert pos + |a| + (i - |a|) == pos + i && b[i - |a|] == (a + b)[i];
        PickedLater(buffer, pos + i, b[i - |a|]);
      }
    }
  }

  /** Whose byte is handed out where packets disagree: that of the packet with the lowest number, among
      those that reach beyond the position. */
  lemma {:induction false} SweepPicks(buffer: seq<Packet>, pos: int)
    ensures AllPicked(buffer, pos, SweepFrom(Unbounded, buffer, pos).data)
  {
    hide Unread, NewBytes, AllPicked;
    if buffer == [] || pos < buffer[0].seqno {
      NothingPicked(buffer, pos);
      assert SweepFrom(Unbounded, buffer, pos).data == [] by { NothingSwept(buffer, pos); }
    } else {
      var rest, reached := buffer[1..], To(buffer[0], pos);
      PickedFirst(buffer, pos);
      StepUnbounded(buffer[0], pos);
      SweepPicks(rest, reached);
      PickedJoin(buffer, pos, Unread(Unbounded, buffer[0], pos), SweepFrom(Unbounded, rest, reached).data);
    }
  }

  lemma NothingPicked(buffer: seq<Packet>, pos: int)
    ensures AllPicked(buffer, pos, [])
  {
  }

  lemma NothingVouched(pos: int, packets: set<Packet>)
    ensures Vouched([], pos, packets)
  {
  }

  lemma NothingSwept(buffer: seq<Packet>, pos: int)
    requires buffer == [] || pos < buffer[0].seqno
    ensures SweepFrom(Unbounded, buffer, pos).data == []
  {
  }

  ghost function Packets(events: seq<Event>): set<Packet> {
    set ev | ev in events && ev.Arrive? :: ev.p
  }

  /** The buffer holds packets that arrived, and they carry every byte handed out at its position. */
  ghost predicate Sourced(log: Log, start: int, packets: set<Packet>) {
    && (forall p :: p in log.st.buffer ==> p in packets)
    && start <= log.st.first && |log.delivered| == log.st.first - start
    && Vouched(log.delivered, start, packets)
  }

  lemma StepSourced(log: Log, ev: Event, start: int, packets: set<Packet>)
    requires Good(log.st) && Sourced(log, start, packets) && (ev.Arrive? ==> ev.p in packets)
    ensures Good(Step(Unbounded, log, ev).st) && Sourced(Step(Unbounded, log, ev), start, packets)
  {
    hide Vouched;
    match ev
    case Arrive(p) =>
      InsertKeeps(log.st, p);
      hide Insert, Good;
    case Deliver =>
      ReadCovers(log.st);
      ReadVouched(log.st, packets);
      hide Read, Good;
      VouchedJoin(log.delivered, Read(Unbounded, log.st).1, start, packets);
    case AskSize =>
  }

  lemma ReadVouched(st: State, packets: set<Packet>)
    requires forall p :: p in st.buffer ==> p in packets
    ensures Vouched(Read(Unbounded, st).1, st.first, packets)
  {
    SweepVouched(st.buffer, st.first, packets);
  }

  lemma {:induction false} RunSourced(log: Log, events: seq<Event>, start: int, packets: set<Packet>)
    requires Good(log.st) && Sourced(log, start, packets)
    requires forall ev :: ev in events && ev.Arrive? ==> ev.p in packets
    ensures Sourced(Run(Unbounded, log, events), start, packets)
    decreases |events|
  {
    hide Good, Sourced, Step;
    if events != [] {
      StepSourced(log, events[0], start, packets);
      RunSourced(Step(Unbounded, log, events[0]), events[1..], start, packets);
    }
  }

  lemma ArrivedSplit(before: set<int>, events: seq<Event>, start: int)
    requires events != []
    ensures before + Arrived(events, start) == before + Brought(events[0], start) + Arrived(events[1..], start)
  {
    forall x | x in Arrived(events, start)
      ensures x in Brought(events[0], start) + Arrived(events[1..], start)
    {
      var ev :| ev in events && x in Brought(ev, start);
      assert ev == events[0] || ev in events[1..];
    }
  }
}
