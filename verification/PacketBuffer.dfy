/** The receive reassembly buffer. Every step is written once and read with either kind of
    arithmetic: the 32-bit numbers the program computes with, or unbounded positions. */
module PacketBuffer {
  import opened Bytes
  import opened SequenceNumbers

  // A 16-bit datagram length bounds the data of one packet
  type Payload = s: seq<byte> | |s| <= 0xffff

  datatype Packet = Packet(seqno: int, data: Payload) {
    function End(): int {
      seqno + |data|
    }
  }

  // A packet as it comes off the wire
  type Packet32 = p: Packet | 0 <= p.seqno < 0x1_0000_0000 witness Packet(0, [])

  datatype Arithmetic = Wrapped32 | Unbounded {
    function Norm(a: int): int {
      if Wrapped32? then Wrap(a) else a
    }

    predicate Less(a: int, b: int) {
      if Wrapped32? then LessThan(Wrap(a), Wrap(b)) else a < b
    }

    predicate Inside(number: int, left: int, length: int) {
      if Wrapped32? then Between(Wrap(left), Wrap(number), Wrap(left + length)) else left < number < left + length
    }
  }

  /** Where a packet lies with respect to the position a sweep has reached. */
  datatype Place = Equal | Overlap | Passed | Gap

  function Locate(ar: Arithmetic, p: Packet, pos: int): Place {
    if pos == p.seqno then Equal
    else if ar.Inside(pos, p.seqno, |p.data|) then Overlap
    else if ar.Less(p.seqno, pos) then Passed
    else Gap
  }

  /** In an overlap the part already swept is a proper part of the packet, in either arithmetic. */
  lemma OverlapIsInside(ar: Arithmetic, p: Packet, pos: int)
    requires Locate(ar, p, pos) == Overlap
    ensures 0 < ar.Norm(pos - p.seqno) < |p.data|
  {
    BetweenTestsSegment(p.seqno, pos, |p.data|);
  }

  /** How many bytes of `p` are new to a sweep that has reached `pos`: always a suffix of its data. */
  function NewBytes(ar: Arithmetic, p: Packet, pos: int): (n: nat)
    ensures n <= |p.data|
  {
    match Locate(ar, p, pos)
    case Equal => |p.data|
    case Overlap =>
      OverlapIsInside(ar, p, pos);
      |p.data| - ar.Norm(pos - p.seqno)
    case Passed => 0
    case Gap => |p.data|
  }

  function Unread(ar: Arithmetic, p: Packet, pos: int): seq<byte> {
    p.data[|p.data| - NewBytes(ar, p, pos)..]
  }

  /** The position the sweep reaches by counting `p`; over a gap it jumps to the packet first. */
  function Next(ar: Arithmetic, p: Packet, pos: int): int {
    ar.Norm((if Locate(ar, p, pos) == Gap then p.seqno else pos) + NewBytes(ar, p, pos))
  }

  /** Bytes the counting sweep finds in `buffer`, having reached `pos`. */
  function SizeFrom(ar: Arithmetic, buffer: seq<Packet>, pos: int): (n: nat) {
    if buffer == [] then 0
    else NewBytes(ar, buffer[0], pos) + SizeFrom(ar, buffer[1..], Next(ar, buffer[0], pos))
  }

  lemma LocateOnWire(p: Packet32, pos: u32)
    ensures Locate(Wrapped32, p, pos) ==
              if pos == p.seqno then Equal
              else if Between(p.seqno, pos, Wrap(p.seqno + |p.data|)) then Overlap
              else if LessThan(p.seqno, pos) then Passed
              else Gap
  {
    assert Wrap(p.seqno) == p.seqno && Wrap(pos) == pos;
    hide Wrap, LessThan, Between;
  }

  /** One round of either loop, on the numbers the program holds. */
  lemma Round(p: Packet32, pos: u32)
    ensures var place, n := Locate(Wrapped32, p, pos), NewBytes(Wrapped32, p, pos);
            var unread := Unread(Wrapped32, p, pos);
            if pos == p.seqno then
              place == Equal && n == |p.data| && unread == p.data && Next(Wrapped32, p, pos) == Wrap(pos + n)
            else if Between(p.seqno, pos, Wrap(p.seqno + |p.data|)) then
              && place == Overlap && n == |p.data| - Wrap(pos - p.seqno)
              && unread == p.data[Wrap(pos - p.seqno)..] && Next(Wrapped32, p, pos) == Wrap(pos + n)
            else if LessThan(p.seqno, pos) then
              place == Passed && n == 0 && unread == [] && Next(Wrapped32, p, pos) == Wrap(pos + n)
            else
              place == Gap && n == |p.data| && Next(Wrapped32, p, pos) == Wrap(p.seqno + n)
  {
    LocateOnWire(p, pos);
    hide Wrap, LessThan, Between, Locate;
  }

  lemma SizeFromTail(ar: Arithmetic, buffer: seq<Packet>, i: nat, pos: int)
    requires i < |buffer|
    ensures SizeFrom(ar, buffer[i..], pos)
         == NewBytes(ar, buffer[i], pos) + SizeFrom(ar, buffer[i + 1..], Next(ar, buffer[i], pos))
  {
    assert buffer[i..][1..] == buffer[i + 1..];
  }

  /** What a reading sweep appends, where it stops, and how many packets it passes. */
  datatype Sweep = Sweep(data: seq<byte>, pos: int, taken: nat)

  /** The reading sweep stops at the first gap. */
  function SweepFrom(ar: Arithmetic, buffer: seq<Packet>, pos: int): (s: Sweep)
    ensures s.taken <= |buffer|
  {
    if buffer == [] || Locate(ar, buffer[0], pos) == Gap then Sweep([], pos, 0) else
    var p := buffer[0];
    var s := SweepFrom(ar, buffer[1..], Next(ar, p, pos));
    Sweep(Unread(ar, p, pos) + s.data, s.pos, s.taken + 1)
  }

  lemma SweepFromTail(ar: Arithmetic, buffer: seq<Packet>, i: nat, pos: int)
    requires i < |buffer|
    ensures var p, rest := buffer[i], SweepFrom(ar, buffer[i + 1..], Next(ar, buffer[i], pos));
            SweepFrom(ar, buffer[i..], pos) ==
              if Locate(ar, p, pos) == Gap then Sweep([], pos, 0)
              else Sweep(Unread(ar, p, pos) + rest.data, rest.pos, rest.taken + 1)
  {
    assert buffer[i..][1..] == buffer[i + 1..];
  }

  /** The number of packets in front of the first one that is not less than `p`: the contract of
      std::lower_bound on a list partitioned by the comparison with `p`. */
  function LowerBound(ar: Arithmetic, buffer: seq<Packet>, p: Packet): (i: nat)
    ensures i <= |buffer|
  {
    if buffer == [] || !ar.Less(buffer[0].seqno, p.seqno) then 0
    else 1 + LowerBound(ar, buffer[1..], p)
  }

  /** The value of a buffer object. `size` is the cached byte count, or -1 when it is dirty. */
  datatype State = State(first: int, buffer: seq<Packet>, size: int)

  function CachedSize(ar: Arithmetic, st: State): int {
    if st.size >= 0 then st.size else SizeFrom(ar, st.buffer, st.first)
  }

  predicate Holds(buffer: seq<Packet>, i: nat, seqno: int) {
    i < |buffer| && buffer[i].seqno == seqno
  }

  /** The list with `p` in it, the longer of two packets with one sequence number being kept. */
  function PlacedIn(ar: Arithmetic, buffer: seq<Packet>, p: Packet): seq<Packet> {
    var i := LowerBound(ar, buffer, p);
    if !Holds(buffer, i, p.seqno) then buffer[..i] + [p] + buffer[i..]
    else if |buffer[i].data| <= |p.data| then buffer[..i] + [p] + buffer[i + 1..]
    else buffer
  }

  /** The new state and the number of bytes reported as inserted. */
  function Insert(ar: Arithmetic, st: State, p: Packet): (State, int) {
    var placed := PlacedIn(ar, st.buffer, p);
    var after := SizeFrom(ar, placed, st.first);
    var total := after - CachedSize(ar, st);
    var kept := if total == 0 && !Holds(st.buffer, LowerBound(ar, st.buffer, p), p.seqno) then st.buffer else placed;
    (State(st.first, kept, after), total)
  }

  function Read(ar: Arithmetic, st: State): (State, seq<byte>) {
    if st.buffer == [] then (st, []) else
    var s := SweepFrom(ar, st.buffer, st.first);
    (State(s.pos, st.buffer[s.taken..], -1), s.data)
  }
}
