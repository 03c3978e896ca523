/** Making room in any packet, as the program does it: over the whole buffer, wherever the TCP header is
    taken to be. On packets that carry shims already this may be inside a shim. */
module TcpNesting {
  import opened Bytes
  import opened InternetChecksum
  import opened Maybes
  import opened TcpOptions
  import opened ShimPackets
  import opened TcpSegments

  /** The checksum is taken over as many bytes from `tcp` on as follow the IP header; they may reach
      beyond the `n` bytes of the packet, but not beyond the buffer. */
  ghost predicate Summable(buffer: seq<byte>, n: nat, tcp: nat) {
    && n <= |buffer| && n <= BUF_SIZE && WellFormed(buffer[..n])
    && HeaderLength(buffer) <= tcp && tcp + 18 <= |buffer|
    && tcp + (n - HeaderLength(buffer)) <= |buffer| && 12 + (n - HeaderLength(buffer)) <= BUF_SIZE
  }

  function TcpChecksumIn(order: ByteOrder, buffer: seq<byte>, n: nat, tcp: nat): u16
    requires Summable(buffer, n, tcp)
  {
    var summed := Store(order, buffer, tcp + 16, 0)[tcp..tcp + (n - HeaderLength(buffer))];
    Checksum(order, PseudoHeader(buffer[..n]) + summed)
  }

  function RecalculateTcpIn(order: ByteOrder, buffer: seq<byte>, n: nat, tcp: nat): (out: seq<byte>)
    requires Summable(buffer, n, tcp)
    ensures |out| == |buffer|
  {
    Store(order, buffer, tcp + 16, TcpChecksumIn(order, buffer, n, tcp))
  }

  /** After recalculation the checksum over the pseudo header and what is summed is zero, wherever the TCP
      header is taken to be, if the checksum field is among the bytes that are summed. */
  lemma RecalculatedSumsToZero(order: ByteOrder, buffer: seq<byte>, n: nat, tcp: nat)
    requires Summable(buffer, n, tcp) && n - HeaderLength(buffer) >= 18
    ensures var out, length := RecalculateTcpIn(order, buffer, n, tcp), n - HeaderLength(buffer);
            && Summable(out, n, tcp)
            && Checksum(order, PseudoHeader(out[..n]) + out[tcp..tcp + length]) == 0
            && forall i :: 0 <= i < |buffer| && i != tcp + 16 && i != tcp + 17 ==> out[i] == buffer[i]
  {
    hide PseudoHeader, Checksum;
    var data := PseudoHeader(buffer[..n]) + buffer[tcp..tcp + (n - HeaderLength(buffer))];
    var checksum := TcpChecksumIn(order, buffer, n, tcp);
    SummedStore(order, buffer, n, tcp, 0);
    SummedStore(order, buffer, n, tcp, checksum);
    StoredChecksumVerifies(order, data, 28);
    StoreKeepsPseudo(order, buffer, n, tcp, checksum);
  }

  lemma SummedStore(order: ByteOrder, buffer: seq<byte>, n: nat, tcp: nat, checksum: u16)
    requires Summable(buffer, n, tcp) && n - HeaderLength(buffer) >= 18
    ensures var stored, end := Store(order, buffer, tcp + 16, checksum), tcp + (n - HeaderLength(buffer));
            PseudoHeader(buffer[..n]) + stored[tcp..end] ==
              Store(order, PseudoHeader(buffer[..n]) + buffer[tcp..end], 28, checksum)
  {
    hide PseudoHeader;
  }

  /** Equal up to the checksum field of the TCP header. */
  ghost predicate SameUpToTcp(a: seq<byte>, b: seq<byte>, tcp: nat) {
    |a| == |b| && tcp + 16 <= |a| && forall i :: 0 <= i < tcp + 16 ==> a[i] == b[i]
  }

  lemma SummableAgain(a: seq<byte>, b: seq<byte>, n: nat, tcp: nat)
    requires Summable(a, n, tcp) && SameUpToTcp(a, b, tcp)
    ensures Summable(b, n, tcp)
  {
  }

  /** Storing the checksum changes nothing the pseudo header is made of. */
  lemma StoreKeepsPseudo(order: ByteOrder, buffer: seq<byte>, n: nat, tcp: nat, checksum: u16)
    requires Summable(buffer, n, tcp)
    ensures var stored := Store(order, buffer, tcp + 16, checksum);
            && Summable(stored, n, tcp) && HeaderLength(stored[..n]) == HeaderLength(buffer)
            && PseudoHeader(stored[..n]) == PseudoHeader(buffer[..n])
  {
    var stored := Store(order, buffer, tcp + 16, checksum);
    assert SameUpToTcp(buffer, stored, tcp);
    SummableAgain(buffer, stored, n, tcp);
    assert stored[..n][12..20] == buffer[..n][12..20] && stored[..n][9] == buffer[..n][9];
  }

  lemma MaxsegKeepsHeader(buffer: seq<byte>, tcp: nat, extra: u16)
    requires HoldsTcp(buffer, tcp)
    ensures SameUpToTcp(buffer, SetMaxseg(buffer, tcp, extra), tcp)
  {
    hide LowerMss, Options;
    var options := Options(buffer, tcp);
    OptionBytes(buffer, tcp);
    var start := tcp + TCPHDR;
    if Syn(buffer, tcp) {
      var rest := LowerMss(options, extra) + buffer[start + |options|..];
      Front(buffer, start, rest);
      assert SetMaxseg(buffer, tcp, extra) == buffer[..start] + rest;
    }
  }

  lemma Front(a: seq<byte>, n: nat, rest: seq<byte>)
    requires n <= |a|
    ensures forall i :: 0 <= i < n ==> (a[..n] + rest)[i] == a[i]
  {
  }

  /** The buffer after room has been made: unchanged unless the SYN bit is read at the TCP header. */
  function RoomIn(order: ByteOrder, buffer: seq<byte>, n: nat, tcp: nat, length: byte): (room: seq<byte>)
    requires tcp + 13 < |buffer|
    requires Syn(buffer, tcp) ==> HoldsTcp(buffer, tcp) && Summable(buffer, n, tcp)
    ensures |room| == |buffer|
  {
    if !Syn(buffer, tcp) then buffer else
    var lowered := SetMaxseg(buffer, tcp, WIFU_LENGTH + length);
    MaxsegKeepsHeader(buffer, tcp, WIFU_LENGTH + length);
    SummableAgain(buffer, lowered, n, tcp);
    RecalculateTcpIn(order, lowered, n, tcp)
  }

  /** Making room touches nothing in front of the checksum field, so a shim fits as it did before. */
  lemma RoomKeepsHeader(order: ByteOrder, buffer: seq<byte>, n: nat, tcp: nat, shim: Shim)
    requires tcp + 16 <= |buffer| && n <= |buffer| && Insertable(buffer[..n], shim)
    requires Syn(buffer, tcp) ==> HoldsTcp(buffer, tcp) && Summable(buffer, n, tcp)
    ensures var room := RoomIn(order, buffer, n, tcp, |shim.data|);
            && SameUpToTcp(buffer, room, tcp)
            && Insertable(room[..n], shim) && (Fits(room[..n], shim) <==> Fits(buffer[..n], shim))
            && (HasIpChecksum(order, buffer[..n]) <==> HasIpChecksum(order, room[..n]))
  {
    hide SetMaxseg, RecalculateIp;
    var room := RoomIn(order, buffer, n, tcp, |shim.data|);
    if Syn(buffer, tcp) {
      MaxsegKeepsHeader(buffer, tcp, WIFU_LENGTH + |shim.data|);
      assert HeaderLength(buffer) == HeaderLength(buffer[..n]);
      assert forall i :: 0 <= i < tcp + 16 ==> room[i] == buffer[i];
      SameFront(order, buffer[..n], room[..n], shim);
    }
  }

  lemma SameFront(order: ByteOrder, a: seq<byte>, b: seq<byte>, shim: Shim)
    requires |a| == |b| && Insertable(a, shim) && forall i :: 0 <= i < IPHDR ==> a[i] == b[i]
    ensures Insertable(b, shim) && (Fits(a, shim) <==> Fits(b, shim))
    ensures HasIpChecksum(order, a) <==> HasIpChecksum(order, b)
  {
    assert Store(order, a, 10, 0)[..IPHDR] == Store(order, b, 10, 0)[..IPHDR];
    assert a[10..12] == b[10..12];
  }

  /** On a whole SYN segment without shims this is the room of `MakeRoom`. */
  lemma RoomOfPlainSegment(order: ByteOrder, buffer: seq<byte>, n: nat, length: byte)
    requires n <= |buffer| && PlainTcp(buffer[..n])
    ensures var tcp := HeaderLength(buffer);
            && HoldsTcp(buffer, tcp) && Summable(buffer, n, tcp) && tcp == HeaderLength(buffer[..n])
            && Ready(buffer[..n], tcp)
            && RoomIn(order, buffer, n, tcp, length)[..n] == MakeRoom(order, buffer[..n], tcp, length)
  {
    hide SetMaxseg, Checksum, PseudoHeader, LowerMss;
    var tcp, extra: u16 := HeaderLength(buffer), WIFU_LENGTH + length;
    var pkt, lowered := buffer[..n], SetMaxseg(buffer, tcp, extra);
    assert pkt[0] == buffer[0] && pkt[tcp + 12] == buffer[tcp + 12] && pkt[tcp + 13] == buffer[tcp + 13];
    MaxsegInBuffer(buffer, n, tcp, extra);
    MaxsegIsLocal(pkt, extra);
    MaxsegKeepsHeader(buffer, tcp, extra);
    SummableAgain(buffer, lowered, n, tcp);
    RecalculatedInBuffer(order, lowered, n);
  }

  /** There, inserting a shim into the room that was made is the insertion told by `InsertTcp`. */
  lemma PlainInsertion(order: ByteOrder, buffer: seq<byte>, n: nat, shim: Shim)
    requires n <= |buffer| && PlainTcp(buffer[..n]) && Insertable(buffer[..n], shim)
    ensures var tcp := HeaderLength(buffer);
            && HoldsTcp(buffer, tcp) && Summable(buffer, n, tcp) && Ready(buffer[..n], tcp)
            && var room := RoomIn(order, buffer, n, tcp, |shim.data|)[..n];
               Insertable(room, shim) && InsertShim(order, room, shim) == InsertTcp(order, buffer[..n], tcp, shim)
  {
    hide RoomIn, MakeRoom, HeaderLength, PlainTcp, Ready, Summable, Insertable, InsertShim;
    RoomOfPlainSegment(order, buffer, n, |shim.data|);
    RoomIsInsertable(order, buffer[..n], HeaderLength(buffer), shim);
  }

  lemma RecalculatedInBuffer(order: ByteOrder, buffer: seq<byte>, n: nat)
    requires n <= |buffer| && PlainTcp(buffer[..n])
    ensures Summable(buffer, n, HeaderLength(buffer))
    ensures RecalculateTcpIn(order, buffer, n, HeaderLength(buffer))[..n] == RecalculateTcp(order, buffer[..n])
  {
    hide Checksum, PseudoHeader;
    var tcp, pkt := HeaderLength(buffer), buffer[..n];
    assert pkt[0] == buffer[0];
    ChecksumIsLocal(order, pkt, 0);
    assert Store(order, buffer, tcp + 16, 0)[tcp..n] == WithTcpChecksum(order, pkt, 0)[tcp..];
  }

  /** Making room leaves the buffer as it was if and only if no SYN bit is read there, or the walk reaches
      no MAXSEG option and the checksum field holds what recalculation gives. */
  lemma RoomChangesNothing(order: ByteOrder, buffer: seq<byte>, n: nat, tcp: nat, length: byte)
    requires tcp + 13 < |buffer|
    requires Syn(buffer, tcp) ==> HoldsTcp(buffer, tcp) && Summable(buffer, n, tcp)
    ensures RoomIn(order, buffer, n, tcp, length) == buffer <==>
              Syn(buffer, tcp) ==>
                && Mss(Options(buffer, tcp)) == Nothing
                && buffer[tcp + 16..tcp + 18] == Stored(order, TcpChecksumIn(order, buffer, n, tcp))
  {
    hide SetMaxseg, Options, Summable, TcpChecksumIn, Stored, Find, FromNetwork;
    if Syn(buffer, tcp) {
      var extra: u16 := WIFU_LENGTH + length;
      var lowered := SetMaxseg(buffer, tcp, extra);
      MaxsegKeepsHeader(buffer, tcp, extra);
      SummableAgain(buffer, lowered, n, tcp);
      match Find(Options(buffer, tcp), MAXSEG, OLEN_MAXSEG)
      case Nothing =>
        MaxsegSkips(buffer, tcp, extra);
        StoreSame(order, buffer, tcp + 16, TcpChecksumIn(order, buffer, n, tcp));
      case Just(v) =>
        MaxsegWrites(buffer, tcp, v, extra);
        MssMoves(buffer, tcp + TCPHDR + v, extra);
    }
  }

  lemma StoreSame(order: ByteOrder, data: seq<byte>, at: nat, n: u16)
    requires at + 2 <= |data|
    ensures Store(order, data, at, n) == data <==> data[at..at + 2] == Stored(order, n)
  {
    assert Store(order, data, at, n)[at..at + 2] == Stored(order, n);
    assert data == data[..at] + data[at..at + 2] + data[at + 2..];
  }

  lemma MssMoves(buffer: seq<byte>, at: nat, extra: u16)
    requires at + 2 <= |buffer| && extra > 0
    ensures var mss := Minus(FromNetwork(buffer, at), extra); buffer[at] != High(mss) || buffer[at + 1] != Low(mss)
  {
    NetworkRoundTrip(buffer, at, Minus(FromNetwork(buffer, at), extra));
    MinusMoves(FromNetwork(buffer, at), extra);
  }

  // ---------- nested shims on TCP packets ----------

  /** What is left of `pkt` at the front of a buffer after room has been made for a shim. */
  function RoomFor(order: ByteOrder, buffer: seq<byte>, n: nat, shim: Shim): (room: seq<byte>)
    requires |buffer| == BUF_SIZE && n <= |buffer|
    requires Syn(buffer, NextHeader(buffer)) ==> Summable(buffer, n, NextHeader(buffer))
    ensures |room| == n
  {
    RoomIn(order, buffer, n, NextHeader(buffer), |shim.data|)[..n]
  }

  /** The insertion of a shim that fits into the TCP packet at the front of a buffer. */
  ghost predicate TcpInsertion(order: ByteOrder, buffer: seq<byte>, pkt: seq<byte>, shim: Shim, shimmed: seq<byte>) {
    && |buffer| == BUF_SIZE && |pkt| <= |buffer| && buffer[..|pkt|] == pkt
    && Insertable(pkt, shim) && Fits(pkt, shim)
    && (Syn(buffer, NextHeader(buffer)) ==> Summable(buffer, |pkt|, NextHeader(buffer)))
    && Insertable(RoomFor(order, buffer, |pkt|, shim), shim)
    && shimmed == InsertShim(order, RoomFor(order, buffer, |pkt|, shim), shim)
  }

  ghost predicate NestedTcp(order: ByteOrder, buffers: seq<seq<byte>>, packets: seq<seq<byte>>, shims: seq<Shim>) {
    && |packets| == |shims| + 1 && |buffers| == |shims|
    && forall i :: 0 <= i < |shims| ==> TcpInsertion(order, buffers[i], packets[i], shims[i], packets[i + 1])
  }

  lemma OneTcpInsertion(order: ByteOrder, buffer: seq<byte>, pkt: seq<byte>, shim: Shim, shimmed: seq<byte>)
    requires TcpInsertion(order, buffer, pkt, shim, shimmed)
    ensures var room := RoomFor(order, buffer, |pkt|, shim);
            && Removable(shimmed) && HasIpChecksum(order, shimmed)
            && RemoveShim(order, shimmed) == RecalculateIp(order, room)
            && (RemoveShim(order, shimmed) == pkt <==> room == pkt && HasIpChecksum(order, pkt))
            && (!Syn(buffer, NextHeader(buffer)) ==> room == pkt)
  {
    hide RoomIn, RemoveShim, InsertShim, RecalculateIp, HasIpChecksum, Syn, Summable;
    var room := RoomFor(order, buffer, |pkt|, shim);
    RoomKeepsHeader(order, buffer, |pkt|, NextHeader(buffer), shim);
    ShimRoundTrip(order, room, shim);
    ShimmedHeader(order, room, shim);
    RecalculatedVerifies(order, room);
    if !Syn(buffer, NextHeader(buffer)) {
      NoRoomWithoutSyn(order, buffer, |pkt|, NextHeader(buffer), |shim.data|);
    }
  }

  lemma NoRoomWithoutSyn(order: ByteOrder, buffer: seq<byte>, n: nat, tcp: nat, length: byte)
    requires tcp + 13 < |buffer| && !Syn(buffer, tcp)
    ensures RoomIn(order, buffer, n, tcp, length) == buffer
  {
  }

  /** Nested shims on a TCP packet. Removing one gives back the packet as it was after room had been made;
      behind the first insertion that is the packet itself if and only if making room changed nothing, as
      when no SYN bit was read. */
  lemma TcpShimsAreAStack(order: ByteOrder, buffers: seq<seq<byte>>, packets: seq<seq<byte>>, shims: seq<Shim>, i: nat)
    requires NestedTcp(order, buffers, packets, shims) && i < |shims|
    ensures TcpInsertion(order, buffers[i], packets[i], shims[i], packets[i + 1])
    ensures var room := RoomFor(order, buffers[i], |packets[i]|, shims[i]);
            && Removable(packets[i + 1])
            && (i == 0 ==> RemoveShim(order, packets[1]) == RecalculateIp(order, room))
            && (i > 0 ==> RemoveShim(order, packets[i + 1]) == room)
            && (i > 0 ==> (RemoveShim(order, packets[i + 1]) == packets[i] <==> room == packets[i]))
            && (!Syn(buffers[i], NextHeader(buffers[i])) ==> room == packets[i])
  {
    hide TcpInsertion, RoomFor, RemoveShim, RecalculateIp, HasIpChecksum, Syn;
    OneTcpInsertion(order, buffers[i], packets[i], shims[i], packets[i + 1]);
    if i > 0 {
      OneTcpInsertion(order, buffers[i - 1], packets[i - 1], shims[i - 1], packets[i]);
      RoomHasChecksum(order, buffers[i], packets[i], shims[i], packets[i + 1]);
    }
  }

  lemma RoomHasChecksum(order: ByteOrder, buffer: seq<byte>, pkt: seq<byte>, shim: Shim, shimmed: seq<byte>)
    requires TcpInsertion(order, buffer, pkt, shim, shimmed) && HasIpChecksum(order, pkt)
    ensures var room := RoomFor(order, buffer, |pkt|, shim);
            RecalculateIp(order, room) == room
  {
    hide RoomIn, InsertShim, RecalculateIp, HasIpChecksum, Syn, Summable;
    RoomKeepsHeader(order, buffer, |pkt|, NextHeader(buffer), shim);
    RecalculatedVerifies(order, RoomFor(order, buffer, |pkt|, shim));
  }

  /** Which byte is taken for the TCP flags once there are two shims: the tenth byte of the inner shim, or
      if it is shorter a byte of the segment. A third insertion makes room exactly if that byte has the
      bit of SYN. */
  lemma InnerShimIsRead(order: ByteOrder, pkt: seq<byte>, inner: Shim, outer: Shim)
    requires Insertable(pkt, inner) && Fits(pkt, inner)
    requires Insertable(InsertShim(order, pkt, inner), outer) && Fits(InsertShim(order, pkt, inner), outer)
    requires |inner.data| >= 10 || |pkt| >= HeaderLength(pkt) + 10
    ensures var two := InsertShim(order, InsertShim(order, pkt, inner), outer);
            && two[9] == WIFU_PROTOCOL && Removable(two) && NextHeader(two) + 13 < |two|
            && var flags := if |inner.data| >= 10 then inner.data[9]
                            else pkt[HeaderLength(pkt) + 9 - |inner.data|];
               two[NextHeader(two) + 13] == flags && (Syn(two, NextHeader(two)) <==> flags / 2 % 2 == 1)
  {
    hide InsertShim, Relabel, Enlarged, RecalculateIp, HasIpChecksum, HeaderLength, DatagramLength;
    var one := InsertShim(order, pkt, inner);
    var two, h := InsertShim(order, one, outer), HeaderLength(pkt);
    ShimmedLayout(order, pkt, inner);
    ShimmedHeader(order, pkt, inner);
    ShimmedLayout(order, one, outer);
    ShimmedHeader(order, one, outer);
    ShimRoundTrip(order, one, outer);
    ByteBehind(two, h + ShimLength(outer), one, h, 13);
    ByteBehind(one, h + ShimLength(inner), pkt, h, 9 - |inner.data|);
    ByteOfShim(one, h + WIFU_LENGTH, inner.data);
  }

  lemma InnerShimInside(order: ByteOrder, pkt: seq<byte>, inner: Shim, outer: Shim)
    requires Insertable(pkt, inner) && Fits(pkt, inner)
    requires Insertable(InsertShim(order, pkt, inner), outer) && Fits(InsertShim(order, pkt, inner), outer)
    ensures var two := InsertShim(order, InsertShim(order, pkt, inner), outer);
            && Removable(two) && NextHeader(two) + WIFU_LENGTH + |inner.data| <= |two|
            && forall k :: 0 <= k < |inner.data| ==> two[NextHeader(two) + WIFU_LENGTH + k] == inner.data[k]
  {
    hide InsertShim, Relabel, Enlarged, RecalculateIp, HasIpChecksum, HeaderLength, DatagramLength;
    var one := InsertShim(order, pkt, inner);
    var two, h := InsertShim(order, one, outer), HeaderLength(pkt);
    ShimmedLayout(order, pkt, inner);
    ShimmedHeader(order, pkt, inner);
    ShimmedLayout(order, one, outer);
    ShimmedHeader(order, one, outer);
    ShimRoundTrip(order, one, outer);
    PartOfTail(two, h + ShimLength(outer), one, h, h + WIFU_LENGTH, inner.data);
  }

  lemma PartOfTail(a: seq<byte>, i: nat, b: seq<byte>, j: nat, at: nat, part: seq<byte>)
    requires i <= |a| && j <= at && at + |part| <= |b| && a[i..] == b[j..] && b[at..at + |part|] == part
    ensures i + (at - j) + |part| <= |a|
    ensures forall k :: 0 <= k < |part| ==> a[i + (at - j) + k] == part[k]
  {
    forall k | 0 <= k < |part| ensures a[i + (at - j) + k] == part[k] {
      assert a[i..][at - j + k] == b[j..][at - j + k] && part[k] == b[at..at + |part|][k];
    }
  }

  /** So nested shims do not always come off like a stack: if the inner WiFu header with its shim, read as a
      TCP header, is a SYN whose first option is MAXSEG, the third insertion lowers a number inside the inner
      shim, and removing the third shim does not give the packet back. */
  lemma InnerShimIsChanged(order: ByteOrder, buffer: seq<byte>, pkt: seq<byte>, inner: Shim, outer: Shim,
                           third: Shim, shimmed: seq<byte>)
    requires Insertable(pkt, inner) && Fits(pkt, inner)
    requires Insertable(InsertShim(order, pkt, inner), outer) && Fits(InsertShim(order, pkt, inner), outer)
    requires |inner.data| >= 20 && inner.data[8] / 16 == 6 && inner.data[9] / 2 % 2 == 1
    requires inner.data[16] == MAXSEG && inner.data[17] == OLEN_MAXSEG
    requires TcpInsertion(order, buffer, InsertShim(order, InsertShim(order, pkt, inner), outer), third, shimmed)
    ensures Removable(shimmed) && RemoveShim(order, shimmed) != InsertShim(order, InsertShim(order, pkt, inner), outer)
  {
    hide InsertShim, RemoveShim, NextHeader, RoomIn, Summable, Insertable, Fits, Relabel;
    var two := InsertShim(order, InsertShim(order, pkt, inner), outer);
    InnerShimInside(order, pkt, inner, outer);
    OneTcpInsertion(order, buffer, two, third, shimmed);
    SameNextHeader(buffer, two);
    LooksLikeSyn(order, buffer, |two|, NextHeader(two), third);
    assert RoomFor(order, buffer, |two|, third) != two;
  }

  lemma SameNextHeader(buffer: seq<byte>, pkt: seq<byte>)
    requires |pkt| <= |buffer| && buffer[..|pkt|] == pkt && Removable(pkt)
    ensures NextHeader(buffer) == NextHeader(pkt)
  {
    assert buffer[0] == pkt[0] && buffer[9] == pkt[9];
  }

  /** Making room for any shim changes a packet with these bytes. */
  lemma LooksLikeSyn(order: ByteOrder, buffer: seq<byte>, n: nat, tcp: nat, shim: Shim)
    requires tcp + 24 <= n && Summable(buffer, n, tcp)
    requires buffer[tcp + 12] / 16 == 6 && buffer[tcp + 13] / 2 % 2 == 1
    requires buffer[tcp + 20] == MAXSEG && buffer[tcp + 21] == OLEN_MAXSEG
    ensures HoldsTcp(buffer, tcp) && RoomIn(order, buffer, n, tcp, |shim.data|)[..n] != buffer[..n]
  {
    hide SetMaxseg, TcpChecksumIn, FromNetwork, First;
    var options, extra: u16 := Options(buffer, tcp), WIFU_LENGTH + |shim.data|;
    WalkStep(options, 0, MAXSEG);
    assert Find(options, MAXSEG, OLEN_MAXSEG) == Just(2);
    MaxsegKeepsHeader(buffer, tcp, extra);
    SummableAgain(buffer, SetMaxseg(buffer, tcp, extra), n, tcp);
    MaxsegWrites(buffer, tcp, 2, extra);
    MssMoves(buffer, tcp + 22, extra);
    var room := RoomIn(order, buffer, n, tcp, |shim.data|);
    assert room[tcp + 22] != buffer[tcp + 22] || room[tcp + 23] != buffer[tcp + 23];
    assert room[tcp + 22] == room[..n][tcp + 22] && room[tcp + 23] == room[..n][tcp + 23];
  }

  lemma ByteBehind(a: seq<byte>, i: nat, b: seq<byte>, j: nat, k: int)
    requires i <= |a| && j <= |b| && a[i..] == b[j..]
    ensures 0 <= k < |b| - j ==> i + k < |a| && a[i + k] == b[j + k]
  {
    assert 0 <= k < |b| - j ==> a[i..][k] == b[j..][k];
  }

  lemma ByteOfShim(a: seq<byte>, i: nat, data: seq<byte>)
    requires i + |data| <= |a| && a[i..i + |data|] == data
    ensures |data| >= 10 ==> a[i + 9] == data[9]
  {
    assert |data| >= 10 ==> a[i..i + |data|][9] == data[9];
  }
}
