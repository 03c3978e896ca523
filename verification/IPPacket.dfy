/** The packet object: a fixed buffer whose bytes and length are rewritten in place. Each method is
    equal to a function of the bytes the packet had before. */
module PacketObjects {
  import opened Bytes
  import opened InternetChecksum
  import opened Maybes
  import opened TcpOptions
  import opened ShimPackets
  import opened TcpSegments
  import opened TcpNesting

  /** memcpy(destination + at, source, |source|). */
  method Copy(destination: array<byte>, at: nat, source: seq<byte>)
    requires at + |source| <= destination.Length
    modifies destination
    ensures destination[..at + |source|] == old(destination[..at]) + source
    ensures destination[at + |source|..] == old(destination[at + |source|..])
  {
    var i := 0;
    while i < |source|
      invariant 0 <= i <= |source|
      invariant destination[..at + i] == old(destination[..at]) + source[..i]
      invariant destination[at + i..] == old(destination[at + i..])
    {
      destination[at + i] := source[i];
      i := i + 1;
    }
  }

  method Assemble(destination: array<byte>, head: seq<byte>, middle: seq<byte>, rest: seq<byte>)
    requires |head| + |middle| + |rest| <= destination.Length
    modifies destination
    ensures destination[..|head| + |middle| + |rest|] == head + middle + rest
  {
    Copy(destination, 0, head);
    assert destination[..|head|] == head;
    Copy(destination, |head|, middle);
    Copy(destination, |head| + |middle|, rest);
  }

  class IPPacket {
    const order: ByteOrder
    const payload: array<byte>
    var payloadLength: nat
    // A TCP packet overrides the two hooks around shim insertion, and keeps where its header is
    const isTcp: bool
    var tcp: nat

    ghost predicate Valid()
      reads this, payload
    {
      payload.Length == BUF_SIZE && payloadLength <= BUF_SIZE && tcp <= FURTHEST_HEADER
    }

    /** The flag is read where the TCP header starts, even if the packet ends before it. */
    ghost predicate IsSyn()
      requires Valid()
      reads this, payload
    {
      isTcp && Syn(payload[..], tcp)
    }

    ghost function Content(): seq<byte>
      requires Valid()
      reads this, payload
    {
      payload[..payloadLength]
    }

    constructor (order: ByteOrder, bytes: seq<byte>, isTcp: bool)
      requires |bytes| <= BUF_SIZE
      ensures Valid() && fresh(payload) && payload.Length == 4096 && Content() == bytes
      ensures this.order == order && this.isTcp == isTcp
      ensures tcp == if isTcp then NextHeader(payload[..]) else 0
    {
      this.order, this.isTcp := order, isTcp;
      payload := new byte[BUF_SIZE];
      payloadLength := |bytes|;
      tcp := 0;
      new;
      Copy(payload, 0, bytes);
      CleanupShim();
    }

    // ---------- checksums ----------

    method StoreWord(at: nat, n: u16)
      requires Valid() && at + 2 <= BUF_SIZE
      modifies payload
      ensures payload[..] == Store(order, old(payload[..]), at, n)
      ensures at + 2 <= payloadLength ==> Content() == Store(order, old(Content()), at, n)
    {
      var bytes := Stored(order, n);
      payload[at] := bytes[0];
      payload[at + 1] := bytes[1];
    }

    method RecalculateIpChecksum()
      requires Valid() && payloadLength >= IPHDR
      modifies payload
      ensures Content() == RecalculateIp(order, old(Content()))
    {
      StoreWord(10, 0);
      assert payload[..IPHDR] == Content()[..IPHDR];
      var checksum := ComputeChecksum(order, payload[..IPHDR]);
      ghost var cleared := Content();
      StoreWord(10, checksum);
      StoreTwice(order, old(Content()), 10, 0, checksum);
    }

    /** `header` is the offset of the TCP or UDP header; what it covers may reach beyond the packet,
        but not beyond the buffer. */
    method UdpTcpChecksum(header: nat) returns (checksum: u16)
      requires Valid() && WellFormed(Content())
      requires 12 + (payloadLength - HeaderLength(Content())) <= BUF_SIZE
      requires header + (payloadLength - HeaderLength(Content())) <= BUF_SIZE
      ensures var length := payloadLength - HeaderLength(Content());
              checksum == Checksum(order, PseudoHeader(Content()) + payload[header..header + length])
    {
      assert Content()[0] == payload[0] && Content()[9] == payload[9] && Content()[12..20] == payload[12..20];
      var packet := new byte[BUF_SIZE];
      var length := payloadLength - 4 * (payload[0] % 16);
      Copy(packet, 0, payload[12..20]);
      packet[8], packet[9] := 0, payload[9];
      packet[10], packet[11] := High(length), Low(length);
      var packetLength := 12 + length;
      assert packet[..12] == PseudoHeader(Content());
      Copy(packet, 12, payload[header..header + length]);
      assert packet[..packetLength] == PseudoHeader(Content()) + payload[header..header + length];
      checksum := ComputeChecksum(order, packet[..packetLength]);
    }

    /** What is summed, and the field itself, may lie beyond the packet, but not beyond the buffer. */
    method RecalculateTcpChecksum()
      requires Valid() && Summable(payload[..], payloadLength, tcp)
      modifies payload
      ensures payload[..] == RecalculateTcpIn(order, old(payload[..]), payloadLength, tcp)
    {
      hide Store, PseudoHeader, Checksum, HeaderLength, WellFormed;
      ghost var before: seq<byte> := payload[..];
      StoreKeepsPseudo(order, before, payloadLength, tcp, 0);
      StoreWord(tcp + 16, 0);
      ghost var cleared: seq<byte> := payload[..];
      assert cleared[..payloadLength] == Content();
      var checksum := UdpTcpChecksum(tcp);
      StoreWord(tcp + 16, checksum);
      StoreTwice(order, before, tcp + 16, 0, checksum);
    }

    // ---------- TCP options ----------

    /** The walk may run beyond the packet, never beyond the buffer: it is proved on all of its bytes. */
    method SetTcpMaxsegOption(extra: u16)
      requires Valid()
      modifies payload
      ensures payload[..] == SetMaxseg(old(payload[..]), tcp, extra)
    {
      hide Parse, First, SetMaxseg, FromNetwork, High, Low, LowerMss, Options, Store, RecalculateIp, RecalculateTcp;
      ghost var pkt: seq<byte> := payload[..];
      if payload[tcp + 13] / 2 % 2 != 1 {
        MaxsegSkips(pkt, tcp, extra);
        return;
      }
      var length: int := 4 * (payload[tcp + 12] / 16) - TCPHDR;
      var ptr := tcp + TCPHDR;
      ghost var options := Options(pkt, tcp);
      OptionBytes(pkt, tcp);
      while length > 0
        invariant tcp + TCPHDR <= ptr
        invariant |options| > 0 ==> 0 <= length && ptr + length == tcp + TCPHDR + |options|
        invariant |options| == 0 ==> length <= 0
        invariant |options| > 0 ==>
          First(Parse(options, ptr - (tcp + TCPHDR)), MAXSEG) == First(Parse(options, 0), MAXSEG)
        invariant payload[..] == pkt
      {
        ghost var at := ptr - (tcp + TCPHDR);
        WalkStep(options, at, MAXSEG);
        assert options[at] == pkt[ptr] == payload[ptr];
        assert length > 1 ==> options[at + 1] == pkt[ptr + 1] == payload[ptr + 1];
        var opcode := payload[ptr];
        ptr := ptr + 1;
        if opcode == EOL {
          MaxsegSkips(pkt, tcp, extra);
          return;
        } else if opcode == NOP {
          length := length - 1;
        } else {
          var opsize := payload[ptr];
          ptr := ptr + 1;
          if opsize < 2 {
            MaxsegSkips(pkt, tcp, extra);
            return;
          }
          if opsize > length {
            MaxsegSkips(pkt, tcp, extra);
            return;
          }
          if opcode == MAXSEG {
            if opsize == OLEN_MAXSEG {
              LowerValue(ptr, extra);
              MaxsegWrites(pkt, tcp, at + 2, extra);
            } else {
              MaxsegSkips(pkt, tcp, extra);
            }
            return;
          }
          ptr := ptr + (opsize - 2);
          length := length - opsize;
        }
      }
      WalkEnds(options);
      MaxsegSkips(pkt, tcp, extra);
    }

    method LowerValue(ptr: nat, extra: u16)
      requires Valid() && ptr + 2 <= BUF_SIZE
      modifies payload
      ensures var pkt: seq<byte> := old(payload[..]);
              var mss := Minus(FromNetwork(pkt, ptr), extra);
              payload[..] == pkt[ptr := High(mss)][ptr + 1 := Low(mss)]
    {
      hide FromNetwork, High, Low, Minus;
      var mss := Minus(FromNetwork(payload[..], ptr), extra);
      payload[ptr] := High(mss);
      payload[ptr + 1] := Low(mss);
    }

    /** What the timestamp walk copies out, if anything. */
    method GetTcpTimestampOption() returns (option: Maybe<seq<byte>>)
      requires Valid()
      ensures HoldsTcp(payload[..], tcp) && option == Timestamp(Options(payload[..], tcp))
      ensures HasTimestamp(payload[..], tcp, option)
    {
      hide Parse, First, Options, HasTimestamp;
      ghost var pkt: seq<byte> := payload[..];
      TimestampInPacket(pkt, tcp);
      var length: int := 4 * (payload[tcp + 12] / 16) - TCPHDR;
      var ptr := tcp + TCPHDR;
      ghost var options := Options(pkt, tcp);
      OptionBytes(pkt, tcp);
      while length > 0
        invariant tcp + TCPHDR <= ptr
        invariant |options| > 0 ==> 0 <= length && ptr + length == tcp + TCPHDR + |options|
        invariant |options| == 0 ==> length <= 0
        invariant |options| > 0 ==>
          First(Parse(options, ptr - (tcp + TCPHDR)), TIMESTAMP) == First(Parse(options, 0), TIMESTAMP)
      {
        ghost var at := ptr - (tcp + TCPHDR);
        WalkStep(options, at, TIMESTAMP);
        assert options[at] == pkt[ptr] == payload[ptr];
        assert length > 1 ==> options[at + 1] == pkt[ptr + 1] == payload[ptr + 1];
        var opcode := payload[ptr];
        ptr := ptr + 1;
        if opcode == EOL {
          return Nothing;
        } else if opcode == NOP {
          length := length - 1;
        } else {
          var opsize := payload[ptr];
          ptr := ptr + 1;
          if opsize < 2 {
            return Nothing;
          }
          if opsize > length {
            return Nothing;
          }
          if opcode == TIMESTAMP {
            if opsize == OLEN_TIMESTAMP {
              assert payload[ptr..ptr + 8] == options[at + 2..at + 10] by {
                assert forall i :: ptr <= i < ptr + 8 ==> payload[i] == pkt[i];
              }
              return Just(payload[ptr..ptr + 8]);
            }
            return Nothing;
          }
          ptr := ptr + (opsize - 2);
          length := length - opsize;
        }
      }
      WalkEnds(options);
      option := Nothing;
    }

    // ---------- shims ----------

    method MakeRoomForShim(length: byte)
      requires Valid() && (IsSyn() ==> Summable(payload[..], payloadLength, tcp))
      modifies payload
      ensures payload[..] == if old(IsSyn()) then RoomIn(order, old(payload[..]), payloadLength, tcp, length)
                             else old(payload[..])
    {
      hide SetMaxseg, RecalculateTcpIn, Options, Summable;
      if isTcp && payload[tcp + 13] / 2 % 2 == 1 {
        ghost var before: seq<byte> := payload[..];
        MaxsegKeepsHeader(before, tcp, WIFU_LENGTH + length);
        SummableAgain(before, SetMaxseg(before, tcp, WIFU_LENGTH + length), payloadLength, tcp);
        SetTcpMaxsegOption(WIFU_LENGTH + length);
        RecalculateTcpChecksum();
      }
    }

    /** The transport header, found again after the header before it has changed. */
    method CleanupShim()
      requires Valid()
      modifies this`tcp
      ensures Valid() && tcp == if isTcp then NextHeader(payload[..]) else old(tcp)
    {
      if isTcp {
        var ipLength := 4 * (payload[0] % 16);
        tcp := if payload[9] != WIFU_PROTOCOL then ipLength else ipLength + WIFU_LENGTH + payload[ipLength + 3];
      }
    }

    method RelabelHeader(protocol: byte, length: u16)
      requires Valid() && payloadLength >= IPHDR
      modifies payload
      ensures Content() == Relabel(order, old(Content()), protocol, length)
    {
      hide RecalculateIp, High, Low;
      ghost var pkt: seq<byte> := Content();
      payload[9] := protocol;
      payload[2] := High(length);
      payload[3] := Low(length);
      assert Content() == pkt[9 := protocol][2 := High(length)][3 := Low(length)];
      RecalculateIpChecksum();
    }

    /** Builds a new packet out of the IP header, `middle`, and what follows the `skip` bytes behind the
        header, and copies it back. */
    method Rebuild(ipLength: nat, middle: seq<byte>, skip: nat)
      requires Valid() && ipLength + skip <= payloadLength && payloadLength - skip + |middle| <= BUF_SIZE
      modifies payload, this`payloadLength
      ensures Valid()
      ensures Content() == old(Content()[..ipLength]) + middle + old(Content()[ipLength + skip..])
    {
      var mangleLength := payloadLength - skip + |middle|;
      var mangle := new byte[BUF_SIZE];
      Assemble(mangle, payload[..ipLength], middle, payload[ipLength + skip..payloadLength]);
      Copy(payload, 0, mangle[..mangleLength]);
      payloadLength := mangleLength;
    }

    /** What is left of an insertion once room has been made. */
    method InsertIfItFits(shim: Shim)
      requires Valid() && Insertable(Content(), shim)
      modifies payload, this`payloadLength, this`tcp
      ensures Valid()
      ensures Content() == ShimPackets.InsertShim(order, old(Content()), shim)
      ensures tcp == if isTcp && Fits(old(Content()), shim) then NextHeader(payload[..]) else old(tcp)
    {
      hide Relabel, FromNetwork, NextHeader;
      ghost var pkt: seq<byte> := Content();
      var wifuLength := WIFU_LENGTH + |shim.data|;
      assert payload[0] == pkt[0] && payload[2] == pkt[2] && payload[3] == pkt[3] && payload[9] == pkt[9];
      var newLength: u16 := Plus(FromNetwork(payload[..payloadLength], 2), wifuLength);
      assert newLength == Enlarged(pkt, shim);
      if newLength > MAX_IP_LENGTH {
        return;
      }
      var ipLength := 4 * (payload[0] % 16);
      var wifu: seq<byte> := [WIFU_VERSION, shim.kind, payload[9], |shim.data|];
      ghost var head := Relabel(order, pkt, WIFU_PROTOCOL, newLength)[..ipLength];
      assert ShimPackets.InsertShim(order, pkt, shim) == head + (wifu + shim.data) + pkt[ipLength..];
      RelabelHeader(WIFU_PROTOCOL, newLength);
      RelabelKeeps(order, pkt, WIFU_PROTOCOL, newLength, ipLength);
      Rebuild(ipLength, wifu + shim.data, 0);
      CleanupShim();
    }

    /** The packet once room has been made for a shim. */
    ghost function Room(shim: Shim): (room: seq<byte>)
      requires Valid() && (IsSyn() ==> Summable(payload[..], payloadLength, tcp))
      reads this, payload
      ensures |room| == payloadLength
    {
      if IsSyn() then RoomIn(order, payload[..], payloadLength, tcp, |shim.data|)[..payloadLength] else Content()
    }

    method InsertShim(shim: Shim)
      requires Valid() && Insertable(Content(), shim)
      requires IsSyn() ==> Summable(payload[..], payloadLength, tcp)
      modifies payload, this`payloadLength, this`tcp
      ensures Valid()
      ensures var room: seq<byte> := old(Room(shim));
              && Insertable(room, shim) && Content() == ShimPackets.InsertShim(order, room, shim)
      ensures tcp == if isTcp && Fits(old(Content()), shim) then NextHeader(payload[..]) else old(tcp)
      ensures isTcp && old(tcp == NextHeader(payload[..])) && Fits(old(Content()), shim) ==>
                TcpInsertion(order, old(payload[..]), old(Content()), shim, Content())
    {
      hide RoomIn, Insertable, Fits, NextHeader, ShimPackets.InsertShim, Syn, Summable;
      assert payload[..][..payloadLength] == Content();
      if IsSyn() {
        RoomKeepsHeader(order, payload[..], payloadLength, tcp, shim);
      } else if isTcp {
        NoRoomWithoutSyn(order, payload[..], payloadLength, tcp, |shim.data|);
      }
      MakeRoomForShim(|shim.data|);
      assert Content() == payload[..][..payloadLength];
      InsertIfItFits(shim);
    }

    method RemoveShim()
      requires Valid() && Removable(Content())
      modifies payload, this`payloadLength, this`tcp
      ensures Valid()
      ensures Content() == ShimPackets.RemoveShim(order, old(Content()))
      ensures tcp == if isTcp && old(Content())[9] == WIFU_PROTOCOL then NextHeader(payload[..]) else old(tcp)
    {
      hide Relabel, FromNetwork, NextHeader;
      ghost var pkt: seq<byte> := Content();
      assert payload[0] == pkt[0] && payload[2] == pkt[2] && payload[3] == pkt[3] && payload[9] == pkt[9];
      if payload[9] != WIFU_PROTOCOL {
        return;
      }
      var ipLength := 4 * (payload[0] % 16);
      assert payload[ipLength + 2] == pkt[ipLength + 2] && payload[ipLength + 3] == pkt[ipLength + 3];
      var wifuLength := WIFU_LENGTH + payload[ipLength + 3];
      var newLength: u16 := Minus(FromNetwork(payload[..payloadLength], 2), wifuLength);
      var protocol := payload[ipLength + 2];
      ghost var head := Relabel(order, pkt, protocol, newLength)[..ipLength];
      assert ShimPackets.RemoveShim(order, pkt) == head + pkt[ipLength + wifuLength..];
      RelabelHeader(protocol, newLength);
      RelabelKeeps(order, pkt, protocol, newLength, ipLength + wifuLength);
      Rebuild(ipLength, [], wifuLength);
      assert head + [] == head;
      CleanupShim();
    }
  }
}
