/** What a TCP packet adds to shim insertion: on SYN segments the MAXSEG option is lowered to make
    room and the TCP checksum is recalculated (section 3.1 of RFC 793). */
module TcpSegments {
  import opened Bytes
  import opened InternetChecksum
  import opened Maybes
  import opened TcpOptions
  import opened ShimPackets

  const TCPHDR: nat := 20

  // `tcp` is the offset of the TCP header in the packet

  predicate Syn(pkt: seq<byte>, tcp: nat)
    requires tcp + 13 < |pkt|
  {
    pkt[tcp + 13] / 2 % 2 == 1
  }

  function OptionsEnd(pkt: seq<byte>, tcp: nat): nat
    requires tcp + TCPHDR <= |pkt|
  {
    tcp + 4 * (pkt[tcp + 12] / 16)
  }

  ghost predicate HoldsTcp(pkt: seq<byte>, tcp: nat) {
    tcp + TCPHDR <= |pkt| && OptionsEnd(pkt, tcp) <= |pkt|
  }

  /** The options; a header length field below five words leaves none. */
  function Options(pkt: seq<byte>, tcp: nat): seq<byte>
    requires HoldsTcp(pkt, tcp)
  {
    if OptionsEnd(pkt, tcp) < tcp + TCPHDR then [] else pkt[tcp + TCPHDR..OptionsEnd(pkt, tcp)]
  }

  function SetMaxseg(pkt: seq<byte>, tcp: nat, extra: u16): (out: seq<byte>)
    requires HoldsTcp(pkt, tcp)
    ensures |out| == |pkt|
  {
    if !Syn(pkt, tcp) then pkt else
    var options := Options(pkt, tcp);
    pkt[..tcp + TCPHDR] + LowerMss(options, extra) + pkt[tcp + TCPHDR + |options|..]
  }

  /** Lowering the option whose value is at `v` writes two bytes of the packet. */
  lemma MaxsegWrites(pkt: seq<byte>, tcp: nat, v: nat, extra: u16)
    requires HoldsTcp(pkt, tcp) && Syn(pkt, tcp)
    requires Find(Options(pkt, tcp), MAXSEG, OLEN_MAXSEG) == Just(v)
    ensures var at := tcp + TCPHDR + v;
            && at + 2 <= |pkt|
            && var mss := Minus(FromNetwork(pkt, at), extra);
               SetMaxseg(pkt, tcp, extra) == pkt[at := High(mss)][at + 1 := Low(mss)]
  {
    hide Parse, First, Find, Minus, FromNetwork, High, Low;
    var options, start := Options(pkt, tcp), tcp + TCPHDR;
    FoundInside(options, MAXSEG, OLEN_MAXSEG);
    var mss := Minus(FromNetwork(options, v), extra);
    assert options == pkt[start..start + |options|];
    Splice(pkt, start, options, v, High(mss), Low(mss));
    SameNumber(pkt, start + v, options, v);
  }

  lemma SameNumber(a: seq<byte>, i: nat, b: seq<byte>, j: nat)
    requires i + 2 <= |a| && j + 2 <= |b| && a[i] == b[j] && a[i + 1] == b[j + 1]
    ensures FromNetwork(a, i) == FromNetwork(b, j)
  {
  }

  /** Two bytes written in a part of `pkt` are written in `pkt`. */
  lemma Splice(pkt: seq<byte>, start: nat, part: seq<byte>, v: nat, first: byte, second: byte)
    requires start + |part| <= |pkt| && pkt[start..start + |part|] == part && v + 2 <= |part|
    ensures pkt[start + v] == part[v] && pkt[start + v + 1] == part[v + 1]
    ensures pkt[..start] + part[v := first][v + 1 := second] + pkt[start + |part|..]
            == pkt[start + v := first][start + v + 1 := second]
  {
    assert pkt[start..start + |part|][v] == part[v] && pkt[start..start + |part|][v + 1] == part[v + 1];
    assert pkt == pkt[..start] + part + pkt[start + |part|..];
  }

  lemma OptionBytes(pkt: seq<byte>, tcp: nat)
    requires HoldsTcp(pkt, tcp)
    ensures var options, end := Options(pkt, tcp), OptionsEnd(pkt, tcp);
            && |options| == (if end < tcp + TCPHDR then 0 else end - (tcp + TCPHDR))
            && forall i :: 0 <= i < |options| ==> options[i] == pkt[tcp + TCPHDR + i]
  {
  }

  /** The timestamp among the options of the TCP header at `tcp`: they start behind its 20 bytes and end as
      many words from its start as the high nibble of its byte 12 says. */
  ghost predicate HasTimestamp(pkt: seq<byte>, tcp: nat, option: Maybe<seq<byte>>)
    requires HoldsTcp(pkt, tcp)
  {
    var end := tcp + 4 * (pkt[tcp + 12] / 16);
    CarriesTimestamp(if end < tcp + 20 then [] else pkt[tcp + 20..end], option)
  }

  lemma TimestampInPacket(pkt: seq<byte>, tcp: nat)
    requires HoldsTcp(pkt, tcp)
    ensures HasTimestamp(pkt, tcp, Timestamp(Options(pkt, tcp)))
  {
    hide CarriesTimestamp, Timestamp;
    TimestampExactly(Options(pkt, tcp));
  }

  lemma MaxsegSkips(pkt: seq<byte>, tcp: nat, extra: u16)
    requires HoldsTcp(pkt, tcp)
    requires !Syn(pkt, tcp) || Find(Options(pkt, tcp), MAXSEG, OLEN_MAXSEG) == Nothing
    ensures SetMaxseg(pkt, tcp, extra) == pkt
  {
    hide Parse, First, Find;
    var options, start := Options(pkt, tcp), tcp + TCPHDR;
    assert pkt == pkt[..start] + options + pkt[start + |options|..];
  }

  /** The options are the bytes behind the first 20 of the TCP header, up to as many words from its start as
      the high nibble of its byte 12 says. */
  lemma OptionsAre(pkt: seq<byte>, tcp: nat)
    requires HoldsTcp(pkt, tcp)
    ensures var end := tcp + 4 * (pkt[tcp + 12] / 16);
            end <= |pkt| && Options(pkt, tcp) == if end < tcp + 20 then [] else pkt[tcp + 20..end]
  {
  }

  /** Lowering the MSS, in bytes: if bit 1 of byte 13 is set and the first option of kind 2 has size 4, the
      number behind it is lowered modulo 2^16, high byte first, and nothing else changes. */
  lemma MaxsegExactly(pkt: seq<byte>, tcp: nat, b: nat, extra: u16)
    requires HoldsTcp(pkt, tcp) && pkt[tcp + 13] / 2 % 2 == 1
    requires FirstOption(Options(pkt, tcp), 2, b) && Options(pkt, tcp)[b + 1] == 4
    ensures var at := tcp + 20 + b + 2;
            && at + 2 <= |pkt|
            && var high: int, low: int := pkt[at], pkt[at + 1];
               var mss := (high * 256 + low - extra) % 0x1_0000;
               SetMaxseg(pkt, tcp, extra) == pkt[at := mss / 256][at + 1 := mss % 256]
  {
    hide Parse, First, Options, Walks, SetMaxseg, Minus;
    FirstExactly(Options(pkt, tcp), 2, b);
    MaxsegWrites(pkt, tcp, b + 2, extra);
    WrapsAround(FromNetwork(pkt, tcp + 20 + b + 2), extra);
  }

  lemma MaxsegChangesOnly(pkt: seq<byte>, tcp: nat, extra: u16)
    requires HoldsTcp(pkt, tcp) && SetMaxseg(pkt, tcp, extra) != pkt
    ensures pkt[tcp + 13] / 2 % 2 == 1
    ensures exists b: nat :: FirstOption(Options(pkt, tcp), 2, b) && Options(pkt, tcp)[b + 1] == 4
  {
    hide Parse, First, Options, Walks, SetMaxseg;
    if !Syn(pkt, tcp) || Find(Options(pkt, tcp), MAXSEG, OLEN_MAXSEG) == Nothing {
      MaxsegSkips(pkt, tcp, extra);
      assert false;
    }
    FirstIsFound(Options(pkt, tcp), 2, 4);
    FirstExactly(Options(pkt, tcp), 2, Find(Options(pkt, tcp), 2, 4).value - 2);
  }

  /** Lowering the MSS in a buffer lowers it in the packet at its front. */
  lemma MaxsegInBuffer(buffer: seq<byte>, n: nat, tcp: nat, extra: u16)
    requires n <= |buffer| && HoldsTcp(buffer[..n], tcp)
    ensures HoldsTcp(buffer, tcp) && Options(buffer, tcp) == Options(buffer[..n], tcp)
    ensures SetMaxseg(buffer, tcp, extra)[..n] == SetMaxseg(buffer[..n], tcp, extra)
  {
    hide LowerMss;
    assert buffer[..n][tcp + 12] == buffer[tcp + 12] && buffer[..n][tcp + 13] == buffer[tcp + 13];
    assert Options(buffer, tcp) == Options(buffer[..n], tcp);
  }

  function PseudoHeader(pkt: seq<byte>): (pseudo: seq<byte>)
    requires WellFormed(pkt) && |pkt| <= BUF_SIZE
    ensures |pseudo| == 12
  {
    var length: u16 := |pkt| - HeaderLength(pkt);
    pkt[12..20] + [0, pkt[9], High(length), Low(length)]
  }

  /** The pseudo header of section 3.1 of RFC 793: both addresses, a zero, the protocol, and the length
      of the segment. */
  lemma PseudoHeaderFields(pkt: seq<byte>)
    requires WellFormed(pkt) && |pkt| <= BUF_SIZE
    ensures var pseudo := PseudoHeader(pkt);
            && (forall i :: 0 <= i < 8 ==> pseudo[i] == pkt[12 + i])
            && pseudo[8] == 0 && pseudo[9] == pkt[9]
            && FromNetwork(pseudo, 10) == |pkt[HeaderLength(pkt)..]|
  {
    hide HeaderLength, High, Low, FromNetwork;
    NetworkRoundTrip(PseudoHeader(pkt), 10, |pkt| - HeaderLength(pkt));
  }

  /** The checksum over pseudo header and segment of a packet without shims. */
  function SegmentChecksum(order: ByteOrder, pkt: seq<byte>): u16
    requires WellFormed(pkt) && |pkt| <= BUF_SIZE
  {
    Checksum(order, PseudoHeader(pkt) + pkt[HeaderLength(pkt)..])
  }

  ghost predicate PlainTcp(pkt: seq<byte>) {
    && WellFormed(pkt) && |pkt| <= BUF_SIZE - 12
    && HoldsTcp(pkt, HeaderLength(pkt))
    && pkt[9] != WIFU_PROTOCOL
  }

  function WithTcpChecksum(order: ByteOrder, pkt: seq<byte>, checksum: u16): (out: seq<byte>)
    requires PlainTcp(pkt)
    ensures |out| == |pkt|
  {
    Store(order, pkt, HeaderLength(pkt) + 16, checksum)
  }

  /** Bytes outside the TCP checksum field are kept. */
  lemma ChecksumIsLocal(order: ByteOrder, pkt: seq<byte>, checksum: u16)
    requires PlainTcp(pkt)
    ensures var out, tcp := WithTcpChecksum(order, pkt, checksum), HeaderLength(pkt);
            && (forall i :: 0 <= i < |pkt| && i != tcp + 16 && i != tcp + 17 ==> out[i] == pkt[i])
            && PlainTcp(out) && HeaderLength(out) == tcp
            && PseudoHeader(out) == PseudoHeader(pkt)
            && Options(out, tcp) == Options(pkt, tcp) && Syn(out, tcp) == Syn(pkt, tcp)
  {
    var out, tcp := WithTcpChecksum(order, pkt, checksum), HeaderLength(pkt);
    assert out[0] == pkt[0] && out[9] == pkt[9] && out[12..20] == pkt[12..20];
    assert out[tcp + 12] == pkt[tcp + 12] && out[tcp + 13] == pkt[tcp + 13];
  }

  function RecalculateTcp(order: ByteOrder, pkt: seq<byte>): (out: seq<byte>)
    requires PlainTcp(pkt)
    ensures |out| == |pkt|
  {
    ChecksumIsLocal(order, pkt, 0);
    WithTcpChecksum(order, pkt, SegmentChecksum(order, WithTcpChecksum(order, pkt, 0)))
  }

  /** After recalculation the checksum over pseudo header and segment is zero. */
  lemma SegmentVerifies(order: ByteOrder, pkt: seq<byte>)
    requires PlainTcp(pkt)
    ensures var out := RecalculateTcp(order, pkt);
            PlainTcp(out) && SegmentChecksum(order, out) == 0
  {
    var tcp := HeaderLength(pkt);
    var data := PseudoHeader(pkt) + pkt[tcp..];
    forall n: u16 ensures Covers(order, pkt, n) {
      ChecksumIsLocal(order, pkt, n);
      assert PseudoHeader(pkt) + WithTcpChecksum(order, pkt, n)[tcp..] == Store(order, data, 28, n);
    }
    StoredChecksumVerifies(order, data, 28);
    assert Covers(order, pkt, 0);
    assert Covers(order, pkt, SegmentChecksum(order, WithTcpChecksum(order, pkt, 0)));
  }

  ghost predicate Covers(order: ByteOrder, pkt: seq<byte>, n: u16)
    requires PlainTcp(pkt)
  {
    var out := WithTcpChecksum(order, pkt, n);
    PlainTcp(out) && PseudoHeader(out) + out[HeaderLength(out)..] ==
                     Store(order, PseudoHeader(pkt) + pkt[HeaderLength(pkt)..], 28, n)
  }

  /** Lowering the MSS touches nothing but the value of the option. */
  lemma MaxsegIsLocal(pkt: seq<byte>, extra: u16)
    requires PlainTcp(pkt)
    ensures var tcp := HeaderLength(pkt);
            var out := SetMaxseg(pkt, tcp, extra);
            && PlainTcp(out) && HeaderLength(out) == tcp && PseudoHeader(out) == PseudoHeader(pkt)
            && Syn(out, tcp) == Syn(pkt, tcp)
            && out[..tcp + TCPHDR] == pkt[..tcp + TCPHDR]
            && Options(out, tcp) == (if Syn(pkt, tcp) then LowerMss(Options(pkt, tcp), extra) else Options(pkt, tcp))
            && out[tcp + TCPHDR + |Options(pkt, tcp)|..] == pkt[tcp + TCPHDR + |Options(pkt, tcp)|..]
  {
    hide LowerMss, HeaderLength;
    var tcp := HeaderLength(pkt);
    var out, options := SetMaxseg(pkt, tcp, extra), Options(pkt, tcp);
    assert out[..tcp + TCPHDR] == pkt[..tcp + TCPHDR];
    assert forall i :: 0 <= i < tcp + TCPHDR ==> out[i] == out[..tcp + TCPHDR][i] == pkt[i];
    SameLength(pkt, out);
    assert out[12..20] == pkt[12..20];
  }

  lemma SameLength(a: seq<byte>, b: seq<byte>)
    requires |a| > 0 && |b| > 0 && a[0] == b[0]
    ensures HeaderLength(a) == HeaderLength(b)
  {
  }

  // ---------- inserting and removing ----------

  /** Nothing is asked of a segment that is not a SYN, whatever its header length field says. */
  ghost predicate Ready(pkt: seq<byte>, tcp: nat) {
    tcp + 13 < |pkt| && (Syn(pkt, tcp) ==> PlainTcp(pkt) && tcp == HeaderLength(pkt))
  }

  function MakeRoom(order: ByteOrder, pkt: seq<byte>, tcp: nat, length: byte): (out: seq<byte>)
    requires Ready(pkt, tcp)
    ensures |out| == |pkt|
  {
    if !Syn(pkt, tcp) then pkt else
    MaxsegIsLocal(pkt, WIFU_LENGTH + length);
    RecalculateTcp(order, SetMaxseg(pkt, tcp, WIFU_LENGTH + length))
  }

  /** Two packets with the same layout, where only the IP and TCP checksums and the MSS may differ. */
  ghost predicate SameButLowered(a: seq<byte>, b: seq<byte>, extra: u16)
    requires PlainTcp(a)
  {
    var tcp := HeaderLength(a);
    var n := |Options(a, tcp)|;
    && PlainTcp(b) && |a| == |b| && HeaderLength(b) == tcp
    && SameHeader(a, b, tcp)
    && (forall i :: tcp <= i < tcp + TCPHDR && i != tcp + 16 && i != tcp + 17 ==> a[i] == b[i])
    && Options(b, tcp) == LowerMss(Options(a, tcp), extra)
    && a[tcp + TCPHDR + n..] == b[tcp + TCPHDR + n..]
  }

  lemma MakeRoomLowers(order: ByteOrder, pkt: seq<byte>, length: byte)
    requires PlainTcp(pkt) && Syn(pkt, HeaderLength(pkt))
    ensures var out := MakeRoom(order, pkt, HeaderLength(pkt), length);
            && SameButLowered(pkt, out, WIFU_LENGTH + length)
            && SegmentChecksum(order, out) == 0
            && out[..HeaderLength(pkt)] == pkt[..HeaderLength(pkt)]
  {
    hide LowerMss, HeaderLength, Syn;
    var tcp := HeaderLength(pkt);
    var low := SetMaxseg(pkt, tcp, WIFU_LENGTH + length);
    MaxsegIsLocal(pkt, WIFU_LENGTH + length);
    SegmentVerifies(order, low);
    ChecksumIsLocal(order, low, 0);
    ChecksumIsLocal(order, low, SegmentChecksum(order, WithTcpChecksum(order, low, 0)));
    assert forall i :: 0 <= i < tcp + TCPHDR ==> low[i] == low[..tcp + TCPHDR][i] == pkt[i];
  }

  lemma RoomIsInsertable(order: ByteOrder, pkt: seq<byte>, tcp: nat, shim: Shim)
    requires Ready(pkt, tcp) && Insertable(pkt, shim)
    ensures var room := MakeRoom(order, pkt, tcp, |shim.data|);
            Insertable(room, shim) && (Fits(room, shim) <==> Fits(pkt, shim))
  {
    hide HeaderLength, LowerMss, RecalculateTcp, SetMaxseg, SegmentChecksum;
    if Syn(pkt, tcp) {
      MakeRoomLowers(order, pkt, |shim.data|);
      var room := MakeRoom(order, pkt, tcp, |shim.data|);
      assert room[2] == room[..tcp][2] && room[3] == room[..tcp][3];
    }
  }

  /** Room is made before the program tests whether the shim fits. */
  function InsertTcp(order: ByteOrder, pkt: seq<byte>, tcp: nat, shim: Shim): seq<byte>
    requires Ready(pkt, tcp) && Insertable(pkt, shim)
  {
    RoomIsInsertable(order, pkt, tcp, shim);
    InsertShim(order, MakeRoom(order, pkt, tcp, |shim.data|), shim)
  }

  /** Where no SYN bit is read at the given offset, a shim comes off without a trace. Behind one shim that
      offset is the TCP header, behind two it is inside the inner shim. */
  lemma DataShimRoundTrip(order: ByteOrder, pkt: seq<byte>, tcp: nat, shim: Shim)
    requires Ready(pkt, tcp) && Insertable(pkt, shim) && Fits(pkt, shim) && !Syn(pkt, tcp)
    ensures var shimmed := InsertTcp(order, pkt, tcp, shim);
            Removable(shimmed) && RemoveShim(order, shimmed) == RecalculateIp(order, pkt)
  {
    ShimRoundTrip(order, pkt, shim);
  }

  /** On a SYN without shims, inserting and removing a shim changes, checksums apart, only the MSS,
      lowered by the shim and its WiFu header modulo 2^16; both checksums then verify. */
  lemma SynShimRoundTrip(order: ByteOrder, pkt: seq<byte>, shim: Shim)
    requires PlainTcp(pkt) && Syn(pkt, HeaderLength(pkt)) && Insertable(pkt, shim) && Fits(pkt, shim)
    ensures var tcp, shimmed := HeaderLength(pkt), InsertTcp(order, pkt, HeaderLength(pkt), shim);
            Removable(shimmed) && var out := RemoveShim(order, shimmed);
            && SameButLowered(pkt, out, ShimLength(shim))
            && (Mss(Options(pkt, tcp)) == Nothing ==> Options(out, tcp) == Options(pkt, tcp))
            && (Mss(Options(pkt, tcp)).Just? ==>
                  Mss(Options(out, tcp)) == Just(Minus(Mss(Options(pkt, tcp)).value, ShimLength(shim))))
            && Timestamp(Options(out, tcp)) == Timestamp(Options(pkt, tcp))
            && SegmentChecksum(order, out) == 0
            && Checksum(order, out[..IPHDR]) == 0
  {
    hide RecalculateIp, MakeRoom, LowerMss, HeaderLength, Syn, SegmentChecksum, InsertShim, RemoveShim, Mss, Timestamp,
         Relabel, Checksum, Find;
    var tcp := HeaderLength(pkt);
    var room := MakeRoom(order, pkt, tcp, |shim.data|);
    RoomIsInsertable(order, pkt, tcp, shim);
    ShimRoundTrip(order, room, shim);
    MakeRoomLowers(order, pkt, |shim.data|);
    ChecksumsOnly(order, pkt, room, ShimLength(shim));
    LoweredOptions(Options(pkt, tcp), ShimLength(shim));
  }

  lemma LoweredOptions(options: seq<byte>, extra: u16)
    ensures Mss(options) == Nothing ==> LowerMss(options, extra) == options
    ensures Mss(options).Just? ==> Mss(LowerMss(options, extra)) == Just(Minus(Mss(options).value, extra))
    ensures Timestamp(LowerMss(options, extra)) == Timestamp(options)
  {
    LoweringIsLocal(options, extra);
    LoweringKeepsTimestamp(options, extra);
  }

  lemma ChecksumsOnly(order: ByteOrder, pkt: seq<byte>, room: seq<byte>, extra: u16)
    requires PlainTcp(pkt) && SameButLowered(pkt, room, extra) && SegmentChecksum(order, room) == 0
    ensures var out := RecalculateIp(order, room);
            && SameButLowered(pkt, out, extra)
            && SegmentChecksum(order, out) == 0 && Checksum(order, out[..IPHDR]) == 0
  {
    hide RecalculateIp, LowerMss, HeaderLength, SegmentChecksum, Checksum;
    RecalculateIpKeepsTcp(order, room);
    RecalculatedVerifies(order, room);
  }

  lemma RecalculateIpKeepsTcp(order: ByteOrder, pkt: seq<byte>)
    requires PlainTcp(pkt)
    ensures var out, tcp := RecalculateIp(order, pkt), HeaderLength(pkt);
            && PlainTcp(out) && HeaderLength(out) == tcp
            && SameHeader(pkt, out, tcp) && out[tcp..] == pkt[tcp..]
            && (forall i :: tcp <= i < |pkt| ==> out[i] == pkt[i])
            && Options(out, tcp) == Options(pkt, tcp)
            && SegmentChecksum(order, out) == SegmentChecksum(order, pkt)
  {
    var out, tcp := RecalculateIp(order, pkt), HeaderLength(pkt);
    RecalculateSame(order, pkt, pkt, |pkt|);
    assert out[12..20] == pkt[12..20] && out[tcp..] == pkt[tcp..];
  }

  /** A shim that does not fit is not inserted, but a SYN has then already been changed. Its options
      are kept exactly if the walk reaches no MAXSEG option of the right size. */
  lemma RejectedInsert(order: ByteOrder, pkt: seq<byte>, shim: Shim)
    requires PlainTcp(pkt) && Syn(pkt, HeaderLength(pkt)) && Insertable(pkt, shim) && !Fits(pkt, shim)
    ensures var tcp, out := HeaderLength(pkt), InsertTcp(order, pkt, HeaderLength(pkt), shim);
            && SameButLowered(pkt, out, ShimLength(shim))
            && (Options(out, tcp) == Options(pkt, tcp) <==> Mss(Options(pkt, tcp)) == Nothing)
  {
    hide MakeRoom, LowerMss, HeaderLength, Syn, Mss, Timestamp, Minus;
    var tcp := HeaderLength(pkt);
    MakeRoomLowers(order, pkt, |shim.data|);
    RoomIsInsertable(order, pkt, tcp, shim);
    LoweredOptions(Options(pkt, tcp), ShimLength(shim));
    if Mss(Options(pkt, tcp)).Just? {
      MinusMoves(Mss(Options(pkt, tcp)).value, ShimLength(shim));
    }
  }

  lemma MinusMoves(n: u16, extra: u16)
    ensures Minus(n, extra) == n <==> extra == 0
  {
  }
}
