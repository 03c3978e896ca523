/** What inserting and removing shim headers does to the bytes of an IP packet (header layout:
    section 3.1 of RFC 791). */
module ShimPackets {
  import opened Bytes
  import opened InternetChecksum

  const BUF_SIZE: nat := 4096
  const MAX_IP_LENGTH: nat := 1500
  const WIFU_PROTOCOL: byte := 253
  const WIFU_VERSION: byte := 1
  const WIFU_LENGTH: nat := 4
  // sizeof(struct iphdr): the part the header checksum covers, whatever options follow
  const IPHDR: nat := 20

  // ---------- the IP header ----------

  function HeaderLength(pkt: seq<byte>): nat
    requires |pkt| > 0
  {
    4 * (pkt[0] % 16)
  }

  ghost predicate WellFormed(pkt: seq<byte>) {
    |pkt| >= IPHDR && IPHDR <= HeaderLength(pkt) <= |pkt|
  }

  function DatagramLength(pkt: seq<byte>): u16
    requires |pkt| >= IPHDR
  {
    FromNetwork(pkt, 2)
  }

  /** Sets the protocol and the datagram length and recalculates the header checksum. */
  function Relabel(order: ByteOrder, pkt: seq<byte>, protocol: byte, length: u16): (out: seq<byte>)
    requires |pkt| >= IPHDR
    ensures |out| == |pkt|
  {
    RecalculateIp(order, pkt[9 := protocol][2 := High(length)][3 := Low(length)])
  }

  function IpChecksum(order: ByteOrder, pkt: seq<byte>): u16
    requires |pkt| >= IPHDR
  {
    Checksum(order, Store(order, pkt, 10, 0)[..IPHDR])
  }

  function RecalculateIp(order: ByteOrder, pkt: seq<byte>): (out: seq<byte>)
    requires |pkt| >= IPHDR
    ensures |out| == |pkt|
  {
    Store(order, pkt, 10, IpChecksum(order, pkt))
  }

  /** The packet carries the header checksum that recalculation would give it. */
  ghost predicate HasIpChecksum(order: ByteOrder, pkt: seq<byte>)
    requires |pkt| >= IPHDR
  {
    pkt[10..12] == Stored(order, IpChecksum(order, pkt))
  }

  /** Equal in the first `n` bytes, the header checksum aside. */
  ghost predicate SameHeader(a: seq<byte>, b: seq<byte>, n: nat) {
    n <= |a| && n <= |b| && forall i :: 0 <= i < n && i != 10 && i != 11 ==> a[i] == b[i]
  }

  lemma RecalculateSame(order: ByteOrder, a: seq<byte>, b: seq<byte>, n: nat)
    requires SameHeader(a, b, n) && IPHDR <= n
    ensures IpChecksum(order, a) == IpChecksum(order, b)
    ensures forall i :: 0 <= i < n ==> RecalculateIp(order, a)[i] == RecalculateIp(order, b)[i]
    ensures SameHeader(a, RecalculateIp(order, a), |a|)
  {
    assert Store(order, a, 10, 0)[..IPHDR] == Store(order, b, 10, 0)[..IPHDR];
  }

  /** Recalculation gives a header whose checksum verifies, and changes a packet exactly if the
      packet does not carry that checksum already. */
  lemma RecalculatedVerifies(order: ByteOrder, pkt: seq<byte>)
    requires |pkt| >= IPHDR
    ensures Checksum(order, RecalculateIp(order, pkt)[..IPHDR]) == 0
    ensures RecalculateIp(order, pkt) == pkt <==> HasIpChecksum(order, pkt)
    ensures HasIpChecksum(order, RecalculateIp(order, pkt))
  {
    var header := pkt[..IPHDR];
    forall n: u16 ensures Store(order, pkt, 10, n)[..IPHDR] == Store(order, header, 10, n) {
    }
    StoredChecksumVerifies(order, header, 10);
    RecalculateSame(order, pkt, RecalculateIp(order, pkt), |pkt|);
    assert RecalculateIp(order, pkt)[10..12] == Stored(order, IpChecksum(order, pkt));
    if HasIpChecksum(order, pkt) {
      assert pkt == pkt[..10] + pkt[10..12] + pkt[12..];
    }
  }

  // ---------- shims ----------

  // The length of a shim is one byte
  type ShimData = s: seq<byte> | |s| <= 0xff

  datatype Shim = Shim(kind: byte, data: ShimData)

  function ShimLength(shim: Shim): u16 {
    WIFU_LENGTH + |shim.data|
  }

  function Enlarged(pkt: seq<byte>, shim: Shim): u16
    requires |pkt| >= IPHDR
  {
    Plus(DatagramLength(pkt), ShimLength(shim))
  }

  /** The program's own test. */
  predicate Fits(pkt: seq<byte>, shim: Shim)
    requires |pkt| >= IPHDR
  {
    Enlarged(pkt, shim) <= MAX_IP_LENGTH
  }

  ghost predicate Insertable(pkt: seq<byte>, shim: Shim) {
    && WellFormed(pkt)
    && (Fits(pkt, shim) ==> |pkt| + ShimLength(shim) <= BUF_SIZE)
  }

  function InsertShim(order: ByteOrder, pkt: seq<byte>, shim: Shim): seq<byte>
    requires Insertable(pkt, shim)
  {
    if !Fits(pkt, shim) then pkt else
    var h := HeaderLength(pkt);
    Relabel(order, pkt, WIFU_PROTOCOL, Enlarged(pkt, shim))[..h]
      + [WIFU_VERSION, shim.kind, pkt[9], |shim.data|] + shim.data + pkt[h..]
  }

  ghost predicate Removable(pkt: seq<byte>) {
    WellFormed(pkt) && (pkt[9] == WIFU_PROTOCOL ==>
      var h := HeaderLength(pkt);
      h + WIFU_LENGTH <= |pkt| && h + WIFU_LENGTH + pkt[h + 3] <= |pkt|)
  }

  function RemoveShim(order: ByteOrder, pkt: seq<byte>): seq<byte>
    requires Removable(pkt)
  {
    if pkt[9] != WIFU_PROTOCOL then pkt else
    var h := HeaderLength(pkt);
    var wifuLength := WIFU_LENGTH + pkt[h + 3];
    Relabel(order, pkt, pkt[h + 2], Minus(DatagramLength(pkt), wifuLength))[..h] + pkt[h + wifuLength..]
  }

  lemma RelabelKeeps(order: ByteOrder, pkt: seq<byte>, protocol: byte, length: u16, h: nat)
    requires IPHDR <= h <= |pkt|
    ensures Relabel(order, pkt, protocol, length)[h..] == pkt[h..]
  {
    var labelled := pkt[9 := protocol][2 := High(length)][3 := Low(length)];
    RecalculateSame(order, labelled, labelled, |pkt|);
  }

  lemma RelabelTwice(order: ByteOrder, pkt: seq<byte>, other: seq<byte>, n: nat, protocol: byte, length: u16)
    requires IPHDR <= n <= |pkt| && n <= |other|
    requires forall i :: 0 <= i < n ==> other[i] == Relabel(order, pkt, protocol, length)[i]
    ensures forall i :: 0 <= i < n ==>
              Relabel(order, other, pkt[9], DatagramLength(pkt))[i] == RecalculateIp(order, pkt)[i]
    ensures DatagramLength(other) == length && other[9] == protocol && HeaderLength(other) == HeaderLength(pkt)
    ensures HasIpChecksum(order, other)
  {
    var a := pkt[9 := protocol][2 := High(length)][3 := Low(length)];
    var b := other[9 := pkt[9]][2 := High(DatagramLength(pkt))][3 := Low(DatagramLength(pkt))];
    RecalculateSame(order, a, other, n);
    RecalculatedVerifies(order, a);
    NetworkRoundTrip(other, 2, length);
    NetworkRoundTrip(pkt, 2, DatagramLength(pkt));
    assert SameHeader(pkt, b, n);
    RecalculateSame(order, pkt, b, n);
  }

  /** Where everything is in a packet with a shim. */
  lemma ShimmedLayout(order: ByteOrder, pkt: seq<byte>, shim: Shim)
    requires Insertable(pkt, shim) && Fits(pkt, shim)
    ensures var shimmed, h := InsertShim(order, pkt, shim), HeaderLength(pkt);
            && |shimmed| == |pkt| + ShimLength(shim)
            && shimmed[..h] == Relabel(order, pkt, WIFU_PROTOCOL, Enlarged(pkt, shim))[..h]
            && shimmed[h] == WIFU_VERSION && shimmed[h + 1] == shim.kind
            && shimmed[h + 2] == pkt[9] && shimmed[h + 3] == |shim.data|
            && shimmed[h + WIFU_LENGTH..h + ShimLength(shim)] == shim.data
            && shimmed[h + ShimLength(shim)..] == pkt[h..]
  {
    hide Relabel, Enlarged;
    var h := HeaderLength(pkt);
    var head := Relabel(order, pkt, WIFU_PROTOCOL, Enlarged(pkt, shim))[..h];
    Layout(head, [WIFU_VERSION, shim.kind, pkt[9], |shim.data|], shim.data, pkt[h..]);
  }

  /** What the header of a packet with a shim says. */
  lemma ShimmedHeader(order: ByteOrder, pkt: seq<byte>, shim: Shim)
    requires Insertable(pkt, shim) && Fits(pkt, shim)
    ensures var shimmed := InsertShim(order, pkt, shim);
            && shimmed[9] == WIFU_PROTOCOL && HasIpChecksum(order, shimmed)
            && HeaderLength(shimmed) == HeaderLength(pkt)
            && DatagramLength(shimmed) == Plus(DatagramLength(pkt), ShimLength(shim)) <= MAX_IP_LENGTH
            && forall i :: 0 <= i < HeaderLength(pkt) && i !in {2, 3, 9, 10, 11} ==> shimmed[i] == pkt[i]
  {
    hide Relabel, DatagramLength, HeaderLength, HasIpChecksum, InsertShim;
    var h, shimmed := HeaderLength(pkt), InsertShim(order, pkt, shim);
    ShimmedLayout(order, pkt, shim);
    RelabelTwice(order, pkt, shimmed, h, WIFU_PROTOCOL, Enlarged(pkt, shim));
    RelabelIsLocal(order, pkt, WIFU_PROTOCOL, Enlarged(pkt, shim));
    assert forall i :: 0 <= i < h ==> shimmed[i] == shimmed[..h][i];
  }

  lemma RelabelIsLocal(order: ByteOrder, pkt: seq<byte>, protocol: byte, length: u16)
    requires |pkt| >= IPHDR
    ensures forall i :: 0 <= i < |pkt| && i !in {2, 3, 9, 10, 11} ==> Relabel(order, pkt, protocol, length)[i] == pkt[i]
  {
    var labelled := pkt[9 := protocol][2 := High(length)][3 := Low(length)];
    RecalculateSame(order, labelled, labelled, |pkt|);
  }

  /** An inserted shim can be removed, and removing it restores every byte of the packet and its
      length; the header checksum is what recalculation gives on the original. */
  lemma ShimRoundTrip(order: ByteOrder, pkt: seq<byte>, shim: Shim)
    requires Insertable(pkt, shim) && Fits(pkt, shim)
    ensures var shimmed := InsertShim(order, pkt, shim);
            Removable(shimmed) && RemoveShim(order, shimmed) == RecalculateIp(order, pkt)
  {
    hide Relabel, RecalculateIp, IpChecksum, HasIpChecksum, DatagramLength, HeaderLength, InsertShim, Enlarged, Minus;
    var h, shimmed := HeaderLength(pkt), InsertShim(order, pkt, shim);
    ShimmedLayout(order, pkt, shim);
    RelabelTwice(order, pkt, shimmed, h, WIFU_PROTOCOL, Enlarged(pkt, shim));
    WrapsAround(DatagramLength(pkt), ShimLength(shim));
    assert Minus(Enlarged(pkt, shim), ShimLength(shim)) == DatagramLength(pkt) by { EnlargedIs(pkt, shim); }
    RecalculateTail(order, pkt, h);
  }

  lemma Layout(head: seq<byte>, wifu: seq<byte>, data: seq<byte>, tail: seq<byte>)
    requires |wifu| == WIFU_LENGTH
    ensures var all, h := head + wifu + data + tail, |head|;
            && |all| == h + WIFU_LENGTH + |data| + |tail|
            && all[..h] == head && (forall i :: 0 <= i < WIFU_LENGTH ==> all[h + i] == wifu[i])
            && all[h + WIFU_LENGTH..h + WIFU_LENGTH + |data|] == data
            && all[h + WIFU_LENGTH + |data|..] == tail
  {
  }

  lemma RecalculateTail(order: ByteOrder, pkt: seq<byte>, h: nat)
    requires IPHDR <= h <= |pkt|
    ensures RecalculateIp(order, pkt) == RecalculateIp(order, pkt)[..h] + pkt[h..]
  {
    RecalculateSame(order, pkt, pkt, |pkt|);
  }

  lemma EnlargedIs(pkt: seq<byte>, shim: Shim)
    requires |pkt| >= IPHDR
    ensures Enlarged(pkt, shim) == Plus(DatagramLength(pkt), ShimLength(shim))
  {
  }

  /** Restoring is exact if and only if the packet came with a recalculated header checksum. */
  lemma RestoredExactly(order: ByteOrder, pkt: seq<byte>, shim: Shim)
    requires Insertable(pkt, shim) && Fits(pkt, shim)
    ensures Removable(InsertShim(order, pkt, shim))
    ensures RemoveShim(order, InsertShim(order, pkt, shim)) == pkt <==> HasIpChecksum(order, pkt)
  {
    ShimRoundTrip(order, pkt, shim);
    RecalculatedVerifies(order, pkt);
  }

  // ---------- the same in bytes and numbers ----------

  /** A packet as it travels: its first byte holds the version and the number of header words, and bytes 2
      and 3 the length of the datagram, high byte first. */
  ghost predicate OnTheWire(pkt: seq<byte>, version: nat, words: nat, length: int) {
    && 5 <= words <= 15 && 4 * words <= |pkt|
    && pkt[0] == 16 * version + words
    && var high: int, low: int := pkt[2], pkt[3]; length == 256 * high + low
  }

  /** Equal but for the length, the protocol and the header checksum. */
  ghost predicate SameOtherFields(a: seq<byte>, b: seq<byte>, words: nat) {
    4 * words <= |a| && 4 * words <= |b| && forall i :: 0 <= i < 4 * words && i !in {2, 3, 9, 10, 11} ==> a[i] == b[i]
  }

  lemma Relabelled(order: ByteOrder, pkt: seq<byte>, version: nat, words: nat, before: int, protocol: byte, length: u16)
    requires OnTheWire(pkt, version, words, before)
    ensures var out := Relabel(order, pkt, protocol, length);
            && OnTheWire(out, version, words, length) && out[9] == protocol && SameOtherFields(pkt, out, words)
            && Checksum(order, out[..20]) == 0
  {
    var labelled := pkt[9 := protocol][2 := High(length)][3 := Low(length)];
    RecalculateSame(order, labelled, labelled, |pkt|);
    RecalculatedVerifies(order, labelled);
  }

  lemma HeaderOf(order: ByteOrder, pkt: seq<byte>, version: nat, words: nat, before: int, protocol: byte, length: u16,
                 out: seq<byte>)
    requires OnTheWire(pkt, version, words, before)
    requires 4 * words <= |out| && out[..4 * words] == Relabel(order, pkt, protocol, length)[..4 * words]
    ensures OnTheWire(out, version, words, length) && out[9] == protocol && SameOtherFields(pkt, out, words)
    ensures Checksum(order, out[..20]) == 0
  {
    hide Relabel, Checksum;
    var head := Relabel(order, pkt, protocol, length);
    Relabelled(order, pkt, version, words, before, protocol, length);
    assert forall i :: 0 <= i < 4 * words ==> head[i] == head[..4 * words][i] == out[..4 * words][i] == out[i];
    assert head[..20] == out[..20];
  }

  lemma NumbersOf(pkt: seq<byte>, version: nat, words: nat, length: int, n: u16)
    requires OnTheWire(pkt, version, words, length)
    ensures |pkt| >= IPHDR && HeaderLength(pkt) == 4 * words && DatagramLength(pkt) == length
    ensures Plus(DatagramLength(pkt), n) == (length + n) % 0x1_0000
    ensures Minus(DatagramLength(pkt), n) == (length - n) % 0x1_0000
  {
    WrapsAround(DatagramLength(pkt), n);
  }

  /** When a shim goes in: if with it the datagram is at most 1500 bytes long. Only a length near 2^16 can
      wrap around that test. */
  lemma FitsExactly(pkt: seq<byte>, version: nat, words: nat, length: int, shim: Shim)
    requires OnTheWire(pkt, version, words, length)
    ensures Fits(pkt, shim) <==> (length + 4 + |shim.data|) % 0x1_0000 <= 1500
    ensures length + 4 + |shim.data| < 0x1_0000 ==> (Fits(pkt, shim) <==> length + 4 + |shim.data| <= 1500)
  {
  }

  /** Where everything goes: behind the header come version 1, the kind, the old protocol and the length of
      the shim, then the shim, then the rest. */
  lemma InsertedExactly(order: ByteOrder, pkt: seq<byte>, version: nat, words: nat, length: int, shim: Shim)
    requires OnTheWire(pkt, version, words, length) && Insertable(pkt, shim) && Fits(pkt, shim)
    ensures var out, h, n := InsertShim(order, pkt, shim), 4 * words, |shim.data|;
            && |out| == |pkt| + 4 + n
            && OnTheWire(out, version, words, (length + 4 + n) % 0x1_0000)
            && out[9] == 253 && SameOtherFields(pkt, out, words) && Checksum(order, out[..20]) == 0
            && out[h..h + 4] == [1, shim.kind, pkt[9], n]
            && out[h + 4..h + 4 + n] == shim.data
            && out[h + 4 + n..] == pkt[h..]
  {
    hide Relabel, InsertShim, Checksum, OnTheWire, SameOtherFields, HeaderLength, DatagramLength, Plus;
    var out, h := InsertShim(order, pkt, shim), 4 * words;
    NumbersOf(pkt, version, words, length, 4 + |shim.data|);
    ShimmedLayout(order, pkt, shim);
    HeaderOf(order, pkt, version, words, length, WIFU_PROTOCOL, Enlarged(pkt, shim), out);
  }

  /** A packet without a shim keeps all its bytes. From any other exactly the WiFu header and the shim are
      taken out, and the header gets back the protocol and the length. */
  lemma RemovedExactly(order: ByteOrder, pkt: seq<byte>, version: nat, words: nat, length: int)
    requires OnTheWire(pkt, version, words, length) && Removable(pkt)
    ensures pkt[9] != 253 ==> RemoveShim(order, pkt) == pkt
    ensures pkt[9] == 253 ==>
              var out, h := RemoveShim(order, pkt), 4 * words;
              h + 4 <= |pkt| && var n := pkt[h + 3];
              && |out| == |pkt| - 4 - n
              && OnTheWire(out, version, words, (length - 4 - n) % 0x1_0000)
              && out[9] == pkt[h + 2] && SameOtherFields(pkt, out, words) && Checksum(order, out[..20]) == 0
              && out[h..] == pkt[h + 4 + n..]
  {
    hide Relabel, RemoveShim, Checksum, OnTheWire, SameOtherFields, DatagramLength, Minus;
    RemovedLayout(order, pkt);
    NumbersOf(pkt, version, words, length, 0);
    if pkt[9] == 253 {
      var h, n: u16 := 4 * words, WIFU_LENGTH + pkt[4 * words + 3];
      NumbersOf(pkt, version, words, length, n);
      HeaderOf(order, pkt, version, words, length, pkt[h + 2], Minus(DatagramLength(pkt), n), RemoveShim(order, pkt));
    }
  }

  lemma RemovedLayout(order: ByteOrder, pkt: seq<byte>)
    requires Removable(pkt)
    ensures pkt[9] != WIFU_PROTOCOL ==> RemoveShim(order, pkt) == pkt
    ensures pkt[9] == WIFU_PROTOCOL ==>
              var out, h := RemoveShim(order, pkt), HeaderLength(pkt);
              && h + WIFU_LENGTH <= |pkt|
              && var n: u16 := WIFU_LENGTH + pkt[h + 3];
                 && |out| == |pkt| - n
                 && out[..h] == Relabel(order, pkt, pkt[h + 2], Minus(DatagramLength(pkt), n))[..h]
                 && out[h..] == pkt[h + n..]
  {
    hide Relabel, Minus;
  }

  // ---------- the header behind ----------

  // The longest IP header and the longest shim: no header is looked for further behind
  const FURTHEST_HEADER: nat := 60 + WIFU_LENGTH + 0xff

  /** Where the header behind the IP header and one shim starts. */
  function NextHeader(buffer: seq<byte>): (next: nat)
    requires |buffer| >= IPHDR && (buffer[9] == WIFU_PROTOCOL ==> HeaderLength(buffer) + WIFU_LENGTH <= |buffer|)
    ensures next <= FURTHEST_HEADER
  {
    var h := HeaderLength(buffer);
    if buffer[9] != WIFU_PROTOCOL then h else h + WIFU_LENGTH + buffer[h + 3]
  }

  /** The header behind the shim is whatever followed the IP header before. It is the same header as
      was found before the insertion exactly if the packet had no shim then: one shim is skipped, two
      are not. */
  lemma NextHeaderSkipsOneShim(order: ByteOrder, pkt: seq<byte>, shim: Shim)
    requires Insertable(pkt, shim) && Fits(pkt, shim) && Removable(pkt)
    ensures var shimmed := InsertShim(order, pkt, shim);
            && Removable(shimmed) && shimmed[NextHeader(shimmed)..] == pkt[HeaderLength(pkt)..]
            && (shimmed[NextHeader(shimmed)..] == pkt[NextHeader(pkt)..] <==> pkt[9] != WIFU_PROTOCOL)
  {
    hide Relabel, Enlarged, InsertShim, RecalculateIp, DatagramLength, HasIpChecksum;
    ShimmedLayout(order, pkt, shim);
    ShimRoundTrip(order, pkt, shim);
    RelabelTwice(order, pkt, InsertShim(order, pkt, shim), HeaderLength(pkt), WIFU_PROTOCOL, Enlarged(pkt, shim));
  }

  // ---------- nested shims ----------

  /** Packets that arise one from the other by inserting shims that fit. */
  ghost predicate Nested(order: ByteOrder, packets: seq<seq<byte>>, shims: seq<Shim>) {
    && |packets| == |shims| + 1
    && forall i :: 0 <= i < |shims| ==>
         && Insertable(packets[i], shims[i]) && Fits(packets[i], shims[i])
         && packets[i + 1] == InsertShim(order, packets[i], shims[i])
  }

  /** Nested shims come off like a stack, if nothing is done to make room for them: each removal undoes the
      last insertion that is left, and what remains in the end is the original with its header checksum
      recalculated. For TCP packets, which make room, see `TcpNesting`. */
  lemma ShimsAreAStack(order: ByteOrder, packets: seq<seq<byte>>, shims: seq<Shim>, i: nat)
    requires Nested(order, packets, shims) && i < |shims|
    ensures Removable(packets[i + 1])
    ensures RemoveShim(order, packets[i + 1]) == if i == 0 then RecalculateIp(order, packets[0]) else packets[i]
  {
    hide Relabel, RecalculateIp, IpChecksum, HasIpChecksum, InsertShim, RemoveShim;
    ShimRoundTrip(order, packets[i], shims[i]);
    if i > 0 {
      ShimmedHeader(order, packets[i - 1], shims[i - 1]);
      RecalculatedVerifies(order, packets[i]);
    }
  }
}
