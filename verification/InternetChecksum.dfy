/** The Internet checksum with deferred carries (sections 1 and 2 of RFC 1071). */
module InternetChecksum {
  import opened Bytes

  // How the host reads a 16-bit word from memory
  datatype ByteOrder = LittleEndian | BigEndian

  function Word(order: ByteOrder, first: byte, second: byte): u16 {
    if order.LittleEndian? then first + 256 * second else 256 * first + second
  }

  /** The two bytes in memory of a 16-bit number held by the host. */
  function Stored(order: ByteOrder, n: u16): seq<byte> {
    if order.LittleEndian? then [Low(n), High(n)] else [High(n), Low(n)]
  }

  /** The sum of all words; an odd last byte is read as a number on its own. */
  function WordSum(order: ByteOrder, data: seq<byte>): nat {
    if data == [] then 0
    else if |data| == 1 then data[0]
    else Word(order, data[0], data[1]) + WordSum(order, data[2..])
  }

  /** One end-around carry. */
  function Carry(sum: int): int {
    sum % 0x1_0000 + sum / 0x1_0000
  }

  function Fold(sum: nat): (folded: u16) {
    if sum < 0x1_0000 then sum else Fold(Carry(sum))
  }

  function Complement(n: u16): u16 {
    0xffff - n
  }

  function Checksum(order: ByteOrder, data: seq<byte>): u16 {
    Complement(Fold(WordSum(order, data)))
  }

  /** The loops of the program. A running sum of words of at most 65535 bytes never reaches the
      bit that would trigger the fold inside the first loop. */
  method ComputeChecksum(order: ByteOrder, data: seq<byte>) returns (checksum: u16)
    requires |data| <= 0xffff
    ensures checksum == Checksum(order, data)
  {
    var sum, i, len := 0, 0, |data|;
    ghost var foldedEarly := false;
    while len > 1
      invariant 0 <= i <= |data| && len == |data| - i
      invariant 0 <= sum <= 0xffff * i && 2 * sum <= 0xffff * i
      invariant sum + WordSum(order, data[i..]) == WordSum(order, data)
      invariant !foldedEarly
    {
      assert data[i..][2..] == data[i + 2..];
      sum := sum + Word(order, data[i], data[i + 1]);
      i := i + 2;
      if sum / 0x8000_0000 % 2 == 1 {
        sum := Carry(sum);
        foldedEarly := true;
      }
      len := len - 2;
    }
    if len > 0 {
      sum := sum + data[i];
    }
    ghost var rounds := 0;
    ghost var total := sum;
    while sum / 0x1_0000 != 0
      invariant 0 <= sum && Fold(sum) == Fold(total)
      invariant (rounds == 0 && sum == total) || (rounds == 1 && sum == Carry(total)) || sum < 0x1_0000
      invariant rounds <= 2
      decreases sum
    {
      sum := Carry(sum);
      rounds := rounds + 1;
    }
    assert rounds <= 2;
    checksum := 0xffff - sum;
  }

  /** Whatever the program may sum stays below 2^31, and two carries finish the fold. */
  lemma {:induction false} SumStaysSmall(order: ByteOrder, data: seq<byte>)
    requires |data| <= 0xffff
    ensures 2 * WordSum(order, data) <= 0xffff * (|data| + 1)
    ensures WordSum(order, data) < 0x8000_0000
    ensures Carry(Carry(WordSum(order, data))) < 0x1_0000
  {
    if |data| >= 2 {
      SumStaysSmall(order, data[2..]);
    }
  }

  // ---------- the sum folded at each word ----------

  /** One's-complement addition: a carry out of the top is added back in at once. */
  function OnesAdd(a: u16, b: u16): u16 {
    if a + b > 0xffff then a + b - 0xffff else a + b
  }

  function OnesSum(order: ByteOrder, data: seq<byte>, acc: u16): u16 {
    if data == [] then acc
    else if |data| == 1 then OnesAdd(acc, data[0])
    else OnesSum(order, data[2..], OnesAdd(acc, Word(order, data[0], data[1])))
  }

  /** The representative of `n` modulo 65535 that folding ends in: zero only for zero. */
  function Residue(n: nat): (r: u16) {
    if n == 0 then 0 else (n - 1) % 0xffff + 1
  }

  lemma ResidueIsPeriodic(n: nat, turns: nat)
    requires n > 0 || turns == 0
    ensures Residue(n + 0xffff * turns) == Residue(n)
  {
    var m := n - 1 + 0xffff * turns;
    assert n > 0 ==> 0xffff * (m / 0xffff - (n - 1) / 0xffff - turns) == (n - 1) % 0xffff - m % 0xffff;
  }

  lemma {:induction false} FoldIsResidue(n: nat)
    ensures Fold(n) == Residue(n)
  {
    if n >= 0x1_0000 {
      FoldIsResidue(Carry(n));
      assert n == Carry(n) + 0xffff * (n / 0x1_0000);
      ResidueIsPeriodic(Carry(n), n / 0x1_0000);
    }
  }

  lemma ResidueAdds(a: nat, b: nat)
    ensures OnesAdd(Residue(a), Residue(b)) == Residue(a + b)
  {
    if a > 0 && b > 0 {
      var i, j := (a - 1) / 0xffff, (b - 1) / 0xffff;
      assert a + b == Residue(a) + Residue(b) + 0xffff * (i + j);
      ResidueIsPeriodic(Residue(a) + Residue(b), i + j);
    }
  }

  lemma {:induction false} OnesSumIsResidue(order: ByteOrder, data: seq<byte>, before: nat)
    ensures OnesSum(order, data, Residue(before)) == Residue(before + WordSum(order, data))
  {
    hide Residue, OnesAdd, Word;
    if data == [] {
    } else if |data| == 1 {
      ResidueAdds(before, data[0]);
      ResidueOfWord(data[0]);
    } else {
      var word := Word(order, data[0], data[1]);
      ResidueAdds(before, word);
      ResidueOfWord(word);
      OnesSumIsResidue(order, data[2..], before + word);
    }
  }

  lemma ResidueOfWord(word: u16)
    ensures Residue(word) == word
  {
  }

  /** Deferring the carries gives the one's-complement sum folded at every word. */
  lemma DeferredCarry(order: ByteOrder, data: seq<byte>)
    ensures Checksum(order, data) == Complement(OnesSum(order, data, 0))
  {
    FoldIsResidue(WordSum(order, data));
    OnesSumIsResidue(order, data, 0);
  }

  // ---------- checking what was stored ----------

  lemma {:induction false} WordSumSplits(order: ByteOrder, a: seq<byte>, b: seq<byte>)
    requires |a| % 2 == 0
    ensures WordSum(order, a + b) == WordSum(order, a) + WordSum(order, b)
  {
    if a == [] {
      assert a + b == b;
    } else {
      assert (a + b)[2..] == a[2..] + b;
      WordSumSplits(order, a[2..], b);
    }
  }

  /** `data` with the two bytes at `at` replaced by a 16-bit number as the host stores it. */
  function Store(order: ByteOrder, data: seq<byte>, at: nat, n: u16): (stored: seq<byte>)
    requires at + 2 <= |data|
    ensures |stored| == |data|
  {
    var bytes := Stored(order, n);
    data[at := bytes[0]][at + 1 := bytes[1]]
  }

  lemma StoreTwice(order: ByteOrder, data: seq<byte>, at: nat, n: u16, m: u16)
    requires at + 2 <= |data|
    ensures Store(order, Store(order, data, at, n), at, m) == Store(order, data, at, m)
  {
  }

  lemma StoreSplits(order: ByteOrder, data: seq<byte>, at: nat, n: u16)
    requires at + 2 <= |data|
    ensures Store(order, data, at, n) == data[..at] + (Stored(order, n) + data[at + 2..])
  {
  }

  lemma StoreAdds(order: ByteOrder, data: seq<byte>, at: nat, n: u16)
    requires at + 2 <= |data| && at % 2 == 0
    ensures WordSum(order, Store(order, data, at, n)) == WordSum(order, Store(order, data, at, 0)) + n
  {
    forall m: u16 ensures WordSum(order, Store(order, data, at, m)) ==
                          WordSum(order, data[..at]) + m + WordSum(order, data[at + 2..])
    {
      StoreSplits(order, data, at, m);
      WordSumSplits(order, data[..at], Stored(order, m) + data[at + 2..]);
      WordSumSplits(order, Stored(order, m), data[at + 2..]);
      assert Stored(order, m)[2..] == [];
      assert Word(order, Stored(order, m)[0], Stored(order, m)[1]) == m;
    }
  }

  /** Storing the checksum of the data with a zero in the checksum field, at any even offset and
      for data of any length, makes the checksum of the whole zero. */
  lemma StoredChecksumVerifies(order: ByteOrder, data: seq<byte>, at: nat)
    requires at + 2 <= |data| && at % 2 == 0
    ensures var checksum := Checksum(order, Store(order, data, at, 0));
            Checksum(order, Store(order, data, at, checksum)) == 0
  {
    var sum := WordSum(order, Store(order, data, at, 0));
    var checksum := Checksum(order, Store(order, data, at, 0));
    StoreAdds(order, data, at, checksum);
    FoldIsResidue(sum);
    FoldIsResidue(sum + checksum);
    if sum > 0 {
      assert sum + checksum == 0xffff + 0xffff * ((sum - 1) / 0xffff);
      ResidueIsPeriodic(0xffff, (sum - 1) / 0xffff);
    }
  }

  // ---------- byte order ----------

  function Swap(n: u16): u16 {
    256 * (n % 256) + n / 256
  }

  /** A trailing byte that has no partner, or 0. */
  function OddByte(data: seq<byte>): byte {
    if |data| % 2 == 0 then 0 else data[|data| - 1]
  }

  lemma {:induction false} BigEndianSum(data: seq<byte>) returns (turns: nat)
    ensures turns <= WordSum(BigEndian, data)
    ensures WordSum(BigEndian, data) + 255 * OddByte(data) + 0xffff * turns == 256 * WordSum(LittleEndian, data)
  {
    if |data| < 2 {
      turns := 0;
    } else {
      var rest := BigEndianSum(data[2..]);
      turns := rest + data[1];
    }
  }

  lemma SwapIsTimes256(n: nat)
    ensures Swap(Residue(n)) == Residue(256 * n)
  {
    var turns := ResidueSplits(n);
    hide Residue, Swap;
    var r: nat := Residue(n);
    assert 256 * n == 256 * r + 0xffff * (256 * turns);
    ResidueIsPeriodic(256 * r, 256 * turns);
    SwapIsCarry(r);
    ResidueIsPeriodic(Swap(r), r / 256);
    ResidueOfWord(Swap(r));
  }

  lemma ResidueSplits(n: nat) returns (turns: nat)
    ensures n == Residue(n) + 0xffff * turns
    ensures n > 0 ==> Residue(n) > 0
    ensures n == 0 ==> turns == 0
  {
    turns := if n == 0 then 0 else (n - 1) / 0xffff;
  }

  lemma SwapIsCarry(r: u16)
    ensures 256 * r == Swap(r) + 0xffff * (r / 256)
    ensures r == 0 || Swap(r) > 0
  {
  }

  lemma StoredSwaps(n: u16, m: u16)
    ensures Stored(LittleEndian, Complement(n)) == Stored(BigEndian, Complement(m)) <==> m == Swap(n)
  {
    assert n == 256 * High(n) + Low(n) && m == 256 * High(m) + Low(m);
    assert High(Complement(n)) == 255 - High(n) && Low(Complement(n)) == 255 - Low(n);
    assert High(Complement(m)) == 255 - High(m) && Low(Complement(m)) == 255 - Low(m);
  }

  /** The checksum is meant to be agnostic to the byte order of the host (section 2 (B) of
      RFC 1071). Hosts of both kinds store the same two bytes exactly if the data has no trailing
      odd byte, or that byte is zero. */
  lemma ByteOrderAgnostic(data: seq<byte>)
    ensures Stored(LittleEndian, Checksum(LittleEndian, data)) == Stored(BigEndian, Checksum(BigEndian, data))
            <==> OddByte(data) == 0
  {
    hide Residue, Swap, Stored, OddByte, OnesAdd;
    var little, big, odd := WordSum(LittleEndian, data), WordSum(BigEndian, data), OddByte(data);
    var turns := BigEndianSum(data);
    FoldIsResidue(little);
    FoldIsResidue(big);
    StoredSwaps(Fold(little), Fold(big));
    SwapOfSum(little, big, odd, turns);
  }

  /** The numerical example of section 3 of RFC 1071: the sums are ddf2 and, byte-swapped, f2dd, and both
      kinds of hosts store the bytes 22 0d. */
  lemma Rfc1071Example()
    ensures var data: seq<byte> := [0x00, 0x01, 0xf2, 0x03, 0xf4, 0xf5, 0xf6, 0xf7];
            && Checksum(BigEndian, data) == 0xffff - 0xddf2 && Checksum(LittleEndian, data) == 0xffff - 0xf2dd
            && Stored(BigEndian, Checksum(BigEndian, data)) == [0x22, 0x0d]
            && Stored(LittleEndian, Checksum(LittleEndian, data)) == [0x22, 0x0d]
  {
    hide Fold;
    var data: seq<byte> := [0x00, 0x01, 0xf2, 0x03, 0xf4, 0xf5, 0xf6, 0xf7];
    assert data[2..] == [0xf2, 0x03, 0xf4, 0xf5, 0xf6, 0xf7] && data[2..][2..] == [0xf4, 0xf5, 0xf6, 0xf7];
    assert data[2..][2..][2..] == [0xf6, 0xf7] && data[2..][2..][2..][2..] == [];
    assert WordSum(BigEndian, data) == 0x2_ddf0 && WordSum(LittleEndian, data) == 0x1_f2dc;
    FoldIsResidue(0x2_ddf0);
    FoldIsResidue(0x1_f2dc);
  }

  lemma SwapOfSum(little: nat, big: nat, odd: byte, turns: nat)
    requires big + 255 * odd + 0xffff * turns == 256 * little && turns <= big
    ensures Residue(big) == Swap(Residue(little)) <==> odd == 0
  {
    var spare: nat := 255 * odd;
    assert spare <= 0xfe01;
    SwapIsTimes256(little);
    ResidueIsPeriodic(big + spare, turns);
    ResidueAdds(big, spare);
    ResidueOfWord(spare);
    hide Residue, Swap;
  }
}
