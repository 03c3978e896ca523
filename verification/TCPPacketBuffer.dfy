/** The buffer object, as the program updates it: 32-bit numbers, a list changed in place, and a
    cached byte count. Each method is equal to one step of the model with 32-bit arithmetic. */
module ReceiveBuffer {
  import opened Bytes
  import opened SequenceNumbers
  import opened PacketBuffer

  class TCPPacketBuffer {
    var buffer: seq<Packet32>
    var firstExpected: u32
    var started: bool
    var size: int

    ghost function Model(): State
      reads this
    {
      State(firstExpected, buffer, size)
    }

    /** The cached count is dirty or right. */
    ghost predicate Valid()
      reads this
    {
      size == -1 || size == SizeFrom(Wrapped32, buffer, firstExpected)
    }

    constructor ()
      ensures Valid() && !started && buffer == [] && size == -1
    {
      started := false;
      buffer := [];
      size := -1;
    }

    method MarkDirty()
      modifies this`size
      ensures size == -1
    {
      size := -1;
    }

    /** Does not mark the cached count dirty, so it may spoil a buffer that is not empty. */
    method SetFirstSequenceNumber(number: u32)
      modifies this
      ensures Model() == old(Model()).(first := number) && started
      ensures old(Valid()) && (old(size) == -1 || old(buffer) == []) ==> Valid()
    {
      firstExpected := number;
      started := true;
    }

    method Size() returns (n: int)
      requires Valid() && started
      modifies this`size
      ensures Valid() && size == n
      ensures n == SizeFrom(Wrapped32, buffer, firstExpected)
    {
      hide Locate, NewBytes, Next, LessThan, Between;
      if size >= 0 {
        return size;
      }
      size := 0;
      var i := 0;
      var sequenceNumber: u32 := firstExpected;
      while i < |buffer|
        invariant 0 <= i <= |buffer|
        invariant size + SizeFrom(Wrapped32, buffer[i..], sequenceNumber)
               == SizeFrom(Wrapped32, buffer, firstExpected)
      {
        var p := buffer[i];
        var count := 0;
        Round(p, sequenceNumber);
        SizeFromTail(Wrapped32, buffer, i, sequenceNumber);
        if sequenceNumber == p.seqno {
          count := |p.data|;
        } else if Between(p.seqno, sequenceNumber, Wrap(p.seqno + |p.data|)) {
          var difference := Wrap(sequenceNumber - p.seqno);
          count := |p.data| - difference;
        } else if LessThan(p.seqno, sequenceNumber) {
        } else {
          count := |p.data|;
          sequenceNumber := p.seqno;
        }
        sequenceNumber := Wrap(sequenceNumber + count);
        size := size + count;
        i := i + 1;
      }
      n := size;
    }

    method Erase(i: nat)
      requires i < |buffer|
      modifies this`buffer
      ensures buffer == old(buffer)[..i] + old(buffer)[i + 1..]
    {
      buffer := buffer[..i] + buffer[i + 1..];
    }

    /** The last precondition is the program's own assertion; see `StreamDelivery.InsertNeverAborts`. */
    method Insert(p: Packet32) returns (totalInserted: int)
      requires Valid() && started
      requires PacketBuffer.Insert(Wrapped32, Model(), p).1 >= 0
      modifies this
      ensures Valid() && started
      ensures (Model(), totalInserted) == PacketBuffer.Insert(Wrapped32, old(Model()), p)
    {
      hide SizeFrom, LowerBound;
      var beforeSize := Size();
      ghost var list := buffer;

      var itr := LowerBound(Wrapped32, buffer, p);
      var alreadyInserted := itr < |buffer| && buffer[itr].seqno == p.seqno;

      // The new packet goes in front of the found one
      var inserted, found := itr, itr + 1;
      buffer := buffer[..itr] + [p] + buffer[itr..];
      MarkDirty();

      if alreadyInserted {
        // Keep the bigger of the two equally numbered packets
        assert buffer[found] == list[itr];
        if |buffer[found].data| <= |p.data| {
          EraseFound(list, p, itr);
          Erase(found);
          assert buffer == list[..itr] + [p] + list[itr + 1..];
        } else {
          EraseInserted(list, p, itr);
          Erase(inserted);
          assert buffer == list;
        }
      }
      assert buffer == PlacedIn(Wrapped32, list, p);

      var afterSize := Size();
      totalInserted := afterSize - beforeSize;
      assert totalInserted >= 0;
      if totalInserted == 0 && !alreadyInserted {
        EraseInserted(list, p, itr);
        Erase(inserted);
        assert buffer == list;
      }
    }

    /** Appends the longest available run of the stream to `text`. */
    method GetContinuousData(number: u32, text: seq<byte>) returns (longer: seq<byte>)
      requires Valid() && started
      requires buffer == [] || firstExpected == number
      modifies this
      ensures started
      ensures Valid()
      ensures var (after, data) := PacketBuffer.Read(Wrapped32, old(Model()));
              Model() == after && longer == text + data
    {
      hide Locate, NewBytes, Next, Unread, LessThan, Between, Wrap;
      longer := text;
      if buffer == [] {
        return;
      }
      var sequenceNumber: u32 := number;
      var itr := 0;
      ghost var all := SweepFrom(Wrapped32, buffer, firstExpected);
      ghost var rest := all;
      while itr < |buffer|
        invariant 0 <= itr <= |buffer|
        invariant Model() == old(Model()) && started
        invariant rest == SweepFrom(Wrapped32, buffer[itr..], sequenceNumber)
        invariant longer + rest.data == text + all.data && rest.pos == all.pos && itr + rest.taken == all.taken
      {
        var p := buffer[itr];
        var numAppended := 0;
        Round(p, sequenceNumber);
        SweepFromTail(Wrapped32, buffer, itr, sequenceNumber);
        ghost var before, pos := longer, sequenceNumber;
        if sequenceNumber == p.seqno {
          longer := longer + p.data;
          numAppended := |p.data|;
        } else if Between(p.seqno, sequenceNumber, Wrap(p.seqno + |p.data|)) {
          var difference := Wrap(sequenceNumber - p.seqno);
          var count := |p.data| - difference;
          longer := longer + p.data[difference..];
          numAppended := count;
        } else if LessThan(p.seqno, sequenceNumber) {
        } else {
          break;
        }
        sequenceNumber := Wrap(sequenceNumber + numAppended);
        itr := itr + 1;
        rest := SweepFrom(Wrapped32, buffer[itr..], Next(Wrapped32, p, pos));
        AppendStep(before, Unread(Wrapped32, p, pos), rest.data, text + all.data);
      }
      assert rest == Sweep([], sequenceNumber, 0);
      assert longer == text + all.data && sequenceNumber == all.pos && itr == all.taken;
      firstExpected := sequenceNumber;
      buffer := buffer[itr..];
      MarkDirty();
    }
  }

  lemma EraseFound(list: seq<Packet32>, p: Packet32, i: nat)
    requires i < |list|
    ensures var longer := list[..i] + [p] + list[i..];
            longer[..i + 1] + longer[i + 2..] == list[..i] + [p] + list[i + 1..]
  {
  }

  lemma EraseInserted(list: seq<Packet32>, p: Packet32, i: nat)
    requires i <= |list|
    ensures var longer := list[..i] + [p] + list[i..];
            longer[..i] + longer[i + 1..] == list
  {
  }

  lemma AppendStep(text: seq<byte>, part: seq<byte>, rest: seq<byte>, whole: seq<byte>)
    requires text + (part + rest) == whole
    ensures (text + part) + rest == whole
    ensures part == [] ==> text + part == text
  {
  }
}
