/** The ring of receive buffers in AudioStream.cpp, for any ring size of at least 2. */
module JitterBuffer {
  import opened Bits

  type Datagram = seq<Byte>

  class Ring {
    /** SIZE and mBufferSize; the buffers themselves are never reassigned. */
    const size: nat
    const bufferSize: nat
    const buffers: seq<array<Byte>>

    /** mLength, and the index of the oldest queued datagram and of the next free slot. */
    const lengths: array<U16>
    var head: nat
    var tail: nat

    ghost predicate Valid()
      reads this, lengths
    {
      && size >= 2 && bufferSize >= 2048
      && |buffers| == size && lengths.Length == size
      && (forall i :: 0 <= i < size ==> buffers[i].Length == bufferSize)
      && (forall i, j :: 0 <= i < j < size ==> buffers[i] != buffers[j])
      && head < size && tail < size
      && (forall i :: 0 <= i < Count() ==> lengths[Slot(i)] <= bufferSize)
    }

    /** The number of queued datagrams. */
    function Count(): nat
      reads this
      requires head < size && tail < size
    {
      if head <= tail then tail - head else tail + size - head
    }

    /** The slot of the i-th oldest datagram. */
    function Slot(i: nat): nat
      reads this
      requires head < size && tail < size && i < size
    {
      if head + i < size then head + i else head + i - size
    }

    /** The slot just before the head. It holds the datagram popped last, which is still in use. */
    function ReservedSlot(): nat
      reads this
      requires head < size
    {
      if head == 0 then size - 1 else head - 1
    }

    ghost function Reserved(): array<Byte>
      reads this, lengths
      requires Valid()
    {
      buffers[ReservedSlot()]
    }

    /** The queue the ring stands for, oldest datagram first. */
    ghost function Contents(): seq<Datagram>
      reads this, lengths, buffers
      requires Valid()
    {
      ContentsFrom(0)
    }

    ghost function ContentsFrom(i: nat): (s: seq<Datagram>)
      reads this, lengths, buffers
      requires Valid() && i <= Count()
      ensures |s| == Count() - i
      ensures forall k :: 0 <= k < |s| ==> s[k] == buffers[Slot(i + k)][..lengths[Slot(i + k)]]
      decreases Count() - i
    {
      if i == Count() then []
      else
        var rest := ContentsFrom(i + 1);
        [buffers[Slot(i)][..lengths[Slot(i)]]] + rest
    }

    constructor (size: nat, sampleCount: nat)
      requires size >= 2
      ensures Valid() && Contents() == []
      ensures this.size == size && bufferSize == 2048 + 2 * sampleCount
      ensures fresh(lengths) && forall i :: 0 <= i < |buffers| ==> fresh(buffers[i])
    {
      this.size := size;
      var bytes := 2048 + 2 * sampleCount;
      bufferSize := bytes;
      var slots: seq<array<Byte>> := [];
      for i := 0 to size
        invariant |slots| == i
        invariant forall k :: 0 <= k < i ==> fresh(slots[k]) && slots[k].Length == bytes
        invariant forall j, k :: 0 <= j < k < i ==> slots[j] != slots[k]
      {
        var slot := new Byte[bytes];
        slots := slots + [slot];
      }
      buffers := slots;
      lengths := new U16[size];
      head, tail := 0, 0;
    }

    /** A slot to receive into, or null when size - 1 datagrams are queued. The slot is neither queued
        nor the one popped last.
      */
    method ObtainBuffer() returns (slot: array?<Byte>)
      requires Valid()
      ensures slot == null <==> |Contents()| == size - 1
      ensures slot != null ==> slot == buffers[tail] && slot != Reserved()
                               && forall i :: 0 <= i < Count() ==> slot != buffers[Slot(i)]
    {
      var reservedHead := if head == 0 then size - 1 else head - 1;
      if tail == reservedHead {
        return null;
      }
      slot := buffers[tail];
    }

    /** Queues the datagram just received into the free slot. */
    method PushBack(length: nat)
      requires Valid() && |Contents()| < size - 1
      requires length < 0x1_0000 && length <= bufferSize
      modifies this`tail, lengths
      ensures Valid() && Contents() == old(Contents()) + [old(buffers[tail][..length])]
      ensures Reserved() == old(Reserved())
    {
      lengths[tail] := ToU16(length);
      tail := tail + 1;
      if tail == size {
        tail := 0;
      }
      SlotsAfterPush();
      PushedContents(length);
    }

    twostate lemma SlotsAfterPush()
      requires old(Valid()) && old(Count()) < size - 1
      requires head == old(head) && tail == if old(tail) + 1 == size then 0 else old(tail) + 1
      ensures Count() == old(Count()) + 1 && Slot(old(Count())) == old(tail)
      ensures forall i :: 0 <= i < old(Count()) ==> Slot(i) == old(Slot(i)) && Slot(i) != old(tail)
    {}

    twostate lemma PushedContents(length: nat)
      requires old(Valid()) && length < 0x1_0000 && length <= bufferSize
      requires head == old(head) && tail < size
      requires Count() == old(Count()) + 1 && Slot(old(Count())) == old(tail)
      requires forall i :: 0 <= i < old(Count()) ==> Slot(i) == old(Slot(i)) && Slot(i) != old(tail)
      requires lengths[old(tail)] == length
      requires forall i :: 0 <= i < size && i != old(tail) ==> lengths[i] == old(lengths[i])
      requires forall i :: 0 <= i < size ==> unchanged(buffers[i])
      ensures Valid() && Contents() == old(Contents()) + [old(buffers[tail][..length])]
    {
      assert Valid();
      assert buffers[old(tail)][..length] == old(buffers[tail][..length]);
      forall k | 0 <= k < old(Count())
        ensures Contents()[k] == old(Contents()[k])
      {
        assert buffers[Slot(k)][..lengths[Slot(k)]] == old(buffers[Slot(k)][..lengths[Slot(k)]]);
      }
    }

    /** Takes the oldest datagram out of the queue; its slot becomes the reserved one. */
    method PopFront() returns (length: nat, packet: array<Byte>)
      requires Valid() && Contents() != []
      modifies this`head
      ensures Valid() && Contents() == old(Contents())[1..]
      ensures packet == Reserved() && packet == old(buffers[head])
      ensures length <= packet.Length && length < 0x1_0000 && packet[..length] == old(Contents())[0]
    {
      length := lengths[head];
      packet := buffers[head];
      assert Slot(0) == head;
      head := head + 1;
      if head == size {
        head := 0;
      }
      assert Count() == old(Count()) - 1;
      assert forall i :: 0 <= i < Count() ==> Slot(i) == old(Slot(i + 1));
    }

    method Empty() returns (b: bool)
      requires Valid()
      ensures b <==> Contents() == []
    {
      b := head == tail;
    }

    /** Writing into the free slot or the reserved slot leaves the queue as it is. */
    twostate lemma FreeSlotIsFree(written: array<Byte>)
      requires old(Valid()) && unchanged(this) && unchanged(lengths)
      requires forall i :: 0 <= i < size && buffers[i] != written ==> unchanged(buffers[i])
      requires forall i :: 0 <= i < Count() ==> written != buffers[Slot(i)]
      ensures Valid() && Contents() == old(Contents())
    {
      forall k | 0 <= k < Count()
        ensures Contents()[k] == old(Contents()[k])
      {
        assert buffers[Slot(k)][..lengths[Slot(k)]] == old(buffers[Slot(k)][..lengths[Slot(k)]]);
      }
    }

    lemma ReservedIsNotQueued()
      requires Valid()
      ensures forall i :: 0 <= i < Count() ==> Reserved() != buffers[Slot(i)]
    {
    }
  }
}
