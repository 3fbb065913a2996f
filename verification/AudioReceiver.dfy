/** The receiver thread's objects: the socket, the jitter buffer, and the fields of AudioStream that
    `startReceiving` and `decode` update in place.
  */
module AudioReceiver {
  import opened Bits
  import opened G711
  import opened RtpPacket
  import opened JitterBuffer
  import opened Receiver
  import opened Subsequence

  class Socket {
    /** The outcomes of the recv calls to come. */
    var incoming: seq<Arrival>

    /** How many of the calls made had a deadline. */
    var timedCalls: nat

    constructor (incoming: seq<Arrival>)
      ensures this.incoming == incoming && timedCalls == 0
    {
      this.incoming := incoming;
      timedCalls := 0;
    }

    /** `receive`: at most `capacity` octets are stored, but the real length is returned. `timed` says whether there is
        a deadline.
      */
    method Receive(buffer: array?<Byte>, capacity: nat, timed: bool) returns (length: int)
      requires if buffer == null then capacity == 0 else capacity <= buffer.Length
      modifies this, buffer
      ensures length == NextResult(old(incoming)) && incoming == AfterNext(old(incoming))
      ensures timedCalls == old(timedCalls) + (if timed then 1 else 0)
      ensures buffer != null ==>
                var stored := StoredBy(old(incoming), capacity);
                buffer[..] == stored + old(buffer[|stored|..])
    {
      if timed {
        timedCalls := timedCalls + 1;
      }
      if incoming == [] {
        return 0;
      }
      var arrival := incoming[0];
      incoming := incoming[1..];
      if arrival.Received? && buffer != null {
        Copy(arrival.data, if |arrival.data| < capacity then |arrival.data| else capacity, buffer);
      }
      length := arrival.Result();
    }

    /** What recv writes: the first `n` octets of a datagram. */
    method Copy(data: seq<Byte>, n: nat, buffer: array<Byte>)
      requires n <= |data| && n <= buffer.Length
      modifies buffer
      ensures buffer[..] == data[..n] + old(buffer[n..])
    {
      for i := 0 to n
        invariant buffer[..i] == data[..i] && buffer[i..] == old(buffer[i..])
      {
        buffer[i] := data[i];
      }
    }
  }

  /** What the next receive call stores in a buffer: as much of the datagram as fits. */
  function StoredBy(arrivals: seq<Arrival>, capacity: nat): (stored: seq<Byte>)
    ensures |stored| <= capacity
    ensures arrivals != [] && arrivals[0].Received? ==>
              var data := arrivals[0].data;
              stored <= data && (|stored| == capacity || |stored| == |data|)
    ensures 0 < NextResult(arrivals) <= capacity ==> stored == arrivals[0].data
    ensures arrivals == [] || !arrivals[0].Received? ==> stored == []
  {
    if arrivals == [] || !arrivals[0].Received? then []
    else if |arrivals[0].data| <= capacity then arrivals[0].data
    else arrivals[0].data[..capacity]
  }

  class Stream {
    const setup: Setup
    const sampleCount: nat
    const codec: AudioCodec
    const ring: Ring
    const socket: Socket

    /** The player is started. */
    var playing: bool

    var remoteTimestamp: Word
    var remoteSsrc: Word

    /** Every frame handed to the player, oldest first. */
    var played: seq<seq<Int16>>

    function RemoteFields(): Remote
      reads this
    {
      Remote(remoteTimestamp, remoteSsrc)
    }

    /** What the receiver asks of the network: a datagram fits a buffer and a 16-bit length, and a
        payload the codec is given is at most one frame long.
      */
    predicate Fits(d: Datagram) {
      && |d| <= ring.bufferSize && |d| < 0x1_0000
      && var r := Parse(d, setup.payloadType); r.Accepted? ==> r.length <= sampleCount
    }

    ghost predicate Valid()
      reads this, ring, ring.lengths, ring.buffers, socket
    {
      && ring.Valid() && setup.capacity == ring.size - 1
      && codec.law == setup.law
      && AllNonEmpty(ring.Contents())
      && (forall d :: d in ring.Contents() ==> Fits(d))
      && (forall a :: a in socket.incoming && a.Received? ==> Fits(a.data))
    }

    constructor (law: Law, payloadType: PayloadType, sampleCount: nat, ringSize: nat, socket: Socket)
      requires ringSize >= 2
      requires forall a :: a in socket.incoming && a.Received? ==>
                 && |a.data| <= 2048 + 2 * sampleCount && |a.data| < 0x1_0000
                 && var r := Parse(a.data, payloadType); r.Accepted? ==> r.length <= sampleCount
      ensures Valid() && ring.Contents() == [] && played == [] && !playing
      ensures setup == Setup(law, payloadType, ringSize - 1) && this.socket == socket
      ensures fresh(ring) && fresh(ring.lengths) && forall i :: 0 <= i < |ring.buffers| ==> fresh(ring.buffers[i])
    {
      setup := Setup(law, payloadType, ringSize - 1);
      this.sampleCount := sampleCount;
      codec := new AudioCodec(law, sampleCount);
      ring := new Ring(ringSize, sampleCount);
      this.socket := socket;
      playing := false;
      remoteTimestamp, remoteSsrc := 0, 0;
      played := [];
    }

    /** `startReceiving`; `startOk`: the thread starts. */
    method StartReceiving(startOk: bool) returns (ok: bool)
      requires Valid()
      modifies this
      ensures Valid() && played == old(played) && ring.Contents() == old(ring.Contents())
      ensures RemoteFields() == if old(playing) then old(RemoteFields()) else Remote(0, 0)
      ensures playing == (old(playing) || startOk) && ok == playing
    {
      hide Parse, AllNonEmpty;
      if !playing {
        remoteTimestamp := 0;
        remoteSsrc := 0;
        playing := startOk;
        return startOk;
      }
      ok := true;
    }

    /** `getPacketFromJB`: the oldest packet, in place in its slot, and the number of packets dropped.
        The packet stays intact while the drain loop fills other slots.
      */
    method GetPacketFromJB() returns (result: int, buffer: array?<Byte>, count: nat)
      requires Valid()
      modifies ring`head, ring`tail, ring.lengths, ring.buffers, socket
      ensures ring.Valid()
      ensures var f := FetchPacket(old(ring.Contents()), old(socket.incoming), setup.capacity);
              && result == f.result && count == |f.dropped|
              && ring.Contents() == f.queue && socket.incoming == f.rest
              && socket.timedCalls == old(socket.timedCalls) + (if f.timed then 1 else 0)
              && (result > 0 ==> buffer == ring.Reserved() && result <= buffer.Length && buffer[..result] == f.packet)
    {
      hide DrainQueue, DrainDrops, DrainRest, Parse;
      count := 0;
      ghost var queue, arrivals := ring.Contents(), socket.incoming;
      var isEmpty := ring.Empty();
      if isEmpty {
        result, buffer := ReceiveFirst();
        if result <= 0 {
          return;
        }
      }
      result, buffer := ring.PopFront();
      ghost var filled := if queue == [] then [arrivals[0].data] else queue;
      ghost var later := if queue == [] then arrivals[1..] else arrivals;
      assert ring.Contents() == filled[1..] && socket.incoming == later && buffer[..result] == filled[0];
      count := Drain(result, buffer);
    }

    /** The timed receive of `getPacketFromJB` on an empty ring. */
    method ReceiveFirst() returns (result: int, buffer: array?<Byte>)
      requires ring.Valid() && ring.Contents() == []
      requires forall a :: a in socket.incoming && a.Received? ==> Fits(a.data)
      modifies ring`tail, ring.lengths, ring.buffers, socket
      ensures ring.Valid()
      ensures result == NextResult(old(socket.incoming)) && socket.incoming == AfterNext(old(socket.incoming))
      ensures ring.Contents() == if result > 0 then [old(socket.incoming)[0].data] else []
      ensures socket.timedCalls == old(socket.timedCalls) + 1
    {
      hide Parse;
      ghost var arrivals := socket.incoming;
      buffer := ring.ObtainBuffer();
      label first:
      result := socket.Receive(buffer, ring.bufferSize, true);
      ring.FreeSlotIsFree@first(buffer);
      if result <= 0 {
        return;
      }
      assert Fits(arrivals[0].data);
      ring.PushBack(result);
    }

    /** The drain loop of `getPacketFromJB`. */
    method Drain(ghost length: nat, ghost packet: array<Byte>) returns (count: nat)
      requires ring.Valid() && setup.capacity == ring.size - 1
      requires forall a :: a in socket.incoming && a.Received? ==> Fits(a.data)
      requires packet == ring.Reserved() && length <= packet.Length
      modifies ring`tail, ring.lengths, ring.buffers, socket
      ensures ring.Valid()
      ensures ring.Contents() == DrainQueue(old(ring.Contents()), old(socket.incoming), setup.capacity)
      ensures socket.incoming == DrainRest(old(socket.incoming)) && socket.timedCalls == old(socket.timedCalls)
      ensures count == |DrainDrops(old(ring.Contents()), old(socket.incoming), setup.capacity)|
      ensures packet == ring.Reserved() && packet[..length] == old(packet[..length])
    {
      hide DrainQueue, DrainDrops, DrainRest, Parse, Fits;
      count := 0;
      ghost var queue, arrivals := ring.Contents(), socket.incoming;
      while true
        invariant ring.Valid()
        invariant forall a :: a in socket.incoming && a.Received? ==> Fits(a.data)
        invariant packet == ring.Reserved() && packet[..length] == old(packet[..length])
        invariant DrainQueue(ring.Contents(), socket.incoming, setup.capacity)
                  == DrainQueue(queue, arrivals, setup.capacity)
        invariant DrainRest(socket.incoming) == DrainRest(arrivals) && socket.timedCalls == old(socket.timedCalls)
        invariant count + |DrainDrops(ring.Contents(), socket.incoming, setup.capacity)|
                  == |DrainDrops(queue, arrivals, setup.capacity)|
        decreases |socket.incoming|
      {
        DrainTurn(ring.Contents(), socket.incoming, setup.capacity);
        var received, dropped := DrainOne(length, packet);
        if received <= 0 {
          break;
        }
        if dropped {
          count := count + 1;
        }
      }
    }

    /** One turn of the drain loop. */
    method DrainOne(ghost length: nat, ghost packet: array<Byte>) returns (received: int, dropped: bool)
      requires ring.Valid() && setup.capacity == ring.size - 1
      requires forall a :: a in socket.incoming && a.Received? ==> Fits(a.data)
      requires packet == ring.Reserved() && length <= packet.Length
      modifies ring`tail, ring.lengths, ring.buffers, socket
      ensures ring.Valid()
      ensures received == NextResult(old(socket.incoming)) && socket.incoming == AfterNext(old(socket.incoming))
      ensures socket.timedCalls == old(socket.timedCalls)
      ensures dropped == (received > 0 && |old(ring.Contents())| >= setup.capacity)
      ensures ring.Contents() == if received <= 0 || dropped then old(ring.Contents())
                                 else old(ring.Contents()) + [old(socket.incoming)[0].data]
      ensures packet == ring.Reserved() && packet[..length] == old(packet[..length])
    {
      hide Parse, Fits;
      ghost var before := socket.incoming;
      var fillBuffer := ring.ObtainBuffer();
      label fill:
      received := socket.Receive(fillBuffer, if fillBuffer == null then 0 else ring.bufferSize, false);
      if fillBuffer != null {
        ring.FreeSlotIsFree@fill(fillBuffer);
      }
      dropped := false;
      if received <= 0 {
        return;
      }
      FitsBounds(before[0].data);
      if fillBuffer != null {
        ring.PushBack(received);
      } else {
        dropped := true;
      }
    }

    /** The header checks on the packet in the reserved slot, which is not in the queue any more. */
    method ParseReserved(length: nat, packet: array<Byte>) returns (parsed: Parsed)
      requires Valid()
      requires packet == ring.Reserved() && length <= packet.Length && length < 0x1_0000
      modifies packet
      ensures Valid() && ring.Contents() == old(ring.Contents())
      ensures var p := old(packet[..length]);
              && parsed == Parse(p, setup.payloadType)
              && (parsed.Accepted? ==>
                    packet[parsed.offset..parsed.offset + parsed.length] == p[parsed.offset..])
    {
      hide Parse;
      ghost var before := packet[..];
      ghost var p := packet[..length];
      ring.ReservedIsNotQueued();
      label parse:
      parsed := ParseInPlace(packet, length, setup.payloadType);
      assert before[8..] == packet[..][8..];
      ring.FreeSlotIsFree@parse(packet);
      ParsedBounds(p, setup.payloadType);
      if parsed.Accepted? {
        SameTail(before, packet[..], parsed.offset, length);
        assert p[parsed.offset..] == before[parsed.offset..length];
        assert packet[..][parsed.offset..length] == packet[parsed.offset..length];
      }
    }

    /** The payload goes through the codec into a sample buffer of one frame. */
    method DecodePayload(packet: array<Byte>, offset: nat, length: nat) returns (frame: seq<Int16>)
      requires offset + length <= packet.Length && length <= sampleCount && codec.law == setup.law
      ensures frame == DecodeFrame(setup.law, packet[offset..offset + length])
    {
      var samples := new Int16[sampleCount];
      var decoded := codec.Decode(samples, packet, offset, length);
      frame := samples[..decoded];
    }

    /** The body of the retry loop of `decode`: one packet is parsed and decoded in its slot. */
    method PlayPacket(length: nat, packet: array<Byte>) returns (done: bool)
      requires Valid()
      requires packet == ring.Reserved() && length <= packet.Length && Fits(packet[..length])
      modifies this`remoteTimestamp, this`remoteSsrc, this`played, packet
      ensures Valid() && ring.Contents() == old(ring.Contents())
      ensures var p := old(packet[..length]);
              && done == IsFrame(setup, p)
              && RemoteFields() == RemoteAfter(setup, old(RemoteFields()), p)
              && played == old(played) + (if done then [FrameOf(setup, p).samples] else [])
    {
      hide Parse, DecodeFrame, AllNonEmpty, Fits, IsFrame, FrameOf, RemoteAfter;
      ghost var p := packet[..length];
      FitsBounds(p);
      Verdict(setup, RemoteFields(), p);
      var parsed := ParseReserved(length, packet);
      if parsed.Rejected? {
        return false;
      }
      remoteTimestamp, remoteSsrc := parsed.timestamp, parsed.ssrc;
      var frame := DecodePayload(packet, parsed.offset, parsed.length);
      if |frame| * 2 <= 0 {
        return false;
      }
      played := played + [frame];
      done := true;
    }

    /** `getPacketFromJB` keeps the receiver valid, and hands out packets that fit. */
    method NextPacket() returns (result: int, buffer: array?<Byte>)
      requires Valid()
      modifies ring`head, ring`tail, ring.lengths, ring.buffers, socket
      ensures Valid()
      ensures var f := FetchPacket(old(ring.Contents()), old(socket.incoming), setup.capacity);
              && result == f.result
              && ring.Contents() == f.queue && socket.incoming == f.rest
              && (result > 0 ==> buffer == ring.Reserved() && result <= buffer.Length && buffer[..result] == f.packet
                                 && Fits(f.packet))
    {
      hide Parse, FetchPacket, Datagrams;
      FetchMembers(ring.Contents(), socket.incoming, setup.capacity);
      FetchConserves(ring.Contents(), socket.incoming, setup.capacity);
      var count;
      result, buffer, count := GetPacketFromJB();
    }

    lemma SameTail(a: seq<Byte>, b: seq<Byte>, from: nat, to: nat)
      requires |a| == |b| && 8 <= from <= to <= |a| && a[8..] == b[8..]
      ensures a[from..to] == b[from..to]
    {
      forall k | from <= k < to
        ensures a[k] == b[k]
      {
        assert a[k] == a[8..][k - 8] && b[k] == b[8..][k - 8];
      }
    }

    lemma FitsBounds(d: Datagram)
      requires Fits(d)
      ensures |d| <= ring.bufferSize && |d| < 0x1_0000
      ensures var r := Parse(d, setup.payloadType); r.Accepted? ==> r.length <= sampleCount
    {}

    lemma ParsedBounds(p: Datagram, payloadType: PayloadType)
      ensures var r := Parse(p, payloadType);
              r.Accepted? ==> 12 <= r.offset && r.offset + r.length == |p|
    {}

    /** `decode`, on what `turn` says it meets. */
    method Decode(turn: Turn) returns (again: bool)
      requires Valid()
      modifies this`remoteTimestamp, this`remoteSsrc, this`played, ring`head, ring`tail, ring.lengths, ring.buffers,
               socket
      ensures Valid()
      ensures turn.clockOk ==>
                var r := DecodeStep(setup, old(ring.Contents()), old(socket.incoming), old(RemoteFields()));
                && ring.Contents() == r.queue && socket.incoming == r.rest && RemoteFields() == r.remote
                && played == old(played) + (if r.frame.Some? then [r.frame.value.samples] else [])
                && again == (r.frame.None? || turn.writeOk)
      ensures !turn.clockOk ==>
                && ring.Contents() == old(ring.Contents()) && socket.incoming == old(socket.incoming)
                && RemoteFields() == old(RemoteFields()) && played == old(played) && !again
    {
      if !turn.clockOk {
        return false;
      }
      hide Parse, FetchPacket, IsFrame, FrameOf, RemoteAfter;
      ghost var target := DecodeStep(setup, ring.Contents(), socket.incoming, RemoteFields());
      while true
        invariant Valid() && played == old(played)
        invariant var r := DecodeStep(setup, ring.Contents(), socket.incoming, RemoteFields());
                  && r.queue == target.queue && r.rest == target.rest
                  && r.remote == target.remote && r.frame == target.frame
        decreases |ring.Contents()| + |socket.incoming|
      {
        FetchShrinks(ring.Contents(), socket.incoming, setup.capacity);
        var length, packet := NextPacket();
        if length <= 0 {
          return true;
        }
        var done := PlayPacket(length, packet);
        if done {
          return turn.writeOk;
        }
      }
    }

    /** `Receiver::threadLoop`: the player is stopped after a failure. */
    method ThreadLoop(turn: Turn) returns (again: bool)
      requires Valid()
      modifies this, ring, ring.lengths, ring.buffers, socket
      ensures Valid() && playing == (old(playing) && again)
      ensures var p := Play(setup, old(ring.Contents()), old(socket.incoming), old(RemoteFields()), [turn]);
              && ring.Contents() == p.queue && socket.incoming == p.rest && RemoteFields() == p.remote
              && played == old(played) + SamplesOf(p.frames)
              && again == p.again
    {
      hide DecodeStep, Fits, AllNonEmpty;
      again := Decode(turn);
      if !again {
        playing := false;
      }
    }

    /** The receiver thread, until a turn fails or the turns are used up. */
    method RunThread(turns: seq<Turn>) returns (again: bool)
      requires Valid()
      modifies this, ring, ring.lengths, ring.buffers, socket
      ensures Valid() && playing == (old(playing) && again)
      ensures var p := Play(setup, old(ring.Contents()), old(socket.incoming), old(RemoteFields()), turns);
              && ring.Contents() == p.queue && socket.incoming == p.rest && RemoteFields() == p.remote
              && played == old(played) + SamplesOf(p.frames)
              && again == p.again
    {
      hide SamplesOf, Fits, AllNonEmpty, DecodeStep;
      ghost var target := Play(setup, ring.Contents(), socket.incoming, RemoteFields(), turns);
      again := true;
      var i := 0;
      while again && i < |turns|
        invariant i <= |turns| && Valid() && playing == (old(playing) && again)
        invariant var left := if again then turns[i..] else [];
                  var p := Play(setup, ring.Contents(), socket.incoming, RemoteFields(), left);
                  && p.queue == target.queue && p.rest == target.rest && p.remote == target.remote
                  && played + SamplesOf(p.frames) == old(played) + SamplesOf(target.frames)
                  && target.again == (again && p.again)
        decreases |turns| - i
      {
        hide Play;
        TurnPlayed(setup, ring.Contents(), socket.incoming, RemoteFields(), turns[i..], played);
        again := ThreadLoop(turns[i]);
        i := i + 1;
      }
      assert SamplesOf([]) == [] by { SamplesOfNothing(); }
    }
  }

  /** The samples of a sequence of frames. */
  function SamplesOf(frames: seq<Frame>): seq<seq<Int16>> {
    if frames == [] then [] else [frames[0].samples] + SamplesOf(frames[1..])
  }

  /** The samples played in the first turn of a run, and after it. */
  lemma TurnPlayed(setup: Setup, queue: seq<Datagram>, arrivals: seq<Arrival>, remote: Remote, turns: seq<Turn>,
                   played: seq<seq<Int16>>)
    requires turns != []
    ensures var p := Play(setup, queue, arrivals, remote, turns);
            var first := Play(setup, queue, arrivals, remote, [turns[0]]);
            var later := Play(setup, first.queue, first.rest, first.remote, if first.again then turns[1..] else []);
            && p.queue == later.queue && p.rest == later.rest && p.remote == later.remote
            && p.again == (first.again && later.again)
            && played + SamplesOf(p.frames) == played + SamplesOf(first.frames) + SamplesOf(later.frames)
  {
    hide Play, SamplesOf;
    PlayTurn(setup, queue, arrivals, remote, turns);
    var first := Play(setup, queue, arrivals, remote, [turns[0]]);
    PlayNothing(setup, first.queue, first.rest, first.remote);
    var later := Play(setup, first.queue, first.rest, first.remote, if first.again then turns[1..] else []);
    SamplesOfConcat(first.frames, later.frames);
    assert first.frames + [] == first.frames;
  }

  lemma SamplesOfNothing()
    ensures SamplesOf([]) == []
  {}

  lemma {:induction false} SamplesOfConcat(a: seq<Frame>, b: seq<Frame>)
    ensures SamplesOf(a + b) == SamplesOf(a) + SamplesOf(b)
  {
    if a == [] {
      assert a + b == b;
    } else {
      SamplesOfConcat(a[1..], b);
      assert (a + b)[1..] == a[1..] + b;
    }
  }

  lemma {:induction false} SamplesOfPermutation(a: seq<Frame>, b: seq<Frame>)
    requires multiset(a) == multiset(b)
    ensures multiset(SamplesOf(a)) == multiset(SamplesOf(b))
  {
    if a == [] {
      assert |multiset(b)| == |b|;
    } else {
      var i := PlaceInPermutation(a, b);
      SamplesOfPermutation(a[1..], b[..i] + b[i + 1..]);
      SamplesOfConcat(b[..i], b[i + 1..]);
      SamplesOfConcat([a[0]], a[1..]);
      SamplesOfConcat(b[..i] + [b[i]], b[i + 1..]);
      SamplesOfConcat(b[..i], [b[i]]);
      assert a == [a[0]] + a[1..];
    }
  }
}
