/** The receiving half of AudioStream: `getPacketFromJB` and `decode` as functions on the queue of the
    jitter buffer and on what the socket delivers. `AudioReceiver` runs the same steps on objects.
  */
module Receiver {
  import opened Bits
  import opened Wrappers
  import opened G711
  import opened RtpPacket
  import opened JitterBuffer
  import opened Subsequence
  import opened Deadline

  /** The outcome of one recv call: a datagram, nothing within the time allowed, or an error. The
      sequence of these outcomes is the socket's future.
    */
  datatype Arrival = Received(data: Datagram) | Quiet | Failure {
    /** What `receive` returns: the real length, 0, or -1. */
    function Result(): int {
      match this
      case Received(data) => |data|
      case Quiet => 0
      case Failure => -1
    }
  }

  /** The non-empty datagrams among the arrivals. */
  function Datagrams(arrivals: seq<Arrival>): seq<Datagram> {
    if arrivals == [] then []
    else (if arrivals[0].Result() > 0 then [arrivals[0].data] else []) + Datagrams(arrivals[1..])
  }

  function NextResult(arrivals: seq<Arrival>): int {
    if arrivals == [] then 0 else arrivals[0].Result()
  }

  function AfterNext(arrivals: seq<Arrival>): seq<Arrival> {
    if arrivals == [] then [] else arrivals[1..]
  }

  // ----- getPacketFromJB -----

  /** The drain loop: every datagram that is there is queued, or dropped if `capacity` are queued. */
  function DrainQueue(queue: seq<Datagram>, arrivals: seq<Arrival>, capacity: nat): seq<Datagram>
    decreases |arrivals|
  {
    if NextResult(arrivals) <= 0 then queue
    else DrainQueue(if |queue| < capacity then queue + [arrivals[0].data] else queue, arrivals[1..], capacity)
  }

  function DrainDrops(queue: seq<Datagram>, arrivals: seq<Arrival>, capacity: nat): seq<Datagram>
    decreases |arrivals|
  {
    if NextResult(arrivals) <= 0 then []
    else if |queue| < capacity then DrainDrops(queue + [arrivals[0].data], arrivals[1..], capacity)
    else [arrivals[0].data] + DrainDrops(queue, arrivals[1..], capacity)
  }

  /** What is left on the socket after the drain loop. */
  function DrainRest(arrivals: seq<Arrival>): seq<Arrival> {
    if NextResult(arrivals) <= 0 then AfterNext(arrivals) else DrainRest(arrivals[1..])
  }

  /** One turn of the drain loop. */
  lemma DrainTurn(queue: seq<Datagram>, arrivals: seq<Arrival>, capacity: nat)
    ensures var q, d := DrainQueue(queue, arrivals, capacity), DrainDrops(queue, arrivals, capacity);
            var r := DrainRest(arrivals);
            if NextResult(arrivals) <= 0 then q == queue && d == [] && r == AfterNext(arrivals)
            else
              var later := arrivals[1..];
              && r == DrainRest(later)
              && if |queue| < capacity
                 then q == DrainQueue(queue + [arrivals[0].data], later, capacity)
                      && d == DrainDrops(queue + [arrivals[0].data], later, capacity)
                 else q == DrainQueue(queue, later, capacity)
                      && d == [arrivals[0].data] + DrainDrops(queue, later, capacity)
  {}

  /** One call of `getPacketFromJB`; `timed` says whether it waits for a packet because the ring is empty. */
  datatype Fetch = Fetch(
    result: int,
    packet: Datagram,
    queue: seq<Datagram>,
    rest: seq<Arrival>,
    dropped: seq<Datagram>,
    timed: bool)

  function FetchPacket(queue: seq<Datagram>, arrivals: seq<Arrival>, capacity: nat): Fetch {
    if queue == [] && NextResult(arrivals) <= 0 then
      Fetch(NextResult(arrivals), [], [], AfterNext(arrivals), [], true)
    else
      var filled := if queue == [] then [arrivals[0].data] else queue;
      var later := if queue == [] then arrivals[1..] else arrivals;
      Fetch(|filled[0]|, filled[0], DrainQueue(filled[1..], later, capacity), DrainRest(later),
            DrainDrops(filled[1..], later, capacity), queue == [])
  }

  /** The datagrams that can be read without waiting, up to the first empty one. */
  function Burst(arrivals: seq<Arrival>): seq<Datagram> {
    if NextResult(arrivals) <= 0 then [] else [arrivals[0].data] + Burst(arrivals[1..])
  }

  function Min(a: int, b: int): int {
    if a < b then a else b
  }

  predicate AllNonEmpty(queue: seq<Datagram>) {
    forall i :: 0 <= i < |queue| ==> queue[i] != []
  }

  lemma {:induction false} BurstIsAllNonEmpty(arrivals: seq<Arrival>)
    ensures AllNonEmpty(Burst(arrivals))
  {
    if NextResult(arrivals) > 0 { BurstIsAllNonEmpty(arrivals[1..]); }
  }

  lemma {:induction false} BurstComesFirst(arrivals: seq<Arrival>)
    ensures Datagrams(arrivals) == Burst(arrivals) + Datagrams(DrainRest(arrivals))
  {
    if NextResult(arrivals) > 0 {
      BurstComesFirst(arrivals[1..]);
      var d := arrivals[0].data;
      assert [d] + (Burst(arrivals[1..]) + Datagrams(DrainRest(arrivals[1..])))
             == ([d] + Burst(arrivals[1..])) + Datagrams(DrainRest(arrivals[1..]));
    } else {
      SkipQuiet(arrivals);
    }
  }

  lemma SkipQuiet(arrivals: seq<Arrival>)
    requires NextResult(arrivals) <= 0
    ensures Datagrams(AfterNext(arrivals)) == Datagrams(arrivals)
  {
    if arrivals != [] { assert [] + Datagrams(arrivals[1..]) == Datagrams(arrivals[1..]); }
  }

  /** The drain loop in closed form: of the burst, as many datagrams as there is room for are queued in
      order, and exactly the others are dropped.
    */
  lemma {:induction false} DrainInClosedForm(queue: seq<Datagram>, arrivals: seq<Arrival>, capacity: nat)
    requires |queue| <= capacity
    ensures var burst := Burst(arrivals);
            var room := Min(capacity - |queue|, |burst|);
            && DrainQueue(queue, arrivals, capacity) == queue + burst[..room]
            && DrainDrops(queue, arrivals, capacity) == burst[room..]
    decreases |arrivals|
  {
    if NextResult(arrivals) > 0 {
      var d := arrivals[0].data;
      var later := Burst(arrivals[1..]);
      if |queue| < capacity {
        DrainInClosedForm(queue + [d], arrivals[1..], capacity);
        var room := Min(capacity - |queue| - 1, |later|);
        assert ([d] + later)[..room + 1] == [d] + later[..room];
        assert (queue + [d]) + later[..room] == queue + ([d] + later[..room]);
      } else {
        DrainInClosedForm(queue, arrivals[1..], capacity);
      }
    }
  }

  /** Conservation in one call of `getPacketFromJB`: the returned packet and the new queue are the old
      queue followed by the burst, with the datagrams that found the queue full left out at the end.
      Something is dropped only if the queue ends up full.
    */
  lemma FetchConserves(queue: seq<Datagram>, arrivals: seq<Arrival>, capacity: nat)
    requires |queue| <= capacity && capacity > 0 && AllNonEmpty(queue)
    ensures var f := FetchPacket(queue, arrivals, capacity);
            && |f.queue| <= capacity && AllNonEmpty(f.queue)
            && (f.dropped != [] ==> |f.queue| == capacity)
            && (if f.result <= 0 then queue == f.queue == f.dropped == [] && Datagrams(f.rest) == Datagrams(arrivals)
                else queue + Datagrams(arrivals) == [f.packet] + f.queue + f.dropped + Datagrams(f.rest))
  {
    hide DrainQueue, DrainDrops, DrainRest;
    if queue == [] && NextResult(arrivals) <= 0 {
      SkipQuiet(arrivals);
    } else if queue == [] {
      DrainConserves([], arrivals[1..], capacity);
      var f := FetchPacket(queue, arrivals, capacity);
      Regroup(arrivals[0].data, [], Datagrams(arrivals[1..]), f.queue, f.dropped, Datagrams(f.rest));
      assert [] + Datagrams(arrivals) == Datagrams(arrivals);
    } else {
      DrainConserves(queue[1..], arrivals, capacity);
      var f := FetchPacket(queue, arrivals, capacity);
      hide Datagrams;
      Regroup(queue[0], queue[1..], Datagrams(arrivals), f.queue, f.dropped, Datagrams(f.rest));
      assert [queue[0]] + queue[1..] == queue;
    }
  }

  lemma Regroup<T>(first: T, tail: seq<T>, later: seq<T>, q: seq<T>, d: seq<T>, r: seq<T>)
    requires tail + later == q + d + r
    ensures [first] + tail + later == [first] + q + d + r
  {
    assert [first] + tail + later == [first] + (tail + later);
    assert [first] + q + d + r == [first] + (q + d + r);
  }

  lemma DrainConserves(queue: seq<Datagram>, arrivals: seq<Arrival>, capacity: nat)
    requires |queue| <= capacity && AllNonEmpty(queue)
    ensures var q, d := DrainQueue(queue, arrivals, capacity), DrainDrops(queue, arrivals, capacity);
            && |q| <= capacity && AllNonEmpty(q)
            && (d != [] ==> |q| == capacity)
            && queue + Datagrams(arrivals) == q + d + Datagrams(DrainRest(arrivals))
  {
    hide Burst, DrainQueue, DrainDrops, DrainRest, Datagrams;
    DrainInClosedForm(queue, arrivals, capacity);
    BurstIsAllNonEmpty(arrivals);
    BurstComesFirst(arrivals);
    var burst := Burst(arrivals);
    var room := Min(capacity - |queue|, |burst|);
    assert burst == burst[..room] + burst[room..];
  }

  /** `f` hands out the oldest of `all`; the next ones stay queued, as many as fit, and the others are dropped. */
  predicate TakesOldest(f: Fetch, all: seq<Datagram>, capacity: nat) {
    && all != [] && f.packet == all[0] && f.result == |f.packet|
    && var n := Min(capacity, |all| - 1);
       f.queue == all[1..n + 1] && f.dropped == all[n + 1..]
  }

  /** What one call of `getPacketFromJB` does, if the ring holds non-empty packets only. With a packet queued, or else
      one received in time, it takes the oldest of those that are queued or can be read without waiting. Otherwise
      it returns the outcome of the one receive call it makes. It waits if and only if the ring is empty.
    */
  lemma FetchTakesTheOldest(queue: seq<Datagram>, arrivals: seq<Arrival>, capacity: nat)
    requires |queue| <= capacity && capacity > 0 && AllNonEmpty(queue)
    ensures var f := FetchPacket(queue, arrivals, capacity);
            && (f.timed <==> queue == [])
            && (f.result > 0 <==> queue != [] || (arrivals != [] && arrivals[0].Received? && arrivals[0].data != []))
            && (f.result > 0 ==>
                  && TakesOldest(f, queue + Burst(arrivals), capacity)
                  && f.rest == DrainRest(if queue == [] then arrivals[1..] else arrivals))
            && (f.result <= 0 ==>
                  && f.queue == f.dropped == []
                  && if arrivals == [] then f.result == 0 && f.rest == []
                     else f.result == (if arrivals[0].Failure? then -1 else 0) && f.rest == arrivals[1..])
  {
    hide DrainQueue, DrainDrops, DrainRest, TakesOldest;
    if queue != [] {
      hide Burst;
      DrainTakesOldest(queue, arrivals, capacity, FetchPacket(queue, arrivals, capacity));
    } else if NextResult(arrivals) > 0 {
      DrainTakesOldest([arrivals[0].data], arrivals[1..], capacity, FetchPacket(queue, arrivals, capacity));
      assert queue + Burst(arrivals) == [arrivals[0].data] + Burst(arrivals[1..]);
    }
  }

  lemma DrainTakesOldest(queue: seq<Datagram>, arrivals: seq<Arrival>, capacity: nat, f: Fetch)
    requires queue != [] && |queue| <= capacity + 1
    requires f.result == |queue[0]| && f.packet == queue[0]
    requires f.queue == DrainQueue(queue[1..], arrivals, capacity)
    requires f.dropped == DrainDrops(queue[1..], arrivals, capacity)
    ensures TakesOldest(f, queue + Burst(arrivals), capacity)
  {
    hide DrainQueue, DrainDrops, Burst;
    DrainKeepsTheFirst(queue[1..], arrivals, capacity);
    SplitFirst(queue, Burst(arrivals), capacity);
  }

  lemma SplitFirst(queue: seq<Datagram>, burst: seq<Datagram>, capacity: nat)
    requires queue != []
    ensures var all, later := queue + burst, queue[1..] + burst;
            var n := Min(capacity, |later|);
            |all| == |later| + 1 && all[0] == queue[0] && all[1..n + 1] == later[..n] && all[n + 1..] == later[n..]
  {
    assert (queue + burst)[1..] == queue[1..] + burst;
  }

  lemma DrainKeepsTheFirst(queue: seq<Datagram>, arrivals: seq<Arrival>, capacity: nat)
    requires |queue| <= capacity
    ensures var all := queue + Burst(arrivals);
            var n := Min(capacity, |all|);
            DrainQueue(queue, arrivals, capacity) == all[..n] && DrainDrops(queue, arrivals, capacity) == all[n..]
  {
    DrainInClosedForm(queue, arrivals, capacity);
    hide Burst, DrainQueue, DrainDrops;
    var burst := Burst(arrivals);
    var room := Min(capacity - |queue|, |burst|);
    assert (queue + burst)[..|queue| + room] == queue + burst[..room];
    assert (queue + burst)[|queue| + room..] == burst[room..];
  }

  /** Nothing is invented: every datagram comes from the queue or the socket. */
  lemma FetchMembers(queue: seq<Datagram>, arrivals: seq<Arrival>, capacity: nat)
    ensures var f := FetchPacket(queue, arrivals, capacity);
            && (f.result > 0 ==> f.packet in queue || Received(f.packet) in arrivals)
            && (forall d :: d in f.queue ==> d in queue || Received(d) in arrivals)
            && (forall a :: a in f.rest ==> a in arrivals)
  {
    if queue != [] || NextResult(arrivals) > 0 {
      hide DrainQueue, DrainDrops, DrainRest;
      var filled := if queue == [] then [arrivals[0].data] else queue;
      DrainMembers(filled[1..], if queue == [] then arrivals[1..] else arrivals, capacity);
      assert arrivals != [] && arrivals[0].Received? ==> Received(arrivals[0].data) == arrivals[0];
    }
  }

  lemma {:induction false} DrainMembers(queue: seq<Datagram>, arrivals: seq<Arrival>, capacity: nat)
    ensures forall d :: d in DrainQueue(queue, arrivals, capacity) ==> d in queue || Received(d) in arrivals
    ensures forall a :: a in DrainRest(arrivals) ==> a in arrivals
    decreases |arrivals|
  {
    if NextResult(arrivals) > 0 {
      var next := if |queue| < capacity then queue + [arrivals[0].data] else queue;
      DrainMembers(next, arrivals[1..], capacity);
      assert Received(arrivals[0].data) == arrivals[0];
    }
  }

  // ----- Does the drain loop empty the socket? -----

  /** The outcomes that a receive call meets without waiting: empty datagrams and errors included. */
  function Ready(arrivals: seq<Arrival>): seq<Arrival> {
    if arrivals == [] || arrivals[0].Quiet? then [] else [arrivals[0]] + Ready(arrivals[1..])
  }

  /** None of the outcomes but the last would stop the loop. */
  predicate OnlyLastStops(ready: seq<Arrival>) {
    forall i :: 0 <= i < |ready| - 1 ==> ready[i].Result() > 0
  }

  lemma OnlyLastStopsFirst(a: Arrival, later: seq<Arrival>)
    ensures OnlyLastStops([a] + later) <==> later == [] || (a.Result() > 0 && OnlyLastStops(later))
  {
    var ready := [a] + later;
    assert ready[0] == a;
    assert forall i :: 0 <= i < |later| ==> later[i] == ready[i + 1];
    assert forall i :: 1 <= i < |ready| ==> ready[i] == later[i - 1];
  }

  lemma {:induction false} RestIsSuffix(arrivals: seq<Arrival>)
    ensures var rest := DrainRest(arrivals);
            |rest| <= |arrivals| && rest == arrivals[|arrivals| - |rest|..]
  {
    if NextResult(arrivals) > 0 { RestIsSuffix(arrivals[1..]); }
  }

  lemma {:induction false} ReadyIsPrefix(arrivals: seq<Arrival>)
    ensures var ready := Ready(arrivals);
            && |ready| <= |arrivals| && ready == arrivals[..|ready|]
            && (|ready| == |arrivals| || arrivals[|ready|].Quiet?)
  {
    if arrivals != [] && !arrivals[0].Quiet? { ReadyIsPrefix(arrivals[1..]); }
  }

  lemma {:induction false} RestWithoutReady(arrivals: seq<Arrival>)
    ensures |DrainRest(arrivals)| <= |arrivals| - |Ready(arrivals)| <==> OnlyLastStops(Ready(arrivals))
  {
    hide OnlyLastStops;
    if arrivals != [] && !arrivals[0].Quiet? {
      OnlyLastStopsFirst(arrivals[0], Ready(arrivals[1..]));
      RestWithoutReady(arrivals[1..]);
      ReadyIsPrefix(arrivals[1..]);
      RestIsSuffix(arrivals[1..]);
    } else {
      assert OnlyLastStops([]) by { NothingStops(); }
    }
    if NextResult(arrivals) > 0 && Ready(arrivals[1..]) == [] {
      assert OnlyLastStops([]) by { NothingStops(); }
    }
  }

  lemma NothingStops()
    ensures OnlyLastStops([])
  {}

  /** What the drain loop leaves is the end of the arrivals. Nothing ready is left over if and only if no
      empty datagram or error stops the loop before the last ready outcome.
    */
  lemma DrainEmptiesSocket(arrivals: seq<Arrival>)
    ensures var rest, ready := DrainRest(arrivals), Ready(arrivals);
            && |rest| <= |arrivals| && rest == arrivals[|arrivals| - |rest|..]
            && |ready| <= |arrivals| && ready == arrivals[..|ready|]
            && (|rest| <= |arrivals| - |ready| <==> forall i :: 0 <= i < |ready| - 1 ==> ready[i].Result() > 0)
  {
    hide DrainRest, Ready;
    RestIsSuffix(arrivals);
    ReadyIsPrefix(arrivals);
    RestWithoutReady(arrivals);
  }

  // ----- decode -----

  /** mRemoteTimestamp and mRemoteSsrc. */
  datatype Remote = Remote(timestamp: Word, ssrc: Word)

  /** A frame handed to the player, with the header fields of its packet. */
  datatype Frame = Frame(timestamp: Word, ssrc: Word, samples: seq<Int16>)

  /** The codec, its payload type, and one less than the ring size. */
  datatype Setup = Setup(law: Law, payloadType: PayloadType, capacity: nat)

  datatype DecodeResult = DecodeResult(
    queue: seq<Datagram>,
    rest: seq<Arrival>,
    remote: Remote,
    frame: Option<Frame>,
    taken: seq<Datagram>,
    fetches: seq<Fetch>)

  /** What a sequence of `getPacketFromJB` calls dropped. */
  function Drops(fetches: seq<Fetch>): seq<Datagram> {
    if fetches == [] then [] else fetches[0].dropped + Drops(fetches[1..])
  }

  lemma {:induction false} DropsConcat(a: seq<Fetch>, b: seq<Fetch>)
    ensures Drops(a + b) == Drops(a) + Drops(b)
  {
    if a == [] {
      assert a + b == b;
    } else {
      DropsConcat(a[1..], b);
      assert (a + b)[1..] == a[1..] + b;
      assert a[0].dropped + (Drops(a[1..]) + Drops(b)) == a[0].dropped + Drops(a[1..]) + Drops(b);
    }
  }

  lemma DropsOfOne(f: Fetch)
    ensures Drops([f]) == f.dropped
  {
    assert Drops([f]) == f.dropped + Drops([]);
  }

  /** A call that drops something leaves the queue full. */
  predicate DropsOnlyWhenFull(fetches: seq<Fetch>, capacity: nat) {
    forall i :: 0 <= i < |fetches| && fetches[i].dropped != [] ==> |fetches[i].queue| == capacity
  }

  lemma FetchShrinks(queue: seq<Datagram>, arrivals: seq<Arrival>, capacity: nat)
    ensures var f := FetchPacket(queue, arrivals, capacity);
            f.result > 0 ==> |f.queue| + |f.rest| < |queue| + |arrivals|
  {
    if queue != [] || NextResult(arrivals) > 0 {
      var filled := if queue == [] then [arrivals[0].data] else queue;
      DrainShrinks(filled[1..], if queue == [] then arrivals[1..] else arrivals, capacity);
    }
  }

  lemma {:induction false} DrainShrinks(queue: seq<Datagram>, arrivals: seq<Arrival>, capacity: nat)
    ensures |DrainQueue(queue, arrivals, capacity)| + |DrainRest(arrivals)| <= |queue| + |arrivals|
    decreases |arrivals|
  {
    if NextResult(arrivals) > 0 {
      DrainShrinks(if |queue| < capacity then queue + [arrivals[0].data] else queue, arrivals[1..], capacity);
    }
  }

  /** A packet for the player: accepted by the header checks and with a non-empty payload. */
  predicate IsFrame(setup: Setup, p: Datagram) {
    var r := Parse(p, setup.payloadType);
    r.Accepted? && r.length > 0
  }

  function FrameOf(setup: Setup, p: Datagram): Frame
    requires IsFrame(setup, p)
  {
    var r := Parse(p, setup.payloadType);
    Frame(r.timestamp, r.ssrc, DecodeFrame(setup.law, p[r.offset..]))
  }

  /** Every accepted packet, also one without payload, sets the remote timestamp and SSRC. */
  function RemoteAfter(setup: Setup, remote: Remote, p: Datagram): Remote {
    match Parse(p, setup.payloadType)
    case Rejected => remote
    case Accepted(_, _, timestamp, ssrc) => Remote(timestamp, ssrc)
  }

  /** What the verdict of the header checks means for the player and for the remote fields. */
  lemma Verdict(setup: Setup, remote: Remote, p: Datagram)
    ensures match Parse(p, setup.payloadType)
            case Rejected => !IsFrame(setup, p) && RemoteAfter(setup, remote, p) == remote
            case Accepted(offset, length, timestamp, ssrc) =>
              && 12 <= offset && offset + length == |p|
              && RemoteAfter(setup, remote, p) == Remote(timestamp, ssrc)
              && (IsFrame(setup, p) <==> length > 0)
              && (length > 0 ==> FrameOf(setup, p).samples == DecodeFrame(setup.law, p[offset..]))
  {
    hide DecodeFrame;
  }

  /** One call of `decode` up to the write to the player. Every packet that is not played costs one
      turn of the retry loop; the loop ends because queue and socket together lose one packet or more
      in each turn.
    */
  function DecodeStep(setup: Setup, queue: seq<Datagram>, arrivals: seq<Arrival>, remote: Remote): DecodeResult
    decreases |queue| + |arrivals|
  {
    var f := FetchPacket(queue, arrivals, setup.capacity);
    FetchShrinks(queue, arrivals, setup.capacity);
    if f.result <= 0 then DecodeResult(f.queue, f.rest, remote, None, [], [f])
    else
      var next := RemoteAfter(setup, remote, f.packet);
      if IsFrame(setup, f.packet) then
        DecodeResult(f.queue, f.rest, next, Some(FrameOf(setup, f.packet)), [f.packet], [f])
      else
        var r := DecodeStep(setup, f.queue, f.rest, next);
        r.(taken := [f.packet] + r.taken, fetches := [f] + r.fetches)
  }

  /** Each call goes on where the one before it ended. */
  predicate IsFetchChain(queue: seq<Datagram>, arrivals: seq<Arrival>, capacity: nat, fetches: seq<Fetch>) {
    && (fetches != [] ==> fetches[0] == FetchPacket(queue, arrivals, capacity))
    && forall i :: 1 <= i < |fetches| ==> fetches[i] == FetchPacket(fetches[i - 1].queue, fetches[i - 1].rest, capacity)
  }

  lemma FetchChainFirst(queue: seq<Datagram>, arrivals: seq<Arrival>, capacity: nat, later: seq<Fetch>)
    requires var f := FetchPacket(queue, arrivals, capacity);
             IsFetchChain(f.queue, f.rest, capacity, later)
    ensures IsFetchChain(queue, arrivals, capacity, [FetchPacket(queue, arrivals, capacity)] + later)
  {
    hide FetchPacket;
    var f := FetchPacket(queue, arrivals, capacity);
    var fetches := [f] + later;
    forall i | 1 <= i < |fetches|
      ensures fetches[i] == FetchPacket(fetches[i - 1].queue, fetches[i - 1].rest, capacity)
    {
      assert fetches[i] == later[i - 1];
      if i > 1 { assert fetches[i - 1] == later[i - 2]; }
    }
  }

  /** The remote fields after a sequence of packets are those of the last one that is accepted. */
  function RemoteAfterAll(setup: Setup, remote: Remote, packets: seq<Datagram>): Remote {
    if packets == [] then remote
    else
      var last := |packets| - 1;
      match Parse(packets[last], setup.payloadType)
      case Accepted(_, _, timestamp, ssrc) => Remote(timestamp, ssrc)
      case Rejected => RemoteAfterAll(setup, remote, packets[..last])
  }

  lemma {:induction false} RemoteAfterFirst(setup: Setup, remote: Remote, first: Datagram, rest: seq<Datagram>)
    ensures RemoteAfterAll(setup, remote, [first] + rest)
            == RemoteAfterAll(setup, RemoteAfter(setup, remote, first), rest)
  {
    hide Parse;
    var packets := [first] + rest;
    if rest == [] {
      assert packets[..0] == [];
    } else {
      var last := |rest| - 1;
      RemoteAfterFirst(setup, remote, first, rest[..last]);
      assert packets[..last + 1] == [first] + rest[..last] && packets[last + 1] == rest[last];
    }
  }

  /** `decode` is a retry loop. It calls `getPacketFromJB` until that finds nothing, and then has no frame, or until it
      hands out a packet with a frame, and that is the frame. No packet before has one. The remote fields are those of
      the last accepted packet.
    */
  predicate IsRetryLoop(setup: Setup, queue: seq<Datagram>, arrivals: seq<Arrival>, remote: Remote, r: DecodeResult) {
    && r.fetches != []
    && IsFetchChain(queue, arrivals, setup.capacity, r.fetches)
    && var n := |r.fetches| - 1;
       && r.queue == r.fetches[n].queue && r.rest == r.fetches[n].rest
       && (forall i :: 0 <= i < n ==> r.fetches[i].result > 0 && !IsFrame(setup, r.fetches[i].packet))
       && (if r.fetches[n].result <= 0 then r.frame == None && |r.taken| == n
           else IsFrame(setup, r.fetches[n].packet) && r.frame == Some(FrameOf(setup, r.fetches[n].packet))
                && |r.taken| == n + 1)
       && (forall i :: 0 <= i < |r.taken| ==> r.taken[i] == r.fetches[i].packet)
       && r.remote == RemoteAfterAll(setup, remote, r.taken)
  }

  lemma RetryLoopTurn(setup: Setup, queue: seq<Datagram>, arrivals: seq<Arrival>, remote: Remote, later: DecodeResult)
    requires var f := FetchPacket(queue, arrivals, setup.capacity);
             && f.result > 0 && !IsFrame(setup, f.packet)
             && IsRetryLoop(setup, f.queue, f.rest, RemoteAfter(setup, remote, f.packet), later)
    ensures var f := FetchPacket(queue, arrivals, setup.capacity);
            IsRetryLoop(setup, queue, arrivals, remote,
                        later.(taken := [f.packet] + later.taken, fetches := [f] + later.fetches))
  {
    hide FetchPacket, IsFrame, FrameOf, RemoteAfter, RemoteAfterAll, IsFetchChain;
    var f := FetchPacket(queue, arrivals, setup.capacity);
    FetchChainFirst(queue, arrivals, setup.capacity, later.fetches);
    RemoteAfterFirst(setup, remote, f.packet, later.taken);
  }

  lemma {:induction false} DecodeIsRetryLoop(setup: Setup, queue: seq<Datagram>, arrivals: seq<Arrival>, remote: Remote)
    ensures IsRetryLoop(setup, queue, arrivals, remote, DecodeStep(setup, queue, arrivals, remote))
    decreases |queue| + |arrivals|
  {
    hide FetchPacket, IsFrame, FrameOf, RemoteAfter, Parse;
    var f := FetchPacket(queue, arrivals, setup.capacity);
    FetchShrinks(queue, arrivals, setup.capacity);
    if f.result > 0 && !IsFrame(setup, f.packet) {
      var next := RemoteAfter(setup, remote, f.packet);
      DecodeIsRetryLoop(setup, f.queue, f.rest, next);
      RetryLoopTurn(setup, queue, arrivals, remote, DecodeStep(setup, f.queue, f.rest, next));
    } else if f.result > 0 {
      RemoteAfterFirst(setup, remote, f.packet, []);
      assert [f.packet] + [] == [f.packet];
    }
  }

  datatype Played = Played(
    queue: seq<Datagram>,
    rest: seq<Arrival>,
    remote: Remote,
    frames: seq<Frame>,
    taken: seq<Datagram>,
    fetches: seq<Fetch>,
    again: bool)

  /** What one `decode` call meets besides the network: whether gettimeofday works, and whether the player
      takes the whole frame.
    */
  datatype Turn = Turn(clockOk: bool, writeOk: bool)

  /** The receiver thread: one `decode` call for each turn. The thread ends at the first failure. */
  function Play(setup: Setup, queue: seq<Datagram>, arrivals: seq<Arrival>, remote: Remote, turns: seq<Turn>): Played
    decreases |turns|
  {
    if turns == [] then Played(queue, arrivals, remote, [], [], [], true)
    else if !turns[0].clockOk then Played(queue, arrivals, remote, [], [], [], false)
    else
      var r := DecodeStep(setup, queue, arrivals, remote);
      var frames := if r.frame.Some? then [r.frame.value] else [];
      if r.frame.Some? && !turns[0].writeOk then Played(r.queue, r.rest, r.remote, frames, r.taken, r.fetches, false)
      else
        var p := Play(setup, r.queue, r.rest, r.remote, turns[1..]);
        p.(frames := frames + p.frames, taken := r.taken + p.taken, fetches := r.fetches + p.fetches)
  }

  lemma PlayNothing(setup: Setup, queue: seq<Datagram>, arrivals: seq<Arrival>, remote: Remote)
    ensures Play(setup, queue, arrivals, remote, []) == Played(queue, arrivals, remote, [], [], [], true)
  {}

  /** The first turn of a run. */
  lemma PlayTurn(setup: Setup, queue: seq<Datagram>, arrivals: seq<Arrival>, remote: Remote, turns: seq<Turn>)
    requires turns != []
    ensures var p := Play(setup, queue, arrivals, remote, turns);
            var first := Play(setup, queue, arrivals, remote, [turns[0]]);
            if !first.again then p == first
            else
              var later := Play(setup, first.queue, first.rest, first.remote, turns[1..]);
              p == later.(frames := first.frames + later.frames, taken := first.taken + later.taken,
                          fetches := first.fetches + later.fetches)
  {
    hide DecodeStep;
    var r := DecodeStep(setup, queue, arrivals, remote);
    assert r.taken + [] == r.taken && r.fetches + [] == r.fetches;
  }

  // ----- What becomes of every packet -----

  /** The datagrams `before` are those taken, in order, followed by those still to come in `after`, with
      exactly the datagrams `dropped` left out.
    */
  ghost predicate Conserved(before: seq<Datagram>, taken: seq<Datagram>, after: seq<Datagram>, dropped: seq<Datagram>) {
    && IsSubsequence(taken + after, before)
    && multiset(before) == multiset(taken) + multiset(after) + multiset(dropped)
  }

  lemma ConservedCompose(a: seq<Datagram>, t1: seq<Datagram>, b: seq<Datagram>, d1: seq<Datagram>,
                         t2: seq<Datagram>, c: seq<Datagram>, d2: seq<Datagram>)
    requires Conserved(a, t1, b, d1) && Conserved(b, t2, c, d2)
    ensures Conserved(a, t1 + t2, c, d1 + d2)
  {
    Reflexive(t1);
    Append(t1, t1, t2 + c, b);
    assert t1 + t2 + c == t1 + (t2 + c);
    Transitive(t1 + (t2 + c), t1 + b, a);
  }

  /** Nothing dropped means nothing missing. */
  lemma ConservedWithoutDrops(before: seq<Datagram>, taken: seq<Datagram>, after: seq<Datagram>)
    requires Conserved(before, taken, after, [])
    ensures before == taken + after
  {
    assert |multiset(before)| == |before| && |multiset(taken)| == |taken| && |multiset(after)| == |after|;
    Length(taken + after, before);
  }

  lemma FetchIsConserved(queue: seq<Datagram>, arrivals: seq<Arrival>, capacity: nat)
    requires |queue| <= capacity && capacity > 0 && AllNonEmpty(queue)
    ensures var f := FetchPacket(queue, arrivals, capacity);
            && |f.queue| <= capacity && AllNonEmpty(f.queue)
            && Conserved(queue + Datagrams(arrivals), if f.result > 0 then [f.packet] else [],
                         f.queue + Datagrams(f.rest), f.dropped)
  {
    hide FetchPacket, Datagrams;
    FetchConserves(queue, arrivals, capacity);
    var f := FetchPacket(queue, arrivals, capacity);
    var d := Datagrams(f.rest);
    if f.result > 0 {
      var p := [f.packet];
      PrefixOf(p + f.queue, f.dropped);
      Reflexive(d);
      Append(p + f.queue, p + f.queue + f.dropped, d, d);
      assert p + (f.queue + d) == p + f.queue + d;
    } else {
      Reflexive(d);
      assert [] + d == d && [] + ([] + d) == d;
    }
  }

  lemma {:induction false} DecodeConserves(setup: Setup, queue: seq<Datagram>, arrivals: seq<Arrival>, remote: Remote)
    requires |queue| <= setup.capacity && setup.capacity > 0 && AllNonEmpty(queue)
    ensures var r := DecodeStep(setup, queue, arrivals, remote);
            && |r.queue| <= setup.capacity && AllNonEmpty(r.queue)
            && Conserved(queue + Datagrams(arrivals), r.taken, r.queue + Datagrams(r.rest), Drops(r.fetches))
            && DropsOnlyWhenFull(r.fetches, setup.capacity)
    decreases |queue| + |arrivals|
  {
    hide FetchPacket, Datagrams, Conserved, IsFrame, FrameOf, RemoteAfter;
    FetchIsConserved(queue, arrivals, setup.capacity);
    FetchConserves(queue, arrivals, setup.capacity);
    FetchShrinks(queue, arrivals, setup.capacity);
    var f := FetchPacket(queue, arrivals, setup.capacity);
    assert Drops([f]) == f.dropped by { DropsOfOne(f); }
    if f.result > 0 && !IsFrame(setup, f.packet) {
      var next := RemoteAfter(setup, remote, f.packet);
      DecodeConserves(setup, f.queue, f.rest, next);
      var later := DecodeStep(setup, f.queue, f.rest, next);
      ConservedCompose(queue + Datagrams(arrivals), [f.packet], f.queue + Datagrams(f.rest), f.dropped,
                       later.taken, later.queue + Datagrams(later.rest), Drops(later.fetches));
      DropsConcat([f], later.fetches);
    }
  }

  lemma NothingHappened(before: seq<Datagram>)
    ensures Conserved(before, [], before, [])
  {
    Reflexive(before);
    assert [] + before == before;
  }

  /** Conservation over a whole run of the receiver. Everything that was queued or arrives as a non-empty
      datagram is taken by `decode`, still queued, still on the socket, or was dropped by a call of
      `getPacketFromJB` that leaves the ring full; what is not dropped keeps its order and content.
    */
  lemma {:induction false} PlayConserves(setup: Setup, queue: seq<Datagram>, arrivals: seq<Arrival>, remote: Remote,
                                         turns: seq<Turn>)
    requires |queue| <= setup.capacity && setup.capacity > 0 && AllNonEmpty(queue)
    ensures var p := Play(setup, queue, arrivals, remote, turns);
            && |p.queue| <= setup.capacity && AllNonEmpty(p.queue)
            && Conserved(queue + Datagrams(arrivals), p.taken, p.queue + Datagrams(p.rest), Drops(p.fetches))
            && DropsOnlyWhenFull(p.fetches, setup.capacity)
            && (Drops(p.fetches) == [] ==> queue + Datagrams(arrivals) == p.taken + (p.queue + Datagrams(p.rest)))
    decreases |turns|
  {
    hide DecodeStep, Datagrams, Conserved;
    var p := Play(setup, queue, arrivals, remote, turns);
    if turns == [] || !turns[0].clockOk {
      NothingHappened(queue + Datagrams(arrivals));
    } else {
      var r := DecodeStep(setup, queue, arrivals, remote);
      DecodeConserves(setup, queue, arrivals, remote);
      if !(r.frame.Some? && !turns[0].writeOk) {
        PlayConserves(setup, r.queue, r.rest, r.remote, turns[1..]);
        var later := Play(setup, r.queue, r.rest, r.remote, turns[1..]);
        ConservedCompose(queue + Datagrams(arrivals), r.taken, r.queue + Datagrams(r.rest), Drops(r.fetches),
                         later.taken, later.queue + Datagrams(later.rest), Drops(later.fetches));
        DropsConcat(r.fetches, later.fetches);
      }
    }
    if Drops(p.fetches) == [] {
      ConservedWithoutDrops(queue + Datagrams(arrivals), p.taken, p.queue + Datagrams(p.rest));
    }
  }

  // ----- Progress -----

  /** A `decode` call uses something up as long as there is anything, and never adds anything. */
  lemma {:induction false} DecodeShrinks(setup: Setup, queue: seq<Datagram>, arrivals: seq<Arrival>, remote: Remote)
    requires |queue| <= setup.capacity && setup.capacity > 0 && AllNonEmpty(queue)
    ensures var r := DecodeStep(setup, queue, arrivals, remote);
            |r.queue| + |r.rest| < |queue| + |arrivals| || (r.queue == queue == [] && r.rest == arrivals == [])
    decreases |queue| + |arrivals|
  {
    hide FetchPacket, IsFrame, FrameOf, RemoteAfter, AllNonEmpty, TakesOldest, Burst;
    var f := FetchPacket(queue, arrivals, setup.capacity);
    FetchTakesTheOldest(queue, arrivals, setup.capacity);
    FetchConserves(queue, arrivals, setup.capacity);
    FetchShrinks(queue, arrivals, setup.capacity);
    if f.result > 0 && !IsFrame(setup, f.packet) {
      DecodeShrinks(setup, f.queue, f.rest, RemoteAfter(setup, remote, f.packet));
    }
  }

  predicate AllWork(turns: seq<Turn>) {
    forall i :: 0 <= i < |turns| ==> turns[i].clockOk && turns[i].writeOk
  }

  /** The receiver gets everything done. As long as clock and player work, and after at most as many turns as there are
      packets queued and outcomes to come, nothing is queued or on the socket any more, and the thread goes on.
    */
  lemma {:induction false} PlayFinishes(setup: Setup, queue: seq<Datagram>, arrivals: seq<Arrival>, remote: Remote,
                                        turns: seq<Turn>)
    requires |queue| <= setup.capacity && setup.capacity > 0 && AllNonEmpty(queue)
    requires AllWork(turns) && |turns| >= |queue| + |arrivals|
    ensures var p := Play(setup, queue, arrivals, remote, turns);
            p.again && p.queue == [] && p.rest == []
    decreases |turns|
  {
    hide DecodeStep, AllNonEmpty, Conserved, Drops, Datagrams, DropsOnlyWhenFull;
    if turns != [] {
      var r := DecodeStep(setup, queue, arrivals, remote);
      DecodeShrinks(setup, queue, arrivals, remote);
      DecodeConserves(setup, queue, arrivals, remote);
      PlayFinishes(setup, r.queue, r.rest, r.remote, turns[1..]);
    }
  }

  /** Then every frame that was queued or arrived has been played, except those in packets dropped by a call that leaves
      the ring full.
    */
  lemma PlayDeliversEverything(setup: Setup, queue: seq<Datagram>, arrivals: seq<Arrival>, remote: Remote,
                               turns: seq<Turn>)
    requires |queue| <= setup.capacity && setup.capacity > 0 && AllNonEmpty(queue)
    requires AllWork(turns) && |turns| >= |queue| + |arrivals|
    ensures var p := Play(setup, queue, arrivals, remote, turns);
            var arrived := Frames(setup, queue + Datagrams(arrivals));
            && IsSubsequence(p.frames, arrived)
            && multiset(arrived) == multiset(p.frames) + multiset(Frames(setup, Drops(p.fetches)))
            && DropsOnlyWhenFull(p.fetches, setup.capacity)
            && (Drops(p.fetches) == [] ==> p.frames == arrived)
  {
    hide Play, DropsOnlyWhenFull, Drops, IsFrame, FrameOf;
    var p := Play(setup, queue, arrivals, remote, turns);
    PlayFinishes(setup, queue, arrivals, remote, turns);
    PlayAccountsForFrames(setup, queue, arrivals, remote, turns);
    PlayConserves(setup, queue, arrivals, remote, turns);
    PlayPlaysWhatItTakes(setup, queue, arrivals, remote, turns);
    assert p.frames + [] == p.frames && p.taken + ([] + []) == p.taken;
  }

  /** How many turns have a player that takes the whole frame. */
  function Accepting(turns: seq<Turn>): nat {
    if turns == [] then 0 else (if turns[0].writeOk then 1 else 0) + Accepting(turns[1..])
  }

  /** The thread ends exactly at the first failure: it does not survive a clock that fails or a frame that is refused,
      and nothing else ends it. A turn plays one frame at most.
    */
  lemma {:induction false} PlayEndsAtFirstFailure(setup: Setup, queue: seq<Datagram>, arrivals: seq<Arrival>,
                                                  remote: Remote, turns: seq<Turn>)
    ensures var p := Play(setup, queue, arrivals, remote, turns);
            && |p.frames| <= |turns|
            && (p.again ==> (forall i :: 0 <= i < |turns| ==> turns[i].clockOk) && |p.frames| <= Accepting(turns))
            && (!p.again ==> !AllWork(turns))
    decreases |turns|
  {
    hide DecodeStep;
    if turns != [] && turns[0].clockOk {
      var r := DecodeStep(setup, queue, arrivals, remote);
      if !(r.frame.Some? && !turns[0].writeOk) {
        PlayEndsAtFirstFailure(setup, r.queue, r.rest, r.remote, turns[1..]);
        assert forall i :: 1 <= i < |turns| ==> turns[i] == turns[1..][i - 1];
        assert AllWork(turns) ==> AllWork(turns[1..]);
      }
    }
  }

  lemma {:induction false} RemoteAfterBoth(setup: Setup, remote: Remote, a: seq<Datagram>, b: seq<Datagram>)
    ensures RemoteAfterAll(setup, remote, a + b) == RemoteAfterAll(setup, RemoteAfterAll(setup, remote, a), b)
    decreases |b|
  {
    hide Parse;
    if b == [] {
      assert a + b == a;
    } else {
      var last := |b| - 1;
      RemoteAfterBoth(setup, remote, a, b[..last]);
      assert (a + b)[..|a + b| - 1] == a + b[..last] && (a + b)[|a + b| - 1] == b[last];
    }
  }

  /** After any run, the remote timestamp and SSRC are those of the last accepted packet. */
  lemma {:induction false} PlayRemote(setup: Setup, queue: seq<Datagram>, arrivals: seq<Arrival>, remote: Remote,
                                      turns: seq<Turn>)
    ensures var p := Play(setup, queue, arrivals, remote, turns);
            p.remote == RemoteAfterAll(setup, remote, p.taken)
    decreases |turns|
  {
    hide DecodeStep, IsFetchChain, IsFrame, FrameOf, Parse;
    if turns != [] && turns[0].clockOk {
      var r := DecodeStep(setup, queue, arrivals, remote);
      DecodeIsRetryLoop(setup, queue, arrivals, remote);
      hide RemoteAfterAll;
      if !(r.frame.Some? && !turns[0].writeOk) {
        PlayRemote(setup, r.queue, r.rest, r.remote, turns[1..]);
        RemoteAfterBoth(setup, remote, r.taken, Play(setup, r.queue, r.rest, r.remote, turns[1..]).taken);
      }
    }
  }

  // ----- How long one decode call waits -----

  /** What a call of `getPacketFromJB` does in time: when it is made, and for how many microseconds it blocks. */
  datatype Wait = Wait(now: Timeval, lasted: nat)

  /** The longest time a call may block: the timeout that `receive` sets if the ring is empty, else nothing. */
  function Allowed(f: Fetch, deadline: Timeval, now: Timeval): int {
    var timeout := TimeoutUntil(deadline, now);
    if f.timed && timeout.Some? then timeout.value.Micros() else 0
  }

  /** `waits` are those of the calls `fetches`: none blocks longer than allowed, and time does not run back. */
  predicate WaitsOf(fetches: seq<Fetch>, start: Timeval, deadline: Timeval, waits: seq<Wait>) {
    && |waits| == |fetches|
    && (waits != [] ==> start.Micros() <= waits[0].now.Micros())
    && (forall i :: 0 <= i < |waits| ==> waits[i].lasted <= Allowed(fetches[i], deadline, waits[i].now))
    && (forall i :: 1 <= i < |waits| ==> waits[i - 1].now.Micros() + waits[i - 1].lasted <= waits[i].now.Micros())
  }

  function TotalWait(waits: seq<Wait>): nat {
    if waits == [] then 0 else TotalWait(waits[..|waits| - 1]) + waits[|waits| - 1].lasted
  }

  lemma {:induction false} WaitsAddUp(fetches: seq<Fetch>, start: Timeval, deadline: Timeval, waits: seq<Wait>)
    requires WaitsOf(fetches, start, deadline, waits) && start.Micros() <= deadline.Micros()
    ensures TotalWait(waits) <= deadline.Micros() - start.Micros()
    ensures waits != [] ==>
              var last := waits[|waits| - 1];
              start.Micros() + TotalWait(waits) <= last.now.Micros() + last.lasted
  {
    hide TimeoutUntil;
    if waits != [] {
      var n := |waits| - 1;
      WaitsAddUp(fetches[..n], start, deadline, waits[..n]);
      TimeoutEndsAtDeadline(deadline, waits[n].now);
      assert n > 0 ==> waits[n - 1].now.Micros() + waits[n - 1].lasted <= waits[n].now.Micros();
    }
  }

  /** However many packets one `decode` call has to discard, it blocks for one interval at most in all, and
      every wait is over one interval after the call began. A wait that meets no packet ends exactly then.
    */
  lemma DecodeWaitsOneInterval(setup: Setup, queue: seq<Datagram>, arrivals: seq<Arrival>, remote: Remote,
                               sampleRate: nat, sampleCount: nat, start: Timeval, waits: seq<Wait>)
    requires 0 < sampleCount < sampleRate && start.Normal()
    requires WaitsOf(DecodeStep(setup, queue, arrivals, remote).fetches, start,
                     DeadlineFrom(start, Interval(sampleRate, sampleCount)), waits)
    ensures var fetches := DecodeStep(setup, queue, arrivals, remote).fetches;
            var interval := Interval(sampleRate, sampleCount);
            var end := start.Micros() + interval;
            && TotalWait(waits) <= interval
            && forall i :: 0 <= i < |waits| ==>
                 && (waits[i].lasted > 0 ==> waits[i].now.Micros() + waits[i].lasted <= end)
                 && (fetches[i].timed && waits[i].now.Micros() < end ==>
                       waits[i].now.Micros() + Allowed(fetches[i], DeadlineFrom(start, interval), waits[i].now) == end)
  {
    hide DecodeStep, Interval, DeadlineFrom, TimeoutUntil;
    var fetches := DecodeStep(setup, queue, arrivals, remote).fetches;
    var deadline := DeadlineFrom(start, Interval(sampleRate, sampleCount));
    IntervalBounds(sampleRate, sampleCount);
    DeadlineIsOneIntervalAhead(start, Interval(sampleRate, sampleCount));
    WaitsAddUp(fetches, start, deadline, waits);
    forall i | 0 <= i < |waits|
      ensures waits[i].lasted > 0 ==> waits[i].now.Micros() + waits[i].lasted <= deadline.Micros()
      ensures fetches[i].timed && waits[i].now.Micros() < deadline.Micros() ==>
                waits[i].now.Micros() + Allowed(fetches[i], deadline, waits[i].now) == deadline.Micros()
    {
      WaitEndsWithInterval(sampleRate, sampleCount, start, waits[i].now);
    }
  }

  // ----- What is played -----

  /** The frames among a sequence of packets. */
  function Frames(setup: Setup, packets: seq<Datagram>): seq<Frame> {
    if packets == [] then []
    else (if IsFrame(setup, packets[0]) then [FrameOf(setup, packets[0])] else []) + Frames(setup, packets[1..])
  }

  lemma {:induction false} FramesOfConcat(setup: Setup, a: seq<Datagram>, b: seq<Datagram>)
    ensures Frames(setup, a + b) == Frames(setup, a) + Frames(setup, b)
  {
    hide IsFrame, FrameOf;
    if a == [] {
      assert a + b == b;
    } else {
      FramesOfConcat(setup, a[1..], b);
      assert (a + b)[1..] == a[1..] + b && (a + b)[0] == a[0];
      var first := if IsFrame(setup, a[0]) then [FrameOf(setup, a[0])] else [];
      assert first + (Frames(setup, a[1..]) + Frames(setup, b)) == first + Frames(setup, a[1..]) + Frames(setup, b);
    }
  }

  lemma {:induction false} FramesOfSubsequence(setup: Setup, a: seq<Datagram>, b: seq<Datagram>)
    requires IsSubsequence(a, b)
    ensures IsSubsequence(Frames(setup, a), Frames(setup, b))
    decreases |b|
  {
    hide IsFrame, FrameOf;
    if a != [] {
      var first := if IsFrame(setup, b[0]) then [FrameOf(setup, b[0])] else [];
      if a[0] == b[0] && IsSubsequence(a[1..], b[1..]) {
        FramesOfSubsequence(setup, a[1..], b[1..]);
        Reflexive(first);
        Append(first, first, Frames(setup, a[1..]), Frames(setup, b[1..]));
      } else {
        FramesOfSubsequence(setup, a, b[1..]);
        Prepend(first, Frames(setup, a), Frames(setup, b[1..]));
      }
    }
  }

  lemma {:induction false} DecodePlaysWhatItTakes(setup: Setup, queue: seq<Datagram>, arrivals: seq<Arrival>,
                                                  remote: Remote)
    ensures var r := DecodeStep(setup, queue, arrivals, remote);
            Frames(setup, r.taken) == if r.frame.Some? then [r.frame.value] else []
    decreases |queue| + |arrivals|
  {
    hide FetchPacket, IsFrame, FrameOf, RemoteAfter;
    FetchShrinks(queue, arrivals, setup.capacity);
    var f := FetchPacket(queue, arrivals, setup.capacity);
    if f.result > 0 {
      if IsFrame(setup, f.packet) {
        assert Frames(setup, [f.packet]) == [FrameOf(setup, f.packet)] + Frames(setup, []);
      } else {
        var next := RemoteAfter(setup, remote, f.packet);
        DecodePlaysWhatItTakes(setup, f.queue, f.rest, next);
        var later := DecodeStep(setup, f.queue, f.rest, next);
        assert ([f.packet] + later.taken)[1..] == later.taken;
        assert [] + Frames(setup, later.taken) == Frames(setup, later.taken);
      }
    }
  }

  /** The player gets exactly the frames among the packets taken, in order. */
  lemma {:induction false} PlayPlaysWhatItTakes(setup: Setup, queue: seq<Datagram>, arrivals: seq<Arrival>,
                                                remote: Remote, turns: seq<Turn>)
    ensures var p := Play(setup, queue, arrivals, remote, turns);
            p.frames == Frames(setup, p.taken)
    decreases |turns|
  {
    hide DecodeStep, IsFrame, FrameOf;
    if turns != [] && turns[0].clockOk {
      var r := DecodeStep(setup, queue, arrivals, remote);
      DecodePlaysWhatItTakes(setup, queue, arrivals, remote);
      if !(r.frame.Some? && !turns[0].writeOk) {
        PlayPlaysWhatItTakes(setup, r.queue, r.rest, r.remote, turns[1..]);
        FramesOfConcat(setup, r.taken, Play(setup, r.queue, r.rest, r.remote, turns[1..]).taken);
      }
    }
  }

  /** Packets in another order have the same frames in another order. */
  lemma {:induction false} FramesOfPermutation(setup: Setup, a: seq<Datagram>, b: seq<Datagram>)
    requires multiset(a) == multiset(b)
    ensures multiset(Frames(setup, a)) == multiset(Frames(setup, b))
  {
    hide IsFrame, FrameOf;
    if a == [] {
      assert |multiset(b)| == |b|;
    } else {
      var i := PlaceInPermutation(a, b);
      FramesOfPermutation(setup, a[1..], b[..i] + b[i + 1..]);
      FramesOfConcat(setup, b[..i], b[i + 1..]);
      FramesOfConcat(setup, [a[0]], a[1..]);
      FramesOfConcat(setup, b[..i] + [b[i]], b[i + 1..]);
      FramesOfConcat(setup, b[..i], [b[i]]);
      assert a == [a[0]] + a[1..];
    }
  }

  /** Every frame that arrived is played, queued, still on the socket, or was in a packet dropped by a call
      that leaves the ring full, and in one of these places only. Those played and those under way are in
      the order of arrival.
    */
  ghost predicate IsAccountedFor(setup: Setup, arrived: seq<Datagram>, p: Played) {
    var underWay := Frames(setup, p.queue + Datagrams(p.rest));
    && IsSubsequence(p.frames + underWay, Frames(setup, arrived))
    && multiset(Frames(setup, arrived))
       == multiset(p.frames) + multiset(underWay) + multiset(Frames(setup, Drops(p.fetches)))
    && DropsOnlyWhenFull(p.fetches, setup.capacity)
  }

  /** So it is in every run of the receiver. */
  lemma PlayAccountsForFrames(setup: Setup, queue: seq<Datagram>, arrivals: seq<Arrival>, remote: Remote,
                              turns: seq<Turn>)
    requires |queue| <= setup.capacity && setup.capacity > 0 && AllNonEmpty(queue)
    ensures IsAccountedFor(setup, queue + Datagrams(arrivals), Play(setup, queue, arrivals, remote, turns))
  {
    hide Play, Datagrams, Frames, AllNonEmpty, DropsOnlyWhenFull, Drops;
    var p := Play(setup, queue, arrivals, remote, turns);
    var before, after, drops := queue + Datagrams(arrivals), p.queue + Datagrams(p.rest), Drops(p.fetches);
    PlayConserves(setup, queue, arrivals, remote, turns);
    PlayPlaysWhatItTakes(setup, queue, arrivals, remote, turns);
    FramesOfSubsequence(setup, p.taken + after, before);
    FramesOfConcat(setup, p.taken, after);
    FramesOfPermutation(setup, before, p.taken + after + drops);
    FramesOfConcat(setup, p.taken + after, drops);
  }
}
