/** One direction of a call: the sender's run, an in-order channel that may lose packets, and the
    receiver's run.
  */
module Call {
  import opened Bits
  import opened Wrappers
  import opened G711
  import opened MicGain
  import opened RtpPacket
  import opened RtpFormat
  import opened Sender
  import opened Schedule
  import opened Receiver
  import opened JitterBuffer
  import opened Subsequence
  import AudioSender
  import opened AudioReceiver

  /** What the far end should hear of a captured frame. */
  function Reproduction(law: Law, captured: seq<Int16>): seq<Int16> {
    DecodeFrame(law, EncodeFrame(law, AmplifyFrame(FACTOR, captured)))
  }

  /** What iterations with these lines speak, as the receiver should play it: the frame captured by each speech
      iteration, with the timestamp of that iteration.
    */
  function Spoken(c: Config, lines: seq<Line>, ticks: seq<Action>, timestamp: int): seq<Frame>
    requires |lines| == |ticks| && forall n :: 0 <= n < |ticks| ==> ticks[n].Tick?
  {
    if lines == [] then []
    else (if lines[0].Speech?
          then [Frame(U32(timestamp + c.sampleCount), c.ssrc, Reproduction(c.law, ticks[0].captured))] else [])
         + Spoken(c, lines[1..], ticks[1..], timestamp + c.sampleCount)
  }

  /** What a run speaks: what its iterations up to the first failing one do. */
  function SpokenBy(c: Config, st: SenderState, next: Line, acts: seq<Action>): seq<Frame>
    requires c.Valid() && st.Valid(c) && Follows(c, st, next)
  {
    RunFollowsScript(c, st, next, acts);
    var n := |Run(c, st, acts).log|;
    Spoken(c, Script(c, next, acts)[..n], Ticks(acts)[..n], st.timestamp)
  }

  function SetupFor(c: Config, ringSize: nat): Setup
    requires ringSize >= 2
  {
    Setup(c.law, c.codecType, ringSize - 1)
  }

  // ----- One packet -----

  /** An audio packet is a frame with the timestamp, SSRC and reproduction of what was captured. */
  lemma AudioPacketIsFrame(c: Config, setup: Setup, sequence: U16, timestamp: Word, captured: seq<Int16>)
    requires c.Valid() && |captured| == c.sampleCount
    requires setup.law == c.law && setup.payloadType == c.codecType
    ensures var p := AudioPacket(c.CodecMagic(), sequence, timestamp, c.ssrc,
                                 EncodeFrame(c.law, AmplifyFrame(FACTOR, captured)));
            && |p| == 12 + c.sampleCount
            && IsFrame(setup, p) && FrameOf(setup, p) == Frame(timestamp, c.ssrc, Reproduction(c.law, captured))
  {
    hide AudioPacket, Magic, Parse, EncodeSample, DecodeSample, Amplify;
    var payload := EncodeFrame(c.law, AmplifyFrame(FACTOR, captured));
    ParseAudioPacket(c.codecType, c.codecType, sequence, timestamp, c.ssrc, payload);
  }

  /** A DTMF packet reaches the codec exactly when both share one payload type. */
  lemma DtmfReachesCodecOnlyIfTypesCollide(c: Config, setup: Setup, sequence: U16, timestamp: Word, event: nat,
                                           duration: nat, last: bool)
    requires c.Valid() && c.dtmfType != -1 && IsShiftedEvent(event) && setup.payloadType == c.codecType
    ensures var p := DtmfPacket(c.DtmfMagic(), sequence, timestamp, c.ssrc, event, duration, last);
            |p| == 16 && (IsFrame(setup, p) <==> c.dtmfType == c.codecType)
  {
    hide AudioPacket, DtmfPacket, Magic, Parse, EventPayload, Shl;
    var e := event / 0x100_0000;
    EventOfShifted(event);
    DtmfPacketIsAudioLike(c.DtmfMagic(), sequence, timestamp, c.ssrc, e, duration, last);
    assert |EventPayload(e, duration, last)| == 4 by { EventPayloadLength(e, duration, last); }
    ParseAudioPacket(c.dtmfType, c.codecType, sequence, timestamp, c.ssrc, EventPayload(e, duration, last));
  }

  lemma EventPayloadLength(event: nat, duration: nat, last: bool)
    ensures |EventPayload(event, duration, last)| == 4
  {
    hide Or, Shl, Swap;
  }

  /** What an iteration sends is a frame for the receiver if it speaks, and nothing otherwise. */
  lemma LineOnTheWire(c: Config, setup: Setup, line: Line, tick: Action, sequence: int, timestamp: int)
    requires c.Valid() && c.dtmfType != c.codecType && tick.Tick? && line.Possible(c) && Works(c, line, tick)
    requires setup.law == c.law && setup.payloadType == c.codecType
    ensures var p := SentFor(c, line, tick, sequence, timestamp).packet;
            && |p| == (if line.Speech? then 12 + c.sampleCount else 16)
            && (IsFrame(setup, p) <==> line.Speech?)
            && (line.Speech? ==>
                  FrameOf(setup, p) == Frame(U32(timestamp), c.ssrc, Reproduction(c.law, tick.captured)))
  {
    hide AudioPacket, DtmfPacket, Magic, Shl, IsFrame, FrameOf, EncodeFrame, AmplifyFrame, Reproduction, U32, ToU16,
         EventPackets;
    match line
    case Speech =>
      AudioPacketIsFrame(c, setup, ToU16(sequence), U32(timestamp), tick.captured);
    case Tone(event, index) =>
      var duration := (index + 1) * c.sampleCount;
      ShiftedEvent(event);
      DtmfReachesCodecOnlyIfTypesCollide(c, setup, ToU16(sequence), U32(timestamp - duration), Shl(event, 24),
                                         duration, index + 1 == EventPackets(c));
  }

  // ----- Runs -----

  lemma {:induction false} FramesOfLog(c: Config, setup: Setup, lines: seq<Line>, ticks: seq<Action>, log: seq<Sent>,
                                       sequence: int, timestamp: int)
    requires c.Valid() && c.dtmfType != c.codecType && setup.law == c.law && setup.payloadType == c.codecType
    requires |lines| == |ticks| == |log| && forall n :: 0 <= n < |ticks| ==> ticks[n].Tick?
    requires IsLog(c, sequence, timestamp, lines, ticks, log)
    ensures Frames(setup, Wire(log)) == Spoken(c, lines, ticks, timestamp)
  {
    hide SentFor, Works, IsFrame, FrameOf, Reproduction, U32, ToU16;
    if log != [] {
      assert 1 * c.sampleCount == c.sampleCount;
      LineOnTheWire(c, setup, lines[0], ticks[0], sequence + 1, timestamp + c.sampleCount);
      LogRest(c, lines, ticks, log, sequence, timestamp);
      FramesOfLog(c, setup, lines[1..], ticks[1..], log[1..], sequence + 1, timestamp + c.sampleCount);
      assert Wire(log)[1..] == Wire(log[1..]);
    }
  }

  lemma LogRest(c: Config, lines: seq<Line>, ticks: seq<Action>, log: seq<Sent>, sequence: int, timestamp: int)
    requires c.Valid() && |lines| == |ticks| && log != [] && forall n :: 0 <= n < |ticks| ==> ticks[n].Tick?
    requires IsLog(c, sequence, timestamp, lines, ticks, log)
    ensures IsLog(c, sequence + 1, timestamp + c.sampleCount, lines[1..], ticks[1..], log[1..])
  {
    hide SentFor, Works;
    forall n | 0 <= n < |log| - 1
      ensures log[n + 1] == log[1..][n] && (n + 2) * c.sampleCount == c.sampleCount + (n + 1) * c.sampleCount
    {}
  }

  lemma LogPrefix(c: Config, sequence: int, timestamp: int, lines: seq<Line>, ticks: seq<Action>, log: seq<Sent>)
    requires c.Valid() && |lines| == |ticks| && forall n :: 0 <= n < |ticks| ==> ticks[n].Tick?
    requires IsLog(c, sequence, timestamp, lines, ticks, log)
    ensures IsLog(c, sequence, timestamp, lines[..|log|], ticks[..|log|], log)
  {
    hide SentFor, Works;
  }

  /** The frames among everything a run sends are what it speaks. */
  lemma WireCarriesAudio(c: Config, setup: Setup, st: SenderState, next: Line, acts: seq<Action>)
    requires c.Valid() && st.Valid(c) && Follows(c, st, next) && c.dtmfType != c.codecType
    requires setup.law == c.law && setup.payloadType == c.codecType
    ensures Frames(setup, Wire(Run(c, st, acts).log)) == SpokenBy(c, st, next, acts)
  {
    hide Run, IsLog, Works, Wire, Frames, Spoken, Follows;
    RunFollowsScript(c, st, next, acts);
    var lines, ticks, log := Script(c, next, acts), Ticks(acts), Run(c, st, acts).log;
    LogPrefix(c, st.sequence, st.timestamp, lines, ticks, log);
    FramesOfLog(c, setup, lines[..|log|], ticks[..|log|], log, st.sequence, st.timestamp);
  }

  /** The whole call. Whatever frames and events are sent, whatever the channel loses, and whenever the
      receiver looks at the socket: the frames played are, in order and with their timestamps, audio
      frames that were sent. Every frame that is not lost is played, under way, or dropped. If nothing is
      lost or dropped, the frames played followed by those still queued or on the socket are exactly the
      audio frames sent. DTMF packets never reach the codec.
    */
  lemma CallDelivers(c: Config, st: SenderState, next: Line, acts: seq<Action>, ringSize: nat, arrivals: seq<Arrival>,
                     remote: Remote, turns: seq<Turn>)
    requires c.Valid() && st.Valid(c) && Follows(c, st, next) && c.dtmfType != c.codecType && ringSize >= 2
    requires IsSubsequence(Datagrams(arrivals), Wire(Run(c, st, acts).log))
    ensures var spoken := SpokenBy(c, st, next, acts);
            var p := Play(SetupFor(c, ringSize), [], arrivals, remote, turns);
            && IsSubsequence(p.frames, spoken)
            && IsAccountedFor(SetupFor(c, ringSize), Datagrams(arrivals), p)
            && (Datagrams(arrivals) == Wire(Run(c, st, acts).log) && Drops(p.fetches) == [] ==>
                  spoken == p.frames + Frames(SetupFor(c, ringSize), p.queue + Datagrams(p.rest)))
  {
    hide Run, Play, Datagrams, Wire, Frames, SpokenBy, Follows;
    var setup := SetupFor(c, ringSize);
    var wire := Wire(Run(c, st, acts).log);
    var p := Play(setup, [], arrivals, remote, turns);
    WireCarriesAudio(c, setup, st, next, acts);
    PlayAccountsForFrames(setup, [], arrivals, remote, turns);
    PlayConserves(setup, [], arrivals, remote, turns);
    PlayPlaysWhatItTakes(setup, [], arrivals, remote, turns);
    var after := p.queue + Datagrams(p.rest);
    assert [] + Datagrams(arrivals) == Datagrams(arrivals);
    PrefixOf(p.taken, after);
    Transitive(p.taken, p.taken + after, Datagrams(arrivals));
    Transitive(p.taken, Datagrams(arrivals), wire);
    FramesOfSubsequence(setup, p.taken, wire);
    FramesOfConcat(setup, p.taken, after);
  }

  /** `samples` reproduce a captured frame: each is within the codec's bound of the gained sample, and of the
      ideally amplified one exactly if the captured sample is not 4096.
    */
  predicate Faithful(law: Law, captured: seq<Int16>, samples: seq<Int16>) {
    && |samples| == |captured|
    && forall i :: 0 <= i < |samples| ==> Carries(law, captured[i], samples[i])
  }

  /** `f` is the frame captured by an iteration as the far end hears it. */
  predicate Heard(c: Config, tick: Action, timestamp: int, f: Frame) {
    && tick.Tick?
    && f.timestamp == U32(timestamp) && f.ssrc == c.ssrc
    && Faithful(c.law, tick.captured, f.samples)
  }

  /** The n-th packet of a run carries what the n-th iteration captured, if that iteration speaks. */
  lemma CallIsAccurate(c: Config, setup: Setup, st: SenderState, next: Line, acts: seq<Action>)
    requires c.Valid() && st.Valid(c) && Follows(c, st, next) && c.dtmfType != c.codecType
    requires setup.law == c.law && setup.payloadType == c.codecType
    ensures var log := Run(c, st, acts).log;
            && |log| <= |Ticks(acts)|
            && forall n :: 0 <= n < |log| ==>
                 && (IsFrame(setup, log[n].packet) <==> Script(c, next, acts)[n].Speech?)
                 && (IsFrame(setup, log[n].packet) ==>
                       Heard(c, Ticks(acts)[n], st.timestamp + (n + 1) * c.sampleCount, FrameOf(setup, log[n].packet)))
  {
    hide Run, SentFor, Works, IsFrame, FrameOf, Follows, Heard;
    RunFollowsScript(c, st, next, acts);
    var lines, ticks, log := Script(c, next, acts), Ticks(acts), Run(c, st, acts).log;
    forall n | 0 <= n < |log|
      ensures IsFrame(setup, log[n].packet) <==> lines[n].Speech?
      ensures IsFrame(setup, log[n].packet) ==>
                Heard(c, ticks[n], st.timestamp + (n + 1) * c.sampleCount, FrameOf(setup, log[n].packet))
    {
      var timestamp := st.timestamp + (n + 1) * c.sampleCount;
      LineIsHeard(c, setup, lines[n], ticks[n], st.sequence + n + 1, timestamp);
    }
  }

  lemma LineIsHeard(c: Config, setup: Setup, line: Line, tick: Action, sequence: int, timestamp: int)
    requires c.Valid() && c.dtmfType != c.codecType && tick.Tick? && line.Possible(c) && Works(c, line, tick)
    requires setup.law == c.law && setup.payloadType == c.codecType
    ensures var p := SentFor(c, line, tick, sequence, timestamp).packet;
            && (IsFrame(setup, p) <==> line.Speech?)
            && (IsFrame(setup, p) ==> Heard(c, tick, timestamp, FrameOf(setup, p)))
  {
    hide EncodeFrame, DecodeFrame, AmplifyFrame, Carries, SentFor, Works, IsFrame, FrameOf;
    LineOnTheWire(c, setup, line, tick, sequence, timestamp);
    EndToEndAccuracy(c.law, tick.captured);
  }

  lemma {:induction false} SpokenOrigin(c: Config, lines: seq<Line>, ticks: seq<Action>, timestamp: int, f: Frame)
    returns (n: nat)
    requires |lines| == |ticks| && forall n :: 0 <= n < |ticks| ==> ticks[n].Tick?
    requires f in Spoken(c, lines, ticks, timestamp)
    ensures n < |lines| && lines[n].Speech?
    ensures f == Frame(U32(timestamp + (n + 1) * c.sampleCount), c.ssrc, Reproduction(c.law, ticks[n].captured))
  {
    hide Reproduction, U32;
    if f in Spoken(c, lines[1..], ticks[1..], timestamp + c.sampleCount) {
      n := SpokenOrigin(c, lines[1..], ticks[1..], timestamp + c.sampleCount, f);
      assert (n + 2) * c.sampleCount == c.sampleCount + (n + 1) * c.sampleCount;
      n := n + 1;
    } else {
      n := 0;
      assert (n + 1) * c.sampleCount == c.sampleCount;
    }
  }

  lemma SpokenIsHeard(c: Config, st: SenderState, next: Line, acts: seq<Action>, f: Frame) returns (n: nat)
    requires c.Valid() && st.Valid(c) && Follows(c, st, next) && f in SpokenBy(c, st, next, acts)
    ensures n < |Ticks(acts)| && Heard(c, Ticks(acts)[n], st.timestamp + (n + 1) * c.sampleCount, f)
  {
    hide Run, Spoken, EncodeFrame, DecodeFrame, AmplifyFrame, Carries, Follows, IsLog, Works;
    RunFollowsScript(c, st, next, acts);
    var ticks, sent := Ticks(acts), |Run(c, st, acts).log|;
    n := SpokenOrigin(c, Script(c, next, acts)[..sent], ticks[..sent], st.timestamp, f);
    EndToEndAccuracy(c.law, ticks[n].captured);
  }

  /** From microphone to loudspeaker over the whole call: everything the far end plays was captured by an
      iteration of the sender, and is reproduced accurately.
    */
  lemma EverythingPlayedWasSpoken(c: Config, st: SenderState, next: Line, acts: seq<Action>, ringSize: nat,
                                  arrivals: seq<Arrival>, remote: Remote, turns: seq<Turn>)
    requires c.Valid() && st.Valid(c) && Follows(c, st, next) && c.dtmfType != c.codecType && ringSize >= 2
    requires IsSubsequence(Datagrams(arrivals), Wire(Run(c, st, acts).log))
    ensures var ticks := Ticks(acts);
            forall f :: f in Play(SetupFor(c, ringSize), [], arrivals, remote, turns).frames ==>
              exists n :: 0 <= n < |ticks| && Heard(c, ticks[n], st.timestamp + (n + 1) * c.sampleCount, f)
  {
    hide Run, Play, Datagrams, Wire, Frames, SpokenBy, Follows, Heard, IsAccountedFor;
    var ticks := Ticks(acts);
    var frames := Play(SetupFor(c, ringSize), [], arrivals, remote, turns).frames;
    CallDelivers(c, st, next, acts, ringSize, arrivals, remote, turns);
    forall f | f in frames
      ensures exists n :: 0 <= n < |ticks| && Heard(c, ticks[n], st.timestamp + (n + 1) * c.sampleCount, f)
    {
      Members(frames, SpokenBy(c, st, next, acts), f);
      var n := SpokenIsHeard(c, st, next, acts, f);
    }
  }

  // ----- On the objects -----

  /** Everything a run sends meets what the receiver asks of the network: it fits a receive buffer and holds
      at most one frame. It also fits the 16-bit length of the ring if an audio packet does.
    */
  lemma WireFits(c: Config, st: SenderState, next: Line, acts: seq<Action>)
    requires c.Valid() && st.Valid(c) && Follows(c, st, next) && c.dtmfType != c.codecType
    ensures var wire := Wire(Run(c, st, acts).log);
            forall d :: d in wire ==>
              && (|d| == 16 || |d| == 12 + c.sampleCount)
              && |d| <= 2048 + 2 * c.sampleCount
              && (12 + c.sampleCount < 0x1_0000 ==> |d| < 0x1_0000)
              && (Parse(d, c.codecType).Accepted? ==> Parse(d, c.codecType).length <= c.sampleCount)
  {
    hide Run, Parse, SentFor, Works, Follows, IsFrame, FrameOf, Wire;
    RunFollowsScript(c, st, next, acts);
    var lines, ticks, log := Script(c, next, acts), Ticks(acts), Run(c, st, acts).log;
    forall d | d in Wire(log)
      ensures && (|d| == 16 || |d| == 12 + c.sampleCount)
              && |d| <= 2048 + 2 * c.sampleCount
              && (12 + c.sampleCount < 0x1_0000 ==> |d| < 0x1_0000)
              && (Parse(d, c.codecType).Accepted? ==> Parse(d, c.codecType).length <= c.sampleCount)
    {
      var setup := Setup(c.law, c.codecType, 1);
      var n := WireOrigin(log, d);
      LineOnTheWire(c, setup, lines[n], ticks[n], st.sequence + n + 1, st.timestamp + (n + 1) * c.sampleCount);
      Verdict(setup, Remote(0, 0), d);
    }
  }

  lemma {:induction false} WireOrigin(log: seq<Sent>, d: Datagram) returns (n: nat)
    requires d in Wire(log)
    ensures n < |log| && log[n].packet == d
  {
    if log[0].packet == d {
      n := 0;
    } else {
      n := WireOrigin(log[1..], d);
      n := n + 1;
    }
  }

  /** Whatever an in-order lossy channel delivers of a run is fit for the receiver's constructor. */
  lemma ArrivalsFit(c: Config, st: SenderState, next: Line, acts: seq<Action>, arrivals: seq<Arrival>)
    requires c.Valid() && st.Valid(c) && Follows(c, st, next)
    requires c.dtmfType != c.codecType && 12 + c.sampleCount < 0x1_0000
    requires IsSubsequence(Datagrams(arrivals), Wire(Run(c, st, acts).log))
    ensures forall a :: a in arrivals && a.Received? ==>
              && |a.data| <= 2048 + 2 * c.sampleCount && |a.data| < 0x1_0000
              && var r := Parse(a.data, c.codecType); r.Accepted? ==> r.length <= c.sampleCount
  {
    hide Parse, Run, Wire, Datagrams, Follows;
    WireFits(c, st, next, acts);
    forall a | a in arrivals && a.Received?
      ensures && |a.data| <= 2048 + 2 * c.sampleCount && |a.data| < 0x1_0000
              && var r := Parse(a.data, c.codecType); r.Accepted? ==> r.length <= c.sampleCount
    {
      if a.data == [] {
        Verdict(Setup(c.law, c.codecType, 1), Remote(0, 0), a.data);
      } else {
        ArrivalIsDatagram(arrivals, a);
        Members(Datagrams(arrivals), Wire(Run(c, st, acts).log), a.data);
      }
    }
  }

  lemma {:induction false} ArrivalIsDatagram(arrivals: seq<Arrival>, a: Arrival)
    requires a in arrivals && a.Received? && a.data != []
    ensures a.data in Datagrams(arrivals)
  {
    if a != arrivals[0] { ArrivalIsDatagram(arrivals[1..], a); }
  }

  lemma {:induction false} SamplesOfSubsequence(a: seq<Frame>, b: seq<Frame>)
    requires IsSubsequence(a, b)
    ensures IsSubsequence(SamplesOf(a), SamplesOf(b))
    decreases |b|
  {
    if a != [] {
      if a[0] == b[0] && IsSubsequence(a[1..], b[1..]) {
        SamplesOfSubsequence(a[1..], b[1..]);
        Reflexive([a[0].samples]);
        Append([a[0].samples], [a[0].samples], SamplesOf(a[1..]), SamplesOf(b[1..]));
      } else {
        SamplesOfSubsequence(a, b[1..]);
        Prepend([b[0].samples], SamplesOf(a), SamplesOf(b[1..]));
      }
    }
  }

  lemma {:induction false} SamplesOrigin(frames: seq<Frame>, samples: seq<Int16>) returns (f: Frame)
    requires samples in SamplesOf(frames)
    ensures f in frames && f.samples == samples
  {
    if frames[0].samples == samples {
      f := frames[0];
    } else {
      f := SamplesOrigin(frames[1..], samples);
    }
  }

  /** The sender's fields after the first `startSending`. */
  function Started(sequence: U16, timestamp: Word): SenderState {
    SenderState(sequence, timestamp, -1, 0, -1, 0)
  }

  /** The sending stream of a call, from its creation to the end of `acts`. */
  method Speak(c: Config, sequence: U16, timestamp: Word, acts: seq<Action>) returns (sender: AudioSender.Stream)
    requires c.Valid()
    ensures fresh(sender) && sender.Valid() && sender.config == c
    ensures sender.wire == Wire(Run(c, Started(sequence, timestamp), acts).log)
  {
    hide Run, Wire;
    sender := new AudioSender.Stream(c, sequence, timestamp);
    var started := sender.StartSending(true);
    assert sender.State() == Started(sequence, timestamp);
    var again := sender.RunThread(acts);
    var wire := Wire(Run(c, Started(sequence, timestamp), acts).log);
    assert [] + wire == wire;
  }

  /** The receiving stream of a call, from its creation to the end of `turns`. */
  method Listen(c: Config, ringSize: nat, arrivals: seq<Arrival>, turns: seq<Turn>)
    returns (receiver: AudioReceiver.Stream)
    requires ringSize >= 2
    requires forall a :: a in arrivals && a.Received? ==>
               && |a.data| <= 2048 + 2 * c.sampleCount && |a.data| < 0x1_0000
               && var r := Parse(a.data, c.codecType); r.Accepted? ==> r.length <= c.sampleCount
    ensures fresh(receiver) && receiver.Valid()
    ensures var p := Play(SetupFor(c, ringSize), [], arrivals, Remote(0, 0), turns);
            && receiver.played == SamplesOf(p.frames)
            && receiver.ring.Contents() == p.queue && receiver.socket.incoming == p.rest
  {
    hide Play, SamplesOf, Parse;
    var socket := new AudioReceiver.Socket(arrivals);
    receiver := new AudioReceiver.Stream(c.law, c.codecType, c.sampleCount, ringSize, socket);
    var started := receiver.StartReceiving(true);
    var again := receiver.RunThread(turns);
    var played := SamplesOf(Play(SetupFor(c, ringSize), [], arrivals, Remote(0, 0), turns).frames);
    assert [] + played == played;
  }

  /** The whole call on the objects that are updated in place, over any in-order channel that may lose
      packets. The player of the receiving stream gets, in order, sample frames that iterations of the sender captured,
      each within the bound of the codec; and it gets every frame that arrived, except those still under way and
      those in packets that were dropped by a call that leaves the ring full. Nothing is under way any more after
      as many working turns as there are arrivals.
    */
  method Talk(c: Config, sequence: U16, timestamp: Word, acts: seq<Action>, ringSize: nat, arrivals: seq<Arrival>,
              turns: seq<Turn>) returns (sender: AudioSender.Stream, receiver: AudioReceiver.Stream)
    requires c.Valid() && c.dtmfType != c.codecType && 12 + c.sampleCount < 0x1_0000 && ringSize >= 2
    requires IsSubsequence(Datagrams(arrivals), Wire(Run(c, Started(sequence, timestamp), acts).log))
    ensures receiver.Valid()
    ensures var st := Started(sequence, timestamp);
            var setup := SetupFor(c, ringSize);
            var p := Play(setup, [], arrivals, Remote(0, 0), turns);
            var underWay := receiver.ring.Contents() + Datagrams(receiver.socket.incoming);
            var spoken := SamplesOf(SpokenBy(c, st, Speech, acts));
            && sender.wire == Wire(Run(c, st, acts).log)
            && IsSubsequence(receiver.played, spoken)
            && (forall s :: s in receiver.played ==> WasCaptured(c, acts, s))
            && multiset(SamplesOf(Frames(setup, Datagrams(arrivals))))
               == multiset(receiver.played) + multiset(SamplesOf(Frames(setup, underWay)))
                  + multiset(SamplesOf(Frames(setup, Drops(p.fetches))))
            && IsSubsequence(receiver.played + SamplesOf(Frames(setup, underWay)),
                             SamplesOf(Frames(setup, Datagrams(arrivals))))
            && DropsOnlyWhenFull(p.fetches, setup.capacity)
            && (Datagrams(arrivals) == sender.wire && Drops(p.fetches) == [] ==>
                  spoken == receiver.played + SamplesOf(Frames(setup, underWay)))
            && (AllWork(turns) && |turns| >= |arrivals| ==> underWay == [])
  {
    hide Run, Play, Wire, Datagrams, SpokenBy, Frames, SamplesOf, WasCaptured, Parse, Drops, DropsOnlyWhenFull, AllWork;
    ghost var st := Started(sequence, timestamp);
    ArrivalsFit(c, st, Speech, acts, arrivals);
    sender := Speak(c, sequence, timestamp, acts);
    receiver := Listen(c, ringSize, arrivals, turns);
    SamplesDelivered(c, st, Speech, acts, ringSize, arrivals, turns);
  }

  /** `samples` reproduce what some iteration captured. */
  predicate WasCaptured(c: Config, acts: seq<Action>, samples: seq<Int16>) {
    exists n :: 0 <= n < |Ticks(acts)| && Faithful(c.law, Ticks(acts)[n].captured, samples)
  }

  /** `IsAccountedFor` for the samples alone. */
  ghost predicate SamplesAreAccountedFor(setup: Setup, arrived: seq<Datagram>, p: Played) {
    var underWay := SamplesOf(Frames(setup, p.queue + Datagrams(p.rest)));
    var arrivedSamples := SamplesOf(Frames(setup, arrived));
    && IsSubsequence(SamplesOf(p.frames) + underWay, arrivedSamples)
    && multiset(arrivedSamples)
       == multiset(SamplesOf(p.frames)) + multiset(underWay) + multiset(SamplesOf(Frames(setup, Drops(p.fetches))))
    && DropsOnlyWhenFull(p.fetches, setup.capacity)
  }

  lemma FramesToSamples(setup: Setup, arrived: seq<Datagram>, p: Played)
    requires IsAccountedFor(setup, arrived, p)
    ensures SamplesAreAccountedFor(setup, arrived, p)
  {
    hide Frames, Datagrams, SamplesOf, Drops, DropsOnlyWhenFull;
    var underWay, dropped := Frames(setup, p.queue + Datagrams(p.rest)), Frames(setup, Drops(p.fetches));
    SamplesOfSubsequence(p.frames + underWay, Frames(setup, arrived));
    SamplesOfConcat(p.frames, underWay);
    SamplesOfPermutation(Frames(setup, arrived), p.frames + underWay + dropped);
    SamplesOfConcat(p.frames + underWay, dropped);
  }

  /** What `CallDelivers` and `EverythingPlayedWasSpoken` say of the samples. */
  lemma SamplesDelivered(c: Config, st: SenderState, next: Line, acts: seq<Action>, ringSize: nat,
                         arrivals: seq<Arrival>, turns: seq<Turn>)
    requires c.Valid() && st.Valid(c) && Follows(c, st, next) && c.dtmfType != c.codecType && ringSize >= 2
    requires IsSubsequence(Datagrams(arrivals), Wire(Run(c, st, acts).log))
    ensures var setup := SetupFor(c, ringSize);
            var p := Play(setup, [], arrivals, Remote(0, 0), turns);
            var played, spoken := SamplesOf(p.frames), SamplesOf(SpokenBy(c, st, next, acts));
            && IsSubsequence(played, spoken)
            && (forall s :: s in played ==> WasCaptured(c, acts, s))
            && SamplesAreAccountedFor(setup, Datagrams(arrivals), p)
            && (Datagrams(arrivals) == Wire(Run(c, st, acts).log) && Drops(p.fetches) == [] ==>
                  spoken == played + SamplesOf(Frames(setup, p.queue + Datagrams(p.rest))))
            && (AllWork(turns) && |turns| >= |arrivals| ==> p.queue + Datagrams(p.rest) == [])
  {
    hide Run, Play, Wire, Datagrams, SpokenBy, Frames, SamplesOf, Faithful, Drops, DropsOnlyWhenFull, IsAccountedFor,
         SamplesAreAccountedFor, AllWork, Follows;
    var setup := SetupFor(c, ringSize);
    var p := Play(setup, [], arrivals, Remote(0, 0), turns);
    CallDelivers(c, st, next, acts, ringSize, arrivals, Remote(0, 0), turns);
    SamplesOfSubsequence(p.frames, SpokenBy(c, st, next, acts));
    FramesToSamples(setup, Datagrams(arrivals), p);
    SamplesOfConcat(p.frames, Frames(setup, p.queue + Datagrams(p.rest)));
    EverythingPlayedWasSpoken(c, st, next, acts, ringSize, arrivals, Remote(0, 0), turns);
    forall s | s in SamplesOf(p.frames)
      ensures WasCaptured(c, acts, s)
    {
      var f := SamplesOrigin(p.frames, s);
      var n :| 0 <= n < |Ticks(acts)| && Heard(c, Ticks(acts)[n], st.timestamp + (n + 1) * c.sampleCount, f);
      assert Faithful(c.law, Ticks(acts)[n].captured, s);
    }
    if AllWork(turns) && |turns| >= |arrivals| {
      PlayFinishes(setup, [], arrivals, Remote(0, 0), turns);
      assert Datagrams([]) == [] by { NoDatagrams(); }
    }
  }

  lemma NoDatagrams()
    ensures Datagrams([]) == []
  {}
}
