/** The sending half of AudioStream: `set`, `startSending`, `sendDtmf` and `encode`, as a step function
    on the sender's fields. `AudioSender` runs the same steps on an object.
  */
module Sender {
  import opened Bits
  import opened Wrappers
  import opened G711
  import opened MicGain
  import opened RtpPacket
  import opened RtpFormat
  import opened Deadline
  import opened Pacing

  datatype Config = Config(
    law: Law,
    sampleRate: nat,
    sampleCount: nat,
    codecType: PayloadType,
    dtmfType: int,
    ssrc: Word)
  {
    /** What `set` has checked; -1 disables DTMF. */
    predicate Valid() {
      0 < sampleCount < sampleRate && -1 <= dtmfType < 0x80
    }

    function CodecMagic(): Word {
      Magic(codecType)
    }

    function DtmfMagic(): Word
      requires Valid()
    {
      if dtmfType == -1 then U32(-1) else Magic(dtmfType)
    }

    function FrameInterval(): nat
      requires Valid()
    {
      Interval(sampleRate, sampleCount)
    }
  }

  /** `set`, given whether recorder and player accept the format. */
  function Configure(codecName: string, sampleRate: int, sampleCount: int, codecType: PayloadType, dtmfType: int,
                     ssrc: Word, recordOk: bool, trackOk: bool): (c: Option<Config>)
    requires -1 <= dtmfType < 0x80
    ensures c.Some? <==> 0 < sampleCount < sampleRate && codecName in ["PCMU", "PCMA"] && recordOk && trackOk
    ensures c.Some? ==>
              && c.value.Valid()
              && c.value == Config(c.value.law, sampleRate, sampleCount, codecType, dtmfType, ssrc)
              && (c.value.law == Ulaw <==> codecName == "PCMU")
  {
    if sampleRate <= 0 || sampleCount <= 0 || sampleRate <= sampleCount then None
    else if codecName != "PCMU" && codecName != "PCMA" then None
    else if !recordOk || !trackOk then None
    else Some(Config(if codecName == "PCMU" then Ulaw else Alaw, sampleRate, sampleCount, codecType, dtmfType, ssrc))
  }

  /** An event number in the top byte of a word, as `mDtmfEvent` holds it. */
  predicate IsShiftedEvent(x: int) {
    0 <= x < 0x1000_0000 && x % 0x100_0000 == 0
  }

  datatype SenderState = SenderState(
    sequence: U16,
    timestamp: Word,
    dtmfEvent: int,
    dtmfDuration: int,
    nextEvent: int,
    timer: int)
  {
    predicate Valid(c: Config) {
      && -1 <= nextEvent <= 15
      && (dtmfEvent == -1 || (IsShiftedEvent(dtmfEvent) && dtmfDuration >= 0))
      && (c.dtmfType == -1 ==> nextEvent == -1 && dtmfEvent == -1)
    }
  }

  /** What one iteration of the sender thread meets: the samples the recorder returned and the clock
      reading, None if gettimeofday fails.
    */
  datatype Action = Post(event: int) | Tick(captured: seq<Int16>, clock: Option<int>)

  /** What one iteration put on the wire. */
  datatype Sent =
    | Audio(packet: seq<Byte>, captured: seq<Int16>, clock: int)
    | Dtmf(packet: seq<Byte>, event: nat, duration: nat, last: bool)

  datatype StepResult = StepResult(state: SenderState, sent: Option<Sent>, ok: bool)

  /** One call of `encode`. */
  function EncodeStep(c: Config, st: SenderState, captured: seq<Int16>, clock: Option<int>): (r: StepResult)
    requires c.Valid() && st.Valid(c)
    ensures r.state.Valid(c)
    ensures r.ok <==> r.sent.Some?
  {
    if |captured| != c.sampleCount then StepResult(st, None, false)
    else
      var sequence := ToU16(st.sequence + 1);
      var timestamp := U32(st.timestamp + c.sampleCount);
      ShiftedEvent(st.nextEvent);
      var event := if st.nextEvent != -1 then Shl(st.nextEvent, 24) else st.dtmfEvent;
      var duration := if st.nextEvent != -1 then 0 else st.dtmfDuration;
      if event != -1 then
        var longer := duration + c.sampleCount;
        var last := longer * 5 >= c.sampleRate;
        var packet := DtmfPacket(c.DtmfMagic(), sequence, U32(timestamp - longer), c.ssrc, event, longer, last);
        StepResult(SenderState(sequence, timestamp, if last then -1 else event, longer, -1, st.timer),
                   Some(Dtmf(packet, event, longer, last)), true)
      else if clock.None? then
        StepResult(st.(sequence := sequence, timestamp := timestamp, nextEvent := -1), None, false)
      else
        var payload := EncodeFrame(c.law, AmplifyFrame(FACTOR, captured));
        var packet := AudioPacket(c.CodecMagic(), sequence, timestamp, c.ssrc, payload);
        var timer := NextTimer(st.timer, clock.value, c.FrameInterval());
        StepResult(st.(sequence := sequence, timestamp := timestamp, nextEvent := -1, timer := timer),
                   Some(Audio(packet, captured, clock.value)), true)
  }

  lemma ShiftedEvent(event: int)
    ensures 0 <= event <= 15 ==> IsShiftedEvent(Shl(event, 24))
  {
    LargePowers();
  }

  /** A `sendDtmf` that reaches the mailbox. */
  function PostStep(c: Config, st: SenderState, event: int): (r: SenderState)
    requires st.Valid(c)
    ensures r.Valid(c) && r == st.(nextEvent := r.nextEvent)
  {
    if 0 <= event <= 15 && c.dtmfType != -1 then st.(nextEvent := event) else st
  }

  /** `startSending` on a stopped stream. */
  function StartStep(st: SenderState): SenderState {
    st.(timer := 0, nextEvent := -1, dtmfEvent := -1)
  }

  // ----- Runs -----

  datatype Trace = Trace(final: SenderState, log: seq<Sent>, ok: bool)

  /** One life of the sender thread: it ends with the first failing iteration. */
  function Run(c: Config, st: SenderState, acts: seq<Action>): (tr: Trace)
    requires c.Valid() && st.Valid(c)
    ensures tr.final.Valid(c)
    decreases |acts|
  {
    if acts == [] then Trace(st, [], true)
    else match acts[0]
      case Post(event) => Run(c, PostStep(c, st, event), acts[1..])
      case Tick(captured, clock) =>
        var r := EncodeStep(c, st, captured, clock);
        if !r.ok then Trace(r.state, [], false)
        else
          var rest := Run(c, r.state, acts[1..]);
          Trace(rest.final, [r.sent.value] + rest.log, rest.ok)
  }

  lemma RunTick(c: Config, st: SenderState, acts: seq<Action>)
    requires c.Valid() && st.Valid(c) && acts != [] && acts[0].Tick?
    ensures var r := EncodeStep(c, st, acts[0].captured, acts[0].clock);
            var rest := Run(c, r.state, acts[1..]);
            Run(c, st, acts) == if r.ok then Trace(rest.final, [r.sent.value] + rest.log, rest.ok)
                                else Trace(r.state, [], false)
  {
    hide EncodeStep;
  }

  /** The datagrams of a log, oldest first. */
  function Wire(log: seq<Sent>): seq<seq<Byte>> {
    if log == [] then [] else [log[0].packet] + Wire(log[1..])
  }

  // ----- Numbering -----

  /** The fields of a packet as RFC 3550 reads them. */
  function TypeOf(p: seq<Byte>): PayloadType
    requires |p| >= 12
  {
    p[1] % 128
  }

  function SequenceOf(p: seq<Byte>): U16
    requires |p| >= 12
  {
    Half(p[2], p[3])
  }

  function TimestampOf(p: seq<Byte>): Word
    requires |p| >= 12
  {
    FromBigEndian(p[4..8])
  }

  function SsrcOf(p: seq<Byte>): Word
    requires |p| >= 12
  {
    Load(p[8..12])
  }

  /** The packet is the RTP packet with these fields and nothing optional. */
  predicate IsPlain(p: seq<Byte>, payloadType: PayloadType, sequence: U16, timestamp: Word, ssrc: Word) {
    && |p| >= 12
    && var r := Plain(payloadType, sequence, timestamp, ssrc, p[12..]);
       r.WellFormed() && p == r.Serialize()
  }

  /** `sent` is numbered as the packet of the frame with this sequence number and timestamp: audio
      carries the frame's timestamp, and an event started `duration` before it.
    */
  predicate Numbered(c: Config, sent: Sent, sequence: int, timestamp: int) {
    var p := sent.packet;
    && |p| >= 12
    && SequenceOf(p) == ToU16(sequence) && SsrcOf(p) == c.ssrc
    && match sent
       case Audio(_, captured, _) =>
         TypeOf(p) == c.codecType && TimestampOf(p) == U32(timestamp) && |captured| == c.sampleCount
       case Dtmf(_, _, duration, _) =>
         TypeOf(p) == c.dtmfType && U32(TimestampOf(p) + duration) == U32(timestamp)
  }

  lemma PacketFields(payloadType: PayloadType, sequence: U16, timestamp: Word, ssrc: Word, payload: seq<Byte>)
    ensures var p := AudioPacket(Magic(payloadType), sequence, timestamp, ssrc, payload);
            && |p| == 12 + |payload|
            && TypeOf(p) == payloadType && SequenceOf(p) == sequence && TimestampOf(p) == timestamp && SsrcOf(p) == ssrc
            && IsPlain(p, payloadType, sequence, timestamp, ssrc)
  {
    hide Octet, BigEndian, FromBigEndian, Store, Load, AudioPacket, Magic, Half;
    AudioPacketIsRtp(payloadType, sequence, timestamp, ssrc, payload);
    PlainOctets(payloadType, sequence, timestamp, ssrc, payload);
    var p := AudioPacket(Magic(payloadType), sequence, timestamp, ssrc, payload);
    assert p[4..8] == BigEndian(timestamp) && p[8..12] == Store(ssrc) && p[12..] == payload;
    ByteOrder(timestamp);
    ByteOrder(ssrc);
    HalfOfOctets(sequence);
  }

  lemma EventOfShifted(event: nat)
    requires IsShiftedEvent(event)
    ensures event / 0x100_0000 < 16 && Shl(event / 0x100_0000, 24) == event
  {
    LargePowers();
  }

  lemma DtmfFields(payloadType: PayloadType, sequence: U16, timestamp: Word, ssrc: Word, event: nat, duration: nat,
                   last: bool)
    requires IsShiftedEvent(event)
    ensures var p := DtmfPacket(Magic(payloadType), sequence, timestamp, ssrc, event, duration, last);
            && |p| == 16
            && TypeOf(p) == payloadType && SequenceOf(p) == sequence && TimestampOf(p) == timestamp && SsrcOf(p) == ssrc
            && IsPlain(p, payloadType, sequence, timestamp, ssrc)
            && p[12..] == EventPayload(event / 0x100_0000, duration, last)
  {
    hide AudioPacket, DtmfPacket, TypeOf, SequenceOf, TimestampOf, SsrcOf, IsPlain, Magic, Shl, Store, Swap;
    var e := event / 0x100_0000;
    EventOfShifted(event);
    DtmfPacketIsAudioLike(Magic(payloadType), sequence, timestamp, ssrc, e, duration, last);
    PacketFields(payloadType, sequence, timestamp, ssrc, EventPayload(e, duration, last));
    ParseAudioPacket(payloadType, payloadType, sequence, timestamp, ssrc, EventPayload(e, duration, last));
  }

  lemma StepIsNumbered(c: Config, st: SenderState, captured: seq<Int16>, clock: Option<int>)
    requires c.Valid() && st.Valid(c) && EncodeStep(c, st, captured, clock).ok
    ensures var r := EncodeStep(c, st, captured, clock);
            && r.state.sequence == ToU16(st.sequence + 1)
            && r.state.timestamp == U32(st.timestamp + c.sampleCount)
            && Numbered(c, r.sent.value, st.sequence + 1, st.timestamp + c.sampleCount)
  {
    hide AudioPacket, DtmfPacket, EventPayload, TypeOf, SequenceOf, TimestampOf, SsrcOf, IsPlain, Magic, NextTimer, Shl,
         U32, ToU16, EncodeFrame, AmplifyFrame;
    var r := EncodeStep(c, st, captured, clock);
    ShiftedEvent(st.nextEvent);
    match r.sent.value
    case Audio(_, _, _) =>
      PacketFields(c.codecType, r.state.sequence, r.state.timestamp, c.ssrc,
                   EncodeFrame(c.law, AmplifyFrame(FACTOR, captured)));
    case Dtmf(_, event, duration, last) =>
      DtmfFields(c.dtmfType, r.state.sequence, U32(r.state.timestamp - duration), c.ssrc, event, duration, last);
      SubtractThenAdd(r.state.timestamp, duration);
  }

  lemma SubtractThenAdd(t: Word, d: nat)
    ensures U32(U32(t - d) + d) == t
  {
    var q := (t - d) / 0x1_0000_0000;
    ModUnique(U32(t - d) + d, 0x1_0000_0000, -q, t);
  }

  /** What an iteration that fails leaves: a short read changes nothing, and any other failure uses up the numbers of
      its frame and empties the mailbox.
    */
  lemma FailedStep(c: Config, st: SenderState, captured: seq<Int16>, clock: Option<int>)
    requires c.Valid() && st.Valid(c) && !EncodeStep(c, st, captured, clock).ok
    ensures var next := EncodeStep(c, st, captured, clock).state;
            if |captured| != c.sampleCount then next == st
            else next == st.(sequence := (st.sequence + 1) % 0x1_0000,
                             timestamp := (st.timestamp + c.sampleCount) % 0x1_0000_0000, nextEvent := -1)
  {
    hide AudioPacket, DtmfPacket, Magic, NextTimer, Shl, EncodeFrame, AmplifyFrame;
  }

  lemma NumberedLater(c: Config, sent: Sent, sequence: int, timestamp: int, n: nat, t: nat)
    requires Numbered(c, sent, ToU16(sequence) + n, U32(timestamp) + t)
    ensures Numbered(c, sent, sequence + n, timestamp + t)
  {
    hide TypeOf, SequenceOf, TimestampOf, SsrcOf;
    WrapTwice(sequence, n);
    WrapTwice32(timestamp, t);
  }

  lemma WrapTwice(a: int, n: nat)
    ensures ToU16(ToU16(a) + n) == ToU16(a + n)
  {}

  lemma WrapTwice32(a: int, n: nat)
    ensures U32(U32(a) + n) == U32(a + n)
  {}

  /** Sequence numbers and timestamps over a whole run, section 5.1 of RFC 3550. The n-th packet, audio
      or DTMF, carries the n-th sequence number after the start; an audio packet carries its frame's
      timestamp, also after DTMF events; a DTMF packet's timestamp lies its duration before that.
    */
  lemma {:induction false} RunIsNumbered(c: Config, st: SenderState, acts: seq<Action>)
    requires c.Valid() && st.Valid(c)
    ensures var tr := Run(c, st, acts);
            && (forall n :: 0 <= n < |tr.log| ==>
                  Numbered(c, tr.log[n], st.sequence + n + 1, st.timestamp + (n + 1) * c.sampleCount))
            && (tr.ok ==> tr.final.sequence == ToU16(st.sequence + |tr.log|)
                          && tr.final.timestamp == U32(st.timestamp + |tr.log| * c.sampleCount))
    decreases |acts|
  {
    hide Numbered, EncodeStep, PostStep, ToU16, U32;
    if acts == [] {
      NoWrap(st);
    } else {
      match acts[0] {
        case Post(event) =>
          RunIsNumbered(c, PostStep(c, st, event), acts[1..]);
        case Tick(captured, clock) =>
          var r := EncodeStep(c, st, captured, clock);
          RunTick(c, st, acts);
          hide Run;
          if r.ok {
            StepIsNumbered(c, st, captured, clock);
            RunIsNumbered(c, r.state, acts[1..]);
            var rest := Run(c, r.state, acts[1..]);
            LogIsNumbered(c, st, r.sent.value, rest.log);
            NumbersAfter(c, st, |rest.log|);
          }
      }
    }
  }

  lemma NumbersAfter(c: Config, st: SenderState, n: nat)
    ensures ToU16(ToU16(st.sequence + 1) + n) == ToU16(st.sequence + (1 + n))
    ensures U32(U32(st.timestamp + c.sampleCount) + n * c.sampleCount) == U32(st.timestamp + (1 + n) * c.sampleCount)
  {
    WrapTwice(st.sequence + 1, n);
    WrapTwice32(st.timestamp + c.sampleCount, n * c.sampleCount);
    assert (1 + n) * c.sampleCount == c.sampleCount + n * c.sampleCount;
  }

  /** A log whose rest is numbered from the second packet on is numbered from the first. */
  lemma LogIsNumbered(c: Config, st: SenderState, first: Sent, rest: seq<Sent>)
    requires Numbered(c, first, st.sequence + 1, st.timestamp + c.sampleCount)
    requires forall n :: 0 <= n < |rest| ==>
               Numbered(c, rest[n], ToU16(st.sequence + 1) + n + 1,
                        U32(st.timestamp + c.sampleCount) + (n + 1) * c.sampleCount)
    ensures var log := [first] + rest;
            forall n :: 0 <= n < |log| ==>
              Numbered(c, log[n], st.sequence + n + 1, st.timestamp + (n + 1) * c.sampleCount)
  {
    hide Numbered, ToU16, U32;
    var log := [first] + rest;
    forall n | 0 <= n < |log|
      ensures Numbered(c, log[n], st.sequence + n + 1, st.timestamp + (n + 1) * c.sampleCount)
    {
      if n > 0 {
        assert log[n] == rest[n - 1];
        assert (n + 1) * c.sampleCount == c.sampleCount + n * c.sampleCount;
        NumberedLater(c, log[n], st.sequence + 1, st.timestamp + c.sampleCount, n, n * c.sampleCount);
      }
    }
  }

  lemma NoWrap(st: SenderState)
    ensures ToU16(st.sequence) == st.sequence && U32(st.timestamp) == st.timestamp
  {}

  // ----- One DTMF event -----

  /** The number of packets that make an event about 200 milliseconds long. */
  function EventPackets(c: Config): (k: nat)
    requires c.Valid()
  {
    (c.sampleRate + 5 * c.sampleCount - 1) / (5 * c.sampleCount)
  }

  /** It is the least number of frames that lasts at least a fifth of a second. */
  lemma EventPacketsIsCeiling(c: Config, n: nat)
    requires c.Valid()
    ensures n * c.sampleCount * 5 >= c.sampleRate <==> n >= EventPackets(c)
  {
    var w := 5 * c.sampleCount;
    var x := c.sampleRate + w - 1;
    var k := x / w;
    assert x == w * k + x % w;
    assert n * c.sampleCount * 5 == w * n;
    assert w * n - w * k == w * (n - k);
    if n < k { assert w * (k - n) == w * k - w * n; MulAtLeast(w, k - n); }
    if n > k { MulAtLeast(w, n - k); }
  }

  /** Frames of the right length and no newer event. */
  predicate PlainTicks(c: Config, acts: seq<Action>) {
    forall i :: 0 <= i < |acts| ==> acts[i].Tick? && |acts[i].captured| == c.sampleCount
  }

  /** Event `e` has just been posted (i = 0), or `i` of its packets have been sent. */
  predicate InEvent(c: Config, st: SenderState, e: nat, i: nat) {
    e < 16 && if i == 0 then st.nextEvent == e
              else st.nextEvent == -1 && st.dtmfEvent == Shl(e, 24) && st.dtmfDuration == i * c.sampleCount
  }

  /** The i-th packet of event `e` (counting from 0) when the event starts at `start`. */
  function EventPacket(c: Config, e: nat, i: nat, sequence: int, start: Word): Sent
    requires c.Valid()
  {
    var duration := (i + 1) * c.sampleCount;
    var last := i + 1 == EventPackets(c);
    Dtmf(DtmfPacket(c.DtmfMagic(), ToU16(sequence), start, c.ssrc, Shl(e, 24), duration, last), Shl(e, 24),
         duration, last)
  }

  lemma EventStep(c: Config, st: SenderState, e: nat, i: nat, captured: seq<Int16>, clock: Option<int>)
    requires c.Valid() && st.Valid(c) && InEvent(c, st, e, i) && i < EventPackets(c) && |captured| == c.sampleCount
    ensures var r := EncodeStep(c, st, captured, clock);
            && r.ok
            && r.sent.value == EventPacket(c, e, i, st.sequence + 1, U32(st.timestamp - i * c.sampleCount))
            && r.state.sequence == ToU16(st.sequence + 1)
            && r.state.timestamp == U32(st.timestamp + c.sampleCount)
            && r.state.timer == st.timer
            && (if i + 1 < EventPackets(c) then InEvent(c, r.state, e, i + 1)
                else r.state.dtmfEvent == -1 && r.state.nextEvent == -1)
  {
    ShiftedEvent(e);
    hide Shl, DtmfPacket, EventPackets, EncodeFrame, AmplifyFrame, AudioPacket, Magic;
    EventPacketsIsCeiling(c, i + 1);
    assert (i + 1) * c.sampleCount == i * c.sampleCount + c.sampleCount;
    StartOfEvent(st.timestamp, c.sampleCount, i * c.sampleCount);
  }

  lemma StartOfEvent(t: Word, s: nat, d: nat)
    ensures U32(U32(t + s) - (d + s)) == U32(t - d)
  {
    var q := (t + s) / 0x1_0000_0000;
    assert t + s == 0x1_0000_0000 * q + U32(t + s);
    var q' := (t - d) / 0x1_0000_0000;
    ModUnique(U32(t + s) - (d + s), 0x1_0000_0000, q' - q, U32(t - d));
  }

  /** Without a newer event, the packets of an event follow each other: one start timestamp, durations
      S, 2S, 3S and so on, and the event is over exactly after ceil(sampleRate / (5 * sampleCount))
      packets. `mTimer` stays as it was.
    */
  lemma {:induction false} EventRun(c: Config, st: SenderState, acts: seq<Action>, e: nat, i: nat)
    requires c.Valid() && st.Valid(c) && InEvent(c, st, e, i)
    requires PlainTicks(c, acts) && i < EventPackets(c) && i + |acts| <= EventPackets(c)
    ensures var tr := Run(c, st, acts);
            && tr.ok && |tr.log| == |acts| && tr.final.timer == st.timer
            && (forall j :: 0 <= j < |acts| ==>
                  tr.log[j] == EventPacket(c, e, i + j, st.sequence + 1 + j, U32(st.timestamp - i * c.sampleCount)))
            && (if i + |acts| < EventPackets(c) then InEvent(c, tr.final, e, i + |acts|)
                else tr.final.dtmfEvent == -1 && tr.final.nextEvent == -1)
    decreases |acts|
  {
    hide EventPackets, EncodeStep, InEvent, EventPacket, ToU16, U32;
    if acts != [] {
      var Tick(captured, clock) := acts[0];
      var r := EncodeStep(c, st, captured, clock);
      EventStep(c, st, e, i, captured, clock);
      RunTick(c, st, acts);
      var tr := Run(c, st, acts);
      var rest := Run(c, r.state, acts[1..]);
      var start := U32(st.timestamp - i * c.sampleCount);
      assert tr.log[0] == EventPacket(c, e, i, st.sequence + 1, start);
      if i + 1 < EventPackets(c) {
        hide Run;
        EventRun(c, r.state, acts[1..], e, i + 1);
        StartStays(st.timestamp, c.sampleCount, i);
        forall j | 1 <= j < |acts|
          ensures tr.log[j] == EventPacket(c, e, i + j, st.sequence + 1 + j, start)
        {
          assert tr.log[j] == rest.log[j - 1];
          assert rest.log[j - 1] == EventPacket(c, e, i + 1 + (j - 1), r.state.sequence + 1 + (j - 1), start);
          SameEventPacket(c, e, i + j, st.sequence + 1, j, start);
        }
      } else {
        assert acts[1..] == [];
      }
    }
  }

  lemma SameEventPacket(c: Config, e: nat, i: nat, sequence: int, j: nat, start: Word)
    requires c.Valid()
    ensures EventPacket(c, e, i, ToU16(sequence) + j, start) == EventPacket(c, e, i, sequence + j, start)
  {
    hide EventPackets, DtmfPacket, Shl;
    WrapTwice(sequence, j);
  }

  lemma StartStays(t: Word, s: nat, i: nat)
    ensures U32(U32(t + s) - (i + 1) * s) == U32(t - i * s)
  {
    assert (i + 1) * s == i * s + s;
    StartOfEvent(t, s, i * s);
  }

  lemma {:induction false} RunAppend(c: Config, st: SenderState, a: seq<Action>, b: seq<Action>)
    requires c.Valid() && st.Valid(c)
    ensures var first := Run(c, st, a);
            var second := Run(c, first.final, b);
            Run(c, st, a + b) == if first.ok then Trace(second.final, first.log + second.log, second.ok) else first
    decreases |a|
  {
    hide EncodeStep, PostStep;
    if a == [] {
      assert a + b == b;
    } else {
      assert (a + b)[1..] == a[1..] + b;
      match a[0] {
        case Post(event) => RunAppend(c, PostStep(c, st, event), a[1..], b);
        case Tick(captured, clock) => RunAppend(c, EncodeStep(c, st, captured, clock).state, a[1..], b);
      }
    }
  }

  /** An event that is not replaced emits exactly ceil(sampleRate / (5 * sampleCount)) packets, all with
      the timestamp the stream had when it was posted, and then audio resumes.
    */
  lemma EventIsComplete(c: Config, st: SenderState, acts: seq<Action>, e: nat)
    requires c.Valid() && st.Valid(c) && e < 16 && st.nextEvent == e
    requires PlainTicks(c, acts) && |acts| == EventPackets(c) + 1 && acts[EventPackets(c)].clock.Some?
    ensures var tr := Run(c, st, acts);
            var k := EventPackets(c);
            && tr.ok && |tr.log| == k + 1
            && (forall j :: 0 <= j < k ==> tr.log[j] == EventPacket(c, e, j, st.sequence + 1 + j, st.timestamp))
            && tr.log[k].Audio?
  {
    hide EventPackets, EventPacket, Run;
    var k := EventPackets(c);
    EventPacketsIsCeiling(c, 0);
    EventRun(c, st, acts[..k], e, 0);
    NoWrap(st);
    assert acts == acts[..k] + acts[k..];
    RunAppend(c, st, acts[..k], acts[k..]);
    AudioResumes(c, Run(c, st, acts[..k]).final, acts[k..]);
  }

  lemma AudioResumes(c: Config, st: SenderState, acts: seq<Action>)
    requires c.Valid() && st.Valid(c) && st.dtmfEvent == -1 && st.nextEvent == -1
    requires |acts| == 1 && PlainTicks(c, acts) && acts[0].clock.Some?
    ensures var tr := Run(c, st, acts);
            tr.ok && |tr.log| == 1 && tr.log[0].Audio?
  {
    hide AudioPacket, EncodeFrame, AmplifyFrame, NextTimer;
    RunTick(c, st, acts);
  }

  /** What a receiver that follows RFC 4733 reads from the i-th packet of an event: the event and the
      duration that RFC 4733 asks for exactly if the duration fits its field and the packet is not the last.
    */
  lemma EventPacketOnTheWire(c: Config, e: nat, i: nat, sequence: int, start: Word)
    requires c.Valid() && 0 <= c.dtmfType && e < 16
    ensures var p := EventPacket(c, e, i, sequence, start).packet;
            var duration := (i + 1) * c.sampleCount;
            var last := i + 1 == EventPackets(c);
            && |p| == 16 && IsPlain(p, c.dtmfType, ToU16(sequence), start, c.ssrc)
            && ReadEvent(p[12..]) == ShownEvent(e, duration, last)
            && (ReadEvent(p[12..]) == TelephoneEvent(e, last, false, 0, duration) <==> duration < 0x1_0000 && !last)
            && (duration < 0x1_0000 ==>
                  ReadEvent(p[12..]) == TelephoneEvent(e, false, false, 0, ShownDuration(duration, last)))
  {
    hide EventPackets, DtmfPacket, EventPayload, TypeOf, SequenceOf, TimestampOf, SsrcOf, IsPlain, Magic, Shl, Half,
         ReadEvent,
         ShownEvent, ShownDuration;
    ShiftedEvent(e);
    var duration, last := (i + 1) * c.sampleCount, i + 1 == EventPackets(c);
    DtmfFields(c.dtmfType, ToU16(sequence), start, c.ssrc, Shl(e, 24), duration, last);
    UnshiftEvent(e);
    TelephoneEventOnTheWire(e, duration, last);
  }

  lemma UnshiftEvent(e: nat)
    ensures Shl(e, 24) / 0x100_0000 == e
  {
    LargePowers();
  }

  /** Every duration of an event fits 16 bits if and only if the one of its last packet does. A fifth of a
      second plus one frame is enough.
    */
  lemma DurationsFit(c: Config)
    requires c.Valid()
    ensures (forall i :: 0 <= i < EventPackets(c) ==> EventDuration(c, i) < 0x1_0000)
            <==> EventPackets(c) * c.sampleCount < 0x1_0000
    ensures c.sampleRate + 5 * c.sampleCount <= 5 * 0x1_0000 ==> EventPackets(c) * c.sampleCount < 0x1_0000
  {
    hide EventPackets;
    var k := EventPackets(c);
    EventPacketsIsCeiling(c, 0);
    EventPacketsIsCeiling(c, k - 1);
    assert EventDuration(c, k - 1) == k * c.sampleCount == (k - 1) * c.sampleCount + c.sampleCount;
    forall i | 0 <= i < k
      ensures EventDuration(c, i) <= k * c.sampleCount
    {
      assert k * c.sampleCount - EventDuration(c, i) == (k - (i + 1)) * c.sampleCount;
      NonNegative(k - (i + 1), c.sampleCount);
    }
  }

  /** The duration of the i-th packet of an event. */
  function EventDuration(c: Config, i: int): int {
    (i + 1) * c.sampleCount
  }

  // ----- Pacing of a run -----

  /** The clock readings of the audio packets of a run. */
  function AudioClocks(log: seq<Sent>): seq<int> {
    if log == [] then []
    else (if log[0].Audio? then [log[0].clock] else []) + AudioClocks(log[1..])
  }

  lemma {:induction false} TimerAfterFirst(timer: int, now: int, rest: seq<int>, interval: nat, k: nat)
    requires k < |rest|
    ensures TimerAfter(timer, [now] + rest, interval, k + 1)
              == TimerAfter(NextTimer(timer, now, interval), rest, interval, k)
  {
    hide NextTimer;
    if k > 0 {
      TimerAfterFirst(timer, now, rest, interval, k - 1);
    } else {
      assert TimerAfter(timer, [now] + rest, interval, 0) == NextTimer(timer, now, interval);
    }
  }

  function LastTimer(timer: int, readings: seq<int>, interval: nat): int {
    if readings == [] then timer else TimerAfter(timer, readings, interval, |readings| - 1)
  }

  lemma LastTimerFirst(timer: int, now: int, rest: seq<int>, interval: nat)
    ensures LastTimer(timer, [now] + rest, interval) == LastTimer(NextTimer(timer, now, interval), rest, interval)
  {
    hide NextTimer;
    if rest != [] { TimerAfterFirst(timer, now, rest, interval, |rest| - 1); }
  }

  lemma StepTimer(c: Config, st: SenderState, captured: seq<Int16>, clock: Option<int>)
    requires c.Valid() && st.Valid(c)
    ensures var r := EncodeStep(c, st, captured, clock);
            r.state.timer == if r.ok && r.sent.value.Audio?
                             then NextTimer(st.timer, r.sent.value.clock, c.FrameInterval())
                             else st.timer
  {
    hide AudioPacket, DtmfPacket, EncodeFrame, AmplifyFrame, NextTimer, Shl, Interval;
  }

  /** In any run `mTimer` is moved by the audio packets alone, each by the pacing step; DTMF packets,
      posts and failures leave it as it is.
    */
  lemma {:induction false} RunTimer(c: Config, st: SenderState, acts: seq<Action>)
    requires c.Valid() && st.Valid(c)
    ensures var tr := Run(c, st, acts);
            tr.final.timer == LastTimer(st.timer, AudioClocks(tr.log), c.FrameInterval())
    decreases |acts|
  {
    hide EncodeStep, LastTimer, NextTimer, Interval;
    if acts == [] {
      assert LastTimer(st.timer, [], c.FrameInterval()) == st.timer by { NoReadings(st.timer, c.FrameInterval()); }
    } else {
      match acts[0] {
        case Post(event) => RunTimer(c, PostStep(c, st, event), acts[1..]);
        case Tick(captured, clock) =>
          var r := EncodeStep(c, st, captured, clock);
          StepTimer(c, st, captured, clock);
          NoReadings(st.timer, c.FrameInterval());
          RunTick(c, st, acts);
          if r.ok {
            var rest := Run(c, r.state, acts[1..]);
            RunTimer(c, r.state, acts[1..]);
            var log := Run(c, st, acts).log;
            assert log[1..] == rest.log;
            if r.sent.value.Audio? {
              LastTimerFirst(st.timer, r.sent.value.clock, AudioClocks(rest.log), c.FrameInterval());
            } else {
              assert [] + AudioClocks(rest.log) == AudioClocks(rest.log);
            }
          }
      }
    }
  }

  lemma NoReadings(timer: int, interval: nat)
    ensures LastTimer(timer, [], interval) == timer
  {}

  /** The rate limit for a whole run, DTMF events included: `sends` are the times at which its audio
      packets leave. If the clock always passes the timer and no sleep is short, then by time `t` at most
      1 + (t - t1) / interval of them have left, where t1 is the timer of the first.
    */
  lemma RunIsRateLimited(c: Config, st: SenderState, acts: seq<Action>, sends: seq<int>, t: int)
    requires c.Valid() && st.Valid(c)
    requires var clocks := AudioClocks(Run(c, st, acts).log);
             && clocks != [] && StrictClock(st.timer, clocks, c.FrameInterval())
             && NoShortSleep(st.timer, clocks, sends, c.FrameInterval())
             && sends[|sends| - 1] <= t
    ensures var tr := Run(c, st, acts);
            var clocks := AudioClocks(tr.log);
            var t1 := NextTimer(st.timer, clocks[0], c.FrameInterval());
            && tr.final.timer <= t
            && (|clocks| - 1) * c.FrameInterval() <= tr.final.timer - t1
            && (c.FrameInterval() > 0 ==> |clocks| <= 1 + (t - t1) / c.FrameInterval())
  {
    hide Run, Interval, StrictClock, TimerAfter, NextTimer, Sleep, NoShortSleep;
    var clocks := AudioClocks(Run(c, st, acts).log);
    RunTimer(c, st, acts);
    assert |sends| == |clocks| by { SendsMatchReadings(st.timer, clocks, sends, c.FrameInterval()); }
    RateLimit(st.timer, clocks, sends, c.FrameInterval(), t);
  }

  lemma SendsMatchReadings(timer: int, readings: seq<int>, sends: seq<int>, interval: nat)
    requires NoShortSleep(timer, readings, sends, interval)
    ensures |sends| == |readings|
  {}

  /** The delay of a whole run converges, DTMF events included: `captures` are the times at which the frames of
      its audio packets were captured. The time between the last capture and the last departure is that of the
      first less one gain for each packet since, or the sender's slack.
    */
  lemma RunDelayConverges(c: Config, st: SenderState, acts: seq<Action>, captures: seq<real>, slack: real)
    requires c.Valid() && st.Valid(c)
    requires var clocks := AudioClocks(Run(c, st, acts).log);
             && clocks != []
             && Punctual(captures, st.timer, clocks, c.FrameInterval(), Period(c.sampleRate, c.sampleCount), slack)
             && |captures| == |clocks|
    ensures var tr := Run(c, st, acts);
            var n := |AudioClocks(tr.log)| - 1;
            var gain := Gain(Period(c.sampleRate, c.sampleCount), c.FrameInterval(), slack);
            var first := NextTimer(st.timer, AudioClocks(tr.log)[0], c.FrameInterval()) as real - captures[0];
            && (gain >= 0.0 <==> slack <= Period(c.sampleRate, c.sampleCount))
            && (slack <= 0.8 * Period(c.sampleRate, c.sampleCount)
                ==> gain >= Period(c.sampleRate, c.sampleCount) / 5.0)
            && (gain >= 0.0 ==> tr.final.timer as real - captures[n] <= Max(slack, first - n as real * gain))
  {
    hide Run, Interval, Punctual, TimerAfter, NextTimer, Period, Max, Gain;
    var clocks := AudioClocks(Run(c, st, acts).log);
    var n := |clocks| - 1;
    RunTimer(c, st, acts);
    DelayConverges(c.sampleRate, c.sampleCount, captures, st.timer, clocks, slack, n);
    FirstTimer(st.timer, clocks, c.FrameInterval());
  }
}
