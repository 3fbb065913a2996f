/** The sender thread's object: the fields of AudioStream that `startSending`, `sendDtmf` and `encode`
    update in place.
  */
module AudioSender {
  import opened Bits
  import opened Wrappers
  import opened G711
  import opened MicGain
  import opened RtpPacket
  import opened Deadline
  import opened Pacing
  import opened Sender

  class Stream {
    const config: Config
    const codec: AudioCodec

    /** The recorder is started. */
    var recording: bool

    var localSequence: U16
    var localTimestamp: Word
    var dtmfEvent: int
    var dtmfDuration: int
    var nextDtmfEvent: int
    var timer: int

    /** Every datagram handed to `send`, oldest first. */
    var wire: seq<seq<Byte>>

    function State(): SenderState
      reads this
    {
      SenderState(localSequence, localTimestamp, dtmfEvent, dtmfDuration, nextDtmfEvent, timer)
    }

    ghost predicate Valid()
      reads this
    {
      && config.Valid()
      && codec.law == config.law && codec.sampleCount == config.sampleCount
      && State().Valid(config)
    }

    /** The random bits `set` reads are parameters. */
    constructor (config: Config, sequence: U16, timestamp: Word)
      requires config.Valid()
      ensures Valid() && this.config == config && !recording && wire == []
      ensures State() == SenderState(sequence, timestamp, -1, 0, -1, 0)
    {
      this.config := config;
      codec := new AudioCodec(config.law, config.sampleCount);
      localSequence, localTimestamp := sequence, timestamp;
      dtmfEvent, dtmfDuration, nextDtmfEvent, timer := -1, 0, -1, 0;
      recording := false;
      wire := [];
    }

    /** `startOk`: the recorder and the thread start. */
    method StartSending(startOk: bool) returns (ok: bool)
      requires Valid()
      modifies this
      ensures Valid() && wire == old(wire)
      ensures State() == if old(recording) then old(State()) else StartStep(old(State()))
      ensures recording == (old(recording) || startOk) && ok == recording
    {
      if !recording {
        timer := 0;
        nextDtmfEvent := -1;
        dtmfEvent := -1;
        if !startOk {
          return false;
        }
        recording := true;
      }
      ok := true;
    }

    /** The range check of the JNI wrapper and `sendDtmf`; `firstTry` and `secondTry` are the outcomes
        of the two attempts to lock the mailbox.
      */
    method SendDtmf(event: int, firstTry: bool, secondTry: bool) returns (ok: bool)
      requires Valid()
      modifies this`nextDtmfEvent
      ensures Valid()
      ensures ok <==> 0 <= event <= 15 && recording && config.dtmfType != -1 && (firstTry || secondTry)
      ensures State() == if ok then PostStep(config, old(State()), event) else old(State())
    {
      if event < 0 || event > 15 {
        return false;
      }
      DisabledMagic(config);
      if !recording || U32(Not(config.DtmfMagic())) == 0 {
        return false;
      }
      if !firstTry {
        if !secondTry {
          return false;
        }
      }
      nextDtmfEvent := event;
      ok := true;
    }

    /** One iteration of the sender thread: `captured` is what the recorder returned, `slept` how long
        the thread slept before the packet left.
      */
    method Encode(captured: seq<Int16>, clock: Option<int>) returns (ok: bool, slept: nat)
      requires Valid()
      modifies this
      ensures Valid() && recording == old(recording)
      ensures var r := EncodeStep(config, old(State()), captured, clock);
              && State() == r.state
              && ok == r.ok
              && wire == old(wire) + (if r.ok then [r.sent.value.packet] else [])
              && slept == (if r.ok && r.sent.value.Audio?
                           then Sleep(old(timer), clock.value, config.FrameInterval()) else 0)
    {
      hide DtmfPacket, AudioPacket, EncodeFrame, AmplifyFrame, Magic, NextTimer, Sleep, Interval, IsShiftedEvent,
           Shl, U32, ToU16;
      if |captured| != config.sampleCount {
        return false, 0;
      }
      var samples := CaptureFrame(captured);
      localSequence := ToU16(localSequence + 1);
      localTimestamp := U32(localTimestamp + config.sampleCount);
      TakeEvent();
      if dtmfEvent != -1 {
        SendEvent();
        return true, 0;
      }
      ok, slept := SendAudio(samples, clock);
    }

    /** The recorder fills the sample buffer and the gain is applied in place. */
    method CaptureFrame(captured: seq<Int16>) returns (samples: array<Int16>)
      requires |captured| == config.sampleCount
      ensures fresh(samples) && samples[..] == AmplifyFrame(FACTOR, captured)
    {
      hide AmplifyFrame;
      samples := ReadRecorder(captured);
      assert samples[..config.sampleCount] == captured && samples[config.sampleCount..] == [];
      AdjustMicGain(samples, config.sampleCount, FACTOR);
    }

    /** If there is a DTMF event to send, it becomes the current one. */
    method TakeEvent()
      requires Valid()
      modifies this`nextDtmfEvent, this`dtmfEvent, this`dtmfDuration
      ensures nextDtmfEvent == -1
      ensures dtmfEvent == (if old(nextDtmfEvent) != -1 then Shl(old(nextDtmfEvent), 24) else old(dtmfEvent))
      ensures dtmfDuration == (if old(nextDtmfEvent) != -1 then 0 else old(dtmfDuration))
      ensures Valid()
    {
      var event := nextDtmfEvent;
      nextDtmfEvent := -1;
      ShiftedEvent(event);
      if event != -1 {
        dtmfEvent := Shl(event, 24);
        dtmfDuration := 0;
      }
    }

    /** One more packet of the current DTMF event. */
    method SendEvent()
      requires config.Valid() && IsShiftedEvent(dtmfEvent) && dtmfDuration >= 0
      modifies this`dtmfEvent, this`dtmfDuration, this`wire
      ensures dtmfDuration == old(dtmfDuration) + config.sampleCount
      ensures var last := dtmfDuration * 5 >= config.sampleRate;
              && dtmfEvent == (if last then -1 else old(dtmfEvent))
              && wire == old(wire) + [DtmfPacket(config.DtmfMagic(), localSequence, U32(localTimestamp - dtmfDuration),
                                                 config.ssrc, old(dtmfEvent), dtmfDuration, last)]
    {
      hide DtmfPacket, Magic;
      dtmfDuration := dtmfDuration + config.sampleCount;
      var last := dtmfDuration * 5 >= config.sampleRate;
      var packet := DtmfPacket(config.DtmfMagic(), localSequence, U32(localTimestamp - dtmfDuration), config.ssrc,
                               dtmfEvent, dtmfDuration, last);
      if last {
        dtmfEvent := -1;
      }
      wire := wire + [packet];
    }

    /** The audio packet, held back if it is early. */
    method SendAudio(samples: array<Int16>, clock: Option<int>) returns (ok: bool, slept: nat)
      requires Valid() && samples.Length == config.sampleCount
      modifies this`timer, this`wire
      ensures ok == clock.Some?
      ensures ok ==>
                && slept == Sleep(old(timer), clock.value, config.FrameInterval())
                && timer == NextTimer(old(timer), clock.value, config.FrameInterval())
                && wire == old(wire) + [AudioPacket(config.CodecMagic(), localSequence, localTimestamp, config.ssrc,
                                                    EncodeFrame(config.law, samples[..]))]
      ensures !ok ==> slept == 0 && timer == old(timer) && wire == old(wire)
    {
      hide AudioPacket, EncodeFrame, Magic, Interval;
      slept := 0;
      var packet := BuildAudioPacket(samples);
      if clock.None? {
        return false, slept;
      }
      var now := clock.value;
      var interval := now - timer;
      if interval > 0 && interval < config.FrameInterval() {
        slept := config.FrameInterval() - interval;
        interval := config.FrameInterval();
      }
      timer := timer + interval;
      wire := wire + [packet];
      ok := true;
    }

    /** AudioRecord::read fills the sample buffer. */
    method ReadRecorder(captured: seq<Int16>) returns (samples: array<Int16>)
      ensures fresh(samples) && samples[..] == captured
    {
      samples := new Int16[|captured|];
      for i := 0 to |captured|
        invariant samples[..i] == captured[..i]
      {
        samples[i] := captured[i];
      }
    }

    method BuildAudioPacket(samples: array<Int16>) returns (sent: seq<Byte>)
      requires Valid() && samples.Length == config.sampleCount
      ensures sent == AudioPacket(config.CodecMagic(), localSequence, localTimestamp, config.ssrc,
                                  EncodeFrame(config.law, samples[..]))
    {
      hide EncodeFrame, Magic, Or, Store, Swap;
      var packet := new Byte[12 + 2 * config.sampleCount];
      StoreAt(packet, 0, Swap(U32(Or(config.CodecMagic(), localSequence))));
      StoreAt(packet, 4, Swap(localTimestamp));
      StoreAt(packet, 8, config.ssrc);
      ghost var header := packet[..12];
      assert header == Store(Swap(U32(Or(config.CodecMagic(), localSequence)))) + Store(Swap(localTimestamp))
          + Store(config.ssrc);
      var length := codec.Encode(packet, 12, samples);
      assert samples[..config.sampleCount] == samples[..];
      length := length + 12;
      sent := packet[..length];
    }

    /** `Sender::threadLoop`: the recorder is stopped after a failure. */
    method ThreadLoop(captured: seq<Int16>, clock: Option<int>) returns (again: bool)
      requires Valid()
      modifies this
      ensures Valid() && recording == (old(recording) && again)
      ensures var r := EncodeStep(config, old(State()), captured, clock);
              && State() == r.state
              && again == r.ok
              && wire == old(wire) + (if r.ok then [r.sent.value.packet] else [])
    {
      var slept;
      again, slept := Encode(captured, clock);
      if !again {
        recording := false;
      }
    }

    /** The sender thread and the API calls that reach it, in order, until an iteration fails. */
    method RunThread(acts: seq<Action>) returns (again: bool)
      requires Valid() && recording
      modifies this
      ensures Valid() && recording == again
      ensures var tr := Run(config, old(State()), acts);
              && State() == tr.final
              && again == tr.ok
              && wire == old(wire) + Wire(tr.log)
    {
      hide EncodeStep, PostStep, Wire;
      ghost var target := Run(config, State(), acts);
      again := true;
      var i := 0;
      while again && i < |acts|
        invariant i <= |acts| && Valid() && recording == again
        invariant var tr := Run(config, State(), if again then acts[i..] else []);
                  && tr.final == target.final && target.ok == (again && tr.ok)
                  && wire + Wire(tr.log) == old(wire) + Wire(target.log)
        decreases |acts| - i
      {
        hide Run;
        ActionOnTheWire(config, State(), acts[i..], wire);
        match acts[i] {
          case Post(event) =>
            UnpostedEvent(config, State(), event);
            var posted := SendDtmf(event, true, true);
          case Tick(captured, clock) =>
            again := ThreadLoop(captured, clock);
        }
        i := i + 1;
      }
      assert Wire([]) == [] by { EmptyWire(); }
    }
  }

  /** `set` and the creation of the stream in `prepare`; null if the parameters are refused. */
  method Prepare(codecName: string, sampleRate: int, sampleCount: int, codecType: PayloadType, dtmfType: int,
                 sequence: U16, timestamp: Word, ssrc: Word, recordOk: bool, trackOk: bool)
    returns (stream: Stream?)
    requires -1 <= dtmfType < 0x80
    ensures stream != null <==> 0 < sampleCount < sampleRate && codecName in ["PCMU", "PCMA"] && recordOk && trackOk
    ensures stream != null ==>
              && fresh(stream) && stream.Valid() && !stream.recording && stream.wire == []
              && stream.config.law == (if codecName == "PCMU" then Ulaw else Alaw)
              && stream.config == Config(stream.config.law, sampleRate, sampleCount, codecType, dtmfType, ssrc)
              && stream.localSequence == sequence && stream.localTimestamp == timestamp
  {
    var c := Configure(codecName, sampleRate, sampleCount, codecType, dtmfType, ssrc, recordOk, trackOk);
    if c == None {
      return null;
    }
    stream := new Stream(c.value, sequence, timestamp);
  }

  /** An event that `sendDtmf` refuses leaves the sender as it is. */
  lemma UnpostedEvent(c: Config, st: SenderState, event: int)
    requires st.Valid(c)
    ensures !(0 <= event <= 15 && c.dtmfType != -1) ==> PostStep(c, st, event) == st
  {}

  lemma EmptyWire()
    ensures Wire([]) == []
  {}

  /** What a run sends in its first action, and after it. */
  lemma ActionOnTheWire(c: Config, st: SenderState, acts: seq<Action>, wire: seq<seq<Byte>>)
    requires c.Valid() && st.Valid(c) && acts != []
    ensures var tr := Run(c, st, acts);
            match acts[0]
            case Post(event) => tr == Run(c, PostStep(c, st, event), acts[1..])
            case Tick(captured, clock) =>
              var r := EncodeStep(c, st, captured, clock);
              var later := Run(c, r.state, if r.ok then acts[1..] else []);
              && tr.final == later.final && tr.ok == (r.ok && later.ok)
              && wire + Wire(tr.log) == wire + (if r.ok then [r.sent.value.packet] else []) + Wire(later.log)
  {
    hide EncodeStep, PostStep;
    if acts[0].Tick? { RunTick(c, st, acts); }
  }

  /** The complement test of `sendDtmf` recognizes exactly the disabled payload type. */
  lemma DisabledMagic(c: Config)
    requires c.Valid()
    ensures U32(Not(c.DtmfMagic())) == 0 <==> c.dtmfType == -1
  {
    if c.dtmfType != -1 { MagicValue(c.dtmfType); }
    hide Magic;
  }
}
