/** What a sender run sends, told without the sender's fields: which iteration speaks, which one sends which packet of
    which event, and with what numbers.
  */
module Schedule {
  import opened Bits
  import opened Wrappers
  import opened G711
  import opened MicGain
  import opened RtpPacket
  import opened RtpFormat
  import opened Pacing
  import opened Sender

  /** The iterations among the actions. */
  function Ticks(acts: seq<Action>): (ticks: seq<Action>)
    ensures |ticks| <= |acts|
    ensures forall n :: 0 <= n < |ticks| ==> ticks[n].Tick?
  {
    if acts == [] then [] else (if acts[0].Tick? then [acts[0]] else []) + Ticks(acts[1..])
  }

  /** What an iteration is for: a frame of speech, or packet number `index` of an event. */
  datatype Line = Speech | Tone(event: nat, index: nat) {
    predicate Possible(c: Config)
      requires c.Valid()
    {
      Tone? ==> c.dtmfType != -1 && event < 16 && index < EventPackets(c)
    }

    /** After an event's last packet comes speech. */
    function Next(c: Config): Line
      requires c.Valid()
    {
      if Tone? && index + 1 < EventPackets(c) then Tone(event, index + 1) else Speech
    }
  }

  /** One line for each iteration. A key that is pressed takes effect in the next iteration, whatever is going
      on; of several, the last one does.
    */
  function Script(c: Config, next: Line, acts: seq<Action>): (lines: seq<Line>)
    requires c.Valid()
    ensures |lines| == |Ticks(acts)|
    decreases |acts|
  {
    if acts == [] then []
    else match acts[0]
      case Post(event) =>
        Script(c, if 0 <= event <= 15 && c.dtmfType != -1 then Tone(event, 0) else next, acts[1..])
      case Tick(_, _) => [next] + Script(c, next.Next(c), acts[1..])
  }

  /** An iteration succeeds if the recorder returns a full frame and, for speech, the clock can be read. */
  predicate Works(c: Config, line: Line, tick: Action)
    requires tick.Tick?
  {
    |tick.captured| == c.sampleCount && (line.Speech? ==> tick.clock.Some?)
  }

  /** What an iteration sends as the packet with this sequence number, of the frame with this timestamp. */
  function SentFor(c: Config, line: Line, tick: Action, sequence: int, timestamp: int): Sent
    requires c.Valid() && tick.Tick? && Works(c, line, tick)
  {
    match line
    case Speech =>
      var payload := EncodeFrame(c.law, AmplifyFrame(8, tick.captured));
      Audio(AudioPacket(c.CodecMagic(), ToU16(sequence), U32(timestamp), c.ssrc, payload), tick.captured,
            tick.clock.value)
    case Tone(event, index) =>
      EventPacket(c, event, index, sequence, U32(timestamp - (index + 1) * c.sampleCount))
  }

  /** The sender's fields agree with the line that comes next. */
  predicate Follows(c: Config, st: SenderState, next: Line)
    requires c.Valid()
  {
    && next.Possible(c)
    && match next
       case Speech => st.nextEvent == -1 && st.dtmfEvent == -1
       case Tone(event, index) => InEvent(c, st, event, index)
  }

  lemma PostFollows(c: Config, st: SenderState, next: Line, event: int)
    requires c.Valid() && st.Valid(c) && Follows(c, st, next)
    ensures Follows(c, PostStep(c, st, event), if 0 <= event <= 15 && c.dtmfType != -1 then Tone(event, 0) else next)
  {
    hide EventPackets, Shl;
    EventPacketsIsCeiling(c, 0);
  }

  lemma StepFollows(c: Config, st: SenderState, next: Line, tick: Action)
    requires c.Valid() && st.Valid(c) && Follows(c, st, next) && tick.Tick?
    ensures var r := EncodeStep(c, st, tick.captured, tick.clock);
            && (r.ok <==> Works(c, next, tick))
            && (r.ok ==>
                  && r.sent.value == SentFor(c, next, tick, st.sequence + 1, st.timestamp + c.sampleCount)
                  && r.state.sequence == ToU16(st.sequence + 1)
                  && r.state.timestamp == U32(st.timestamp + c.sampleCount)
                  && Follows(c, r.state, next.Next(c)))
  {
    hide AudioPacket, EncodeFrame, AmplifyFrame, Magic, NextTimer, EventPackets, EventPacket, DtmfPacket, Shl, U32,
         ToU16;
    if next.Tone? && Works(c, next, tick) {
      hide EncodeStep;
      EventStep(c, st, next.event, next.index, tick.captured, tick.clock);
      assert st.timestamp + c.sampleCount - (next.index + 1) * c.sampleCount
             == st.timestamp - next.index * c.sampleCount;
    }
  }

  /** Numbers that are counted on from wrapped ones come out the same. */
  lemma SentForLater(c: Config, line: Line, tick: Action, sequence: int, timestamp: int, n: nat, t: nat)
    requires c.Valid() && tick.Tick? && Works(c, line, tick)
    ensures SentFor(c, line, tick, ToU16(sequence) + n, U32(timestamp) + t)
            == SentFor(c, line, tick, sequence + n, timestamp + t)
  {
    hide AudioPacket, EncodeFrame, AmplifyFrame, Magic, EventPackets, DtmfPacket, Shl;
    WrapTwice(sequence, n);
    WrapTwice32(timestamp, t);
    if line.Tone? { SameStart(timestamp, t, (line.index + 1) * c.sampleCount); }
  }

  lemma SameStart(timestamp: int, t: nat, d: nat)
    ensures U32(U32(timestamp) + t - d) == U32(timestamp + t - d)
  {
    var q := timestamp / 0x1_0000_0000;
    assert timestamp == 0x1_0000_0000 * q + U32(timestamp);
    var q' := (U32(timestamp) + t - d) / 0x1_0000_0000;
    ModUnique(timestamp + t - d, 0x1_0000_0000, q + q', U32(U32(timestamp) + t - d));
  }

  /** `log` is what iterations `ticks` with these lines send, numbered on from `sequence` and `timestamp`. */
  predicate IsLog(c: Config, sequence: int, timestamp: int, lines: seq<Line>, ticks: seq<Action>, log: seq<Sent>)
    requires c.Valid() && |lines| == |ticks| && forall n :: 0 <= n < |ticks| ==> ticks[n].Tick?
  {
    && |log| <= |ticks|
    && forall n :: 0 <= n < |log| ==>
         && lines[n].Possible(c) && Works(c, lines[n], ticks[n])
         && log[n] == SentFor(c, lines[n], ticks[n], sequence + n + 1, timestamp + (n + 1) * c.sampleCount)
  }

  lemma IsLogFirst(c: Config, st: SenderState, later: SenderState, lines: seq<Line>, ticks: seq<Action>, first: Sent,
                   rest: seq<Sent>)
    requires c.Valid() && |lines| == |ticks| > 0 && forall n :: 0 <= n < |ticks| ==> ticks[n].Tick?
    requires lines[0].Possible(c) && Works(c, lines[0], ticks[0])
    requires first == SentFor(c, lines[0], ticks[0], st.sequence + 1, st.timestamp + c.sampleCount)
    requires later.sequence == ToU16(st.sequence + 1) && later.timestamp == U32(st.timestamp + c.sampleCount)
    requires IsLog(c, later.sequence, later.timestamp, lines[1..], ticks[1..], rest)
    ensures IsLog(c, st.sequence, st.timestamp, lines, ticks, [first] + rest)
  {
    hide SentFor, Works, ToU16, U32;
    var log := [first] + rest;
    forall n | 0 <= n < |log|
      ensures lines[n].Possible(c) && Works(c, lines[n], ticks[n])
      ensures log[n] == SentFor(c, lines[n], ticks[n], st.sequence + n + 1, st.timestamp + (n + 1) * c.sampleCount)
    {
      if n > 0 {
        assert log[n] == rest[n - 1] && lines[n] == lines[1..][n - 1] && ticks[n] == ticks[1..][n - 1];
        assert (n + 1) * c.sampleCount == c.sampleCount + n * c.sampleCount;
        SentForLater(c, lines[n], ticks[n], st.sequence + 1, st.timestamp + c.sampleCount, n, n * c.sampleCount);
      }
    }
  }

  /** A run sends exactly what its script says: the n-th packet is that of the n-th iteration and carries what
      this iteration captured, or a packet of the event that is due; and the run ends at the first iteration that
      does not work.
    */
  predicate IsScripted(c: Config, st: SenderState, next: Line, acts: seq<Action>)
    requires c.Valid() && st.Valid(c)
  {
    var tr := Run(c, st, acts);
    var lines, ticks := Script(c, next, acts), Ticks(acts);
    && IsLog(c, st.sequence, st.timestamp, lines, ticks, tr.log)
    && |tr.log| <= |ticks|
    && (tr.ok <==> |tr.log| == |ticks|)
    && (!tr.ok ==> !Works(c, lines[|tr.log|], ticks[|tr.log|]))
  }

  lemma ScriptedPost(c: Config, st: SenderState, next: Line, acts: seq<Action>)
    requires c.Valid() && st.Valid(c) && acts != [] && acts[0].Post?
    requires var event := acts[0].event;
             IsScripted(c, PostStep(c, st, event),
                        if 0 <= event <= 15 && c.dtmfType != -1 then Tone(event, 0) else next, acts[1..])
    ensures IsScripted(c, st, next, acts)
  {
    hide IsLog, Works, EncodeStep;
    assert [] + Ticks(acts[1..]) == Ticks(acts[1..]);
  }

  lemma ScriptedTick(c: Config, st: SenderState, next: Line, acts: seq<Action>)
    requires c.Valid() && st.Valid(c) && Follows(c, st, next) && acts != [] && acts[0].Tick?
    requires var r := EncodeStep(c, st, acts[0].captured, acts[0].clock);
             r.ok ==> IsScripted(c, r.state, next.Next(c), acts[1..])
    ensures IsScripted(c, st, next, acts)
  {
    hide EncodeStep, Follows, Works, IsLog, SentFor, Run, ToU16, U32;
    StepFollows(c, st, next, acts[0]);
    FollowsPossible(c, st, next);
    RunTick(c, st, acts);
    var r := EncodeStep(c, st, acts[0].captured, acts[0].clock);
    var lines, ticks := Script(c, next, acts), Ticks(acts);
    assert ticks[0] == acts[0] && lines[0] == next;
    if !r.ok {
      NothingLogged(c, st.sequence, st.timestamp, lines, ticks);
    } else {
      assert lines[1..] == Script(c, next.Next(c), acts[1..]) && ticks[1..] == Ticks(acts[1..]);
      IsLogFirst(c, st, r.state, lines, ticks, r.sent.value, Run(c, r.state, acts[1..]).log);
    }
  }

  /** Every run is scripted. */
  lemma {:induction false} RunFollowsScript(c: Config, st: SenderState, next: Line, acts: seq<Action>)
    requires c.Valid() && st.Valid(c) && Follows(c, st, next)
    ensures IsScripted(c, st, next, acts)
    decreases |acts|
  {
    if acts == [] {
      EmptyLog(c, st.sequence, st.timestamp);
    } else {
      hide EncodeStep, PostStep, Follows, IsScripted;
      match acts[0] {
        case Post(event) =>
          PostFollows(c, st, next, event);
          RunFollowsScript(c, PostStep(c, st, event),
                           if 0 <= event <= 15 && c.dtmfType != -1 then Tone(event, 0) else next, acts[1..]);
          ScriptedPost(c, st, next, acts);
        case Tick(captured, clock) =>
          var r := EncodeStep(c, st, captured, clock);
          if r.ok {
            StepFollows(c, st, next, acts[0]);
            RunFollowsScript(c, r.state, next.Next(c), acts[1..]);
          }
          ScriptedTick(c, st, next, acts);
      }
    }
  }

  lemma EmptyLog(c: Config, sequence: int, timestamp: int)
    requires c.Valid()
    ensures IsLog(c, sequence, timestamp, [], [], [])
  {}

  lemma NothingLogged(c: Config, sequence: int, timestamp: int, lines: seq<Line>, ticks: seq<Action>)
    requires c.Valid() && |lines| == |ticks| && forall n :: 0 <= n < |ticks| ==> ticks[n].Tick?
    ensures IsLog(c, sequence, timestamp, lines, ticks, [])
  {}

  lemma FollowsPossible(c: Config, st: SenderState, next: Line)
    requires c.Valid() && Follows(c, st, next)
    ensures next.Possible(c)
  {}

  function LineAfter(c: Config, next: Line, acts: seq<Action>): Line
    requires c.Valid()
    decreases |acts|
  {
    if acts == [] then next
    else match acts[0]
      case Post(event) =>
        LineAfter(c, if 0 <= event <= 15 && c.dtmfType != -1 then Tone(event, 0) else next, acts[1..])
      case Tick(_, _) => LineAfter(c, next.Next(c), acts[1..])
  }

  /** A sender that follows a script goes on following it. */
  lemma {:induction false} RunKeepsFollowing(c: Config, st: SenderState, next: Line, acts: seq<Action>)
    requires c.Valid() && st.Valid(c) && Follows(c, st, next) && Run(c, st, acts).ok
    ensures Follows(c, Run(c, st, acts).final, LineAfter(c, next, acts))
    decreases |acts|
  {
    hide EncodeStep, PostStep, Follows, Works, SentFor;
    if acts != [] {
      match acts[0] {
        case Post(event) =>
          PostFollows(c, st, next, event);
          RunKeepsFollowing(c, PostStep(c, st, event),
                            if 0 <= event <= 15 && c.dtmfType != -1 then Tone(event, 0) else next, acts[1..]);
        case Tick(captured, clock) =>
          RunTick(c, st, acts);
          StepFollows(c, st, next, acts[0]);
          RunKeepsFollowing(c, EncodeStep(c, st, captured, clock).state, next.Next(c), acts[1..]);
      }
    }
  }

  /** Between two keys the script is simple: the event goes on to its last packet, and then there is speech. */
  lemma {:induction false} ScriptWithoutPosts(c: Config, next: Line, acts: seq<Action>, n: nat)
    requires c.Valid() && next.Possible(c) && n < |acts| && forall a :: a in acts ==> a.Tick?
    ensures Ticks(acts) == acts
    ensures Script(c, next, acts)[n]
            == if next.Tone? && next.index + n < EventPackets(c) then Tone(next.event, next.index + n) else Speech
    decreases n
  {
    hide EventPackets;
    AllTicks(acts);
    if n > 0 { ScriptWithoutPosts(c, next.Next(c), acts[1..], n - 1); }
  }

  lemma {:induction false} AllTicks(acts: seq<Action>)
    requires forall a :: a in acts ==> a.Tick?
    ensures Ticks(acts) == acts
  {
    if acts != [] { AllTicks(acts[1..]); }
  }

  /** A key takes effect at once, and only a valid key with DTMF enabled does. */
  lemma ScriptAfterPost(c: Config, next: Line, event: int, tick: Action, acts: seq<Action>)
    requires c.Valid() && tick.Tick?
    ensures Script(c, next, [Post(event), tick] + acts)[0]
            == if 0 <= event <= 15 && c.dtmfType != -1 then Tone(event, 0) else next
  {
    var all := [Post(event), tick] + acts;
    assert all[1..] == [tick] + acts && all[1..][1..] == acts;
  }

  /** A sender that has just been started speaks, whatever was going on before: a key pressed or an event cut off by
      the stop is forgotten. Its numbers go on, and it is paced from timer 0.
    */
  lemma StartedSpeaks(c: Config, st: SenderState, tick: Action)
    requires c.Valid() && st.Valid(c) && tick.Tick?
    ensures StartStep(st).Valid(c) && Follows(c, StartStep(st), Speech)
    ensures var r := EncodeStep(c, StartStep(st), tick.captured, tick.clock);
            && (r.ok <==> |tick.captured| == c.sampleCount && tick.clock.Some?)
            && (r.ok ==>
                  && r.sent.value == SentFor(c, Speech, tick, st.sequence + 1, st.timestamp + c.sampleCount)
                  && r.state.timer == NextTimer(0, tick.clock.value, c.FrameInterval()))
  {
    hide SentFor, NextTimer, EncodeStep;
    StepFollows(c, StartStep(st), Speech, tick);
    StepTimer(c, StartStep(st), tick.captured, tick.clock);
    if Works(c, Speech, tick) { SpeechSent(c, tick, st.sequence + 1, st.timestamp + c.sampleCount); }
  }

  lemma SpeechSent(c: Config, tick: Action, sequence: int, timestamp: int)
    requires c.Valid() && tick.Tick? && Works(c, Speech, tick)
    ensures var sent := SentFor(c, Speech, tick, sequence, timestamp);
            sent.Audio? && sent.captured == tick.captured && sent.clock == tick.clock.value
  {
    hide AudioPacket, EncodeFrame, AmplifyFrame, Magic;
  }
}
