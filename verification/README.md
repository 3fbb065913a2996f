# Verified model of the RTP voice stream

The repository is an Android RTP voice stream: G.711 companding, an RTP sender with DTMF events and pacing, a
jitter-buffered RTP receiver, and a search for an even local port. This project models the three C++ files that
make its decisions and proves what they keep over every input and every run.
`dafny verify dfyconfig.toml` checks all of it.

| Module | Models |
|---|---|
| `Bits` | two's-complement words, shifts and bitwise operators on unbounded integers, with explicit wrap-around |
| `G711`, `G711Accuracy` | `G711Codec.cpp`: the code words, the four frame loops, and their accuracy, order and idempotence |
| `MicGain` | `adjustMicGain`, and the accuracy from microphone to loudspeaker |
| `PortSearch` | the port walk of `create` in `RtpSocket.cpp` |
| `Deadline`, `Pacing` | `mInterval`, the receive deadline and its timeouts, `mTimer` |
| `RtpPacket`, `RtpFormat` | the packets `encode` builds and `decode` parses, and the layouts of RFC 3550 and RFC 4733 as a reference |
| `Sender`, `AudioSender` | `set`, `startSending`, `sendDtmf`, `encode`: a step function with its runs, and the object that is updated in place |
| `Schedule` | what a sender run sends, told without the sender's fields: which iteration speaks, which sends which packet of which event |
| `DtmfMailbox` | the lock and the one-slot mailbox between API thread and sender thread, action by action |
| `JitterBuffer` | the ring of receive buffers, for any ring size of at least 2 |
| `Receiver`, `AudioReceiver` | `getPacketFromJB` and `decode`: functions with their runs, and the objects that are updated in place |
| `Interleaving` | why the sender's runs may take the mailbox content in one step |
| `Call` | sender, lossy in-order channel and receiver together, as functions and on the objects |

Two shapes recur. An object's methods (`AudioSender.Stream`, `AudioReceiver.Stream`, `JitterBuffer.Ring`,
`G711.AudioCodec`) work in place as the source does, and their postconditions give the whole new state as a function
of the old one. The lemmas then say what that function means: against an independent reference (the RFC layouts, a
FIFO queue, the arithmetic definition of a quantization cell) or over whole runs.

## Where the code and what is written about it disagree

The model follows the code. Each point has an exact condition and a proof.

* Gain: a sample of exactly 4096 becomes -32768. The gain is a saturating multiplication if and only if the
  product is not 32768 (`MicGain.GainSaturates`, `MicGain.FrameGainSaturates`). From microphone to loudspeaker, a
  sample is within the bound of its ideal value if and only if it is not 4096, whatever the rest of the frame holds,
  and always within the bound of the gained sample (`MicGain.EndToEndAccuracy`).
* Padding (section 5.1 of RFC 3550): the padding test compares an unsigned difference with 0 and never succeeds, so
  the codec gets exactly the payload if and only if the packet is not padded (`RtpFormat.PayloadDeliveredUnlessPadded`).
* End bit (section 2.3 of RFC 4733): the mark of the last DTMF packet goes into a word that is already in network
  order, where it is the lowest bit of the duration. Durations are not limited to their 16 bits either: what exceeds
  them goes into volume, flags and event. So the duration a receiver reads is right if and only if it is below 0x10000
  and the packet is not the last or the duration is odd, and the whole event is right if and only if the duration is
  below 0x10000 and the packet is not the last (`RtpFormat.TelephoneEventOnTheWire`). An event has only durations
  below 0x10000 if and only if its number of packets times `sampleCount` is (`Sender.DurationsFit`).
* Deadline: the carry is taken for more than 1000000 microseconds, so the deadline is a normal time unless the sum is
  exactly 1000000; it is the right instant in any case (`Deadline.DeadlineIsOneIntervalAhead`).
* Pacing: a step advances the timer by a full interval if and only if the clock is later than the timer, or equal to
  it while the interval is 0; a standing clock lets any number of packets through at once (`Pacing.StepIsPaced`,
  `Pacing.StandingClockIsUnpaced`). The interval is 0, and nothing is paced, if and only if
  `1000 * sampleCount < sampleRate`, which `set` accepts (`Deadline.IntervalIsZero`).
* Convergence: `encode` has a comment that the delay converges. Each packet takes a fixed gain off the delay, which is
  not negative if and only if the sender's slack, the time by which it looks at the clock late, is at most a frame
  period (`Pacing.DelayConverges`); a slower sender can fall behind further and further
  (`Pacing.SlowSenderFallsBehind`).
* Draining: an empty datagram and an error both end the drain loop. Nothing that is ready is left on the socket if and
  only if neither comes before the last ready outcome (`Receiver.DrainEmptiesSocket`).
* DTMF: event packets stay away from the codec if and only if the two payload types differ
  (`Call.DtmfReachesCodecOnlyIfTypesCollide`); the Java layer sees to that (`AudioStream.java:78-118`).
* mu-law has two zeros: decoding and encoding again returns the same bytes if and only if none is 0x7F
  (`G711Accuracy.RecodeFrame`).

## Model

| member | source | states |
|---|---|---|
| `G711Accuracy.SegmentIsUnique` | app/src/main/cpp/G711Codec.cpp:21-30 | the table picks the one segment e with 2^(e+7) <= v < 2^(e+8), and segment 0 below 128 |
| `G711Accuracy.UlawEncodeFields` | app/src/main/cpp/G711Codec.cpp:36-47 | the shifts and masks yield the complement of sign, unique segment and the four bits below the leading one |
| `G711Accuracy.AlawEncodeFields` | app/src/main/cpp/G711Codec.cpp:69-79 | the same for A-law, with even bits and sign inverted |
| `G711Accuracy.UlawDecodeFields` | app/src/main/cpp/G711Codec.cpp:56-60 | the value of a code word given by its three fields |
| `G711Accuracy.AlawDecodeFields` | app/src/main/cpp/G711Codec.cpp:88-93 | the same for A-law, through the sign-extended exclusive or |
| `G711Accuracy.RoundTripIsMiddle` | app/src/main/cpp/G711Codec.cpp:32-96 | encoding then decoding moves a sample to the middle of its quantization cell and keeps its sign |
| `G711Accuracy.CompandingError` | app/src/main/cpp/G711Codec.cpp:32-96 | for every 16-bit sample, mu-law: 32 times the error is at most abs(x) + 132; A-law: error at most 8 below 256, else 32 times the error is at most abs(x) |
| `G711Accuracy.CompandingMonotone` | app/src/main/cpp/G711Codec.cpp:32-96 | companding never reverses the order of two samples |
| `G711Accuracy.RecodeByte` | app/src/main/cpp/G711Codec.cpp:32-96 | every byte survives decoding and encoding, except that mu-law 0x7F becomes 0xFF |
| `G711Accuracy.SecondPass` | app/src/main/cpp/G711Codec.cpp:32-96 | a second pass through the codec changes nothing |
| `G711Accuracy.FrameAccuracy` | app/src/main/cpp/G711Codec.cpp:32-96 | error bound, order and idempotence for frames of any length |
| `G711Accuracy.RecodeFrame` | app/src/main/cpp/G711Codec.cpp:32-96 | byte sequences of any length survive if and only if the law is A-law or no byte is 0x7F |
| `G711.AudioCodec.UlawEncodeFrame` | app/src/main/cpp/G711Codec.cpp:32-50 | the loop writes the encoded frame at its place in the packet and nothing else |
| `G711.AudioCodec.UlawDecodeFrame` | app/src/main/cpp/G711Codec.cpp:52-63 | the loop decodes exactly the payload and leaves the rest of the sample buffer alone |
| `G711.AudioCodec.AlawEncodeFrame` | app/src/main/cpp/G711Codec.cpp:65-82 | as for mu-law |
| `G711.AudioCodec.AlawDecodeFrame` | app/src/main/cpp/G711Codec.cpp:84-96 | as for mu-law |
| `MicGain.AdjustMicGain` | app/src/main/cpp/AudioStream.cpp:315-328 | the in-place loop amplifies the first `len` samples and leaves the others alone, for any positive factor |
| `MicGain.GainSaturates` | app/src/main/cpp/AudioStream.cpp:315-328 | within 1 of the saturated product if and only if the product is not 32768, for every factor and sample |
| `MicGain.GainByProduct` | app/src/main/cpp/AudioStream.cpp:315-328 | exact while the product has 16 bits; 32767 above 32768 and -32767 below -32768 |
| `MicGain.FrameGainSaturates` | app/src/main/cpp/AudioStream.cpp:344 | a frame is saturated correctly if and only if no sample is 4096 |
| `MicGain.EndToEndAccuracy` | app/src/main/cpp/AudioStream.cpp:332-383 | for every frame, every sample after gain, encoder and decoder is within the law's bound of the gained sample, and of the ideally amplified one if and only if it is not 4096 |
| `PortSearch.Create` | app/src/main/cpp/RtpSocket.cpp:166-213 | error paths and results of the search: an even first port is kept, and every port returned is even |
| `PortSearch.Search` | app/src/main/cpp/RtpSocket.cpp:189-203 | the nested loops end and try, in order, exactly the candidates of the walk that are at least 1024, all even and distinct, up to 1000, with at most 512 skips, until the first bind that works |
| `PortSearch.Step` | app/src/main/cpp/RtpSocket.cpp:191-196 | the walk starts at the port after the first, and each step adds twice the first port modulo 2^16 |
| `PortSearch.OddInverse` | app/src/main/cpp/RtpSocket.cpp:191 | an odd port has an inverse modulo every power of two |
| `PortSearch.WalkIsPermutation` | app/src/main/cpp/RtpSocket.cpp:191-198 | from any odd port, the first 2^15 candidates are the even ports, each exactly once |
| `PortSearch.WalkIsInjective` | app/src/main/cpp/RtpSocket.cpp:191-198 | two candidates fewer than 2^15 steps apart differ |
| `PortSearch.FewSkips` | app/src/main/cpp/RtpSocket.cpp:195-197 | at most 512 steps of the inner loop are skips, over the whole search |
| `PortSearch.AttemptsAreFreshEvenPorts` | app/src/main/cpp/RtpSocket.cpp:194-203 | all attempts are even, at least 1024 and pairwise distinct (section 11 of RFC 3550), and every candidate from 1024 on is attempted |
| `Deadline.IntervalBounds` | app/src/main/cpp/AudioStream.cpp:245-247 | the multiple of 800 microseconds next below 0.8 of the frame period, at most 799200 |
| `Deadline.IntervalIsZero` | app/src/main/cpp/AudioStream.cpp:245-247 | the interval is 0 if and only if a frame is shorter than a millisecond |
| `Deadline.DeadlineIsOneIntervalAhead` | app/src/main/cpp/AudioStream.cpp:421-426 | one carry suffices; the result is a normal time if and only if the microseconds do not add up to exactly a second |
| `Deadline.TimeoutEndsAtDeadline` | app/src/main/cpp/RtpSocket.cpp:94-106 | gives up if and only if the deadline has passed; otherwise the timeout is normal, non-zero and ends at the deadline |
| `Deadline.ComputeDeadline` | app/src/main/cpp/AudioStream.cpp:421-426 | the in-place update is exactly one interval ahead |
| `Deadline.ComputeTimeout` | app/src/main/cpp/RtpSocket.cpp:94-106 | the step-by-step timeout ends exactly at the deadline |
| `Pacing.StepIsPaced` | app/src/main/cpp/AudioStream.cpp:401-406 | for every interval, the timer advances by an interval or more if and only if the clock is later than the timer, or equal to it and the interval is 0 |
| `Pacing.OnlyEarlyPacketsAreDelayed` | app/src/main/cpp/AudioStream.cpp:401-406 | a packet is held back if and only if the clock is past the timer by less than an interval, and then until one interval after the timer; any other leaves at once |
| `Pacing.RateLimit` | app/src/main/cpp/AudioStream.cpp:390-408 | with a clock that always passes the timer and no short sleep, n packets take at least n - 1 intervals: at most 1 + (t - t1) / interval have left by time t when the interval is positive |
| `Pacing.ObservedClockIsStrict` | app/src/main/cpp/AudioStream.cpp:396-408 | the clock always passes the timer if each reading is later than the departure of the packet before |
| `Pacing.StandingClockIsUnpaced` | app/src/main/cpp/AudioStream.cpp:402-406 | with a clock that stands still, any number of packets leave without delay |
| `Pacing.IntervalLeavesAFifth` | app/src/main/cpp/AudioStream.cpp:245-247 | the frame period exceeds the interval by at least a fifth of the period |
| `Pacing.LatencyStep` | app/src/main/cpp/AudioStream.cpp:390-406 | one audio packet takes the period less the interval, or less the slack if that is more, off the latency, down to the slack; for any slack |
| `Pacing.DelayConverges` | app/src/main/cpp/AudioStream.cpp:390-406 | any initial delay goes down by a fixed gain per audio packet to the slack; the gain is not negative if and only if the slack is at most a period, and at least a fifth of a period if the slack is at most four fifths |
| `Pacing.SlowSenderFallsBehind` | app/src/main/cpp/AudioStream.cpp:390-406 | a run with a slack of more than a period whose latency grows |
| `RtpPacket.HeaderWord` | app/src/main/cpp/AudioStream.cpp:235-236 | magic and sequence number share no bit, and the first word holds both unchanged |
| `RtpPacket.HeaderOctets` | app/src/main/cpp/AudioStream.cpp:379-380 | the first eight octets: version 2, payload type, sequence number and timestamp in network order |
| `RtpFormat.AudioPacketIsRtp` | app/src/main/cpp/AudioStream.cpp:376-383 | an audio packet is the RFC 3550 serialization with these fields and nothing optional |
| `RtpFormat.ParseAudioPacket` | app/src/main/cpp/AudioStream.cpp:376-383 | the receiver recovers timestamp, SSRC and payload, and rejects the packet if it expects another payload type |
| `RtpFormat.TelephoneEventOnTheWire` | app/src/main/cpp/AudioStream.cpp:360-370 | every field as RFC 4733 reads it, for any duration; the duration is right if and only if it fits 16 bits and is odd or not the last; the whole event if and only if it fits and is not the last |
| `RtpPacket.MagicCheck` | app/src/main/cpp/AudioStream.cpp:458 | the masked comparison holds if and only if version is 2 and the payload type is the codec's |
| `RtpPacket.ParseInPlace` | app/src/main/cpp/AudioStream.cpp:436-464 | the in-place checks depend on the datagram alone, never on stale octets behind it; the padding branch is dead; octets from 8 on are not changed |
| `RtpFormat.ParseInvertsSerialize` | app/src/main/cpp/AudioStream.cpp:436-464 | for every well-formed RTP packet (CSRCs, extension, payload, padding) offset, length, timestamp and SSRC are the packet's, and other payload types are rejected |
| `RtpFormat.PayloadDeliveredUnlessPadded` | app/src/main/cpp/AudioStream.cpp:446-449 | the codec gets exactly the payload if and only if the packet is not padded |
| `RtpFormat.AcceptsExactlyRtp` | app/src/main/cpp/AudioStream.cpp:436-461 | any datagram is accepted if and only if, with the padding bit cleared, it is the serialization of an RTP packet of the codec's type |
| `Sender.EncodeStep` | app/src/main/cpp/AudioStream.cpp:332-410 | keeps the sender's invariant; succeeds if and only if a packet is sent |
| `Schedule.RunFollowsScript` | app/src/main/cpp/AudioStream.cpp:332-410 | the n-th packet of any run is that of the n-th iteration: the encoding of what this iteration captured, amplified by 8, or the packet of the event that is due; a run ends exactly at the first iteration with a short read or, for speech, without a clock |
| `Schedule.RunKeepsFollowing` | app/src/main/cpp/AudioStream.cpp:332-410 | every state a run reaches agrees with its script, so the script goes on over the next run |
| `Schedule.ScriptWithoutPosts` | app/src/main/cpp/AudioStream.cpp:354-376 | between two keys an event goes on to its last packet and then there is speech; without an event there is only speech |
| `Schedule.ScriptAfterPost` | app/src/main/cpp/AudioStream.cpp:283-295 | a valid key with DTMF enabled takes effect in the very next iteration, whatever is going on; any other key has no effect |
| `Schedule.StartedSpeaks` | app/src/main/cpp/AudioStream.cpp:252-258 | after a start the first iteration speaks, whatever event was cut off; numbers go on, and it is paced from timer 0 |
| `Sender.FailedStep` | app/src/main/cpp/AudioStream.cpp:336-396 | a short read changes nothing; a failing clock uses up the numbers of its frame and empties the mailbox |
| `Sender.RunIsNumbered` | app/src/main/cpp/AudioStream.cpp:346-381 | over any run, the n-th packet carries sequence s0 + n modulo 2^16 and the SSRC, audio carries the timestamp of its frame modulo 2^32 also after events, and a DTMF timestamp plus duration is that of its frame |
| `Sender.EventPacketsIsCeiling` | app/src/main/cpp/AudioStream.cpp:366-367 | the packet count of an event is the least number of frames lasting a fifth of a second |
| `Sender.EventRun` | app/src/main/cpp/AudioStream.cpp:354-373 | the packets of an event share one start timestamp, have durations S, 2S, 3S, ..., end exactly after the ceiling, and leave `mTimer` alone |
| `Sender.EventIsComplete` | app/src/main/cpp/AudioStream.cpp:349-376 | an event that is not replaced emits exactly its packets, all with the timestamp at which it was posted, and then audio resumes |
| `Sender.EventPacketOnTheWire` | app/src/main/cpp/AudioStream.cpp:360-370 | the i-th packet of an event of any length is the RTP packet with these numbers, and every field a receiver following RFC 4733 reads from it; exactly when that is the event asked for |
| `Sender.DurationsFit` | app/src/main/cpp/AudioStream.cpp:359-367 | all durations of an event fit 16 bits if and only if the packet count times `sampleCount` does |
| `Sender.RunTimer` | app/src/main/cpp/AudioStream.cpp:371-406 | over any run, `mTimer` is moved by the audio packets alone |
| `Sender.RunIsRateLimited` | app/src/main/cpp/AudioStream.cpp:390-408 | the rate limit by departure times for a whole run with DTMF events in between |
| `Sender.RunDelayConverges` | app/src/main/cpp/AudioStream.cpp:332-408 | the convergence of the delay over a whole run with DTMF events in between |
| `AudioSender.Prepare` | app/src/main/cpp/AudioStream.cpp:192-250 | exactly which parameters `set` accepts, and the stream they give |
| `AudioSender.Stream.SendDtmf` | app/src/main/cpp/AudioStream.cpp:283-295 | succeeds if and only if the event is 0 to 15, recording, DTMF enabled and one of two lock attempts works; only then the mailbox changes |
| `AudioSender.Stream.SendAudio` | app/src/main/cpp/AudioStream.cpp:376-409 | packet, sleep and timer of an audio frame; a failing clock sends nothing |
| `AudioSender.Stream.Encode` | app/src/main/cpp/AudioStream.cpp:332-410 | the in-place iteration refines the step the run lemmas are about: whole new state, datagram and sleep |
| `AudioSender.Stream.ThreadLoop` | app/src/main/cpp/AudioStream.cpp:143-150 | one iteration; the recorder stops if and only if it fails |
| `AudioSender.Stream.RunThread` | app/src/main/cpp/AudioStream.cpp:143-150 | a whole life of the sender with its API calls: final fields, and exactly the datagrams of the run the lemmas are about |
| `AudioSender.DisabledMagic` | app/src/main/cpp/AudioStream.cpp:285 | the complement test recognizes exactly the disabled payload type |
| `DtmfMailbox.RunInvariant` | app/src/main/cpp/AudioStream.cpp:283-357 | in every interleaving the lock is held by the thread in its region and the mailbox agrees with the history |
| `DtmfMailbox.MailboxRange` | app/src/main/cpp/AudioStream.cpp:589 | the mailbox is -1 or 0 to 15 in every state of every run |
| `DtmfMailbox.TakenEventsWerePosted` | app/src/main/cpp/AudioStream.cpp:350-357 | the sender takes an event if and only if the entry just before is a successful post, and takes exactly that event |
| `DtmfMailbox.PostedEventsHaveOneFate` | app/src/main/cpp/AudioStream.cpp:252-295 | a successful post is taken next, superseded next, cleared by a restart next, or still in the mailbox |
| `DtmfMailbox.MutualExclusion` | app/src/main/cpp/AudioStream.cpp:288-353 | the two threads are never in the locked region together |
| `DtmfMailbox.CallIsRefused` | app/src/main/cpp/AudioStream.cpp:283-287 | a call changes nothing if and only if the event is not 0 to 15, the recorder is stopped, or DTMF is off |
| `DtmfMailbox.CallPosts` | app/src/main/cpp/AudioStream.cpp:288-294 | from every reachable state, any other call that finds the lock free posts exactly its event and frees the lock |
| `DtmfMailbox.SecondTryPosts` | app/src/main/cpp/AudioStream.cpp:288-294 | a call that finds the lock free at its second try, after anything the sender did, posts its event |
| `DtmfMailbox.TakenLockIsRetriedOnce` | app/src/main/cpp/AudioStream.cpp:288-291 | a taken lock costs a try and changes nothing else |
| `DtmfMailbox.CallFailsOnTwoTries` | app/src/main/cpp/AudioStream.cpp:288-291 | a call that finds the lock taken twice leaves no event and no trace |
| `DtmfMailbox.SenderTakes` | app/src/main/cpp/AudioStream.cpp:350-353 | from every reachable state, a sender that finds the lock free takes what is in the mailbox, empties it and frees the lock |
| `DtmfMailbox.LockIsGivenBack` | app/src/main/cpp/AudioStream.cpp:288-353 | from every reachable state, whoever holds the lock can go on and free it by its own actions alone |
| `DtmfMailbox.StartAndStop` | app/src/main/cpp/AudioStream.cpp:252-266 | a start on a stopped stream clears the mailbox, also if it fails; stops and failures leave it alone |
| `Interleaving.MailboxIsFollowed` | app/src/main/cpp/AudioStream.cpp:252-357 | in every interleaving, over all lives of the thread, restarts and failing iterations included, the mailbox field of the sequential sender is the interleaved mailbox |
| `Interleaving.TakenIsWhatTheSenderFinds` | app/src/main/cpp/AudioStream.cpp:349-373 | what the sender takes in any interleaving is what the sequential sender finds, and a taken event is the one whose first packet goes out |
| `Interleaving.LifeIsRun` | app/src/main/cpp/AudioStream.cpp:143-150 | between two restarts and up to the first failing iteration, the sequential sender is a run of `Sender` |
| `JitterBuffer.Ring.constructor` | app/src/main/cpp/AudioStream.cpp:46-53 | a fresh, empty ring of any size from 2 |
| `JitterBuffer.Ring.ObtainBuffer` | app/src/main/cpp/AudioStream.cpp:66-71 | null if and only if size - 1 datagrams are queued; otherwise a slot that is neither queued nor the one popped last |
| `JitterBuffer.Ring.PushBack` | app/src/main/cpp/AudioStream.cpp:73-76 | appends the received datagram to the FIFO and keeps the reserved slot |
| `JitterBuffer.Ring.PopFront` | app/src/main/cpp/AudioStream.cpp:78-83 | removes the head of the FIFO, hands it out uncopied, and reserves its slot |
| `JitterBuffer.Ring.Empty` | app/src/main/cpp/AudioStream.cpp:85-87 | true if and only if the FIFO is empty |
| `JitterBuffer.Ring.FreeSlotIsFree` | app/src/main/cpp/AudioStream.cpp:66-71 | writing into a slot that is not queued leaves the FIFO as it is |
| `Receiver.DrainInClosedForm` | app/src/main/cpp/AudioStream.cpp:495-505 | the drain loop queues as much of the burst as there is room for, in order, and drops exactly the rest |
| `Receiver.FetchConserves` | app/src/main/cpp/AudioStream.cpp:478-510 | returned + queued + dropped + left on the socket is what was queued and arrived, in order; a drop leaves a full queue |
| `Receiver.FetchTakesTheOldest` | app/src/main/cpp/AudioStream.cpp:478-510 | a packet is returned if and only if one is queued or received in time, namely the oldest; the ring then holds the next ones of those that can be read without waiting, as many as fit, and the others are dropped; otherwise the outcome of the one receive call is returned; a call waits if and only if the ring is empty |
| `Receiver.FetchShrinks` | app/src/main/cpp/AudioStream.cpp:431-440 | every packet handed out shrinks queue plus socket, so the retry loop ends |
| `Receiver.Verdict` | app/src/main/cpp/AudioStream.cpp:436-466 | a packet is a frame if and only if it is accepted with a non-empty payload; every accepted packet sets the remote fields |
| `Receiver.DecodeIsRetryLoop` | app/src/main/cpp/AudioStream.cpp:431-475 | one `decode` call goes on from packet to packet until the first frame, which it plays, or until nothing is there, and only then has none; remote fields as of the last accepted packet |
| `Receiver.DrainEmptiesSocket` | app/src/main/cpp/AudioStream.cpp:495-505 | what the loop leaves is the end of the arrivals, and contains nothing that was ready if and only if no empty datagram or error comes before the last ready outcome |
| `Receiver.DecodeConserves` | app/src/main/cpp/AudioStream.cpp:412-476 | conservation over one `decode` call, all its retries included; every call that drops leaves the ring full |
| `Receiver.PlayConserves` | app/src/main/cpp/AudioStream.cpp:160-167 | conservation over any run of the receiver: taken, queued, on the socket or dropped, in order and unchanged; every call of `getPacketFromJB` that drops leaves the ring full |
| `Receiver.PlayPlaysWhatItTakes` | app/src/main/cpp/AudioStream.cpp:431-475 | the player gets exactly the frames among the packets taken, in order |
| `Receiver.PlayAccountsForFrames` | app/src/main/cpp/AudioStream.cpp:412-510 | over any run, every frame queued or arrived is played, under way, or in a packet dropped by a call that leaves the ring full, and in one of these only; played and under way keep their order |
| `Receiver.PlayFinishes` | app/src/main/cpp/AudioStream.cpp:160-167 | with clock and player working, after as many turns as there are packets and outcomes nothing is queued or on the socket any more, and the thread goes on |
| `Receiver.PlayDeliversEverything` | app/src/main/cpp/AudioStream.cpp:160-167 | then every frame that arrived has been played, except those dropped by a call that leaves the ring full; all in order if there are none |
| `Receiver.PlayEndsAtFirstFailure` | app/src/main/cpp/AudioStream.cpp:160-167 | the thread survives neither a failing clock nor a refused frame, and nothing else ends it; a turn plays one frame at most |
| `Receiver.PlayRemote` | app/src/main/cpp/AudioStream.cpp:463-464 | after any run the remote timestamp and SSRC are those of the last accepted packet |
| `Receiver.DecodeWaitsOneInterval` | app/src/main/cpp/AudioStream.cpp:421-440 | one `decode` call blocks for one interval at most in all, however many packets it discards, and all its waits end by the same instant |
| `AudioReceiver.Socket.Receive` | app/src/main/cpp/RtpSocket.cpp:114-118 | stores what fits of the datagram, leaves the rest of the buffer alone, and returns the real length, 0 or -1 |
| `AudioReceiver.Stream.ReceiveFirst` | app/src/main/cpp/AudioStream.cpp:487-493 | an empty ring gets the one datagram received, or nothing |
| `AudioReceiver.Stream.Drain` | app/src/main/cpp/AudioStream.cpp:495-505 | the loop refines the queue-level drain and leaves the popped packet intact in its slot |
| `AudioReceiver.Stream.GetPacketFromJB` | app/src/main/cpp/AudioStream.cpp:478-510 | the oldest packet, readable in place, the exact number of drops, and a deadline for the first receive on an empty ring only |
| `AudioReceiver.Stream.PlayPacket` | app/src/main/cpp/AudioStream.cpp:436-475 | one turn of the retry loop, in place, without touching the queue |
| `AudioReceiver.Stream.Decode` | app/src/main/cpp/AudioStream.cpp:412-476 | the retry loop ends and refines the step the run lemmas are about; a failing clock changes nothing |
| `AudioReceiver.Stream.ThreadLoop` | app/src/main/cpp/AudioStream.cpp:160-167 | one iteration; the player stops if and only if it fails |
| `AudioReceiver.Stream.RunThread` | app/src/main/cpp/AudioStream.cpp:160-167 | a run of the receiver plays exactly the frames of the run function |
| `Call.AudioPacketIsFrame` | app/src/main/cpp/AudioStream.cpp:376-466 | what the sender builds, the receiver plays: timestamp, SSRC and samples |
| `Call.DtmfReachesCodecOnlyIfTypesCollide` | app/src/main/cpp/AudioStream.cpp:458-461 | a DTMF packet reaches the codec if and only if both payload types are equal |
| `Call.WireCarriesAudio` | app/src/main/cpp/AudioStream.cpp:332-476 | the frames among everything a run sends are, in order, what its iterations captured, with their timestamps |
| `Call.CallDelivers` | app/src/main/cpp/AudioStream.cpp:332-510 | over any in-order lossy channel the frames played are, in order, a subsequence of what the iterations captured; every frame that arrives is played, under way or dropped; all are delivered if nothing is lost or dropped |
| `Call.EverythingPlayedWasSpoken` | app/src/main/cpp/AudioStream.cpp:332-510 | every frame played was captured by an iteration of the sender and has its timestamp, each sample within the bound of the gained sample, and of the ideally amplified one if and only if it is not 4096 |
| `Call.CallIsAccurate` | app/src/main/cpp/AudioStream.cpp:332-476 | the n-th packet of any run is a frame if and only if the n-th iteration speaks, and then reproduces what it captured within these bounds |
| `Call.WireFits` | app/src/main/cpp/AudioStream.cpp:332-410 | the two packet sizes of a run; every packet fits a receive buffer and holds at most a frame, and fits 16 bits if an audio packet does |
| `Call.ArrivalsFit` | app/src/main/cpp/AudioStream.cpp:332-410 | whatever a lossy channel delivers of a run meets the receiver's precondition |
| `Call.Talk` | app/src/main/cpp/AudioStream.cpp:332-510 | both objects in one call: the player gets, in order, only frames that iterations of the sender captured, each sample within the bounds of `CallIsAccurate`; every frame that arrives is played, under way, or dropped by a call that leaves the ring full, and none is under way after as many working turns as arrivals |

## Left out

- Preconditions of the model: payload types are 0 to 127 or -1 for no DTMF; a datagram fits the receive buffer and a
  16-bit length; an accepted payload is at most one frame long. The source asks the same of its callers without a check.
- Segments for events longer than 16 bits of duration, which RFC 4733 asks for and the source does not send.
- PortSearch.AttemptsAreFreshEvenPorts: the even first port that `create` keeps may be any port the kernel chose.
- Pacing.DelayConverges: assumes the sleeps are exact, the frames are at least one period apart, and no clock reading is earlier than the departure of the packet before.
- Call.Talk: frames of 0xFFF4 samples and more are not covered, since their packets exceed the 16-bit length that the ring stores and any UDP datagram.
- Pacing.RateLimit: assumes the clock always passes the timer and no sleep is short; the exact condition for one step is `Pacing.StepIsPaced`, and `Pacing.ObservedClockIsStrict` derives it from readings and departures.
- Receiver.DecodeWaitsOneInterval: assumes that `recv` does not block longer than its timeout and that the clock does not run back.
- Call.CallDelivers: the channel may lose packets but not reorder, duplicate or forge them; the receiver checks no sequence numbers.
- AudioSender.Stream.Encode: takes the event out of the mailbox in one step; `DtmfMailbox` has the interleaving with the API thread, and `Interleaving` why one step is enough.
- Signed 32-bit overflow of `tv_sec * 1000000`, `1000 * sampleCount`, `mDtmfDuration * 5` and `mTimer`: time and durations are unbounded integers.
- Hosts that are not little-endian, and pointers of 12 octets or more, for which the padding test could succeed.
- Recorder, player, threads, `recv`, `sendto`, `bind`, `gettimeofday`, `usleep` and `/dev/urandom`: their outcomes are parameters, among them short reads, failing clocks, empty datagrams and refused writes; the result of `send` is ignored, as in the source.
- The memory the source allocates and frees, and its stack buffers.
- Virtual dispatch of the two codecs: an `AudioCodec` object has a `law` instead.
- The one AudioStream object is two objects here, since its sending and receiving halves share only the configuration.
- `stopSending` and `stopReceiving` on the objects: they only wait for a thread, which objects without threads cannot show; stopping is an action of `DtmfMailbox`.
- The length of the wait between the two lock attempts of `sendDtmf`.
- The clock readings inside `AudioReceiver`: when a receive ends is part of the socket's outcomes; `Receiver.DecodeWaitsOneInterval` has the time the calls take.
- Java layer, JNI glue, object handles, exceptions, `parse`, `associate`, and the vendored headers.
