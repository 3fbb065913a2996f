/** Why a sender run may treat the mailbox as one atomic step: in every interleaving of the two threads, the
    sender takes what a run with a `Post` for each successful post would find in its mailbox.
  */
module Interleaving {
  import opened Bits
  import opened Wrappers
  import opened G711
  import opened MicGain
  import opened RtpPacket
  import opened Pacing
  import opened Sender
  import Mailbox = DtmfMailbox

  /** A mailbox history as actions of a sender run: a post is a post, and where the sender takes the
      content, it goes through the iteration in `ticks`.
    */
  function ActionsOf(history: seq<Mailbox.Event>, ticks: seq<Action>): (acts: seq<Action>)
    requires |ticks| == |history|
    ensures |acts| == |history|
  {
    seq(|history|, k requires 0 <= k < |history| =>
      if history[k].Posted? then Post(history[k].event) else ticks[k])
  }

  /** An iteration for every place at which the sender takes the mailbox content. It takes it only after it has
      read a full frame.
    */
  predicate FullFrames(c: Config, history: seq<Mailbox.Event>, ticks: seq<Action>) {
    && |ticks| == |history|
    && forall k :: 0 <= k < |history| && history[k].Taken? ==> ticks[k].Tick? && |ticks[k].captured| == c.sampleCount
  }

  /** The sender's fields after a history: posts, iterations and restarts, one life of the thread after the
      other.
    */
  function After(c: Config, st: SenderState, history: seq<Mailbox.Event>, ticks: seq<Action>): (r: SenderState)
    requires c.Valid() && st.Valid(c) && FullFrames(c, history, ticks)
    ensures r.Valid(c)
  {
    if history == [] then st
    else
      var last := |history| - 1;
      EntryOf(c, After(c, st, history[..last], ticks[..last]), history[last], ticks[last])
  }

  function EntryOf(c: Config, st: SenderState, entry: Mailbox.Event, tick: Action): (r: SenderState)
    requires c.Valid() && st.Valid(c) && (entry.Taken? ==> tick.Tick?)
    ensures r.Valid(c)
  {
    match entry
    case Posted(event) => PostStep(c, st, event)
    case Taken(_) => EncodeStep(c, st, tick.captured, tick.clock).state
    case Restarted => StartStep(st)
  }

  /** Nothing is ever posted while DTMF is disabled. */
  lemma {:induction false} NoPostsWhenDisabled(actions: seq<Mailbox.Action>)
    ensures Mailbox.Run(false, actions).api.Idle?
    ensures forall e :: e in Mailbox.History(false, actions) ==> !e.Posted?
  {
    if actions != [] {
      NoPostsWhenDisabled(actions[..|actions| - 1]);
    }
  }

  /** Whatever an iteration does after reading a full frame, it leaves the mailbox empty. */
  lemma StepEmptiesMailbox(c: Config, st: SenderState, captured: seq<Int16>, clock: Option<int>)
    requires c.Valid() && st.Valid(c) && |captured| == c.sampleCount
    ensures EncodeStep(c, st, captured, clock).state.nextEvent == -1
  {
    hide AudioPacket, DtmfPacket, EncodeFrame, AmplifyFrame, NextTimer, Shl, U32, ToU16;
  }

  lemma SingleAction(c: Config, st: SenderState, act: Action)
    requires c.Valid() && st.Valid(c)
    ensures Run(c, st, [act]).final
            == if act.Post? then PostStep(c, st, act.event) else EncodeStep(c, st, act.captured, act.clock).state
  {
    hide EncodeStep, PostStep;
    if act.Tick? { RunTick(c, st, [act]); }
  }

  /** In every interleaving, over any number of lives of the thread and whatever fails, the sender's mailbox
      field is the interleaved mailbox.
    */
  lemma {:induction false} MailboxIsFollowed(c: Config, st: SenderState, actions: seq<Mailbox.Action>, n: nat,
                                             ticks: seq<Action>)
    requires c.Valid() && st.Valid(c) && st.nextEvent == -1
    requires var h := Mailbox.History(c.dtmfType != -1, actions);
             n <= |h| && FullFrames(c, h, ticks)
    ensures var h := Mailbox.History(c.dtmfType != -1, actions);
            After(c, st, h[..n], ticks[..n]).nextEvent == Mailbox.Pending(h[..n])
  {
    hide EncodeStep, Mailbox.History, Mailbox.Run;
    if n > 0 {
      var h := Mailbox.History(c.dtmfType != -1, actions);
      MailboxIsFollowed(c, st, actions, n - 1, ticks);
      AfterNext(c, st, h, ticks, n - 1);
      var before := After(c, st, h[..n - 1], ticks[..n - 1]);
      assert h[..n][|h[..n]| - 1] == h[n - 1];
      match h[n - 1]
      case Posted(event) =>
        Mailbox.HistoryEntry(c.dtmfType != -1, actions, n - 1);
        if c.dtmfType == -1 { NoPostsWhenDisabled(actions); }
      case Taken(_) =>
        StepEmptiesMailbox(c, before, ticks[n - 1].captured, ticks[n - 1].clock);
      case Restarted =>
    }
  }

  lemma AfterNext(c: Config, st: SenderState, history: seq<Mailbox.Event>, ticks: seq<Action>, n: nat)
    requires c.Valid() && st.Valid(c) && FullFrames(c, history, ticks) && n < |history|
    ensures After(c, st, history[..n + 1], ticks[..n + 1])
            == EntryOf(c, After(c, st, history[..n], ticks[..n]), history[n], ticks[n])
  {
    hide EntryOf;
    assert history[..n + 1][..n] == history[..n] && ticks[..n + 1][..n] == ticks[..n];
  }

  /** In every interleaving, what the sender takes at entry `j` is what the sequential sender finds in its
      mailbox when it comes to that iteration; and if it is an event, the iteration sends that event's first
      packet.
    */
  lemma TakenIsWhatTheSenderFinds(c: Config, st: SenderState, actions: seq<Mailbox.Action>, j: nat,
                                  ticks: seq<Action>)
    requires c.Valid() && st.Valid(c) && st.nextEvent == -1
    requires var h := Mailbox.History(c.dtmfType != -1, actions);
             j < |h| && h[j].Taken? && FullFrames(c, h, ticks)
    ensures var h := Mailbox.History(c.dtmfType != -1, actions);
            var before := After(c, st, h[..j], ticks[..j]);
            var taken := h[j].value;
            && before.nextEvent == taken
            && (taken != -1 ==>
                  && taken >= 0
                  && EncodeStep(c, before, ticks[j].captured, ticks[j].clock).sent
                     == Some(EventPacket(c, taken, 0, before.sequence + 1, before.timestamp)))
  {
    hide EncodeStep, After, Mailbox.History, Mailbox.Run, EventPacket, EventPackets;
    var h := Mailbox.History(c.dtmfType != -1, actions);
    MailboxIsFollowed(c, st, actions, j, ticks);
    Mailbox.HistoryEntry(c.dtmfType != -1, actions, j);
    var before := After(c, st, h[..j], ticks[..j]);
    if h[j].value != -1 {
      EventPacketsIsCeiling(c, 0);
      EventStep(c, before, h[j].value, 0, ticks[j].captured, ticks[j].clock);
      NoWrap(before);
    }
  }

  /** Between restarts, the sequential sender is a sender run, up to the first iteration that fails. */
  lemma {:induction false} LifeIsRun(c: Config, st: SenderState, history: seq<Mailbox.Event>, start: nat, end: nat,
                                     ticks: seq<Action>)
    requires c.Valid() && st.Valid(c) && FullFrames(c, history, ticks) && start <= end <= |history|
    requires forall k :: start <= k < end ==> !history[k].Restarted?
    ensures var tr := Run(c, After(c, st, history[..start], ticks[..start]), ActionsOf(history, ticks)[start..end]);
            tr.ok ==> tr.final == After(c, st, history[..end], ticks[..end])
    decreases end - start
  {
    hide Run, EncodeStep, PostStep, After;
    var acts := ActionsOf(history, ticks);
    var first := After(c, st, history[..start], ticks[..start]);
    if start == end {
      EmptyRun(c, first);
      assert acts[start..end] == [];
    } else {
      LifeIsRun(c, st, history, start, end - 1, ticks);
      assert acts[start..end] == acts[start..end - 1] + [acts[end - 1]];
      RunAppend(c, first, acts[start..end - 1], [acts[end - 1]]);
      SingleAction(c, Run(c, first, acts[start..end - 1]).final, acts[end - 1]);
      AfterNext(c, st, history, ticks, end - 1);
    }
  }

  lemma EmptyRun(c: Config, st: SenderState)
    requires c.Valid() && st.Valid(c)
    ensures Run(c, st, []) == Trace(st, [], true)
  {}
}
