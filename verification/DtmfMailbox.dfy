/** The one-slot mailbox `mNextDtmfEvent` between the API thread (`sendDtmf`, `startSending`) and the
    sender thread (`encode`), as an interleaving of their atomic actions. The Java methods are
    synchronized, so there is one API call at a time.
  */
module DtmfMailbox {
  datatype Lock = Free | ByApi | BySender

  /** Where the API thread is inside `sendDtmf`. */
  datatype ApiPc = Idle | Trying(event: int, failures: nat) | Holding(event: int) | Written

  /** Where the sender thread is inside the locked region of `encode`. */
  datatype SenderPc = Outside | Locked | HasRead(value: int) | Cleared

  datatype State = State(mailbox: int, lock: Lock, api: ApiPc, sender: SenderPc, recording: bool)

  /** The atomic actions of the two threads. */
  datatype Action =
    | CallSendDtmf(event: int)
    | TryLock
    | Write
    | ApiUnlock
    | StartSending(startOk: bool)
    | StopSending
    | SenderLock
    | Read
    | Clear
    | SenderUnlock
    | SenderFails

  /** What happened to the mailbox: a successful post, the sender taking its content, a restart. */
  datatype Event = Posted(event: int) | Taken(value: int) | Restarted

  function Initial(): State {
    State(-1, Free, Idle, Outside, false)
  }

  /** One action; an action that is not possible in the current state changes nothing. `dtmf` says
      whether DTMF is enabled.
    */
  function Step(dtmf: bool, s: State, a: Action): State {
    match a
    case CallSendDtmf(event) =>
      if s.api == Idle && 0 <= event <= 15 && s.recording && dtmf then s.(api := Trying(event, 0)) else s
    case TryLock =>
      if !s.api.Trying? then s
      else if s.lock == Free then s.(lock := ByApi, api := Holding(s.api.event))
      else if s.api.failures == 0 then s.(api := Trying(s.api.event, 1))
      else s.(api := Idle)
    case Write =>
      if s.api.Holding? then s.(mailbox := s.api.event, api := Written) else s
    case ApiUnlock =>
      if s.api == Written then s.(lock := Free, api := Idle) else s
    case StartSending(startOk) =>
      if s.api == Idle && s.sender == Outside && !s.recording then s.(mailbox := -1, recording := startOk) else s
    case StopSending =>
      if s.api == Idle && s.sender == Outside then s.(recording := false) else s
    case SenderLock =>
      if s.sender == Outside && s.recording && s.lock == Free then s.(lock := BySender, sender := Locked) else s
    case Read =>
      if s.sender == Locked then s.(sender := HasRead(s.mailbox)) else s
    case Clear =>
      if s.sender.HasRead? then s.(mailbox := -1, sender := Cleared) else s
    case SenderUnlock =>
      if s.sender == Cleared then s.(lock := Free, sender := Outside) else s
    case SenderFails =>
      if s.sender == Outside then s.(recording := false) else s
  }

  /** The mailbox event an action causes, if any. */
  function EventsOf(s: State, a: Action): seq<Event> {
    match a
    case Write => if s.api.Holding? then [Posted(s.api.event)] else []
    case Read => if s.sender == Locked then [Taken(s.mailbox)] else []
    case StartSending(_) => if s.api == Idle && s.sender == Outside && !s.recording then [Restarted] else []
    case _ => []
  }

  function Run(dtmf: bool, actions: seq<Action>): State {
    if actions == [] then Initial()
    else Step(dtmf, Run(dtmf, actions[..|actions| - 1]), actions[|actions| - 1])
  }

  function History(dtmf: bool, actions: seq<Action>): seq<Event> {
    if actions == [] then []
    else
      var before := actions[..|actions| - 1];
      History(dtmf, before) + EventsOf(Run(dtmf, before), actions[|actions| - 1])
  }

  // ----- Invariant -----

  /** The lock is held by the thread that is inside its locked region, and only there is the mailbox
      out of step with its history.
    */
  predicate Invariant(s: State) {
    && (s.lock == ByApi <==> s.api.Holding? || s.api == Written)
    && (s.lock == BySender <==> s.sender != Outside)
    && -1 <= s.mailbox <= 15
    && (s.api.Trying? ==> 0 <= s.api.event <= 15)
    && (s.api.Holding? ==> 0 <= s.api.event <= 15)
    && (s.sender.HasRead? ==> s.mailbox == s.sender.value)
    && (s.sender == Cleared ==> s.mailbox == -1)
  }

  /** The mailbox content that a history implies: a post not followed by anything is pending. */
  function Pending(history: seq<Event>): int {
    if history != [] && history[|history| - 1].Posted? then history[|history| - 1].event else -1
  }

  /** The mailbox agrees with its history, except between the sender's read and its clear. */
  predicate Agrees(s: State, history: seq<Event>) {
    if s.sender.HasRead? then Pending(history) == -1 else s.mailbox == Pending(history)
  }

  lemma StepKeepsInvariant(dtmf: bool, s: State, a: Action)
    requires Invariant(s)
    ensures Invariant(Step(dtmf, s, a))
  {
    match a
    case CallSendDtmf(_) =>
    case TryLock =>
    case Write =>
    case ApiUnlock =>
    case StartSending(_) =>
    case StopSending =>
    case SenderLock =>
    case Read =>
    case Clear =>
    case SenderUnlock =>
    case SenderFails =>
  }

  lemma StepKeepsAgreement(dtmf: bool, s: State, a: Action, history: seq<Event>)
    requires Invariant(s) && Agrees(s, history)
    ensures Agrees(Step(dtmf, s, a), history + EventsOf(s, a))
  {
    assert history + [] == history;
    match a
    case CallSendDtmf(_) =>
    case TryLock =>
    case Write =>
    case ApiUnlock =>
    case StartSending(_) =>
    case StopSending =>
    case SenderLock =>
    case Read =>
    case Clear =>
    case SenderUnlock =>
    case SenderFails =>
  }

  lemma {:induction false} RunInvariant(dtmf: bool, actions: seq<Action>)
    ensures var s := Run(dtmf, actions);
            Invariant(s) && Agrees(s, History(dtmf, actions))
  {
    if actions != [] {
      hide Step, EventsOf, Invariant, Agrees;
      var before, last := actions[..|actions| - 1], actions[|actions| - 1];
      RunInvariant(dtmf, before);
      StepKeepsInvariant(dtmf, Run(dtmf, before), last);
      StepKeepsAgreement(dtmf, Run(dtmf, before), last, History(dtmf, before));
    }
  }

  /** An entry of the history is what its action saw. */
  lemma {:induction false} HistoryEntry(dtmf: bool, actions: seq<Action>, j: nat)
    requires j < |History(dtmf, actions)|
    ensures var h := History(dtmf, actions);
            match h[j]
            case Posted(event) => 0 <= event <= 15
            case Taken(value) => value == Pending(h[..j])
            case Restarted => true
  {
    if actions != [] {
      var before := actions[..|actions| - 1];
      var h := History(dtmf, actions);
      var earlier := History(dtmf, before);
      RunInvariant(dtmf, before);
      if j < |earlier| {
        HistoryEntry(dtmf, before, j);
        assert h[..j] == earlier[..j];
      } else {
        assert h[..j] == earlier;
      }
    }
  }

  // ----- Every run -----

  /** The mailbox is empty or holds one of the sixteen events, in every state of every run. */
  lemma MailboxRange(dtmf: bool, actions: seq<Action>)
    ensures -1 <= Run(dtmf, actions).mailbox <= 15
  {
    RunInvariant(dtmf, actions);
  }

  /** Every event the sender takes is the one successful post directly before it in the history. */
  lemma TakenEventsWerePosted(dtmf: bool, actions: seq<Action>, j: nat)
    requires j < |History(dtmf, actions)| && History(dtmf, actions)[j].Taken?
    ensures var h := History(dtmf, actions);
            var value := h[j].value;
            (value != -1 <==> j > 0 && h[j - 1].Posted?)
            && (value != -1 ==> 0 <= value <= 15 && h[j - 1] == Posted(value))
  {
    HistoryEntry(dtmf, actions, j);
    var h := History(dtmf, actions);
    if j > 0 {
      HistoryEntry(dtmf, actions, j - 1);
      assert h[..j][|h[..j]| - 1] == h[j - 1];
    }
  }

  /** Every successful `sendDtmf` has exactly one fate: the sender takes that very event, a later
      successful post supersedes it, a restart clears it, or it is still pending in the mailbox.
    */
  lemma PostedEventsHaveOneFate(dtmf: bool, actions: seq<Action>, i: nat)
    requires i < |History(dtmf, actions)| && History(dtmf, actions)[i].Posted?
    ensures var h := History(dtmf, actions);
            var event := h[i].event;
            if i + 1 < |h| then h[i + 1] == Taken(event) || h[i + 1].Posted? || h[i + 1] == Restarted
            else Run(dtmf, actions).mailbox == event
  {
    hide Step, Run, History, Invariant;
    var h := History(dtmf, actions);
    RunInvariant(dtmf, actions);
    HistoryEntry(dtmf, actions, i);
    if i + 1 < |h| {
      HistoryEntry(dtmf, actions, i + 1);
      assert h[..i + 1][|h[..i + 1]| - 1] == h[i];
    }
  }

  /** The two threads are never inside the locked region together. */
  lemma MutualExclusion(dtmf: bool, actions: seq<Action>)
    ensures var s := Run(dtmf, actions);
            !((s.api.Holding? || s.api == Written) && s.sender != Outside)
  {
    RunInvariant(dtmf, actions);
  }

  // ----- Nothing gets stuck -----

  lemma RunOne(dtmf: bool, actions: seq<Action>, a: Action)
    ensures Run(dtmf, actions + [a]) == Step(dtmf, Run(dtmf, actions), a)
    ensures History(dtmf, actions + [a]) == History(dtmf, actions) + EventsOf(Run(dtmf, actions), a)
  {
    hide Step, EventsOf;
    assert (actions + [a])[..|actions|] == actions;
  }

  /** Further actions after a run, from the state that it reached. */
  function StepAll(dtmf: bool, s: State, actions: seq<Action>): State
    decreases |actions|
  {
    if actions == [] then s else StepAll(dtmf, Step(dtmf, s, actions[0]), actions[1..])
  }

  function AllEvents(dtmf: bool, s: State, actions: seq<Action>): seq<Event>
    decreases |actions|
  {
    if actions == [] then [] else EventsOf(s, actions[0]) + AllEvents(dtmf, Step(dtmf, s, actions[0]), actions[1..])
  }

  lemma {:induction false} RunMore(dtmf: bool, actions: seq<Action>, more: seq<Action>)
    ensures Run(dtmf, actions + more) == StepAll(dtmf, Run(dtmf, actions), more)
    ensures History(dtmf, actions + more) == History(dtmf, actions) + AllEvents(dtmf, Run(dtmf, actions), more)
    decreases |more|
  {
    hide Step, EventsOf, Run, History;
    if more == [] {
      assert actions + more == actions;
    } else {
      RunOne(dtmf, actions, more[0]);
      RunMore(dtmf, actions + [more[0]], more[1..]);
      assert actions + more == (actions + [more[0]]) + more[1..];
      var s := Run(dtmf, actions);
      assert History(dtmf, actions) + (EventsOf(s, more[0]) + AllEvents(dtmf, Step(dtmf, s, more[0]), more[1..]))
             == History(dtmf, actions) + EventsOf(s, more[0]) + AllEvents(dtmf, Step(dtmf, s, more[0]), more[1..]);
    }
  }

  /** A call is refused at once, and leaves everything as it is, if and only if the event is not valid,
      the recorder does
      not work or DTMF is off.
    */
  lemma CallIsRefused(dtmf: bool, actions: seq<Action>, event: int)
    requires Run(dtmf, actions).api.Idle?
    ensures Run(dtmf, actions + [CallSendDtmf(event)]) == Run(dtmf, actions)
            <==> !(0 <= event <= 15 && Run(dtmf, actions).recording && dtmf)
  {
    RunOne(dtmf, actions, CallSendDtmf(event));
  }

  /** A call that finds the lock free posts its event: the mailbox holds it, and the lock is free again. */
  lemma CallPosts(dtmf: bool, actions: seq<Action>, event: int)
    requires var s := Run(dtmf, actions);
             s.api.Idle? && s.lock.Free? && 0 <= event <= 15 && s.recording && dtmf
    ensures var after := actions + [CallSendDtmf(event), TryLock, Write, ApiUnlock];
            && Run(dtmf, after) == Run(dtmf, actions).(mailbox := event)
            && History(dtmf, after) == History(dtmf, actions) + [Posted(event)]
  {
    RunInvariant(dtmf, actions);
    hide Run, History;
    var s := Run(dtmf, actions);
    RunMore(dtmf, actions, [CallSendDtmf(event), TryLock, Write, ApiUnlock]);
    FourSteps(dtmf, s, CallSendDtmf(event), TryLock, Write, ApiUnlock);
  }

  /** A call that finds the lock taken at its first try, and free at its second after any actions of the sender, posts
      its event as well.
    */
  lemma SecondTryPosts(dtmf: bool, actions: seq<Action>)
    requires var s := Run(dtmf, actions);
             s.api.Trying? && s.lock.Free?
    ensures var s := Run(dtmf, actions);
            var after := actions + [TryLock, Write, ApiUnlock];
            && Run(dtmf, after) == s.(mailbox := s.api.event, api := Idle)
            && History(dtmf, after) == History(dtmf, actions) + [Posted(s.api.event)]
  {
    RunInvariant(dtmf, actions);
    hide Run, History;
    RunMore(dtmf, actions, [TryLock, Write, ApiUnlock]);
    ThreeSteps(dtmf, Run(dtmf, actions), TryLock, Write, ApiUnlock);
  }

  /** A try that finds the lock taken changes nothing but the call's own state: after the first,
      the call tries once more
      with the same event; after the second it has failed.
    */
  lemma TakenLockIsRetriedOnce(dtmf: bool, actions: seq<Action>)
    requires Run(dtmf, actions).api.Trying? && !Run(dtmf, actions).lock.Free?
    ensures var s := Run(dtmf, actions);
            var after := actions + [TryLock];
            && Run(dtmf, after) == s.(api := if s.api.failures == 0 then Trying(s.api.event, 1) else Idle)
            && History(dtmf, after) == History(dtmf, actions)
  {
    RunOne(dtmf, actions, TryLock);
    assert History(dtmf, actions) + [] == History(dtmf, actions);
  }

  /** A call that meets the sender's lock twice ends without an event. */
  lemma CallFailsOnTwoTries(dtmf: bool, actions: seq<Action>, event: int)
    requires var s := Run(dtmf, actions);
             s.api.Idle? && s.lock.BySender? && 0 <= event <= 15 && s.recording && dtmf
    ensures var after := actions + [CallSendDtmf(event), TryLock, TryLock];
            Run(dtmf, after) == Run(dtmf, actions) && History(dtmf, after) == History(dtmf, actions)
  {
    hide Run, History;
    RunMore(dtmf, actions, [CallSendDtmf(event), TryLock, TryLock]);
    ThreeSteps(dtmf, Run(dtmf, actions), CallSendDtmf(event), TryLock, TryLock);
    assert History(dtmf, actions) + [] == History(dtmf, actions);
  }

  /** A sender that finds the lock free takes what the mailbox holds and leaves it empty, with the lock free again. */
  lemma SenderTakes(dtmf: bool, actions: seq<Action>)
    requires var s := Run(dtmf, actions);
             s.sender.Outside? && s.lock.Free? && s.recording
    ensures var after := actions + [SenderLock, Read, Clear, SenderUnlock];
            && Run(dtmf, after) == Run(dtmf, actions).(mailbox := -1)
            && History(dtmf, after) == History(dtmf, actions) + [Taken(Run(dtmf, actions).mailbox)]
  {
    hide Run, History;
    RunMore(dtmf, actions, [SenderLock, Read, Clear, SenderUnlock]);
    FourSteps(dtmf, Run(dtmf, actions), SenderLock, Read, Clear, SenderUnlock);
  }

  /** Whoever holds the lock can always go on and give it back, whatever the other thread does not do. */
  lemma LockIsGivenBack(dtmf: bool, actions: seq<Action>)
    ensures var s := Run(dtmf, actions);
            && (s.lock.ByApi? ==> Run(dtmf, actions + [Write, ApiUnlock]).lock.Free?)
            && (s.lock.BySender? ==> Run(dtmf, actions + [Read, Clear, SenderUnlock]).lock.Free?)
  {
    RunInvariant(dtmf, actions);
    hide Run;
    RunMore(dtmf, actions, [Write, ApiUnlock]);
    RunMore(dtmf, actions, [Read, Clear, SenderUnlock]);
    TwoSteps(dtmf, Run(dtmf, actions), Write, ApiUnlock);
    ThreeSteps(dtmf, Run(dtmf, actions), Read, Clear, SenderUnlock);
  }

  /** A start on a stopped stream clears the mailbox, also if the recorder does not start; otherwise it does nothing.
      A stop, and a failing iteration, end the recording and leave the mailbox alone.
    */
  lemma StartAndStop(dtmf: bool, actions: seq<Action>, startOk: bool)
    requires var s := Run(dtmf, actions);
             s.api.Idle? && s.sender.Outside?
    ensures var s := Run(dtmf, actions);
            && Run(dtmf, actions + [StartSending(startOk)])
               == (if s.recording then s else s.(mailbox := -1, recording := startOk))
            && History(dtmf, actions + [StartSending(startOk)])
               == History(dtmf, actions) + (if s.recording then [] else [Restarted])
            && Run(dtmf, actions + [StopSending]) == Run(dtmf, actions + [SenderFails]) == s.(recording := false)
  {
    RunOne(dtmf, actions, StartSending(startOk));
    RunOne(dtmf, actions, StopSending);
    RunOne(dtmf, actions, SenderFails);
  }

  lemma TwoSteps(dtmf: bool, s: State, a: Action, b: Action)
    ensures StepAll(dtmf, s, [a, b]) == Step(dtmf, Step(dtmf, s, a), b)
    ensures AllEvents(dtmf, s, [a, b]) == EventsOf(s, a) + EventsOf(Step(dtmf, s, a), b)
  {
    hide Step, EventsOf;
    assert [a, b][1..] == [b] && [b][1..] == [];
    var s1 := Step(dtmf, s, a);
    assert StepAll(dtmf, s1, [b]) == StepAll(dtmf, Step(dtmf, s1, b), []);
    assert AllEvents(dtmf, s1, [b]) == EventsOf(s1, b) + AllEvents(dtmf, Step(dtmf, s1, b), []);
  }

  lemma ThreeSteps(dtmf: bool, s: State, a: Action, b: Action, c: Action)
    ensures StepAll(dtmf, s, [a, b, c]) == Step(dtmf, Step(dtmf, Step(dtmf, s, a), b), c)
    ensures AllEvents(dtmf, s, [a, b, c])
            == EventsOf(s, a) + (EventsOf(Step(dtmf, s, a), b) + EventsOf(Step(dtmf, Step(dtmf, s, a), b), c))
  {
    hide Step, EventsOf;
    assert [a, b, c][1..] == [b, c];
    TwoSteps(dtmf, Step(dtmf, s, a), b, c);
  }

  lemma FourSteps(dtmf: bool, s: State, a: Action, b: Action, c: Action, d: Action)
    ensures var s1 := Step(dtmf, s, a);
            var s2 := Step(dtmf, s1, b);
            var s3 := Step(dtmf, s2, c);
            && StepAll(dtmf, s, [a, b, c, d]) == Step(dtmf, s3, d)
            && AllEvents(dtmf, s, [a, b, c, d])
               == EventsOf(s, a) + (EventsOf(s1, b) + (EventsOf(s2, c) + EventsOf(s3, d)))
  {
    hide Step, EventsOf;
    assert [a, b, c, d][1..] == [b, c, d];
    ThreeSteps(dtmf, Step(dtmf, s, a), b, c, d);
  }
}
