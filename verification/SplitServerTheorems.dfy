/** The stop protocol and the internal calls of the split server. */
module SplitServerTheorems {
  import opened Basics
  import opened JsonText
  import opened SplitServer

  // ---------------------------------------------------------------- the invariant

  /** How far the stop of one channel has come: not begun, sent and waiting, acknowledged. */
  predicate ChannelStop(begun: bool, acked: bool, stopped: bool, acks: nat, link: Link) {
    if !begun then !stopped && acks == 0 && link == Link(None, None)
    else if !acked then
      || (link == Link(Some(STOP), None) && !stopped && acks == 0)
      || (link == Link(None, Some(STOP)) && stopped && acks == 1)
    else stopped && acks == 1 && link == Link(None, None)
  }

  /** Control has sent its stop to the channel of this stage. */
  predicate Begun(mode: ControlMode, stage: Stage) {
    mode == Finished || (mode.Stopping? && (Rank(mode.stage) > Rank(stage) || (mode.stage == stage && mode.sent)))
  }

  /** Control has received the acknowledgement of the channel of this stage. */
  predicate Acked(mode: ControlMode, stage: Stage) {
    mode == Finished || (mode.Stopping? && Rank(mode.stage) > Rank(stage))
  }

  function Rank(stage: Stage): nat {
    match stage
    case ToShell => 0
    case ToPublisher => 1
    case ToHeartbeat => 2
  }

  /** The message of control's call lies in the link, unseen by the shell. */
  predicate Asked(c: JsonCodec, control: Control, shell: Shell, message: Json) {
    && shell.link == Link(Some(c.dump(message)), None)
    && shell.served == control.returned
  }

  /** The shell has answered control's call, and control has not taken the answer. */
  predicate Answered(c: JsonCodec, control: Control, shell: Shell, message: Json) {
    var n := |control.returned|;
    && |shell.served| == n + 1
    && shell.served[..n] == control.returned
    && shell.served[n].0 == message
    && shell.link == Link(None, Some(c.dump(shell.served[n].1)))
  }

  /** While control waits for an answer, its message is on its way to the shell, being handled, or the
      result is on its way back; each answer goes back for its own message. */
  predicate ShellSide(c: JsonCodec, control: Control, shell: Shell) {
    if control.mode.Calling? then
      && shell.acks == 0 && shell.mode != ShellStopped
      && if shell.mode.Internal? then
           shell.mode.message == control.mode.message && shell.link == EMPTY && shell.served == control.returned
         else Asked(c, control, shell, control.mode.message) || Answered(c, control, shell, control.mode.message)
    else
      && shell.served == control.returned && !shell.mode.Internal?
      && ChannelStop(Begun(control.mode, ToShell), Acked(control.mode, ToShell), shell.mode == ShellStopped,
                     shell.acks, shell.link)
  }

  /** What a round still has to act on is there. */
  predicate LoopSide(begun: bool, acked: bool, t: Loop) {
    && ChannelStop(begun, acked, t.mode == Ended, t.acks, t.link)
    && (t.mode.Round? ==>
        && (t.mode.data || t.mode.stop || t.mode.events)
        && (t.mode.data ==> t.data > 0)
        && (t.mode.stop ==> t.link.request.Some?)
        && (t.mode.events ==> t.events > 0))
  }

  predicate PublisherSide(s: State) {
    LoopSide(Begun(s.control.mode, ToPublisher), Acked(s.control.mode, ToPublisher), s.publisher)
  }

  predicate HeartbeatSide(s: State) {
    && LoopSide(Begun(s.control.mode, ToHeartbeat), Acked(s.control.mode, ToHeartbeat), s.heartbeat)
    && s.heartbeat.events == 0
  }

  predicate Inv(c: JsonCodec, s: State) {
    && ShellSide(c, s.control, s.shell)
    && PublisherSide(s)
    && HeartbeatSide(s)
    && (s.control.mode.Stopping? || s.control.mode == Finished ==> s.control.requestStop)
  }

  lemma StepKeepsShellSide(c: JsonCodec, s: State, a: Action)
    requires c.Valid() && Enabled(s, a) && ShellSide(c, s.control, s.shell)
    ensures ShellSide(c, Apply(c, s, a).control, Apply(c, s, a).shell)
  {
    hide LoopEnabled, LoopNext;
    if a.TakeController? && s.control.mode.Calling? {
      assert c.dump(s.control.mode.message) != STOP;
      assert Parsed(c, c.dump(s.control.mode.message)) == s.control.mode.message;
    }
    if a.TakeAnswer? {
      var n := |s.control.returned|;
      assert Parsed(c, c.dump(s.shell.served[n].1)) == s.shell.served[n].1;
      assert s.shell.served == s.shell.served[..n] + [s.shell.served[n]];
    }
  }

  lemma LoopStepKeeps(begun: bool, acked: bool, t: Loop, step: LoopStep)
    requires LoopEnabled(t, step) && LoopSide(begun, acked, t)
    ensures LoopSide(begun, acked, LoopNext(t, step))
  {}

  lemma MoreWorkKeeps(begun: bool, acked: bool, t: Loop, more: Loop)
    requires LoopSide(begun, acked, t)
    requires more == t.(data := t.data + 1) || more == t.(events := t.events + 1)
    ensures LoopSide(begun, acked, more)
  {}

  lemma StepKeepsPublisherSide(c: JsonCodec, s: State, a: Action)
    requires Enabled(s, a) && PublisherSide(s)
    ensures PublisherSide(Apply(c, s, a))
  {
    var begun, acked := Begun(s.control.mode, ToPublisher), Acked(s.control.mode, ToPublisher);
    if a.OfPublisher? {
      LoopStepKeeps(begun, acked, s.publisher, a.step);
    } else if a.ControlPublishes? || a.ShellPublishes? || a.ArriveEvent? {
      MoreWorkKeeps(begun, acked, s.publisher, Apply(c, s, a).publisher);
    }
    hide LoopEnabled, LoopNext;
  }

  lemma StepKeepsHeartbeatSide(c: JsonCodec, s: State, a: Action)
    requires Enabled(s, a) && HeartbeatSide(s)
    ensures HeartbeatSide(Apply(c, s, a))
  {
    var begun, acked := Begun(s.control.mode, ToHeartbeat), Acked(s.control.mode, ToHeartbeat);
    if a.OfHeartbeat? {
      LoopStepKeeps(begun, acked, s.heartbeat, a.step);
      assert LoopNext(s.heartbeat, a.step).events == 0;
    } else if a.ArrivePing? {
      MoreWorkKeeps(begun, acked, s.heartbeat, Apply(c, s, a).heartbeat);
    }
    hide LoopEnabled, LoopNext;
  }

  lemma StepKeepsInv(c: JsonCodec, s: State, a: Action)
    requires c.Valid() && Inv(c, s) && Enabled(s, a)
    ensures Inv(c, Apply(c, s, a))
  {
    StepKeepsShellSide(c, s, a);
    StepKeepsPublisherSide(c, s, a);
    StepKeepsHeartbeatSide(c, s, a);
    hide ShellSide, PublisherSide, HeartbeatSide, LoopEnabled, LoopNext;
  }

  lemma {:induction false} RunKeepsInv(c: JsonCodec, s: State, actions: seq<Action>)
    requires c.Valid() && Inv(c, s) && Runnable(c, s, actions)
    ensures Inv(c, Exec(c, s, actions))
    decreases |actions|
  {
    hide Inv, Enabled, Apply;
    if actions != [] {
      StepKeepsInv(c, s, actions[0]);
      RunKeepsInv(c, Apply(c, s, actions[0]), actions[1..]);
    }
  }

  lemma InitKeepsInv(c: JsonCodec, arrivals: nat, publications: nat, calls: nat)
    ensures Inv(c, Init(arrivals, publications, calls))
  {}

  // ---------------------------------------------------------------- safety of the stop

  /** Every loop has consumed its stop and acknowledged it once, and nothing is on its way. */
  predicate Stopped(s: State) {
    && s.shell.mode == ShellStopped && s.publisher.mode == Ended && s.heartbeat.mode == Ended
    && s.shell.acks == 1 && s.publisher.acks == 1 && s.heartbeat.acks == 1
    && s.shell.link == s.publisher.link == s.heartbeat.link == EMPTY
  }

  /** When `stop_channels` has returned every loop has stopped. The loops stop in order, none of them
      before the stop was requested. */
  lemma StopIsOrdered(c: JsonCodec, arrivals: nat, publications: nat, calls: nat, actions: seq<Action>)
    requires c.Valid() && Runnable(c, Init(arrivals, publications, calls), actions)
    ensures var s := Exec(c, Init(arrivals, publications, calls), actions);
            && (s.control.mode == Finished ==> Stopped(s))
            && (s.heartbeat.mode == Ended ==> s.publisher.mode == Ended && s.publisher.acks == 1)
            && (s.publisher.mode == Ended ==> s.shell.mode == ShellStopped && s.shell.acks == 1)
            && (s.shell.mode == ShellStopped ==> s.control.requestStop)
  {
    InitKeepsInv(c, arrivals, publications, calls);
    RunKeepsInv(c, Init(arrivals, publications, calls), actions);
    hide Exec, Runnable;
  }

  /** No loop takes a further message once `stop_channels` has returned: only clients act, for ever. */
  lemma {:induction false} NothingRunsAfterTheStop(c: JsonCodec, s: State, actions: seq<Action>)
    requires c.Valid() && Inv(c, s) && s.control.mode == Finished && Runnable(c, s, actions)
    ensures forall a :: a in actions ==> FromClients(a)
    ensures Stopped(Exec(c, s, actions))
    decreases |actions|
  {
    if actions != [] {
      StepKeepsInv(c, s, actions[0]);
      NothingRunsAfterTheStop(c, Apply(c, s, actions[0]), actions[1..]);
    }
  }

  // ---------------------------------------------------------------- the internal calls

  /** Every call from control to the shell returns the result of the listener for its own message, in
      order; at most one call is open, and the shell never takes a call for a stop or a stop for a call. */
  lemma CallsReturnTheirOwnAnswers(c: JsonCodec, arrivals: nat, publications: nat, calls: nat, actions: seq<Action>)
    requires c.Valid() && Runnable(c, Init(arrivals, publications, calls), actions)
    ensures var s := Exec(c, Init(arrivals, publications, calls), actions);
            && s.control.returned <= s.shell.served && |s.shell.served| <= |s.control.returned| + 1
            && (!s.control.mode.Calling? ==> s.shell.served == s.control.returned)
            && (s.control.mode.Calling? ==> s.shell.mode != ShellStopped)
            && (s.shell.mode.Internal? ==> s.control.mode == Calling(s.shell.mode.message))
  {
    InitKeepsInv(c, arrivals, publications, calls);
    RunKeepsInv(c, Init(arrivals, publications, calls), actions);
    hide Exec, Runnable;
  }

  /** The shell end of the link alternates: it receives only when it owes no answer, and it answers only
      a request it has received, whose answer finds the link empty. */
  lemma ShellAlternates(c: JsonCodec, s: State, a: Action)
    requires c.Valid() && Inv(c, s) && Enabled(s, a)
    ensures s.shell.link.request.None? || s.shell.link.reply.None?
    ensures a.TakeController? ==>
              s.shell.link.reply.None? && (s.shell.link.request == Some(STOP) <==> s.control.mode.Stopping?)
    ensures a.TakeController? && s.control.mode.Calling? ==> c.Readable(s.shell.link.request.value)
    ensures a.TakeAnswer? ==> c.Readable(s.shell.link.reply.value)
    ensures a.AnswerInternal? ==> s.shell.link == EMPTY && s.control.mode.Calling?
    ensures a.TakeAnswer? ==> s.shell.link.request.None? && s.shell.mode != ShellStopped
    ensures a.CallShell? || (a.SendStop? && s.control.mode.stage == ToShell) ==> s.shell.link == EMPTY
  {
  }

  // ---------------------------------------------------------------- termination

  function ControlWeight(mode: ControlMode): nat {
    match mode
    case Reading => 72
    case Handling => 73
    case Calling(_) => 73
    case Stopping(ToShell, sent) => if sent then 51 else 60
    case Stopping(ToPublisher, sent) => if sent then 31 else 40
    case Stopping(ToHeartbeat, sent) => if sent then 11 else 20
    case Finished => 0
  }

  function ShellWeight(mode: ShellMode): nat {
    match mode
    case Serving => 1
    case Internal(_) => 5
    case Polling => 0
    case ShellStopped => 0
  }

  function LinkWeight(link: Link): nat {
    (if link.request.Some? then 8 else 0) + (if link.reply.Some? then 3 else 0)
  }

  function ControlPart(control: Control): nat {
    ControlWeight(control.mode) + 3 * control.inbox + (if control.requestStop then 0 else 1)
  }

  function ShellPart(shell: Shell): nat {
    ShellWeight(shell.mode) + 3 * shell.inbox + LinkWeight(shell.link)
  }

  function LoopPart(t: Loop): nat {
    (match t.mode case Idle => 2 case Round(_, _, _) => 1 case Ended => 0)
    + 3 * t.data + 3 * t.events + LinkWeight(t.link)
  }

  /** What the system can still do. */
  function Measure(s: State): nat {
    20 * s.calls + 6 * s.publications + 4 * s.arrivals
    + ControlPart(s.control) + ShellPart(s.shell) + LoopPart(s.publisher) + LoopPart(s.heartbeat)
  }

  lemma LoopStepDecreases(t: Loop, step: LoopStep)
    requires LoopEnabled(t, step)
    ensures LoopPart(LoopNext(t, step)) < LoopPart(t)
  {}

  lemma WithLinkWeighs(s: State, stage: Stage, link: Link)
    ensures Measure(WithLink(s, stage, link)) == Measure(s) - LinkWeight(LinkOf(s, stage)) + LinkWeight(link)
  {}

  lemma SendStopDecreases(c: JsonCodec, s: State)
    requires Enabled(s, SendStop)
    ensures Measure(Apply(c, s, SendStop)) < Measure(s)
  {
    WithLinkWeighs(s, s.control.mode.stage, Link(Some(STOP), None));
    hide ShellPart, LoopPart;
  }

  lemma TakeAckDecreases(c: JsonCodec, s: State)
    requires Enabled(s, TakeAck)
    ensures Measure(Apply(c, s, TakeAck)) < Measure(s)
  {
    WithLinkWeighs(s, s.control.mode.stage, Link(LinkOf(s, s.control.mode.stage).request, None));
    hide ShellPart, LoopPart;
  }

  lemma StepDecreases(c: JsonCodec, s: State, a: Action)
    requires Enabled(s, a)
    ensures Measure(Apply(c, s, a)) < Measure(s)
  {
    match a
    case SendStop => SendStopDecreases(c, s);
    case TakeAck => TakeAckDecreases(c, s);
    case OfPublisher(step) => LoopStepDecreases(s.publisher, step);
    case OfHeartbeat(step) => LoopStepDecreases(s.heartbeat, step);
    case _ => LocalStepDecreases(c, s, a);
    hide LoopEnabled, LoopNext, LoopPart, ShellPart, ControlPart, LinkOf, WithLink;
  }

  /** The steps of control and shell outside the stop protocol, and those of the clients. */
  lemma LocalStepDecreases(c: JsonCodec, s: State, a: Action)
    requires Enabled(s, a) && a != SendStop && a != TakeAck && !a.OfPublisher? && !a.OfHeartbeat?
    ensures Measure(Apply(c, s, a)) < Measure(s)
  {
  }

  lemma {:induction false} RunIsShort(c: JsonCodec, s: State, actions: seq<Action>)
    requires Runnable(c, s, actions)
    ensures |actions| + Measure(Exec(c, s, actions)) <= Measure(s)
    decreases |actions|
  {
    hide Enabled, Apply, Measure;
    if actions != [] {
      StepDecreases(c, s, actions[0]);
      RunIsShort(c, Apply(c, s, actions[0]), actions[1..]);
    }
  }

  /** Whatever the interleaving, a run is over after a number of steps known in advance. */
  lemma EveryRunEnds(c: JsonCodec, arrivals: nat, publications: nat, calls: nat, actions: seq<Action>)
    requires Runnable(c, Init(arrivals, publications, calls), actions)
    ensures |actions| <= 20 * calls + 6 * publications + 4 * arrivals + 77
  {
    RunIsShort(c, Init(arrivals, publications, calls), actions);
  }

  // ---------------------------------------------------------------- progress

  /** No thread of the server can take a step. */
  ghost predicate Quiet(s: State) { forall a :: Enabled(s, a) ==> FromClients(a) }

  /** The loops have nothing to do, with control blocked in its read. */
  predicate Waiting(s: State) {
    && s.control.mode == Reading && s.control.inbox == 0
    && s.shell.mode == Polling && s.shell.inbox == 0
    && s.publisher.mode == Idle && s.publisher.data == 0 && s.publisher.events == 0
    && s.heartbeat.mode == Idle && s.heartbeat.data == 0
  }

  function RoundStep(mode: LoopMode): LoopStep
    requires mode.Round?
  {
    if mode.data then TakeData else if mode.stop then TakeStop else TakeEvent
  }

  /** A step of the server in a state that is neither finished nor waiting. */
  lemma Progress(c: JsonCodec, s: State) returns (a: Action)
    requires c.Valid() && Inv(c, s) && s.control.mode != Finished && !Waiting(s)
    ensures Enabled(s, a) && !FromClients(a)
  {
    if s.shell.mode == Serving {
      a := FinishShell;
    } else if s.shell.mode.Internal? {
      a := AnswerInternal(Null);
    } else if s.shell.mode == Polling && s.shell.inbox > 0 {
      a := TakeShell(false);
    } else if s.publisher.mode.Round? {
      a := OfPublisher(RoundStep(s.publisher.mode));
    } else if s.heartbeat.mode.Round? {
      a := OfHeartbeat(RoundStep(s.heartbeat.mode));
    } else {
      a := PollingProgress(c, s);
    }
  }

  /** With the shell between messages and no round open, control or a new round moves. */
  lemma PollingProgress(c: JsonCodec, s: State) returns (a: Action)
    requires c.Valid() && Inv(c, s) && s.control.mode != Finished && !Waiting(s)
    requires s.shell.mode == ShellStopped || (s.shell.mode == Polling && s.shell.inbox == 0)
    requires !s.publisher.mode.Round? && !s.heartbeat.mode.Round?
    ensures Enabled(s, a) && !FromClients(a)
  {
    if s.control.mode == Handling {
      a := FinishControl;
    } else if s.control.mode.Calling? {
      a := if s.shell.link.request.Some? then TakeController else TakeAnswer;
    } else if s.control.mode.Stopping? && !s.control.mode.sent {
      a := SendStop;
    } else if s.control.mode.Stopping? && LinkOf(s, s.control.mode.stage).reply.Some? {
      a := TakeAck;
    } else if s.control.mode.Stopping? {
      a := match s.control.mode.stage
           case ToShell => TakeController
           case ToPublisher => OfPublisher(Poll(false, true, false))
           case ToHeartbeat => OfHeartbeat(Poll(false, true, false));
    } else if s.control.inbox > 0 {
      a := TakeControl(false);
    } else {
      a := if s.heartbeat.data > 0 then OfHeartbeat(Poll(true, false, false))
           else OfPublisher(Poll(s.publisher.data > 0, false, s.publisher.events > 0));
    }
  }

  /** The server comes to rest exactly when the stop is complete or control blocks in its read with
      every loop idle: the priority of shell messages over the controller causes no deadlock. */
  lemma QuietExactlyWhen(c: JsonCodec, s: State)
    requires c.Valid() && Inv(c, s)
    ensures Quiet(s) <==> s.control.mode == Finished || Waiting(s)
  {
    if s.control.mode != Finished && !Waiting(s) {
      var a := Progress(c, s);
    }
  }

  /** Control never goes back to its read once the stop is requested, and leaves it only for a message. */
  lemma {:induction false} ControlLeavesItsRead(c: JsonCodec, s: State, actions: seq<Action>)
    requires s.control.requestStop && Runnable(c, s, actions)
    ensures Exec(c, s, actions).control.requestStop
    ensures Exec(c, s, actions).control.mode == Reading <==>
            s.control.mode == Reading && forall a :: a in actions ==> !a.TakeControl?
    decreases |actions|
  {
    if actions != [] {
      ControlLeavesItsRead(c, Apply(c, s, actions[0]), actions[1..]);
      assert actions == [actions[0]] + actions[1..];
    }
  }

  /** What arrives for control stays there until control takes it. */
  lemma {:induction false} UntakenStays(c: JsonCodec, s: State, actions: seq<Action>)
    requires Runnable(c, s, actions) && forall a :: a in actions ==> !a.TakeControl?
    ensures Exec(c, s, actions).control.inbox >= s.control.inbox
    ensures ArriveControl in actions ==> Exec(c, s, actions).control.inbox > s.control.inbox
    decreases |actions|
  {
    if actions != [] {
      assert actions == [actions[0]] + actions[1..];
      StepKeepsUntaken(c, s, actions[0]);
      hide Apply, Enabled;
      UntakenStays(c, Apply(c, s, actions[0]), actions[1..]);
    }
  }

  lemma StepKeepsUntaken(c: JsonCodec, s: State, a: Action)
    requires Enabled(s, a) && !a.TakeControl?
    ensures Apply(c, s, a).control.inbox == s.control.inbox + if a == ArriveControl then 1 else 0
  {
    hide LoopEnabled, LoopNext;
  }

  /** A control message is there when the run begins or comes in its course. */
  predicate ControlMessageComes(s: State, actions: seq<Action>) { s.control.inbox > 0 || ArriveControl in actions }

  /** A stop, once requested, is carried through by every run that goes as far as it can, exactly when
      control was not blocked in its read at the request, or a control message waits for it or arrives
      later. A stop that the control listener requests therefore always completes; see
      StopFromTheShellCanHang. */
  lemma StopCompletesExactly(c: JsonCodec, s: State, actions: seq<Action>)
    requires c.Valid() && Inv(c, s) && s.control.requestStop && Runnable(c, s, actions)
    requires Quiet(Exec(c, s, actions))
    ensures |actions| <= Measure(s)
    ensures Exec(c, s, actions).control.mode == Finished <==>
            s.control.mode != Reading || ControlMessageComes(s, actions)
    ensures Exec(c, s, actions).control.mode == Finished ==> Stopped(Exec(c, s, actions))
  {
    RunIsShort(c, s, actions);
    RunKeepsInv(c, s, actions);
    QuietExactlyWhen(c, Exec(c, s, actions));
    ControlLeavesItsRead(c, s, actions);
    TakenHasCome(c, s, actions);
    hide Exec, Runnable, Quiet, Measure;
    if forall a :: a in actions ==> !a.TakeControl? {
      UntakenStays(c, s, actions);
    }
  }

  /** Control takes only what has come. */
  lemma {:induction false} TakenHasCome(c: JsonCodec, s: State, actions: seq<Action>)
    requires Runnable(c, s, actions)
    ensures (exists a :: a in actions && a.TakeControl?) ==> ControlMessageComes(s, actions)
    decreases |actions|
  {
    if actions != [] {
      assert actions == [actions[0]] + actions[1..];
      if !actions[0].TakeControl? {
        StepKeepsUntaken(c, s, actions[0]);
        hide Apply;
        TakenHasCome(c, Apply(c, s, actions[0]), actions[1..]);
      }
    }
  }

  /** A shell listener that requests the stop while control blocks in its read leaves the server running
      with every thread asleep, until some client sends another control message. */
  lemma StopFromTheShellCanHang(c: JsonCodec)
    requires c.Valid()
    ensures var actions := [ArriveShell, TakeShell(false), ShellRequestsStop, FinishShell];
            && Runnable(c, Init(1, 0, 0), actions)
            && var s := Exec(c, Init(1, 0, 0), actions);
               s.control.requestStop && Quiet(s) && s.control.mode != Finished && s.shell.mode != ShellStopped
  {
    var s0 := Init(1, 0, 0);
    var s2 := Apply(c, Apply(c, s0, ArriveShell), TakeShell(false));
    assert Enabled(s0, ArriveShell) && Enabled(Apply(c, s0, ArriveShell), TakeShell(false));
    ShellListenerStops(c, s2);
    hide Apply, Enabled, Inv, Waiting, Quiet, Runnable, Exec;
    RunOneMore(c, Apply(c, s0, ArriveShell), TakeShell(false), [ShellRequestsStop, FinishShell]);
    RunOneMore(c, s0, ArriveShell, [TakeShell(false), ShellRequestsStop, FinishShell]);
    InitKeepsInv(c, 1, 0, 0);
    RunKeepsInv(c, s0, [ArriveShell, TakeShell(false), ShellRequestsStop, FinishShell]);
    QuietExactlyWhen(c, Exec(c, s0, [ArriveShell, TakeShell(false), ShellRequestsStop, FinishShell]));
  }

  lemma ShellListenerStops(c: JsonCodec, s: State)
    requires s.shell.mode == Serving && !s.control.requestStop && Waiting(s.(shell := s.shell.(mode := Polling)))
    ensures Runnable(c, s, [ShellRequestsStop, FinishShell])
    ensures var last := Exec(c, s, [ShellRequestsStop, FinishShell]);
            Waiting(last) && last.control.requestStop
  {
    RunOfOne(c, Apply(c, s, ShellRequestsStop), FinishShell);
    hide Runnable, Exec;
    RunOneMore(c, s, ShellRequestsStop, [FinishShell]);
  }

  lemma RunOneMore(c: JsonCodec, s: State, a: Action, rest: seq<Action>)
    requires Enabled(s, a) && Runnable(c, Apply(c, s, a), rest)
    ensures Runnable(c, s, [a] + rest) && Exec(c, s, [a] + rest) == Exec(c, Apply(c, s, a), rest)
  {
    hide Enabled, Apply;
    assert ([a] + rest)[1..] == rest;
  }

  lemma RunOfOne(c: JsonCodec, s: State, a: Action)
    requires Enabled(s, a)
    ensures Runnable(c, s, [a]) && Exec(c, s, [a]) == Apply(c, s, a)
  {
    hide Enabled, Apply;
    RunOneMore(c, s, a, []);
    assert [a] + [] == [a];
  }
}
