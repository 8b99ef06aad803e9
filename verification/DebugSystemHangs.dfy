/** Three runs of a parallel start after which nothing moves although the loop has not ended. */
module DebugSystemHangs {
  import opened Basics
  import opened Selection
  import opened DebugSystem
  import opened DebugSystemProgress

  lemma {:induction false} Extend(start: State, actions: seq<Action>, a: Action)
    requires Runnable(start, actions) && Enabled(Exec(start, actions), a)
    ensures Runnable(start, actions + [a])
    ensures Exec(start, actions + [a]) == Apply(Exec(start, actions), a)
    ensures AttachPolledAlone(start, actions) && (a.Poll? && a.control ==> !a.tcp) ==>
              AttachPolledAlone(start, actions + [a])
    decreases |actions|
  {
    if actions == [] {
      assert [] + [a] == [a] && [a][1..] == [];
    } else {
      assert (actions + [a])[1..] == actions[1..] + [a];
      Extend(Apply(start, actions[0]), actions[1..], a);
    }
  }

  /** `actions` leads from a parallel start to `s`; `alone` if no poll reports a request with data. */
  ghost predicate Reaches(actions: seq<Action>, s: State, alone: bool) {
    && Runnable(Init(true), actions) && Exec(Init(true), actions) == s
    && (alone ==> AttachPolledAlone(Init(true), actions))
  }

  lemma Then(actions: seq<Action>, s: State, alone: bool, a: Action)
    returns (longer: seq<Action>, next: State)
    requires Reaches(actions, s, alone) && Enabled(s, a)
    requires alone && a.Poll? && a.control ==> !a.tcp
    ensures Reaches(longer, next, alone) && next == Apply(s, a)
    ensures AdapterInitialized in longer <==> AdapterInitialized in actions || a == AdapterInitialized
  {
    Extend(Init(true), actions, a);
    longer, next := actions + [a], Apply(s, a);
  }

  /** The front end begins with `attach`; its header has been exchanged. */
  lemma HeaderExchanged(alone: bool) returns (actions: seq<Action>, s: State)
    ensures Reaches(actions, s, alone) && AdapterInitialized !in actions
    ensures s == State(true, HeaderAcked, 1, 0, "attach", None, false, None, None,
                       Polling, [], Some(1), true, false, None, [HeaderTaken(1)], [], [])
  {
    assert Reaches([], Init(true), alone);
    hide Reaches;
    actions, s := Then([], Init(true), alone, BeginRequest("attach"));
    actions, s := Then(actions, s, alone, Poll(true, false, false));
    actions, s := Then(actions, s, alone, ServeHeader);
    actions, s := Then(actions, s, alone, QueueDone);
    actions, s := Then(actions, s, alone, TakeHeaderAck);
  }

  lemma InitializedSorted(tcp: bool)
    ensures var p, batch := Condition(ForInitialized(tcp)), [Plain(false), Initialized];
            Filter(Not(p), batch) == [Plain(false)] && LastMatch(p, batch) == Some(Initialized)
  {
    assert [Plain(false), Initialized][1..] == [Initialized];
  }

  lemma ReplySorted(w: Awaited, reply: Item)
    ensures Matches(w, reply) ==>
              Filter(Not(Condition(w)), [reply]) == [] && LastMatch(Condition(w), [reply]) == Some(reply)
    ensures !Matches(w, reply) ==>
              Filter(Not(Condition(w)), [reply]) == [reply] && LastMatch(Condition(w), [reply]) == None
  {}

  // ---------------------------------------------------------------- data used up by the handshake

  /** The adapter speaks just before the request is polled. */
  lemma AttachTaken() returns (actions: seq<Action>, s: State)
    ensures Reaches(actions, s, false)
    ensures s == State(true, RequestSent, 1, 1, "attach", None, false, None, None,
                       Waiting(ForInitialized(true), false), [], Some(1), true, false, Some(1),
                       [HeaderTaken(1), RequestTaken(1, 1, "attach")],
                       [Owed("attach", Client(1))], [Plain(false)])
  {
    hide Reaches;
    actions, s := HeaderExchanged(false);
    actions, s := Then(actions, s, false, SendRequest);
    actions, s := Then(actions, s, false, AdapterEvent(false));
    actions, s := Then(actions, s, false, Poll(false, true, true));
    actions, s := Then(actions, s, false, ServeControl);
  }

  /** The handshake reads what the poll had reported. */
  lemma ConfigurationAwaited() returns (actions: seq<Action>, s: State)
    ensures Reaches(actions, s, false)
    ensures s == State(true, RequestSent, 1, 1, "attach", None, false, None, None,
                       Waiting(ForConfiguration(true), false), [Plain(false)], Some(1), true, false, Some(1),
                       [HeaderTaken(1), RequestTaken(1, 1, "attach")],
                       [Owed("attach", Client(1)), Owed("configurationDone", OwnConfiguration)], [])
  {
    hide Reaches;
    actions, s := AttachTaken();
    actions, s := Then(actions, s, false, SearchQueue);
    actions, s := Then(actions, s, false, AdapterInitialized);
    InitializedSorted(true);
    hide Filter, LastMatch;
    assert s.wire[..2] == s.wire == [Plain(false), Initialized];
    actions, s := Then(actions, s, false, ReadBatch(2));
  }

  lemma ConfigurationSearched() returns (actions: seq<Action>, s: State)
    ensures Reaches(actions, s, false)
    ensures s == State(true, RequestSent, 1, 1, "attach", None, false, None, None,
                       Waiting(ForConfiguration(true), true), [Plain(false)], Some(1), true, false, Some(1),
                       [HeaderTaken(1), RequestTaken(1, 1, "attach")], [Owed("attach", Client(1))],
                       [Reply("configurationDone", OwnConfiguration)])
  {
    hide Reaches;
    actions, s := ConfigurationAwaited();
    ReplySorted(ForConfiguration(true), Plain(false));
    actions, s := Then(actions, s, false, SearchQueue);
    actions, s := Then(actions, s, false, AdapterAnswers(1));
  }

  lemma AttachAwaited() returns (actions: seq<Action>, s: State)
    ensures Reaches(actions, s, false)
    ensures s == State(true, RequestSent, 1, 1, "attach", None, false, None, None,
                       Waiting(ForAttach(true), false), [Plain(false)], Some(1), true, false, Some(1),
                       [HeaderTaken(1), RequestTaken(1, 1, "attach")], [Owed("attach", Client(1))], [])
  {
    hide Reaches, Filter, LastMatch, FirstMatch;
    actions, s := ConfigurationSearched();
    ReplySorted(ForConfiguration(true), Reply("configurationDone", OwnConfiguration));
    assert s.wire[..1] == s.wire && s.queue + [] == s.queue;
    actions, s := Then(actions, s, false, ReadBatch(1));
  }

  lemma AttachAnswered() returns (actions: seq<Action>, s: State)
    ensures Reaches(actions, s, false)
    ensures s.front == RequestSent && s.replyOut.Some? && s.pc == Serving(false, false, true)
    ensures s.started && s.command == "attach" && s.owed == [] && s.wire == [] && !s.headerAck
  {
    hide Reaches;
    actions, s := AttachAwaited();
    actions, s := Then(actions, s, false, SearchQueue);
    actions, s := Then(actions, s, false, AdapterAnswers(0));
    ReplySorted(ForAttach(true), Reply("attach", Client(1)));
    hide Filter, LastMatch, FirstMatch;
    assert s.wire[..1] == s.wire == [Reply("attach", Client(1))];
    actions, s := Then(actions, s, false, ReadBatch(1));
  }

  /** When the poll that reports the `attach` request also reports stream data, the handshake may use that
      data up; the read that follows then waits for the adapter to speak of its own accord, and the front
      end's next request is not even looked at. */
  lemma ParallelStartCanHang() returns (actions: seq<Action>)
    ensures Runnable(Init(true), actions) && InitializedComes(Init(true), actions)
    ensures var s := Exec(Init(true), actions); FrontEndWaits(s) && Stuck(s) && s.pc == Serving(false, false, true)
  {
    hide Reaches;
    var s: State;
    actions, s := AttachAnswered();
    actions, s := Then(actions, s, false, TakeReply);
    actions, s := Then(actions, s, false, EndRequest);
    actions, s := Then(actions, s, false, BeginRequest("setBreakpoints"));
    DeadEndIsStuck(s);
    ReachesEnd(actions, s, false);
    WaitsInVainExactly(true, actions);
  }

  lemma ReachesEnd(actions: seq<Action>, s: State, alone: bool)
    requires Reaches(actions, s, alone)
    ensures Runnable(Init(true), actions) && Exec(Init(true), actions) == s
    ensures alone ==> AttachPolledAlone(Init(true), actions)
  {}

  // ---------------------------------------------------------------- no `initialized` for the handshake

  /** The state in which the request is sent, and the one in which the loop waits. */
  function BeforeAttach(log: seq<Observation>): State {
    State(true, HeaderAcked, 1, 0, "attach", None, false, None, None,
          Polling, [], Some(1), true, false, None, log, [], [])
  }

  function DuringWait(log: seq<Observation>): State {
    State(true, RequestSent, 1, 1, "attach", None, false, None, None,
          Waiting(ForInitialized(false), true), [], Some(1), true, false, Some(1), log + [RequestTaken(1, 1, "attach")],
          [Owed("attach", Client(1))], [])
  }

  lemma WaitBegins(before: seq<Action>, log: seq<Observation>) returns (actions: seq<Action>)
    requires Reaches(before, BeforeAttach(log), true)
    ensures Reaches(actions, DuringWait(log), true)
    ensures AdapterInitialized in actions <==> AdapterInitialized in before
  {
    hide Reaches;
    var s: State;
    actions, s := Then(before, BeforeAttach(log), true, SendRequest);
    actions, s := Then(actions, s, true, Poll(false, true, false));
    actions, s := Then(actions, s, true, ServeControl);
    assert s == DuringWait(log).(pc := Waiting(ForInitialized(false), false));
    actions, s := Then(actions, s, true, SearchQueue);
  }

  /** The adapter answers the `attach`, and never sends `initialized` again. */
  lemma Refused(before: seq<Action>, log: seq<Observation>) returns (actions: seq<Action>)
    requires Reaches(before, BeforeAttach(log), true)
    ensures Runnable(Init(true), actions) && AttachPolledAlone(Init(true), actions)
    ensures AdapterInitialized in actions <==> AdapterInitialized in before
    ensures var s := Exec(Init(true), actions);
            FrontEndWaits(s) && Stuck(s) && s.pc == Waiting(ForInitialized(false), true)
  {
    hide Reaches, Exec, Runnable, AttachPolledAlone, Stuck;
    var s := DuringWait(log);
    actions := WaitBegins(before, log);
    actions, s := Then(actions, s, true, AdapterAnswers(0));
    ReplySorted(ForInitialized(false), Reply("attach", Client(1)));
    hide Filter, LastMatch, FirstMatch;
    assert s.wire[..1] == s.wire == [Reply("attach", Client(1))] && s.owed == [];
    actions, s := Then(actions, s, true, ReadBatch(1));
    DeadEndIsStuck(s);
    ReachesEnd(actions, s, true);
  }

  /** An adapter that refuses `attach`, and so never sends `initialized`, leaves the loop waiting for that
      event with the refusal in its queue. */
  lemma RefusedAttachHangs() returns (actions: seq<Action>)
    ensures Runnable(Init(true), actions) && AttachPolledAlone(Init(true), actions)
    ensures AdapterInitialized !in actions
    ensures var s := Exec(Init(true), actions);
            FrontEndWaits(s) && Stuck(s) && s.pc == Waiting(ForInitialized(false), true)
  {
    hide Reaches;
    var s: State;
    actions, s := HeaderExchanged(true);
    actions := Refused(actions, s.log);
  }

  /** An adapter that sends `initialized` before `attach` has it published by the drain, and the handshake
      then waits for it in vain. */
  lemma EarlyInitializedHangs() returns (actions: seq<Action>)
    ensures Runnable(Init(true), actions) && AttachPolledAlone(Init(true), actions)
    ensures AdapterInitialized in actions
    ensures var s := Exec(Init(true), actions);
            FrontEndWaits(s) && Stuck(s) && s.pc == Waiting(ForInitialized(false), true)
  {
    hide Reaches;
    var s: State;
    actions, s := HeaderExchanged(true);
    actions, s := Then(actions, s, true, AdapterInitialized);
    actions, s := Then(actions, s, true, Poll(false, false, true));
    assert s.wire[..1] == s.wire;
    actions, s := Then(actions, s, true, ServeTcp(1));
    actions, s := Then(actions, s, true, HandleFront);
    actions, s := Then(actions, s, true, QueueDone);
    actions := Refused(actions, s.log);
  }
}
