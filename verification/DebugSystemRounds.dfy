/** A round that the rest of the world does its part in goes through: in the states the debug system reaches, the
    loop neither uses its reply socket out of turn nor pops an empty queue. */
module DebugSystemRounds {
  import opened Basics
  import opened Selection
  import opened DebugSystem
  import opened DebugSystemSafety
  import opened DebugSystemRefinement
  import DapTheorems

  /** A step that does not fail, and ends in a state of which all is known that is known of reached states. */
  ghost predicate GoesOn(y: Stepped) { !y.Failing? && (y.Went? ==> y.to.Valid() && Inv(y.to.s)) }

  lemma ReachedInv(s: State, end: State)
    requires Inv(s) && Reaches(s, end)
    ensures Inv(end)
  {
    hide Inv;
    var actions :| Runnable(s, actions) && Exec(s, actions) == end;
    RunKeepsInv(s, actions);
  }

  lemma RanInv(x: Point, y: Stepped)
    requires Inv(x.s) && Ran(x, y)
    ensures y.Went? ==> Inv(y.to.s)
  {
    hide Inv, Reaches;
    if y.Went? {
      ReachedInv(x.s, y.to.s);
    }
  }

  // ---------------------------------------------------------------- waits

  /** The stop that asks for the threads stays in the queue until it is popped, and the reply socket is free
      when the handshake answers. */
  lemma ResumeGoesOn(fed: State, x: Point, found: Item, queue: seq<Item>)
    requires Inv(x.s) && x.s.pc.Waiting? && fed.outstanding == x.s.outstanding
    requires x.s.pc.what.ForThreads? ==> queue != []
    ensures Resume(fed, x.s.pc.what, found, queue).pc != Failed
  {
    hide Lockstep, Observed, Session, AllProper, Counted;
  }

  lemma WaitLeavesStop(s: State, supply: seq<seq<Item>>)
    requires Inv(s) && s.pc.Waiting? && s.pc.what.ForThreads?
    ensures Selection.Wait(Condition(ForThreads), s.queue, supply).queue != []
  {
    hide Lockstep, Observed, Session, AllProper, Counted;
    assert s.queue == [s.queue[0]] + s.queue[1..];
    hide Selection.Wait;
    DapTheorems.WaitKeepsFront(Condition(ForThreads), s.queue[0], s.queue[1..], supply);
  }

  lemma WaitDoesNotFail(x: Point)
    requires Inv(x.s) && x.s.pc.Waiting?
    ensures !StepWait(x).Failing?
  {
    var what := x.s.pc.what;
    var w := Selection.Wait(Condition(what), x.s.queue, x.supply);
    if what.ForThreads? {
      WaitLeavesStop(x.s, x.supply);
    }
    hide Inv, Selection.Wait, Resume, OwedAfter, Condition;
    forall fed: State | fed.outstanding == x.s.outstanding && w.Found?
      ensures Resume(fed, what, w.message, w.queue).pc != Failed
    {
      ResumeGoesOn(fed, x, w.message, w.queue);
    }
  }

  lemma WaitGoesOn(x: Point)
    requires Inv(x.s) && x.Valid() && x.s.pc.Waiting? && !x.s.pc.searched
    ensures GoesOn(StepWait(x))
  {
    WaitDoesNotFail(x);
    if StepWait(x).Went? {
      StepWaitRuns(x);
      hide Inv, Reaches, StepWait;
      ReachedInv(x.s, StepWait(x).to.s);
    }
    hide Inv, StepWait;
  }

  // ---------------------------------------------------------------- the queue

  lemma HandlingDoesNotFail(s: State)
    requires Inv(s) && s.pc == SERVED && s.queue != []
    ensures HandleFrontNext(s).pc != Failed && Inv(HandleFrontNext(s))
  {
    if s.queue[0].Reply? {
      FrontIsTheAnswer(s);
    }
    hide Inv;
    StepKeepsInv(s, HandleFront);
  }

  lemma FrontGoesOn(x: Point)
    requires Inv(x.s) && x.Valid() && x.s.pc == SERVED && x.s.queue != []
    ensures GoesOn(StepFront(x))
  {
    hide Inv, StepWait, HandleFrontNext, Loaded;
    var next := HandleFrontNext(x.s);
    HandlingDoesNotFail(x.s);
    FrontHandled(x.s);
    SameLoad(x.s, next, x.supply);
    if next.pc.Waiting? {
      WaitGoesOn(Point(next, x.supply));
    }
  }

  lemma {:induction false} DrainGoesOn(x: Point)
    requires Inv(x.s) && x.Valid() && x.s.pc == SERVED
    ensures GoesOn(StepDrain(x))
    decreases Size(x)
  {
    hide Inv, StepFront, NonEmpty;
    if x.s.queue != [] {
      FrontGoesOn(x);
      if StepFront(x).Went? {
        StepFrontShrinks(x);
        DrainGoesOn(StepFront(x).to);
      }
    }
  }

  // ---------------------------------------------------------------- the sockets

  lemma OnGoesOn(x: Stepped)
    requires GoesOn(x) && (x.Went? ==> Unsearched(x.to.s))
    ensures GoesOn(StepOn(x)) && (StepOn(x).Went? ==> Unsearched(StepOn(x).to.s))
  {
    if x.Went? && x.to.s.pc.Waiting? {
      WaitGoesOn(x.to);
      if StepWait(x.to).Went? {
        var fed := StepWaitGives(x.to);
        var w := Selection.Wait(Condition(x.to.s.pc.what), x.to.s.queue, x.to.supply);
        ResumeUnsearched(fed, x.to.s.pc.what, w.message, w.queue);
      }
    }
    hide Inv, StepWait, Resume, Selection.Wait;
  }

  /** Where the loop is after a wait. */
  function After(pc: LoopPc): LoopPc {
    if !pc.Waiting? then pc
    else match pc.what
      case ForThreads => SERVED
      case ForInitialized(tcp) => Waiting(ForConfiguration(tcp), false)
      case ForConfiguration(tcp) => Waiting(ForAttach(tcp), false)
      case ForAttach(tcp) => Serving(false, false, tcp)
  }

  lemma ResumePc(s: State, pc: LoopPc, found: Item, queue: seq<Item>)
    requires pc.Waiting?
    ensures Resume(s, pc.what, found, queue).pc in {Failed, After(pc)}
  {}

  lemma OnPc(x: Stepped)
    ensures StepOn(x).Went? ==> x.Went? && StepOn(x).to.s.pc == After(x.to.s.pc)
  {
    if x.Went? && x.to.s.pc.Waiting? && StepWait(x.to).Went? {
      var fed := StepWaitGives(x.to);
      var w := Selection.Wait(Condition(x.to.s.pc.what), x.to.s.queue, x.to.supply);
      ResumePc(fed, x.to.s.pc, w.message, w.queue);
    }
    hide StepWait, Selection.Wait, Resume;
  }

  lemma RequestDoesNotFail(s: State)
    requires Inv(s) && s.pc.Serving? && !s.pc.header && s.pc.control
    ensures var next := ServeControlNext(s);
            && next.pc != Failed && Inv(next) && Unsearched(next) && next.wire == s.wire
            && After(After(After(next.pc))) == Serving(false, false, s.pc.tcp)
  {
    assert s.requestIn.Some? && s.outstanding == None by {
      hide Observed, Session, AllProper, Counted;
    }
    hide Inv;
    StepKeepsInv(s, ServeControl);
  }

  lemma ControlGoesOn(x: Point)
    requires Inv(x.s) && x.Valid() && x.s.pc.Serving? && !x.s.pc.header
    ensures GoesOn(StepControl(x))
    ensures StepControl(x).Went? ==> StepControl(x).to.s.pc == Serving(false, false, x.s.pc.tcp)
  {
    hide Inv, StepOn, Loaded, Unsearched, After;
    if x.s.pc.control {
      RequestDoesNotFail(x.s);
      var next := Point(ServeControlNext(x.s), x.supply);
      SameLoad(x.s, next.s, x.supply);
      hide ServeControlNext;
      var first := Went(next);
      OnGoesOn(first);
      OnGoesOn(StepOn(first));
      OnGoesOn(StepOn(StepOn(first)));
      OnPc(first);
      OnPc(StepOn(first));
      OnPc(StepOn(StepOn(first)));
    }
  }

  lemma HeaderGoesOn(x: Point)
    requires Inv(x.s) && x.Valid() && x.s.pc.Serving?
    ensures GoesOn(StepHeader(x))
  {
    if x.s.pc.header {
      StepKeepsInv(x.s, ServeHeader);
      assert x.s.headerIn.Some?;
    }
    hide Inv;
  }

  lemma ReadyGoesOn(x: Point, poll: L.Poll)
    requires Inv(x.s) && x.Valid() && x.s.pc == Polling
    ensures GoesOn(StepReady(x, poll))
  {
    StepReadyRuns(x, poll);
    hide Inv, Reaches, StepHeader, StepControl;
    RanInv(x, StepReady(x, poll));
    StepPollRuns(x, poll);
    RanInv(x, StepPoll(x, poll));
    if StepPoll(x, poll).Went? {
      var x1 := StepPoll(x, poll).to;
      HeaderGoesOn(x1);
      StepHeaderRuns(x1);
      if StepHeader(x1).Went? {
        ControlGoesOn(StepHeader(x1).to);
      }
    }
  }

  /** A round from a reached state that is fed goes through, and ends in a reached state. */
  lemma FedRoundGoesOn(x: Point, poll: L.Poll)
    requires Inv(x.s) && x.Valid() && x.s.pc == Polling && !StepRound(x, poll).Unfed?
    ensures StepRound(x, poll).Went? && Inv(StepRound(x, poll).to.s)
  {
    hide Inv, Reaches, StepReady, StepDrain;
    ReadyGoesOn(x, poll);
    StepReadyRuns(x, poll);
    if StepReady(x, poll).Went? {
      DrainGoesOn(StepReady(x, poll).to);
    }
    StepRoundRuns(x, poll);
    RanInv(x, StepRound(x, poll));
  }
}
