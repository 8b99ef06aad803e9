/** When the debug system comes to a standstill although the front end waits for the loop, and under what
    conditions it never does. */
module DebugSystemProgress {
  import opened Basics
  import opened Selection
  import opened DebugSystem
  import opened DebugSystemSafety

  // ---------------------------------------------------------------- dead ends

  /** The front end waits for the loop. */
  predicate FrontEndWaits(s: State) {
    (s.front == HeaderSent && !s.headerAck) || (s.front == RequestSent && s.replyOut == None)
  }

  predicate OfItsOwnAccord(a: Action) { a.AdapterEvent? || a.AdapterInitialized? }

  /** Nothing can happen any more unless the adapter speaks of its own accord. */
  ghost predicate Stuck(s: State) { forall a :: Enabled(s, a) ==> OfItsOwnAccord(a) }

  /** The stream has nothing to offer and the adapter owes nothing, but the loop is about to read, or waits
      for `initialized`. */
  predicate DeadEnd(s: State) {
    && s.owed == [] && s.wire == []
    && (s.pc == Serving(false, false, true) || (s.pc.Waiting? && s.pc.what.ForInitialized? && s.pc.searched))
  }

  predicate Searched(s: State) {
    s.pc.Waiting? && s.pc.searched ==> FirstMatch(Condition(s.pc.what), s.queue) == None
  }

  lemma NoMatchAppend(p: Item -> bool, queue: seq<Item>, batch: seq<Item>)
    requires FirstMatch(p, queue) == None
    ensures FirstMatch(p, queue + Filter(Not(p), batch)) == None
  {
    var kept := queue + Filter(Not(p), batch);
    var first := FirstMatch(p, kept);
    if first.Some? {
      assert kept[first.value] in Filter(Not(p), batch);
      FilterMember(Not(p), batch, kept[first.value]);
    }
  }

  lemma SearchedResume(s: State, w: Awaited, found: Item, queue: seq<Item>)
    ensures Searched(Resume(s, w, found, queue))
  {}

  lemma SearchedRead(s: State, n: nat)
    requires Searched(s) && Enabled(s, ReadBatch(n))
    ensures Searched(ReadNext(s, n))
  {
    var p, batch := Condition(s.pc.what), s.wire[..n];
    var rest := s.(wire := s.wire[n..]);
    hide Filter, FirstMatch, LastMatch, Matches, Resume;
    match LastMatch(p, batch) {
      case None => NoMatchAppend(p, s.queue, batch);
      case Some(found) => SearchedResume(rest, s.pc.what, found, s.queue + Filter(Not(p), batch));
    }
  }

  lemma SearchedSearch(s: State)
    requires Searched(s) && Enabled(s, SearchQueue)
    ensures Searched(SearchNext(s))
  {
    match FirstMatch(Condition(s.pc.what), s.queue) {
      case None =>
      case Some(i) => SearchedResume(s, s.pc.what, s.queue[i], Without(s.queue, i));
    }
    hide Without, Matches, Resume, FirstMatch;
  }

  /** The steps outside a wait leave it alone or begin it unsearched. */
  lemma SearchedServe(s: State, a: Action)
    requires Searched(s) && Enabled(s, a) && !a.ReadBatch? && !a.SearchQueue?
    ensures Searched(Apply(s, a))
  {
    hide FirstMatch, Matches, SearchNext, ReadNext;
  }

  lemma SearchedStep(s: State, a: Action)
    requires Searched(s) && Enabled(s, a)
    ensures Searched(Apply(s, a))
  {
    hide Searched, SearchNext, ReadNext, ServeControlNext, HandleFrontNext;
    match a {
      case ReadBatch(n) => SearchedRead(s, n);
      case SearchQueue => SearchedSearch(s);
      case _ => SearchedServe(s, a);
    }
  }

  lemma {:induction false} RunKeepsSearched(s: State, actions: seq<Action>)
    requires Searched(s) && Runnable(s, actions)
    ensures Searched(Exec(s, actions))
    decreases |actions|
  {
    if actions != [] {
      hide Searched, Apply;
      SearchedStep(s, actions[0]);
      RunKeepsSearched(Apply(s, actions[0]), actions[1..]);
    }
  }

  lemma AnswerIsComing(s: State)
    requires Inv(s) && Searched(s) && s.pc.Waiting? && s.pc.searched && !s.pc.what.ForInitialized?
    requires s.owed == []
    ensures s.wire != []
  {
    hide Replay;
    var owner := if s.pc.what.ForThreads? then TheThreads else if s.pc.what.ForConfiguration? then TheConfiguration
        else TheClient;
    assert Due(s, owner) && CountedFor(s, owner);
    forall i | i in s.queue ensures !Answers(owner, i) {
      MatchesTheAnswer(s, i, owner);
      assert !Condition(s.pc.what)(i);
    }
    AllOrNone(owner, s.queue);
  }

  /** A front end that waits has not turned the session off. */
  lemma WaitingMeansOn(s: State)
    requires Inv(s) && FrontEndWaits(s)
    ensures !s.stop && s.pc != Exited
  {
    hide Replay, AllProper, Counted;
  }

  /** Short of a dead end somebody can always move. */
  lemma SomebodyMoves(s: State) returns (a: Action)
    requires Inv(s) && Searched(s) && FrontEndWaits(s) && !DeadEnd(s)
    ensures Enabled(s, a) && !OfItsOwnAccord(a)
  {
    WaitingMeansOn(s);
    if s.owed != [] {
      a := AdapterAnswers(0);
    } else {
      match s.pc {
        case Polling =>
          assert s.outstanding.Some? ==> s.wire != [];
          a := Poll(s.headerIn.Some?, s.requestIn.Some?, s.wire != []);
        case Serving(header, control, tcp) =>
          a := if header then ServeHeader
               else if control then ServeControl
               else if tcp then ServeTcp(1)
               else if s.queue != [] then HandleFront
               else QueueDone;
        case Waiting(what, searched) =>
          if searched {
            if !what.ForInitialized? { AnswerIsComing(s); }
            a := ReadBatch(1);
          } else {
            a := SearchQueue;
          }
      }
    }
  }

  lemma DeadEndIsStuck(s: State)
    requires FrontEndWaits(s) && DeadEnd(s)
    ensures Stuck(s)
  {}

  lemma StuckExactlyAt(s: State)
    requires Inv(s) && Searched(s) && FrontEndWaits(s)
    ensures s.pc != Exited && (Stuck(s) <==> DeadEnd(s))
  {
    hide Inv, Searched, Enabled;
    WaitingMeansOn(s);
    if DeadEnd(s) {
      DeadEndIsStuck(s);
    } else {
      var a := SomebodyMoves(s);
    }
  }

  lemma SearchedInit(parallel: bool)
    ensures Searched(Init(parallel)) && !AwaitsInitialized(Init(parallel))
  {}

  /** While the front end waits for the loop, the system is stuck exactly at a dead end; the loop has never
      ended then. */
  lemma StuckExactlyAtDeadEnds(parallel: bool, actions: seq<Action>)
    requires Runnable(Init(parallel), actions) && FrontEndWaits(Exec(Init(parallel), actions))
    ensures var s := Exec(Init(parallel), actions);
            s.pc != Exited && (Stuck(s) <==> DeadEnd(s))
  {
    hide *;
    InvInit(parallel);
    SearchedInit(parallel);
    RunKeepsInv(Init(parallel), actions);
    RunKeepsSearched(Init(parallel), actions);
    StuckExactlyAt(Exec(Init(parallel), actions));
  }

  // ---------------------------------------------------------------- waiting for `initialized` in vain

  /** The loop begins the handshake. */
  predicate BeginsHandshake(s: State, a: Action) { a.ServeControl? && s.waitAttach && s.command == "attach" }

  predicate InitializedHere(s: State) { Initialized in s.queue || Initialized in s.wire }

  /** When the handshake begins, an `initialized` event is queued or on the wire, or the adapter sends one
      later in the run. */
  predicate InitializedComes(s: State, actions: seq<Action>)
    requires Runnable(s, actions)
    decreases |actions|
  {
    actions == [] ||
    ((BeginsHandshake(s, actions[0]) ==> InitializedHere(s) || AdapterInitialized in actions[1..])
     && InitializedComes(Apply(s, actions[0]), actions[1..]))
  }

  predicate AwaitsInitialized(s: State) { s.pc.Waiting? && s.pc.what.ForInitialized? }

  lemma ResumeAwaitsNothing(s: State, w: Awaited, found: Item, queue: seq<Item>)
    ensures !AwaitsInitialized(Resume(s, w, found, queue))
  {}

  lemma AwaitingRead(s: State, n: nat)
    requires AwaitsInitialized(s) && Enabled(s, ReadBatch(n))
    ensures AwaitsInitialized(ReadNext(s, n)) ==> (InitializedHere(ReadNext(s, n)) <==> InitializedHere(s))
    ensures !InitializedHere(s) ==> AwaitsInitialized(ReadNext(s, n))
  {
    var p, batch := Condition(s.pc.what), s.wire[..n];
    assert s.wire == batch + s.wire[n..];
    hide Filter, Resume;
    match LastMatch(p, batch) {
      case None =>
        assert Condition(s.pc.what)(Initialized);
        FilterMember(Not(p), batch, Initialized);
      case Some(found) =>
        assert found == Initialized;
        ResumeAwaitsNothing(s.(wire := s.wire[n..]), s.pc.what, found, s.queue + Filter(Not(p), batch));
    }
  }

  lemma AwaitingSearch(s: State)
    requires AwaitsInitialized(s) && Enabled(s, SearchQueue)
    ensures AwaitsInitialized(SearchNext(s)) ==> (InitializedHere(SearchNext(s)) <==> InitializedHere(s))
    ensures !InitializedHere(s) ==> AwaitsInitialized(SearchNext(s))
  {
    hide Resume, Without;
    match FirstMatch(Condition(s.pc.what), s.queue) {
      case None =>
      case Some(i) => ResumeAwaitsNothing(s, s.pc.what, s.queue[i], Without(s.queue, i));
    }
  }

  /** While the loop waits for `initialized`, only the adapter can make it appear and only the wait can
      make it disappear. */
  lemma AwaitingOther(s: State, a: Action)
    requires AwaitsInitialized(s) && Enabled(s, a) && !a.ReadBatch? && !a.SearchQueue?
    ensures AwaitsInitialized(Apply(s, a))
    ensures InitializedHere(Apply(s, a)) <==> InitializedHere(s) || a == AdapterInitialized
  {
    hide SearchNext, ReadNext, ServeControlNext, HandleFrontNext;
  }

  lemma AwaitingStep(s: State, a: Action)
    requires AwaitsInitialized(s) && Enabled(s, a)
    ensures AwaitsInitialized(Apply(s, a)) ==>
              (InitializedHere(Apply(s, a)) <==> InitializedHere(s) || a == AdapterInitialized)
    ensures !InitializedHere(s) ==> AwaitsInitialized(Apply(s, a))
  {
    hide SearchNext, ReadNext, ServeControlNext, HandleFrontNext, AwaitsInitialized, InitializedHere;
    match a {
      case ReadBatch(n) => AwaitingRead(s, n);
      case SearchQueue => AwaitingSearch(s);
      case _ => AwaitingOther(s, a);
    }
  }

  lemma SearchAwaitsNothing(s: State)
    requires !AwaitsInitialized(s) && Enabled(s, SearchQueue)
    ensures !AwaitsInitialized(SearchNext(s))
  {
    hide Resume, Without;
    match FirstMatch(Condition(s.pc.what), s.queue) {
      case None =>
      case Some(i) => ResumeAwaitsNothing(s, s.pc.what, s.queue[i], Without(s.queue, i));
    }
  }

  lemma ReadAwaitsNothing(s: State, n: nat)
    requires !AwaitsInitialized(s) && Enabled(s, ReadBatch(n))
    ensures !AwaitsInitialized(ReadNext(s, n))
  {
    var p, batch := Condition(s.pc.what), s.wire[..n];
    hide Resume, Filter;
    match LastMatch(p, batch) {
      case None =>
      case Some(found) =>
        ResumeAwaitsNothing(s.(wire := s.wire[n..]), s.pc.what, found, s.queue + Filter(Not(p), batch));
    }
  }

  /** Only the beginning of the handshake makes the loop wait for `initialized`. */
  lemma HandshakeBegins(s: State, a: Action)
    requires Sockets(s) && !AwaitsInitialized(s) && Enabled(s, a)
    ensures AwaitsInitialized(Apply(s, a)) <==> BeginsHandshake(s, a)
    ensures BeginsHandshake(s, a) ==> (InitializedHere(Apply(s, a)) <==> InitializedHere(s))
  {
    hide SearchNext, ReadNext, Replay;
    match a {
      case ReadBatch(n) => ReadAwaitsNothing(s, n);
      case SearchQueue => SearchAwaitsNothing(s);
      case _ =>
    }
  }

  /** A wait for `initialized` that finds none, and none is sent any more, goes on for ever. */
  lemma {:induction false} WaitsForEver(s: State, actions: seq<Action>)
    requires Runnable(s, actions) && AwaitsInitialized(s) && !InitializedHere(s) && AdapterInitialized !in actions
    ensures AwaitsInitialized(Exec(s, actions)) && !InitializedHere(Exec(s, actions))
    decreases |actions|
  {
    hide Apply, AwaitsInitialized, InitializedHere;
    if actions != [] {
      AwaitingStep(s, actions[0]);
      WaitsForEver(Apply(s, actions[0]), actions[1..]);
    }
  }

  /** If the event stays away the wait is never over. */
  lemma {:induction false} MissingMeansWaiting(s: State, actions: seq<Action>)
    requires Inv(s) && Runnable(s, actions) && !InitializedComes(s, actions)
    ensures AwaitsInitialized(Exec(s, actions)) && !InitializedHere(Exec(s, actions))
    decreases |actions|
  {
    hide Inv, Apply, AwaitsInitialized, InitializedHere, BeginsHandshake;
    var a, next := actions[0], Apply(s, actions[0]);
    StepKeepsInv(s, a);
    if InitializedComes(next, actions[1..]) {
      BeginningAwaits(s, a);
      WaitsForEver(next, actions[1..]);
    } else {
      MissingMeansWaiting(next, actions[1..]);
    }
  }

  lemma BeginningAwaits(s: State, a: Action)
    requires Inv(s) && Enabled(s, a) && BeginsHandshake(s, a)
    ensures AwaitsInitialized(Apply(s, a)) && (InitializedHere(Apply(s, a)) <==> InitializedHere(s))
  {
    hide Replay, AllProper, Counted;
    HandshakeBegins(s, a);
  }

  /** If it does not stay away, a wait that is still on has the event before it. */
  lemma {:induction false} ComingMeansHere(s: State, actions: seq<Action>)
    requires Inv(s) && Runnable(s, actions) && InitializedComes(s, actions)
    requires AwaitsInitialized(s) ==> InitializedHere(s) || AdapterInitialized in actions
    ensures AwaitsInitialized(Exec(s, actions)) ==> InitializedHere(Exec(s, actions))
    decreases |actions|
  {
    hide Apply, AwaitsInitialized, InitializedHere, AllProper, Counted, Sockets, BeginsHandshake;
    if actions != [] {
      var a := actions[0];
      StepKeepsInv(s, a);
      assert actions == [a] + actions[1..];
      if AwaitsInitialized(s) {
        AwaitingStep(s, a);
      } else {
        HandshakeBegins(s, a);
      }
      ComingMeansHere(Apply(s, a), actions[1..]);
    }
  }

  /** A loop that waits for `initialized` at the end of a run with nothing more to read waits in vain exactly
      if the event was neither there when the handshake began nor sent since. */
  lemma WaitsInVainExactly(parallel: bool, actions: seq<Action>)
    requires Runnable(Init(parallel), actions)
    requires var s := Exec(Init(parallel), actions); FrontEndWaits(s) && Stuck(s)
    ensures Exec(Init(parallel), actions).pc.Waiting? <==> !InitializedComes(Init(parallel), actions)
  {
    var start, s := Init(parallel), Exec(Init(parallel), actions);
    hide *;
    SearchedInit(parallel);
    InvInit(parallel);
    StuckExactlyAtDeadEnds(parallel, actions);
    RunKeepsSearched(start, actions);
    if InitializedComes(start, actions) {
      ComingMeansHere(start, actions);
      NotHereAtDeadEnd(s);
    } else {
      MissingMeansWaiting(start, actions);
      AwaitingMeansWaiting(s);
    }
  }

  lemma NotHereAtDeadEnd(s: State)
    requires DeadEnd(s) && Searched(s) && (AwaitsInitialized(s) ==> InitializedHere(s))
    ensures !s.pc.Waiting?
  {
    assert forall tcp :: Condition(ForInitialized(tcp))(Initialized);
    hide FirstMatch, Condition;
  }

  lemma AwaitingMeansWaiting(s: State)
    requires AwaitsInitialized(s)
    ensures s.pc.Waiting?
  {}

  // ---------------------------------------------------------------- reading what has been used up

  /** No poll reports stream data together with the `attach` request of a parallel start. */
  predicate AttachPolledAlone(s: State, actions: seq<Action>)
    requires Runnable(s, actions)
    decreases |actions|
  {
    actions == [] ||
    ((actions[0].Poll? && actions[0].control && actions[0].tcp ==> !(s.waitAttach && s.command == "attach"))
     && AttachPolledAlone(Apply(s, actions[0]), actions[1..]))
  }

  /** A read that is still to be made finds something. */
  predicate ReadsReady(s: State) {
    && (s.pc.Serving? && s.pc.tcp ==> s.wire != [] && !(s.pc.control && s.waitAttach && s.command == "attach"))
    && (s.pc.Waiting? && s.pc.what.ForInitialized? ==> !s.pc.what.tcp)
    && (s.pc.Waiting? && s.pc.what.ForConfiguration? ==> !s.pc.what.tcp)
    && (s.pc.Waiting? && s.pc.what.ForAttach? ==> !s.pc.what.tcp)
  }

  lemma ReadsReadyResume(s: State, found: Item, queue: seq<Item>, wire: seq<Item>)
    requires s.pc.Waiting? && ReadsReady(s)
    ensures ReadsReady(Resume(s.(wire := wire), s.pc.what, found, queue))
  {}

  lemma ReadsReadySearch(s: State)
    requires ReadsReady(s) && Enabled(s, SearchQueue)
    ensures ReadsReady(SearchNext(s))
  {
    hide Resume, Without, Matches;
    match FirstMatch(Condition(s.pc.what), s.queue) {
      case None =>
      case Some(i) =>
        assert s.(wire := s.wire) == s;
        ReadsReadyResume(s, s.queue[i], Without(s.queue, i), s.wire);
    }
  }

  lemma ReadsReadyRead(s: State, n: nat)
    requires ReadsReady(s) && Enabled(s, ReadBatch(n))
    ensures ReadsReady(ReadNext(s, n))
  {
    hide Resume, Filter, Matches;
    var p := Condition(s.pc.what);
    match LastMatch(p, s.wire[..n]) {
      case None =>
      case Some(found) => ReadsReadyResume(s, found, s.queue + Filter(Not(p), s.wire[..n]), s.wire[n..]);
    }
  }

  lemma ReadsReadyControl(s: State)
    requires Sockets(s) && ReadsReady(s) && Enabled(s, ServeControl)
    ensures ReadsReady(ServeControlNext(s))
  {
    hide Replay;
  }

  lemma ReadsReadyFront(s: State)
    requires ReadsReady(s) && Enabled(s, HandleFront)
    ensures ReadsReady(HandleFrontNext(s))
  {}

  lemma ReadsReadyServe(s: State, a: Action)
    requires ReadsReady(s) && Enabled(s, a) && (a.ServeHeader? || a.ServeTcp? || a.QueueDone?)
    ensures ReadsReady(Apply(s, a))
  {}

  lemma ReadsReadyOther(s: State, a: Action)
    requires Sockets(s) && ReadsReady(s) && Enabled(s, a)
    requires a.Poll? || a.Exit? || AdapterAction(a) || FrontEndAction(a)
    requires a.Poll? && a.control && a.tcp ==> !(s.waitAttach && s.command == "attach")
    ensures ReadsReady(Apply(s, a))
  {
    hide Replay;
  }

  lemma ReadsReadyStep(s: State, a: Action)
    requires Inv(s) && ReadsReady(s) && Enabled(s, a)
    requires a.Poll? && a.control && a.tcp ==> !(s.waitAttach && s.command == "attach")
    ensures ReadsReady(Apply(s, a))
  {
    hide Replay, AllProper, Counted, ReadsReady, Sockets;
    match a {
      case SearchQueue => ReadsReadySearch(s);
      case ReadBatch(n) => ReadsReadyRead(s, n);
      case ServeControl => ReadsReadyControl(s);
      case ServeHeader => ReadsReadyServe(s, a);
      case ServeTcp(_) => ReadsReadyServe(s, a);
      case HandleFront => ReadsReadyFront(s);
      case QueueDone => ReadsReadyServe(s, a);
      case _ => ReadsReadyOther(s, a);
    }
  }

  lemma {:induction false} AttachPolledAloneKeepsReadsReady(s: State, actions: seq<Action>)
    requires Inv(s) && ReadsReady(s) && Runnable(s, actions) && AttachPolledAlone(s, actions)
    ensures ReadsReady(Exec(s, actions))
    decreases |actions|
  {
    if actions != [] {
      hide Inv, Apply, ReadsReady;
      StepKeepsInv(s, actions[0]);
      ReadsReadyStep(s, actions[0]);
      AttachPolledAloneKeepsReadsReady(Apply(s, actions[0]), actions[1..]);
    }
  }

  /** No standstill. If the `attach` request of a parallel start is polled alone, and the `initialized` event
      is still to be handled when the handshake begins or is sent later, the front end never waits in
      vain. */
  lemma NoHangWhenAttachPolledAlone(parallel: bool, actions: seq<Action>)
    requires Runnable(Init(parallel), actions)
    requires AttachPolledAlone(Init(parallel), actions) && InitializedComes(Init(parallel), actions)
    ensures !(FrontEndWaits(Exec(Init(parallel), actions)) && Stuck(Exec(Init(parallel), actions)))
  {
    assert ReadsReady(Init(parallel));
    hide Inv, Exec, Runnable, AttachPolledAlone, InitializedComes, Stuck, FrontEndWaits, Init;
    if FrontEndWaits(Exec(Init(parallel), actions)) && Stuck(Exec(Init(parallel), actions)) {
      WaitsInVainExactly(parallel, actions);
      StuckExactlyAtDeadEnds(parallel, actions);
      InvInit(parallel);
      AttachPolledAloneKeepsReadsReady(Init(parallel), actions);
    }
  }

  predicate NeverWaitsForAttach(s: State) { !s.waitAttach && (s.pc.Waiting? ==> s.pc.what.ForThreads?) }

  lemma SequentialStep(s: State, a: Action)
    requires NeverWaitsForAttach(s) && Enabled(s, a)
    ensures NeverWaitsForAttach(Apply(s, a))
  {
    hide FirstMatch, LastMatch, Filter;
    if a.SearchQueue? || a.ReadBatch? {
      SequentialWait(s, a);
      hide Apply;
    } else {
      hide SearchNext, ReadNext;
    }
  }

  lemma SequentialWait(s: State, a: Action)
    requires NeverWaitsForAttach(s) && Enabled(s, a) && (a.SearchQueue? || a.ReadBatch?)
    ensures NeverWaitsForAttach(Apply(s, a))
  {
    hide FirstMatch, LastMatch, Filter, HandleFrontNext, ServeControlNext;
  }

  lemma {:induction false} SequentialNeverWaits(s: State, actions: seq<Action>)
    requires NeverWaitsForAttach(s) && Runnable(s, actions)
    ensures AttachPolledAlone(s, actions) && InitializedComes(s, actions)
    decreases |actions|
  {
    if actions != [] {
      SequentialStep(s, actions[0]);
      hide Apply;
      SequentialNeverWaits(Apply(s, actions[0]), actions[1..]);
    }
  }

  /** A sequential start never leaves the front end waiting in vain. */
  lemma SequentialStartNeverHangs(actions: seq<Action>)
    requires Runnable(Init(false), actions)
    ensures !(FrontEndWaits(Exec(Init(false), actions)) && Stuck(Exec(Init(false), actions)))
  {
    SequentialNeverWaits(Init(false), actions);
    hide Exec, Runnable, Stuck, FrontEndWaits;
    NoHangWhenAttachPolledAlone(false, actions);
  }
}
