/** Exactly when the front end of the debug system waits in vain, read off the run. */
module DebugSystemStandstill {
  import opened Basics
  import opened Selection
  import opened DebugSystem
  import opened DebugSystemSafety
  import opened DebugSystemProgress

  /** The loop is about to read a stream that has nothing to offer. */
  predicate AtEmptyRead(s: State) { s.pc == Serving(false, false, true) && s.wire == [] }

  /** The end of a handshake that was polled together with data leaves nothing of it. */
  predicate UsesDataUp(s: State, a: Action)
    requires Enabled(s, a)
  {
    s.pc.Waiting? && s.pc.what == ForAttach(true) && AtEmptyRead(Apply(s, a))
  }

  predicate SpeaksIn(actions: seq<Action>) { exists a :: a in actions && OfItsOwnAccord(a) }

  /** Whenever a handshake has used up the data it was polled with, the adapter speaks of its own accord later in
      the run. */
  predicate DataComes(s: State, actions: seq<Action>)
    requires Runnable(s, actions)
    decreases |actions|
  {
    actions == [] ||
    ((UsesDataUp(s, actions[0]) ==> SpeaksIn(actions[1..])) && DataComes(Apply(s, actions[0]), actions[1..]))
  }

  /** Before its other sockets are served, the loop has not touched the data it has polled; and a loop at an empty
      read has no answer to hope for. */
  predicate Polled(s: State) {
    && (s.pc.Serving? && s.pc.tcp && s.wire == [] ==> !s.pc.header && !s.pc.control)
    && (AtEmptyRead(s) ==> s.owed == [])
  }

  // ---------------------------------------------------------------- getting there

  lemma NothingOwed(s: State)
    requires Inv(s) && s.outstanding == None && !s.pc.Waiting?
    ensures s.owed == []
  {
    hide Sockets, Replies;
    assert CountedFor(s, TheClient) && CountedFor(s, TheThreads) && CountedFor(s, TheConfiguration);
    if s.owed != [] {
      var o := s.owed[0];
      DebtCounted(if o.origin.Client? then TheClient else if o.origin.OwnThreads? then TheThreads
                  else TheConfiguration, s.owed, o);
    }
  }

  lemma AfterResume(s: State, what: Awaited, found: Item, queue: seq<Item>)
    ensures var next := Resume(s, what, found, queue);
            && (next.pc.Serving? && next.pc.tcp ==> what == ForAttach(true) && next.outstanding == None)
            && (next.pc.Serving? ==> !next.pc.header && !next.pc.control)
  {}

  lemma AfterWait(s: State, a: Action)
    requires Enabled(s, a) && (a.SearchQueue? || a.ReadBatch?)
    ensures var next := Apply(s, a);
            && (next.pc.Serving? && next.pc.tcp ==> s.pc.what == ForAttach(true) && next.outstanding == None)
            && (next.pc.Serving? ==> !next.pc.header && !next.pc.control)
  {
    hide Resume, Without, Filter, FirstMatch, LastMatch;
    if a.SearchQueue? {
      match FirstMatch(Condition(s.pc.what), s.queue) {
        case None =>
        case Some(i) => AfterResume(s, s.pc.what, s.queue[i], Without(s.queue, i));
      }
    } else {
      var p, batch := Condition(s.pc.what), s.wire[..a.n];
      match LastMatch(p, batch) {
        case None =>
        case Some(found) =>
          AfterResume(s.(wire := s.wire[a.n..]), s.pc.what, found, s.queue + Filter(Not(p), batch));
      }
    }
  }

  predicate Handles(a: Action) { a.ServeControl? || a.ServeTcp? || a.HandleFront? || a.QueueDone? }

  /** Outside a wait the loop comes to no empty read. */
  lemma OtherStep(s: State, a: Action)
    requires Polled(s) && Enabled(s, a) && !a.SearchQueue? && !a.ReadBatch? && !AtEmptyRead(s)
    ensures Polled(Apply(s, a)) && !AtEmptyRead(Apply(s, a))
  {
    hide SearchNext, ReadNext;
    if Handles(a) {
      HandlingStep(s, a);
      hide Apply;
    } else {
      hide ServeControlNext, HandleFrontNext;
    }
  }

  lemma HandlingStep(s: State, a: Action)
    requires Polled(s) && Enabled(s, a) && Handles(a) && !AtEmptyRead(s)
    ensures Polled(Apply(s, a)) && !AtEmptyRead(Apply(s, a))
  {}

  /** At an empty read, only the adapter of its own accord can change anything about it. */
  lemma EmptyReadStep(s: State, a: Action)
    requires Polled(s) && Enabled(s, a) && AtEmptyRead(s)
    ensures Polled(Apply(s, a)) && (AtEmptyRead(Apply(s, a)) <==> !OfItsOwnAccord(a))
  {
    hide SearchNext, ReadNext;
  }

  lemma PolledStep(s: State, a: Action)
    requires Inv(s) && Polled(s) && Enabled(s, a)
    ensures Polled(Apply(s, a))
    ensures AtEmptyRead(Apply(s, a)) <==>
              UsesDataUp(s, a) || (AtEmptyRead(s) && !OfItsOwnAccord(a))
  {
    StepKeepsInv(s, a);
    hide Inv;
    if AtEmptyRead(s) {
      EmptyReadStep(s, a);
    } else if a.SearchQueue? || a.ReadBatch? {
      AfterWait(s, a);
      hide Apply;
      if AtEmptyRead(Apply(s, a)) {
        NothingOwed(Apply(s, a));
      }
    } else {
      OtherStep(s, a);
      hide Apply;
    }
  }

  // ---------------------------------------------------------------- every run

  lemma SpeaksInFirst(actions: seq<Action>)
    requires actions != []
    ensures SpeaksIn(actions) <==> OfItsOwnAccord(actions[0]) || SpeaksIn(actions[1..])
  {
    assert forall a :: a in actions <==> a == actions[0] || a in actions[1..];
  }

  lemma {:induction false} AtEmptyReadExactly(s: State, actions: seq<Action>)
    requires Inv(s) && Polled(s) && Runnable(s, actions)
    ensures Polled(Exec(s, actions))
    ensures AtEmptyRead(Exec(s, actions)) <==> !DataComes(s, actions) || (AtEmptyRead(s) && !SpeaksIn(actions))
    decreases |actions|
  {
    if actions != [] {
      hide Inv, Apply, Polled, AtEmptyRead, OfItsOwnAccord, UsesDataUp, SpeaksIn;
      StepKeepsInv(s, actions[0]);
      PolledStep(s, actions[0]);
      SpeaksInFirst(actions);
      UsesDataUpInWait(s, actions[0]);
      AtEmptyReadExactly(Apply(s, actions[0]), actions[1..]);
    } else {
      assert !SpeaksIn([]);
    }
  }

  lemma UsesDataUpInWait(s: State, a: Action)
    requires Enabled(s, a)
    ensures UsesDataUp(s, a) ==> !AtEmptyRead(s)
  {}

  lemma PolledInit(parallel: bool)
    ensures Polled(Init(parallel)) && !AtEmptyRead(Init(parallel))
  {}

  /** The loop is about to read an empty stream at the end of a run exactly if a handshake has used up the data it
      was polled with and the adapter has not spoken of its own accord since. */
  lemma ReadsInVainExactly(parallel: bool, actions: seq<Action>)
    requires Runnable(Init(parallel), actions)
    ensures AtEmptyRead(Exec(Init(parallel), actions)) <==> !DataComes(Init(parallel), actions)
  {
    hide *;
    InvInit(parallel);
    PolledInit(parallel);
    AtEmptyReadExactly(Init(parallel), actions);
  }

  /** While the front end waits, the system is stuck exactly if the data polled with the handshake has been used up
      and nothing has come since, or the handshake has missed `initialized` and there is nothing left to read. */
  lemma StandstillExactly(parallel: bool, actions: seq<Action>)
    requires Runnable(Init(parallel), actions) && FrontEndWaits(Exec(Init(parallel), actions))
    ensures var s := Exec(Init(parallel), actions);
            Stuck(s) <==>
            || !DataComes(Init(parallel), actions)
            || (!InitializedComes(Init(parallel), actions) && NothingLeft(s))
  {
    var start, s := Init(parallel), Exec(Init(parallel), actions);
    hide *;
    InvInit(parallel);
    PolledInit(parallel);
    StuckExactlyAtDeadEnds(parallel, actions);
    AtEmptyReadExactly(start, actions);
    if !InitializedComes(start, actions) {
      MissingMeansWaiting(start, actions);
    }
    if Stuck(s) {
      WaitsInVainExactly(parallel, actions);
    }
    DeadEndsApart(s);
  }

  /** The two kinds of dead end. */
  lemma DeadEndsApart(s: State)
    requires Polled(s)
    ensures DeadEnd(s) <==> AtEmptyRead(s) || (AwaitsInitialized(s) && NothingLeft(s))
    ensures AtEmptyRead(s) ==> !s.pc.Waiting?
    ensures NothingLeft(s) ==> s.pc.Waiting?
  {}

  /** The queue has been searched, the stream has been read, and the adapter owes nothing. */
  predicate NothingLeft(s: State) { s.pc.Waiting? && s.pc.searched && s.wire == [] && s.owed == [] }
}
