/** The request/reply discipline of the debug system, carried over to the debug client's event loop. */
module ClientDiscipline {
  import opened Basics
  import opened DebugSystem
  import opened DebugSystemSafety
  import opened DebugSystemTheorems
  import opened DebugSystemRefinement
  import opened DebugSystemAgreement

  // ---------------------------------------------------------------- the front end between two rounds

  lemma FrontEndLeavesLoop(c: P.Codec, texts: Texts, l: L.Loop, x: Point, a: Action)
    requires Alike(c, texts, l, x) && x.Valid() && x.s.pc == Polling && FrontEndAction(a) && Enabled(x.s, a)
    ensures var y := x.(s := Apply(x.s, a));
            Alike(c, texts, l, y) && y.Valid() && y.s.pc == Polling && y.s.log == x.s.log
  {
    hide Mirrors, AllMirror, NonEmpty;
  }

  lemma {:induction false} FrontEndRun(c: P.Codec, texts: Texts, l: L.Loop, x: Point, moves: seq<Action>)
    requires Alike(c, texts, l, x) && x.Valid() && x.s.pc == Polling
    requires Runnable(x.s, moves) && forall a :: a in moves ==> FrontEndAction(a)
    ensures var y := x.(s := Exec(x.s, moves));
            Alike(c, texts, l, y) && y.Valid() && y.s.pc == Polling && y.s.log == x.s.log
    decreases |moves|
  {
    if moves != [] {
      hide Alike, Apply, Enabled, Loaded, NonEmpty, FrontEndAction;
      assert moves[0] in moves && forall a :: a in moves[1..] ==> a in moves;
      FrontEndLeavesLoop(c, texts, l, x, moves[0]);
      FrontEndRun(c, texts, l, x.(s := Apply(x.s, moves[0])), moves[1..]);
    }
  }

  /** A run of the client in company: before each round the front end moves, the polls report what it has sent,
      and the round is fed. That the loop does not fail is no part of it. */
  ghost predicate InCompany(c: P.Codec, texts: Texts, l: L.Loop, x: Point, moves: seq<seq<Action>>, polls: seq<L.Poll>)
    decreases |polls|
  {
    && |moves| == |polls|
    && (polls == [] || l.Halted? || l.stop ||
        (Runnable(x.s, moves[0]) && (forall a :: a in moves[0] ==> FrontEndAction(a))
         && var before := x.(s := Exec(x.s, moves[0]));
            var y := StepRound(before, polls[0]);
            && SamePolled(c, texts, l, before.s, polls[0])
            && !y.Unfed?
            && (y.Went? ==> InCompany(c, texts, L.Round(c, l, polls[0]), y.to, moves[1..], polls[1..]))))
  }

  /** Where the system stands after such a run. */
  function Company(x: Point, moves: seq<seq<Action>>, polls: seq<L.Poll>): Point
    decreases |polls|
  {
    if polls == [] || moves == [] || x.s.stop || !Runnable(x.s, moves[0]) then x
    else match StepRound(x.(s := Exec(x.s, moves[0])), polls[0])
      case Went(y) => Company(y, moves[1..], polls[1..])
      case _ => x
  }

  /** The client never halts in company, and what it does is done by a run of the system. */
  lemma {:induction false} RunIsARun(c: P.Codec, texts: Texts, l: L.Loop, x: Point, moves: seq<seq<Action>>,
                                     polls: seq<L.Poll>)
    requires c.Valid() && l.Live? && Alike(c, texts, l, x) && x.Valid() && x.s.pc == Polling && Inv(x.s)
    ensures InCompany(c, texts, l, x, moves, polls) ==>
      StillAlike(c, texts, l, x, L.Run(c, l, polls), Company(x, moves, polls))
      && Reaches(x.s, Company(x, moves, polls).s)
    decreases |polls|
  {
    hide Alike, StillAlike, Reaches, L.Round, StepRound, SamePolled, Loaded, NonEmpty, Inv;
    if !InCompany(c, texts, l, x, moves, polls) {
      return;
    }
    SameStop(c, texts, l, x);
    if polls == [] || l.stop {
      StaysAlike(c, texts, l, x);
      ReachesItself(x.s);
    } else {
      var before := x.(s := Exec(x.s, moves[0]));
      FrontEndRun(c, texts, l, x, moves[0]);
      RunKeepsInv(x.s, moves[0]);
      ReachesBy(x.s, moves[0]);
      RoundIsARun(c, texts, l, before, polls[0]);
      var l1, x1 := L.Round(c, l, polls[0]), StepRound(before, polls[0]).to;
      AlikeAgain(c, texts, l, before, l1, x1);
      RunIsARun(c, texts, l1, x1, moves[1..], polls[1..]);
      var y := Company(x1, moves[1..], polls[1..]);
      LogUnmoved(c, texts, l, before, x, l1, x1);
      StillAlikeFurther(c, texts, l, x, l1, x1, L.Run(c, l1, polls[1..]), y);
      ReachesFurther(x.s, before.s, x1.s);
      ReachesFurther(x.s, x1.s, y.s);
    }
  }

  lemma SameStop(c: P.Codec, texts: Texts, l: L.Loop, x: Point)
    requires Alike(c, texts, l, x)
    ensures l.Live? && l.stop == x.s.stop
  {}

  lemma ReachesBy(s: State, actions: seq<Action>)
    requires Runnable(s, actions)
    ensures Reaches(s, Exec(s, actions))
  {}

  lemma LogUnmoved(c: P.Codec, texts: Texts, l: L.Loop, before: Point, x: Point, l': L.Loop, y: Point)
    requires StillAlike(c, texts, l, before, l', y) && before.s.log == x.s.log
    ensures StillAlike(c, texts, l, x, l', y)
  {}

  // ---------------------------------------------------------------- the discipline of the client

  /** The client's controller socket. */
  function OnClientController(): P.Effect -> bool { (e: P.Effect) => e.RequestTaken? || e.Replied? }

  /** Receiving and sending alternate, beginning with a request, and each reply carries the command of the request
      received just before it. */
  predicate Alternates(c: P.Codec, ops: seq<P.Effect>) {
    forall k :: 0 <= k < |ops| ==>
      if k % 2 == 0 then ops[k].RequestTaken? else ops[k].Replied? && Fits(c, ops[k - 1], ops[k].raw)
  }

  predicate Fits(c: P.Codec, request: P.Effect, reply: Bytes) {
    && request.RequestTaken? && P.Payload(request.raw).Some?
    && c.parse(reply).kind.Response? && c.parse(reply).command.Some?
    && c.parse(reply).command == c.parse(P.Payload(request.raw).value).command
  }

  /** Each reply is the message with which the adapter answers this very request, and no request of the client's
      own; `obs` says for which request it is sent. */
  predicate AnswersItself(c: P.Codec, texts: Texts, ops: seq<P.Effect>, obs: seq<Observation>) {
    |ops| == |obs| && forall k :: 0 <= k < |ops| && k % 2 == 1 ==>
      && ops[k - 1].RequestTaken? && obs[k - 1].RequestTaken? && ops[k - 1].raw == texts.requests(obs[k - 1].n)
      && ops[k].Replied? && obs[k].Answered? && Same(c, ops[k].raw, obs[k].reply)
      && obs[k].reply.Reply? && obs[k].reply.origin == Client(obs[k - 1].n)
  }

  lemma {:induction false} SameOnController(c: P.Codec, texts: Texts, shown: seq<P.Effect>, log: seq<Observation>)
    requires |shown| == |log| && forall i :: 0 <= i < |log| ==> SameObservation(c, texts, shown[i], log[i])
    ensures var ops, obs := Filter(OnClientController(), shown), Filter(OnController(), log);
            |ops| == |obs| && forall i :: 0 <= i < |ops| ==> SameObservation(c, texts, ops[i], obs[i])
  {
    if shown != [] {
      SameOnController(c, texts, shown[1..], log[1..]);
      assert SameObservation(c, texts, shown[0], log[0]);
      assert OnClientController()(shown[0]) == OnController()(log[0]);
      hide SameObservation, Same;
    }
  }

  lemma {:induction false} UnseenIsOffController(effects: seq<P.Effect>)
    ensures Filter(OnClientController(), Filter(OnSockets(), effects)) == Filter(OnClientController(), effects)
  {
    if effects != [] {
      UnseenIsOffController(effects[1..]);
      var later := Filter(OnSockets(), effects[1..]);
      assert ([effects[0]] + later)[1..] == later && [] + later == later;
    }
  }

  lemma SystemInTurn(parallel: bool, s: State)
    requires Reaches(Init(parallel), s)
    ensures InTurn(Filter(OnController(), s.log))
  {
    var actions :| Runnable(Init(parallel), actions) && Exec(Init(parallel), actions) == s;
    Discipline(parallel, actions);
  }

  lemma InTurnMeansAlternating(c: P.Codec, texts: Texts, ops: seq<P.Effect>, obs: seq<Observation>)
    requires |ops| == |obs| && forall i :: 0 <= i < |ops| ==> SameObservation(c, texts, ops[i], obs[i])
    requires InTurn(obs)
    ensures Alternates(c, ops) && AnswersItself(c, texts, ops, obs)
  {
    forall k | 0 <= k < |ops|
      ensures if k % 2 == 0 then ops[k].RequestTaken? else ops[k].Replied? && Fits(c, ops[k - 1], ops[k].raw)
    {
      assert TurnAt(obs, k) && SameObservation(c, texts, ops[k], obs[k]);
      if k % 2 == 1 {
        assert SameObservation(c, texts, ops[k - 1], obs[k - 1]);
      }
    }
    forall k | 0 <= k < |ops| && k % 2 == 1
      ensures ops[k - 1].RequestTaken? && obs[k - 1].RequestTaken? && ops[k - 1].raw == texts.requests(obs[k - 1].n)
      ensures ops[k].Replied? && obs[k].Answered? && Same(c, ops[k].raw, obs[k].reply)
      ensures obs[k].reply.Reply? && obs[k].reply.origin == Client(obs[k - 1].n)
    {
      assert TurnAt(obs, k) && SameObservation(c, texts, ops[k], obs[k]);
      assert SameObservation(c, texts, ops[k - 1], obs[k - 1]);
    }
  }

  /** In every run of the client in company the loop never halts, and what it does on its header, controller and
      publisher sockets is, one for one, what a run of the system does. */
  lemma ClientFollowsTheSystem(c: P.Codec, texts: Texts, parallel: bool, l: L.Loop, supply: seq<seq<Item>>,
                               moves: seq<seq<Action>>, polls: seq<L.Poll>)
    requires c.Valid() && l.Live? && l.log == [] && NonEmpty(supply)
    requires Alike(c, texts, l, Point(Init(parallel), supply))
    requires InCompany(c, texts, l, Point(Init(parallel), supply), moves, polls)
    ensures L.Run(c, l, polls).Live?
    ensures var y := Company(Point(Init(parallel), supply), moves, polls).s;
            var shown := Filter(OnSockets(), L.Run(c, l, polls).log);
            && Reaches(Init(parallel), y) && |shown| == |y.log|
            && forall i :: 0 <= i < |shown| ==> SameObservation(c, texts, shown[i], y.log[i])
  {
    var x := Point(Init(parallel), supply);
    var end, y := L.Run(c, l, polls), Company(x, moves, polls);
    InvInit(parallel);
    hide Alike, InCompany, Company, L.Run, Reaches, NonEmpty, SameObservation, Inv;
    RunIsARun(c, texts, l, x, moves, polls);
    AlikeAgain(c, texts, l, x, end, y);
    var effects :| end.log == l.log + effects && LogAlike(c, texts, effects, x.s.log, y.s.log);
    assert end.log == effects;
  }

  /** The controller socket of the client is used in turn: before the next request is received each request gets
      one reply, which carries its command and is the adapter's answer to this request and to none of the
      client's own. */
  lemma ClientUsesItsSocketInTurn(c: P.Codec, texts: Texts, parallel: bool, l: L.Loop, supply: seq<seq<Item>>,
                                  moves: seq<seq<Action>>, polls: seq<L.Poll>)
    requires c.Valid() && l.Live? && l.log == [] && NonEmpty(supply)
    requires Alike(c, texts, l, Point(Init(parallel), supply))
    requires InCompany(c, texts, l, Point(Init(parallel), supply), moves, polls)
    ensures var ops := Filter(OnClientController(), L.Run(c, l, polls).log);
            var obs := Filter(OnController(), Company(Point(Init(parallel), supply), moves, polls).s.log);
            Alternates(c, ops) && AnswersItself(c, texts, ops, obs)
  {
    var log, y := L.Run(c, l, polls).log, Company(Point(Init(parallel), supply), moves, polls).s;
    hide Alike, InCompany, Company, L.Run, Reaches, NonEmpty, InTurn, SameObservation, Alternates, AnswersItself;
    ClientFollowsTheSystem(c, texts, parallel, l, supply, moves, polls);
    SystemInTurn(parallel, y);
    SameOnController(c, texts, Filter(OnSockets(), log), y.log);
    UnseenIsOffController(log);
    InTurnMeansAlternating(c, texts, Filter(OnClientController(), log), Filter(OnController(), y.log));
  }
}
