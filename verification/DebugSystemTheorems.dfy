/** The guarantees of the debug system, read off its invariant. */
module DebugSystemTheorems {
  import opened Basics
  import opened DebugSystem
  import opened DebugSystemSafety

  // ---------------------------------------------------------------- what the observer accepts

  function OnController(): Observation -> bool { (o: Observation) => o.RequestTaken? || o.Answered? }

  /** On the controller socket receiving and sending alternate, and each answer answers the request
      received just before it. */
  predicate InTurn(ops: seq<Observation>) { forall k: nat :: k < |ops| ==> TurnAt(ops, k) }

  predicate TurnAt(ops: seq<Observation>, k: nat)
    requires k < |ops|
  {
    if k % 2 == 0 then ops[k].RequestTaken?
    else
      && ops[k - 1].RequestTaken? && ops[k].Answered?
      && ops[k].reply == Reply(ops[k - 1].command, Client(ops[k - 1].n))
  }

  /** The last header in `log`. */
  function LastHeader(log: seq<Observation>): Option<nat> {
    if log == [] then None
    else if log[|log| - 1].HeaderTaken? then Some(log[|log| - 1].header)
    else LastHeader(log[..|log| - 1])
  }

  /** The request received last and not answered. */
  function Pending(ops: seq<Observation>): Option<Asked> {
    if |ops| % 2 == 1 && ops[|ops| - 1].RequestTaken?
    then Some(Asked(ops[|ops| - 1].n, ops[|ops| - 1].command)) else None
  }

  lemma FilterSnoc(log: seq<Observation>, o: Observation)
    ensures Filter(OnController(), log + [o]) == Filter(OnController(), log) + if OnController()(o) then [o] else []
  {
    FilterAppend(OnController(), log, [o]);
    assert Filter(OnController(), [o]) == (if OnController()(o) then [o] else []) + Filter(OnController(), []);
  }

  lemma InTurnSnoc(ops: seq<Observation>, o: Observation)
    requires InTurn(ops)
    requires if |ops| % 2 == 0 then o.RequestTaken?
             else
               && o.Answered? && ops[|ops| - 1].RequestTaken?
               && o.reply == Reply(ops[|ops| - 1].command, Client(ops[|ops| - 1].n))
    ensures InTurn(ops + [o])
  {
    forall k: nat | k < |ops + [o]| ensures TurnAt(ops + [o], k) {
      if k < |ops| {
        assert TurnAt(ops, k);
      }
    }
  }

  /** In an accepted log the controller socket is used in turn. */
  lemma {:induction false} AcceptedInTurn(log: seq<Observation>)
    requires Replay(log) != Violated
    ensures InTurn(Filter(OnController(), log))
    ensures Replay(log).pending == Pending(Filter(OnController(), log))
    decreases |log|
  {
    if log != [] {
      var front, last := log[..|log| - 1], log[|log| - 1];
      AcceptedInTurn(front);
      assert log == front + [last];
      FilterSnoc(front, last);
      hide Filter, InTurn;
      var ops := Filter(OnController(), front);
      if OnController()(last) {
        TurnParity(ops);
        InTurnSnoc(ops, last);
      } else {
        assert ops + [] == ops;
      }
    }
  }

  lemma TurnParity(ops: seq<Observation>)
    requires InTurn(ops)
    ensures Pending(ops).Some? <==> |ops| % 2 == 1
  {
    if |ops| % 2 == 1 {
      assert TurnAt(ops, |ops| - 1);
    }
  }

  /** In an accepted log every request and every event goes with the last header. */
  lemma {:induction false} AcceptedHeaders(log: seq<Observation>)
    requires Replay(log) != Violated
    ensures Replay(log).parent == LastHeader(log)
    ensures forall k :: 0 <= k < |log| && log[k].RequestTaken? ==> LastHeader(log[..k]) == Some(log[k].ofHeader)
    ensures forall k :: 0 <= k < |log| && log[k].Published? ==> LastHeader(log[..k]) == log[k].parent
    decreases |log|
  {
    if log != [] {
      var front := log[..|log| - 1];
      AcceptedHeaders(front);
      forall k | 0 <= k < |front| ensures log[..k] == front[..k] && log[k] == front[k] {}
    }
  }

  // ---------------------------------------------------------------- the theorem

  lemma InvMeans(s: State)
    requires Inv(s)
    ensures s.pc != Failed && Replay(s.log) != Violated
    ensures s.replyOut.Some? ==> s.replyOut.value.Reply? && s.replyOut.value.origin == Client(s.request)
    ensures s.pc == Polling || s.pc == Exited ==> s.queue == []
  {
    hide Replay, Session, AllProper, Counted;
  }

  /** Request/reply discipline and header agreement, in every run of the system, whatever the
      interleaving and however the stream is batched: the loop never uses a socket out of turn nor
      pops an empty queue; every request it receives is answered once, by the response to this very
      request, before the next is received, and none of its own requests' responses gets there; a
      request is received under its own header, and an event is published under the last header. */
  lemma Discipline(parallel: bool, actions: seq<Action>)
    requires Runnable(Init(parallel), actions)
    ensures var s := Exec(Init(parallel), actions);
            && s.pc != Failed
            && InTurn(Filter(OnController(), s.log))
            && (forall k :: 0 <= k < |s.log| && s.log[k].RequestTaken? ==>
                  LastHeader(s.log[..k]) == Some(s.log[k].ofHeader))
            && (forall k :: 0 <= k < |s.log| && s.log[k].Published? ==> LastHeader(s.log[..k]) == s.log[k].parent)
            && (s.replyOut.Some? ==> s.replyOut.value.Reply? && s.replyOut.value.origin == Client(s.request))
            && (s.pc == Polling || s.pc == Exited ==> s.queue == [])
  {
    hide *;
    var s := Exec(Init(parallel), actions);
    InvInit(parallel);
    RunKeepsInv(Init(parallel), actions);
    InvMeans(s);
    AcceptedInTurn(s.log);
    AcceptedHeaders(s.log);
  }
}
