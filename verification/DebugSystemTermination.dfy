/** Every run of the debug system is over after a number of steps known in advance, counted in what the front end
    asks and in what the adapter says of its own accord. */
module DebugSystemTermination {
  import opened Basics
  import opened Selection
  import opened DebugSystem
  import opened DebugSystemSafety
  import opened DebugSystemProgress

  // ---------------------------------------------------------------- the weight of a state

  /** What handling a queued message takes; an all-threads stop begins a wait. */
  function Worth(i: Item): nat { if i == Plain(true) then 18 else 3 }

  function Load(items: seq<Item>): nat { if items == [] then 0 else Worth(items[0]) + Load(items[1..]) }

  function One(present: bool, weight: int): int { if present then weight else 0 }

  /** A poll is paid for by what the sockets it reports are going to deliver. */
  function PcWeight(pc: LoopPc): int {
    match pc
    case Polling => 0
    case Serving(header, control, tcp) => 1 - One(header, 10) - One(control, 10) - One(tcp, 10)
    case Waiting(what, searched) => One(!searched, 1) + AwaitedWeight(what)
    case Exited => -1
    case Failed => 0
  }

  function AwaitedWeight(what: Awaited): int {
    match what
    case ForThreads => -16
    case ForInitialized(tcp) => 21 - One(tcp, 10)
    case ForConfiguration(tcp) => 4 - One(tcp, 10)
    case ForAttach(tcp) => 2 - One(tcp, 10)
  }

  function SocketsWeight(s: State): int {
    One(s.headerIn.Some?, 12) + One(s.headerAck, 1) + One(s.requestIn.Some?, 47) + One(s.replyOut.Some?, 2)
    + One(s.front != Idle, 1)
  }

  function Weight(s: State): int {
    Load(s.queue) + Load(s.wire) + 11 * |s.wire| + 15 * |s.owed| + SocketsWeight(s) + PcWeight(s.pc)
  }

  lemma WeightAtLeast(s: State)
    ensures Weight(s) >= -29
  {
    hide Load;
  }

  /** By how much an action may add to the weight: the questions of the front end and what the adapter says of its
      own accord do, every other action lowers it. */
  function Cost(a: Action): int {
    match a
    case BeginRequest(_) => 13
    case SendRequest => 47
    case AdapterEvent(_) => 29
    case AdapterInitialized => 14
    case _ => -1
  }

  // ---------------------------------------------------------------- loads

  lemma {:induction false} LoadAppend(a: seq<Item>, b: seq<Item>)
    ensures Load(a + b) == Load(a) + Load(b)
  {
    if a == [] {
      assert a + b == b;
    } else {
      assert (a + b)[1..] == a[1..] + b;
      LoadAppend(a[1..], b);
    }
  }

  lemma LoadSnoc(a: seq<Item>, i: Item)
    ensures Load(a + [i]) == Load(a) + Worth(i)
  {
    LoadAppend(a, [i]);
    assert [i][1..] == [];
  }

  lemma LoadSplit(items: seq<Item>, n: nat)
    requires n <= |items|
    ensures Load(items) == Load(items[..n]) + Load(items[n..])
  {
    LoadAppend(items[..n], items[n..]);
    assert items[..n] + items[n..] == items;
  }

  lemma LoadWithout(items: seq<Item>, i: nat)
    requires i < |items|
    ensures Load(Without(items, i)) == Load(items) - Worth(items[i])
  {
    LoadSplit(items, i);
    LoadAppend(items[..i], items[i + 1..]);
    assert items[i..][0] == items[i] && items[i..][1..] == items[i + 1..];
  }

  lemma {:induction false} LoadFilter(p: Item -> bool, items: seq<Item>)
    ensures Load(Filter(p, items)) <= Load(items)
  {
    if items != [] {
      LoadFilter(p, items[1..]);
      var rest := Filter(p, items[1..]);
      assert ([items[0]] + rest)[1..] == rest && [] + rest == rest;
    }
  }

  // ---------------------------------------------------------------- waits

  lemma ResumeWeight(s: State, found: Item, queue: seq<Item>)
    requires s.pc.Waiting? && Resume(s, s.pc.what, found, queue).pc != Failed
    requires s.pc.what.ForThreads? ==> queue != [] && queue[0] == Plain(true)
    ensures Weight(Resume(s, s.pc.what, found, queue)) <= Weight(s.(queue := queue)) + 1
  {
    match s.pc.what {
      case ForThreads => ThreadsWeight(s, found, queue);
      case ForAttach(_) => AttachWeight(s, found, queue);
      case _ => HandshakeWeight(s, found, queue);
    }
    hide Load, Weight;
  }

  lemma ThreadsWeight(s: State, found: Item, queue: seq<Item>)
    requires s.pc.Waiting? && s.pc.what.ForThreads? && queue != [] && queue[0] == Plain(true)
    ensures Weight(Resume(s, s.pc.what, found, queue)) <= Weight(s.(queue := queue))
  {
    assert Load(queue) == 18 + Load(queue[1..]);
    hide Load;
  }

  lemma HandshakeWeight(s: State, found: Item, queue: seq<Item>)
    requires s.pc.Waiting? && (s.pc.what.ForInitialized? || s.pc.what.ForConfiguration?)
    ensures Weight(Resume(s, s.pc.what, found, queue)) < Weight(s.(queue := queue))
  {
    hide Load;
  }

  lemma AttachWeight(s: State, found: Item, queue: seq<Item>)
    requires s.pc.Waiting? && s.pc.what.ForAttach? && s.outstanding.Some?
    ensures Weight(Resume(s, s.pc.what, found, queue)) <= Weight(s.(queue := queue)) + 1
  {
    hide Load;
  }

  lemma SearchWeight(s: State)
    requires Inv(s) && Enabled(s, SearchQueue)
    ensures Weight(SearchNext(s)) < Weight(s)
  {
    StepKeepsInv(s, SearchQueue);
    hide Lockstep, Observed, Session, AllProper, Counted, Load, Resume, Without, FirstMatch;
    match FirstMatch(Condition(s.pc.what), s.queue) {
      case None =>
      case Some(i) =>
        SearchFinds(s, i);
        LoadWithout(s.queue, i);
        ResumeWeight(s, s.queue[i], Without(s.queue, i));
    }
  }

  lemma ReadWeight(s: State, n: nat)
    requires Inv(s) && Enabled(s, ReadBatch(n))
    ensures Weight(ReadNext(s, n)) < Weight(s)
  {
    StepKeepsInv(s, ReadBatch(n));
    hide Lockstep, Observed, Session, AllProper, Counted, Load, Resume, Filter, LastMatch;
    var p, batch := Condition(s.pc.what), s.wire[..n];
    var kept, rest := s.queue + Filter(Not(p), batch), s.(wire := s.wire[n..]);
    LoadAppend(s.queue, Filter(Not(p), batch));
    LoadFilter(Not(p), batch);
    LoadSplit(s.wire, n);
    assert Weight(rest.(queue := kept)) <= Weight(s) - 11;
    match LastMatch(p, batch) {
      case None =>
      case Some(found) => ResumeWeight(rest, found, kept);
    }
  }

  // ---------------------------------------------------------------- the other steps

  lemma TcpWeight(s: State, n: nat)
    requires Enabled(s, ServeTcp(n))
    ensures Weight(Apply(s, ServeTcp(n))) < Weight(s)
  {
    LoadSplit(s.wire, n);
    LoadAppend(s.queue, s.wire[..n]);
    hide Load;
  }

  lemma FrontWeight(s: State)
    requires Inv(s) && Enabled(s, HandleFront)
    ensures Weight(HandleFrontNext(s)) < Weight(s)
  {
    if s.queue[0].Reply? {
      FrontIsTheAnswer(s);
    }
    hide Inv, Weight;
    HandlingWeight(s);
  }

  lemma HandlingWeight(s: State)
    requires s.pc == Serving(false, false, false) && s.queue != [] && (s.queue[0].Reply? ==> s.outstanding.Some?)
    ensures Weight(HandleFrontNext(s)) < Weight(s)
  {
    hide *;
    if s.queue[0] == Plain(true) {
      StopWeight(s);
    } else {
      PopWeight(s);
    }
  }

  lemma StopWeight(s: State)
    requires s.pc == Serving(false, false, false) && s.queue != [] && s.queue[0] == Plain(true)
    ensures Weight(HandleFrontNext(s)) < Weight(s)
  {
    hide Load;
  }

  lemma PopWeight(s: State)
    requires s.pc == Serving(false, false, false) && s.queue != [] && s.queue[0] != Plain(true)
    requires s.queue[0].Reply? ==> s.outstanding.Some?
    ensures Weight(HandleFrontNext(s)) < Weight(s)
  {
    var next := HandleFrontNext(s);
    assert Load(s.queue) == 3 + Load(next.queue);
    assert next == s.(queue := next.queue, log := next.log, outstanding := next.outstanding,
                      replyOut := next.replyOut, stop := next.stop);
    hide Load, HandleFrontNext;
  }

  lemma ServeWeight(s: State, a: Action)
    requires Inv(s) && Enabled(s, a) && (a.ServeHeader? || a.ServeControl?)
    ensures Weight(Apply(s, a)) < Weight(s)
  {
    assert a.ServeHeader? ==> s.headerIn.Some?;
    assert a.ServeControl? ==> s.requestIn.Some? && s.outstanding == None;
    hide Inv, Load, Worth;
    if a.ServeHeader? {
      hide ServeControlNext;
    }
  }

  lemma LoopWeight(s: State, a: Action)
    requires Enabled(s, a) && (a.Poll? || a.Exit? || a.QueueDone?)
    ensures Weight(Apply(s, a)) < Weight(s)
  {
    hide Load;
  }

  lemma AdapterWeight(s: State, a: Action)
    requires Enabled(s, a) && AdapterAction(a)
    ensures Weight(Apply(s, a)) <= Weight(s) + Cost(a)
  {
    match a {
      case AdapterEvent(stopsAll) => LoadSnoc(s.wire, Plain(stopsAll));
      case AdapterInitialized => LoadSnoc(s.wire, Initialized);
      case AdapterAnswers(i) => LoadSnoc(s.wire, Reply(s.owed[i].command, s.owed[i].origin));
    }
    hide Load;
  }

  lemma FrontEndWeight(s: State, a: Action)
    requires Enabled(s, a) && FrontEndAction(a)
    ensures Weight(Apply(s, a)) <= Weight(s) + Cost(a)
  {
    hide Load;
  }

  lemma StepWeight(s: State, a: Action)
    requires Inv(s) && Enabled(s, a)
    ensures Weight(Apply(s, a)) <= Weight(s) + Cost(a)
  {
    hide Inv, Weight, SearchNext, ReadNext, ServeControlNext, HandleFrontNext;
    if FrontEndAction(a) {
      FrontEndWeight(s, a);
    } else if AdapterAction(a) {
      AdapterWeight(s, a);
    } else {
      match a
      case SearchQueue => SearchWeight(s);
      case ReadBatch(n) => ReadWeight(s, n);
      case ServeTcp(n) => TcpWeight(s, n);
      case HandleFront => FrontWeight(s);
      case ServeHeader => ServeWeight(s, a);
      case ServeControl => ServeWeight(s, a);
      case _ => LoopWeight(s, a);
    }
  }

  // ---------------------------------------------------------------- every run

  /** How many steps the questions and the unasked messages of a run are good for. */
  function Allowance(actions: seq<Action>): nat {
    if actions == [] then 0 else 1 + Cost(actions[0]) + Allowance(actions[1..])
  }

  lemma {:induction false} RunIsBounded(s: State, actions: seq<Action>)
    requires Inv(s) && Runnable(s, actions)
    ensures |actions| <= Weight(s) - Weight(Exec(s, actions)) + Allowance(actions)
    decreases |actions|
  {
    hide Inv, Weight, Apply;
    if actions != [] {
      StepKeepsInv(s, actions[0]);
      StepWeight(s, actions[0]);
      RunIsBounded(Apply(s, actions[0]), actions[1..]);
    }
  }

  lemma NoWeight(parallel: bool)
    ensures Weight(Init(parallel)) == 0
  {}

  /** With finitely many questions of the front end and finitely many messages of the adapter's own accord, every
      run is over after a number of steps known in advance, whatever the interleaving and the batches. */
  lemma EveryRunEnds(parallel: bool, actions: seq<Action>)
    requires Runnable(Init(parallel), actions)
    ensures |actions| <= Allowance(actions) + 29
  {
    InvInit(parallel);
    NoWeight(parallel);
    hide *;
    RunIsBounded(Init(parallel), actions);
    WeightAtLeast(Exec(Init(parallel), actions));
  }

  /** Each question is answered in time. While the front end asks nothing more, a reached state goes on for a bounded
      number of steps, plus a bounded number for each message of the adapter's own accord; and when nothing certain
      can move any more, the front end has what it has been waiting for, or the system is at a dead end. */
  lemma AnsweredOrDeadEnd(parallel: bool, before: seq<Action>, more: seq<Action>)
    requires Runnable(Init(parallel), before) && Runnable(Exec(Init(parallel), before), more)
    requires forall a :: a in more ==> !a.BeginRequest? && !a.SendRequest?
    ensures var s, end := Exec(Init(parallel), before), Exec(Exec(Init(parallel), before), more);
            && |more| <= Weight(s) + 29 + 30 * Unasked(more)
            && (Stuck(end) ==> !FrontEndWaits(end) || DeadEnd(end))
  {
    var s := Exec(Init(parallel), before);
    var end := Exec(s, more);
    InvInit(parallel);
    SearchedInit(parallel);
    hide Inv, Searched, Weight, Init, Exec, Stuck, FrontEndWaits, DeadEnd;
    RunKeepsInv(Init(parallel), before);
    RunKeepsSearched(Init(parallel), before);
    RunKeepsInv(s, more);
    RunKeepsSearched(s, more);
    RunIsBounded(s, more);
    WeightAtLeast(end);
    AllowanceIsForUnasked(more);
    if FrontEndWaits(end) {
      StuckExactlyAt(end);
    }
  }

  /** How often the adapter speaks of its own accord. */
  function Unasked(actions: seq<Action>): nat {
    if actions == [] then 0 else (if OfItsOwnAccord(actions[0]) then 1 else 0) + Unasked(actions[1..])
  }

  lemma {:induction false} AllowanceIsForUnasked(actions: seq<Action>)
    requires forall a :: a in actions ==> !a.BeginRequest? && !a.SendRequest?
    ensures Allowance(actions) <= 30 * Unasked(actions)
  {
    if actions != [] {
      assert actions[0] in actions && forall a :: a in actions[1..] ==> a in actions;
      AllowanceIsForUnasked(actions[1..]);
    }
  }
}
