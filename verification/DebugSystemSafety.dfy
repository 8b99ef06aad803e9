/** Every run of the debug system: the controller socket is used in turn, each request is answered
    by its own response, and headers and requests agree. */
module DebugSystemSafety {
  import opened Basics
  import opened Selection
  import opened DebugSystem

  // ---------------------------------------------------------------- whom the replies are for

  datatype Owner = TheClient | TheThreads | TheConfiguration

  predicate Owns(owner: Owner, origin: Origin) {
    match owner
    case TheClient => origin.Client?
    case TheThreads => origin.OwnThreads?
    case TheConfiguration => origin.OwnConfiguration?
  }

  predicate Answers(owner: Owner, i: Item) { i.Reply? && Owns(owner, i.origin) }

  /** How many messages in `s` answer a request of `owner`. */
  function Replies(owner: Owner, s: seq<Item>): nat {
    if s == [] then 0 else (if Answers(owner, s[0]) then 1 else 0) + Replies(owner, s[1..])
  }

  function Debts(owner: Owner, s: seq<Owed>): nat {
    if s == [] then 0 else (if Owns(owner, s[0].origin) then 1 else 0) + Debts(owner, s[1..])
  }

  lemma {:induction false} RepliesAppend(owner: Owner, s: seq<Item>, t: seq<Item>)
    ensures Replies(owner, s + t) == Replies(owner, s) + Replies(owner, t)
  {
    if s == [] {
      assert s + t == t;
    } else {
      assert (s + t)[1..] == s[1..] + t;
      RepliesAppend(owner, s[1..], t);
    }
  }

  lemma {:induction false} DebtsAppend(owner: Owner, s: seq<Owed>, t: seq<Owed>)
    ensures Debts(owner, s + t) == Debts(owner, s) + Debts(owner, t)
  {
    if s == [] {
      assert s + t == t;
    } else {
      assert (s + t)[1..] == s[1..] + t;
      DebtsAppend(owner, s[1..], t);
    }
  }

  lemma RepliesSnoc(owner: Owner, s: seq<Item>, i: Item)
    ensures Replies(owner, s + [i]) == Replies(owner, s) + if Answers(owner, i) then 1 else 0
  {
    RepliesAppend(owner, s, [i]);
    assert [i][1..] == [];
  }

  lemma DebtsSnoc(owner: Owner, s: seq<Owed>, o: Owed)
    ensures Debts(owner, s + [o]) == Debts(owner, s) + if Owns(owner, o.origin) then 1 else 0
  {
    DebtsAppend(owner, s, [o]);
    assert [o][1..] == [];
  }

  lemma {:induction false} RepliesWithout(owner: Owner, s: seq<Item>, i: nat)
    requires i < |s|
    ensures Replies(owner, s) == Replies(owner, Without(s, i)) + if Answers(owner, s[i]) then 1 else 0
  {
    var shorter := Without(s, i);
    if i == 0 {
      assert shorter == s[1..];
    } else {
      RepliesWithout(owner, s[1..], i - 1);
      assert shorter[0] == s[0] && shorter[1..] == Without(s[1..], i - 1);
    }
  }

  lemma {:induction false} DebtsWithout(owner: Owner, s: seq<Owed>, i: nat)
    requires i < |s|
    ensures Debts(owner, s) == Debts(owner, Without(s, i)) + if Owns(owner, s[i].origin) then 1 else 0
  {
    var shorter := Without(s, i);
    if i == 0 {
      assert shorter == s[1..];
    } else {
      DebtsWithout(owner, s[1..], i - 1);
      assert shorter[0] == s[0] && shorter[1..] == Without(s[1..], i - 1);
    }
  }

  lemma RepliesSplit(owner: Owner, s: seq<Item>, n: nat)
    requires n <= |s|
    ensures Replies(owner, s) == Replies(owner, s[..n]) + Replies(owner, s[n..])
  {
    RepliesAppend(owner, s[..n], s[n..]);
    assert s[..n] + s[n..] == s;
  }

  lemma RepliesCons(owner: Owner, i: Item, s: seq<Item>)
    ensures Replies(owner, [i] + s) == (if Answers(owner, i) then 1 else 0) + Replies(owner, s)
    ensures Replies(owner, [] + s) == Replies(owner, s)
  {
    assert ([i] + s)[1..] == s && [] + s == s;
  }

  lemma {:induction false} RepliesFilter(owner: Owner, p: Item -> bool, s: seq<Item>)
    ensures Replies(owner, s) == Replies(owner, Filter(p, s)) + Replies(owner, Filter(Not(p), s))
  {
    if s != [] {
      RepliesFilter(owner, p, s[1..]);
      RepliesCons(owner, s[0], Filter(p, s[1..]));
      RepliesCons(owner, s[0], Filter(Not(p), s[1..]));
    }
  }

  lemma {:induction false} ReplyCounted(owner: Owner, s: seq<Item>, i: Item)
    requires i in s && Answers(owner, i)
    ensures Replies(owner, s) > 0
  {
    if s[0] != i {
      ReplyCounted(owner, s[1..], i);
    }
  }

  lemma {:induction false} DebtCounted(owner: Owner, s: seq<Owed>, o: Owed)
    requires o in s && Owns(owner, o.origin)
    ensures Debts(owner, s) > 0
  {
    if s[0] != o {
      DebtCounted(owner, s[1..], o);
    }
  }

  lemma {:induction false} AllOrNone(owner: Owner, s: seq<Item>)
    ensures (forall i :: i in s ==> Answers(owner, i)) ==> Replies(owner, s) == |s|
    ensures (forall i :: i in s ==> !Answers(owner, i)) ==> Replies(owner, s) == 0
  {
    if s != [] {
      AllOrNone(owner, s[1..]);
    }
  }

  // ---------------------------------------------------------------- the invariant

  /** Requests and replies carry the command that goes with their origin, and those of the client
      concern the request that has been taken and not been answered. */
  predicate Proper(command: string, origin: Origin, clientCommand: string, outstanding: Option<nat>) {
    match origin
    case Client(n) => command == clientCommand && outstanding == Some(n)
    case OwnThreads => command == "threads"
    case OwnConfiguration => command == "configurationDone"
  }

  ghost predicate ProperItems(items: seq<Item>, clientCommand: string, outstanding: Option<nat>) {
    forall i :: i in items && i.Reply? ==> Proper(i.command, i.origin, clientCommand, outstanding)
  }

  ghost predicate ProperDebts(owed: seq<Owed>, clientCommand: string, outstanding: Option<nat>) {
    forall o :: o in owed ==> Proper(o.command, o.origin, clientCommand, outstanding)
  }

  ghost predicate AllProper(s: State) {
    && ProperItems(s.queue, s.command, s.outstanding)
    && ProperItems(s.wire, s.command, s.outstanding)
    && ProperDebts(s.owed, s.command, s.outstanding)
  }

  /** Whether an answer for `owner` must be on its way. */
  predicate Due(s: State, owner: Owner) {
    match owner
    case TheClient => s.outstanding.Some?
    case TheThreads => s.pc.Waiting? && s.pc.what.ForThreads?
    case TheConfiguration => s.pc.Waiting? && s.pc.what.ForConfiguration?
  }

  /** The answers owed, on the wire and in the queue are exactly those due. */
  predicate CountedFor(s: State, owner: Owner) {
    && Debts(owner, s.owed) + Replies(owner, s.wire) + Replies(owner, s.queue) == (if Due(s, owner) then 1 else 0)
    && (owner != TheClient ==> Replies(owner, s.queue) == 0)
  }

  predicate Counted(s: State) {
    CountedFor(s, TheClient) && CountedFor(s, TheThreads) && CountedFor(s, TheConfiguration)
  }

  /** Header and request sockets are in lockstep, and the loop knows the current header whenever the
      front end has it acknowledged. */
  predicate Lockstep(s: State) {
    && (s.headerIn.Some? || s.headerAck <==> s.front == HeaderSent)
    && !(s.headerIn.Some? && s.headerAck)
    && (s.headerIn.Some? ==> s.headerIn == Some(s.header))
    && (s.headerAck || s.front == HeaderAcked || s.front == RequestSent ==> s.parent == Some(s.header))
    && (s.requestIn.Some? || s.outstanding.Some? || s.replyOut.Some? <==> s.front == RequestSent)
    && !(s.requestIn.Some? && s.outstanding.Some?) && !(s.requestIn.Some? && s.replyOut.Some?)
    && !(s.outstanding.Some? && s.replyOut.Some?)
    && (s.requestIn.Some? ==> s.requestIn == Some(s.request))
    && (s.outstanding.Some? ==> s.outstanding == Some(s.request))
    && (s.replyOut.Some? ==> s.replyOut.value.Reply? && s.replyOut.value.origin == Client(s.request))
    && s.command != "threads"
  }

  predicate Control(s: State) {
    && s.pc != Failed && (s.pc == Exited ==> s.stop)
    && (s.pc == Polling || s.pc == Exited ==> s.queue == [])
    && (s.pc.Serving? && s.pc.header ==> s.headerIn.Some?)
    && (s.pc.Serving? && s.pc.control ==> s.requestIn.Some?)
    && (s.pc.Waiting? && s.pc.what.ForThreads? ==> s.queue != [] && s.queue[0] == Plain(true))
    && (s.pc.Waiting? && !s.pc.what.ForThreads? ==> s.outstanding.Some? && s.command == "attach")
  }

  /** The log is one the observer accepts, and ends where the loop stands. */
  predicate Observed(s: State) {
    Replay(s.log) ==
    Monitor(s.parent, if s.outstanding.Some? then Some(Asked(s.outstanding.value, s.command)) else None)
  }

  /** The loop is told to end only by the answer to a `disconnect` request, after which the front end
      asks for nothing more. */
  predicate Session(s: State) {
    s.stop ==>
    && s.command == "disconnect"
    && if s.front == RequestSent then s.replyOut.Some? else !s.started && (s.front == HeaderAcked || s.front == Idle)
  }

  predicate Sockets(s: State) { Lockstep(s) && Control(s) && Observed(s) && Session(s) }

  ghost predicate Inv(s: State) { Sockets(s) && AllProper(s) && Counted(s) }

  lemma InvInit(parallel: bool)
    ensures Inv(Init(parallel))
  {
    hide Sockets, AllProper, Counted;
    SocketsInit(parallel);
    NothingProper(Init(parallel));
    NothingCounted(Init(parallel));
  }

  lemma SocketsInit(parallel: bool)
    ensures Sockets(Init(parallel))
  {}

  lemma NothingProper(s: State)
    requires s.owed == [] && s.wire == [] && s.queue == []
    ensures AllProper(s)
  {}

  lemma NothingCounted(s: State)
    requires s.owed == [] && s.wire == [] && s.queue == [] && s.pc == Polling && s.outstanding == None
    ensures Counted(s)
  {}

  // ---------------------------------------------------------------- steps

  predicate FrontEndAction(a: Action) {
    a.BeginRequest? || a.TakeHeaderAck? || a.SendRequest? || a.TakeReply? || a.EndRequest?
  }

  lemma FrontEndStep(s: State, a: Action)
    requires Inv(s) && Enabled(s, a) && FrontEndAction(a)
    ensures Inv(Apply(s, a))
  {
    hide Replay, Replies, Debts;
  }

  predicate AdapterAction(a: Action) { a.AdapterEvent? || a.AdapterInitialized? || a.AdapterAnswers? }

  lemma AnswerCounts(s: State, i: nat, owner: Owner)
    requires i < |s.owed|
    ensures var o := s.owed[i];
            Debts(owner, Without(s.owed, i)) + Replies(owner, s.wire + [Reply(o.command, o.origin)])
            == Debts(owner, s.owed) + Replies(owner, s.wire)
  {
    DebtsWithout(owner, s.owed, i);
    RepliesSnoc(owner, s.wire, Reply(s.owed[i].command, s.owed[i].origin));
  }

  lemma AdapterAnswersStep(s: State, i: nat)
    requires Inv(s) && i < |s.owed|
    ensures Inv(Apply(s, AdapterAnswers(i)))
  {
    hide Replay, Replies, Debts, Proper;
    AnswerCounts(s, i, TheClient);
    AnswerCounts(s, i, TheThreads);
    AnswerCounts(s, i, TheConfiguration);
    var o := s.owed[i];
    assert o in s.owed;
    var after := Apply(s, AdapterAnswers(i));
    assert after.wire == s.wire + [Reply(o.command, o.origin)] && after.owed == Without(s.owed, i);
    assert ProperItems(after.wire, s.command, s.outstanding);
    assert ProperDebts(after.owed, s.command, s.outstanding);
  }

  lemma AdapterSpeaksStep(s: State, a: Action)
    requires Inv(s) && Enabled(s, a) && (a.AdapterEvent? || a.AdapterInitialized?)
    ensures Inv(Apply(s, a))
  {
    hide Replay, Replies, Debts, Proper;
    var item := if a.AdapterEvent? then Plain(a.stopsAll) else Initialized;
    RepliesSnoc(TheClient, s.wire, item);
    RepliesSnoc(TheThreads, s.wire, item);
    RepliesSnoc(TheConfiguration, s.wire, item);
    var after := Apply(s, a);
    assert after.wire == s.wire + [item];
    assert ProperItems(after.wire, s.command, s.outstanding);
  }

  lemma PollStep(s: State, a: Action)
    requires Inv(s) && Enabled(s, a) && (a.Poll? || a.Exit? || a.QueueDone?)
    ensures Inv(Apply(s, a))
  {
    hide Replay, Replies, Debts, Proper;
  }

  lemma TcpStep(s: State, n: nat)
    requires Inv(s) && Enabled(s, ServeTcp(n))
    ensures Inv(Apply(s, ServeTcp(n)))
  {
    hide Replay, Replies, Debts, Proper;
    TcpCounts(s, n, TheClient);
    TcpCounts(s, n, TheThreads);
    TcpCounts(s, n, TheConfiguration);
    assert ProperItems(s.queue + s.wire[..n], s.command, s.outstanding);
    assert ProperItems(s.wire[n..], s.command, s.outstanding);
  }

  lemma TcpCounts(s: State, n: nat, owner: Owner)
    requires CountedFor(s, owner) && n <= |s.wire| && !Due(s, TheThreads) && !Due(s, TheConfiguration)
    ensures Debts(owner, s.owed) + Replies(owner, s.wire[n..]) + Replies(owner, s.queue + s.wire[..n])
            == (if Due(s, owner) then 1 else 0)
    ensures owner != TheClient ==> Replies(owner, s.queue + s.wire[..n]) == 0
  {
    RepliesSplit(owner, s.wire, n);
    RepliesAppend(owner, s.queue, s.wire[..n]);
  }

  lemma HeaderStep(s: State)
    requires Inv(s) && Enabled(s, ServeHeader)
    ensures Inv(Apply(s, ServeHeader))
  {
    hide Replay, Replies, Debts, Proper;
    ReplaySnoc(s.log, HeaderTaken(s.headerIn.value));
  }

  /** Nothing on the way concerns a client request while none is outstanding. */
  lemma NothingForTheClient(s: State)
    requires AllProper(s) && s.outstanding == None
    ensures forall i :: (i in s.queue || i in s.wire) && i.Reply? ==> !i.origin.Client?
    ensures forall o :: o in s.owed ==> !o.origin.Client?
  {}

  lemma ControlStep(s: State)
    requires Inv(s) && Enabled(s, ServeControl)
    ensures Inv(Apply(s, ServeControl))
  {
    hide Replay, Replies, Debts;
    var n := s.requestIn.value;
    var debt := Owed(s.command, Client(n));
    ReplaySnoc(s.log, RequestTaken(n, s.header, s.command));
    DebtsSnoc(TheClient, s.owed, debt);
    DebtsSnoc(TheThreads, s.owed, debt);
    DebtsSnoc(TheConfiguration, s.owed, debt);
    NothingForTheClient(s);
    assert ProperItems(s.queue, s.command, Some(n)) && ProperItems(s.wire, s.command, Some(n));
    assert ProperDebts(s.owed + [debt], s.command, Some(n));
  }

  /** A reply at the front of the queue answers the outstanding request. */
  lemma FrontIsTheAnswer(s: State)
    requires Inv(s) && s.queue != [] && s.queue[0].Reply?
    ensures s.outstanding.Some? && s.queue[0].origin == Client(s.outstanding.value)
    ensures s.queue[0].command == s.command
  {
    var front := s.queue[0];
    if !front.origin.Client? {
      ReplyCounted(if front.origin.OwnThreads? then TheThreads else TheConfiguration, s.queue, front);
    }
    assert Proper(front.command, front.origin, s.command, s.outstanding);
  }

  /** Once the outstanding request has been answered, nothing on the way concerns the client. */
  lemma NoneLeft(owed: seq<Owed>, wire: seq<Item>, queue: seq<Item>, command: string, outstanding: Option<nat>)
    requires ProperItems(queue, command, outstanding) && ProperItems(wire, command, outstanding)
    requires ProperDebts(owed, command, outstanding)
    requires Debts(TheClient, owed) + Replies(TheClient, wire) + Replies(TheClient, queue) == 0
    ensures ProperItems(queue, command, None) && ProperItems(wire, command, None) && ProperDebts(owed, command, None)
  {
    forall i | i in queue && i.Reply? ensures Proper(i.command, i.origin, command, None) {
      if i.origin.Client? { ReplyCounted(TheClient, queue, i); }
    }
    forall i | i in wire && i.Reply? ensures Proper(i.command, i.origin, command, None) {
      if i.origin.Client? { ReplyCounted(TheClient, wire, i); }
    }
    forall o | o in owed ensures Proper(o.command, o.origin, command, None) {
      if o.origin.Client? { DebtCounted(TheClient, owed, o); }
    }
  }

  lemma FrontAnswerStep(s: State)
    requires Inv(s) && Enabled(s, HandleFront) && s.queue[0].Reply?
    ensures Inv(Apply(s, HandleFront))
  {
    hide Replay, Proper;
    FrontIsTheAnswer(s);
    ReplaySnoc(s.log, Answered(s.queue[0]));
    NoneLeft(s.owed, s.wire, s.queue[1..], s.command, s.outstanding);
  }

  lemma OwnDebtsProper(owed: seq<Owed>, command: string, outstanding: Option<nat>)
    requires ProperDebts(owed, command, outstanding)
    ensures ProperDebts(owed + [Owed("threads", OwnThreads)], command, outstanding)
    ensures ProperDebts(owed + [Owed("configurationDone", OwnConfiguration)], command, outstanding)
  {}

  lemma OwnDebtsCounted(owed: seq<Owed>, owner: Owner)
    ensures Debts(owner, owed + [Owed("threads", OwnThreads)]) == Debts(owner, owed) + if owner == TheThreads then 1
            else 0
    ensures Debts(owner, owed + [Owed("configurationDone", OwnConfiguration)]) ==
            Debts(owner, owed) + if owner == TheConfiguration then 1 else 0
  {
    DebtsSnoc(owner, owed, Owed("threads", OwnThreads));
    DebtsSnoc(owner, owed, Owed("configurationDone", OwnConfiguration));
  }

  lemma FrontStopStep(s: State)
    requires Inv(s) && Enabled(s, HandleFront) && s.queue[0] == Plain(true)
    ensures Inv(Apply(s, HandleFront))
  {
    hide Replay, Proper, ProperItems, ProperDebts, Replies, Debts;
    OwnDebtsProper(s.owed, s.command, s.outstanding);
    OwnDebtsCounted(s.owed, TheClient);
    OwnDebtsCounted(s.owed, TheThreads);
    OwnDebtsCounted(s.owed, TheConfiguration);
  }

  lemma TailCounted(s: seq<Item>, owner: Owner)
    requires s != []
    ensures Replies(owner, s[1..]) == Replies(owner, s) - if Answers(owner, s[0]) then 1 else 0
  {}

  lemma TailProper(s: seq<Item>, command: string, outstanding: Option<nat>)
    requires s != [] && ProperItems(s, command, outstanding)
    ensures ProperItems(s[1..], command, outstanding)
  {}

  lemma FrontEventStep(s: State)
    requires Inv(s) && Enabled(s, HandleFront) && !s.queue[0].Reply? && s.queue[0] != Plain(true)
    ensures Inv(Apply(s, HandleFront))
  {
    hide Replay, Proper, ProperItems, ProperDebts, Replies, Debts;
    TailProper(s.queue, s.command, s.outstanding);
    TailCounted(s.queue, TheClient);
    TailCounted(s.queue, TheThreads);
    TailCounted(s.queue, TheConfiguration);
    ReplaySnoc(s.log, Published(s.parent));
  }

  // ---------------------------------------------------------------- waits

  /** Whose answer the wait takes. */
  predicate TakenBy(w: Awaited, owner: Owner) {
    match w
    case ForThreads => owner == TheThreads
    case ForInitialized(_) => false
    case ForConfiguration(_) => owner == TheConfiguration
    case ForAttach(_) => owner == TheClient
  }

  /** What a wait looks for is exactly the answer to the request it stands for. */
  lemma MatchesTheAnswer(s: State, i: Item, owner: Owner)
    requires Inv(s) && s.pc.Waiting? && (i in s.queue || i in s.wire)
    ensures !s.pc.what.ForInitialized? && TakenBy(s.pc.what, owner) ==> (Matches(s.pc.what, i) <==> Answers(owner, i))
    ensures Matches(s.pc.what, i) && Answers(owner, i) ==> TakenBy(s.pc.what, owner)
  {
    hide Replay, Replies, Debts;
    if i.Reply? {
      assert Proper(i.command, i.origin, s.command, s.outstanding);
      assert |"threads"| == 7 && |"attach"| == 6 && |"configurationDone"| == 17;
    }
  }

  /** What a wait leaves behind when it takes `found`. */
  ghost predicate Leaves(s: State, found: Item, queue: seq<Item>, wire: seq<Item>) {
    && s.pc.Waiting? && Matches(s.pc.what, found)
    && (s.pc.what.ForAttach? ==> Answers(TheClient, found) && Some(found.origin.n) == s.outstanding)
    && ProperItems(queue, s.command, s.outstanding) && ProperItems(wire, s.command, s.outstanding)
    && LeavesFor(s, queue, wire, TheClient)
    && LeavesFor(s, queue, wire, TheThreads)
    && LeavesFor(s, queue, wire, TheConfiguration)
    && (s.pc.what.ForThreads? ==> queue != [] && queue[0] == Plain(true))
  }

  predicate LeavesFor(s: State, queue: seq<Item>, wire: seq<Item>, owner: Owner)
    requires s.pc.Waiting?
  {
    && Debts(owner, s.owed) + Replies(owner, wire) + Replies(owner, queue)
       == (if Due(s, owner) && !TakenBy(s.pc.what, owner) then 1 else 0)
    && (owner != TheClient ==> Replies(owner, queue) == 0)
  }

  lemma ResumeThreads(s: State, found: Item, queue: seq<Item>, wire: seq<Item>)
    requires Inv(s) && Leaves(s, found, queue, wire) && s.pc.what.ForThreads?
    ensures Inv(Resume(s.(wire := wire), s.pc.what, found, queue))
  {
    hide Replay, Proper, ProperItems, ProperDebts, Replies, Debts;
    TailProper(queue, s.command, s.outstanding);
    TailCounted(queue, TheClient);
    TailCounted(queue, TheThreads);
    TailCounted(queue, TheConfiguration);
    ReplaySnoc(s.log, Published(s.parent));
  }

  lemma ResumeInitialized(s: State, found: Item, queue: seq<Item>, wire: seq<Item>)
    requires Inv(s) && Leaves(s, found, queue, wire) && s.pc.what.ForInitialized?
    ensures Inv(Resume(s.(wire := wire), s.pc.what, found, queue))
  {
    hide Replay, Proper, ProperItems, ProperDebts, Replies, Debts;
    OwnDebtsProper(s.owed, s.command, s.outstanding);
    OwnDebtsCounted(s.owed, TheClient);
    OwnDebtsCounted(s.owed, TheThreads);
    OwnDebtsCounted(s.owed, TheConfiguration);
  }

  lemma ResumeConfiguration(s: State, found: Item, queue: seq<Item>, wire: seq<Item>)
    requires Inv(s) && Leaves(s, found, queue, wire) && s.pc.what.ForConfiguration?
    ensures Inv(Resume(s.(wire := wire), s.pc.what, found, queue))
  {
    hide Replay, Proper, ProperItems, ProperDebts, Replies, Debts;
  }

  lemma ResumeAttach(s: State, found: Item, queue: seq<Item>, wire: seq<Item>)
    requires Inv(s) && Leaves(s, found, queue, wire) && s.pc.what.ForAttach?
    ensures Inv(Resume(s.(wire := wire), s.pc.what, found, queue))
  {
    hide Replay, Proper, ProperItems, ProperDebts, Replies, Debts;
    NoneLeft(s.owed, wire, queue, s.command, s.outstanding);
    ReplaySnoc(s.log, Published(s.parent));
    ReplaySnoc(s.log + [Published(s.parent)], Answered(found));
    assert s.log + [Published(s.parent), Answered(found)] == s.log + [Published(s.parent)] + [Answered(found)];
  }

  lemma ResumeStep(s: State, found: Item, queue: seq<Item>, wire: seq<Item>)
    requires Inv(s) && s.pc.Waiting? && Leaves(s, found, queue, wire)
    ensures Inv(Resume(s.(wire := wire), s.pc.what, found, queue))
  {
    hide Inv, Leaves, Resume;
    match s.pc.what {
      case ForThreads => ResumeThreads(s, found, queue, wire);
      case ForInitialized(_) => ResumeInitialized(s, found, queue, wire);
      case ForConfiguration(_) => ResumeConfiguration(s, found, queue, wire);
      case ForAttach(_) => ResumeAttach(s, found, queue, wire);
    }
  }

  lemma FoundAnswer(s: State, found: Item)
    requires Inv(s) && s.pc.Waiting? && (found in s.queue || found in s.wire) && Matches(s.pc.what, found)
    ensures s.pc.what.ForAttach? ==> Answers(TheClient, found) && Some(found.origin.n) == s.outstanding
  {
    MatchesTheAnswer(s, found, TheClient);
    if s.pc.what.ForAttach? {
      assert Proper(found.command, found.origin, s.command, s.outstanding);
    }
  }

  lemma WithoutProper(s: seq<Item>, i: nat, command: string, outstanding: Option<nat>)
    requires i < |s| && ProperItems(s, command, outstanding)
    ensures ProperItems(Without(s, i), command, outstanding)
  {
    forall x | x in Without(s, i) ensures x in s {}
  }

  /** The loop's own answers are never in the queue when a wait searches it. */
  lemma SearchFinds(s: State, i: nat)
    requires Inv(s) && s.pc.Waiting? && i < |s.queue| && Matches(s.pc.what, s.queue[i])
    ensures s.pc.what.ForInitialized? || s.pc.what.ForAttach?
  {
    if s.pc.what.ForThreads? || s.pc.what.ForConfiguration? {
      var owner := if s.pc.what.ForThreads? then TheThreads else TheConfiguration;
      MatchesTheAnswer(s, s.queue[i], owner);
      ReplyCounted(owner, s.queue, s.queue[i]);
    }
  }

  lemma SearchLeaves(s: State, i: nat, owner: Owner)
    requires Inv(s) && s.pc.Waiting? && i < |s.queue| && Matches(s.pc.what, s.queue[i])
    ensures LeavesFor(s, Without(s.queue, i), s.wire, owner)
  {
    hide Replay, Replies, Debts, ProperItems, ProperDebts, Lockstep;
    RepliesWithout(owner, s.queue, i);
    MatchesTheAnswer(s, s.queue[i], owner);
    SearchFinds(s, i);
  }

  lemma SearchStep(s: State)
    requires Inv(s) && Enabled(s, SearchQueue)
    ensures Inv(Apply(s, SearchQueue))
  {
    hide Replay, Replies, Debts, ProperItems, ProperDebts, Resume;
    match FirstMatch(Condition(s.pc.what), s.queue) {
      case None =>
      case Some(i) =>
        var found := s.queue[i];
        SearchFinds(s, i);
        FoundAnswer(s, found);
        WithoutProper(s.queue, i, s.command, s.outstanding);
        SearchLeaves(s, i, TheClient);
        SearchLeaves(s, i, TheThreads);
        SearchLeaves(s, i, TheConfiguration);
        ResumeStep(s, found, Without(s.queue, i), s.wire);
        assert s.(wire := s.wire) == s;
    }
  }

  lemma ReadProper(s: State, n: nat)
    requires Inv(s) && s.pc.Waiting? && n <= |s.wire|
    ensures var kept := s.queue + Filter(Not(Condition(s.pc.what)), s.wire[..n]);
            && ProperItems(kept, s.command, s.outstanding)
            && ProperItems(s.wire[n..], s.command, s.outstanding)
  {
    var p := Not(Condition(s.pc.what));
    var kept := s.queue + Filter(p, s.wire[..n]);
    forall i | i in kept && i.Reply? ensures Proper(i.command, i.origin, s.command, s.outstanding) {
      if i !in s.queue {
        FilterMember(p, s.wire[..n], i);
        assert i in s.wire;
      }
    }
    forall i | i in s.wire[n..] ensures i in s.wire {}
  }

  /** The matches of a batch are answers for the owner waited for, and for nobody else. */
  lemma MatchesCounted(s: State, n: nat, owner: Owner)
    requires Inv(s) && s.pc.Waiting? && n <= |s.wire|
    ensures var matches := Filter(Condition(s.pc.what), s.wire[..n]);
            Replies(owner, matches) == if TakenBy(s.pc.what, owner) then |matches| else 0
  {
    var p := Condition(s.pc.what);
    var matches := Filter(p, s.wire[..n]);
    forall i | i in matches ensures Answers(owner, i) <==> TakenBy(s.pc.what, owner) {
      FilterMember(p, s.wire[..n], i);
      assert i in s.wire;
      MatchesTheAnswer(s, i, owner);
    }
    AllOrNone(owner, matches);
  }

  lemma RestCounted(s: State, n: nat, owner: Owner)
    requires Inv(s) && s.pc.Waiting? && n <= |s.wire|
    ensures var p := Condition(s.pc.what);
            var kept := s.queue + Filter(Not(p), s.wire[..n]);
            var taken: nat := if TakenBy(s.pc.what, owner) then |Filter(p, s.wire[..n])| else 0;
            Debts(owner, s.owed) + Replies(owner, s.wire[n..]) + Replies(owner, kept) + taken
            == (if Due(s, owner) then 1 else 0)
  {
    hide Replay, Replies, Debts, ProperItems, ProperDebts, Lockstep, Filter;
    var p := Condition(s.pc.what);
    RepliesSplit(owner, s.wire, n);
    RepliesFilter(owner, p, s.wire[..n]);
    RepliesAppend(owner, s.queue, Filter(Not(p), s.wire[..n]));
    MatchesCounted(s, n, owner);
  }

  /** A batch without a match contains no answer for the owner waited for. */
  lemma KeptCounted(s: State, n: nat, owner: Owner)
    requires Inv(s) && s.pc.Waiting? && n <= |s.wire| && owner != TheClient
    ensures Replies(owner, s.queue + Filter(Not(Condition(s.pc.what)), s.wire[..n])) == 0
  {
    var kept := Filter(Not(Condition(s.pc.what)), s.wire[..n]);
    RepliesAppend(owner, s.queue, kept);
    if Due(s, owner) {
      forall i | i in kept ensures !Answers(owner, i) {
        FilterMember(Not(Condition(s.pc.what)), s.wire[..n], i);
        assert i in s.wire;
        MatchesTheAnswer(s, i, owner);
      }
      AllOrNone(owner, kept);
    } else {
      RestCounted(s, n, owner);
    }
  }

  lemma ReadLeaves(s: State, n: nat, owner: Owner)
    requires Inv(s) && s.pc.Waiting? && n <= |s.wire|
    requires LastMatch(Condition(s.pc.what), s.wire[..n]).Some?
    ensures LeavesFor(s, s.queue + Filter(Not(Condition(s.pc.what)), s.wire[..n]), s.wire[n..], owner)
  {
    var p, batch := Condition(s.pc.what), s.wire[..n];
    hide Replay, Replies, Debts, ProperItems, ProperDebts, Lockstep, Filter;
    RestCounted(s, n, owner);
    if owner != TheClient {
      KeptCounted(s, n, owner);
    }
    FilterMember(p, batch, LastMatch(p, batch).value);
    assert |Filter(p, batch)| > 0;
  }

  lemma ReadFound(s: State, n: nat, found: Item)
    requires Inv(s) && Enabled(s, ReadBatch(n))
    requires LastMatch(Condition(s.pc.what), s.wire[..n]) == Some(found)
    ensures Inv(ReadNext(s, n))
  {
    hide Replay, Replies, Debts, ProperItems, ProperDebts, Resume, Filter;
    var p, batch := Condition(s.pc.what), s.wire[..n];
    var kept := s.queue + Filter(Not(p), batch);
    assert found in s.wire;
    FoundAnswer(s, found);
    ReadProper(s, n);
    ReadLeaves(s, n, TheClient);
    ReadLeaves(s, n, TheThreads);
    ReadLeaves(s, n, TheConfiguration);
    ResumeStep(s, found, kept, s.wire[n..]);
  }

  lemma MissedCounted(s: State, n: nat, owner: Owner)
    requires Inv(s) && Enabled(s, ReadBatch(n))
    requires LastMatch(Condition(s.pc.what), s.wire[..n]) == None
    ensures CountedFor(ReadNext(s, n), owner)
  {
    FilterNone(Condition(s.pc.what), s.wire[..n]);
    hide Inv, Replies, Debts, Filter, Lockstep, Control;
    RestCounted(s, n, owner);
    if owner != TheClient {
      KeptCounted(s, n, owner);
    }
  }

  lemma ReadMissed(s: State, n: nat)
    requires Inv(s) && Enabled(s, ReadBatch(n))
    requires LastMatch(Condition(s.pc.what), s.wire[..n]) == None
    ensures Inv(ReadNext(s, n))
  {
    hide Replay, CountedFor, ProperItems, ProperDebts, Filter;
    ReadProper(s, n);
    MissedCounted(s, n, TheClient);
    MissedCounted(s, n, TheThreads);
    MissedCounted(s, n, TheConfiguration);
  }

  // ---------------------------------------------------------------- every run

  lemma StepKeepsInv(s: State, a: Action)
    requires Inv(s) && Enabled(s, a)
    ensures Inv(Apply(s, a))
  {
    hide Inv, Apply;
    if FrontEndAction(a) { FrontEndStep(s, a); }
    else {
      match a
      case AdapterEvent(_) => AdapterSpeaksStep(s, a);
      case AdapterInitialized => AdapterSpeaksStep(s, a);
      case AdapterAnswers(i) => AdapterAnswersStep(s, i);
      case Poll(_, _, _) => PollStep(s, a);
      case Exit => PollStep(s, a);
      case QueueDone => PollStep(s, a);
      case ServeHeader => HeaderStep(s);
      case ServeControl => ControlStep(s);
      case ServeTcp(n) => TcpStep(s, n);
      case HandleFront =>
        if s.queue[0].Reply? { FrontAnswerStep(s); }
        else if s.queue[0] == Plain(true) { FrontStopStep(s); }
        else { FrontEventStep(s); }
      case SearchQueue => SearchStep(s);
      case ReadBatch(n) => ReadBatchStep(s, n);
      case _ =>
    }
  }

  lemma ReadBatchStep(s: State, n: nat)
    requires Inv(s) && Enabled(s, ReadBatch(n))
    ensures Inv(Apply(s, ReadBatch(n)))
  {
    hide Inv;
    match LastMatch(Condition(s.pc.what), s.wire[..n]) {
      case None => ReadMissed(s, n);
      case Some(found) => ReadFound(s, n, found);
    }
  }

  lemma {:induction false} RunKeepsInv(s: State, actions: seq<Action>)
    requires Inv(s) && Runnable(s, actions)
    ensures Inv(Exec(s, actions))
    decreases |actions|
  {
    if actions != [] {
      hide Inv, Apply;
      StepKeepsInv(s, actions[0]);
      RunKeepsInv(Apply(s, actions[0]), actions[1..]);
    }
  }
}
