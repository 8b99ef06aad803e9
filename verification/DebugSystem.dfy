/** The debugger front end, the debug client's event loop and the debug adapter as three processes:
    the front end talks to the loop over two lockstep request/reply sockets, the loop talks to the
    adapter over a stream, and every interleaving is allowed. */
module DebugSystem {
  import opened Basics
  import opened Selection

  // ---------------------------------------------------------------- what travels

  /** On whose account a request was sent to the adapter: the front end's request number `n`, or the
      loop's own `threads` or `configurationDone` request. */
  datatype Origin = Client(n: nat) | OwnThreads | OwnConfiguration

  datatype Owed = Owed(command: string, origin: Origin)

  /** A message of the adapter. A reply answers one request and carries its command. */
  datatype Item =
    | Plain(stopsAll: bool)
    | Initialized
    | Reply(command: string, origin: Origin)

  datatype FrontEnd = Idle | HeaderSent | HeaderAcked | RequestSent

  /** The waits of the loop; `tcp` says whether a batch is still to be read in this round. */
  datatype Awaited = ForThreads | ForInitialized(tcp: bool) | ForConfiguration(tcp: bool) | ForAttach(tcp: bool)

  /** `Serving`: the sockets found readable and not served yet, then the queue. `Waiting`: inside a
      wait, before or after the queue has been searched. `Failed`: the reply socket was used out of
      turn or an empty queue was popped. */
  datatype LoopPc =
    | Polling
    | Serving(header: bool, control: bool, tcp: bool)
    | Waiting(what: Awaited, searched: bool)
    | Exited
    | Failed

  /** What the loop does on its header, controller and publisher sockets. */
  datatype Observation =
    | HeaderTaken(header: nat)
    | RequestTaken(n: nat, ofHeader: nat, command: string)
    | Answered(reply: Item)
    | Published(parent: Option<nat>)

  datatype State = State(
    // front end: number of the current header and of the current request
    started: bool, front: FrontEnd, header: nat, request: nat, command: string,
    // the two socket pairs between front end and loop
    headerIn: Option<nat>, headerAck: bool, requestIn: Option<nat>, replyOut: Option<Item>,
    // loop
    pc: LoopPc, queue: seq<Item>, parent: Option<nat>, waitAttach: bool, stop: bool,
    outstanding: Option<nat>, log: seq<Observation>,
    // adapter: requests not answered yet, messages sent and not read yet
    owed: seq<Owed>, wire: seq<Item>)

  /** A session from the moment the front end has started the loop. */
  function Init(parallel: bool): State {
    State(true, Idle, 0, 0, "", None, false, None, None,
          Polling, [], None, parallel, false, None, [],
          [], [])
  }

  // ---------------------------------------------------------------- the waits

  predicate Matches(w: Awaited, i: Item) {
    match w
    case ForThreads => i.Reply? && i.command == "threads"
    case ForInitialized(_) => i.Initialized?
    case ForConfiguration(_) => i.Reply? && i.command == "configurationDone"
    case ForAttach(_) => i.Reply? && i.command == "attach"
  }

  function Condition(w: Awaited): Item -> bool { (i: Item) => Matches(w, i) }

  /** The loop goes on with the message it waited for; `queue` is what the wait has left. */
  function Resume(s: State, w: Awaited, found: Item, queue: seq<Item>): State {
    match w
    case ForThreads =>
      if queue == [] then s.(pc := Failed)
      else s.(queue := queue[1..], log := s.log + [Published(s.parent)], pc := Serving(false, false, false))
    case ForInitialized(tcp) =>
      s.(queue := queue, owed := s.owed + [Owed("configurationDone", OwnConfiguration)],
         pc := Waiting(ForConfiguration(tcp), false))
    case ForConfiguration(tcp) =>
      s.(queue := queue, pc := Waiting(ForAttach(tcp), false))
    case ForAttach(tcp) =>
      if s.outstanding == None then s.(pc := Failed)
      else s.(queue := queue, waitAttach := false, outstanding := None, replyOut := Some(found),
              log := s.log + [Published(s.parent), Answered(found)], pc := Serving(false, false, tcp))
  }

  // ---------------------------------------------------------------- the actions

  datatype Action =
    | BeginRequest(command: string) | TakeHeaderAck | SendRequest | TakeReply | EndRequest
    | AdapterEvent(stopsAll: bool) | AdapterInitialized | AdapterAnswers(i: nat)
    | Poll(header: bool, control: bool, tcp: bool) | Exit
    | ServeHeader | ServeControl | ServeTcp(n: nat) | HandleFront | QueueDone
    | SearchQueue | ReadBatch(n: nat)

  /** The front end asks nothing of a session that is off and never sends `threads` on its own account.
      The adapter answers each request at most once and speaks of its own accord at any time. A read
      delivers a non-empty prefix of what the adapter has sent. */
  predicate Enabled(s: State, a: Action) {
    match a
    case BeginRequest(command) => s.started && s.front == Idle && command != "threads"
    case TakeHeaderAck => s.front == HeaderSent && s.headerAck
    case SendRequest => s.started && s.front == HeaderAcked
    case TakeReply => s.front == RequestSent && s.replyOut.Some?
    case EndRequest => s.front == HeaderAcked
    case AdapterEvent(_) => true
    case AdapterInitialized => true
    case AdapterAnswers(i) => i < |s.owed|
    case Poll(header, control, tcp) =>
      && s.pc == Polling && !s.stop && (header || control || tcp)
      && (header ==> s.headerIn.Some?) && (control ==> s.requestIn.Some?) && (tcp ==> s.wire != [])
    case Exit => s.pc == Polling && s.stop
    case ServeHeader => s.pc.Serving? && s.pc.header
    case ServeControl => s.pc.Serving? && !s.pc.header && s.pc.control
    case ServeTcp(n) => s.pc == Serving(false, false, true) && 0 < n <= |s.wire|
    case HandleFront => s.pc == Serving(false, false, false) && s.queue != []
    case QueueDone => s.pc == Serving(false, false, false) && s.queue == []
    case SearchQueue => s.pc.Waiting? && !s.pc.searched
    case ReadBatch(n) => s.pc.Waiting? && s.pc.searched && 0 < n <= |s.wire|
  }

  function Apply(s: State, a: Action): State
    requires Enabled(s, a)
  {
    match a
    // front end
    case BeginRequest(command) =>
      s.(front := HeaderSent, header := s.header + 1, command := command, headerIn := Some(s.header + 1))
    case TakeHeaderAck => s.(front := HeaderAcked, headerAck := false)
    case SendRequest => s.(front := RequestSent, request := s.request + 1, requestIn := Some(s.request + 1))
    case TakeReply => s.(front := HeaderAcked, replyOut := None, started := StillOn(s))
    case EndRequest => s.(front := Idle, started := StillOn(s))
    // adapter
    case AdapterEvent(stopsAll) => s.(wire := s.wire + [Plain(stopsAll)])
    case AdapterInitialized => s.(wire := s.wire + [Initialized])
    case AdapterAnswers(i) =>
      s.(wire := s.wire + [Reply(s.owed[i].command, s.owed[i].origin)], owed := Without(s.owed, i))
    // loop
    case Poll(header, control, tcp) => s.(pc := Serving(header, control, tcp))
    case Exit => s.(pc := Exited)
    case ServeHeader =>
      if s.headerIn == None then s.(pc := Failed)
      else s.(parent := s.headerIn, headerIn := None, headerAck := true, pc := s.pc.(header := false),
              log := s.log + [HeaderTaken(s.headerIn.value)])
    case ServeControl => ServeControlNext(s)
    case ServeTcp(n) =>
      s.(queue := s.queue + s.wire[..n], wire := s.wire[n..], pc := Serving(false, false, false))
    case HandleFront => HandleFrontNext(s)
    case QueueDone => s.(pc := Polling)
    case SearchQueue => SearchNext(s)
    case ReadBatch(n) => ReadNext(s, n)
  }

  /** A `disconnect` request that has been dealt with turns the session off. */
  predicate StillOn(s: State) { s.started && s.command != "disconnect" }

  function SearchNext(s: State): State
    requires s.pc.Waiting?
  {
    match FirstMatch(Condition(s.pc.what), s.queue)
    case None => s.(pc := s.pc.(searched := true))
    case Some(i) => Resume(s, s.pc.what, s.queue[i], Without(s.queue, i))
  }

  function ReadNext(s: State, n: nat): State
    requires s.pc.Waiting? && n <= |s.wire|
  {
    var p, batch := Condition(s.pc.what), s.wire[..n];
    var kept, rest := s.queue + Filter(Not(p), batch), s.(wire := s.wire[n..]);
    match LastMatch(p, batch)
    case None => rest.(queue := kept)
    case Some(found) => Resume(rest, s.pc.what, found, kept)
  }

  /** The request is passed on to the adapter; the first `attach` of a parallel start begins the
      handshake. */
  function ServeControlNext(s: State): State
    requires s.pc.Serving?
  {
    if s.requestIn == None || s.outstanding.Some? then s.(pc := Failed)
    else
      var n := s.requestIn.value;
      var taken := s.(requestIn := None, outstanding := Some(n), owed := s.owed + [Owed(s.command, Client(n))],
                      log := s.log + [RequestTaken(n, s.header, s.command)]);
      if s.waitAttach && s.command == "attach"
      then taken.(pc := Waiting(ForInitialized(s.pc.tcp), false))
      else taken.(pc := s.pc.(control := false))
  }

  /** Events are published; an all-threads stop first asks for the threads; anything else is the
      answer to the controller. */
  function HandleFrontNext(s: State): State
    requires s.queue != []
  {
    match s.queue[0]
    case Plain(stopsAll) =>
      if stopsAll then s.(owed := s.owed + [Owed("threads", OwnThreads)], pc := Waiting(ForThreads, false))
      else s.(queue := s.queue[1..], log := s.log + [Published(s.parent)])
    case Initialized => s.(queue := s.queue[1..], log := s.log + [Published(s.parent)])
    case Reply(command, _) =>
      if s.outstanding == None then s.(pc := Failed)
      else s.(queue := s.queue[1..], outstanding := None, replyOut := Some(s.queue[0]),
              stop := s.stop || command == "disconnect", log := s.log + [Answered(s.queue[0])])
  }

  predicate Runnable(s: State, actions: seq<Action>)
    decreases |actions|
  {
    actions == [] || (Enabled(s, actions[0]) && Runnable(Apply(s, actions[0]), actions[1..]))
  }

  function Exec(s: State, actions: seq<Action>): State
    requires Runnable(s, actions)
    decreases |actions|
  {
    if actions == [] then s else Exec(Apply(s, actions[0]), actions[1..])
  }

  // ---------------------------------------------------------------- what the log must look like

  datatype Asked = Asked(n: nat, command: string)

  /** The state of an observer of the loop's sockets: the last header, and the request that has been
      taken and not been answered. */
  datatype Monitor = Monitor(parent: Option<nat>, pending: Option<Asked>) | Violated

  /** A request may be taken only when none is pending, and under its own header; an answer must
      answer the pending request; an event must carry the last header. */
  function Observe(m: Monitor, o: Observation): Monitor {
    if m.Violated? then Violated
    else match o
      case HeaderTaken(header) => m.(parent := Some(header))
      case RequestTaken(n, ofHeader, command) =>
        if m.pending == None && m.parent == Some(ofHeader) then m.(pending := Some(Asked(n, command))) else Violated
      case Answered(reply) =>
        if m.pending.Some? && reply == Reply(m.pending.value.command, Client(m.pending.value.n))
        then m.(pending := None) else Violated
      case Published(parent) => if parent == m.parent then m else Violated
  }

  function Replay(log: seq<Observation>): Monitor {
    if log == [] then Monitor(None, None) else Observe(Replay(log[..|log| - 1]), log[|log| - 1])
  }

  lemma ReplaySnoc(log: seq<Observation>, o: Observation)
    ensures Replay(log + [o]) == Observe(Replay(log), o)
  {
    assert (log + [o])[..|log|] == log;
  }
}
