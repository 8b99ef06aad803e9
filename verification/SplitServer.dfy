/** The split server: control, shell, publisher and heartbeat threads, the internal calls from control
    to shell, and the ordered stop protocol. Every interleaving of their steps is allowed. */
module SplitServer {
  import opened Basics
  import opened JsonText

  const STOP: Bytes := "stop"

  // ---------------------------------------------------------------- the threads

  /** A request/reply socket pair; at most one message is on its way. */
  datatype Link = Link(request: Option<Bytes>, reply: Option<Bytes>)

  const EMPTY := Link(None, None)

  /** The channels that control stops, in this order. */
  datatype Stage = ToShell | ToPublisher | ToHeartbeat

  /** `Reading`: inside the blocking read; `Handling`: inside the listener; `Calling`: waiting for the
      shell's answer; `Stopping`: inside `stop_channels`, before or after sending to one channel. */
  datatype ControlMode = Reading | Handling | Calling(message: Json) | Stopping(stage: Stage, sent: bool) | Finished

  /** Inboxes are counted, their contents do not matter here. `returned` logs the internal calls. */
  datatype Control = Control(mode: ControlMode, inbox: nat, requestStop: bool, returned: seq<(Json, Json)>)

  datatype ShellMode = Polling | Serving | Internal(message: Json) | ShellStopped

  datatype Shell = Shell(mode: ShellMode, inbox: nat, link: Link, acks: nat, served: seq<(Json, Json)>)

  /** A poll loop is between polls, in a round with the readiness it still has to act on, or ended. */
  datatype LoopMode = Idle | Round(data: bool, stop: bool, events: bool) | Ended

  /** The publisher forwards `data` and handles subscription `events`; the heartbeat echoes `data`. */
  datatype Loop = Loop(mode: LoopMode, data: nat, events: nat, link: Link, acks: nat)

  /** `arrivals`, `publications` and `calls` bound what the clients still send and what the listeners
      still publish and call. */
  datatype State = State(control: Control, shell: Shell, publisher: Loop, heartbeat: Loop,
                         arrivals: nat, publications: nat, calls: nat)

  function Init(arrivals: nat, publications: nat, calls: nat): State {
    State(Control(Reading, 0, false, []), Shell(Polling, 0, EMPTY, 0, []),
          Loop(Idle, 0, 0, EMPTY, 0), Loop(Idle, 0, 0, EMPTY, 0), arrivals, publications, calls)
  }

  datatype LoopStep = Poll(data: bool, stop: bool, events: bool) | TakeData | TakeStop | TakeEvent

  datatype Action =
    // clients
    | ArriveControl | ArriveShell | ArrivePing | ArriveEvent
    // control thread
    | TakeControl(malformed: bool) | ControlPublishes | CallShell(message: Json) | TakeAnswer
    | ControlRequestsStop | FinishControl | SendStop | TakeAck
    // shell thread
    | TakeShell(malformed: bool) | TakeController | ShellPublishes | ShellRequestsStop
    | FinishShell | AnswerInternal(result: Json)
    // publisher and heartbeat threads
    | OfPublisher(step: LoopStep) | OfHeartbeat(step: LoopStep)

  predicate FromClients(a: Action) { a.ArriveControl? || a.ArriveShell? || a.ArrivePing? || a.ArriveEvent? }

  function LinkOf(s: State, stage: Stage): Link {
    match stage
    case ToShell => s.shell.link
    case ToPublisher => s.publisher.link
    case ToHeartbeat => s.heartbeat.link
  }

  function WithLink(s: State, stage: Stage, link: Link): State {
    match stage
    case ToShell => s.(shell := s.shell.(link := link))
    case ToPublisher => s.(publisher := s.publisher.(link := link))
    case ToHeartbeat => s.(heartbeat := s.heartbeat.(link := link))
  }

  // ---------------------------------------------------------------- the poll loops

  predicate LoopEnabled(t: Loop, step: LoopStep) {
    match step
    case Poll(data, stop, events) =>
      && t.mode == Idle && (data || stop || events)
      && (data ==> t.data > 0) && (stop ==> t.link.request.Some?) && (events ==> t.events > 0)
    case TakeData => t.mode.Round? && t.mode.data && t.data > 0
    case TakeStop => t.mode.Round? && !t.mode.data && t.mode.stop && t.link.request.Some?
    case TakeEvent => t.mode.Round? && !t.mode.data && !t.mode.stop && t.mode.events && t.events > 0
  }

  /** Within a round data comes first, then the stop, which ends the loop, then the event. */
  function LoopNext(t: Loop, step: LoopStep): Loop
    requires LoopEnabled(t, step)
  {
    match step
    case Poll(data, stop, events) => t.(mode := Round(data, stop, events))
    case TakeData =>
      t.(data := t.data - 1,
         mode := if t.mode.stop || t.mode.events then Round(false, t.mode.stop, t.mode.events) else Idle)
    case TakeStop => t.(mode := Ended, link := Link(None, t.link.request), acks := t.acks + 1)
    case TakeEvent => t.(events := t.events - 1, mode := Idle)
  }

  // ---------------------------------------------------------------- all steps

  predicate Enabled(s: State, a: Action) {
    match a
    case ArriveControl => s.arrivals > 0
    case ArriveShell => s.arrivals > 0
    case ArrivePing => s.arrivals > 0
    case ArriveEvent => s.arrivals > 0
    case TakeControl(_) => s.control.mode == Reading && s.control.inbox > 0
    case ControlPublishes => s.control.mode == Handling && s.publications > 0
    case CallShell(_) => s.control.mode == Handling && s.calls > 0
    case TakeAnswer => s.control.mode.Calling? && s.shell.link.reply.Some?
    case ControlRequestsStop => s.control.mode == Handling && !s.control.requestStop
    case FinishControl => s.control.mode == Handling
    case SendStop => s.control.mode.Stopping? && !s.control.mode.sent
    case TakeAck => s.control.mode.Stopping? && s.control.mode.sent && LinkOf(s, s.control.mode.stage).reply.Some?
    // the shell socket has priority over the controller
    case TakeShell(_) => s.shell.mode == Polling && s.shell.inbox > 0
    case TakeController => s.shell.mode == Polling && s.shell.inbox == 0 && s.shell.link.request.Some?
    case ShellPublishes => (s.shell.mode == Serving || s.shell.mode.Internal?) && s.publications > 0
    case ShellRequestsStop => (s.shell.mode == Serving || s.shell.mode.Internal?) && !s.control.requestStop
    case FinishShell => s.shell.mode == Serving
    case AnswerInternal(_) => s.shell.mode.Internal?
    case OfPublisher(step) => LoopEnabled(s.publisher, step)
    case OfHeartbeat(step) => LoopEnabled(s.heartbeat, step)
  }

  /** The control loop tests the flag only between two messages. */
  function LoopTop(control: Control): Control {
    control.(mode := if control.requestStop then Stopping(ToShell, false) else Reading)
  }

  /** The value of a JSON text; ShellAlternates shows that no other text ever comes here. */
  function Parsed(c: JsonCodec, text: Bytes): Json {
    if c.Readable(text) then c.parse(text).value else Null
  }

  /** Any text but the bare word `stop`, which ends the shell loop, goes to the internal listener. */
  function TakeControllerNext(c: JsonCodec, shell: Shell, text: Bytes): Shell {
    if text == STOP then shell.(mode := ShellStopped, link := Link(None, Some(text)), acks := shell.acks + 1)
    else shell.(mode := Internal(Parsed(c, text)), link := Link(None, shell.link.reply))
  }

  function AnswerNext(c: JsonCodec, shell: Shell, result: Json): Shell
    requires shell.mode.Internal?
  {
    shell.(mode := Polling, link := Link(shell.link.request, Some(c.dump(result))),
           served := shell.served + [(shell.mode.message, result)])
  }

  function AfterAck(control: Control): Control
    requires control.mode.Stopping?
  {
    match control.mode.stage
    case ToShell => control.(mode := Stopping(ToPublisher, false))
    case ToPublisher => control.(mode := Stopping(ToHeartbeat, false))
    case ToHeartbeat => control.(mode := Finished)
  }

  function TakeAnswerNext(c: JsonCodec, control: Control, text: Bytes): Control
    requires control.mode.Calling?
  {
    control.(mode := Handling, returned := control.returned + [(control.mode.message, Parsed(c, text))])
  }

  function Publish(s: State): State
    requires s.publications > 0
  {
    s.(publications := s.publications - 1, publisher := s.publisher.(data := s.publisher.data + 1))
  }

  function Apply(c: JsonCodec, s: State, a: Action): State
    requires Enabled(s, a)
  {
    match a
    case ArriveControl => s.(arrivals := s.arrivals - 1, control := s.control.(inbox := s.control.inbox + 1))
    case ArriveShell => s.(arrivals := s.arrivals - 1, shell := s.shell.(inbox := s.shell.inbox + 1))
    case ArrivePing => s.(arrivals := s.arrivals - 1, heartbeat := s.heartbeat.(data := s.heartbeat.data + 1))
    case ArriveEvent => s.(arrivals := s.arrivals - 1, publisher := s.publisher.(events := s.publisher.events + 1))
    case TakeControl(malformed) =>
      var taken := s.control.(inbox := s.control.inbox - 1);
      s.(control := if malformed then LoopTop(taken) else taken.(mode := Handling))
    case ControlPublishes => Publish(s)
    case CallShell(message) =>
      s.(calls := s.calls - 1, control := s.control.(mode := Calling(message)),
         shell := s.shell.(link := Link(Some(c.dump(message)), None)))
    case TakeAnswer =>
      s.(control := TakeAnswerNext(c, s.control, s.shell.link.reply.value),
         shell := s.shell.(link := Link(s.shell.link.request, None)))
    case ControlRequestsStop => s.(control := s.control.(requestStop := true))
    case FinishControl => s.(control := LoopTop(s.control))
    case SendStop =>
      WithLink(s, s.control.mode.stage, Link(Some(STOP), None))
        .(control := s.control.(mode := Stopping(s.control.mode.stage, true)))
    case TakeAck =>
      WithLink(s, s.control.mode.stage, Link(LinkOf(s, s.control.mode.stage).request, None))
        .(control := AfterAck(s.control))
    case TakeShell(malformed) =>
      s.(shell := s.shell.(inbox := s.shell.inbox - 1, mode := if malformed then Polling else Serving))
    case TakeController => s.(shell := TakeControllerNext(c, s.shell, s.shell.link.request.value))
    case ShellPublishes => Publish(s)
    case ShellRequestsStop => s.(control := s.control.(requestStop := true))
    case FinishShell => s.(shell := s.shell.(mode := Polling))
    case AnswerInternal(result) => s.(shell := AnswerNext(c, s.shell, result))
    case OfPublisher(step) => s.(publisher := LoopNext(s.publisher, step))
    case OfHeartbeat(step) => s.(heartbeat := LoopNext(s.heartbeat, step))
  }

  predicate Runnable(c: JsonCodec, s: State, actions: seq<Action>)
    decreases |actions|
  {
    actions == [] || (Enabled(s, actions[0]) && Runnable(c, Apply(c, s, actions[0]), actions[1..]))
  }

  function Exec(c: JsonCodec, s: State, actions: seq<Action>): State
    requires Runnable(c, s, actions)
    decreases |actions|
  {
    if actions == [] then s else Exec(c, Apply(c, s, actions[0]), actions[1..])
  }
}
