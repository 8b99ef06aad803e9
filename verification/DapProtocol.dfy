/** Messages of the Debug Adapter Protocol as the debug client sees them, and what the client does
    with them, on values. */
module DapProtocol {
  import opened Basics
  import opened Framing
  import opened Selection

  datatype Kind = Event | Response | Request | Other

  /** The fields of a parsed message that the client looks at; `rest` stands for all others. */
  datatype Message = Message(
    kind: Kind,
    seqNo: int,
    command: Option<string>,
    event: Option<string>,
    allThreadsStopped: bool,
    threads: seq<int>,
    rest: Bytes)

  /** The JSON library: parsing undoes dumping. */
  datatype Codec = Codec(parse: Bytes -> Message, dump: Message -> Bytes) {
    ghost predicate Valid() { forall m :: parse(dump(m)) == m }
  }

  predicate IsEvent(m: Message, name: string) { m.kind.Event? && m.event == Some(name) }

  predicate IsResponse(m: Message, command: string) { m.kind.Response? && m.command == Some(command) }

  predicate StopsAllThreads(m: Message) { IsEvent(m, "stopped") && m.allThreadsStopped }

  /** The four conditions the client waits for, on raw messages. */
  function ThreadsReply(c: Codec): Bytes -> bool { raw => c.parse(raw).command == Some("threads") }

  function Initialized(c: Codec): Bytes -> bool { raw => IsEvent(c.parse(raw), "initialized") }

  function ConfigurationDone(c: Codec): Bytes -> bool { raw => IsResponse(c.parse(raw), "configurationDone") }

  function AttachResponse(c: Codec): Bytes -> bool { raw => IsResponse(c.parse(raw), "attach") }

  /** The requests the client makes on its own account. */
  function OwnRequest(command: string, after: Message): Message {
    Message(Request, after.seqNo + 1, Some(command), None, false, [], "")
  }

  /** What the outside world sees of the client, in order. */
  datatype Effect =
    | HeaderTaken(header: Bytes)
    | RequestTaken(raw: Bytes)
    | Sent(bytes: Bytes)
    | Notified(event: Message, threadList: Option<seq<int>>)
    | Published(parent: Bytes, event: Message)
    | Replied(raw: Bytes)

  /** The end of an action: what is left in the queue and on the wire, or waiting for ever. */
  datatype Outcome =
    | Done(log: seq<Effect>, queue: seq<Bytes>, incoming: seq<seq<Bytes>>)
    | Stuck(log: seq<Effect>)

  function ForwardEvent(c: Codec, m: Message, header: Bytes, queue: seq<Bytes>, incoming: seq<seq<Bytes>>): Outcome {
    if StopsAllThreads(m) then
      var request := [Sent(Frame(c.dump(OwnRequest("threads", m))))];
      match Wait(ThreadsReply(c), queue, incoming)
      case Starved(_) => Stuck(request)
      case Found(raw, queue', incoming') =>
        Done(request + [Notified(m, Some(c.parse(raw).threads)), Published(header, m)], queue', incoming')
    else
      Done([Notified(m, None), Published(header, m)], queue, incoming)
  }

  /** `Crashed`: the final `pop_front` meets an empty queue. */
  datatype Drained =
    | Drained(log: seq<Effect>, incoming: seq<seq<Bytes>>, stop: bool)
    | Starving(log: seq<Effect>)
    | Crashed(log: seq<Effect>)
  {
    function After(earlier: seq<Effect>, disconnect: bool): Drained {
      match this
      case Drained(log, incoming, stop) => Drained(earlier + log, incoming, stop || disconnect)
      case Starving(log) => Starving(earlier + log)
      case Crashed(log) => Crashed(earlier + log)
    }
  }

  /** Handles the queued messages one after the other: the front is looked at, handled, and only then
      popped, although handling it may have changed the queue. */
  function Drain(c: Codec, header: Bytes, queue: seq<Bytes>, incoming: seq<seq<Bytes>>): Drained
    decreases |queue| + |Concat(incoming)|
  {
    if queue == [] then Drained([], incoming, false)
    else
      var m := c.parse(queue[0]);
      if m.kind.Event? then
        WaitShrinks(ThreadsReply(c), queue, incoming);
        match ForwardEvent(c, m, header, queue, incoming)
        case Stuck(log) => Starving(log)
        case Done(log, queue', incoming') =>
          if queue' == [] then Crashed(log)
          else Drain(c, header, queue'[1..], incoming').After(log, false)
      else
        Drain(c, header, queue[1..], incoming).After([Replied(queue[0])], m.command == Some("disconnect"))
  }

  /** The handshake after a forwarded `attach` request. */
  function InitSequence(c: Codec, header: Bytes, queue: seq<Bytes>, incoming: seq<seq<Bytes>>): Outcome {
    match Wait(Initialized(c), queue, incoming)
    case Starved(_) => Stuck([])
    case Found(initialized, queue1, incoming1) =>
      var event := c.parse(initialized);
      var request := [Sent(Frame(c.dump(OwnRequest("configurationDone", event))))];
      match Wait(ConfigurationDone(c), queue1, incoming1)
      case Starved(_) => Stuck(request)
      case Found(_, queue2, incoming2) =>
        match Wait(AttachResponse(c), queue2, incoming2)
        case Starved(_) => Stuck(request)
        case Found(attach, queue3, incoming3) =>
          Done(request + [Notified(event, None), Published(header, event), Replied(c.dump(c.parse(attach)))],
               queue3, incoming3)
  }

  /** The content of a framed request. Without a separator the position is `npos`, and adding the
      separator length wraps around to 3. `None` is the exception of `substr`. */
  function Payload(raw: Bytes): Option<Bytes> {
    match Find(raw, SEPARATOR, 0)
    case Some(pos) => Some(raw[pos + SEPARATOR_LENGTH..])
    case None => if SEPARATOR_LENGTH - 1 <= |raw| then Some(raw[SEPARATOR_LENGTH - 1..]) else None
  }

  /** The bytes are the frame of a request with this command, numbered one after the event. */
  predicate Requests(c: Codec, bytes: Bytes, command: string, event: Message) {
    var content := Payload(bytes);
    && content.Some? && bytes == Frame(content.value)
    && c.parse(content.value).kind.Request? && c.parse(content.value).command == Some(command)
    && c.parse(content.value).seqNo == event.seqNo + 1
  }

  lemma OwnRequestSays(c: Codec, command: string, event: Message)
    requires c.Valid()
    ensures Requests(c, Frame(c.dump(OwnRequest(command, event))), command, event)
  {
    PayloadOfFrame(c.dump(OwnRequest(command, event)));
    hide Frame, Payload;
  }

  /** A request framed by the debugger is recovered, even if its content contains a separator. */
  lemma PayloadOfFrame(content: Bytes)
    ensures Payload(Frame(content)) == Some(content)
  {
    var raw := Frame(content);
    assert raw == raw + "";
    assert raw[0..] == raw;
    assert Window(raw, 0, content, "");
    forall i: nat | i < HEADER_LENGTH ensures !At(raw, SEPARATOR, i) {
      assert raw[i] == HEADER[i];
      NotAtOther(raw, i);
    }
    SeparatorSeen(raw, 0, content, "");
    assert At(raw, SEPARATOR, SeparatorStart(0, content));
    forall i: nat | i < SeparatorStart(0, content) ensures !At(raw, SEPARATOR, i) {
      if HEADER_LENGTH <= i {
        NoSeparatorInDigits(raw, 0, content, "", i - HEADER_LENGTH);
      }
    }
    FindSettled(raw, SEPARATOR, 0, SeparatorStart(0, content));
    BodySeen(raw, 0, content, "");
    assert raw[BodyStart(0, content)..] == content;
  }

  lemma NotAtOther(buffer: Bytes, i: nat)
    requires i < |buffer| && buffer[i] != '\r'
    ensures !At(buffer, SEPARATOR, i)
  {
    assert SEPARATOR[0] == '\r';
  }
}
