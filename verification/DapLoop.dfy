/** The event loop of the debug client as a function of what its sockets deliver. */
module DapLoop {
  import opened Basics
  import opened DapProtocol

  /** Which of the three sockets a poll reports as readable. */
  datatype Poll = Poll(header: bool, control: bool, tcp: bool)

  /** The client between two actions: its fields, what its sockets still deliver, and everything it
      has done. A halted loop waits for ever, has thrown, or has popped from an empty queue. */
  datatype Loop =
    | Live(waitAttach: bool, stop: bool, header: Bytes, headersIn: seq<Bytes>, requestsIn: seq<Bytes>,
           queue: seq<Bytes>, incoming: seq<seq<Bytes>>, log: seq<Effect>)
    | Halted(log: seq<Effect>)

  function TakeHeader(s: Loop): Loop
    requires s.Live?
  {
    if s.headersIn == [] then Halted(s.log)
    else s.(header := s.headersIn[0], headersIn := s.headersIn[1..], log := s.log + [HeaderTaken(s.headersIn[0])])
  }

  function TakeRequest(c: Codec, s: Loop): Loop
    requires s.Live?
  {
    if s.requestsIn == [] then Halted(s.log)
    else
      var raw := s.requestsIn[0];
      var taken := s.(requestsIn := s.requestsIn[1..], log := s.log + [RequestTaken(raw)]);
      if !s.waitAttach then taken.(log := taken.log + [Sent(raw)])
      else match Payload(raw)
        case None => Halted(taken.log)
        case Some(content) =>
          var sent := taken.(log := taken.log + [Sent(raw)]);
          if c.parse(content).command != Some("attach") then sent
          else match InitSequence(c, s.header, s.queue, s.incoming)
            case Stuck(log) => Halted(sent.log + log)
            case Done(log, queue, incoming) =>
              sent.(queue := queue, incoming := incoming, waitAttach := false, log := sent.log + log)
  }

  function TakeBatch(s: Loop): Loop
    requires s.Live?
  {
    if s.incoming == [] then Halted(s.log)
    else s.(queue := s.queue + s.incoming[0], incoming := s.incoming[1..])
  }

  function DrainQueue(c: Codec, s: Loop): Loop
    requires s.Live?
  {
    match Drain(c, s.header, s.queue, s.incoming)
    case Drained(log, incoming, stop) =>
      s.(queue := [], incoming := incoming, stop := s.stop || stop, log := s.log + log)
    case Starving(log) => Halted(s.log + log)
    case Crashed(log) => Halted(s.log + log)
  }

  /** The sockets reported readable: header, request, batch, in this order. */
  function Ready(c: Codec, s: Loop, poll: Poll): Loop
    requires s.Live?
  {
    var s1 := if poll.header then TakeHeader(s) else s;
    var s2 := if poll.control && s1.Live? then TakeRequest(c, s1) else s1;
    if poll.tcp && s2.Live? then TakeBatch(s2) else s2
  }

  /** One round: what is readable, then the queue. */
  function Round(c: Codec, s: Loop, poll: Poll): Loop
    requires s.Live?
  {
    var ready := Ready(c, s, poll);
    if ready.Live? then DrainQueue(c, ready) else ready
  }

  function Run(c: Codec, s: Loop, polls: seq<Poll>): Loop
    decreases |polls|
  {
    if polls == [] || s.Halted? || s.stop then s else Run(c, Round(c, s, polls[0]), polls[1..])
  }
}
