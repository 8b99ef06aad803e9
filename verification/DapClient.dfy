/** The debug client: queues, waits and the event loop, over a stream of TCP chunks. */
module DapClient {
  import opened Basics
  import opened Framing
  import opened FrameReader
  import opened TcpStream
  import opened Selection
  import opened DapProtocol
  import opened DapLoop

  lemma SortStep<T>(p: T -> bool, sorted: seq<T>, x: T)
    ensures LastMatch(p, sorted + [x]) == if p(x) then Some(x) else LastMatch(p, sorted)
    ensures Filter(Not(p), sorted + [x]) == Filter(Not(p), sorted) + if p(x) then [] else [x]
  {
    assert (sorted + [x])[..|sorted|] == sorted;
    FilterAppend(Not(p), sorted, [x]);
    assert Filter(Not(p), [x]) == (if p(x) then [] else [x]) + Filter(Not(p), []);
  }

  lemma CollectStep<T>(p: T -> bool, queue: seq<T>, incoming: seq<seq<T>>)
    requires incoming != []
    ensures var kept := queue + Filter(Not(p), incoming[0]);
            Collect(p, queue, incoming) ==
            match LastMatch(p, incoming[0])
            case Some(message) => Found(message, kept, incoming[1..])
            case None => Collect(p, kept, incoming[1..])
  {}

  lemma CollectNothing<T>(p: T -> bool, queue: seq<T>)
    ensures Collect(p, queue, []) == Starved(queue)
  {}

  lemma WaitOnQueue<T>(p: T -> bool, queue: seq<T>, incoming: seq<seq<T>>, i: nat)
    requires i <= |queue| && forall k :: 0 <= k < i ==> !p(queue[k])
    ensures i < |queue| && p(queue[i]) ==>
              Wait(p, queue, incoming) == Found(queue[i], queue[..i] + queue[i + 1..], incoming)
    ensures i == |queue| ==> Wait(p, queue, incoming) == Collect(p, queue, incoming)
  {}

  lemma RunStep(c: Codec, s: Loop, polls: seq<Poll>)
    requires polls != [] && s.Live? && !s.stop
    ensures Run(c, s, polls) == Run(c, Round(c, s, polls[0]), polls[1..])
  {}

  lemma RunHalted(c: Codec, log: seq<Effect>, polls: seq<Poll>)
    ensures Run(c, Halted(log), polls) == Halted(log)
  {}

  lemma RunEnds(c: Codec, s: Loop, polls: seq<Poll>)
    requires polls == [] || s.Halted? || s.stop
    ensures Run(c, s, polls) == s
  {}

  lemma AfterNothing(d: Drained)
    ensures d.After([], false) == d
  {}

  lemma AfterAfter(d: Drained, a: seq<Effect>, x: bool, b: seq<Effect>, y: bool)
    ensures d.After(b, y).After(a, x) == d.After(a + b, x || y)
  {
    match d {
      case Drained(log, _, _) => Associative(a, b, log);
      case Starving(log) => Associative(a, b, log);
      case Crashed(log) => Associative(a, b, log);
    }
  }

  /** One turn of the draining loop, when `done` has been done so far. */
  lemma DrainTurn(c: Codec, header: Bytes, queue: seq<Bytes>, incoming: seq<seq<Bytes>>, all: Drained,
                  done: seq<Effect>, stop: bool)
    requires queue != [] && all == Drain(c, header, queue, incoming).After(done, stop)
    ensures c.parse(queue[0]).kind.Event? ==>
              var handled := ForwardEvent(c, c.parse(queue[0]), header, queue, incoming);
              && (handled.Stuck? ==> all == Starving(done + handled.log))
              && (handled.Done? && handled.queue == [] ==> all == Crashed(done + handled.log))
              && (handled.Done? && handled.queue != [] ==>
                  && all == Drain(c, header, handled.queue[1..], handled.incoming).After(done + handled.log, stop)
                  && |handled.queue| + |Concat(handled.incoming)| <= |queue| + |Concat(incoming)|)
    ensures !c.parse(queue[0]).kind.Event? ==>
              all == Drain(c, header, queue[1..], incoming).After(
                done + [Replied(queue[0])], stop || c.parse(queue[0]).command == Some("disconnect"))
  {
    var m := c.parse(queue[0]);
    if m.kind.Event? {
      WaitShrinks(ThreadsReply(c), queue, incoming);
      var handled := ForwardEvent(c, m, header, queue, incoming);
      if handled.Done? && handled.queue != [] {
        AfterAfter(Drain(c, header, handled.queue[1..], handled.incoming), done, stop, handled.log, false);
      }
    } else {
      AfterAfter(Drain(c, header, queue[1..], incoming), done, stop, [Replied(queue[0])], m.command
                 == Some("disconnect"));
    }
  }

  lemma DrainEnd(c: Codec, header: Bytes, incoming: seq<seq<Bytes>>, done: seq<Effect>, stop: bool)
    ensures Drain(c, header, [], incoming).After(done, stop) == Drained(done, incoming, stop)
  {}

  class DapClient {
    const codec: Codec
    const tcp: TcpStream
    /** The batches in which the unread chunks will reach the client. */
    ghost var incoming: seq<seq<Bytes>>
    /** The bodies whose frames, or a beginning of them, the unread chunks carry. */
    ghost var bodies: seq<Bytes>

    var headersIn: seq<Bytes>
    var requestsIn: seq<Bytes>
    var waitAttach: bool
    var requestStop: bool
    var parentHeader: Bytes
    var messageQueue: seq<Bytes>
    var stoppedQueue: seq<Bytes>
    /** Everything done on the sockets and through the event callback, in order. */
    var log: seq<Effect>

    ghost predicate Valid()
      reads this, tcp
    {
      && tcp.Valid()
      && stoppedQueue == []
      && Delivers(tcp.chunks, tcp.next, incoming, bodies)
    }

    ghost function State(): Loop
      reads this
    {
      Live(waitAttach, requestStop, parentHeader, headersIn, requestsIn, messageQueue, incoming, log)
    }

    /** A client whose peer sends the frames of `bodies`, or a beginning of them, in arbitrary chunks. */
    constructor (codec: Codec, chunks: seq<Bytes>, headersIn: seq<Bytes>, requestsIn: seq<Bytes>, parallel: bool,
                 ghost bodies: seq<Bytes>)
      requires Concat(chunks) <= Frames(bodies) && AllSized(bodies)
      ensures Valid() && this.codec == codec && fresh(tcp) && tcp.chunks == chunks
      ensures State() == Live(parallel, false, "", headersIn, requestsIn, [], incoming, [])
      ensures Concat(incoming) <= bodies && LastToEnd(chunks, 0, bodies, |Concat(incoming)|)
      ensures Concat(chunks) == Frames(bodies) ==> Concat(incoming) == bodies
    {
      this.codec := codec;
      this.tcp := new TcpStream(chunks);
      this.headersIn, this.requestsIn := headersIn, requestsIn;
      waitAttach, requestStop, parentHeader := parallel, false, "";
      messageQueue, stoppedQueue, log := [], [], [];
      this.bodies := bodies;
      new;
      assert chunks[0..|chunks|] == chunks;
      incoming := ChunkingIndependence(chunks, 0, bodies);
    }

    /** Reading the socket yields the next batch, or blocks when there is none. */
    method HandleTcpSocket() returns (ok: bool, batch: seq<Bytes>)
      requires Valid()
      modifies tcp, this`incoming, this`bodies
      ensures Valid() && ok == (old(incoming) != [])
      ensures if ok then batch == old(incoming)[0] && incoming == old(incoming)[1..] else incoming == []
    {
      hide ReadAll, Received, Frames, MidFrame;
      ghost var from := tcp.next;
      var outcome, messages := tcp.HandleTcpSocket();
      ReadsFrames(tcp.chunks, from, bodies);
      ok, batch := outcome.Returned?, messages;
      if incoming != [] {
        ghost var to: nat :|
          && from < to
          && Reads(tcp.chunks, from, to, bodies, Returned, incoming[0])
          && Delivers(tcp.chunks, to, incoming[1..], bodies[|incoming[0]|..]);
        ReadsIsDeterministic(tcp.chunks, from, bodies, tcp.next, outcome, messages, to, incoming[0]);
        bodies := bodies[|incoming[0]|..];
        incoming := incoming[1..];
      } else {
        NothingToReturn(tcp.chunks, from, tcp.next, bodies, outcome, messages);
        bodies := [];
      }
    }

    method WaitForMessage(p: Bytes -> bool) returns (found: Option<Bytes>)
      requires Valid()
      modifies tcp, this`incoming, this`bodies, this`messageQueue, this`stoppedQueue
      ensures Valid()
      ensures match Wait(p, old(messageQueue), old(incoming))
              case Found(message, queue, left) => found == Some(message) && messageQueue == queue && incoming == left
              case Starved(queue) => found == None && messageQueue == queue && incoming == []
    {
      hide Collect, LastMatch, Filter, Wait, Delivers;
      found := None;
      var i := 0;
      while i < |messageQueue| && !p(messageQueue[i])
        invariant i <= |messageQueue|
        invariant forall k :: 0 <= k < i ==> !p(messageQueue[k])
      {
        i := i + 1;
      }
      WaitOnQueue(p, messageQueue, incoming, i);
      if i < |messageQueue| {
        found := Some(messageQueue[i]);
        messageQueue := messageQueue[..i] + messageQueue[i + 1..];
        return;
      }
      var ok := true;
      while found == None && ok
        invariant Valid()
        invariant match found
                  case None => Collect(p, messageQueue, incoming) == Collect(p, old(messageQueue), old(incoming))
                  case Some(message) =>
                    Found(message, messageQueue, incoming) == Collect(p, old(messageQueue), old(incoming))
        invariant !ok ==> found == None && incoming == [] && Collect(p, messageQueue, incoming) == Starved(messageQueue)
        decreases |incoming|, found == None, ok
      {
        if incoming != [] {
          CollectStep(p, messageQueue, incoming);
        }
        ok, stoppedQueue := HandleTcpSocket();
        if ok {
          found := SortBatch(p);
        } else {
          stoppedQueue := [];
          CollectNothing(p, messageQueue);
        }
      }
    }

    /** Empties the side queue: matches go to the caller, the last one winning, the rest is queued. */
    method SortBatch(p: Bytes -> bool) returns (found: Option<Bytes>)
      modifies this`messageQueue, this`stoppedQueue
      ensures stoppedQueue == []
      ensures found == LastMatch(p, old(stoppedQueue))
      ensures messageQueue == old(messageQueue) + Filter(Not(p), old(stoppedQueue))
    {
      ghost var sorted: seq<Bytes> := [];
      assert LastMatch(p, sorted) == None && Filter(Not(p), sorted) == [];
      hide LastMatch, Filter;
      found := None;
      while stoppedQueue != []
        invariant old(stoppedQueue) == sorted + stoppedQueue
        invariant found == LastMatch(p, sorted)
        invariant messageQueue == old(messageQueue) + Filter(Not(p), sorted)
        decreases |stoppedQueue|
      {
        var raw := stoppedQueue[0];
        SortStep(p, sorted, raw);
        assert stoppedQueue == [raw] + stoppedQueue[1..];
        Associative(sorted, [raw], stoppedQueue[1..]);
        sorted := sorted + [raw];
        if p(raw) {
          found := Some(raw);
        } else {
          messageQueue := messageQueue + [raw];
        }
        stoppedQueue := stoppedQueue[1..];
      }
      assert old(stoppedQueue) == sorted;
    }

    method SendDapRequest(message: Message)
      modifies this`log
      ensures log == old(log) + [Sent(Frame(codec.dump(message)))]
    {
      var content := codec.dump(message);
      log := log + [Sent(HEADER + Digits(|content|) + SEPARATOR + content)];
    }

    /** The log, the queue and the wire are as the value-level action says. */
    twostate predicate Did(outcome: DapProtocol.Outcome, ok: bool)
      reads this
    {
      match outcome
      case Done(effects, queue, left) =>
        ok && log == old(log) + effects && messageQueue == queue && incoming == left
      case Stuck(effects) => !ok && log == old(log) + effects
    }

    method ForwardEvent(message: Message) returns (ok: bool)
      requires Valid()
      modifies tcp, this`incoming, this`bodies, this`messageQueue, this`stoppedQueue, this`log
      ensures Valid()
      ensures Did(DapProtocol.ForwardEvent(codec, message, parentHeader, old(messageQueue), old(incoming)), ok)
    {
      hide Wait;
      if StopsAllThreads(message) {
        SendDapRequest(OwnRequest("threads", message));
        var reply := WaitForMessage(ThreadsReply(codec));
        if reply == None { return false; }
        log := log + [Notified(message, Some(codec.parse(reply.value).threads))];
      } else {
        log := log + [Notified(message, None)];
      }
      log := log + [Published(parentHeader, message)];
      ok := true;
    }

    /** Handles every queued message. The front is popped only after it has been handled, which for
        a `stopped` event includes a wait on this very queue. */
    method ProcessMessageQueue() returns (ok: bool)
      requires Valid()
      modifies tcp, this`incoming, this`bodies, this`messageQueue, this`stoppedQueue, this`log, this`requestStop
      ensures Valid()
      ensures match Drain(codec, parentHeader, old(messageQueue), old(incoming))
              case Drained(effects, left, stop) =>
                && ok && log == old(log) + effects && messageQueue == [] && incoming == left
                && requestStop == (old(requestStop) || stop)
              case Starving(effects) => !ok && log == old(log) + effects
              case Crashed(effects) => !ok && log == old(log) + effects
    {
      hide Drain, Drained.After, Wait, Delivers, DapProtocol.ForwardEvent;
      ghost var all := Drain(codec, parentHeader, messageQueue, incoming);
      ghost var done: seq<Effect>, stop := [], false;
      AfterNothing(all);
      while messageQueue != []
        invariant Valid() && log == old(log) + done && requestStop == (old(requestStop) || stop)
        invariant all == Drain(codec, parentHeader, messageQueue, incoming).After(done, stop)
        decreases |messageQueue| + |Concat(incoming)|
      {
        var raw := messageQueue[0];
        var message := codec.parse(raw);
        DrainTurn(codec, parentHeader, messageQueue, incoming, all, done, stop);
        if message.kind.Event? {
          done := done + DapProtocol.ForwardEvent(codec, message, parentHeader, messageQueue, incoming).log;
          ok := ForwardEvent(message);
          if !ok || messageQueue == [] { return false; }
        } else {
          if message.command == Some("disconnect") {
            requestStop, stop := true, true;
          }
          log := log + [Replied(raw)];
          done := done + [Replied(raw)];
        }
        messageQueue := messageQueue[1..];
      }
      DrainEnd(codec, parentHeader, incoming, done, stop);
      ok := true;
    }

    method HandleInitSequence() returns (ok: bool)
      requires Valid()
      modifies tcp, this`incoming, this`bodies, this`messageQueue, this`stoppedQueue, this`log
      ensures Valid()
      ensures Did(InitSequence(codec, parentHeader, old(messageQueue), old(incoming)), ok)
    {
      hide Wait, Delivers, Frame;
      WaitFinds(Initialized(codec), messageQueue, incoming);
      var initialized := WaitForMessage(Initialized(codec));
      if initialized == None { return false; }
      var event := codec.parse(initialized.value);
      SendDapRequest(OwnRequest("configurationDone", event));
      var configResponse := WaitForMessage(ConfigurationDone(codec));
      if configResponse == None { return false; }
      var attachResponse := WaitForMessage(AttachResponse(codec));
      if attachResponse == None { return false; }
      assert IsEvent(event, "initialized") && "initialized" != "stopped";
      ok := ForwardEvent(event);
      log := log + [Replied(codec.dump(codec.parse(attachResponse.value)))];
    }

    method HandleHeaderSocket() returns (ok: bool)
      requires Valid()
      modifies this`headersIn, this`parentHeader, this`log
      ensures Valid()
      ensures var after := TakeHeader(old(State()));
              if after.Live? then ok && State() == after else !ok && log == after.log
    {
      ok := headersIn != [];
      if ok {
        parentHeader, headersIn := headersIn[0], headersIn[1..];
        log := log + [HeaderTaken(parentHeader)];
      }
    }

    method HandleControlSocket() returns (ok: bool)
      requires Valid()
      modifies tcp, this`incoming, this`bodies, this`messageQueue, this`stoppedQueue, this`log, this`requestsIn,
               this`waitAttach
      ensures Valid()
      ensures var after := TakeRequest(codec, old(State()));
              if after.Live? then ok && State() == after else !ok && log == after.log
    {
      hide InitSequence, Delivers;
      if requestsIn == [] { return false; }
      var raw := requestsIn[0];
      requestsIn := requestsIn[1..];
      log := log + [RequestTaken(raw)];
      if waitAttach {
        var content := Payload(raw);
        if content == None { return false; }
        log := log + [Sent(raw)];
        if codec.parse(content.value).command == Some("attach") {
          ok := HandleInitSequence();
          if !ok { return; }
          waitAttach := false;
        }
      } else {
        log := log + [Sent(raw)];
      }
      ok := true;
    }

    method HandleReady(poll: Poll) returns (ok: bool)
      requires Valid()
      modifies this, tcp
      ensures Valid()
      ensures var after := Ready(codec, old(State()), poll);
              if after.Live? then ok && State() == after else !ok && log == after.log
    {
      hide TakeRequest, Delivers;
      ok := true;
      if poll.header {
        ok := HandleHeaderSocket();
      }
      if ok && poll.control {
        ok := HandleControlSocket();
      }
      if ok && poll.tcp {
        var batch;
        ok, batch := HandleTcpSocket();
        messageQueue := messageQueue + batch;
      }
    }

    /** The event loop, for as many polls as given or until it ends by itself. */
    method StartDebugger(polls: seq<Poll>) returns (ok: bool)
      requires Valid() && messageQueue == []
      modifies this, tcp
      ensures Valid()
      ensures var after := Run(codec, old(State()), polls);
              if after.Live? then ok && State() == after else !ok && log == after.log
      ensures ok ==> messageQueue == [] && stoppedQueue == []
    {
      hide Run, Ready, Drain, Delivers;
      var i := 0;
      ok := true;
      while i < |polls| && !requestStop
        invariant i <= |polls|
        invariant Valid() && messageQueue == []
        invariant Run(codec, old(State()), polls) == Run(codec, State(), polls[i..])
        decreases |polls| - i
      {
        var poll := polls[i];
        RunStep(codec, State(), polls[i..]);
        ghost var ready := Ready(codec, State(), poll);
        assert polls[i..][0] == poll && polls[i..][1..] == polls[i + 1..];
        ok := HandleReady(poll);
        if ok {
          ok := ProcessMessageQueue();
        }
        if !ok {
          RunHalted(codec, log, polls[i + 1..]);
          return;
        }
        i := i + 1;
      }
      RunEnds(codec, State(), polls[i..]);
    }
  }
}
