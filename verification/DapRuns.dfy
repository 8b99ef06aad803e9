/** What holds over whole runs of the debug client's event loop. */
module DapRuns {
  import opened Basics
  import opened Framing
  import opened Selection
  import opened DapProtocol
  import opened DapLoop

  // ---------------------------------------------------------------- the header stamped on published events

  /** The header in force after `log`. */
  function HeaderAfter(log: seq<Effect>, header: Bytes): Bytes {
    if log == [] then header
    else HeaderAfter(log[1..], if log[0].HeaderTaken? then log[0].header else header)
  }

  /** Every event is published under the header in force at that moment. */
  predicate Stamped(log: seq<Effect>, header: Bytes) {
    log != [] ==>
    && (log[0].Published? ==> log[0].parent == header)
    && Stamped(log[1..], if log[0].HeaderTaken? then log[0].header else header)
  }

  lemma {:induction false} StampedAppend(a: seq<Effect>, b: seq<Effect>, header: Bytes)
    ensures HeaderAfter(a + b, header) == HeaderAfter(b, HeaderAfter(a, header))
    ensures Stamped(a + b, header) <==> Stamped(a, header) && Stamped(b, HeaderAfter(a, header))
  {
    if a == [] {
      assert a + b == b;
    } else {
      assert (a + b)[1..] == a[1..] + b;
      StampedAppend(a[1..], b, if a[0].HeaderTaken? then a[0].header else header);
    }
  }

  /** The log was written under one header only. */
  predicate OneHeader(log: seq<Effect>, header: Bytes) {
    forall e :: e in log ==> !e.HeaderTaken? && (e.Published? ==> e.parent == header)
  }

  lemma {:induction false} OneHeaderStamped(log: seq<Effect>, header: Bytes)
    requires OneHeader(log, header)
    ensures Stamped(log, header) && HeaderAfter(log, header) == header
  {
    if log != [] {
      OneHeaderStamped(log[1..], header);
    }
  }

  lemma {:induction false} DrainUnderOneHeader(c: Codec, header: Bytes, queue: seq<Bytes>, incoming: seq<seq<Bytes>>)
    ensures OneHeader(Drain(c, header, queue, incoming).log, header)
    decreases |queue| + |Concat(incoming)|
  {
    if queue != [] {
      var m := c.parse(queue[0]);
      if m.kind.Event? {
        WaitShrinks(ThreadsReply(c), queue, incoming);
        var handled := ForwardEvent(c, m, header, queue, incoming);
        if handled.Done? && handled.queue != [] {
          DrainUnderOneHeader(c, header, handled.queue[1..], handled.incoming);
        }
      } else {
        DrainUnderOneHeader(c, header, queue[1..], incoming);
      }
    }
  }

  lemma StampedStep(log: seq<Effect>, more: seq<Effect>, start: Bytes, header: Bytes)
    requires Stamped(log, start) && HeaderAfter(log, start) == header && OneHeader(more, header)
    ensures Stamped(log + more, start) && HeaderAfter(log + more, start) == header
  {
    OneHeaderStamped(more, header);
    StampedAppend(log, more, start);
  }

  /** The loop's header field is the last header taken, and everything published so far carries the
      header that was in force. */
  predicate HeaderInForce(s: Loop, start: Bytes) {
    && Stamped(s.log, start)
    && (s.Live? ==> HeaderAfter(s.log, start) == s.header)
  }

  lemma ReadyStamps(c: Codec, s: Loop, poll: Poll, start: Bytes)
    requires s.Live? && HeaderInForce(s, start)
    ensures HeaderInForce(Ready(c, s, poll), start)
  {
    var s1 := s;
    if poll.header {
      s1 := TakeHeader(s);
      if s1.Live? {
        StampedAppend(s.log, [HeaderTaken(s1.header)], start);
      }
    }
    assert HeaderInForce(s1, start);
    if poll.control && s1.Live? && s1.requestsIn != [] {
      RequestStamps(c, s1, start);
    }
  }

  lemma RequestStamps(c: Codec, s: Loop, start: Bytes)
    requires s.Live? && HeaderInForce(s, start) && s.requestsIn != []
    ensures HeaderInForce(TakeRequest(c, s), start)
  {
    hide InitSequence, Stamped, HeaderAfter;
    var raw := s.requestsIn[0];
    StampedStep(s.log, [RequestTaken(raw)], start, s.header);
    var taken := s.log + [RequestTaken(raw)];
    StampedStep(taken, [Sent(raw)], start, s.header);
    var init := InitSequence(c, s.header, s.queue, s.incoming);
    InitUnderOneHeader(c, s.header, s.queue, s.incoming);
    StampedStep(taken + [Sent(raw)], init.log, start, s.header);
  }

  lemma InitUnderOneHeader(c: Codec, header: Bytes, queue: seq<Bytes>, incoming: seq<seq<Bytes>>)
    ensures OneHeader(InitSequence(c, header, queue, incoming).log, header)
  {
    hide Wait, Frame;
  }

  /** Parent headers. In every run, whatever the polls report and whatever arrives, each event is
      published under the last header received before it. */
  lemma {:induction false} RunStamps(c: Codec, s: Loop, polls: seq<Poll>, start: Bytes)
    requires HeaderInForce(s, start)
    ensures HeaderInForce(Run(c, s, polls), start)
    decreases |polls|
  {
    if polls != [] && s.Live? && !s.stop {
      var ready := Ready(c, s, polls[0]);
      ReadyStamps(c, s, polls[0], start);
      if ready.Live? {
        DrainUnderOneHeader(c, ready.header, ready.queue, ready.incoming);
        StampedStep(ready.log, Drain(c, ready.header, ready.queue, ready.incoming).log, start, ready.header);
      }
      RunStamps(c, Round(c, s, polls[0]), polls[1..], start);
    }
  }

  // ---------------------------------------------------------------- when the loop ends

  predicate RelaysDisconnect(c: Codec, e: Effect) {
    e.Replied? && !c.parse(e.raw).kind.Event? && c.parse(e.raw).command == Some("disconnect")
  }

  ghost predicate Disconnected(c: Codec, log: seq<Effect>) { exists e :: e in log && RelaysDisconnect(c, e) }

  lemma DisconnectedAppend(c: Codec, a: seq<Effect>, b: seq<Effect>)
    ensures Disconnected(c, a + b) <==> Disconnected(c, a) || Disconnected(c, b)
  {
    if Disconnected(c, a) {
      var e :| e in a && RelaysDisconnect(c, e);
      assert e in a + b;
    }
    if Disconnected(c, b) {
      var e :| e in b && RelaysDisconnect(c, e);
      assert e in a + b;
    }
  }

  lemma {:induction false} DrainStopsExactly(c: Codec, header: Bytes, queue: seq<Bytes>, incoming: seq<seq<Bytes>>)
    ensures var d := Drain(c, header, queue, incoming);
            d.Drained? ==> (d.stop <==> Disconnected(c, d.log))
    decreases |queue| + |Concat(incoming)|
  {
    if queue != [] {
      var m := c.parse(queue[0]);
      if m.kind.Event? {
        WaitShrinks(ThreadsReply(c), queue, incoming);
        var handled := ForwardEvent(c, m, header, queue, incoming);
        if handled.Done? && handled.queue != [] {
          DrainStopsExactly(c, header, handled.queue[1..], handled.incoming);
          DisconnectedAppend(c, handled.log, Drain(c, header, handled.queue[1..], handled.incoming).log);
        }
      } else {
        DrainStopsExactly(c, header, queue[1..], incoming);
        DisconnectedAppend(c, [Replied(queue[0])], Drain(c, header, queue[1..], incoming).log);
        if m.command == Some("disconnect") {
          assert RelaysDisconnect(c, Replied(queue[0])) && Replied(queue[0]) in [Replied(queue[0])];
        }
      }
    }
  }

  lemma InitNeverDisconnects(c: Codec, header: Bytes, queue: seq<Bytes>, incoming: seq<seq<Bytes>>)
    requires c.Valid()
    ensures !Disconnected(c, InitSequence(c, header, queue, incoming).log)
  {
    var init := InitSequence(c, header, queue, incoming);
    if init.Done? {
      var w1 := Wait(Initialized(c), queue, incoming);
      var w2 := Wait(ConfigurationDone(c), w1.queue, w1.incoming);
      var w3 := Wait(AttachResponse(c), w2.queue, w2.incoming);
      WaitFinds(AttachResponse(c), w2.queue, w2.incoming);
      assert |"attach"| != |"disconnect"|;
      assert !RelaysDisconnect(c, Replied(c.dump(c.parse(w3.message))));
    }
  }

  lemma RequestNeverDisconnects(c: Codec, s: Loop)
    requires s.Live? && c.Valid()
    ensures Disconnected(c, TakeRequest(c, s).log) <==> Disconnected(c, s.log)
    ensures TakeRequest(c, s).Live? ==> TakeRequest(c, s).stop == s.stop
  {
    hide InitSequence, Disconnected, Payload;
    if s.requestsIn != [] {
      var raw := s.requestsIn[0];
      var taken := s.log + [RequestTaken(raw)];
      SilentEffect(c, s.log, RequestTaken(raw));
      SilentEffect(c, taken, Sent(raw));
      InitNeverDisconnects(c, s.header, s.queue, s.incoming);
      DisconnectedAppend(c, taken + [Sent(raw)], InitSequence(c, s.header, s.queue, s.incoming).log);
    }
  }

  lemma SilentEffect(c: Codec, log: seq<Effect>, e: Effect)
    requires !e.Replied?
    ensures Disconnected(c, log + [e]) <==> Disconnected(c, log)
  {
    DisconnectedAppend(c, log, [e]);
  }

  lemma ReadyNeverDisconnects(c: Codec, s: Loop, poll: Poll)
    requires s.Live? && c.Valid()
    ensures Disconnected(c, Ready(c, s, poll).log) <==> Disconnected(c, s.log)
    ensures Ready(c, s, poll).Live? ==> Ready(c, s, poll).stop == s.stop
  {
    hide TakeRequest, Disconnected;
    var s1 := if poll.header then TakeHeader(s) else s;
    if poll.header && s1.Live? {
      SilentEffect(c, s.log, HeaderTaken(s1.header));
    }
    if s1.Live? {
      RequestNeverDisconnects(c, s1);
    }
  }

  /** Exit. Starting fresh, the loop has ended exactly if it has relayed a `disconnect` response; at
      the top of every round the queue is empty. */
  lemma {:induction false} ExitsExactlyOnDisconnect(c: Codec, s: Loop, polls: seq<Poll>)
    requires c.Valid() && s.Live? && s.queue == []
    requires s.stop <==> Disconnected(c, s.log)
    ensures var end := Run(c, s, polls);
            end.Live? ==> end.queue == [] && (end.stop <==> Disconnected(c, end.log))
    decreases |polls|
  {
    if polls != [] && !s.stop {
      var ready := Ready(c, s, polls[0]);
      ReadyNeverDisconnects(c, s, polls[0]);
      if ready.Live? {
        var d := Drain(c, ready.header, ready.queue, ready.incoming);
        DrainStopsExactly(c, ready.header, ready.queue, ready.incoming);
        DisconnectedAppend(c, ready.log, d.log);
        if d.Drained? {
          ExitsExactlyOnDisconnect(c, Round(c, s, polls[0]), polls[1..]);
        }
      }
    }
  }
}
