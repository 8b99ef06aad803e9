/** What the debug client sends to the adapter in the course of a run, and what it takes from its sockets. */
module DapRequests {
  import opened Basics
  import opened Framing
  import opened Selection
  import opened DapProtocol
  import opened DapLoop

  // ---------------------------------------------------------------- what is sent

  /** A request received at position `k` is sent on, unchanged, before anything else happens. */
  predicate PassedOnAt(log: seq<Effect>, k: nat) {
    k < |log| && log[k].RequestTaken? ==> k + 1 < |log| && log[k + 1] == Sent(log[k].raw)
  }

  /** The client's own request at position `k` belongs to the event notified next: `threads` to one that stops all
      threads, `configurationDone` to `initialized`. */
  predicate OwnAt(c: Codec, log: seq<Effect>, k: nat)
    requires k < |log| && log[k].Sent?
  {
    && k + 1 < |log| && log[k + 1].Notified?
    && var event := log[k + 1].event;
       && event.kind.Event?
       && if event.event == Some("stopped") then event.allThreadsStopped && Requests(c, log[k].bytes, "threads", event)
          else event.event == Some("initialized") && Requests(c, log[k].bytes, "configurationDone", event)
  }

  predicate SentAt(c: Codec, log: seq<Effect>, k: nat) {
    k < |log| && log[k].Sent? ==> (k > 0 && log[k - 1] == RequestTaken(log[k].bytes)) || OwnAt(c, log, k)
  }

  /** Nothing is sent but what has been received and the client's own requests. The last effect of a loop that has
      been cut short may still wait for its successor. */
  ghost predicate SendsRightly(c: Codec, log: seq<Effect>, cutShort: bool) {
    forall k: nat :: k < |log| && (cutShort ==> k < |log| - 1) ==> PassedOnAt(log, k) && SentAt(c, log, k)
  }

  lemma SendsAppend(c: Codec, a: seq<Effect>, b: seq<Effect>, cutShort: bool)
    requires SendsRightly(c, a, false) && SendsRightly(c, b, cutShort)
    ensures SendsRightly(c, a + b, cutShort)
  {
    hide Requests;
    forall k: nat | k < |a + b| && (cutShort ==> k < |a + b| - 1) ensures PassedOnAt(a + b, k) && SentAt(c, a + b, k) {
      if k < |a| {
        assert PassedOnAt(a, k) && SentAt(c, a, k);
      } else {
        assert PassedOnAt(b, k - |a|) && SentAt(c, b, k - |a|);
      }
    }
  }

  lemma ForwardSends(c: Codec, m: Message, header: Bytes, queue: seq<Bytes>, incoming: seq<seq<Bytes>>)
    requires c.Valid()
    ensures var forwarded := ForwardEvent(c, m, header, queue, incoming);
            SendsRightly(c, forwarded.log, forwarded.Stuck?)
  {
    OwnRequestSays(c, "threads", m);
    hide Wait, Frame, Requests;
  }

  lemma InitSends(c: Codec, header: Bytes, queue: seq<Bytes>, incoming: seq<seq<Bytes>>)
    requires c.Valid()
    ensures var init := InitSequence(c, header, queue, incoming); SendsRightly(c, init.log, init.Stuck?)
  {
    WaitFinds(Initialized(c), queue, incoming);
    NothingSent(c);
    CutShort(c, []);
    hide Wait, Frame, SendsRightly;
    var init := InitSequence(c, header, queue, incoming);
    if init.log != [] {
      var event := c.parse(Wait(Initialized(c), queue, incoming).message);
      HandshakeSendsRightly(c, event, header, if init.Done? then init.log[3].raw else "");
    }
  }

  ghost predicate HandshakeSends(c: Codec, event: Message, header: Bytes, raw: Bytes) {
    var request := Sent(Frame(c.dump(OwnRequest("configurationDone", event))));
    && SendsRightly(c, [request], true)
    && SendsRightly(c, [request] + [Notified(event, None), Published(header, event), Replied(raw)], false)
  }

  lemma HandshakeSendsRightly(c: Codec, event: Message, header: Bytes, raw: Bytes)
    requires c.Valid() && IsEvent(event, "initialized")
    ensures HandshakeSends(c, event, header, raw)
  {
    OwnRequestSays(c, "configurationDone", event);
    hide Frame, Requests;
  }

  lemma {:induction false} DrainSends(c: Codec, header: Bytes, queue: seq<Bytes>, incoming: seq<seq<Bytes>>)
    requires c.Valid()
    ensures var d := Drain(c, header, queue, incoming); SendsRightly(c, d.log, !d.Drained?)
    decreases |queue| + |Concat(incoming)|
  {
    hide SendsRightly;
    if queue == [] {
      NothingSent(c);
    } else {
      var m := c.parse(queue[0]);
      if m.kind.Event? {
        WaitShrinks(ThreadsReply(c), queue, incoming);
        ForwardSends(c, m, header, queue, incoming);
        var handled := ForwardEvent(c, m, header, queue, incoming);
        hide ForwardEvent;
        if handled.Done? {
          if handled.queue == [] {
            CutShort(c, handled.log);
          } else {
            var rest := Drain(c, header, handled.queue[1..], handled.incoming);
            DrainSends(c, header, handled.queue[1..], handled.incoming);
            SendsAppend(c, handled.log, rest.log, !rest.Drained?);
          }
        }
      } else {
        var rest := Drain(c, header, queue[1..], incoming);
        DrainSends(c, header, queue[1..], incoming);
        OtherEffect(c, Replied(queue[0]));
        SendsAppend(c, [Replied(queue[0])], rest.log, !rest.Drained?);
      }
    }
  }

  lemma NothingSent(c: Codec)
    ensures SendsRightly(c, [], false)
  {}

  lemma OtherEffect(c: Codec, e: Effect)
    requires !e.RequestTaken? && !e.Sent?
    ensures SendsRightly(c, [e], false)
  {}

  lemma CutShort(c: Codec, log: seq<Effect>)
    requires SendsRightly(c, log, false)
    ensures SendsRightly(c, log, true)
  {}

  lemma RequestPassedOn(c: Codec, raw: Bytes)
    ensures SendsRightly(c, [RequestTaken(raw), Sent(raw)], false) && SendsRightly(c, [RequestTaken(raw)], true)
  {}

  lemma RequestSends(c: Codec, s: Loop)
    requires c.Valid() && s.Live? && SendsRightly(c, s.log, false)
    ensures var after := TakeRequest(c, s); SendsRightly(c, after.log, after.Halted?)
  {
    CutShort(c, s.log);
    if s.requestsIn != [] {
      var raw := s.requestsIn[0];
      RequestPassedOn(c, raw);
      SendsAppend(c, s.log, [RequestTaken(raw)], true);
      SendsAppend(c, s.log, [RequestTaken(raw), Sent(raw)], false);
      var sent := s.log + [RequestTaken(raw), Sent(raw)];
      assert sent == s.log + [RequestTaken(raw)] + [Sent(raw)];
      var init := InitSequence(c, s.header, s.queue, s.incoming);
      InitSends(c, s.header, s.queue, s.incoming);
      SendsAppend(c, sent, init.log, init.Stuck?);
    }
    hide SendsRightly, InitSequence, Payload;
  }

  lemma ReadySends(c: Codec, s: Loop, poll: Poll)
    requires c.Valid() && s.Live? && SendsRightly(c, s.log, false)
    ensures var ready := Ready(c, s, poll); SendsRightly(c, ready.log, ready.Halted?)
  {
    hide SendsRightly, TakeRequest;
    CutShort(c, s.log);
    var s1 := if poll.header then TakeHeader(s) else s;
    if poll.header && s1.Live? {
      OtherEffect(c, HeaderTaken(s1.header));
      SendsAppend(c, s.log, [HeaderTaken(s1.header)], false);
    }
    if s1.Live? {
      CutShort(c, s1.log);
      if poll.control {
        RequestSends(c, s1);
        var s2 := TakeRequest(c, s1);
        if s2.Live? {
          CutShort(c, s2.log);
        }
      }
    }
  }

  /** In every run each request of the controller is sent on to the adapter, unchanged and at once, and all else that is
      sent are the client's own requests: a `threads` request right before the notice of an event that stops all
      threads, and a `configurationDone` request right before the notice of `initialized`, each numbered one after its
      event. */
  lemma {:induction false} RunSendsRightly(c: Codec, s: Loop, polls: seq<Poll>)
    requires c.Valid() && SendsRightly(c, s.log, s.Halted?)
    ensures var end := Run(c, s, polls); SendsRightly(c, end.log, end.Halted?)
    decreases |polls|
  {
    if polls != [] && s.Live? && !s.stop {
      hide SendsRightly, Ready, Drain;
      var ready := Ready(c, s, polls[0]);
      ReadySends(c, s, polls[0]);
      if ready.Live? {
        var d := Drain(c, ready.header, ready.queue, ready.incoming);
        DrainSends(c, ready.header, ready.queue, ready.incoming);
        SendsAppend(c, ready.log, d.log, !d.Drained?);
      }
      RunSendsRightly(c, Round(c, s, polls[0]), polls[1..]);
    }
  }

  // ---------------------------------------------------------------- what is taken

  function IsHeader(): Effect -> bool { (e: Effect) => e.HeaderTaken? }

  function IsRequest(): Effect -> bool { (e: Effect) => e.RequestTaken? }

  /** These effects take the first messages of a socket, one after the other; `after` is what is left on it. */
  predicate TakesFrom(taken: seq<Effect>, before: seq<Bytes>, after: seq<Bytes>, take: Bytes -> Effect) {
    && |before| == |taken| + |after| && before[|taken|..] == after
    && forall i :: 0 <= i < |taken| ==> taken[i] == take(before[i])
  }

  /** What has been done between two states of the loop takes the first messages of both sockets. */
  ghost predicate TakesInOrder(s: Loop, more: seq<Effect>, end: Loop) {
    && end.log == s.log + more && s.Live?
    && (end.Live? ==>
        && TakesFrom(Filter(IsHeader(), more), s.headersIn, end.headersIn, (raw: Bytes) => HeaderTaken(raw))
        && TakesFrom(Filter(IsRequest(), more), s.requestsIn, end.requestsIn, (raw: Bytes) => RequestTaken(raw)))
  }

  lemma TakesFurther(s: Loop, a: seq<Effect>, middle: Loop, b: seq<Effect>, end: Loop)
    requires TakesInOrder(s, a, middle) && TakesInOrder(middle, b, end)
    ensures TakesInOrder(s, a + b, end)
  {
    FilterAppend(IsHeader(), a, b);
    FilterAppend(IsRequest(), a, b);
    Associative(s.log, a, b);
    hide Filter;
  }

  predicate TakesNothing(log: seq<Effect>) { forall e :: e in log ==> !e.HeaderTaken? && !e.RequestTaken? }

  lemma NothingTaken(s: Loop, more: seq<Effect>, end: Loop)
    requires s.Live? && TakesNothing(more) && end.log == s.log + more
    requires end.Live? ==> end.headersIn == s.headersIn && end.requestsIn == s.requestsIn
    ensures TakesInOrder(s, more, end)
  {
    FilterNone(IsHeader(), more);
    FilterNone(IsRequest(), more);
    hide Filter;
  }

  lemma InitTakesNothing(c: Codec, header: Bytes, queue: seq<Bytes>, incoming: seq<seq<Bytes>>)
    ensures TakesNothing(InitSequence(c, header, queue, incoming).log)
  {
    hide Wait, Frame;
  }

  lemma {:induction false} DrainTakesNothing(c: Codec, header: Bytes, queue: seq<Bytes>, incoming: seq<seq<Bytes>>)
    ensures TakesNothing(Drain(c, header, queue, incoming).log)
    decreases |queue| + |Concat(incoming)|
  {
    if queue != [] {
      var m := c.parse(queue[0]);
      if m.kind.Event? {
        WaitShrinks(ThreadsReply(c), queue, incoming);
        var handled := ForwardEvent(c, m, header, queue, incoming);
        if handled.Done? && handled.queue != [] {
          DrainTakesNothing(c, header, handled.queue[1..], handled.incoming);
        }
      } else {
        DrainTakesNothing(c, header, queue[1..], incoming);
      }
    }
  }

  lemma HeaderTakes(s: Loop)
    requires s.Live? && s.headersIn != []
    ensures TakesInOrder(s, [HeaderTaken(s.headersIn[0])], TakeHeader(s))
  {
    var taken := [HeaderTaken(s.headersIn[0])];
    FilterAll(IsHeader(), taken);
    FilterNone(IsRequest(), taken);
  }

  lemma NothingToTake(c: Codec, s: Loop)
    requires s.Live? && s.requestsIn == []
    ensures TakeRequest(c, s) == Halted(s.log)
  {}

  lemma OneRequestTaken(s: Loop)
    requires s.Live? && s.requestsIn != []
    ensures var first := [RequestTaken(s.requestsIn[0])];
            TakesInOrder(s, first, s.(requestsIn := s.requestsIn[1..], log := s.log + first))
  {
    var first := [RequestTaken(s.requestsIn[0])];
    FilterAll(IsRequest(), first);
    FilterNone(IsHeader(), first);
    hide Filter;
  }

  lemma AfterTheRequest(c: Codec, s: Loop) returns (rest: seq<Effect>)
    requires s.Live? && s.requestsIn != []
    ensures var after := TakeRequest(c, s);
            && after.log == (s.log + [RequestTaken(s.requestsIn[0])]) + rest && TakesNothing(rest)
            && (after.Live? ==> after.headersIn == s.headersIn && after.requestsIn == s.requestsIn[1..])
  {
    var raw, after := s.requestsIn[0], TakeRequest(c, s);
    InitTakesNothing(c, s.header, s.queue, s.incoming);
    var init := InitSequence(c, s.header, s.queue, s.incoming);
    hide InitSequence, Payload;
    var before := s.log + [RequestTaken(raw)];
    if after.log == before {
      rest := [];
    } else if after.log == before + [Sent(raw)] {
      rest := [Sent(raw)];
    } else {
      rest := [Sent(raw)] + init.log;
      Associative(before, [Sent(raw)], init.log);
    }
  }

  lemma RequestTakes(c: Codec, s: Loop) returns (more: seq<Effect>)
    requires s.Live? && s.requestsIn != []
    ensures TakesInOrder(s, more, TakeRequest(c, s))
  {
    var first := [RequestTaken(s.requestsIn[0])];
    var middle := s.(requestsIn := s.requestsIn[1..], log := s.log + first);
    OneRequestTaken(s);
    var rest := AfterTheRequest(c, s);
    hide TakesInOrder, TakeRequest, TakesNothing;
    NothingTaken(middle, rest, TakeRequest(c, s));
    TakesFurther(s, first, middle, rest, TakeRequest(c, s));
    more := first + rest;
  }

  lemma ReadyTakes(c: Codec, s: Loop, poll: Poll) returns (more: seq<Effect>)
    requires s.Live?
    ensures TakesInOrder(s, more, Ready(c, s, poll))
  {
    hide TakesInOrder, TakeRequest;
    more := [];
    NothingTaken(s, [], s);
    var s1 := if poll.header then TakeHeader(s) else s;
    if poll.header {
      if s.headersIn == [] {
        NothingTaken(s, [], s1);
      } else {
        HeaderTakes(s);
        more := [HeaderTaken(s.headersIn[0])];
      }
    }
    if s1.Live? {
      var s2 := if poll.control then TakeRequest(c, s1) else s1;
      if poll.control {
        var later := [];
        if s1.requestsIn == [] {
          NothingToTake(c, s1);
          NothingTaken(s1, [], s2);
        } else {
          later := RequestTakes(c, s1);
        }
        TakesFurther(s, more, s1, later, s2);
        more := more + later;
      }
      if poll.tcp && s2.Live? {
        NothingTaken(s2, [], TakeBatch(s2));
        TakesFurther(s, more, s2, [], TakeBatch(s2));
        more := more + [];
      }
    }
  }

  /** In every run headers and requests are taken from their sockets in order, each once, and none is lost. */
  lemma {:induction false} RunTakesInOrder(c: Codec, s: Loop, polls: seq<Poll>) returns (more: seq<Effect>)
    requires s.Live?
    ensures TakesInOrder(s, more, Run(c, s, polls))
    decreases |polls|
  {
    hide TakesInOrder, Ready, Drain;
    more := [];
    NothingTaken(s, [], s);
    if polls != [] && !s.stop {
      var ready := Ready(c, s, polls[0]);
      more := ReadyTakes(c, s, polls[0]);
      if ready.Live? {
        var d := Drain(c, ready.header, ready.queue, ready.incoming);
        DrainTakesNothing(c, ready.header, ready.queue, ready.incoming);
        var end := DrainQueue(c, ready);
        NothingTaken(ready, d.log, end);
        TakesFurther(s, more, ready, d.log, end);
        more := more + d.log;
        if end.Live? {
          var later := RunTakesInOrder(c, end, polls[1..]);
          TakesFurther(s, more, end, later, Run(c, end, polls[1..]));
          more := more + later;
        }
      }
    }
  }
}
