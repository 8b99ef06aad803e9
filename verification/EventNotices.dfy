/** How the events of the adapter reach the debugger front end: which notices a run of the client's loop
    gives, and what they do to the set of stopped threads. */
module EventNotices {
  import opened Basics
  import opened Framing
  import opened Selection
  import opened DapProtocol
  import opened DapLoop
  import Debugger
  import DebuggerHistory

  // ---------------------------------------------------------------- from notices to stopped threads

  /** The fields of an event that only the front end reads. */
  datatype Reader = Reader(threadId: Message -> int, allContinued: Message -> bool)

  /** The notice as the front end takes it; the thread list has been put in by the client. */
  function Noticed(reader: Reader, event: Message, threadList: Option<seq<int>>): Debugger.ThreadEvent {
    if event.event == Some("stopped") then
      Debugger.Stopped(event.allThreadsStopped, if threadList.Some? then threadList.value else [],
                       reader.threadId(event))
    else if event.event == Some("continued") then
      Debugger.Continued(reader.allContinued(event), reader.threadId(event))
    else Debugger.OtherEvent
  }

  /** What the notices of a log are to the front end. */
  function History(reader: Reader, log: seq<Effect>): seq<DebuggerHistory.Happening> {
    if log == [] then []
    else
      var last := log[|log| - 1];
      History(reader, log[..|log| - 1])
      + if last.Notified? then [DebuggerHistory.Saw(Noticed(reader, last.event, last.threadList))] else []
  }

  lemma HistorySnoc(reader: Reader, log: seq<Effect>, e: Effect)
    ensures History(reader, log + [e]) ==
            History(reader, log)
            + if e.Notified? then [DebuggerHistory.Saw(Noticed(reader, e.event, e.threadList))] else []
  {
    assert (log + [e])[..|log|] == log;
  }

  function StoppedAfter(reader: Reader, log: seq<Effect>): set<int> {
    DebuggerHistory.Outcome(History(reader, log)).stopped
  }

  /** Forwarding an event that stops all threads adds exactly the threads of the `threads` reply the
      client has waited for; no other reply and no earlier list has a part in it. */
  lemma AllStopCoversTheReply(c: Codec, reader: Reader, log: seq<Effect>, event: Message, header: Bytes,
                              queue: seq<Bytes>, incoming: seq<seq<Bytes>>)
    requires StopsAllThreads(event)
    requires ForwardEvent(c, event, header, queue, incoming).Done?
    ensures var reply := Wait(ThreadsReply(c), queue, incoming);
            var forwarded := ForwardEvent(c, event, header, queue, incoming);
            && reply.Found? && c.parse(reply.message).command == Some("threads")
            && forwarded.queue == reply.queue && forwarded.incoming == reply.incoming
            && forwarded.log != [] && forwarded.log[0].Sent?
            && (c.Valid() ==> Requests(c, forwarded.log[0].bytes, "threads", event))
            && forall t :: t in StoppedAfter(reader, log + forwarded.log) <==>
                 t in StoppedAfter(reader, log) || t in c.parse(reply.message).threads
  {
    var reply := Wait(ThreadsReply(c), queue, incoming);
    WaitFinds(ThreadsReply(c), queue, incoming);
    if c.Valid() {
      OwnRequestSays(c, "threads", event);
    }
    var threadList := c.parse(reply.message).threads;
    var sent, notice := Sent(Frame(c.dump(OwnRequest("threads", event)))), Notified(event, Some(threadList));
    hide Wait, Frame, History, DebuggerHistory.Outcome, Requests;
    assert log + ForwardEvent(c, event, header, queue, incoming).log ==
           ((log + [sent]) + [notice]) + [Published(header, event)];
    OneNotice(reader, log, sent, notice, Published(header, event));
  }

  lemma OneNotice(reader: Reader, log: seq<Effect>, sent: Effect, notice: Effect, published: Effect)
    requires !sent.Notified? && notice.Notified? && !published.Notified?
    ensures StoppedAfter(reader, ((log + [sent]) + [notice]) + [published]) ==
            Debugger.AfterEvent(DebuggerHistory.Outcome(History(reader, log)),
                                Noticed(reader, notice.event, notice.threadList)).stopped
  {
    HistorySnoc(reader, log, sent);
    HistorySnoc(reader, log + [sent], notice);
    HistorySnoc(reader, (log + [sent]) + [notice], published);
    var front, saw := History(reader, log), DebuggerHistory.Saw(Noticed(reader, notice.event, notice.threadList));
    assert front + [] == front && (front + [saw]) + [] == front + [saw];
    assert (front + [saw])[..|front|] == front;
    hide History, Noticed;
  }

  // ---------------------------------------------------------------- the notices of a run

  /** The notice at position `k` stands between the client's own `threads` request, if the event stops
      all threads, and the publication of the same event; only then does it carry a thread list. */
  ghost predicate NoticeAt(c: Codec, log: seq<Effect>, k: nat) {
    k < |log| && log[k].Notified? ==>
    && (log[k].threadList.Some? <==>
        log[k].event.kind.Event? && log[k].event.event == Some("stopped") && log[k].event.allThreadsStopped)
    && (log[k].threadList.Some? ==>
        k > 0 && log[k - 1].Sent? && (c.Valid() ==> Requests(c, log[k - 1].bytes, "threads", log[k].event)))
    && k + 1 < |log| && log[k + 1].Published? && log[k + 1].event == log[k].event
  }

  /** The publication at position `k` follows the notice of the same event. */
  ghost predicate PublicationAt(log: seq<Effect>, k: nat) {
    k < |log| && log[k].Published? ==> k > 0 && log[k - 1].Notified? && log[k - 1].event == log[k].event
  }

  ghost predicate NoticesInOrder(c: Codec, log: seq<Effect>) {
    forall k: nat :: NoticeAt(c, log, k) && PublicationAt(log, k)
  }

  lemma NoticesAppend(c: Codec, a: seq<Effect>, b: seq<Effect>)
    requires NoticesInOrder(c, a) && NoticesInOrder(c, b)
    ensures NoticesInOrder(c, a + b)
  {
    hide Frame;
    forall k: nat ensures NoticeAt(c, a + b, k) && PublicationAt(a + b, k) {
      if k < |a| {
        assert NoticeAt(c, a, k) && PublicationAt(a, k);
      } else {
        assert NoticeAt(c, b, k - |a|) && PublicationAt(b, k - |a|);
      }
    }
  }

  lemma ForwardNotices(c: Codec, m: Message, header: Bytes, queue: seq<Bytes>, incoming: seq<seq<Bytes>>)
    ensures NoticesInOrder(c, ForwardEvent(c, m, header, queue, incoming).log)
  {
    if c.Valid() {
      OwnRequestSays(c, "threads", m);
    }
    hide Wait, Frame, Requests;
  }

  lemma InitNotices(c: Codec, header: Bytes, queue: seq<Bytes>, incoming: seq<seq<Bytes>>)
    ensures NoticesInOrder(c, InitSequence(c, header, queue, incoming).log)
  {
    WaitFinds(Initialized(c), queue, incoming);
    hide Wait, Frame;
    assert |"initialized"| != |"stopped"|;
  }

  lemma {:induction false} DrainNotices(c: Codec, header: Bytes, queue: seq<Bytes>, incoming: seq<seq<Bytes>>)
    ensures NoticesInOrder(c, Drain(c, header, queue, incoming).log)
    decreases |queue| + |Concat(incoming)|
  {
    if queue != [] {
      var m := c.parse(queue[0]);
      if m.kind.Event? {
        WaitShrinks(ThreadsReply(c), queue, incoming);
        ForwardNotices(c, m, header, queue, incoming);
        var handled := ForwardEvent(c, m, header, queue, incoming);
        if handled.Done? && handled.queue != [] {
          DrainNotices(c, header, handled.queue[1..], handled.incoming);
          NoticesAppend(c, handled.log, Drain(c, header, handled.queue[1..], handled.incoming).log);
        }
      } else {
        DrainNotices(c, header, queue[1..], incoming);
        NoticesAppend(c, [Replied(queue[0])], Drain(c, header, queue[1..], incoming).log);
      }
    }
  }

  lemma PlainEffect(c: Codec, log: seq<Effect>, e: Effect)
    requires NoticesInOrder(c, log) && !e.Notified? && !e.Published?
    ensures NoticesInOrder(c, log + [e])
  {
    NoticesAppend(c, log, [e]);
  }

  lemma ReadyNotices(c: Codec, s: Loop, poll: Poll)
    requires s.Live? && NoticesInOrder(c, s.log)
    ensures NoticesInOrder(c, Ready(c, s, poll).log)
  {
    hide NoticesInOrder, InitSequence;
    var s1 := if poll.header then TakeHeader(s) else s;
    if poll.header && s1.Live? {
      PlainEffect(c, s.log, HeaderTaken(s1.header));
    }
    if s1.Live? && poll.control && s1.requestsIn != [] {
      var raw := s1.requestsIn[0];
      var taken := s1.log + [RequestTaken(raw)];
      PlainEffect(c, s1.log, RequestTaken(raw));
      PlainEffect(c, taken, Sent(raw));
      InitNotices(c, s1.header, s1.queue, s1.incoming);
      NoticesAppend(c, taken + [Sent(raw)], InitSequence(c, s1.header, s1.queue, s1.incoming).log);
    }
  }

  /** In every run the front end is told of each event once, right before it is published, and no event is
      published without; the thread list is there exactly for the events that stop all threads, and the
      client has asked for it just before. */
  lemma {:induction false} RunNotices(c: Codec, s: Loop, polls: seq<Poll>)
    requires NoticesInOrder(c, s.log)
    ensures NoticesInOrder(c, Run(c, s, polls).log)
    decreases |polls|
  {
    if polls != [] && s.Live? && !s.stop {
      var ready := Ready(c, s, polls[0]);
      ReadyNotices(c, s, polls[0]);
      hide NoticesInOrder, Ready;
      if ready.Live? {
        DrainNotices(c, ready.header, ready.queue, ready.incoming);
        NoticesAppend(c, ready.log, Drain(c, ready.header, ready.queue, ready.incoming).log);
      }
      RunNotices(c, Round(c, s, polls[0]), polls[1..]);
    }
  }
}
