/** What the debug client's loop does with messages, the big steps of the debug system do with the items they
    stand for; and these steps are runs. */
module DebugSystemAgreement {
  import opened Basics
  import opened Selection
  import opened DebugSystem
  import opened DebugSystemSafety
  import opened DebugSystemRefinement
  import opened DebugSystemRounds
  import Framing

  // ---------------------------------------------------------------- logs

  /** The texts of the numbered headers and requests of the system. */
  datatype Texts = Texts(headers: nat -> Bytes, requests: nat -> Bytes) {
    function Parent(parent: Option<nat>): Bytes { if parent.Some? then headers(parent.value) else "" }
  }

  /** The command of the request in a frame. */
  predicate Asks(c: P.Codec, raw: Bytes, command: string) {
    P.Payload(raw).Some? && c.parse(P.Payload(raw).value).command == Some(command)
  }

  /** An effect of the client and an observation of the system are the same. */
  predicate SameObservation(c: P.Codec, texts: Texts, e: P.Effect, o: Observation) {
    match o
    case HeaderTaken(n) => e == P.HeaderTaken(texts.headers(n))
    case RequestTaken(n, _, command) => e == P.RequestTaken(texts.requests(n)) && Asks(c, texts.requests(n), command)
    case Answered(item) => e.Replied? && Same(c, e.raw, item)
    case Published(parent) => e.Published? && e.parent == texts.Parent(parent)
  }

  /** What the client does on its header, controller and publisher sockets. */
  function OnSockets(): P.Effect -> bool { (e: P.Effect) => !e.Sent? && !e.Notified? }

  /** The log of the system has grown by what these effects show on the sockets. */
  ghost predicate LogAlike(c: P.Codec, texts: Texts, effects: seq<P.Effect>, before: seq<Observation>,
                           after: seq<Observation>)
  {
    var shown := Filter(OnSockets(), effects);
    && before <= after && |after| == |before| + |shown|
    && forall i :: 0 <= i < |shown| ==> SameObservation(c, texts, shown[i], after[|before| + i])
  }

  lemma LogAlikeAppend(c: P.Codec, texts: Texts, a: seq<P.Effect>, b: seq<P.Effect>,
                       before: seq<Observation>, middle: seq<Observation>, after: seq<Observation>)
    requires LogAlike(c, texts, a, before, middle) && LogAlike(c, texts, b, middle, after)
    ensures LogAlike(c, texts, a + b, before, after)
  {
    FilterAppend(OnSockets(), a, b);
    hide Filter, SameObservation;
    var shown, first := Filter(OnSockets(), a + b), Filter(OnSockets(), a);
    forall i | 0 <= i < |shown| ensures SameObservation(c, texts, shown[i], after[|before| + i]) {
      if i < |first| {
        assert after[|before| + i] == middle[|before| + i];
      } else {
        assert shown[i] == Filter(OnSockets(), b)[i - |first|];
      }
    }
  }

  lemma LogAlikeOne(c: P.Codec, texts: Texts, e: P.Effect, log: seq<Observation>, o: Observation)
    requires OnSockets()(e) ==> SameObservation(c, texts, e, o)
    ensures OnSockets()(e) ==> LogAlike(c, texts, [e], log, log + [o])
    ensures !OnSockets()(e) ==> LogAlike(c, texts, [e], log, log)
  {
    assert Filter(OnSockets(), [e]) == (if OnSockets()(e) then [e] else []) + Filter(OnSockets(), []);
    hide SameObservation;
  }

  lemma LogAlikeNothing(c: P.Codec, texts: Texts, log: seq<Observation>)
    ensures LogAlike(c, texts, [], log, log)
  {}

  /** Unseen effects followed by a publication. */
  lemma LogAlikePublished(c: P.Codec, texts: Texts, before: seq<P.Effect>, header: Bytes, m: P.Message,
                          log: seq<Observation>, parent: Option<nat>)
    requires header == texts.Parent(parent) && forall e :: e in before ==> !OnSockets()(e)
    ensures LogAlike(c, texts, before + [P.Published(header, m)], log, log + [Published(parent)])
  {
    FilterNone(OnSockets(), before);
    assert LogAlike(c, texts, before, log, log);
    LogAlikeOne(c, texts, P.Published(header, m), log, Published(parent));
    LogAlikeAppend(c, texts, before, [P.Published(header, m)], log, log, log + [Published(parent)]);
  }

  /** The fields of the loop that a round leaves alone once its sockets are served. */
  predicate SameFields(a: State, b: State) {
    a.parent == b.parent && a.waitAttach == b.waitAttach && a.headerIn == b.headerIn && a.requestIn == b.requestIn
  }

  lemma MirrorsRest(c: P.Codec, raws: seq<Bytes>, items: seq<Item>)
    requires Mirrors(c, raws, items) && raws != []
    ensures items != [] && Same(c, raws[0], items[0]) && Mirrors(c, raws[1..], items[1..])
  {
    hide Same;
  }

  // ---------------------------------------------------------------- draining

  /** An event that stops all threads, with the wait it begins. */
  lemma StopAlike(c: P.Codec, texts: Texts, x: Point, queue: seq<Bytes>, incoming: seq<seq<Bytes>>)
    requires Mirrors(c, queue, x.s.queue) && AllMirror(c, incoming, x.supply) && queue != []
    requires x.s.pc == SERVED && Loaded(x.s, x.supply) && x.s.queue[0] == Plain(true) && StepFront(x).Went?
    ensures var y, m := StepFront(x).to, c.parse(queue[0]);
            var done := P.ForwardEvent(c, m, texts.Parent(x.s.parent), queue, incoming);
            && done.Done? && done.queue != []
            && Mirrors(c, done.queue[1..], y.s.queue) && AllMirror(c, done.incoming, y.supply)
            && LogAlike(c, texts, done.log, x.s.log, y.s.log)
            && y.s.stop == x.s.stop && SameFields(x.s, y.s)
  {
    var m, header := c.parse(queue[0]), texts.Parent(x.s.parent);
    var next := HandleFrontNext(x.s);
    MirrorsRest(c, queue, x.s.queue);
    SameLoad(x.s, next, x.supply);
    var fed := StepWaitGives(Point(next, x.supply));
    WaitAlike(c, ForThreads, queue, x.s.queue, incoming, x.supply);
    assert Awaiting(c, ForThreads) == P.ThreadsReply(c);
    var w := Selection.Wait(P.ThreadsReply(c), queue, incoming);
    var w' := Selection.Wait(Condition(ForThreads), x.s.queue, x.supply);
    hide Selection.Wait, Framing.Frame, StepWait, Mirrors, AllMirror, LogAlike, Condition, Awaiting, Loaded;
    assert w'.queue != [];
    var before := [P.Sent(Framing.Frame(c.dump(P.OwnRequest("threads", m)))),
                   P.Notified(m, Some(c.parse(w.message).threads))];
    LogAlikePublished(c, texts, before, header, m, x.s.log, x.s.parent);
    assert P.ForwardEvent(c, m, header, queue, incoming).log == before + [P.Published(header, m)];
    NotEmpty(c, w.queue, w'.queue);
    MirrorsRest(c, w.queue, w'.queue);
  }

  lemma NotEmpty(c: P.Codec, raws: seq<Bytes>, items: seq<Item>)
    requires Mirrors(c, raws, items)
    ensures raws == [] <==> items == []
  {}

  /** Any other event. */
  lemma EventAlike(c: P.Codec, texts: Texts, x: Point, queue: seq<Bytes>, incoming: seq<seq<Bytes>>)
    requires Mirrors(c, queue, x.s.queue) && queue != []
    requires x.s.pc == SERVED && Loaded(x.s, x.supply) && x.s.queue[0] != Plain(true) && !x.s.queue[0].Reply?
    ensures var m := c.parse(queue[0]);
            var done := P.ForwardEvent(c, m, texts.Parent(x.s.parent), queue, incoming);
            && m.kind.Event? && done.Done? && done.queue == queue && done.incoming == incoming
            && StepFront(x) == Went(x.(s := x.s.(queue := x.s.queue[1..], log := x.s.log + [Published(x.s.parent)])))
            && LogAlike(c, texts, done.log, x.s.log, x.s.log + [Published(x.s.parent)])
  {
    var m, header := c.parse(queue[0]), texts.Parent(x.s.parent);
    MirrorsRest(c, queue, x.s.queue);
    assert |"initialized"| != |"stopped"|;
    assert !P.StopsAllThreads(m);
    hide Selection.Wait, StepWait, Mirrors, LogAlike, P.StopsAllThreads;
    LogAlikePublished(c, texts, [P.Notified(m, None)], header, m, x.s.log, x.s.parent);
    assert [P.Notified(m, None)] + [P.Published(header, m)] == [P.Notified(m, None), P.Published(header, m)];
  }

  /** A response. */
  lemma ResponseAlike(c: P.Codec, texts: Texts, x: Point, queue: seq<Bytes>)
    requires Mirrors(c, queue, x.s.queue) && queue != []
    requires x.s.pc == SERVED && Loaded(x.s, x.supply) && x.s.queue[0].Reply? && StepFront(x).Went?
    ensures var y, m := StepFront(x).to, c.parse(queue[0]);
            && !m.kind.Event? && y.s.queue == x.s.queue[1..] && y.supply == x.supply && SameFields(x.s, y.s)
            && LogAlike(c, texts, [P.Replied(queue[0])], x.s.log, y.s.log)
            && y.s.stop == (x.s.stop || m.command == Some("disconnect"))
  {
    MirrorsRest(c, queue, x.s.queue);
    LogAlikeOne(c, texts, P.Replied(queue[0]), x.s.log, Answered(x.s.queue[0]));
    hide StepWait, Mirrors, LogAlike;
  }

  ghost predicate DrainedAlike(c: P.Codec, texts: Texts, x: Point, d: P.Drained, y: Point) {
    && d.Drained? && AllMirror(c, d.incoming, y.supply) && y.s.queue == []
    && LogAlike(c, texts, d.log, x.s.log, y.s.log)
    && y.s.stop == (x.s.stop || d.stop) && SameFields(x.s, y.s)
  }

  lemma DrainedAfter(c: P.Codec, texts: Texts, x: Point, middle: Point, d: P.Drained, y: Point,
                     effects: seq<P.Effect>, disconnect: bool)
    requires DrainedAlike(c, texts, middle, d, y) && LogAlike(c, texts, effects, x.s.log, middle.s.log)
    requires middle.s.stop == (x.s.stop || disconnect) && SameFields(x.s, middle.s)
    ensures DrainedAlike(c, texts, x, d.After(effects, disconnect), y)
  {
    LogAlikeAppend(c, texts, effects, d.log, x.s.log, middle.s.log, y.s.log);
    hide LogAlike, AllMirror;
  }

  /** The client's drain and the system's. */
  lemma {:induction false} DrainAlike(c: P.Codec, texts: Texts, x: Point, queue: seq<Bytes>, incoming: seq<seq<Bytes>>)
    requires Mirrors(c, queue, x.s.queue) && AllMirror(c, incoming, x.supply)
    requires x.s.pc == SERVED && Loaded(x.s, x.supply) && StepDrain(x).Went?
    ensures DrainedAlike(c, texts, x, P.Drain(c, texts.Parent(x.s.parent), queue, incoming), StepDrain(x).to)
    decreases Size(x)
  {
    NotEmpty(c, queue, x.s.queue);
    if queue == [] {
      LogAlikeNothing(c, texts, x.s.log);
      hide AllMirror, LogAlike;
    } else {
      StepFrontShrinks(x);
      FrontAndRest(c, texts, x, queue, incoming);
    }
  }

  lemma {:induction false} FrontAndRest(c: P.Codec, texts: Texts, x: Point, queue: seq<Bytes>,
                                        incoming: seq<seq<Bytes>>)
    requires Mirrors(c, queue, x.s.queue) && AllMirror(c, incoming, x.supply) && queue != [] && x.s.queue != []
    requires x.s.pc == SERVED && Loaded(x.s, x.supply) && StepDrain(x).Went?
    ensures DrainedAlike(c, texts, x, P.Drain(c, texts.Parent(x.s.parent), queue, incoming), StepDrain(x).to)
    decreases Size(x), 0
  {
    var m, header := c.parse(queue[0]), texts.Parent(x.s.parent);
    var middle := StepFront(x).to;
    hide Mirrors, AllMirror, LogAlike, DrainedAlike, StepFront, SameFields, Loaded;
    StepFrontShrinks(x);
    WaitShrinks(P.ThreadsReply(c), queue, incoming);
    hide Selection.Wait;
    if x.s.queue[0] == Plain(true) {
      StopAlike(c, texts, x, queue, incoming);
      StopIsEvent(c, x, queue);
      var done := P.ForwardEvent(c, m, header, queue, incoming);
      DrainAlike(c, texts, middle, done.queue[1..], done.incoming);
      ParentKept(x, middle);
      DrainedAfter(c, texts, x, middle, P.Drain(c, header, done.queue[1..], done.incoming), StepDrain(middle).to,
                   done.log, false);
    } else {
      MirrorsRest(c, queue, x.s.queue);
      if !x.s.queue[0].Reply? {
        EventAlike(c, texts, x, queue, incoming);
        FieldsKept(x.s, x.s.queue[1..], x.s.log + [Published(x.s.parent)]);
        DrainAlike(c, texts, middle, queue[1..], incoming);
        ParentKept(x, middle);
        var done := P.ForwardEvent(c, m, header, queue, incoming);
        DrainedAfter(c, texts, x, middle, P.Drain(c, header, queue[1..], incoming), StepDrain(middle).to,
                     done.log, false);
      } else {
        ResponseAlike(c, texts, x, queue);
        DrainAlike(c, texts, middle, queue[1..], incoming);
        ParentKept(x, middle);
        DrainedAfter(c, texts, x, middle, P.Drain(c, header, queue[1..], incoming), StepDrain(middle).to,
                     [P.Replied(queue[0])], m.command == Some("disconnect"));
      }
    }
  }

  lemma FieldsKept(s: State, queue: seq<Item>, log: seq<Observation>)
    ensures SameFields(s, s.(queue := queue, log := log))
  {}

  lemma StopIsEvent(c: P.Codec, x: Point, queue: seq<Bytes>)
    requires Mirrors(c, queue, x.s.queue) && queue != [] && x.s.queue[0] == Plain(true)
    ensures c.parse(queue[0]).kind.Event?
  {}

  lemma ParentKept(x: Point, y: Point)
    requires SameFields(x.s, y.s)
    ensures x.s.parent == y.s.parent
  {}

  // ---------------------------------------------------------------- serving the sockets

  /** The client's loop and the system's stand at the same point. */
  ghost predicate Alike(c: P.Codec, texts: Texts, l: L.Loop, x: Point) {
    && l.Live? && Mirrors(c, l.queue, x.s.queue) && AllMirror(c, l.incoming, x.supply)
    && l.header == texts.Parent(x.s.parent) && l.waitAttach == x.s.waitAttach && l.stop == x.s.stop
  }

  /** They are so again after a step, with the same on their sockets in between. */
  ghost predicate StillAlike(c: P.Codec, texts: Texts, l: L.Loop, x: Point, l': L.Loop, y: Point) {
    && Alike(c, texts, l', y) && l.Live?
    && exists effects :: l'.log == l.log + effects && LogAlike(c, texts, effects, x.s.log, y.s.log)
  }

  lemma StillAlikeBy(c: P.Codec, texts: Texts, l: L.Loop, x: Point, l': L.Loop, y: Point, effects: seq<P.Effect>)
    requires l.Live? && Alike(c, texts, l', y) && l'.log == l.log + effects
             && LogAlike(c, texts, effects, x.s.log, y.s.log)
    ensures StillAlike(c, texts, l, x, l', y)
  {}

  lemma StillAlikeFurther(c: P.Codec, texts: Texts, l: L.Loop, x: Point, l1: L.Loop, x1: Point, l2: L.Loop, x2: Point)
    requires StillAlike(c, texts, l, x, l1, x1) && StillAlike(c, texts, l1, x1, l2, x2)
    ensures StillAlike(c, texts, l, x, l2, x2)
  {
    hide Alike, LogAlike;
    var a :| l1.log == l.log + a && LogAlike(c, texts, a, x.s.log, x1.s.log);
    var b :| l2.log == l1.log + b && LogAlike(c, texts, b, x1.s.log, x2.s.log);
    LogAlikeAppend(c, texts, a, b, x.s.log, x1.s.log, x2.s.log);
    Associative(l.log, a, b);
  }

  lemma HeaderAlike(c: P.Codec, texts: Texts, l: L.Loop, x: Point)
    requires Alike(c, texts, l, x) && x.s.pc.Serving? && x.s.pc.header && x.s.headerIn.Some?
    requires l.headersIn != [] && l.headersIn[0] == texts.headers(x.s.headerIn.value)
    ensures StepHeader(x).Went? && StillAlike(c, texts, l, x, L.TakeHeader(l), StepHeader(x).to)
  {
    hide Mirrors, AllMirror, LogAlike;
    LogAlikeOne(c, texts, P.HeaderTaken(l.headersIn[0]), x.s.log, HeaderTaken(x.s.headerIn.value));
    StillAlikeBy(c, texts, l, x, L.TakeHeader(l), StepHeader(x).to, [P.HeaderTaken(l.headersIn[0])]);
  }

  /** The next request of the client is the one the system has been sent. */
  predicate SameRequest(c: P.Codec, texts: Texts, l: L.Loop, s: State) {
    && l.Live? && l.requestsIn != [] && s.requestIn.Some? && l.requestsIn[0] == texts.requests(s.requestIn.value)
    && Asks(c, l.requestsIn[0], s.command)
  }

  lemma RequestLog(c: P.Codec, texts: Texts, raw: Bytes, n: nat, s: State, log: seq<Observation>)
    requires raw == texts.requests(n) && Asks(c, raw, s.command)
    ensures LogAlike(c, texts, [P.RequestTaken(raw)] + [P.Sent(raw)], log,
                     log + [RequestTaken(n, s.header, s.command)])
  {
    var taken := RequestTaken(n, s.header, s.command);
    LogAlikeOne(c, texts, P.RequestTaken(raw), log, taken);
    LogAlikeOne(c, texts, P.Sent(raw), log + [taken], taken);
    LogAlikeAppend(c, texts, [P.RequestTaken(raw)], [P.Sent(raw)], log, log + [taken], log + [taken]);
  }

  /** A request that begins no handshake. */
  lemma PlainRequestAlike(c: P.Codec, texts: Texts, l: L.Loop, x: Point)
    requires Alike(c, texts, l, x) && SameRequest(c, texts, l, x.s) && x.s.pc.Serving? && !x.s.pc.header
             && x.s.pc.control
    requires StepControl(x).Went? && !(x.s.waitAttach && x.s.command == "attach")
    ensures StillAlike(c, texts, l, x, L.TakeRequest(c, l), StepControl(x).to)
  {
    hide Mirrors, AllMirror, LogAlike, StepWait, P.InitSequence, P.Payload;
    var raw := l.requestsIn[0];
    RequestLog(c, texts, raw, x.s.requestIn.value, x.s, x.s.log);
    assert l.log + [P.RequestTaken(raw)] + [P.Sent(raw)] == l.log + ([P.RequestTaken(raw)] + [P.Sent(raw)]);
    StillAlikeBy(c, texts, l, x, L.TakeRequest(c, l), StepControl(x).to, [P.RequestTaken(raw)] + [P.Sent(raw)]);
  }

  /** One wait of the handshake: what is found, left and still to come agrees, and the loop goes on. */
  lemma OneWaitAlike(c: P.Codec, x: Point, queue: seq<Bytes>, incoming: seq<seq<Bytes>>)
      returns (fed: State, found: Item)
    requires Mirrors(c, queue, x.s.queue) && AllMirror(c, incoming, x.supply)
    requires x.s.pc.Waiting? && !x.s.pc.what.ForThreads? && StepWait(x).Went?
    ensures var w, y := Selection.Wait(Awaiting(c, x.s.pc.what), queue, incoming), StepWait(x).to;
            && w.Found? && Same(c, w.message, found) && Mirrors(c, w.queue, y.s.queue)
                && AllMirror(c, w.incoming, y.supply)
            && fed == x.s.(owed := fed.owed, wire := fed.wire) && y.s == Resume(fed, x.s.pc.what, found, y.s.queue)
            && y.s.pc != Failed
  {
    hide Mirrors, AllMirror, StepWait, Selection.Wait, Condition, Awaiting, Same, Resume;
    WaitAlike(c, x.s.pc.what, queue, x.s.queue, incoming, x.supply);
    fed := StepWaitGives(x);
    var w := Selection.Wait(Condition(x.s.pc.what), x.s.queue, x.supply);
    found := w.message;
    ResumeQueue(fed, x.s.pc.what, found, w.queue);
  }

  lemma ResumeQueue(s: State, what: Awaited, found: Item, queue: seq<Item>)
    requires !what.ForThreads? && Resume(s, what, found, queue).pc != Failed
    ensures Resume(s, what, found, queue).queue == queue
  {}

  /** The three waits of the handshake. */
  lemma HandshakeAlike(c: P.Codec, texts: Texts, x: Point, tcp: bool, queue: seq<Bytes>, incoming: seq<seq<Bytes>>)
    requires c.Valid() && Mirrors(c, queue, x.s.queue) && AllMirror(c, incoming, x.supply)
    requires x.s.pc == Waiting(ForInitialized(tcp), false)
    ensures var end := StepOn(StepOn(StepOn(Went(x))));
            var done := P.InitSequence(c, texts.Parent(x.s.parent), queue, incoming);
            end.Went? ==>
              var y := end.to;
              && done.Done? && Mirrors(c, done.queue, y.s.queue) && AllMirror(c, done.incoming, y.supply)
              && LogAlike(c, texts, done.log, x.s.log, y.s.log)
              && y.s.pc == Serving(false, false, tcp) && !y.s.waitAttach
              && y.s.stop == x.s.stop && y.s.parent == x.s.parent
  {
    hide Mirrors, AllMirror, LogAlike, StepWait, Framing.Frame, Condition, Selection.Wait, Same;
    if !StepOn(StepOn(StepOn(Went(x)))).Went? {
      return;
    }
    var w1 := Selection.Wait(P.Initialized(c), queue, incoming);
    var fed1, found1 := OneWaitAlike(c, x, queue, incoming);
    var y1 := StepWait(x).to;
    var w2 := Selection.Wait(P.ConfigurationDone(c), w1.queue, w1.incoming);
    var fed2, found2 := OneWaitAlike(c, y1, w1.queue, w1.incoming);
    var y2 := StepWait(y1).to;
    var w3 := Selection.Wait(P.AttachResponse(c), w2.queue, w2.incoming);
    var fed3, found3 := OneWaitAlike(c, y2, w2.queue, w2.incoming);
    HandshakeLog(c, texts, c.parse(w1.message), w3.message, found3, x.s.log, x.s.parent);
    assert StepOn(StepOn(StepOn(Went(x)))).to.s.log == x.s.log + [Published(x.s.parent), Answered(found3)];
    assert P.InitSequence(c, texts.Parent(x.s.parent), queue, incoming).log ==
           [P.Sent(Framing.Frame(c.dump(P.OwnRequest("configurationDone", c.parse(w1.message))))),
            P.Notified(c.parse(w1.message), None), P.Published(texts.Parent(x.s.parent), c.parse(w1.message)),
            P.Replied(c.dump(c.parse(w3.message)))];
  }

  lemma HandshakeLog(c: P.Codec, texts: Texts, event: P.Message, attach: Bytes, found: Item, log: seq<Observation>,
                     parent: Option<nat>)
    requires c.Valid() && Same(c, attach, found)
    ensures LogAlike(c, texts, [P.Sent(Framing.Frame(c.dump(P.OwnRequest("configurationDone", event)))),
                                P.Notified(event, None),
                                P.Published(texts.Parent(parent), event), P.Replied(c.dump(c.parse(attach)))],
                     log, log + [Published(parent), Answered(found)])
  {
    var before := [P.Sent(Framing.Frame(c.dump(P.OwnRequest("configurationDone", event)))), P.Notified(event, None)];
    var replied := P.Replied(c.dump(c.parse(attach)));
    LogAlikePublished(c, texts, before, texts.Parent(parent), event, log, parent);
    LogAlikeOne(c, texts, replied, log + [Published(parent)], Answered(found));
    hide LogAlike;
    LogAlikeAppend(c, texts, before + [P.Published(texts.Parent(parent), event)], [replied],
                   log, log + [Published(parent)], log + [Published(parent)] + [Answered(found)]);
    assert log + [Published(parent)] + [Answered(found)] == log + [Published(parent), Answered(found)];
    assert before + [P.Published(texts.Parent(parent), event)] + [replied] ==
           [before[0], P.Notified(event, None), P.Published(texts.Parent(parent), event), replied];
  }

  /** What the client does with the request that begins the handshake. */
  lemma ClientTakesAttach(c: P.Codec, l: L.Loop)
    requires l.Live? && l.waitAttach && l.requestsIn != [] && P.Payload(l.requestsIn[0]).Some?
    requires c.parse(P.Payload(l.requestsIn[0]).value).command == Some("attach")
    requires P.InitSequence(c, l.header, l.queue, l.incoming).Done?
    ensures var after, done := L.TakeRequest(c, l), P.InitSequence(c, l.header, l.queue, l.incoming);
            var taken := [P.RequestTaken(l.requestsIn[0])] + [P.Sent(l.requestsIn[0])];
            && after.Live? && after.log == l.log + (taken + done.log) && after.queue == done.queue && after.header
                == l.header
            && after.incoming == done.incoming && !after.waitAttach && after.stop == l.stop
  {
    hide P.InitSequence, P.Payload;
    var raw, done := l.requestsIn[0], P.InitSequence(c, l.header, l.queue, l.incoming);
    assert (l.log + [P.RequestTaken(raw)] + [P.Sent(raw)]) + done.log == l.log
        + ([P.RequestTaken(raw)] + [P.Sent(raw)] + done.log);
  }

  /** What the system does with it. */
  lemma SystemTakesAttach(x: Point) returns (next: Point)
    requires x.s.pc.Serving? && !x.s.pc.header && x.s.pc.control && x.s.waitAttach && x.s.command == "attach"
    ensures StepControl(x).Went? ==>
      && StepControl(x) == StepOn(StepOn(StepOn(Went(next)))) && next.supply == x.supply
      && x.s.requestIn.Some? && next.s.pc == Waiting(ForInitialized(x.s.pc.tcp), false)
      && next.s.log == x.s.log + [RequestTaken(x.s.requestIn.value, x.s.header, x.s.command)]
      && next.s.queue == x.s.queue && next.s.parent == x.s.parent && next.s.stop == x.s.stop
  {
    next := x.(s := ServeControlNext(x.s));
    hide StepOn;
  }

  /** The request that begins the handshake. */
  lemma AttachAlike(c: P.Codec, texts: Texts, l: L.Loop, x: Point)
    requires c.Valid() && Alike(c, texts, l, x) && SameRequest(c, texts, l, x.s)
    requires x.s.pc.Serving? && !x.s.pc.header && x.s.pc.control && x.s.waitAttach && x.s.command == "attach"
    ensures StepControl(x).Went? ==> StillAlike(c, texts, l, x, L.TakeRequest(c, l), StepControl(x).to)
  {
    hide Mirrors, AllMirror, LogAlike, StillAlike, StepControl, StepOn, P.InitSequence, P.Payload, L.TakeRequest;
    if !StepControl(x).Went? {
      return;
    }
    var raw := l.requestsIn[0];
    var next := SystemTakesAttach(x);
    RequestLog(c, texts, raw, x.s.requestIn.value, x.s, x.s.log);
    HandshakeAlike(c, texts, next, x.s.pc.tcp, l.queue, l.incoming);
    ClientTakesAttach(c, l);
    var done := P.InitSequence(c, l.header, l.queue, l.incoming);
    var taken := [P.RequestTaken(raw)] + [P.Sent(raw)];
    LogAlikeAppend(c, texts, taken, done.log, x.s.log, next.s.log, StepControl(x).to.s.log);
    StillAlikeBy(c, texts, l, x, L.TakeRequest(c, l), StepControl(x).to, taken + done.log);
  }

  lemma FeedAlike(c: P.Codec, texts: Texts, l: L.Loop, x: Point)
    requires Alike(c, texts, l, x) && x.Valid() && Feed(x).Went?
    ensures Alike(c, texts, l, Feed(x).to) && Feed(x).to.s.log == x.s.log
    ensures l.incoming != [] && Mirrors(c, l.incoming[0], Feed(x).to.s.wire)
  {
    hide Mirrors, OwedAfter;
    assert |l.incoming| == |x.supply|;
  }

  lemma BatchAlike(c: P.Codec, texts: Texts, l: L.Loop, x: Point)
    requires Alike(c, texts, l, x) && x.Valid() && x.s.pc.Serving? && x.s.pc.tcp && StepTcp(x).Went?
    ensures l.incoming != [] && StillAlike(c, texts, l, x, L.TakeBatch(l), StepTcp(x).to)
  {
    FeedAlike(c, texts, l, x);
    var fed := Feed(x).to;
    FeedRuns(x);
    AllMirrorFirst(c, l.incoming, x.supply);
    MirrorsAppend(c, l.queue, fed.s.queue, l.incoming[0], fed.s.wire);
    LogAlikeNothing(c, texts, x.s.log);
    hide Mirrors, AllMirror, LogAlike, Feed;
    assert l.log + [] == l.log;
    StillAlikeBy(c, texts, l, x, L.TakeBatch(l), StepTcp(x).to, []);
  }

  // ---------------------------------------------------------------- a round

  /** What the poll reports is the same for both: the next header, and the next request. */
  predicate SamePolled(c: P.Codec, texts: Texts, l: L.Loop, s: State, poll: L.Poll) {
    && l.Live?
    && (poll.header ==> s.headerIn.Some? && l.headersIn != [] && l.headersIn[0] == texts.headers(s.headerIn.value))
    && (poll.control ==> SameRequest(c, texts, l, s))
  }

  lemma StaysAlike(c: P.Codec, texts: Texts, l: L.Loop, x: Point)
    requires Alike(c, texts, l, x)
    ensures StillAlike(c, texts, l, x, l, x)
  {
    LogAlikeNothing(c, texts, x.s.log);
    assert l.log + [] == l.log;
    StillAlikeBy(c, texts, l, x, l, x, []);
    hide Alike, LogAlike;
  }

  lemma PollAlike(c: P.Codec, texts: Texts, l: L.Loop, x: Point, poll: L.Poll)
    requires Alike(c, texts, l, x) && x.Valid() && StepPoll(x, poll).Went?
    ensures var y := StepPoll(x, poll).to;
            && StillAlike(c, texts, l, x, l, y) && y.s.pc == Serving(poll.header, poll.control, poll.tcp)
            && y.s.headerIn == x.s.headerIn && y.s.requestIn == x.s.requestIn && y.s.command == x.s.command
  {
    if poll.tcp {
      FeedAlike(c, texts, l, x);
      FeedRuns(x);
    }
    LogAlikeNothing(c, texts, x.s.log);
    hide Mirrors, AllMirror, LogAlike, Feed;
    assert l.log + [] == l.log;
    StillAlikeBy(c, texts, l, x, l, StepPoll(x, poll).to, []);
  }

  lemma ControlAlike(c: P.Codec, texts: Texts, l: L.Loop, x: Point)
    requires c.Valid() && Alike(c, texts, l, x) && SameRequest(c, texts, l, x.s)
    requires x.s.pc.Serving? && !x.s.pc.header && x.s.pc.control && StepControl(x).Went?
    ensures StillAlike(c, texts, l, x, L.TakeRequest(c, l), StepControl(x).to)
  {
    if x.s.waitAttach && x.s.command == "attach" {
      AttachAlike(c, texts, l, x);
    } else {
      PlainRequestAlike(c, texts, l, x);
    }
  }

  lemma AlikeAgain(c: P.Codec, texts: Texts, l: L.Loop, x: Point, l': L.Loop, y: Point)
    requires StillAlike(c, texts, l, x, l', y)
    ensures Alike(c, texts, l', y) && l'.Live?
  {
    hide Mirrors, AllMirror;
  }

  /** Header, request and batch, in this order. */
  lemma ReadyAlike(c: P.Codec, texts: Texts, l: L.Loop, x: Point, poll: L.Poll)
    requires c.Valid() && Alike(c, texts, l, x) && x.Valid() && x.s.pc == Polling && SamePolled(c, texts, l, x.s, poll)
    requires StepReady(x, poll).Went?
    ensures StillAlike(c, texts, l, x, L.Ready(c, l, poll), StepReady(x, poll).to)
  {
    hide Alike, StillAlike, LogAlike, L.TakeRequest, StepControl, StepTcp, SameRequest;
    var x1 := StepPoll(x, poll).to;
    PollAlike(c, texts, l, x, poll);
    AlikeAgain(c, texts, l, x, l, x1);
    StepPollRuns(x, poll);
    HeaderServed(c, texts, l, x1, poll);
    var l2, x2 := if poll.header then L.TakeHeader(l) else l, StepHeader(x1).to;
    AlikeAgain(c, texts, l, x1, l2, x2);
    StillAlikeFurther(c, texts, l, x, l, x1, l2, x2);
    StepHeaderRuns(x1);
    if poll.control {
      RequestUnchanged(c, texts, l, l2, x.s, x2.s);
    }
    ControlServed(c, texts, l2, x2, poll);
    var l3, x3 := if poll.control then L.TakeRequest(c, l2) else l2, StepControl(x2).to;
    AlikeAgain(c, texts, l2, x2, l3, x3);
    StillAlikeFurther(c, texts, l, x, l2, x2, l3, x3);
    StepControlRuns(x2);
    BatchServed(c, texts, l3, x3, poll);
    var l4 := if poll.tcp then L.TakeBatch(l3) else l3;
    StillAlikeFurther(c, texts, l, x, l3, x3, l4, StepReady(x, poll).to);
  }

  lemma RequestUnchanged(c: P.Codec, texts: Texts, l: L.Loop, l': L.Loop, s: State, s': State)
    requires SameRequest(c, texts, l, s) && l'.Live? && l'.requestsIn == l.requestsIn
    requires s'.requestIn == s.requestIn && s'.command == s.command
    ensures SameRequest(c, texts, l', s')
  {}

  lemma HeaderServed(c: P.Codec, texts: Texts, l: L.Loop, x: Point, poll: L.Poll)
    requires Alike(c, texts, l, x) && x.s.pc.Serving? && x.s.pc.header == poll.header && l.Live?
    requires poll.header ==>
               x.s.headerIn.Some? && l.headersIn != [] && l.headersIn[0] == texts.headers(x.s.headerIn.value)
    ensures StepHeader(x).Went?
    ensures StillAlike(c, texts, l, x, if poll.header then L.TakeHeader(l) else l, StepHeader(x).to)
    ensures StepHeader(x).to.s.requestIn == x.s.requestIn && StepHeader(x).to.s.command == x.s.command
  {
    if poll.header {
      HeaderAlike(c, texts, l, x);
    } else {
      StaysAlike(c, texts, l, x);
    }
    hide Alike, StillAlike;
  }

  lemma ControlServed(c: P.Codec, texts: Texts, l: L.Loop, x: Point, poll: L.Poll)
    requires c.Valid() && Alike(c, texts, l, x) && x.s.pc == Serving(false, poll.control, poll.tcp) && l.Live?
    requires poll.control ==> SameRequest(c, texts, l, x.s)
    requires StepControl(x).Went?
    ensures StillAlike(c, texts, l, x, if poll.control then L.TakeRequest(c, l) else l, StepControl(x).to)
  {
    hide Alike, StillAlike, SameRequest, L.TakeRequest;
    if poll.control {
      ControlAlike(c, texts, l, x);
    } else {
      StaysAlike(c, texts, l, x);
    }
  }

  lemma BatchServed(c: P.Codec, texts: Texts, l: L.Loop, x: Point, poll: L.Poll)
    requires Alike(c, texts, l, x) && x.Valid() && x.s.pc == Serving(false, false, poll.tcp) && l.Live?
    requires StepTcp(x).Went?
    ensures StillAlike(c, texts, l, x, if poll.tcp then L.TakeBatch(l) else l, StepTcp(x).to)
  {
    hide Alike, StillAlike;
    if poll.tcp {
      BatchAlike(c, texts, l, x);
    } else {
      StaysAlike(c, texts, l, x);
    }
  }

  /** A round of the debug client's loop is a run of the debug system. Let both stand at the same point, reached
      by the system, and let the round be fed. Then the system has a run after which it stands where the client
      stands after the round, and on the header, controller and publisher sockets both have done the same. */
  lemma RoundIsARun(c: P.Codec, texts: Texts, l: L.Loop, x: Point, poll: L.Poll)
    requires c.Valid() && Alike(c, texts, l, x) && x.Valid() && x.s.pc == Polling && SamePolled(c, texts, l, x.s, poll)
    requires Inv(x.s) && !StepRound(x, poll).Unfed?
    ensures StepRound(x, poll).Went?
    ensures var y := StepRound(x, poll).to;
            && StillAlike(c, texts, l, x, L.Round(c, l, poll), y)
            && Reaches(x.s, y.s) && y.Valid() && y.s.pc == Polling && Inv(y.s)
  {
    hide Alike, StillAlike, LogAlike, StepReady, StepDrain, Reaches, Inv;
    FedRoundGoesOn(x, poll);
    StepRoundRuns(x, poll);
    var ready := StepReady(x, poll).to;
    StepReadyRuns(x, poll);
    ReadyAlike(c, texts, l, x, poll);
    var l1 := L.Ready(c, l, poll);
    AlikeAgain(c, texts, l, x, l1, ready);
    RestOfRound(c, texts, l1, ready);
    var y := StepRound(x, poll).to;
    StillAlikeFurther(c, texts, l, x, l1, ready, L.Round(c, l, poll), y);
  }

  lemma RestOfRound(c: P.Codec, texts: Texts, l: L.Loop, x: Point)
    requires Alike(c, texts, l, x) && l.Live? && x.s.pc == SERVED && Loaded(x.s, x.supply) && StepDrain(x).Went?
    ensures var end := StepDrain(x).to;
            StillAlike(c, texts, l, x, L.DrainQueue(c, l), end.(s := end.s.(pc := Polling)))
  {
    hide LogAlike, P.Drain, StepDrain, AllMirror;
    DrainAlike(c, texts, x, l.queue, l.incoming);
    var end := StepDrain(x).to;
    var d := P.Drain(c, l.header, l.queue, l.incoming);
    StillAlikeBy(c, texts, l, x, L.DrainQueue(c, l), end.(s := end.s.(pc := Polling)), d.log);
  }
}
