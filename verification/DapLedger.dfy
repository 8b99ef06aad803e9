/** Nothing is lost: what a run of the debug client's event loop passes on and what is still to come always
    make up the same messages. */
module DapLedger {
  import opened Basics
  import opened Framing
  import opened Selection
  import opened DapProtocol
  import opened DapTheorems
  import opened DapLoop

  // ---------------------------------------------------------------- everything passed on once

  /** What has been passed on, followed by what is still to be passed on. */
  function Ledger(c: Codec, s: Loop): seq<Message>
    requires s.Live?
  {
    Handled(c, s.log) + Parsed(c, Kept(c, s.queue + Concat(s.incoming), 0))
  }

  /** The adapter keeps its side: its stream is orderly, and every all-threads stop gets a reply. */
  ghost predicate Sound(c: Codec, s: Loop)
    requires s.Live?
  {
    Orderly(c, s.queue, s.incoming) && Owing(c, s.queue + Concat(s.incoming), 0) == 0
  }

  /** The next request is one that begins the attach handshake. */
  predicate Attaches(c: Codec, s: Loop)
    requires s.Live?
  {
    && s.waitAttach && s.requestsIn != [] && Payload(s.requestsIn[0]).Some?
    && c.parse(Payload(s.requestsIn[0]).value).command == Some("attach")
  }

  /** The three messages of the handshake are still to come or queued, each once. */
  ghost predicate HandshakeAhead(c: Codec, arrivals: seq<Bytes>) {
    && |Filter(Initialized(c), arrivals)| == 1
    && |Filter(ConfigurationDone(c), arrivals)| == 1
    && |Filter(AttachResponse(c), arrivals)| == 1
  }

  /** What one round finds: the polls report only sockets that have something to deliver, also after the
      handshake; requests come in frames; and when the handshake begins, its messages are ahead. */
  ghost predicate Finds(c: Codec, s: Loop, poll: Poll)
    requires s.Live?
  {
    var s1 := if poll.header then TakeHeader(s) else s;
    var s2 := if poll.control && s1.Live? then TakeRequest(c, s1) else s1;
    && (poll.header ==> s.headersIn != [])
    && (poll.control ==> s.requestsIn != [] && Payload(s.requestsIn[0]).Some?)
    && (poll.control && Attaches(c, s) ==> HandshakeAhead(c, s.queue + Concat(s.incoming)))
    && (poll.tcp && s2.Live? ==> s2.incoming != [])
  }

  ghost predicate AllFound(c: Codec, s: Loop, polls: seq<Poll>)
    decreases |polls|
  {
    polls == [] || s.Halted? || s.stop || (Finds(c, s, polls[0]) && AllFound(c, Round(c, s, polls[0]), polls[1..]))
  }

  lemma HandledSilent(c: Codec, log: seq<Effect>, e: Effect)
    requires HandledBy(c, e) == []
    ensures Handled(c, log + [e]) == Handled(c, log)
  {
    HandledAppend(c, log, [e]);
    assert Handled(c, [e]) == [] + Handled(c, []);
  }

  // ---------------------------------------------------------------- the handshake and the ledger

  predicate OfHandshake(m: Message) {
    IsEvent(m, "initialized") || IsResponse(m, "configurationDone") || IsResponse(m, "attach")
  }

  function Others(): Message -> bool { (m: Message) => !OfHandshake(m) }

  lemma FilterCons<T>(p: T -> bool, x: T, rest: seq<T>)
    ensures Filter(p, [x] + rest) == if p(x) then [x] + Filter(p, rest) else Filter(p, rest)
  {
    assert ([x] + rest)[1..] == rest && [] + Filter(p, rest) == Filter(p, rest);
  }

  lemma {:induction false} FilterParsed(c: Codec, p: Bytes -> bool, q: Message -> bool, raws: seq<Bytes>)
    requires forall raw :: p(raw) == q(c.parse(raw))
    ensures Filter(q, Parsed(c, raws)) == Parsed(c, Filter(p, raws))
  {
    if raws != [] {
      FilterParsed(c, p, q, raws[1..]);
      FilterCons(p, raws[0], raws[1..]);
      FilterCons(q, c.parse(raws[0]), Parsed(c, raws[1..]));
      hide Filter, Parsed;
      assert raws == [raws[0]] + raws[1..];
      ParsedCons(c, raws[0], raws[1..]);
      ParsedCons(c, raws[0], Filter(p, raws[1..]));
    }
  }

  /** The messages of the handshake neither are `threads` replies nor ask for one. */
  lemma HandshakeIsNeutral(c: Codec, raw: Bytes)
    requires !Bystander(c)(raw) && (c.parse(raw).kind.Event? ==> c.parse(raw).command == None)
    ensures !ThreadsReply(c)(raw) && !StopsAllThreads(c.parse(raw))
  {
    var m := c.parse(raw);
    assert Initialized(c)(raw) || ConfigurationDone(c)(raw) || AttachResponse(c)(raw);
    if IsEvent(m, "initialized") {
      assert |m.event.value| == 11 && |"stopped"| == 7;
    } else if IsResponse(m, "configurationDone") {
      assert |m.command.value| == 17 && |"threads"| == 7;
    } else {
      assert IsResponse(m, "attach") && |m.command.value| == 6 && |"threads"| == 7;
    }
  }

  lemma {:induction false} KeptBystanders(c: Codec, arrivals: seq<Bytes>, due: nat)
    requires forall raw :: raw in arrivals && c.parse(raw).kind.Event? ==> c.parse(raw).command == None
    ensures Kept(c, Filter(Bystander(c), arrivals), due) == Filter(Bystander(c), Kept(c, arrivals, due))
    ensures Owing(c, Filter(Bystander(c), arrivals), due) == Owing(c, arrivals, due)
  {
    if arrivals != [] {
      var x, rest := arrivals[0], arrivals[1..];
      if !Bystander(c)(x) {
        HandshakeIsNeutral(c, x);
      }
      KeptBystanders(c, rest, if ThreadsReply(c)(x) then if due > 0 then due - 1 else 0
                              else if StopsAllThreads(c.parse(x)) then due + 1 else due);
      assert ([x] + Filter(Bystander(c), rest))[1..] == Filter(Bystander(c), rest);
      assert [] + Filter(Bystander(c), rest) == Filter(Bystander(c), rest);
    }
  }

  /** Nothing of the handshake is used up as a `threads` reply. */
  lemma {:induction false} KeptOfHandshake(c: Codec, p: Bytes -> bool, arrivals: seq<Bytes>, due: nat)
    requires forall raw :: raw in arrivals && p(raw) ==> !ThreadsReply(c)(raw)
    ensures Filter(p, Kept(c, arrivals, due)) == Filter(p, arrivals)
  {
    if arrivals != [] {
      var x, rest := arrivals[0], arrivals[1..];
      var next := if ThreadsReply(c)(x) then if due > 0 then due - 1 else 0
                  else if StopsAllThreads(c.parse(x)) then due + 1 else due;
      KeptOfHandshake(c, p, rest, next);
      assert ([x] + Kept(c, rest, next))[1..] == Kept(c, rest, next);
      assert [] + Filter(p, rest) == Filter(p, rest);
    }
  }

  function InitializedEvent(): Message -> bool { (m: Message) => IsEvent(m, "initialized") }

  function ConfigurationResponse(): Message -> bool { (m: Message) => IsResponse(m, "configurationDone") }

  function AttachReply(): Message -> bool { (m: Message) => IsResponse(m, "attach") }

  lemma {:induction false} FourParts(s: seq<Message>)
    ensures multiset(s) == multiset(Filter(Others(), s)) + multiset(Filter(InitializedEvent(), s))
                           + multiset(Filter(ConfigurationResponse(), s)) + multiset(Filter(AttachReply(), s))
  {
    if s != [] {
      FourParts(s[1..]);
      assert s == [s[0]] + s[1..];
      OneOfFour(s[0]);
      FilterFirst(Others(), s);
      FilterFirst(InitializedEvent(), s);
      FilterFirst(ConfigurationResponse(), s);
      FilterFirst(AttachReply(), s);
      hide Filter, Others, InitializedEvent, ConfigurationResponse, AttachReply;
    }
  }

  lemma FilterFirst(p: Message -> bool, s: seq<Message>)
    requires s != []
    ensures multiset(Filter(p, s)) == (if p(s[0]) then multiset{s[0]} else multiset{}) + multiset(Filter(p, s[1..]))
  {}

  lemma OneOfFour(m: Message)
    ensures Others()(m) <==> !InitializedEvent()(m) && !ConfigurationResponse()(m) && !AttachReply()(m)
    ensures !(InitializedEvent()(m) && ConfigurationResponse()(m)) && !(InitializedEvent()(m) && AttachReply()(m))
    ensures !(ConfigurationResponse()(m) && AttachReply()(m))
  {
    assert |"attach"| != |"configurationDone"|;
  }

  /** One ledger has become another by the handshake: the others are unchanged and in order, and only the
      response to the client's own `configurationDone` request is gone. */
  ghost predicate Reordered(before: seq<Message>, after: seq<Message>) {
    && Filter(Others(), after) == Filter(Others(), before)
    && exists own :: IsResponse(own, "configurationDone") && multiset(before) == multiset(after) + multiset{own}
  }

  lemma OthersAgain(s: seq<Message>)
    ensures Filter(Others(), Filter(Others(), s)) == Filter(Others(), s)
  {
    forall m | m in Filter(Others(), s) ensures Others()(m) {
      FilterMember(Others(), s, m);
    }
    FilterAll(Others(), Filter(Others(), s));
  }

  lemma OthersOf(done: seq<Message>, handshake: seq<Message>, ahead: seq<Message>)
    requires forall m :: m in handshake ==> OfHandshake(m)
    ensures Filter(Others(), (done + handshake) + Filter(Others(), ahead)) == Filter(Others(), done + ahead)
  {
    FilterNone(Others(), handshake);
    FilterAppend(Others(), done + handshake, Filter(Others(), ahead));
    FilterAppend(Others(), done, handshake);
    FilterAppend(Others(), done, ahead);
    OthersAgain(ahead);
    hide Filter;
    assert Filter(Others(), done) + [] == Filter(Others(), done);
  }

  /** What the handshake passes on is put before what is left for later. */
  lemma HandshakeReorders(done: seq<Message>, ahead: seq<Message>, initialized: Message, own: Message, attach: Message)
    requires Filter(InitializedEvent(), ahead) == [initialized] && Filter(ConfigurationResponse(), ahead) == [own]
    requires Filter(AttachReply(), ahead) == [attach]
    ensures Reordered(done + ahead, (done + [initialized, attach]) + Filter(Others(), ahead))
  {
    FilterMember(InitializedEvent(), ahead, initialized);
    FilterMember(ConfigurationResponse(), ahead, own);
    FilterMember(AttachReply(), ahead, attach);
    OthersOf(done, [initialized, attach], ahead);
    FourParts(ahead);
    Regrouped(done, ahead, Filter(Others(), ahead), initialized, own, attach);
    hide Filter;
  }

  lemma Regrouped<T>(done: seq<T>, ahead: seq<T>, others: seq<T>, x: T, own: T, y: T)
    requires multiset(ahead) == multiset(others) + multiset([x]) + multiset([own]) + multiset([y])
    ensures multiset(done + ahead) == multiset((done + [x, y]) + others) + multiset{own}
  {}

  lemma HandledByHandshake(c: Codec, log: seq<Effect>, raw: Bytes, request: Bytes, header: Bytes, event: Message,
                           attach: Bytes)
    ensures Handled(c, (log + [RequestTaken(raw)] + [Sent(raw)])
                       + [Sent(request), Notified(event, None), Published(header, event), Replied(attach)])
            == Handled(c, log) + [event, c.parse(attach)]
  {
    hide Handled;
    var requested := log + [RequestTaken(raw)] + [Sent(raw)];
    HandledSilent(c, log, RequestTaken(raw));
    HandledSilent(c, log + [RequestTaken(raw)], Sent(raw));
    HandledFour(c, requested, Sent(request), Notified(event, None), Published(header, event), Replied(attach));
  }

  lemma HandledFour(c: Codec, log: seq<Effect>, e1: Effect, e2: Effect, e3: Effect, e4: Effect)
    requires HandledBy(c, e1) == HandledBy(c, e2) == [] && |HandledBy(c, e3)| == |HandledBy(c, e4)| == 1
    ensures Handled(c, log + [e1, e2, e3, e4]) == Handled(c, log) + [HandledBy(c, e3)[0], HandledBy(c, e4)[0]]
  {
    hide Handled, HandledBy;
    HandledSilent(c, log, e1);
    HandledSilent(c, log + [e1], e2);
    HandledOne(c, log + [e1] + [e2], e3, HandledBy(c, e3)[0]);
    HandledOne(c, log + [e1] + [e2] + [e3], e4, HandledBy(c, e4)[0]);
    assert log + [e1, e2, e3, e4] == log + [e1] + [e2] + [e3] + [e4];
  }

  lemma HandledOne(c: Codec, log: seq<Effect>, e: Effect, m: Message)
    requires HandledBy(c, e) == [m]
    ensures Handled(c, log + [e]) == Handled(c, log) + [m]
  {
    HandledAppend(c, log, [e]);
    assert Handled(c, [e]) == [m] + Handled(c, []);
  }

  ghost predicate Suffix<T>(later: seq<T>, all: seq<T>) { exists n: nat :: n <= |all| && later == all[n..] }

  lemma SuffixOfSuffix<T>(a: seq<T>, b: seq<T>, c: seq<T>)
    requires Suffix(a, b) && Suffix(b, c)
    ensures Suffix(a, c)
  {
    var n: nat :| n <= |b| && a == b[n..];
    var m: nat :| m <= |c| && b == c[m..];
    assert a == c[m + n..];
  }

  lemma WaitReadsAPrefix<T>(p: T -> bool, queue: seq<T>, incoming: seq<seq<T>>)
    ensures Wait(p, queue, incoming).Found? ==> Suffix(Wait(p, queue, incoming).incoming, incoming)
  {
    WaitShrinks(p, queue, incoming);
  }

  lemma InitReadsAPrefix(c: Codec, header: Bytes, queue: seq<Bytes>, incoming: seq<seq<Bytes>>)
    ensures var done := InitSequence(c, header, queue, incoming);
            done.Done? ==> Suffix(done.incoming, incoming)
  {
    hide Wait, Suffix, Initialized, ConfigurationDone, AttachResponse, Frame;
    var w1 := Wait(Initialized(c), queue, incoming);
    WaitReadsAPrefix(Initialized(c), queue, incoming);
    if w1.Found? {
      var w2 := Wait(ConfigurationDone(c), w1.queue, w1.incoming);
      WaitReadsAPrefix(ConfigurationDone(c), w1.queue, w1.incoming);
      if w2.Found? {
        var w3 := Wait(AttachResponse(c), w2.queue, w2.incoming);
        WaitReadsAPrefix(AttachResponse(c), w2.queue, w2.incoming);
        if w3.Found? {
          SuffixOfSuffix(w2.incoming, w1.incoming, incoming);
          SuffixOfSuffix(w3.incoming, w2.incoming, incoming);
        }
      }
    }
  }

  /** The handshake leaves a sound stream. */
  lemma HandshakeLeavesSound(c: Codec, s: Loop, queue: seq<Bytes>, incoming: seq<seq<Bytes>>, n: nat)
    requires s.Live? && Sound(c, s) && n <= |s.incoming| && incoming == s.incoming[n..]
    requires queue + Concat(incoming) == Filter(Bystander(c), s.queue + Concat(s.incoming))
    ensures Orderly(c, queue, incoming) && Owing(c, queue + Concat(incoming), 0) == 0
  {
    var arrivals := s.queue + Concat(s.incoming);
    KeptBystanders(c, arrivals, 0);
    forall raw | raw in queue + Concat(incoming) ensures raw in arrivals {
      FilterMember(Bystander(c), arrivals, raw);
    }
    hide Filter;
  }

  /** A message of the handshake that is ahead stands in the ledger once. */
  lemma AheadOnce(c: Codec, p: Bytes -> bool, q: Message -> bool, arrivals: seq<Bytes>)
    requires forall raw :: p(raw) == q(c.parse(raw))
    requires forall raw :: raw in arrivals && p(raw) ==> !ThreadsReply(c)(raw)
    requires |Filter(p, arrivals)| == 1
    ensures Filter(q, Parsed(c, Kept(c, arrivals, 0))) == [c.parse(Filter(p, arrivals)[0])]
  {
    KeptOfHandshake(c, p, arrivals, 0);
    FilterParsed(c, p, q, Kept(c, arrivals, 0));
  }

  lemma AheadLedger(c: Codec, arrivals: seq<Bytes>)
    requires HandshakeAhead(c, arrivals)
    requires forall raw :: raw in arrivals && c.parse(raw).kind.Event? ==> c.parse(raw).command == None
    ensures var ahead := Parsed(c, Kept(c, arrivals, 0));
            && Filter(InitializedEvent(), ahead) == [c.parse(Filter(Initialized(c), arrivals)[0])]
            && Filter(ConfigurationResponse(), ahead) == [c.parse(Filter(ConfigurationDone(c), arrivals)[0])]
            && Filter(AttachReply(), ahead) == [c.parse(Filter(AttachResponse(c), arrivals)[0])]
            && Filter(Others(), ahead) == Parsed(c, Kept(c, Filter(Bystander(c), arrivals), 0))
  {
    forall raw | raw in arrivals && !Bystander(c)(raw) ensures !ThreadsReply(c)(raw) {
      HandshakeIsNeutral(c, raw);
    }
    hide ThreadsReply, Filter, Kept, Parsed;
    AheadOnce(c, Initialized(c), InitializedEvent(), arrivals);
    AheadOnce(c, ConfigurationDone(c), ConfigurationResponse(), arrivals);
    AheadOnce(c, AttachResponse(c), AttachReply(), arrivals);
    FilterParsed(c, Bystander(c), Others(), Kept(c, arrivals, 0));
    KeptBystanders(c, arrivals, 0);
  }

  /** Taking the `attach` request, when its handshake completes. */
  lemma AttachTaken(c: Codec, s: Loop)
    requires s.Live? && Attaches(c, s) && InitSequence(c, s.header, s.queue, s.incoming).Done?
    ensures var done := InitSequence(c, s.header, s.queue, s.incoming);
            var raw := s.requestsIn[0];
            TakeRequest(c, s) == s.(requestsIn := s.requestsIn[1..], queue := done.queue, incoming := done.incoming,
                                    waitAttach := false, log := (s.log + [RequestTaken(raw)] + [Sent(raw)]) + done.log)
  {
    hide InitSequence, Payload;
  }

  /** The handshake does not halt, keeps the stream sound, and only moves its own messages. */
  lemma AttachKeepsLedger(c: Codec, s: Loop)
    requires c.Valid() && s.Live? && Sound(c, s) && Attaches(c, s) && HandshakeAhead(c, s.queue + Concat(s.incoming))
    ensures var after := TakeRequest(c, s);
            && after.Live? && !after.waitAttach && after.stop == s.stop && Sound(c, after)
            && Reordered(Ledger(c, s), Ledger(c, after))
  {
    var arrivals := s.queue + Concat(s.incoming);
    InitSequenceIsOrderIndependent(c, s.header, s.queue, s.incoming);
    InitReadsAPrefix(c, s.header, s.queue, s.incoming);
    AttachTaken(c, s);
    AheadLedger(c, arrivals);
    hide InitSequence, TakeRequest, Attaches, Filter, Kept, Parsed, Handled, Frame, Reordered, Bystander;
    var done := InitSequence(c, s.header, s.queue, s.incoming);
    var n: nat :| n <= |s.incoming| && done.incoming == s.incoming[n..];
    HandshakeLeavesSound(c, s, done.queue, done.incoming, n);
    var event, attach := c.parse(Filter(Initialized(c), arrivals)[0]), c.parse(Filter(AttachResponse(c), arrivals)[0]);
    HandledByHandshake(c, s.log, s.requestsIn[0], Frame(c.dump(OwnRequest("configurationDone", event))), s.header,
                       event, c.dump(attach));
    HandshakeReorders(Handled(c, s.log), Parsed(c, Kept(c, arrivals, 0)), event,
                      c.parse(Filter(ConfigurationDone(c), arrivals)[0]), attach);
  }

  // ---------------------------------------------------------------- rounds and runs

  lemma HeaderKeepsLedger(c: Codec, s: Loop)
    requires s.Live? && s.headersIn != [] && Sound(c, s)
    ensures Ledger(c, TakeHeader(s)) == Ledger(c, s) && Sound(c, TakeHeader(s))
  {
    hide Parsed, Kept, Owing;
    HandledSilent(c, s.log, HeaderTaken(s.headersIn[0]));
  }

  lemma PlainRequestKeepsLedger(c: Codec, s: Loop)
    requires s.Live? && s.requestsIn != [] && Payload(s.requestsIn[0]).Some? && !Attaches(c, s) && Sound(c, s)
    ensures var after := TakeRequest(c, s);
            && after.Live? && after.waitAttach == s.waitAttach && after.stop == s.stop
            && Ledger(c, after) == Ledger(c, s) && Sound(c, after)
  {
    hide Parsed, Kept, Owing, Payload, InitSequence;
    var raw := s.requestsIn[0];
    HandledSilent(c, s.log, RequestTaken(raw));
    HandledSilent(c, s.log + [RequestTaken(raw)], Sent(raw));
  }

  lemma BatchKeepsLedger(c: Codec, s: Loop)
    requires s.Live? && s.incoming != [] && Sound(c, s)
    ensures Ledger(c, TakeBatch(s)) == Ledger(c, s) && Sound(c, TakeBatch(s))
  {
    hide Parsed, Kept, Owing, Handled;
    Associative(s.queue, s.incoming[0], Concat(s.incoming[1..]));
  }

  /** How a ledger may change: not at all, or by the handshake if the loop has left its initial phase. */
  ghost predicate Carried(c: Codec, s: Loop, after: Loop) {
    && s.Live? && after.Live? && Sound(c, after)
    && (after.waitAttach == s.waitAttach ==> Ledger(c, after) == Ledger(c, s))
    && (after.waitAttach != s.waitAttach ==> s.waitAttach && Reordered(Ledger(c, s), Ledger(c, after)))
  }

  lemma RequestCarries(c: Codec, s: Loop)
    requires c.Valid() && s.Live? && Sound(c, s) && s.requestsIn != [] && Payload(s.requestsIn[0]).Some?
    requires Attaches(c, s) ==> HandshakeAhead(c, s.queue + Concat(s.incoming))
    ensures Carried(c, s, TakeRequest(c, s)) && TakeRequest(c, s).stop == s.stop
  {
    var attaches := Attaches(c, s);
    assert attaches ==> s.waitAttach;
    hide Attaches, Sound, HandshakeAhead, Payload, TakeRequest, Ledger;
    if attaches {
      AttachKeepsLedger(c, s);
    } else {
      PlainRequestKeepsLedger(c, s);
    }
  }

  lemma ReadyCarries(c: Codec, s: Loop, poll: Poll)
    requires c.Valid() && s.Live? && Sound(c, s) && Finds(c, s, poll)
    ensures Carried(c, s, Ready(c, s, poll)) && Ready(c, s, poll).stop == s.stop
  {
    hide TakeRequest, Ledger, Sound, Payload, HandshakeAhead, Reordered;
    var s1 := if poll.header then TakeHeader(s) else s;
    if poll.header {
      HeaderKeepsLedger(c, s);
    }
    var s2 := if poll.control then TakeRequest(c, s1) else s1;
    if poll.control {
      RequestCarries(c, s1);
    }
    if poll.tcp {
      BatchKeepsLedger(c, s2);
    }
  }

  lemma DrainKeepsLedger(c: Codec, s: Loop)
    requires s.Live? && Sound(c, s)
    ensures var after := DrainQueue(c, s);
            && after.Live? && after.queue == [] && after.waitAttach == s.waitAttach
            && Ledger(c, after) == Ledger(c, s) && Sound(c, after)
  {
    DrainHandlesInOrder(c, s.header, s.queue, s.incoming);
    hide Parsed, Kept, Owing, Orderly, Drain, Handled;
    var d := Drain(c, s.header, s.queue, s.incoming);
    HandledAppend(c, s.log, d.log);
    Associative(Handled(c, s.log), Handled(c, d.log), Parsed(c, Kept(c, Concat(d.incoming), 0)));
    assert [] + Concat(d.incoming) == Concat(d.incoming);
  }

  /** Whole runs, from any kind of start. Let every all-threads stop get a reply, let the polls be truthful,
      and let the messages of the attach handshake be ahead when it begins. Then the loop never gets stuck
      and its queue is empty between rounds. The messages passed on and still to be passed on always make
      up the same sequence, except that the handshake puts `initialized` and the attach response before
      what is queued and takes the response to the client's own `configurationDone` request away. */
  lemma {:induction false} RunPassesEverythingOnce(c: Codec, s: Loop, polls: seq<Poll>)
    requires c.Valid() && s.Live? && s.queue == [] && Sound(c, s) && AllFound(c, s, polls)
    ensures Carried(c, s, Run(c, s, polls)) && Run(c, s, polls).queue == []
    decreases |polls|
  {
    if polls != [] && !s.stop {
      hide Ledger, Sound, Drain, Ready, Finds, Reordered, Run;
      ReadyCarries(c, s, polls[0]);
      var ready := Ready(c, s, polls[0]);
      DrainKeepsLedger(c, ready);
      RunPassesEverythingOnce(c, Round(c, s, polls[0]), polls[1..]);
      RunOneRound(c, s, polls);
    }
  }

  lemma RunOneRound(c: Codec, s: Loop, polls: seq<Poll>)
    requires s.Live? && polls != [] && !s.stop
    ensures Run(c, s, polls) == Run(c, Round(c, s, polls[0]), polls[1..])
  {}
}
