/** What the debug client guarantees about the messages it handles. */
module DapTheorems {
  import opened Basics
  import opened Framing
  import opened Selection
  import opened DapProtocol

  // ---------------------------------------------------------------- the handled event is the popped one

  /** A wait that does not take the front of the queue leaves it in front and is the wait on the rest. */
  lemma {:induction false} CollectKeepsFront<T>(p: T -> bool, front: T, rest: seq<T>, incoming: seq<seq<T>>)
    ensures var w, w' := Collect(p, [front] + rest, incoming), Collect(p, rest, incoming);
            && w.Found? == w'.Found?
            && w.queue == [front] + w'.queue
            && (w.Found? ==> w.message == w'.message && w.incoming == w'.incoming)
    decreases |incoming|
  {
    if incoming != [] {
      var more := Filter(Not(p), incoming[0]);
      assert ([front] + rest) + more == [front] + (rest + more);
      CollectKeepsFront(p, front, rest + more, incoming[1..]);
    }
  }

  lemma WaitKeepsFront<T>(p: T -> bool, front: T, rest: seq<T>, incoming: seq<seq<T>>)
    requires !p(front)
    ensures var w, w' := Wait(p, [front] + rest, incoming), Wait(p, rest, incoming);
            && w.Found? == w'.Found?
            && w.queue == [front] + w'.queue
            && (w.Found? ==> w.message == w'.message && w.incoming == w'.incoming)
  {
    var queue := [front] + rest;
    assert queue[1..] == rest;
    match FirstMatch(p, rest) {
      case None => CollectKeepsFront(p, front, rest, incoming);
      case Some(i) => assert Without(queue, i + 1) == [front] + Without(rest, i);
    }
  }

  /** Re-entrancy. While a `stopped` event is handled the queue is scanned, shortened and extended,
      but the element popped afterwards is the event itself, unless the event carries the command
      `threads` and is taken for the reply it is waiting for: then it is gone already, and the pop
      drops another message. */
  lemma PopRemovesTheHandledEvent(c: Codec, header: Bytes, front: Bytes, rest: seq<Bytes>, incoming: seq<seq<Bytes>>)
    requires c.parse(front).kind.Event?
    ensures var handled := ForwardEvent(c, c.parse(front), header, [front] + rest, incoming);
            var w := Wait(ThreadsReply(c), rest, incoming);
            && (StopsAllThreads(c.parse(front)) && ThreadsReply(c)(front) ==>
                handled.Done? && handled.queue == rest && handled.incoming == incoming)
            && (StopsAllThreads(c.parse(front)) && !ThreadsReply(c)(front) ==>
                && handled.Done? == w.Found?
                && (handled.Done? ==> handled.queue == [front] + w.queue && handled.incoming == w.incoming))
            && (!StopsAllThreads(c.parse(front)) ==>
                handled.Done? && handled.queue == [front] + rest && handled.incoming == incoming)
  {
    var queue := [front] + rest;
    if ThreadsReply(c)(front) {
      assert FirstMatch(ThreadsReply(c), queue) == Some(0);
      assert Without(queue, 0) == rest;
    } else {
      WaitKeepsFront(ThreadsReply(c), front, rest, incoming);
    }
  }

  /** For a lone `stopped` event the pop misses exactly when the event answers itself. */
  lemma PopMissesExactly(c: Codec, header: Bytes, front: Bytes, incoming: seq<seq<Bytes>>)
    requires StopsAllThreads(c.parse(front))
    ensures var handled := ForwardEvent(c, c.parse(front), header, [front], incoming);
            (handled.Done? && handled.queue == []) <==> c.parse(front).command == Some("threads")
    ensures c.parse(front).command == Some("threads") ==> Drain(c, header, [front], incoming).Crashed?
  {
    assert [front] + [] == [front];
    PopRemovesTheHandledEvent(c, header, front, [], incoming);
  }

  // ---------------------------------------------------------------- everything handled once, in order

  /** The message passed on by one effect. */
  function HandledBy(c: Codec, effect: Effect): seq<Message> {
    match effect
    case Published(_, event) => [event]
    case Replied(raw) => [c.parse(raw)]
    case _ => []
  }

  /** The messages the client has passed on, in order. */
  function Handled(c: Codec, log: seq<Effect>): seq<Message> {
    if log == [] then [] else HandledBy(c, log[0]) + Handled(c, log[1..])
  }

  lemma {:induction false} HandledAppend(c: Codec, a: seq<Effect>, b: seq<Effect>)
    ensures Handled(c, a + b) == Handled(c, a) + Handled(c, b)
  {
    if a == [] {
      assert a + b == b;
    } else {
      hide HandledBy;
      HandledAppend(c, a[1..], b);
      assert (a + b)[1..] == a[1..] + b;
      Associative(HandledBy(c, a[0]), Handled(c, a[1..]), Handled(c, b));
    }
  }

  function Parsed(c: Codec, raws: seq<Bytes>): (r: seq<Message>)
    ensures |r| == |raws| && forall i :: 0 <= i < |raws| ==> r[i] == c.parse(raws[i])
  {
    seq(|raws|, i requires 0 <= i < |raws| => c.parse(raws[i]))
  }

  /** How many all-threads stops have not got their `threads` reply after `arrivals`. */
  function Owing(c: Codec, arrivals: seq<Bytes>, due: nat): nat {
    if arrivals == [] then due
    else if ThreadsReply(c)(arrivals[0]) then Owing(c, arrivals[1..], if due > 0 then due - 1 else 0)
    else Owing(c, arrivals[1..], if StopsAllThreads(c.parse(arrivals[0])) then due + 1 else due)
  }

  /** The messages that are passed on: a `threads` reply is used up by an all-threads stop that still waits
      for one, whoever has asked for it. */
  function Kept(c: Codec, arrivals: seq<Bytes>, due: nat): seq<Bytes> {
    if arrivals == [] then []
    else if ThreadsReply(c)(arrivals[0]) then
      if due > 0 then Kept(c, arrivals[1..], due - 1) else [arrivals[0]] + Kept(c, arrivals[1..], 0)
    else [arrivals[0]] + Kept(c, arrivals[1..], if StopsAllThreads(c.parse(arrivals[0])) then due + 1 else due)
  }

  /** A message is passed on exactly if it is no `threads` reply, or if no all-threads stop before it still
      waits for one. */
  lemma {:induction false} KeptExactly(c: Codec, arrivals: seq<Bytes>, x: Bytes, due: nat)
    ensures Kept(c, arrivals + [x], due) ==
            Kept(c, arrivals, due)
            + if c.parse(x).command == Some("threads") && Owing(c, arrivals, due) > 0 then [] else [x]
  {
    if arrivals != [] {
      var y := arrivals[0];
      assert (arrivals + [x])[1..] == arrivals[1..] + [x];
      KeptExactly(c, arrivals[1..], x,
                  if ThreadsReply(c)(y) then if due > 0 then due - 1 else 0
                  else if StopsAllThreads(c.parse(y)) then due + 1 else due);
    }
  }

  /** Every `threads` reply finds a stop that waits for it. */
  predicate AllAskedFor(c: Codec, arrivals: seq<Bytes>, due: nat) {
    arrivals == [] ||
    if ThreadsReply(c)(arrivals[0]) then due > 0 && AllAskedFor(c, arrivals[1..], due - 1)
    else AllAskedFor(c, arrivals[1..], if StopsAllThreads(c.parse(arrivals[0])) then due + 1 else due)
  }

  /** That is so exactly if no `threads` reply is passed on, and then everything else is. */
  lemma {:induction false} KeptWhenAskedFor(c: Codec, arrivals: seq<Bytes>, due: nat)
    ensures AllAskedFor(c, arrivals, due) <==> NoMatch(ThreadsReply(c), Kept(c, arrivals, due))
    ensures AllAskedFor(c, arrivals, due) ==> Kept(c, arrivals, due) == Filter(Not(ThreadsReply(c)), arrivals)
  {
    if arrivals != [] {
      var y := arrivals[0];
      var next := if ThreadsReply(c)(y) then if due > 0 then due - 1 else 0
                  else if StopsAllThreads(c.parse(y)) then due + 1 else due;
      KeptWhenAskedFor(c, arrivals[1..], next);
      var later := Kept(c, arrivals[1..], next);
      assert y in [y] + later && forall raw :: raw in later ==> raw in [y] + later;
    }
  }

  /** The adapter's events carry no command, and no batch holds two `threads` replies. */
  ghost predicate Orderly(c: Codec, queue: seq<Bytes>, incoming: seq<seq<Bytes>>) {
    && (forall raw :: raw in queue + Concat(incoming) && c.parse(raw).kind.Event? ==> c.parse(raw).command == None)
    && SingleMatches(ThreadsReply(c), incoming)
  }

  /** One stop more waits: it gets the first reply. */
  lemma {:induction false} OneMoreWaits(c: Codec, arrivals: seq<Bytes>, due: nat)
    ensures var thr := ThreadsReply(c);
            if NoMatch(thr, arrivals) then Owing(c, arrivals, due + 1) > due
            else && Kept(c, arrivals, due + 1) == Kept(c, RemoveFirst(thr, arrivals), due)
                 && Owing(c, arrivals, due + 1) == Owing(c, RemoveFirst(thr, arrivals), due)
  {
    if arrivals != [] {
      var x := arrivals[0];
      if !ThreadsReply(c)(x) {
        OneMoreWaits(c, arrivals[1..], if StopsAllThreads(c.parse(x)) then due + 1 else due);
        var shorter := RemoveFirst(ThreadsReply(c), arrivals);
        assert shorter == [x] + RemoveFirst(ThreadsReply(c), arrivals[1..]);
        assert shorter[1..] == RemoveFirst(ThreadsReply(c), arrivals[1..]);
        assert NoMatch(ThreadsReply(c), arrivals) <==> NoMatch(ThreadsReply(c), arrivals[1..]) by {
          assert arrivals == [x] + arrivals[1..];
        }
      } else {
        assert x in arrivals;
      }
    }
  }

  lemma {:induction false} RemoveFirstSubset<T>(p: T -> bool, s: seq<T>, x: T)
    requires x in RemoveFirst(p, s)
    ensures x in s
  {
    if s != [] && !p(s[0]) && x != s[0] {
      RemoveFirstSubset(p, s[1..], x);
    }
  }

  lemma ArrivalsSplit(front: Bytes, rest: seq<Bytes>, incoming: seq<seq<Bytes>>)
    ensures var arrivals := ([front] + rest) + Concat(incoming);
            arrivals != [] && arrivals[0] == front && arrivals[1..] == rest + Concat(incoming)
  {}

  /** Handling a message other than an all-threads stop leaves an orderly remainder. */
  lemma AfterPlain(c: Codec, front: Bytes, rest: seq<Bytes>, incoming: seq<seq<Bytes>>)
    requires Orderly(c, [front] + rest, incoming) && !StopsAllThreads(c.parse(front))
    ensures Orderly(c, rest, incoming)
    ensures Owing(c, rest + Concat(incoming), 0) == Owing(c, ([front] + rest) + Concat(incoming), 0)
    ensures Kept(c, ([front] + rest) + Concat(incoming), 0) == [front] + Kept(c, rest + Concat(incoming), 0)
  {
    ArrivalsSplit(front, rest, incoming);
  }

  /** Handling an all-threads stop takes the first `threads` reply out of what is still to come and
      leaves an orderly remainder; it gets stuck only if no reply comes. */
  lemma AfterStop(c: Codec, front: Bytes, rest: seq<Bytes>, incoming: seq<seq<Bytes>>)
    requires Orderly(c, [front] + rest, incoming) && StopsAllThreads(c.parse(front))
    ensures !ThreadsReply(c)(front)
    ensures var w := Wait(ThreadsReply(c), rest, incoming);
            var arrivals := ([front] + rest) + Concat(incoming);
            if w.Found? then
              && Orderly(c, w.queue, w.incoming)
              && Owing(c, w.queue + Concat(w.incoming), 0) == Owing(c, arrivals, 0)
              && Kept(c, arrivals, 0) == [front] + Kept(c, w.queue + Concat(w.incoming), 0)
            else Owing(c, arrivals, 0) > 0
  {
    var thr := ThreadsReply(c);
    var later := rest + Concat(incoming);
    var w := Wait(thr, rest, incoming);
    ArrivalsSplit(front, rest, incoming);
    assert front in ([front] + rest) + Concat(incoming);
    OneMoreWaits(c, later, 0);
    WaitTakesFirst(thr, rest, incoming);
    WaitShrinks(thr, rest, incoming);
    if w.Found? {
      assert w.queue + Concat(w.incoming) == RemoveFirst(thr, later);
      forall raw | raw in w.queue + Concat(w.incoming) ensures raw in later {
        RemoveFirstSubset(thr, later, raw);
      }
    }
  }

  /** Everything that was to be passed on has been passed on or is still to come. */
  ghost predicate Accounted(c: Codec, arrivals: seq<Bytes>, log: seq<Effect>, incoming: seq<seq<Bytes>>) {
    Parsed(c, Kept(c, arrivals, 0)) == Handled(c, log) + Parsed(c, Kept(c, Concat(incoming), 0))
  }

  lemma ParsedCons(c: Codec, front: Bytes, rest: seq<Bytes>)
    ensures Parsed(c, [front] + rest) == [c.parse(front)] + Parsed(c, rest)
  {}

  lemma AccountedOneMore(c: Codec, front: Bytes, effects: seq<Effect>, arrivals: seq<Bytes>, later: seq<Bytes>,
                         log: seq<Effect>, incoming: seq<seq<Bytes>>)
    requires Kept(c, arrivals, 0) == [front] + Kept(c, later, 0)
    requires Handled(c, effects) == [c.parse(front)]
    requires Accounted(c, later, log, incoming)
    ensures Accounted(c, arrivals, effects + log, incoming)
  {
    hide Kept, Parsed, Handled;
    HandledAppend(c, effects, log);
    ParsedCons(c, front, Kept(c, later, 0));
    Associative([c.parse(front)], Handled(c, log), Parsed(c, Kept(c, Concat(incoming), 0)));
  }

  lemma HandledByStop(c: Codec, header: Bytes, front: Bytes, reply: Bytes)
    ensures Handled(c, StopEffects(c, header, c.parse(front), reply)) == [c.parse(front)]
  {
    var m := c.parse(front);
    var publish := [Published(header, m)];
    var notify := [Notified(m, Some(c.parse(reply).threads)), Published(header, m)];
    assert Handled(c, publish) == [m] + Handled(c, []);
    assert notify[1..] == publish;
    assert StopEffects(c, header, m, reply)[1..] == notify;
  }

  lemma HandledByPlain(c: Codec, header: Bytes, front: Bytes)
    ensures Handled(c, PlainEffects(c, header, front)) == [c.parse(front)]
  {
    var m := c.parse(front);
    var publish := [Published(header, m)];
    assert Handled(c, publish) == [m] + Handled(c, []);
    assert [Notified(m, None), Published(header, m)][1..] == publish;
    assert Handled(c, [Replied(front)]) == [m] + Handled(c, []);
  }

  lemma AfterHandling(c: Codec, front: Bytes, effects: seq<Effect>, arrivals: seq<Bytes>, later: seq<Bytes>,
                      d: Drained, disconnect: bool)
    requires Kept(c, arrivals, 0) == [front] + Kept(c, later, 0)
    requires Handled(c, effects) == [c.parse(front)]
    requires d.Drained? ==> Accounted(c, later, d.log, d.incoming)
    ensures d.Drained? ==> Accounted(c, arrivals, d.After(effects, disconnect).log, d.incoming)
  {
    if d.Drained? {
      AccountedOneMore(c, front, effects, arrivals, later, d.log, d.incoming);
    }
  }

  function StopEffects(c: Codec, header: Bytes, m: Message, reply: Bytes): seq<Effect> {
    [Sent(Frame(c.dump(OwnRequest("threads", m))))] + [Notified(m, Some(c.parse(reply).threads)), Published(header, m)]
  }

  lemma DrainStop(c: Codec, header: Bytes, front: Bytes, rest: seq<Bytes>, incoming: seq<seq<Bytes>>)
    requires StopsAllThreads(c.parse(front)) && !ThreadsReply(c)(front)
    ensures var d := Drain(c, header, [front] + rest, incoming);
            match Wait(ThreadsReply(c), rest, incoming)
            case Starved(_) => d.Starving?
            case Found(reply, queue, left) =>
              d == Drain(c, header, queue, left).After(StopEffects(c, header, c.parse(front), reply), false)
  {
    WaitKeepsFront(ThreadsReply(c), front, rest, incoming);
    var w := Wait(ThreadsReply(c), rest, incoming);
    if w.Found? {
      assert ([front] + w.queue)[1..] == w.queue;
    }
  }

  function PlainEffects(c: Codec, header: Bytes, front: Bytes): seq<Effect> {
    var m := c.parse(front);
    if m.kind.Event? then [Notified(m, None), Published(header, m)] else [Replied(front)]
  }

  lemma DrainPlain(c: Codec, header: Bytes, front: Bytes, rest: seq<Bytes>, incoming: seq<seq<Bytes>>)
    requires !StopsAllThreads(c.parse(front))
    ensures Drain(c, header, [front] + rest, incoming) ==
            Drain(c, header, rest, incoming).After(PlainEffects(c, header, front),
              !c.parse(front).kind.Event? && c.parse(front).command == Some("disconnect"))
  {
    assert ([front] + rest)[1..] == rest;
  }

  /** The end of a drain. */
  ghost predicate DrainedInOrder(c: Codec, arrivals: seq<Bytes>, d: Drained) {
    match d
    case Crashed(_) => false
    case Starving(_) => Owing(c, arrivals, 0) > 0
    case Drained(log, left, _) =>
      && Accounted(c, arrivals, log, left)
      && Orderly(c, [], left)
      && Owing(c, [] + Concat(left), 0) == Owing(c, arrivals, 0)
  }

  /** Draining the queue passes on, once and in the order of arrival, every message but the `threads` replies
      that arrive while an all-threads stop waits for one; these it uses up. The pop never misses, and
      waiting for ever means that some stop never gets a reply. */
  lemma {:induction false} DrainHandlesInOrder(c: Codec, header: Bytes, queue: seq<Bytes>, incoming: seq<seq<Bytes>>)
    requires Orderly(c, queue, incoming)
    ensures DrainedInOrder(c, queue + Concat(incoming), Drain(c, header, queue, incoming))
    decreases |queue| + |Concat(incoming)|
  {
    var arrivals := queue + Concat(incoming);
    if queue == [] {
      assert arrivals == [] + Concat(incoming) == Concat(incoming);
      assert Handled(c, []) == [];
    } else {
      var front, rest := queue[0], queue[1..];
      assert queue == [front] + rest;
      if StopsAllThreads(c.parse(front)) {
        StopInOrder(c, header, front, rest, incoming);
      } else {
        PlainInOrder(c, header, front, rest, incoming);
      }
    }
  }

  lemma {:induction false} StopInOrder(c: Codec, header: Bytes, front: Bytes, rest: seq<Bytes>,
                                       incoming: seq<seq<Bytes>>)
    requires Orderly(c, [front] + rest, incoming) && StopsAllThreads(c.parse(front))
    ensures DrainedInOrder(c, ([front] + rest) + Concat(incoming), Drain(c, header, [front] + rest, incoming))
    decreases |rest| + |Concat(incoming)| + 1, 0
  {
    hide Drain, Orderly, Owing, Kept, Accounted, Handled, Filter, Wait, StopEffects;
    AfterStop(c, front, rest, incoming);
    DrainStop(c, header, front, rest, incoming);
    WaitShrinks(ThreadsReply(c), rest, incoming);
    var w := Wait(ThreadsReply(c), rest, incoming);
    if w.Found? {
      DrainHandlesInOrder(c, header, w.queue, w.incoming);
      HandledByStop(c, header, front, w.message);
      AfterHandling(c, front, StopEffects(c, header, c.parse(front), w.message), ([front] + rest) + Concat(incoming),
                    w.queue + Concat(w.incoming), Drain(c, header, w.queue, w.incoming), false);
    }
  }

  lemma {:induction false} PlainInOrder(c: Codec, header: Bytes, front: Bytes, rest: seq<Bytes>,
                                        incoming: seq<seq<Bytes>>)
    requires Orderly(c, [front] + rest, incoming) && !StopsAllThreads(c.parse(front))
    ensures DrainedInOrder(c, ([front] + rest) + Concat(incoming), Drain(c, header, [front] + rest, incoming))
    decreases |rest| + |Concat(incoming)| + 1, 0
  {
    hide Drain, Orderly, Owing, Kept, Accounted, Handled, Filter, PlainEffects;
    AfterPlain(c, front, rest, incoming);
    DrainPlain(c, header, front, rest, incoming);
    DrainHandlesInOrder(c, header, rest, incoming);
    HandledByPlain(c, header, front);
    AfterHandling(c, front, PlainEffects(c, header, front), ([front] + rest) + Concat(incoming),
                  rest + Concat(incoming), Drain(c, header, rest, incoming),
                  !c.parse(front).kind.Event? && c.parse(front).command == Some("disconnect"));
  }

  /** If nobody but the client asks for threads, a drain passes on everything but the `threads` replies, none
      of which reaches the controller, and it stays so for what is still to come. */
  lemma DrainWithoutStrayReplies(c: Codec, header: Bytes, queue: seq<Bytes>, incoming: seq<seq<Bytes>>)
    requires Orderly(c, queue, incoming) && AllAskedFor(c, queue + Concat(incoming), 0)
    ensures var d := Drain(c, header, queue, incoming);
            d.Drained? ==>
            && AllAskedFor(c, Concat(d.incoming), 0)
            && Parsed(c, Filter(Not(ThreadsReply(c)), queue + Concat(incoming))) ==
               Handled(c, d.log) + Parsed(c, Filter(Not(ThreadsReply(c)), Concat(d.incoming)))
  {
    DrainHandlesInOrder(c, header, queue, incoming);
    hide Drain, Handled, Filter, Kept, AllAskedFor;
    var d, arrivals := Drain(c, header, queue, incoming), queue + Concat(incoming);
    if d.Drained? {
      KeptWhenAskedFor(c, arrivals, 0);
      KeptWhenAskedFor(c, Concat(d.incoming), 0);
      var kept, later := Kept(c, arrivals, 0), Kept(c, Concat(d.incoming), 0);
      forall raw | raw in later ensures !ThreadsReply(c)(raw) {
        var i :| 0 <= i < |later| && later[i] == raw;
        var k := |Handled(c, d.log)| + i;
        assert Parsed(c, kept)[k] == Parsed(c, later)[i] == c.parse(raw);
        assert kept[k] in kept && c.parse(kept[k]) == c.parse(raw);
      }
    }
  }

  /** A controller that sends a `threads` request of its own can get the wrong reply: behind an all-threads
      stop its own is used up for the stop, and the one the client has asked for is relayed instead. */
  lemma RepliesAreSwapped(c: Codec, header: Bytes, stopped: Bytes, controllers: Bytes, clients: Bytes)
    requires StopsAllThreads(c.parse(stopped)) && !ThreadsReply(c)(stopped)
    requires ThreadsReply(c)(controllers) && ThreadsReply(c)(clients) && c.parse(clients).kind.Response?
    ensures Drain(c, header, [stopped, controllers, clients], []) ==
            Drained(StopEffects(c, header, c.parse(stopped), controllers) + [Replied(clients)], [], false)
  {
    var effects := StopEffects(c, header, c.parse(stopped), controllers);
    assert [stopped] + [controllers, clients] == [stopped, controllers, clients];
    DrainStop(c, header, stopped, [controllers, clients], []);
    assert FirstMatch(ThreadsReply(c), [controllers, clients]) == Some(0);
    assert Without([controllers, clients], 0) == [clients] == [clients] + [];
    DrainPlain(c, header, clients, [], []);
    assert Drain(c, header, [], []) == Drained([], [], false);
    assert |"threads"| != |"disconnect"|;
    assert [Replied(clients)] + [] == [Replied(clients)];
  }

  // ---------------------------------------------------------------- the attach handshake

  /** None of the three messages the handshake consumes. */
  function Bystander(c: Codec): Bytes -> bool {
    raw => !Initialized(c)(raw) && !ConfigurationDone(c)(raw) && !AttachResponse(c)(raw)
  }

  lemma {:induction false} FilterBystanders(c: Codec, s: seq<Bytes>)
    ensures Filter(Not(AttachResponse(c)), Filter(Not(ConfigurationDone(c)), Filter(Not(Initialized(c)), s)))
            == Filter(Bystander(c), s)
  {
    if s != [] {
      FilterBystanders(c, s[1..]);
      var one := Filter(Not(Initialized(c)), s[1..]);
      var two := Filter(Not(ConfigurationDone(c)), one);
      assert ([s[0]] + one)[1..] == one && ([s[0]] + two)[1..] == two;
      assert [] + one == one && [] + two == two;
    }
  }

  lemma {:induction false} SingleInBatches<T>(p: T -> bool, queue: seq<T>, incoming: seq<seq<T>>)
    requires |Filter(p, queue + Concat(incoming))| <= 1
    ensures SingleMatches(p, incoming)
    decreases |incoming|
  {
    FilterAppend(p, queue, Concat(incoming));
    if incoming != [] {
      FilterAppend(p, incoming[0], Concat(incoming[1..]));
      assert [] + Concat(incoming[1..]) == Concat(incoming[1..]);
      SingleInBatches(p, [], incoming[1..]);
      assert incoming == [incoming[0]] + incoming[1..];
    }
  }

  /** Waiting for a message that arrives at most once, among others that may arrive before or after
      it: it is found if it arrives at all, and nothing else is disturbed. */
  lemma WaitForUnique(p: Bytes -> bool, queue: seq<Bytes>, incoming: seq<seq<Bytes>>)
    requires |Filter(p, queue + Concat(incoming))| <= 1
    ensures var w, arrivals := Wait(p, queue, incoming), queue + Concat(incoming);
            && (w.Found? <==> |Filter(p, arrivals)| == 1)
            && (w.Found? ==>
                && [w.message] == Filter(p, arrivals)
                && w.queue + Concat(w.incoming) == Filter(Not(p), arrivals)
                && exists n: nat :: n <= |incoming| && w.incoming == incoming[n..])
  {
    var w, arrivals := Wait(p, queue, incoming), queue + Concat(incoming);
    SingleInBatches(p, queue, incoming);
    WaitTakesFirst(p, queue, incoming);
    WaitShrinks(p, queue, incoming);
    if w.Found? {
      FilterMember(p, arrivals, w.message);
      LastOfSingle(p, arrivals);
    } else {
      FilterNone(p, arrivals);
    }
  }

  lemma {:induction false} FilterKeeps<T>(p: T -> bool, keep: T -> bool, s: seq<T>)
    requires forall x :: keep(x) ==> p(x)
    ensures Filter(keep, Filter(p, s)) == Filter(keep, s)
  {
    if s != [] {
      FilterKeeps(p, keep, s[1..]);
      var kept := Filter(p, s[1..]);
      assert ([s[0]] + kept)[1..] == kept && [] + kept == kept;
    }
  }

  lemma Exclusive(c: Codec)
    ensures forall raw :: ConfigurationDone(c)(raw) ==> Not(Initialized(c))(raw)
    ensures forall raw :: AttachResponse(c)(raw) ==> Not(Initialized(c))(raw) && Not(ConfigurationDone(c))(raw)
  {
    assert |"attach"| != |"configurationDone"|;
    forall raw | ConfigurationDone(c)(raw) ensures Not(Initialized(c))(raw) {
      assert !IsEvent(c.parse(raw), "initialized");
    }
    forall raw | AttachResponse(c)(raw) ensures Not(Initialized(c))(raw) && Not(ConfigurationDone(c))(raw) {
      assert !IsEvent(c.parse(raw), "initialized") && !IsResponse(c.parse(raw), "configurationDone");
    }
  }

  lemma InitSequenceCompletes(c: Codec, header: Bytes, queue: seq<Bytes>, incoming: seq<seq<Bytes>>)
    requires var arrivals := queue + Concat(incoming);
             && |Filter(Initialized(c), arrivals)| <= 1
             && |Filter(ConfigurationDone(c), arrivals)| <= 1
             && |Filter(AttachResponse(c), arrivals)| <= 1
    ensures var arrivals := queue + Concat(incoming);
            var done := InitSequence(c, header, queue, incoming);
            var initialized, attach := Filter(Initialized(c), arrivals), Filter(AttachResponse(c), arrivals);
            && (done.Done? <==> |initialized| == |Filter(ConfigurationDone(c), arrivals)| == |attach| == 1)
            && (done.Done? ==>
                var event := c.parse(initialized[0]);
                && done.log == [Sent(Frame(c.dump(OwnRequest("configurationDone", event)))),
                                Notified(event, None), Published(header, event),
                                Replied(c.dump(c.parse(attach[0])))]
                && done.queue + Concat(done.incoming) == Filter(Bystander(c), arrivals))
  {
    Exclusive(c);
    hide Filter, Wait, Concat, Initialized, ConfigurationDone, AttachResponse, Bystander, Frame;
    var arrivals := queue + Concat(incoming);
    var p1, p2, p3 := Initialized(c), ConfigurationDone(c), AttachResponse(c);
    WaitForUnique(p1, queue, incoming);
    var w1 := Wait(p1, queue, incoming);
    if w1.Found? {
      FilterKeeps(Not(p1), p2, arrivals);
      WaitForUnique(p2, w1.queue, w1.incoming);
      var w2 := Wait(p2, w1.queue, w1.incoming);
      if w2.Found? {
        FilterKeeps(Not(p1), p3, arrivals);
        FilterKeeps(Not(p2), p3, Filter(Not(p1), arrivals));
        WaitForUnique(p3, w2.queue, w2.incoming);
        FilterBystanders(c, arrivals);
      }
    }
  }

  /** The three messages that the handshake waits for. */
  predicate OfHandshake(m: Message) {
    || (m.kind.Event? && m.event == Some("initialized"))
    || (m.kind.Response? && (m.command == Some("configurationDone") || m.command == Some("attach")))
  }

  lemma MatchesInFilter(p: Bytes -> bool, arrivals: seq<Bytes>)
    ensures forall i :: 0 <= i < |Filter(p, arrivals)| ==> p(Filter(p, arrivals)[i])
  {
    forall i | 0 <= i < |Filter(p, arrivals)| ensures p(Filter(p, arrivals)[i]) {
      FilterMember(p, arrivals, Filter(p, arrivals)[i]);
    }
  }

  /** The handshake does not depend on order or batching. Provided each of the three messages arrives
      at most once, it completes exactly if all three arrive, wherever and in whatever batches; it
      then has sent one `configurationDone`, published the `initialized` event once and replied once
      with the attach response, and every other message is still queued or unread, in order. */
  lemma InitSequenceIsOrderIndependent(c: Codec, header: Bytes, queue: seq<Bytes>, incoming: seq<seq<Bytes>>)
    requires var arrivals := queue + Concat(incoming);
             && |Filter(Initialized(c), arrivals)| <= 1
             && |Filter(ConfigurationDone(c), arrivals)| <= 1
             && |Filter(AttachResponse(c), arrivals)| <= 1
    ensures var arrivals := queue + Concat(incoming);
            var done := InitSequence(c, header, queue, incoming);
            var initialized, attach := Filter(Initialized(c), arrivals), Filter(AttachResponse(c), arrivals);
            && (done.Done? <==> |initialized| == |Filter(ConfigurationDone(c), arrivals)| == |attach| == 1)
            && (done.Done? ==>
                var event := c.parse(initialized[0]);
                && done.log == [Sent(Frame(c.dump(OwnRequest("configurationDone", event)))),
                                Notified(event, None), Published(header, event),
                                Replied(c.dump(c.parse(attach[0])))]
                && (c.Valid() ==> Requests(c, done.log[0].bytes, "configurationDone", event))
                && event.kind.Event? && event.event == Some("initialized")
                && c.parse(attach[0]).kind.Response? && c.parse(attach[0]).command == Some("attach")
                && done.queue + Concat(done.incoming) == Filter(Bystander(c), arrivals)
                && forall raw :: raw in Filter(Bystander(c), arrivals) <==>
                                 raw in arrivals && !OfHandshake(c.parse(raw)))
  {
    var arrivals := queue + Concat(incoming);
    forall raw ensures raw in Filter(Bystander(c), arrivals) <==> raw in arrivals && !OfHandshake(c.parse(raw)) {
      FilterMember(Bystander(c), arrivals, raw);
    }
    MatchesInFilter(Initialized(c), arrivals);
    MatchesInFilter(AttachResponse(c), arrivals);
    hide Filter, InitSequence, Concat, Bystander, Frame, Requests;
    InitSequenceCompletes(c, header, queue, incoming);
    if c.Valid() && InitSequence(c, header, queue, incoming).Done? {
      OwnRequestSays(c, "configurationDone", c.parse(Filter(Initialized(c), queue + Concat(incoming))[0]));
    }
  }
}
