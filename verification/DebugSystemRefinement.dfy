/** The loop of the debug system is the loop of the debug client: what the client's loop does in a round is
    done by a run of the system, with the same messages on the header, controller and publisher sockets. */
module DebugSystemRefinement {
  import opened Basics
  import opened Selection
  import opened DebugSystem
  import P = DapProtocol
  import L = DapLoop

  // ---------------------------------------------------------------- messages and items

  /** The item a message stands for. Whose request a reply answers cannot be seen in the message. */
  predicate Same(c: P.Codec, raw: Bytes, item: Item) {
    var m := c.parse(raw);
    match item
    case Plain(stopsAll) =>
      m.kind.Event? && m.command == None && !P.IsEvent(m, "initialized") && P.StopsAllThreads(m) == stopsAll
    case Initialized => P.IsEvent(m, "initialized") && m.command == None
    case Reply(command, _) => m.kind.Response? && m.command == Some(command)
  }

  ghost predicate Mirrors(c: P.Codec, raws: seq<Bytes>, items: seq<Item>) {
    |raws| == |items| && forall i :: 0 <= i < |raws| ==> Same(c, raws[i], items[i])
  }

  ghost predicate AllMirror(c: P.Codec, incoming: seq<seq<Bytes>>, supply: seq<seq<Item>>) {
    |incoming| == |supply| && forall i :: 0 <= i < |incoming| ==> Mirrors(c, incoming[i], supply[i])
  }

  /** The condition of a wait, on messages. */
  function Awaiting(c: P.Codec, what: Awaited): Bytes -> bool {
    match what
    case ForThreads => P.ThreadsReply(c)
    case ForInitialized(_) => P.Initialized(c)
    case ForConfiguration(_) => P.ConfigurationDone(c)
    case ForAttach(_) => P.AttachResponse(c)
  }

  lemma SameMatches(c: P.Codec, what: Awaited, raw: Bytes, item: Item)
    requires Same(c, raw, item)
    ensures Awaiting(c, what)(raw) == Condition(what)(item)
  {
    assert |"initialized"| != |"stopped"|;
  }

  lemma {:induction false} MirrorsFilter(c: P.Codec, what: Awaited, raws: seq<Bytes>, items: seq<Item>)
    requires Mirrors(c, raws, items)
    ensures Mirrors(c, Filter(Not(Awaiting(c, what)), raws), Filter(Not(Condition(what)), items))
  {
    if raws != [] {
      SameMatches(c, what, raws[0], items[0]);
      hide Same, Awaiting, Condition;
      MirrorsFilter(c, what, raws[1..], items[1..]);
    }
  }

  lemma {:induction false} MirrorsFirst(c: P.Codec, what: Awaited, raws: seq<Bytes>, items: seq<Item>)
    requires Mirrors(c, raws, items)
    ensures FirstMatch(Awaiting(c, what), raws) == FirstMatch(Condition(what), items)
  {
    if raws != [] {
      SameMatches(c, what, raws[0], items[0]);
      hide Same, Awaiting, Condition;
      MirrorsFirst(c, what, raws[1..], items[1..]);
    }
  }

  lemma {:induction false} MirrorsLast(c: P.Codec, what: Awaited, raws: seq<Bytes>, items: seq<Item>)
    requires Mirrors(c, raws, items)
    ensures var a, b := LastMatch(Awaiting(c, what), raws), LastMatch(Condition(what), items);
            a.Some? == b.Some? && (a.Some? ==> Same(c, a.value, b.value))
  {
    if raws != [] {
      var n := |raws| - 1;
      SameMatches(c, what, raws[n], items[n]);
      hide Same, Awaiting, Condition;
      MirrorsLast(c, what, raws[..n], items[..n]);
    }
  }

  ghost predicate WaitedAlike(c: P.Codec, a: Waited<Bytes>, b: Waited<Item>) {
    && a.Found? == b.Found?
    && (a.Found? ==>
        Same(c, a.message, b.message) && Mirrors(c, a.queue, b.queue) && AllMirror(c, a.incoming, b.incoming))
  }

  lemma MirrorsAppend(c: P.Codec, a: seq<Bytes>, x: seq<Item>, b: seq<Bytes>, y: seq<Item>)
    requires Mirrors(c, a, x) && Mirrors(c, b, y)
    ensures Mirrors(c, a + b, x + y)
  {
    hide Same;
  }

  lemma AllMirrorFirst(c: P.Codec, incoming: seq<seq<Bytes>>, supply: seq<seq<Item>>)
    requires AllMirror(c, incoming, supply) && incoming != []
    ensures supply != [] && Mirrors(c, incoming[0], supply[0]) && AllMirror(c, incoming[1..], supply[1..])
  {
    hide Mirrors;
  }

  lemma {:induction false} CollectAlike(c: P.Codec, what: Awaited, queue: seq<Bytes>, items: seq<Item>,
                                        incoming: seq<seq<Bytes>>, supply: seq<seq<Item>>)
    requires Mirrors(c, queue, items) && AllMirror(c, incoming, supply)
    ensures WaitedAlike(c, Collect(Awaiting(c, what), queue, incoming), Collect(Condition(what), items, supply))
    decreases |incoming|
  {
    if incoming != [] {
      AllMirrorFirst(c, incoming, supply);
      MirrorsLast(c, what, incoming[0], supply[0]);
      MirrorsFilter(c, what, incoming[0], supply[0]);
      var kept, left := Filter(Not(Awaiting(c, what)), incoming[0]), Filter(Not(Condition(what)), supply[0]);
      MirrorsAppend(c, queue, items, kept, left);
      CollectAlike(c, what, queue + kept, items + left, incoming[1..], supply[1..]);
      hide Same, Awaiting, Condition, Filter, LastMatch, Mirrors, AllMirror;
    }
  }

  /** A wait on messages and the wait on the items they stand for do the same. */
  lemma WaitAlike(c: P.Codec, what: Awaited, queue: seq<Bytes>, items: seq<Item>,
                  incoming: seq<seq<Bytes>>, supply: seq<seq<Item>>)
    requires Mirrors(c, queue, items) && AllMirror(c, incoming, supply)
    ensures WaitedAlike(c, Selection.Wait(Awaiting(c, what), queue, incoming),
                        Selection.Wait(Condition(what), items, supply))
  {
    MirrorsFirst(c, what, queue, items);
    CollectAlike(c, what, queue, items, incoming, supply);
    hide Same, Awaiting, Condition, Collect, FirstMatch;
  }

  // ---------------------------------------------------------------- runs

  lemma {:induction false} RunAppend(s: State, a: seq<Action>, b: seq<Action>)
    requires Runnable(s, a) && Runnable(Exec(s, a), b)
    ensures Runnable(s, a + b) && Exec(s, a + b) == Exec(Exec(s, a), b)
    decreases |a|
  {
    hide Apply, Enabled;
    if a == [] {
      assert a + b == b;
    } else {
      assert (a + b)[1..] == a[1..] + b;
      RunAppend(Apply(s, a[0]), a[1..], b);
    }
  }

  /** The state is reached by some run. */
  ghost predicate Reaches(s: State, end: State) { exists actions :: Runnable(s, actions) && Exec(s, actions) == end }

  lemma ReachesItself(s: State)
    ensures Reaches(s, s)
  {
    assert Runnable(s, []) && Exec(s, []) == s;
  }

  lemma ReachesNext(s: State, a: Action)
    requires Enabled(s, a)
    ensures Reaches(s, Apply(s, a))
  {
    hide Apply, Enabled;
    assert [a][1..] == [] && Runnable(s, [a]) && Exec(s, [a]) == Apply(s, a);
  }

  lemma ReachesFurther(s: State, middle: State, end: State)
    requires Reaches(s, middle) && Reaches(middle, end)
    ensures Reaches(s, end)
  {
    hide Runnable, Exec;
    var a :| Runnable(s, a) && Exec(s, a) == middle;
    var b :| Runnable(middle, b) && Exec(middle, b) == end;
    RunAppend(s, a, b);
  }

  // ---------------------------------------------------------------- what the adapter sends

  function IsOwed(o: Owed): Owed -> bool { (x: Owed) => x == o }

  /** What the adapter owes after sending these items; `None` if it cannot send them. */
  function OwedAfter(owed: seq<Owed>, items: seq<Item>): Option<seq<Owed>> {
    if items == [] then Some(owed)
    else match items[0]
      case Reply(command, origin) =>
        (match FirstMatch(IsOwed(Owed(command, origin)), owed)
         case None => None
         case Some(i) => OwedAfter(Without(owed, i), items[1..]))
      case Plain(_) => OwedAfter(owed, items[1..])
      case Initialized => OwedAfter(owed, items[1..])
  }

  function Sending(s: State, item: Item): Option<Action> {
    match item
    case Plain(stopsAll) => Some(AdapterEvent(stopsAll))
    case Initialized => Some(AdapterInitialized)
    case Reply(command, origin) =>
      match FirstMatch(IsOwed(Owed(command, origin)), s.owed)
      case None => None
      case Some(i) => Some(AdapterAnswers(i))
  }

  lemma AdapterSendsOne(s: State, item: Item, rest: seq<Item>)
    requires OwedAfter(s.owed, [item] + rest).Some?
    ensures Sending(s, item).Some? && Enabled(s, Sending(s, item).value)
    ensures var next := Apply(s, Sending(s, item).value);
            next == s.(wire := s.wire + [item], owed := next.owed)
            && OwedAfter(next.owed, rest) == OwedAfter(s.owed, [item] + rest)
  {
    assert ([item] + rest)[1..] == rest;
  }

  lemma {:induction false} AdapterSends(s: State, items: seq<Item>)
    requires OwedAfter(s.owed, items).Some?
    ensures Reaches(s, s.(wire := s.wire + items, owed := OwedAfter(s.owed, items).value))
    decreases |items|
  {
    hide Reaches;
    if items == [] {
      assert s.wire + [] == s.wire;
      ReachesItself(s);
    } else {
      hide Apply, Enabled, OwedAfter, Sending;
      assert items == [items[0]] + items[1..];
      AdapterSendsOne(s, items[0], items[1..]);
      var next := Apply(s, Sending(s, items[0]).value);
      ReachesNext(s, Sending(s, items[0]).value);
      AdapterSends(next, items[1..]);
      assert s.wire + items == (s.wire + [items[0]]) + items[1..];
      ReachesFurther(s, next, s.(wire := s.wire + items, owed := OwedAfter(s.owed, items).value));
    }
  }

  // ---------------------------------------------------------------- a wait of the system

  lemma {:induction false} CollectUses<T>(p: T -> bool, queue: seq<T>, incoming: seq<seq<T>>) returns (k: nat)
    requires Collect(p, queue, incoming).Found?
    ensures var w := Collect(p, queue, incoming);
            && 0 < k <= |incoming| && w.incoming == incoming[k..]
            && Collect(p, queue, incoming[..k]) == Found(w.message, w.queue, [])
    decreases |incoming|
  {
    var kept := queue + Filter(Not(p), incoming[0]);
    if LastMatch(p, incoming[0]).Some? {
      k := 1;
      assert incoming[..1][0] == incoming[0] && incoming[..1][1..] == [];
    } else {
      k := CollectUses(p, kept, incoming[1..]);
      k := k + 1;
      assert incoming[..k][0] == incoming[0] && incoming[..k][1..] == incoming[1..][..k - 1];
    }
  }

  /** How many batches a wait reads. */
  function Used<T>(w: Waited<T>, incoming: seq<seq<T>>): int {
    if w.Found? then |incoming| - |w.incoming| else 0
  }

  predicate NonEmpty(supply: seq<seq<Item>>) { forall i :: 0 <= i < |supply| ==> supply[i] != [] }

  /** Searching in vain, reading batch after batch, and going on with the answer. */
  lemma {:induction false} Reading(s: State, batches: seq<seq<Item>>)
    requires s.pc.Waiting? && s.pc.searched && s.wire == Concat(batches) && NonEmpty(batches)
    requires var w := Collect(Condition(s.pc.what), s.queue, batches);
             w.Found? && w.incoming == [] && Resume(s.(wire := []), s.pc.what, w.message, w.queue).pc != Failed
    ensures var w := Collect(Condition(s.pc.what), s.queue, batches);
            Reaches(s, Resume(s.(wire := []), s.pc.what, w.message, w.queue))
    decreases |batches|
  {
    var n := |batches[0]|;
    ReadingOne(s, batches);
    ReachesNext(s, ReadBatch(n));
    hide Reaches, Resume, Filter, LastMatch, Apply;
    if LastMatch(Condition(s.pc.what), batches[0]).None? {
      var next := Apply(s, ReadBatch(n));
      var w := Collect(Condition(s.pc.what), s.queue, batches);
      NonEmptyRest(batches);
      QueueIsReplaced(next.(wire := []), s.(wire := []), s.pc.what, w.message, w.queue);
      Reading(next, batches[1..]);
      ReachesFurther(s, next, Resume(s.(wire := []), s.pc.what, w.message, w.queue));
    }
  }

  lemma QueueIsReplaced(a: State, b: State, what: Awaited, found: Item, queue: seq<Item>)
    requires a.(queue := []) == b.(queue := []) && Resume(b, what, found, queue).pc != Failed
    ensures Resume(a, what, found, queue) == Resume(b, what, found, queue)
  {}

  lemma ReadingOne(s: State, batches: seq<seq<Item>>)
    requires s.pc.Waiting? && s.pc.searched && batches != [] && batches[0] != [] && s.wire == Concat(batches)
    requires var w := Collect(Condition(s.pc.what), s.queue, batches); w.Found? && w.incoming == []
    ensures Enabled(s, ReadBatch(|batches[0]|))
    ensures var p, b := Condition(s.pc.what), batches[0];
            var next := Apply(s, ReadBatch(|b|));
            match LastMatch(p, b)
            case None => next == s.(queue := s.queue + Filter(Not(p), b), wire := Concat(batches[1..]))
            case Some(found) =>
              Collect(p, s.queue, batches).message == found && next ==
              Resume(s.(wire := []), s.pc.what, found, Collect(p, s.queue, batches).queue)
  {
    var n := |batches[0]|;
    assert s.wire[..n] == batches[0] && s.wire[n..] == Concat(batches[1..]);
    hide Resume, Filter, LastMatch;
  }

  lemma NonEmptyRest(supply: seq<seq<Item>>)
    requires NonEmpty(supply) && supply != []
    ensures NonEmpty(supply[1..]) && supply[0] != []
  {}

  // ---------------------------------------------------------------- big steps of the system

  /** Part of the first batch, all of it or nothing, is on the wire already. */
  predicate Loaded(s: State, supply: seq<seq<Item>>) { s.wire == [] || (supply != [] && s.wire == supply[0]) }

  /** A state of the system, and the batches that the adapter is going to send. */
  datatype Point = Point(s: State, supply: seq<seq<Item>>) {
    ghost predicate Valid() { Loaded(s, supply) && NonEmpty(supply) && s.pc != Failed }
  }

  /** What a big step comes to. `Unfed`: the rest of the world does not do its part; a wait is never answered, the
      adapter is to send a reply to nothing it has been asked, or a poll reports what is not there. `Failing`:
      the loop fails, by using its reply socket out of turn or by popping an empty queue. */
  datatype Stepped = Went(to: Point) | Unfed | Failing

  function GoOn(next: State, supply: seq<seq<Item>>): Stepped {
    if next.pc == Failed then Failing else Went(Point(next, supply))
  }

  /** The wait of the loop, from its beginning to the message it waits for. */
  function StepWait(x: Point): Stepped
    requires x.s.pc.Waiting?
  {
    var w := Selection.Wait(Condition(x.s.pc.what), x.s.queue, x.supply);
    var k := Used(w, x.supply);
    if w.Starved? || k < 0 then Unfed
    else if k == 0 then GoOn(Resume(x.s, x.s.pc.what, w.message, w.queue), x.supply)
    else
      var sent := Concat(x.supply[..k]);
      if |x.s.wire| > |sent| then Unfed
      else match OwedAfter(x.s.owed, sent[|x.s.wire|..])
        case None => Unfed
        case Some(owed) =>
          GoOn(Resume(x.s.(owed := owed, wire := []), x.s.pc.what, w.message, w.queue), x.supply[k..])
  }

  lemma LoadedFirst(x: Point, k: nat)
    requires Loaded(x.s, x.supply) && 0 < k <= |x.supply|
    ensures var sent := Concat(x.supply[..k]);
            |x.s.wire| <= |sent| && sent == x.s.wire + sent[|x.s.wire|..]
  {
    assert x.supply[..k][0] == x.supply[0];
  }

  lemma NonEmptyPart(supply: seq<seq<Item>>, k: nat)
    requires NonEmpty(supply) && k <= |supply|
    ensures NonEmpty(supply[..k]) && NonEmpty(supply[k..])
  {}

  /** What a wait that has to read comes to. */
  lemma StepWaitReads(x: Point) returns (k: nat)
    requires x.Valid() && x.s.pc.Waiting? && StepWait(x).Went?
    requires FirstMatch(Condition(x.s.pc.what), x.s.queue).None?
    ensures var s, what := x.s, x.s.pc.what;
            var w := Collect(Condition(what), s.queue, x.supply);
            && w.Found? && 0 < k <= |x.supply|
            && Collect(Condition(what), s.queue, x.supply[..k]) == Found(w.message, w.queue, [])
            && var sent := Concat(x.supply[..k]);
               && |s.wire| <= |sent| && sent == s.wire + sent[|s.wire|..] && OwedAfter(s.owed, sent[|s.wire|..]).Some?
               && var owed := OwedAfter(s.owed, sent[|s.wire|..]).value;
                  StepWait(x) == Went(Point(Resume(s.(owed := owed, wire := []), what, w.message, w.queue),
                                            x.supply[k..]))
    ensures StepWait(x).to.s.pc != Failed
  {
    k := CollectUses(Condition(x.s.pc.what), x.s.queue, x.supply);
    LoadedFirst(x, k);
    hide Resume, OwedAfter, Collect, Condition;
  }

  /** A wait that has to read: the search, what the adapter sends, and the reads. */
  lemma SearchAndRead(x: Point, batches: seq<seq<Item>>, owed: seq<Owed>, w: Waited<Item>)
    requires x.s.pc.Waiting? && !x.s.pc.searched && FirstMatch(Condition(x.s.pc.what), x.s.queue).None?
    requires NonEmpty(batches) && Collect(Condition(x.s.pc.what), x.s.queue, batches) == w && w.Found? && w.incoming
             == []
    requires var sent := Concat(batches);
             |x.s.wire| <= |sent| && sent == x.s.wire + sent[|x.s.wire|..] && OwedAfter(x.s.owed, sent[|x.s.wire|..])
                 == Some(owed)
    requires Resume(x.s.(owed := owed, wire := []), x.s.pc.what, w.message, w.queue).pc != Failed
    ensures Reaches(x.s, Resume(x.s.(owed := owed, wire := []), x.s.pc.what, w.message, w.queue))
  {
    var s, what, sent := x.s, x.s.pc.what, Concat(batches);
    ReachesNext(s, SearchQueue);
    var searched := s.(pc := Waiting(what, true));
    assert Apply(s, SearchQueue) == searched;
    hide Reaches, Resume, OwedAfter, Filter, LastMatch, Collect, Apply, Enabled, Condition;
    AdapterSends(searched, sent[|s.wire|..]);
    var fed := searched.(wire := sent, owed := owed);
    ReachesFurther(s, searched, fed);
    PcIsReplaced(fed.(wire := []), s.(owed := owed, wire := []), what, w.message, w.queue);
    Reading(fed, batches);
    ReachesFurther(s, fed, Resume(fed.(wire := []), what, w.message, w.queue));
  }

  lemma ResumeKeepsWire(s: State, what: Awaited, found: Item, queue: seq<Item>)
    ensures Resume(s, what, found, queue).wire == s.wire
  {}

  /** The wait is carried out by a run. */
  lemma StepWaitRuns(x: Point)
    requires x.Valid() && x.s.pc.Waiting? && !x.s.pc.searched && StepWait(x).Went?
    ensures StepWait(x).to.Valid() && Reaches(x.s, StepWait(x).to.s)
  {
    var s, what, p := x.s, x.s.pc.what, Condition(x.s.pc.what);
    var first := FirstMatch(p, s.queue);
    if first.None? {
      var k := StepWaitReads(x);
      NonEmptyPart(x.supply, k);
      var sent, w := Concat(x.supply[..k]), Collect(p, s.queue, x.supply);
      hide Resume, Collect, OwedAfter, Reaches, Condition, StepWait;
      var owed := OwedAfter(s.owed, sent[|s.wire|..]).value;
      SearchAndRead(x, x.supply[..k], owed, Found(w.message, w.queue, []));
      ResumeKeepsWire(s.(owed := owed, wire := []), what, w.message, w.queue);
    } else {
      ReachesNext(s, SearchQueue);
      ResumeKeepsWire(s, what, s.queue[first.value], Without(s.queue, first.value));
      hide Resume, Collect, OwedAfter, Reaches;
    }
  }

  lemma PcIsReplaced(a: State, b: State, what: Awaited, found: Item, queue: seq<Item>)
    requires a.(pc := Polling) == b.(pc := Polling) && Resume(b, what, found, queue).pc != Failed
    ensures Resume(a, what, found, queue) == Resume(b, what, found, queue)
  {}

  // ---------------------------------------------------------------- draining the queue

  const SERVED := Serving(false, false, false)

  /** The front of the queue is handled, waits included. */
  function StepFront(x: Point): Stepped
    requires x.s.pc == SERVED && x.s.queue != [] && Loaded(x.s, x.supply)
  {
    var next := HandleFrontNext(x.s);
    if next.pc.Waiting? then StepWait(Point(next, x.supply)) else GoOn(next, x.supply)
  }

  function Size(x: Point): nat { |x.s.queue| + |Concat(x.supply)| }

  lemma UsedSuffix<T>(p: T -> bool, queue: seq<T>, supply: seq<seq<T>>)
    ensures var w := Selection.Wait(p, queue, supply);
            w.Found? ==> 0 <= Used(w, supply) <= |supply| && w.incoming == supply[Used(w, supply)..]
  {
    WaitShrinks(p, queue, supply);
    var w := Selection.Wait(p, queue, supply);
    hide Selection.Wait;
    if w.Found? {
      var n: nat :| n <= |supply| && w.incoming == supply[n..];
      assert Used(w, supply) == n;
    }
  }

  /** What the loop goes on with after a wait; `fed` is the state with what the adapter has sent. */
  lemma StepWaitGives(x: Point) returns (fed: State)
    requires x.s.pc.Waiting? && StepWait(x).Went?
    ensures var w, y := Selection.Wait(Condition(x.s.pc.what), x.s.queue, x.supply), StepWait(x).to;
            && w.Found? && y.supply == w.incoming && y.s.pc != Failed
            && fed == x.s.(owed := fed.owed, wire := fed.wire) && y.s == Resume(fed, x.s.pc.what, w.message, w.queue)
            && (y.supply != x.supply ==> fed.wire == []) && (y.supply == x.supply ==> fed.wire == x.s.wire)
  {
    var w := Selection.Wait(Condition(x.s.pc.what), x.s.queue, x.supply);
    UsedSuffix(Condition(x.s.pc.what), x.s.queue, x.supply);
    hide Selection.Wait, Resume, OwedAfter, Concat, Condition;
    var k := Used(w, x.supply);
    fed := x.s;
    if k > 0 {
      fed := x.s.(owed := OwedAfter(x.s.owed, Concat(x.supply[..k])[|x.s.wire|..]).value, wire := []);
    }
  }

  lemma StepWaitShrinks(x: Point)
    requires x.s.pc.Waiting? && x.s.pc.what.ForThreads? && Loaded(x.s, x.supply) && StepWait(x).Went?
    ensures StepWait(x).to.s.pc == SERVED && Size(StepWait(x).to) < Size(x)
    ensures Loaded(StepWait(x).to.s, StepWait(x).to.supply)
  {
    WaitShrinks(Condition(x.s.pc.what), x.s.queue, x.supply);
    var fed := StepWaitGives(x);
    hide StepWait, Selection.Wait, Concat;
    ResumeKeepsWire(fed, x.s.pc.what, Selection.Wait(Condition(x.s.pc.what), x.s.queue, x.supply).message,
                    Selection.Wait(Condition(x.s.pc.what), x.s.queue, x.supply).queue);
  }

  /** Before any wait, handling the front takes nothing from the stream, and only a stop begins a wait. */
  lemma FrontHandled(s: State)
    requires s.pc == SERVED && s.queue != []
    ensures var next := HandleFrontNext(s);
            && next.wire == s.wire
            && (next.pc.Waiting? ==> next.pc == Waiting(ForThreads, false) && next.queue == s.queue)
            && (!next.pc.Waiting? && next.pc != Failed ==> next.pc == SERVED && next.queue == s.queue[1..])
  {}

  lemma StepFrontShrinks(x: Point)
    requires x.s.pc == SERVED && x.s.queue != [] && Loaded(x.s, x.supply) && StepFront(x).Went?
    ensures var y := StepFront(x).to; y.s.pc == SERVED && Size(y) < Size(x) && Loaded(y.s, y.supply)
  {
    hide StepWait, Concat, Loaded, HandleFrontNext;
    var next := HandleFrontNext(x.s);
    FrontHandled(x.s);
    SameLoad(x.s, next, x.supply);
    if next.pc.Waiting? {
      StepWaitShrinks(Point(next, x.supply));
    }
  }

  lemma SameLoad(a: State, b: State, supply: seq<seq<Item>>)
    requires a.wire == b.wire
    ensures Loaded(a, supply) == Loaded(b, supply)
  {}

  function StepDrain(x: Point): Stepped
    requires x.s.pc == SERVED && Loaded(x.s, x.supply)
    decreases Size(x)
  {
    if x.s.queue == [] then Went(x)
    else match StepFront(x)
      case Went(y) => StepFrontShrinks(x); StepDrain(y)
      case other => other
  }

  lemma StepFrontRuns(x: Point)
    requires x.Valid() && x.s.pc == SERVED && x.s.queue != [] && StepFront(x).Went?
    ensures StepFront(x).to.Valid() && Reaches(x.s, StepFront(x).to.s)
  {
    hide Reaches, StepWait, HandleFrontNext, Loaded;
    var next := HandleFrontNext(x.s);
    ReachesNext(x.s, HandleFront);
    FrontHandled(x.s);
    SameLoad(x.s, next, x.supply);
    hide Apply;
    if next.pc.Waiting? {
      StepWaitRuns(Point(next, x.supply));
      ReachesFurther(x.s, next, StepFront(x).to.s);
    }
  }

  lemma {:induction false} StepDrainRuns(x: Point)
    requires x.Valid() && x.s.pc == SERVED && StepDrain(x).Went?
    ensures StepDrain(x).to.Valid() && Reaches(x.s, StepDrain(x).to.s)
    ensures StepDrain(x).to.s.queue == [] && StepDrain(x).to.s.pc == SERVED
    decreases Size(x)
  {
    hide Reaches, StepFront;
    if x.s.queue == [] {
      ReachesItself(x.s);
    } else {
      StepFrontRuns(x);
      StepFrontShrinks(x);
      StepDrainRuns(StepFront(x).to);
      ReachesFurther(x.s, StepFront(x).to.s, StepDrain(x).to.s);
    }
  }

  // ---------------------------------------------------------------- a round

  /** The adapter sends the next batch, unless it has done so. */
  function Feed(x: Point): Stepped {
    if x.supply == [] then Unfed
    else if x.s.wire != [] then Went(x)
    else match OwedAfter(x.s.owed, x.supply[0])
      case None => Unfed
      case Some(owed) => Went(x.(s := x.s.(wire := x.supply[0], owed := owed)))
  }

  /** The poll reports sockets, after the adapter has made the stream readable if that is among them. */
  function StepPoll(x: Point, poll: L.Poll): Stepped {
    var fed := if poll.tcp then Feed(x) else Went(x);
    if !fed.Went? || x.s.stop || !(poll.header || poll.control || poll.tcp) then Unfed
    else if poll.header && x.s.headerIn.None? then Unfed
    else if poll.control && x.s.requestIn.None? then Unfed
    else Went(fed.to.(s := fed.to.s.(pc := Serving(poll.header, poll.control, poll.tcp))))
  }

  function StepHeader(x: Point): Stepped
    requires x.s.pc.Serving?
  {
    if !x.s.pc.header then Went(x) else GoOn(Apply(x.s, ServeHeader), x.supply)
  }

  function StepOn(x: Stepped): Stepped { if x.Went? && x.to.s.pc.Waiting? then StepWait(x.to) else x }

  function StepControl(x: Point): Stepped
    requires x.s.pc.Serving? && !x.s.pc.header
  {
    if !x.s.pc.control then Went(x) else StepOn(StepOn(StepOn(GoOn(ServeControlNext(x.s), x.supply))))
  }

  function StepTcp(x: Point): Stepped
    requires x.s.pc.Serving?
  {
    if !x.s.pc.tcp then Went(x)
    else match Feed(x)
      case Went(fed) =>
        Went(Point(fed.s.(queue := fed.s.queue + fed.s.wire, wire := [], pc := SERVED), fed.supply[1..]))
      case other => other
  }

  function StepReady(x: Point, poll: L.Poll): Stepped {
    match StepPoll(x, poll)
    case Went(x1) => (
      match StepHeader(x1)
      case Went(x2) => (
        match StepControl(x2)
        case Went(x3) => if x3.s.pc == Serving(false, false, poll.tcp) then StepTcp(x3) else Failing
        case other => other)
      case other => other)
    case other => other
  }

  /** A round of the loop. */
  function StepRound(x: Point, poll: L.Poll): Stepped {
    match StepReady(x, poll)
    case Went(ready) =>
      if ready.s.pc != SERVED || !Loaded(ready.s, ready.supply) then Failing
      else (match StepDrain(ready)
            case Went(end) => Went(end.(s := end.s.(pc := Polling)))
            case other => other)
    case other => other
  }

  /** A step that is a run and keeps what the next one needs. */
  ghost predicate Ran(x: Point, y: Stepped) { y.Went? ==> y.to.Valid() && Reaches(x.s, y.to.s) }

  lemma FeedRuns(x: Point)
    requires x.Valid()
    ensures Ran(x, Feed(x)) && (Feed(x).Went? ==> Feed(x).to.s.wire != [] && Feed(x).to.supply == x.supply)
    ensures Feed(x).Went? ==> Feed(x).to.s == x.s.(wire := x.supply[0], owed := Feed(x).to.s.owed)
  {
    hide Reaches, OwedAfter;
    if x.supply != [] && x.s.wire == [] && OwedAfter(x.s.owed, x.supply[0]).Some? {
      AdapterSends(x.s, x.supply[0]);
      assert [] + x.supply[0] == x.supply[0];
    } else {
      ReachesItself(x.s);
    }
  }

  lemma StepPollRuns(x: Point, poll: L.Poll)
    requires x.Valid() && x.s.pc == Polling
    ensures Ran(x, StepPoll(x, poll))
  {
    if StepPoll(x, poll).Went? {
      FeedRuns(x);
      ReachesItself(x.s);
      var fed := if poll.tcp then Feed(x).to else x;
      hide Reaches, Feed;
      ReachesNext(fed.s, Poll(poll.header, poll.control, poll.tcp));
      ReachesFurther(x.s, fed.s, StepPoll(x, poll).to.s);
    }
  }

  lemma StepHeaderRuns(x: Point)
    requires x.Valid() && x.s.pc.Serving?
    ensures Ran(x, StepHeader(x)) && (StepHeader(x).Went? ==> StepHeader(x).to.s.pc == x.s.pc.(header := false))
  {
    hide Reaches;
    ReachesItself(x.s);
    if x.s.pc.header {
      ReachesNext(x.s, ServeHeader);
    }
  }

  /** The handshake's waits begin unsearched. */
  predicate Unsearched(s: State) { s.pc.Waiting? ==> !s.pc.searched }

  lemma ResumeUnsearched(s: State, what: Awaited, found: Item, queue: seq<Item>)
    ensures Unsearched(Resume(s, what, found, queue))
  {}

  lemma StepOnRuns(start: State, x: Stepped)
    requires x.Went? ==> x.to.Valid() && Unsearched(x.to.s) && Reaches(start, x.to.s)
    ensures StepOn(x).Went? ==>
              StepOn(x).to.Valid() && Unsearched(StepOn(x).to.s) && Reaches(start, StepOn(x).to.s)
  {
    if x.Went? && x.to.s.pc.Waiting? && StepWait(x.to).Went? {
      StepWaitRuns(x.to);
      var fed := StepWaitGives(x.to);
      var w := Selection.Wait(Condition(x.to.s.pc.what), x.to.s.queue, x.to.supply);
      ResumeUnsearched(fed, x.to.s.pc.what, w.message, w.queue);
      hide Reaches, StepWait, Resume, Selection.Wait;
      ReachesFurther(start, x.to.s, StepOn(x).to.s);
    }
    hide Reaches, StepWait, Resume;
  }

  lemma StepControlRuns(x: Point)
    requires x.Valid() && x.s.pc.Serving? && !x.s.pc.header
    ensures Ran(x, StepControl(x))
  {
    hide Reaches, StepWait, Loaded;
    ReachesItself(x.s);
    assert StepOn(StepOn(StepOn(Failing))) == Failing;
    hide StepOn;
    if x.s.pc.control && ServeControlNext(x.s).pc != Failed {
      var next := x.(s := ServeControlNext(x.s));
      ReachesNext(x.s, ServeControl);
      SameLoad(x.s, next.s, x.supply);
      assert Unsearched(next.s) && Apply(x.s, ServeControl) == next.s;
      hide ServeControlNext, Apply, Unsearched;
      StepOnRuns(x.s, Went(next));
      StepOnRuns(x.s, StepOn(Went(next)));
      StepOnRuns(x.s, StepOn(StepOn(Went(next))));
    }
  }

  lemma StepTcpRuns(x: Point)
    requires x.Valid() && x.s.pc.Serving? && !x.s.pc.header && !x.s.pc.control
    ensures Ran(x, StepTcp(x)) && (StepTcp(x).Went? ==> StepTcp(x).to.s.pc == SERVED)
  {
    ReachesItself(x.s);
    if x.s.pc.tcp && Feed(x).Went? {
      FeedRuns(x);
      var fed := Feed(x).to;
      hide Reaches, Feed;
      var n := |fed.s.wire|;
      assert fed.s.wire[..n] == fed.s.wire && fed.s.wire[n..] == [];
      ReachesNext(fed.s, ServeTcp(n));
      NonEmptyRest(fed.supply);
      ReachesFurther(x.s, fed.s, StepTcp(x).to.s);
    }
    hide Reaches;
  }

  lemma RanFurther(x: Point, y: Point, z: Stepped)
    requires Ran(x, Went(y)) && Ran(y, z)
    ensures Ran(x, z)
  {
    hide Reaches;
    if z.Went? {
      ReachesFurther(x.s, y.s, z.to.s);
    }
  }

  lemma StepReadyRuns(x: Point, poll: L.Poll)
    requires x.Valid() && x.s.pc == Polling
    ensures Ran(x, StepReady(x, poll)) && (StepReady(x, poll).Went? ==> StepReady(x, poll).to.s.pc == SERVED)
  {
    hide Reaches, StepHeader, StepControl, StepTcp;
    var x1 := StepPoll(x, poll);
    StepPollRuns(x, poll);
    if x1.Went? {
      StepHeaderRuns(x1.to);
      var x2 := StepHeader(x1.to);
      RanFurther(x, x1.to, x2);
      if x2.Went? {
        StepControlRuns(x2.to);
        var x3 := StepControl(x2.to);
        RanFurther(x, x2.to, x3);
        if x3.Went? && x3.to.s.pc == Serving(false, false, poll.tcp) {
          StepTcpRuns(x3.to);
          RanFurther(x, x3.to, StepTcp(x3.to));
        }
      }
    }
    hide StepPoll, Ran;
  }

  /** A round of the loop is a run of the system. */
  lemma StepRoundRuns(x: Point, poll: L.Poll)
    requires x.Valid() && x.s.pc == Polling
    ensures Ran(x, StepRound(x, poll))
    ensures StepRound(x, poll).Went? ==>
              StepRound(x, poll).to.s.pc == Polling && StepRound(x, poll).to.s.queue == []
  {
    hide Reaches, StepReady, StepDrain;
    StepReadyRuns(x, poll);
    var ready := StepReady(x, poll);
    if ready.Went? && StepDrain(ready.to).Went? {
      StepDrainRuns(ready.to);
      var end := StepDrain(ready.to).to;
      RanFurther(x, ready.to, Went(end));
      ReachesNext(end.s, QueueDone);
      ReachesFurther(x.s, end.s, end.s.(pc := Polling));
    }
  }
}
