/** The loops of the shell and heartbeat threads as they are programmed, one message after the other.
    SplitServer has the same threads as steps between which the other threads act. */
module ServerLoops {
  import opened Basics
  import opened JsonText
  import opened Wire
  import SplitServer
  import SplitServerTheorems

  // ---------------------------------------------------------------- the shell loop

  /** What has arrived on the two sockets since the poll before. */
  datatype Arrival = Arrival(shell: seq<seq<Bytes>>, controller: seq<Bytes>)

  /** What the loop takes after a poll; nothing if the poll has nothing to report. */
  datatype Turn = ShellTurn(frames: seq<Bytes>) | ControllerTurn(text: Bytes) | NoTurn

  /** `Threw`: a controller text that is not JSON. `Undefined`: a message with too few frames. `Waiting`:
      nothing more arrives. */
  datatype Ending = Stopped | Threw | Undefined | Waiting

  function ShellArrived(arrivals: seq<Arrival>): seq<seq<Bytes>> {
    if arrivals == [] then [] else ShellArrived(arrivals[..|arrivals| - 1]) + arrivals[|arrivals| - 1].shell
  }

  function ControllerArrived(arrivals: seq<Arrival>): seq<Bytes> {
    if arrivals == [] then [] else ControllerArrived(arrivals[..|arrivals| - 1]) + arrivals[|arrivals| - 1].controller
  }

  function ShellOf(t: Turn): seq<seq<Bytes>> { if t.ShellTurn? then [t.frames] else [] }

  function ShellTaken(turns: seq<Turn>): seq<seq<Bytes>> {
    if turns == [] then [] else ShellTaken(turns[..|turns| - 1]) + ShellOf(turns[|turns| - 1])
  }

  function TextOf(t: Turn): seq<Bytes> { if t.ControllerTurn? then [t.text] else [] }

  function TextsTaken(turns: seq<Turn>): seq<Bytes> {
    if turns == [] then [] else TextsTaken(turns[..|turns| - 1]) + TextOf(turns[|turns| - 1])
  }

  function IsShellTurn(): Turn -> bool { (t: Turn) => t.ShellTurn? }

  function IsControllerTurn(): Turn -> bool { (t: Turn) => t.ControllerTurn? }

  /** What has been taken are the messages of the turns, in order. */
  lemma {:induction false} TakenExactly(turns: seq<Turn>)
    ensures Picks(IsShellTurn(), (t: Turn) => if t.ShellTurn? then t.frames else [], turns, ShellTaken(turns))
    ensures Picks(IsControllerTurn(), (t: Turn) => if t.ControllerTurn? then t.text else [], turns, TextsTaken(turns))
    decreases |turns|
  {
    if turns != [] {
      var front, last := turns[..|turns| - 1], turns[|turns| - 1];
      TakenExactly(front);
      assert turns == front + [last];
      PicksOneMore(IsShellTurn(), (t: Turn) => if t.ShellTurn? then t.frames else [], front, ShellTaken(front), last);
      PicksOneMore(IsControllerTurn(), (t: Turn) => if t.ControllerTurn? then t.text else [], front,
                   TextsTaken(front), last);
      hide Picks;
    }
  }

  /** What has arrived are the messages of the arrivals, in order. */
  lemma {:induction false} ArrivedExactly(arrivals: seq<Arrival>)
    ensures ShellArrived(arrivals) == Concat(seq(|arrivals|, i requires 0 <= i < |arrivals| => arrivals[i].shell))
    ensures ControllerArrived(arrivals) ==
            Concat(seq(|arrivals|, i requires 0 <= i < |arrivals| => arrivals[i].controller))
    decreases |arrivals|
  {
    if arrivals != [] {
      var n := |arrivals| - 1;
      ArrivedExactly(arrivals[..n]);
      ConcatTake(seq(|arrivals|, i requires 0 <= i < |arrivals| => arrivals[i].shell), n);
      ConcatTake(seq(|arrivals|, i requires 0 <= i < |arrivals| => arrivals[i].controller), n);
      PartsTaken(arrivals, n);
    }
  }

  lemma PartsTaken(arrivals: seq<Arrival>, n: nat)
    requires |arrivals| == n + 1
    ensures var parts := seq(|arrivals|, i requires 0 <= i < |arrivals| => arrivals[i].shell);
            parts[..n + 1] == parts && parts[..n] == seq(n, i requires 0 <= i < n => arrivals[..n][i].shell)
    ensures var parts := seq(|arrivals|, i requires 0 <= i < |arrivals| => arrivals[i].controller);
            parts[..n + 1] == parts && parts[..n] == seq(n, i requires 0 <= i < n => arrivals[..n][i].controller)
  {}

  /** The turn of a poll that finds these messages. */
  function NextTurn(shell: seq<seq<Bytes>>, texts: seq<Bytes>): Turn {
    if shell != [] then ShellTurn(shell[0]) else if texts != [] then ControllerTurn(texts[0]) else NoTurn
  }

  /** The turn at poll `k`: the oldest shell message not taken yet, or if there is none the oldest
      controller text not taken yet. */
  ghost predicate RightTurn(arrivals: seq<Arrival>, turns: seq<Turn>, k: nat)
    requires k < |turns| <= |arrivals|
  {
    var shell, texts := ShellArrived(arrivals[..k + 1]), ControllerArrived(arrivals[..k + 1]);
    match turns[k]
    case ShellTurn(frames) => ShellTaken(turns[..k]) + [frames] <= shell
    case ControllerTurn(text) => ShellTaken(turns[..k]) == shell && TextsTaken(turns[..k]) + [text] <= texts
    case NoTurn => ShellTaken(turns[..k]) == shell && TextsTaken(turns[..k]) == texts
  }

  class ShellRunner {
    const auth: Authentication
    const codec: JsonCodec
    /** The internal listener of the server. */
    const listener: Json -> Json
    var shellIn: seq<seq<Bytes>>
    var controllerIn: seq<Bytes>
    /** What was handed to the shell listener and sent on the controller socket. */
    var handled: seq<Message>
    var replies: seq<Bytes>

    constructor (auth: Authentication, codec: JsonCodec, listener: Json -> Json)
      ensures this.auth == auth && this.codec == codec && this.listener == listener
      ensures shellIn == [] && controllerIn == [] && handled == [] && replies == []
    {
      this.auth, this.codec, this.listener := auth, codec, listener;
      shellIn, controllerIn, handled, replies := [], [], [], [];
    }

    /** What a turn hands to the shell listener; a message that cannot be read is dropped. */
    function HandledBy(t: Turn): seq<Message> {
      if t.ShellTurn? && Read(auth, codec, t.frames).Ok? then [Read(auth, codec, t.frames).value] else []
    }

    function HandledIn(turns: seq<Turn>): seq<Message> {
      if turns == [] then [] else HandledIn(turns[..|turns| - 1]) + HandledBy(turns[|turns| - 1])
    }

    /** The answer to a controller text, sent before anything else is taken. */
    function RepliesTo(t: Turn): seq<Bytes> {
      if !t.ControllerTurn? then []
      else if t.text == SplitServer.STOP then [SplitServer.STOP]
      else if codec.Readable(t.text) then [codec.dump(listener(codec.parse(t.text).value))]
      else []
    }

    function RepliesIn(turns: seq<Turn>): seq<Bytes> {
      if turns == [] then [] else RepliesIn(turns[..|turns| - 1]) + RepliesTo(turns[|turns| - 1])
    }

    /** How a turn ends the loop, if it does. */
    function EndedBy(t: Turn): Ending {
      match t
      case ShellTurn(frames) => if Read(auth, codec, frames) == Failed(EmptyPop) then Undefined else Waiting
      case ControllerTurn(text) =>
        if text == SplitServer.STOP then Stopped else if codec.Readable(text) then Waiting else Threw
      case NoTurn => Waiting
    }

    /** One poll and what follows it: the shell socket has priority. */
    method TakeTurn(arrival: Arrival) returns (ending: Ending, ghost turn: Turn)
      modifies this
      ensures turn == NextTurn(old(shellIn) + arrival.shell, old(controllerIn) + arrival.controller)
      ensures old(shellIn) + arrival.shell == ShellOf(turn) + shellIn
      ensures old(controllerIn) + arrival.controller == TextOf(turn) + controllerIn
      ensures handled == old(handled) + HandledBy(turn) && replies == old(replies) + RepliesTo(turn)
      ensures ending == EndedBy(turn)
    {
      hide Read;
      shellIn := shellIn + arrival.shell;
      controllerIn := controllerIn + arrival.controller;
      turn := NextTurn(shellIn, controllerIn);
      ending := Waiting;
      if shellIn != [] {
        var message := Read(auth, codec, shellIn[0]);
        shellIn := shellIn[1..];
        if message == Failed(EmptyPop) {
          return Undefined, turn;
        }
        if message.Ok? {
          handled := handled + [message.value];
        }
      } else if controllerIn != [] {
        var text := controllerIn[0];
        controllerIn := controllerIn[1..];
        if text == SplitServer.STOP {
          replies := replies + [text];
          return Stopped, turn;
        }
        if !codec.Readable(text) {
          return Threw, turn;
        }
        replies := replies + [codec.dump(listener(codec.parse(text).value))];
      }
    }

    /** Runs the loop over what arrives between the polls. */
    method Run(arrivals: seq<Arrival>) returns (ending: Ending, ghost turns: seq<Turn>)
      requires shellIn == [] && controllerIn == [] && handled == [] && replies == []
      modifies this
      ensures AllRight(arrivals, turns)
      ensures handled == HandledIn(turns) && replies == RepliesIn(turns)
      ensures HandedOn(auth, codec, ShellTaken(turns), handled)
      ensures AnsweredInTurn(codec, listener, TextsTaken(turns), replies, ending)
      ensures forall k :: 0 <= k < |turns| - 1 ==> EndedBy(turns[k]).Waiting?
      ensures turns != [] ==> ending == EndedBy(turns[|turns| - 1])
      ensures ending == Waiting ==> |turns| == |arrivals|
    {
      hide RightTurn, NextTurn, ShellOf, TextOf, ShellTaken, TextsTaken, ShellArrived, ControllerArrived;
      hide HandledBy, RepliesTo, HandledIn, RepliesIn, EndedBy;
      turns, ending := [], Waiting;
      NothingYet();
      var i := 0;
      while i < |arrivals| && ending == Waiting
        invariant i == |turns| <= |arrivals|
        invariant forall k: nat :: k < |turns| ==> RightTurn(arrivals, turns, k)
        invariant ShellTaken(turns) + shellIn == ShellArrived(arrivals[..i])
        invariant TextsTaken(turns) + controllerIn == ControllerArrived(arrivals[..i])
        invariant handled == HandledIn(turns) && replies == RepliesIn(turns)
        invariant forall k :: 0 <= k < |turns| - 1 ==> EndedBy(turns[k]).Waiting?
        invariant if turns == [] then ending == Waiting else ending == EndedBy(turns[|turns| - 1])
        decreases |arrivals| - i
      {
        ghost var shellBefore, textsBefore, turn := shellIn, controllerIn, NoTurn;
        ending, turn := TakeTurn(arrivals[i]);
        TurnsStep(turns, turn);
        TurnTaken(arrivals, turns, turn, shellBefore, textsBefore, shellIn, controllerIn);
        RightTurnsGrow(arrivals, turns, turn);
        turns := turns + [turn];
        i := i + 1;
      }
      HandledInOrder(turns);
      AnsweredInOrder(turns);
    }

    lemma NothingYet()
      ensures ShellTaken([]) == [] && TextsTaken([]) == [] && HandledIn([]) == [] && RepliesIn([]) == []
      ensures ShellArrived([]) == [] && ControllerArrived([]) == []
    {}

    lemma {:induction false} HandledInOrder(turns: seq<Turn>)
      ensures HandedOn(auth, codec, ShellTaken(turns), HandledIn(turns))
      decreases |turns|
    {
      if turns != [] {
        var front, t := turns[..|turns| - 1], turns[|turns| - 1];
        HandledInOrder(front);
        hide Read, HandedOn;
        if t.ShellTurn? {
          OneMoreHandedOn(auth, codec, ShellTaken(front), HandledIn(front), t.frames);
        } else {
          assert ShellTaken(front) + [] == ShellTaken(front) && HandledIn(front) + [] == HandledIn(front);
        }
      }
    }

    lemma {:induction false} AnsweredInOrder(turns: seq<Turn>)
      requires forall k :: 0 <= k < |turns| - 1 ==> EndedBy(turns[k]).Waiting?
      ensures var ending := if turns == [] then Waiting else EndedBy(turns[|turns| - 1]);
              AnsweredInTurn(codec, listener, TextsTaken(turns), RepliesIn(turns), ending)
      decreases |turns|
    {
      if turns != [] {
        AnsweredInOrder(turns[..|turns| - 1]);
        hide Read;
      }
    }

    /** How a turn ends the loop: by a stop, by a text that is no JSON, or by a message whose first delimiter has less
        than five frames behind it. */
    lemma EndingMeans(t: Turn)
      ensures EndedBy(t) == Stopped <==> t.ControllerTurn? && t.text == "stop"
      ensures EndedBy(t) == Threw <==> t.ControllerTurn? && t.text != "stop" && codec.parse(t.text).None?
      ensures EndedBy(t) == Undefined <==> t.ShellTurn? && (t.frames == [] || exists n: nat :: CutShortAt(t.frames, n))
    {
      hide Read;
      if t.ShellTurn? {
        NoDelimiterExactly(auth, codec, t.frames);
        if n: nat :| n + 1 < |t.frames| && t.frames[n] == DELIMITER && DELIMITER !in t.frames[..n] {
          UnreadableExactly(auth, codec, t.frames, n);
          assert CutShortAt(t.frames, n) <==> |t.frames| < n + 6;
          forall k: nat ensures CutShortAt(t.frames, k) ==> k == n {
            if k < n {
              assert t.frames[..n][k] == t.frames[k];
            } else if n < k < |t.frames| {
              assert t.frames[..k][n] == t.frames[n];
            }
          }
        } else {
          FirstDelimiter(t.frames);
        }
      }
    }

    lemma TurnsStep(turns: seq<Turn>, t: Turn)
      ensures HandledIn(turns + [t]) == HandledIn(turns) + HandledBy(t)
      ensures RepliesIn(turns + [t]) == RepliesIn(turns) + RepliesTo(t)
    {
      assert (turns + [t])[..|turns|] == turns;
    }
  }

  /** Of the messages taken, exactly those that can be read have been handed on, in order, as what they are read as. */
  ghost predicate HandedOn(auth: Authentication, c: JsonCodec, taken: seq<seq<Bytes>>, handled: seq<Message>) {
    if taken == [] then handled == []
    else
      var front, last := taken[..|taken| - 1], taken[|taken| - 1];
      if exists m :: IsMessage(auth, c, last, m) then
        && handled != [] && IsMessage(auth, c, last, handled[|handled| - 1])
        && HandedOn(auth, c, front, handled[..|handled| - 1])
      else HandedOn(auth, c, front, handled)
  }

  /** The first delimiter is at `n`, with at least one frame behind it, but too few for a message. */
  predicate CutShortAt(frames: seq<Bytes>, n: nat) {
    n + 1 < |frames| < n + 6 && frames[n] == DELIMITER && DELIMITER !in frames[..n]
  }

  /** A delimiter before the last frame is preceded by a first one. */
  lemma FirstDelimiter(frames: seq<Bytes>)
    requires forall n: nat :: !(n + 1 < |frames| && frames[n] == DELIMITER && DELIMITER !in frames[..n])
    ensures frames != [] ==> DELIMITER !in frames[..|frames| - 1]
  {
    NoBoundaryExactly(frames);
    if Boundary(frames).Some? {
      BoundaryExactly(frames, Boundary(frames).value);
    }
  }

  /** Each controller text has been answered before the next was taken, `stop` by itself and any other by the listener;
      only a text that is no JSON remains without an answer. */
  predicate AnsweredInTurn(c: JsonCodec, listener: Json -> Json, texts: seq<Bytes>, replies: seq<Bytes>, ending: Ending)
  {
    && |texts| == |replies| + (if ending == Threw then 1 else 0)
    && (ending == Threw ==> c.parse(texts[|texts| - 1]).None?)
    && forall i :: 0 <= i < |replies| ==>
         if texts[i] == "stop" then replies[i] == "stop"
         else c.parse(texts[i]).Some? && replies[i] == c.dump(listener(c.parse(texts[i]).value))
  }

  lemma OneMoreHandedOn(auth: Authentication, c: JsonCodec, taken: seq<seq<Bytes>>, handled: seq<Message>,
                        frames: seq<Bytes>)
    requires HandedOn(auth, c, taken, handled)
    ensures var m := Read(auth, c, frames);
            HandedOn(auth, c, taken + [frames], handled + if m.Ok? then [m.value] else [])
  {
    assert (taken + [frames])[..|taken|] == taken && handled + [] == handled;
    forall m ensures Read(auth, c, frames) == Ok(m) <==> IsMessage(auth, c, frames, m) {
      ReadableExactly(auth, c, frames, m);
    }
    hide Read, IsMessage;
    var m := Read(auth, c, frames);
    if m.Ok? {
      assert (handled + [m.value])[..|handled|] == handled;
    }
  }

  /** Honest messages, none of whose identities is the delimiter, all arrive at the listener. */
  lemma {:induction false} HonestMessagesArrive(auth: Authentication, c: JsonCodec, taken: seq<seq<Bytes>>,
                                                handled: seq<Message>, ms: seq<Message>)
    requires c.Valid() && HandedOn(auth, c, taken, handled) && |taken| == |ms|
    requires forall i :: 0 <= i < |ms| ==> taken[i] == Frames(auth, c, ms[i]) && DELIMITER !in ms[i].identities
    ensures handled == ms
    decreases |ms|
  {
    hide Frames, IsMessage;
    if ms != [] {
      var n := |ms| - 1;
      RoundTripExactly(auth, c, ms[n]);
      ReadableExactly(auth, c, taken[n], ms[n]);
      ReadableExactly(auth, c, taken[n], handled[|handled| - 1]);
      hide Read;
      HonestMessagesArrive(auth, c, taken[..n], handled[..|handled| - 1], ms[..n]);
      assert ms == ms[..n] + [ms[n]] && handled == handled[..|handled| - 1] + [handled[|handled| - 1]];
    }
  }

  lemma ArrivalsStep(arrivals: seq<Arrival>, i: nat)
    requires i < |arrivals|
    ensures ShellArrived(arrivals[..i + 1]) == ShellArrived(arrivals[..i]) + arrivals[i].shell
    ensures ControllerArrived(arrivals[..i + 1]) == ControllerArrived(arrivals[..i]) + arrivals[i].controller
  {
    assert arrivals[..i + 1][..i] == arrivals[..i];
  }

  lemma TakenStep(turns: seq<Turn>, t: Turn)
    ensures ShellTaken(turns + [t]) == ShellTaken(turns) + ShellOf(t)
    ensures TextsTaken(turns + [t]) == TextsTaken(turns) + TextOf(t)
  {
    assert (turns + [t])[..|turns|] == turns;
  }

  /** Of what has arrived, one part has been taken; the next turn takes more of it. */
  lemma Moved<T>(taken: seq<T>, before: seq<T>, arrived: seq<T>, more: seq<T>, one: seq<T>, after: seq<T>)
    requires taken + before == arrived && before + more == one + after
    ensures taken + (before + more) == arrived + more
    ensures (taken + one) + after == arrived + more
  {
    Associative(taken, before, more);
    Associative(taken, one, after);
  }

  lemma PrefixStep<T>(taken: seq<T>, pending: seq<T>)
    ensures if pending == [] then taken + pending == taken else taken + [pending[0]] <= taken + pending
  {}

  /** A turn that takes the oldest of what is pending is the right one. */
  lemma OldestIsRight(arrivals: seq<Arrival>, turns: seq<Turn>, t: Turn, shell: seq<seq<Bytes>>, texts: seq<Bytes>)
    requires |turns| < |arrivals| && t == NextTurn(shell, texts)
    requires ShellTaken(turns) + shell == ShellArrived(arrivals[..|turns| + 1])
    requires TextsTaken(turns) + texts == ControllerArrived(arrivals[..|turns| + 1])
    ensures RightTurn(arrivals, turns + [t], |turns|)
  {
    hide ShellTaken, TextsTaken, ShellArrived, ControllerArrived;
    assert (turns + [t])[..|turns|] == turns;
    PrefixStep(ShellTaken(turns), shell);
    PrefixStep(TextsTaken(turns), texts);
  }

  /** The next turn is right, and what is taken and what is left still make up what has arrived. */
  lemma TurnTaken(arrivals: seq<Arrival>, turns: seq<Turn>, t: Turn, shellBefore: seq<seq<Bytes>>,
                  textsBefore: seq<Bytes>,
                  shellAfter: seq<seq<Bytes>>, textsAfter: seq<Bytes>)
    requires |turns| < |arrivals|
    requires ShellTaken(turns) + shellBefore == ShellArrived(arrivals[..|turns|])
    requires TextsTaken(turns) + textsBefore == ControllerArrived(arrivals[..|turns|])
    requires var arrival := arrivals[|turns|];
             && t == NextTurn(shellBefore + arrival.shell, textsBefore + arrival.controller)
             && shellBefore + arrival.shell == ShellOf(t) + shellAfter
             && textsBefore + arrival.controller == TextOf(t) + textsAfter
    ensures ShellTaken(turns + [t]) + shellAfter == ShellArrived(arrivals[..|turns| + 1])
    ensures TextsTaken(turns + [t]) + textsAfter == ControllerArrived(arrivals[..|turns| + 1])
    ensures RightTurn(arrivals, turns + [t], |turns|)
  {
    hide *;
    StillPending(arrivals, turns, shellBefore, textsBefore);
    var arrival := arrivals[|turns|];
    OldestIsRight(arrivals, turns, t, shellBefore + arrival.shell, textsBefore + arrival.controller);
    ArrivalsStep(arrivals, |turns|);
    TakenStep(turns, t);
    Moved(ShellTaken(turns), shellBefore, ShellArrived(arrivals[..|turns|]), arrival.shell, ShellOf(t), shellAfter);
    Moved(TextsTaken(turns), textsBefore, ControllerArrived(arrivals[..|turns|]), arrival.controller, TextOf(t),
          textsAfter);
  }

  lemma StillPending(arrivals: seq<Arrival>, turns: seq<Turn>, shell: seq<seq<Bytes>>, texts: seq<Bytes>)
    requires |turns| < |arrivals|
    requires ShellTaken(turns) + shell == ShellArrived(arrivals[..|turns|])
    requires TextsTaken(turns) + texts == ControllerArrived(arrivals[..|turns|])
    ensures ShellTaken(turns) + (shell + arrivals[|turns|].shell) == ShellArrived(arrivals[..|turns| + 1])
    ensures TextsTaken(turns) + (texts + arrivals[|turns|].controller) == ControllerArrived(arrivals[..|turns| + 1])
  {
    hide *;
    var n := |turns|;
    ArrivalsStep(arrivals, n);
    MorePending(ShellTaken(turns), shell, ShellArrived(arrivals[..n]), arrivals[n].shell,
                ShellArrived(arrivals[..n + 1]));
    MorePending(TextsTaken(turns), texts, ControllerArrived(arrivals[..n]), arrivals[n].controller,
                ControllerArrived(arrivals[..n + 1]));
  }

  lemma MorePending<T>(taken: seq<T>, pending: seq<T>, arrived: seq<T>, more: seq<T>, longer: seq<T>)
    requires taken + pending == arrived && longer == arrived + more
    ensures taken + (pending + more) == longer
  {}

  lemma RightTurnsGrow(arrivals: seq<Arrival>, turns: seq<Turn>, t: Turn)
    requires |turns| < |arrivals|
    ensures forall k: nat :: k < |turns| && RightTurn(arrivals, turns, k) ==> RightTurn(arrivals, turns + [t], k)
  {
    hide ShellTaken, TextsTaken, ShellArrived, ControllerArrived;
    forall k: nat | k < |turns| && RightTurn(arrivals, turns, k) ensures RightTurn(arrivals, turns + [t], k) {
      assert (turns + [t])[..k] == turns[..k];
    }
  }

  // ---------------------------------------------------------------- what the shell loop guarantees

  ghost predicate AllRight(arrivals: seq<Arrival>, turns: seq<Turn>) {
    |turns| <= |arrivals| && forall k: nat :: k < |turns| ==> RightTurn(arrivals, turns, k)
  }

  lemma AllRightShorter(arrivals: seq<Arrival>, turns: seq<Turn>)
    requires AllRight(arrivals, turns) && turns != []
    ensures AllRight(arrivals, turns[..|turns| - 1])
  {
    hide ShellTaken, TextsTaken, ShellArrived, ControllerArrived;
    var front := turns[..|turns| - 1];
    forall k: nat | k < |front| ensures RightTurn(arrivals, front, k) {
      assert front[..k] == turns[..k] && RightTurn(arrivals, turns, k);
    }
  }

  /** Both sockets are served in order of arrival, each message once: what has been taken is a beginning
      of what has arrived. */
  lemma {:induction false} TakesInOrder(arrivals: seq<Arrival>, turns: seq<Turn>)
    requires AllRight(arrivals, turns)
    ensures ShellTaken(turns) <= ShellArrived(arrivals[..|turns|])
    ensures TextsTaken(turns) <= ControllerArrived(arrivals[..|turns|])
    decreases |turns|
  {
    if turns != [] {
      var n := |turns| - 1;
      AllRightShorter(arrivals, turns);
      TakesInOrder(arrivals, turns[..n]);
      ArrivalsStep(arrivals, n);
      assert RightTurn(arrivals, turns, n) && turns == turns[..n] + [turns[n]];
      TakenStep(turns[..n], turns[n]);
      hide ShellTaken, TextsTaken, ShellArrived, ControllerArrived, AllRight;
    }
  }

  /** The arrivals determine the turns: nothing is left to chance. */
  lemma {:induction false} TurnsAreDetermined(arrivals: seq<Arrival>, a: seq<Turn>, b: seq<Turn>)
    requires AllRight(arrivals, a) && AllRight(arrivals, b) && |a| == |b|
    ensures a == b
    decreases |a|
  {
    if a != [] {
      var n := |a| - 1;
      AllRightShorter(arrivals, a);
      AllRightShorter(arrivals, b);
      TurnsAreDetermined(arrivals, a[..n], b[..n]);
      assert RightTurn(arrivals, a, n) && RightTurn(arrivals, b, n);
      SameLast(arrivals, a, b, n);
      assert a == a[..n] + [a[n]] && b == b[..n] + [b[n]];
    }
  }

  lemma SameLast(arrivals: seq<Arrival>, a: seq<Turn>, b: seq<Turn>, n: nat)
    requires n < |a| == |b| <= |arrivals| && a[..n] == b[..n]
    requires RightTurn(arrivals, a, n) && RightTurn(arrivals, b, n)
    ensures a[n] == b[n]
  {
    hide ShellTaken, TextsTaken, ShellArrived, ControllerArrived;
    var taken, texts := ShellTaken(a[..n]), TextsTaken(a[..n]);
    if a[n].ShellTurn? && b[n].ShellTurn? {
      assert (taken + [a[n].frames])[|taken|] == (taken + [b[n].frames])[|taken|];
    } else if a[n].ControllerTurn? && b[n].ControllerTurn? {
      assert (texts + [a[n].text])[|texts|] == (texts + [b[n].text])[|texts|];
    }
  }

  /** The steps of the system that one turn of the loop amounts to. */
  function StepsOf(auth: Authentication, c: JsonCodec, listener: Json -> Json, t: Turn): seq<SplitServer.Action> {
    match t
    case ShellTurn(frames) =>
      if Read(auth, c, frames).Ok? then [SplitServer.TakeShell(false), SplitServer.FinishShell]
      else [SplitServer.TakeShell(true)]
    case ControllerTurn(text) =>
      if text == SplitServer.STOP then [SplitServer.TakeController]
      else [SplitServer.TakeController, SplitServer.AnswerInternal(listener(SplitServer.Parsed(c, text)))]
    case NoTurn => []
  }

  /** The messages the poll finds, as the system counts them. */
  predicate Finds(s: SplitServer.State, t: Turn) {
    match t
    case ShellTurn(_) => s.shell.inbox > 0
    case ControllerTurn(text) => s.shell.inbox == 0 && s.shell.link.request == Some(text)
    case NoTurn => true
  }

  /** Undisturbed, a turn of the loop is a run of the system, which leaves the shell thread ready for the
      next turn or stopped, and the very answer of the loop in the link. */
  lemma TurnIsARun(runner: ShellRunner, s: SplitServer.State, t: Turn)
    requires s.shell.mode == SplitServer.Polling && Finds(s, t)
    requires t.ControllerTurn? && t.text != SplitServer.STOP ==> runner.codec.Readable(t.text)
    ensures var steps := StepsOf(runner.auth, runner.codec, runner.listener, t);
            && SplitServer.Runnable(runner.codec, s, steps)
            && var after := SplitServer.Exec(runner.codec, s, steps).shell;
               && after.mode == (if runner.EndedBy(t).Stopped? then SplitServer.ShellStopped else SplitServer.Polling)
               && after.inbox == s.shell.inbox - |ShellOf(t)|
               && (t.ControllerTurn? ==> after.link.request == None && after.link.reply == Some(runner.RepliesTo(t)[0]))
  {
    var c := runner.codec;
    var steps := StepsOf(runner.auth, c, runner.listener, t);
    hide Read;
    if |steps| == 2 {
      assert SplitServer.Enabled(s, steps[0]);
      var middle := SplitServer.Apply(c, s, steps[0]);
      assert SplitServer.Enabled(middle, steps[1]);
      SplitServerTheorems.RunOfOne(c, middle, steps[1]);
      SplitServerTheorems.RunOneMore(c, s, steps[0], [steps[1]]);
      assert steps == [steps[0]] + [steps[1]];
    } else if |steps| == 1 {
      SplitServerTheorems.RunOfOne(c, s, steps[0]);
      assert steps == [steps[0]];
    }
    hide SplitServer.Runnable, SplitServer.Exec;
  }

  // ---------------------------------------------------------------- the heartbeat loop

  /** One return of the poll: the message that each ready socket has. */
  datatype Beat = Beat(ping: Option<seq<Bytes>>, stop: Option<seq<Bytes>>)

  function PingOf(b: Beat): seq<seq<Bytes>> { if b.ping.Some? then [b.ping.value] else [] }

  function Pings(beats: seq<Beat>): seq<seq<Bytes>> {
    if beats == [] then [] else Pings(beats[..|beats| - 1]) + PingOf(beats[|beats| - 1])
  }

  class Heartbeat {
    var echoed: seq<seq<Bytes>>
    var acknowledged: seq<seq<Bytes>>

    constructor ()
      ensures echoed == [] && acknowledged == []
    {
      echoed, acknowledged := [], [];
    }

    /** Every ping up to and including the round of the first stop goes back unchanged, in order, with the
        identity frame it came with; the stop goes back once and ends the loop. */
    method Run(beats: seq<Beat>) returns (stopped: bool, n: nat)
      modifies this
      ensures n <= |beats| && echoed == old(echoed) + Pings(beats[..n])
      ensures forall i :: 0 <= i < n - 1 ==> beats[i].stop.None?
      ensures stopped <==> exists b :: b in beats && b.stop.Some?
      ensures if stopped then n > 0 && beats[n - 1].stop.Some? && acknowledged == old(acknowledged)
              + [beats[n - 1].stop.value]
              else n == |beats| && acknowledged == old(acknowledged)
    {
      hide Pings, PingOf;
      n := 0;
      PingsStart();
      while n < |beats|
        invariant n <= |beats| && echoed == old(echoed) + Pings(beats[..n])
        invariant acknowledged == old(acknowledged)
        invariant forall i :: 0 <= i < n ==> beats[i].stop.None?
      {
        var beat := beats[n];
        PingsStep(beats, n);
        Associative(old(echoed), Pings(beats[..n]), PingOf(beat));
        n := n + 1;
        if beat.ping.Some? {
          echoed := echoed + [beat.ping.value];
        }
        if beat.stop.Some? {
          acknowledged := acknowledged + [beat.stop.value];
          return true, n;
        }
      }
      stopped := false;
    }
  }

  function HasPing(): Beat -> bool { (b: Beat) => b.ping.Some? }

  /** The pings of some rounds are those of the rounds that have one. */
  lemma {:induction false} PingsExactly(beats: seq<Beat>)
    ensures Picks(HasPing(), (b: Beat) => if b.ping.Some? then b.ping.value else [], beats, Pings(beats))
    decreases |beats|
  {
    if beats != [] {
      var front, last := beats[..|beats| - 1], beats[|beats| - 1];
      PingsExactly(front);
      assert beats == front + [last];
      PicksOneMore(HasPing(), (b: Beat) => if b.ping.Some? then b.ping.value else [], front, Pings(front), last);
      hide Picks;
    }
  }

  lemma PingsStart()
    ensures Pings([]) == []
  {}

  lemma PingsStep(beats: seq<Beat>, n: nat)
    requires n < |beats|
    ensures Pings(beats[..n + 1]) == Pings(beats[..n]) + PingOf(beats[n])
    ensures PingOf(beats[n]) == if beats[n].ping.Some? then [beats[n].ping.value] else []
  {
    assert beats[..n + 1][..n] == beats[..n];
  }
}
