/** The incremental frame reader of the debug client, over a FIFO of TCP chunks. */
module TcpStream {
  import opened Basics
  import opened Framing
  import opened FrameReader

  /** `prefix` consists of the first `j` frames of `bodies`. */
  ghost predicate EndsFrame(prefix: Bytes, bodies: seq<Bytes>, j: nat) {
    0 < j <= |bodies| && prefix == Frames(bodies[..j])
  }

  /** What has been received up to chunk `i` does not end where a frame ends. */
  ghost predicate MidFrame(chunks: seq<Bytes>, from: nat, i: nat, bodies: seq<Bytes>) {
    from <= i <= |chunks| && forall j: nat :: !EndsFrame(Received(chunks, from, i), bodies, j)
  }

  /** The frame stream hypothesis: the bytes that arrive are (a prefix of) well-formed frames. */
  ghost predicate WellFramed(chunks: seq<Bytes>, from: nat, bodies: seq<Bytes>) {
    AllSized(bodies) && from <= |chunks| && Received(chunks, from, |chunks|) <= Frames(bodies)
  }

  /** What one call of the reader has to do with the chunks after `from`: it stops at the first
      chunk boundary that is a frame boundary and delivers the bodies of exactly the frames read. */
  ghost predicate Reads(chunks: seq<Bytes>, from: nat, to: nat, bodies: seq<Bytes>, outcome: Outcome,
                        messages: seq<Bytes>)
  {
    && from <= to <= |chunks|
    && (forall i | from <= i < to :: MidFrame(chunks, from, i, bodies))
    && match outcome
       case Returned =>
         && 0 < |messages| && messages <= bodies
         && Received(chunks, from, to) == Frames(messages)
       case Blocked =>
         to == |chunks| && MidFrame(chunks, from, to, bodies)
       case LengthError => false
  }

  /** The situation after the chunks up to `to`, when the first `m` bodies have been delivered and
      no chunk boundary passed so far was a frame boundary. */
  ghost predicate Cursor(chunks: seq<Bytes>, from: nat, to: nat, bodies: seq<Bytes>, m: nat, buffer: Bytes) {
    && from <= to <= |chunks| && m <= |bodies|
    && buffer == Received(chunks, from, to) && buffer <= Frames(bodies)
    && |Frames(bodies[..m])| <= |buffer|
    && (m == 0 || |Frames(bodies[..m])| < |buffer|)
    && (forall i | from <= i < to :: MidFrame(chunks, from, i, bodies))
  }

  /** The frame of body `m`, if there is one, is not complete yet. */
  ghost predicate Incomplete(bodies: seq<Bytes>, m: nat, buffer: Bytes) {
    m < |bodies| ==> |buffer| < |Frames(bodies[..m + 1])|
  }

  lemma IncompleteIsMidFrame(chunks: seq<Bytes>, from: nat, to: nat, bodies: seq<Bytes>, m: nat, buffer: Bytes)
    requires Cursor(chunks, from, to, bodies, m, buffer) && Incomplete(bodies, m, buffer)
    ensures MidFrame(chunks, from, to, bodies)
  {
    forall j: nat ensures !EndsFrame(buffer, bodies, j) {
      if 0 < j <= m {
        FramesMonotone(bodies, j, m);
      } else if m < j <= |bodies| {
        FramesMonotone(bodies, m + 1, j);
      }
    }
  }

  /** Waiting for one more chunk in the middle of a frame. */
  lemma NextChunk(chunks: seq<Bytes>, from: nat, to: nat, bodies: seq<Bytes>, m: nat, buffer: Bytes)
    requires WellFramed(chunks, from, bodies)
    requires Cursor(chunks, from, to, bodies, m, buffer) && Incomplete(bodies, m, buffer)
    ensures MidFrame(chunks, from, to, bodies)
    ensures to < |chunks| ==> Cursor(chunks, from, to + 1, bodies, m, buffer + chunks[to])
  {
    IncompleteIsMidFrame(chunks, from, to, bodies, m, buffer);
    if to < |chunks| {
      ReceivedNext(chunks, from, to);
      ReceivedSplit(chunks, from, to + 1, |chunks|);
    }
  }

  /** Past the first `m` frames the buffer shows a prefix of the frame of body `m`. */
  lemma WindowOpens(bodies: seq<Bytes>, m: nat, base: nat, buffer: Bytes)
    requires buffer <= Frames(bodies) && m < |bodies| && base == |Frames(bodies[..m])| <= |buffer|
    ensures Window(buffer, base, bodies[m], Frames(bodies[m + 1..]))
    ensures |Frames(bodies[..m + 1])| == BodyStart(base, bodies[m]) + |bodies[m]|
  {
    var whole := Frame(bodies[m]) + Frames(bodies[m + 1..]);
    FramesTake(bodies, m);
    FramesSplit(bodies, m);
    FramesSplit(bodies, m + 1);
    assert Frames(bodies) == Frames(bodies[..m]) + whole;
    assert Frames(bodies)[base..] == whole;
    assert buffer[base..] == whole[..|buffer| - base];
  }

  /** A stream of well-formed frames does not run past its last frame. */
  lemma NothingAfterLast(bodies: seq<Bytes>, buffer: Bytes)
    requires buffer <= Frames(bodies)
    ensures |buffer| <= |Frames(bodies[..|bodies|])|
  {
    assert bodies[..|bodies|] == bodies;
  }

  lemma HeaderSearch(bodies: seq<Bytes>, m: nat, base: nat, buffer: Bytes)
    requires buffer <= Frames(bodies) && m <= |bodies| && base == |Frames(bodies[..m])| <= |buffer|
    ensures Find(buffer, HEADER, base) ==
            if m < |bodies| && base + HEADER_LENGTH <= |buffer| then Some(base) else None
    ensures Find(buffer, HEADER, base) == None ==> Incomplete(bodies, m, buffer)
  {
    if m < |bodies| {
      WindowOpens(bodies, m, base, buffer);
      HeaderSeen(buffer, base, bodies[m], Frames(bodies[m + 1..]));
    } else {
      NothingAfterLast(bodies, buffer);
    }
  }

  lemma SeparatorSearch(bodies: seq<Bytes>, m: nat, base: nat, buffer: Bytes)
    requires buffer <= Frames(bodies) && m < |bodies| && base == |Frames(bodies[..m])| <= |buffer|
    ensures Find(buffer, SEPARATOR, base + HEADER_LENGTH) ==
            if |buffer| < BodyStart(base, bodies[m]) then None else Some(SeparatorStart(base, bodies[m]))
    ensures Find(buffer, SEPARATOR, base + HEADER_LENGTH) == None ==> Incomplete(bodies, m, buffer)
  {
    WindowOpens(bodies, m, base, buffer);
    SeparatorSeen(buffer, base, bodies[m], Frames(bodies[m + 1..]));
  }

  lemma LengthRead(bodies: seq<Bytes>, m: nat, base: nat, buffer: Bytes)
    requires buffer <= Frames(bodies) && m < |bodies| && base == |Frames(bodies[..m])| <= |buffer|
    requires Sized(bodies[m]) && BodyStart(base, bodies[m]) <= |buffer|
    ensures ReadLength(buffer, base, SeparatorStart(base, bodies[m])) == Number(|bodies[m]|)
  {
    WindowOpens(bodies, m, base, buffer);
    LengthSeen(buffer, base, bodies[m], Frames(bodies[m + 1..]));
  }

  lemma HeaderFound(chunks: seq<Bytes>, from: nat, to: nat, bodies: seq<Bytes>, m: nat, base: nat, buffer: Bytes)
    requires Cursor(chunks, from, to, bodies, m, buffer) && base == |Frames(bodies[..m])|
    requires Find(buffer, HEADER, base).Some?
    ensures Find(buffer, HEADER, base) == Some(base) && m < |bodies|
  {
    HeaderSearch(bodies, m, base, buffer);
  }

  lemma SeparatorFound(chunks: seq<Bytes>, from: nat, to: nat, bodies: seq<Bytes>, m: nat, base: nat, buffer: Bytes)
    requires WellFramed(chunks, from, bodies) && Cursor(chunks, from, to, bodies, m, buffer)
    requires m < |bodies| && base == |Frames(bodies[..m])|
    requires Find(buffer, SEPARATOR, base + HEADER_LENGTH).Some?
    ensures Find(buffer, SEPARATOR, base + HEADER_LENGTH) == Some(SeparatorStart(base, bodies[m]))
    ensures ReadLength(buffer, base, SeparatorStart(base, bodies[m])) == Number(|bodies[m]|)
  {
    SeparatorSearch(bodies, m, base, buffer);
    LengthRead(bodies, m, base, buffer);
  }

  /** While a header, a separator or a body is still missing, the frame is incomplete. */
  lemma FrameMissing(chunks: seq<Bytes>, from: nat, to: nat, bodies: seq<Bytes>, m: nat, base: nat, buffer: Bytes)
    requires WellFramed(chunks, from, bodies) && Cursor(chunks, from, to, bodies, m, buffer)
    requires base == |Frames(bodies[..m])|
    requires || Find(buffer, HEADER, base) == None
             || (m < |bodies| && Find(buffer, SEPARATOR, base + HEADER_LENGTH) == None)
             || (m < |bodies| && |buffer| < BodyStart(base, bodies[m]) + |bodies[m]|)
    ensures MidFrame(chunks, from, to, bodies)
    ensures to < |chunks| ==> Cursor(chunks, from, to + 1, bodies, m, buffer + chunks[to])
  {
    HeaderSearch(bodies, m, base, buffer);
    if m < |bodies| {
      SeparatorSearch(bodies, m, base, buffer);
      WindowOpens(bodies, m, base, buffer);
    }
    NextChunk(chunks, from, to, bodies, m, buffer);
  }

  /** Once the frame is complete its body can be cut out; then either the frame boundary has been
      reached or the cursor moves to the next frame. */
  lemma Delivered(chunks: seq<Bytes>, from: nat, to: nat, bodies: seq<Bytes>, m: nat, base: nat, buffer: Bytes)
    requires Cursor(chunks, from, to, bodies, m, buffer) && m < |bodies| && base == |Frames(bodies[..m])|
    requires BodyStart(base, bodies[m]) + |bodies[m]| <= |buffer|
    ensures var start := BodyStart(base, bodies[m]);
            var end := start + |bodies[m]|;
            && end == |Frames(bodies[..m + 1])|
            && bodies[..m + 1] == bodies[..m] + [buffer[start..end]]
            && (end == |buffer| ==>
                && bodies[..m + 1] == bodies[..m] + [buffer[start..]]
                && Reads(chunks, from, to, bodies, Returned, bodies[..m + 1]))
            && (end < |buffer| ==> Cursor(chunks, from, to, bodies, m + 1, buffer))
  {
    WindowOpens(bodies, m, base, buffer);
    BodySeen(buffer, base, bodies[m], Frames(bodies[m + 1..]));
    FramesSplit(bodies, m + 1);
    var start := BodyStart(base, bodies[m]);
    assert bodies[..m + 1] == bodies[..m] + [bodies[m]];
    if start + |bodies[m]| == |buffer| {
      assert buffer[start..] == buffer[start..start + |bodies[m]|];
      assert buffer == Frames(bodies[..m + 1]);
    }
  }

  lemma CursorStarts(chunks: seq<Bytes>, from: nat, bodies: seq<Bytes>)
    requires WellFramed(chunks, from, bodies)
    ensures Stands(chunks, from, from, bodies, 0) && |Frames(bodies[..0])| == 0
  {
    assert bodies[..0] == [] && chunks[from..from] == [];
  }

  // ---------------------------------------------------------------- what the reader does with frames

  /** The reader stands at the beginning of frame `m`, or in it. */
  ghost predicate Stands(chunks: seq<Bytes>, from: nat, to: nat, bodies: seq<Bytes>, m: nat) {
    && from <= to <= |chunks| && WellFramed(chunks, from, bodies)
    && Cursor(chunks, from, to, bodies, m, Received(chunks, from, to))
  }

  /** No chunk boundary ends a frame: the reader waits for ever. */
  ghost predicate NeverEnds(chunks: seq<Bytes>, from: nat, bodies: seq<Bytes>) {
    forall i | from <= i <= |chunks| :: MidFrame(chunks, from, i, bodies)
  }

  /** One more chunk in the middle of frame `m`. */
  lemma OneMoreChunk(chunks: seq<Bytes>, from: nat, to: nat, bodies: seq<Bytes>, m: nat, base: nat)
    requires from <= to <= |chunks| && Stands(chunks, from, to, bodies, m) && base == |Frames(bodies[..m])|
    requires var buffer := Received(chunks, from, to);
             || Find(buffer, HEADER, base) == None
             || (m < |bodies| && Find(buffer, SEPARATOR, base + HEADER_LENGTH) == None)
             || (m < |bodies| && |buffer| < BodyStart(base, bodies[m]) + |bodies[m]|)
    ensures MidFrame(chunks, from, to, bodies)
    ensures if to < |chunks| then Stands(chunks, from, to + 1, bodies, m) else NeverEnds(chunks, from, bodies)
  {
    FrameMissing(chunks, from, to, bodies, m, base, Received(chunks, from, to));
    if to < |chunks| {
      ReceivedNext(chunks, from, to);
    }
    hide Received, Frames, MidFrame, Find, Frame;
  }

  /** The search for the header of frame `m`. */
  lemma {:induction false} HeaderInFrame(chunks: seq<Bytes>, from: nat, to: nat, bodies: seq<Bytes>, m: nat, base: nat)
    requires from <= to <= |chunks| && Stands(chunks, from, to, bodies, m) && base == |Frames(bodies[..m])|
    ensures match FoundAt(chunks, from, to, HEADER, base)
            case None => NeverEnds(chunks, from, bodies)
            case Some(t) =>
              && Stands(chunks, from, t, bodies, m) && m < |bodies|
              && Find(Received(chunks, from, t), HEADER, base) == Some(base)
    decreases |chunks| - to
  {
    var buffer := Received(chunks, from, to);
    if Find(buffer, HEADER, base).Some? {
      HeaderFound(chunks, from, to, bodies, m, base, buffer);
    } else {
      OneMoreChunk(chunks, from, to, bodies, m, base);
      if to < |chunks| {
        HeaderInFrame(chunks, from, to + 1, bodies, m, base);
      }
    }
    hide Stands, NeverEnds, Find, Frames;
  }

  /** The search for the separator of frame `m`, and the length it ends. */
  lemma {:induction false} SeparatorInFrame(chunks: seq<Bytes>, from: nat, to: nat, bodies: seq<Bytes>, m: nat,
                                            base: nat)
    requires from <= to <= |chunks| && Stands(chunks, from, to, bodies, m) && base == |Frames(bodies[..m])|
             && m < |bodies|
    ensures match FoundAt(chunks, from, to, SEPARATOR, base + HEADER_LENGTH)
            case None => NeverEnds(chunks, from, bodies)
            case Some(t) =>
              var buffer := Received(chunks, from, t);
              && Stands(chunks, from, t, bodies, m) && base + HEADER_LENGTH <= |buffer|
              && Find(buffer, SEPARATOR, base + HEADER_LENGTH) == Some(SeparatorStart(base, bodies[m]))
              && ReadLength(buffer, base, SeparatorStart(base, bodies[m])) == Number(|bodies[m]|)
    decreases |chunks| - to
  {
    var buffer := Received(chunks, from, to);
    if Find(buffer, SEPARATOR, base + HEADER_LENGTH).Some? {
      SeparatorFound(chunks, from, to, bodies, m, base, buffer);
    } else {
      OneMoreChunk(chunks, from, to, bodies, m, base);
      if to < |chunks| {
        SeparatorInFrame(chunks, from, to + 1, bodies, m, base);
      }
    }
    hide Stands, NeverEnds, Frames;
  }

  /** The wait for the body of frame `m`. */
  lemma {:induction false} BodyInFrame(chunks: seq<Bytes>, from: nat, to: nat, bodies: seq<Bytes>, m: nat, base: nat)
    requires from <= to <= |chunks| && Stands(chunks, from, to, bodies, m) && base == |Frames(bodies[..m])|
             && m < |bodies|
    ensures match LongAt(chunks, from, to, BodyStart(base, bodies[m]) + |bodies[m]|)
            case None => NeverEnds(chunks, from, bodies)
            case Some(t) => Stands(chunks, from, t, bodies, m)
    decreases |chunks| - to
  {
    if |Received(chunks, from, to)| < BodyStart(base, bodies[m]) + |bodies[m]| {
      OneMoreChunk(chunks, from, to, bodies, m, base);
      if to < |chunks| {
        BodyInFrame(chunks, from, to + 1, bodies, m, base);
      }
    }
    hide Stands, NeverEnds, Frames;
  }

  /** The cut of frame `m` is its body. */
  lemma CutOfFrame(chunks: seq<Bytes>, from: nat, to: nat, bodies: seq<Bytes>, m: nat, base: nat)
    requires from <= to <= |chunks| && Stands(chunks, from, to, bodies, m) && base == |Frames(bodies[..m])|
    ensures match NextCut(chunks, from, to, base)
            case BadLength(_) => false
            case Missing => NeverEnds(chunks, from, bodies)
            case Cut(t, start, end) =>
              && Stands(chunks, from, t, bodies, m) && m < |bodies|
              && start == BodyStart(base, bodies[m]) && end == start + |bodies[m]| <= |Received(chunks, from, t)|
  {
    hide Stands, NeverEnds, Frames, FoundAt, LongAt, Find, ReadLength, Received;
    HeaderInFrame(chunks, from, to, bodies, m, base);
    var t1 := FoundAt(chunks, from, to, HEADER, base);
    if t1.Some? {
      SeparatorInFrame(chunks, from, t1.value, bodies, m, base);
      var t2 := FoundAt(chunks, from, t1.value, SEPARATOR, base + HEADER_LENGTH);
      if t2.Some? {
        BodyInFrame(chunks, from, t2.value, bodies, m, base);
      }
    }
  }

  /** On a stream of frames the reader does what Reads says. */
  lemma {:induction false} FramesAreRead(chunks: seq<Bytes>, from: nat, to: nat, bodies: seq<Bytes>, m: nat, base: nat)
    requires m <= |bodies| && from <= to <= |chunks| && Stands(chunks, from, to, bodies, m) && base
             == |Frames(bodies[..m])|
    ensures var r := ReadAll(chunks, from, to, base);
            Reads(chunks, from, r.to, bodies, r.outcome, bodies[..m] + r.messages)
    decreases |chunks| - to, |Received(chunks, from, to)| - base
  {
    hide ReadAll, NextCut, Reads, Stands, Frames, Received, NeverEnds;
    var cut := NextCut(chunks, from, to, base);
    CutOfFrame(chunks, from, to, bodies, m, base);
    if cut.Missing? {
      ReadAllEnds(chunks, from, to, base);
      ReadsNothing(chunks, from, bodies, bodies[..m] + []);
    } else {
      ReadAllStep(chunks, from, to, base);
      ReadAllShorter(chunks, from, to, base);
      CutDelivered(chunks, from, cut.to, bodies, m, base);
      var buffer := Received(chunks, from, cut.to);
      if cut.end < |buffer| {
        FramesAreRead(chunks, from, cut.to, bodies, m + 1, cut.end);
        var later := ReadAll(chunks, from, cut.to, cut.end).messages;
        Associative(bodies[..m], [buffer[cut.start..cut.end]], later);
      }
    }
  }

  /** One call of the reader on a stream of frames. */
  lemma ReadsFrames(chunks: seq<Bytes>, from: nat, bodies: seq<Bytes>)
    requires WellFramed(chunks, from, bodies)
    ensures var r := ReadAll(chunks, from, from, 0);
            Reads(chunks, from, r.to, bodies, r.outcome, r.messages)
  {
    CursorStarts(chunks, from, bodies);
    FramesAreRead(chunks, from, from, bodies, 0, 0);
    var r := ReadAll(chunks, from, from, 0);
    hide ReadAll, Reads, Stands;
    assert bodies[..0] + r.messages == r.messages;
  }

  lemma ReadsNothing(chunks: seq<Bytes>, from: nat, bodies: seq<Bytes>, messages: seq<Bytes>)
    requires from <= |chunks| && NeverEnds(chunks, from, bodies)
    ensures Reads(chunks, from, |chunks|, bodies, Blocked, messages)
  {}

  lemma CutDelivered(chunks: seq<Bytes>, from: nat, to: nat, bodies: seq<Bytes>, m: nat, base: nat)
    requires from <= to <= |chunks| && Stands(chunks, from, to, bodies, m) && m < |bodies| && base
             == |Frames(bodies[..m])|
    requires BodyStart(base, bodies[m]) + |bodies[m]| <= |Received(chunks, from, to)|
    ensures var buffer, start := Received(chunks, from, to), BodyStart(base, bodies[m]);
            var end := start + |bodies[m]|;
            && end == |Frames(bodies[..m + 1])|
            && bodies[..m + 1] == bodies[..m] + [buffer[start..end]]
            && (end == |buffer| ==> Reads(chunks, from, to, bodies, Returned, bodies[..m + 1]))
            && (end < |buffer| ==> Stands(chunks, from, to, bodies, m + 1))
  {
    Delivered(chunks, from, to, bodies, m, base, Received(chunks, from, to));
  }

  class TcpStream {
    /** Every chunk the peer sends, in order. The routing header that precedes each of them on a
        stream socket is discarded by the reader and not represented. */
    const chunks: seq<Bytes>
    /** How many chunks have been received. */
    var next: nat

    ghost predicate Valid()
      reads this
    {
      next <= |chunks|
    }

    constructor (chunks: seq<Bytes>)
      ensures Valid() && this.chunks == chunks && next == 0
    {
      this.chunks, next := chunks, 0;
    }

    method AppendTcpMessage(buffer: Bytes) returns (ok: bool, extended: Bytes)
      requires Valid()
      modifies this
      ensures Valid() && ok == (old(next) < |chunks|)
      ensures if ok then next == old(next) + 1 && extended == buffer + chunks[old(next)]
              else next == old(next) && extended == buffer
    {
      ok, extended := next < |chunks|, buffer;
      if ok {
        extended := buffer + chunks[next];
        next := next + 1;
      }
    }

    /** Receives until the pattern is found at or after `hint`; `found` is what a first search gives. */
    method AwaitPattern(start: Bytes, pattern: Bytes, hint: nat, found: Option<nat>, ghost from: nat)
      returns (ok: bool, buffer: Bytes, position: Option<nat>)
      requires Valid() && from <= next && start == Received(chunks, from, next)
      requires found == Find(start, pattern, hint)
      modifies this
      ensures Valid() && old(next) <= next
      ensures buffer == Received(chunks, from, next) && position == Find(buffer, pattern, hint)
      ensures match FoundAt(chunks, from, old(next), pattern, hint)
              case Some(to) => ok && next == to && position.Some?
              case None => !ok && next == |chunks|
    {
      hide Received, Find;
      ok, buffer, position := true, start, found;
      while position == None && ok
        invariant Valid() && old(next) <= next
        invariant buffer == Received(chunks, from, next) && position == Find(buffer, pattern, hint)
        invariant FoundAt(chunks, from, old(next), pattern, hint) == FoundAt(chunks, from, next, pattern, hint)
        invariant !ok ==> next == |chunks| && position == None
        decreases |chunks| - next, ok
      {
        if next < |chunks| {
          ReceivedNext(chunks, from, next);
        }
        ok, buffer := AppendTcpMessage(buffer);
        position := Find(buffer, pattern, hint);
      }
    }

    /** Receives until `msgSize` bytes are there from `msgPos` on. */
    method AwaitBody(start: Bytes, msgPos: nat, msgSize: nat, ghost from: nat) returns (ok: bool, buffer: Bytes)
      requires Valid() && from <= next && start == Received(chunks, from, next) && msgPos <= |start|
      modifies this
      ensures Valid() && old(next) <= next && buffer == Received(chunks, from, next)
      ensures match LongAt(chunks, from, old(next), msgPos + msgSize)
              case Some(to) => ok && next == to && msgPos + msgSize <= |buffer|
              case None => !ok && next == |chunks|
    {
      hide Received;
      ok, buffer := true, start;
      while |buffer| - msgPos < msgSize && ok
        invariant Valid() && old(next) <= next && buffer == Received(chunks, from, next)
        invariant LongAt(chunks, from, old(next), msgPos + msgSize) == LongAt(chunks, from, next, msgPos + msgSize)
        invariant !ok ==> next == |chunks| && |buffer| - msgPos < msgSize
        decreases |chunks| - next, ok
      {
        if next < |chunks| {
          ReceivedNext(chunks, from, next);
        }
        ok, buffer := AppendTcpMessage(buffer);
      }
    }

    /** Waits for header, separator and body of the next frame, `headerPos` being a first search's result. */
    method AwaitCut(start: Bytes, hint: nat, headerPos: Option<nat>, ghost from: nat) returns (cut: Cut, buffer: Bytes)
      requires Valid() && from <= next && start == Received(chunks, from, next)
      requires headerPos == Find(start, HEADER, hint)
      modifies this
      ensures Valid() && old(next) <= next && buffer == Received(chunks, from, next)
      ensures cut == NextCut(chunks, from, old(next), hint)
      ensures next == if cut.Missing? then |chunks| else cut.to
    {
      hide Received, Find, FoundAt, LongAt, ReadLength;
      var ok, header := true, headerPos;
      ok, buffer, header := AwaitPattern(start, HEADER, hint, header, from);
      if !ok { return Missing, buffer; }
      var separatorHint := header.value + HEADER_LENGTH;
      var separator := Find(buffer, SEPARATOR, separatorHint);
      ok, buffer, separator := AwaitPattern(buffer, SEPARATOR, separatorHint, separator, from);
      if !ok { return Missing, buffer; }

      var length := ReadLength(buffer, header.value, separator.value);
      if !length.Number? { return BadLength(next), buffer; }
      var msgPos: nat := separator.value + SEPARATOR_LENGTH;
      ok, buffer := AwaitBody(buffer, msgPos, length.value, from);
      cut := if ok then Cut(next, msgPos, msgPos + length.value) else Missing;
    }

    /** Reads until the chunks received so far end with a complete frame, or for ever. */
    method HandleTcpSocket() returns (outcome: Outcome, messages: seq<Bytes>)
      requires Valid()
      modifies this
      ensures Valid() && old(next) <= next
      ensures Read(outcome, next, messages) == ReadAll(chunks, old(next), old(next), 0)
    {
      hide Received, Find, NextCut, ReadAll;
      ghost var from := next;
      var buffer: Bytes := "";
      NothingYet(chunks, from);
      var headerPos: Option<nat>, hint: nat := None, 0;
      var received := false;
      messages := [];

      while !received
        invariant Valid() && from <= next && buffer == Received(chunks, from, next)
        invariant !received ==> headerPos == Find(buffer, HEADER, hint)
        invariant var all := ReadAll(chunks, from, from, 0);
                  if received then all == Read(Returned, next, messages)
                  else
                    var later := ReadAll(chunks, from, next, hint);
                    all == Read(later.outcome, later.to, messages + later.messages)
        decreases |chunks| - next, |buffer| - hint, !received
      {
        ghost var before := next;
        var cut;
        cut, buffer := AwaitCut(buffer, hint, headerPos, from);
        if !cut.Cut? {
          ReadAllEnds(chunks, from, before, hint);
          return if cut.Missing? then Blocked else LengthError, messages;
        }
        ReadAllStep(chunks, from, before, hint);
        ReadAllShorter(chunks, from, before, hint);
        if |buffer| == cut.end {
          assert buffer[cut.start..] == buffer[cut.start..cut.end];
          messages := messages + [buffer[cut.start..]];
          received := true;
        } else {
          var body := buffer[cut.start..cut.end];
          Associative(messages, [body], ReadAll(chunks, from, next, cut.end).messages);
          messages := messages + [body];
          hint := cut.end;
          headerPos := Find(buffer, HEADER, hint);
        }
      }
      outcome := Returned;
    }
  }

  lemma NothingYet(chunks: seq<Bytes>, from: nat)
    requires from <= |chunks|
    ensures Received(chunks, from, from) == "" && Find("", HEADER, 0) == None
  {
    assert chunks[from..from] == [];
  }

  // ---------------------------------------------------------------- the stream as a sequence of batches

  /** The specification leaves the reader no choice. */
  lemma ReadsIsDeterministic(chunks: seq<Bytes>, from: nat, bodies: seq<Bytes>,
                             to: nat, outcome: Outcome, messages: seq<Bytes>,
                             to': nat, messages': seq<Bytes>)
    requires Reads(chunks, from, to, bodies, outcome, messages)
    requires Reads(chunks, from, to', bodies, Returned, messages')
    ensures outcome == Returned && to == to' && messages == messages'
  {
    assert messages' == bodies[..|messages'|];
    assert EndsFrame(Received(chunks, from, to'), bodies, |messages'|);
    assert !MidFrame(chunks, from, to', bodies);
    if outcome == Returned {
      assert messages == bodies[..|messages|];
      assert EndsFrame(Received(chunks, from, to), bodies, |messages|);
      assert !MidFrame(chunks, from, to, bodies);
      assert to == to';
      if |messages| < |messages'| {
        FramesMonotone(bodies, |messages|, |messages'|);
      } else if |messages'| < |messages| {
        FramesMonotone(bodies, |messages'|, |messages|);
      }
    }
  }

  /** The chunks after `from`, which carry a beginning of the frames of `bodies`, reach the reader as
      `batches`: each call returns one of them, and a further call would block. */
  ghost predicate Delivers(chunks: seq<Bytes>, from: nat, batches: seq<seq<Bytes>>, bodies: seq<Bytes>)
    decreases |batches|
  {
    && WellFramed(chunks, from, bodies)
    && if batches == [] then forall i | from <= i <= |chunks| :: MidFrame(chunks, from, i, bodies)
       else exists to: nat ::
           && from < to
           && Reads(chunks, from, to, bodies, Returned, batches[0])
           && Delivers(chunks, to, batches[1..], bodies[|batches[0]|..])
  }

  /** Where nothing is delivered any more, a read blocks, and a further read would. */
  lemma NothingToReturn(chunks: seq<Bytes>, from: nat, to: nat, bodies: seq<Bytes>, outcome: Outcome,
                        messages: seq<Bytes>)
    requires Delivers(chunks, from, [], bodies) && Reads(chunks, from, to, bodies, outcome, messages)
    ensures outcome.Blocked? && to == |chunks|
    ensures Delivers(chunks, to, [], [])
  {
    assert MidFrame(chunks, from, to, bodies);
    if outcome.Returned? {
      assert bodies[..|messages|] == messages;
      assert EndsFrame(Received(chunks, from, to), bodies, |messages|);
    }
    assert chunks[to..to] == [];
    forall i, j: nat | to <= i <= |chunks| ensures !EndsFrame(Received(chunks, to, i), [], j) {}
  }

  /** The first chunk boundary that is a frame boundary, if there is one. */
  lemma FirstBoundary(chunks: seq<Bytes>, from: nat, at: nat, bodies: seq<Bytes>) returns (found: bool, to: nat, m: nat)
    requires from <= at <= |chunks|
    requires forall i | from <= i < at :: MidFrame(chunks, from, i, bodies)
    ensures if found then from < to && 0 < m <= |bodies| && Reads(chunks, from, to, bodies, Returned, bodies[..m])
            else forall i | from <= i <= |chunks| :: MidFrame(chunks, from, i, bodies)
    decreases |chunks| - at
  {
    found, to, m := false, 0, 0;
    if MidFrame(chunks, from, at, bodies) {
      if at < |chunks| {
        found, to, m := FirstBoundary(chunks, from, at + 1, bodies);
      }
    } else {
      m :| EndsFrame(Received(chunks, from, at), bodies, m);
      FramesMonotone(bodies, 0, m);
      assert chunks[from..from] == [];
      found, to := true, at;
    }
  }

  /** Behind the first `m` frames the rest of the stream carries the rest of the bodies. */
  lemma RestCarried(chunks: seq<Bytes>, from: nat, to: nat, bodies: seq<Bytes>, m: nat)
    requires from <= to <= |chunks| && m <= |bodies|
    requires WellFramed(chunks, from, bodies) && Received(chunks, from, to) == Frames(bodies[..m])
    ensures WellFramed(chunks, to, bodies[m..])
  {
    ReceivedSplit(chunks, from, to, |chunks|);
    FramesSplit(bodies, m);
    var front, rest := Frames(bodies[..m]), Received(chunks, to, |chunks|);
    assert (front + rest)[|front|..] == rest && Frames(bodies)[|front|..] == Frames(bodies[m..]);
    hide Frames, Received;
    assert rest == Frames(bodies)[|front|..|front| + |rest|];
  }

  /** A chunk boundary ends frame `j` of the rest exactly if it ends frame `m + j` of the whole. */
  lemma EndsShifted(chunks: seq<Bytes>, from: nat, to: nat, i: nat, bodies: seq<Bytes>, m: nat, j: nat)
    requires from <= to <= i <= |chunks| && m <= |bodies| && 0 < j
    requires Received(chunks, from, to) == Frames(bodies[..m])
    ensures EndsFrame(Received(chunks, to, i), bodies[m..], j) <==> EndsFrame(Received(chunks, from, i), bodies, m + j)
  {
    ReceivedSplit(chunks, from, to, i);
    if m + j <= |bodies| {
      FramesSplit(bodies[..m + j], m);
      assert bodies[..m + j][..m] == bodies[..m] && bodies[..m + j][m..] == bodies[m..][..j];
      hide Frames, Received;
      var front := Frames(bodies[..m]);
      assert (front + Received(chunks, to, i))[|front|..] == Received(chunks, to, i);
      assert (front + Frames(bodies[m..][..j]))[|front|..] == Frames(bodies[m..][..j]);
    }
  }

  /** `m` is the greatest number of frames that end at a chunk boundary. */
  ghost predicate LastToEnd(chunks: seq<Bytes>, from: nat, bodies: seq<Bytes>, m: nat) {
    && from <= |chunks| && m <= |bodies|
    && (m > 0 ==> exists i :: from <= i <= |chunks| && EndsFrame(Received(chunks, from, i), bodies, m))
    && forall i, j: nat :: from <= i <= |chunks| && EndsFrame(Received(chunks, from, i), bodies, j) ==> j <= m
  }

  lemma NothingEnds(chunks: seq<Bytes>, from: nat, to: nat, bodies: seq<Bytes>)
    requires forall i | from <= i < to :: MidFrame(chunks, from, i, bodies)
    ensures forall i, j: nat :: from <= i < to && i <= |chunks| ==> !EndsFrame(Received(chunks, from, i), bodies, j)
  {
    forall i | from <= i < to && i <= |chunks|
      ensures forall j: nat :: !EndsFrame(Received(chunks, from, i), bodies, j)
    {
      assert MidFrame(chunks, from, i, bodies);
    }
  }

  lemma LastShifted(chunks: seq<Bytes>, from: nat, to: nat, bodies: seq<Bytes>, m: nat, later: nat)
    requires 0 < m <= |bodies| && Reads(chunks, from, to, bodies, Returned, bodies[..m])
    requires LastToEnd(chunks, to, bodies[m..], later)
    ensures LastToEnd(chunks, from, bodies, m + later)
  {
    hide Frames, Received;
    assert EndsFrame(Received(chunks, from, to), bodies, m);
    if later > 0 {
      var i :| to <= i <= |chunks| && EndsFrame(Received(chunks, to, i), bodies[m..], later);
      EndsShifted(chunks, from, to, i, bodies, m, later);
    }
    NothingEnds(chunks, from, to, bodies);
    forall i, j: nat | to <= i <= |chunks| && EndsFrame(Received(chunks, from, i), bodies, j) ensures j <= m + later {
      if j > m {
        EndsShifted(chunks, from, to, i, bodies, m, j - m);
      }
    }
  }

  /** What the calls return is determined by the bytes and the chunk boundaries: the bodies, unchanged and in
      order, up to the last frame that ends at a boundary. A complete frame in a chunk whose last frame
      never becomes complete is not among them. */
  lemma {:induction false} DeliversExactly(chunks: seq<Bytes>, from: nat, batches: seq<seq<Bytes>>, bodies: seq<Bytes>)
    requires Delivers(chunks, from, batches, bodies)
    ensures Concat(batches) <= bodies && LastToEnd(chunks, from, bodies, |Concat(batches)|)
    ensures Received(chunks, from, |chunks|) == Frames(bodies) ==> Concat(batches) == bodies
    decreases |batches|
  {
    if batches != [] {
      var to: nat :| from < to && Reads(chunks, from, to, bodies, Returned, batches[0])
                     && Delivers(chunks, to, batches[1..], bodies[|batches[0]|..]);
      var m := |batches[0]|;
      assert bodies[..m] == batches[0];
      DeliversExactly(chunks, to, batches[1..], bodies[m..]);
      LastShifted(chunks, from, to, bodies, m, |Concat(batches[1..])|);
      assert Concat(batches) == bodies[..m] + Concat(batches[1..]) && bodies == bodies[..m] + bodies[m..];
    } else {
      NothingEnds(chunks, from, |chunks| + 1, bodies);
    }
    if bodies != [] && Received(chunks, from, |chunks|) == Frames(bodies) {
      WholeStream(chunks, from, bodies);
    }
  }

  lemma WholeStream(chunks: seq<Bytes>, from: nat, bodies: seq<Bytes>)
    requires from <= |chunks| && Received(chunks, from, |chunks|) == Frames(bodies) && bodies != []
    ensures EndsFrame(Received(chunks, from, |chunks|), bodies, |bodies|)
  {
    assert bodies[..|bodies|] == bodies;
  }

  /** Chunking independence. However a stream of frames is cut into chunks, and wherever it ends, successive
      reads deliver its bodies, unchanged and in order; only the grouping depends on the chunks. */
  lemma {:induction false} ChunkingIndependence(chunks: seq<Bytes>, from: nat, bodies: seq<Bytes>)
    returns (batches: seq<seq<Bytes>>)
    requires WellFramed(chunks, from, bodies)
    ensures Delivers(chunks, from, batches, bodies) && Concat(batches) <= bodies
    ensures LastToEnd(chunks, from, bodies, |Concat(batches)|)
    ensures Received(chunks, from, |chunks|) == Frames(bodies) ==> Concat(batches) == bodies
    ensures forall b :: b in batches ==> b != []
    decreases |bodies|
  {
    var found, to, m := FirstBoundary(chunks, from, from, bodies);
    batches := [];
    if found {
      RestCarried(chunks, from, to, bodies, m);
      var later := ChunkingIndependence(chunks, to, bodies[m..]);
      batches := [bodies[..m]] + later;
      assert batches[1..] == later && |batches[0]| == m;
    }
    DeliversExactly(chunks, from, batches, bodies);
  }
}
