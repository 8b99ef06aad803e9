/** The frame reader of the debug client on any stream of chunks, well formed or not. */
module FrameReader {
  import opened Basics
  import opened Framing

  /** How a blocking read of the stream ends. `Blocked` stands for waiting for ever: the stream holds
      every chunk that will ever arrive. `LengthError` is the exception of the number parser. */
  datatype Outcome = Returned | Blocked | LengthError

  /** The bytes of the chunks `from` to `to`. */
  function Received(chunks: seq<Bytes>, from: nat, to: nat): Bytes
    requires from <= to <= |chunks|
  {
    Concat(chunks[from..to])
  }

  lemma ReceivedNext(chunks: seq<Bytes>, from: nat, to: nat)
    requires from <= to < |chunks|
    ensures Received(chunks, from, to + 1) == Received(chunks, from, to) + chunks[to]
  {
    ConcatSnoc(chunks[from..to], chunks[to]);
    assert chunks[from..to] + [chunks[to]] == chunks[from..to + 1];
  }

  lemma ReceivedSplit(chunks: seq<Bytes>, from: nat, mid: nat, to: nat)
    requires from <= mid <= to <= |chunks|
    ensures Received(chunks, from, to) == Received(chunks, from, mid) + Received(chunks, mid, to)
  {
    ConcatAppend(chunks[from..mid], chunks[mid..to]);
    assert chunks[from..mid] + chunks[mid..to] == chunks[from..to];
  }

  lemma ReceivedGrows(chunks: seq<Bytes>, from: nat, mid: nat, to: nat)
    requires from <= mid <= to <= |chunks|
    ensures Received(chunks, from, mid) <= Received(chunks, from, to)
  {
    ReceivedSplit(chunks, from, mid, to);
  }

  // ---------------------------------------------------------------- waiting for what is missing

  /** How many chunks have been received when a search at `hint` first succeeds, from `next` chunks on. */
  function FoundAt(chunks: seq<Bytes>, from: nat, next: nat, pattern: Bytes, hint: nat): (r: Option<nat>)
    requires from <= next <= |chunks|
    ensures r.Some? ==> next <= r.value <= |chunks| && Find(Received(chunks, from, r.value), pattern, hint).Some?
    decreases |chunks| - next
  {
    if Find(Received(chunks, from, next), pattern, hint).Some? then Some(next)
    else if next == |chunks| then None
    else FoundAt(chunks, from, next + 1, pattern, hint)
  }

  /** How many chunks have been received when there first are `length` bytes, from `next` chunks on. */
  function LongAt(chunks: seq<Bytes>, from: nat, next: nat, length: nat): (r: Option<nat>)
    requires from <= next <= |chunks|
    ensures r.Some? ==> next <= r.value <= |chunks| && length <= |Received(chunks, from, r.value)|
    decreases |chunks| - next
  {
    if length <= |Received(chunks, from, next)| then Some(next)
    else if next == |chunks| then None
    else LongAt(chunks, from, next + 1, length)
  }

  /** The search succeeds with the first chunk that completes an occurrence behind `hint`. */
  lemma {:induction false} FoundAtExactly(chunks: seq<Bytes>, from: nat, next: nat, pattern: Bytes, hint: nat)
    requires from <= next <= |chunks|
    ensures var r := FoundAt(chunks, from, next, pattern, hint);
            && (r.Some? ==> exists i: nat :: hint <= i && At(Received(chunks, from, r.value), pattern, i))
            && forall t: nat, i: nat ::
                 next <= t <= |chunks| && (r.Some? ==> t < r.value) && hint <= i ==>
                   !At(Received(chunks, from, t), pattern, i)
    decreases |chunks| - next
  {
    hide Received, At;
    if Find(Received(chunks, from, next), pattern, hint).None? && next < |chunks| {
      FoundAtExactly(chunks, from, next + 1, pattern, hint);
    }
  }

  /** The body is there with the first chunk that makes the bytes received long enough. */
  lemma {:induction false} LongAtExactly(chunks: seq<Bytes>, from: nat, next: nat, length: nat)
    requires from <= next <= |chunks|
    ensures var r := LongAt(chunks, from, next, length);
            forall t: nat :: next <= t <= |chunks| && (r.Some? ==> t < r.value) ==>
              |Received(chunks, from, t)| < length
    decreases |chunks| - next
  {
    hide Received;
    if |Received(chunks, from, next)| < length && next < |chunks| {
      LongAtExactly(chunks, from, next + 1, length);
    }
  }

  // ---------------------------------------------------------------- one frame, and all of them

  /** One body cut out of the bytes received, between `start` and `end`, when `to` chunks have been received;
      or a length that is no number; or bytes that never come. */
  datatype Cut = Cut(to: nat, start: nat, end: nat) | BadLength(to: nat) | Missing

  /** The next header after `hint`, the next separator after that, and as many bytes as the header says. */
  function NextCut(chunks: seq<Bytes>, from: nat, next: nat, hint: nat): (r: Cut)
    requires from <= next <= |chunks|
    ensures r.Cut? ==>
              && next <= r.to <= |chunks| && r.end <= |Received(chunks, from, r.to)|
              && hint + HEADER_LENGTH + SEPARATOR_LENGTH <= r.start <= r.end
    ensures r.BadLength? ==> next <= r.to <= |chunks|
  {
    match FoundAt(chunks, from, next, HEADER, hint)
    case None => Missing
    case Some(t1) =>
      var headerPos := Find(Received(chunks, from, t1), HEADER, hint).value;
      match FoundAt(chunks, from, t1, SEPARATOR, headerPos + HEADER_LENGTH)
      case None => Missing
      case Some(t2) =>
        var buffer := Received(chunks, from, t2);
        var separatorPos := Find(buffer, SEPARATOR, headerPos + HEADER_LENGTH).value;
        match ReadLength(buffer, headerPos, separatorPos)
        case InvalidArgument => BadLength(t2)
        case OutOfRange => BadLength(t2)
        case Number(size) =>
          var start := separatorPos + SEPARATOR_LENGTH;
          match LongAt(chunks, from, t2, start + size)
          case None => Missing
          case Some(t3) => Cut(t3, start, start + size)
  }

  datatype Read = Read(outcome: Outcome, to: nat, messages: seq<Bytes>)

  /** Cuts out one body after the other until one of them ends where the bytes received end. */
  function ReadAll(chunks: seq<Bytes>, from: nat, next: nat, hint: nat): (r: Read)
    requires from <= next <= |chunks|
    ensures next <= r.to <= |chunks| && (r.outcome.Returned? ==> r.messages != [])
    ensures r.outcome.Blocked? ==> r.to == |chunks|
    decreases |chunks| - next, |Received(chunks, from, next)| - hint
  {
    match NextCut(chunks, from, next, hint)
    case Missing => Read(Blocked, |chunks|, [])
    case BadLength(to) => Read(LengthError, to, [])
    case Cut(to, start, end) =>
      var buffer := Received(chunks, from, to);
      if end == |buffer| then Read(Returned, to, [buffer[start..end]])
      else
        var later := ReadAll(chunks, from, to, end);
        later.(messages := [buffer[start..end]] + later.messages)
  }

  /** Once the next header and the separator behind it have been received, the reader throws at once and without a
      message, exactly if what it takes for the length is no number below 2^64. */
  lemma ThrowsExactly(chunks: seq<Bytes>, from: nat, next: nat, hint: nat, headerPos: nat, separatorPos: nat)
    requires from <= next <= |chunks|
    requires var buffer := Received(chunks, from, next);
             && hint <= headerPos && At(buffer, HEADER, headerPos)
             && (forall i: nat :: hint <= i < headerPos ==> !At(buffer, HEADER, i))
             && headerPos + HEADER_LENGTH <= separatorPos && At(buffer, SEPARATOR, separatorPos)
             && forall i: nat :: headerPos + HEADER_LENGTH <= i < separatorPos ==> !At(buffer, SEPARATOR, i)
    ensures ReadAll(chunks, from, next, hint) == Read(LengthError, next, []) <==>
            !Stoull(Substr(Received(chunks, from, next), headerPos + HEADER_LENGTH, separatorPos)).Number?
  {
    var buffer := Received(chunks, from, next);
    FindSettled(buffer, HEADER, hint, headerPos);
    FindSettled(buffer, SEPARATOR, headerPos + HEADER_LENGTH, separatorPos);
    hide Received, At, Find, Stoull, Substr;
    assert FoundAt(chunks, from, next, HEADER, hint) == Some(next);
    assert FoundAt(chunks, from, next, SEPARATOR, headerPos + HEADER_LENGTH) == Some(next);
  }

  // ---------------------------------------------------------------- what any stream is cut into

  /** The gap before a body: a header somewhere in it, and a separator at its end. */
  predicate IsPreamble(gap: Bytes) {
    && SEPARATOR_LENGTH <= |gap| && At(gap, SEPARATOR, |gap| - SEPARATOR_LENGTH)
    && exists i: nat :: i + HEADER_LENGTH + SEPARATOR_LENGTH <= |gap| && At(gap, HEADER, i)
  }

  ghost predicate AllPreambles(gaps: seq<Bytes>) { forall gap :: gap in gaps ==> IsPreamble(gap) }

  lemma PreambleFirst(gap: Bytes, gaps: seq<Bytes>)
    requires IsPreamble(gap) && AllPreambles(gaps)
    ensures AllPreambles([gap] + gaps)
  {
    hide IsPreamble;
  }

  function Interleaved(gaps: seq<Bytes>, bodies: seq<Bytes>): Bytes
    requires |gaps| == |bodies|
  {
    if gaps == [] then "" else gaps[0] + bodies[0] + Interleaved(gaps[1..], bodies[1..])
  }

  lemma SliceOfSlice<T>(s: seq<T>, lo: nat, hi: nat, i: nat, j: nat)
    requires lo <= hi <= |s| && i <= j <= hi - lo
    ensures s[lo..hi][i..j] == s[lo + i..lo + j]
  {
    var a, b := s[lo..hi][i..j], s[lo + i..lo + j];
    assert |a| == |b| && forall k :: 0 <= k < |a| ==> a[k] == b[k];
  }

  /** The position of a pattern in a part of a longer buffer. */
  lemma AtWithin(buffer: Bytes, longer: Bytes, pattern: Bytes, i: nat, lo: nat, hi: nat)
    requires buffer <= longer && At(buffer, pattern, i) && lo <= i && i + |pattern| <= hi <= |longer|
    ensures At(longer[lo..hi], pattern, i - lo)
  {
    SliceOfSlice(longer, lo, hi, i - lo, i - lo + |pattern|);
    SliceOfSlice(longer, 0, |buffer|, i, i + |pattern|);
    assert longer[0..|buffer|] == buffer;
  }

  /** Where the header and the separator of a cut were found. */
  lemma CutParts(chunks: seq<Bytes>, from: nat, next: nat, hint: nat)
    returns (t1: nat, headerPos: nat, t2: nat, separatorPos: nat)
    requires from <= next <= |chunks| && NextCut(chunks, from, next, hint).Cut?
    ensures var cut := NextCut(chunks, from, next, hint);
            && from <= t1 <= t2 <= cut.to <= |chunks|
            && hint <= headerPos && At(Received(chunks, from, t1), HEADER, headerPos)
            && headerPos + HEADER_LENGTH <= separatorPos && At(Received(chunks, from, t2), SEPARATOR, separatorPos)
            && cut.start == separatorPos + SEPARATOR_LENGTH
  {
    hide Received, FoundAt, LongAt, Find, At;
    t1 := FoundAt(chunks, from, next, HEADER, hint).value;
    headerPos := Find(Received(chunks, from, t1), HEADER, hint).value;
    t2 := FoundAt(chunks, from, t1, SEPARATOR, headerPos + HEADER_LENGTH).value;
    separatorPos := Find(Received(chunks, from, t2), SEPARATOR, headerPos + HEADER_LENGTH).value;
  }

  /** What lies between the place of the search and the body is a preamble. */
  lemma GapIsPreamble(chunks: seq<Bytes>, from: nat, next: nat, hint: nat)
    requires from <= next <= |chunks| && NextCut(chunks, from, next, hint).Cut?
    ensures var cut := NextCut(chunks, from, next, hint);
            IsPreamble(Received(chunks, from, cut.to)[hint..cut.start])
  {
    hide NextCut, Received, At;
    var cut := NextCut(chunks, from, next, hint);
    var t1, headerPos, t2, separatorPos := CutParts(chunks, from, next, hint);
    var buffer := Received(chunks, from, cut.to);
    ReceivedGrows(chunks, from, t1, cut.to);
    ReceivedGrows(chunks, from, t2, cut.to);
    AtWithin(Received(chunks, from, t1), buffer, HEADER, headerPos, hint, cut.start);
    AtWithin(Received(chunks, from, t2), buffer, SEPARATOR, separatorPos, hint, cut.start);
  }

  lemma ReadAllStep(chunks: seq<Bytes>, from: nat, next: nat, hint: nat)
    requires from <= next <= |chunks| && NextCut(chunks, from, next, hint).Cut?
    ensures var cut, r := NextCut(chunks, from, next, hint), ReadAll(chunks, from, next, hint);
            var buffer := Received(chunks, from, cut.to);
            var body := buffer[cut.start..cut.end];
            if cut.end == |buffer| then r == Read(Returned, cut.to, [body])
            else
              var later := ReadAll(chunks, from, cut.to, cut.end);
              r == Read(later.outcome, later.to, [body] + later.messages)
  {
    hide NextCut, Received;
  }

  lemma ReadAllEnds(chunks: seq<Bytes>, from: nat, next: nat, hint: nat)
    requires from <= next <= |chunks| && !NextCut(chunks, from, next, hint).Cut?
    ensures var cut := NextCut(chunks, from, next, hint);
            ReadAll(chunks, from, next, hint) ==
            if cut.Missing? then Read(Blocked, |chunks|, []) else Read(LengthError, cut.to, [])
  {
    hide NextCut;
  }

  /** From `hint` on, the bytes received are preambles and bodies in turn. */
  ghost predicate CutUp(received: Bytes, hint: nat, gaps: seq<Bytes>, bodies: seq<Bytes>) {
    && |gaps| == |bodies| && AllPreambles(gaps) && hint <= |received|
    && received[hint..] == Interleaved(gaps, bodies)
  }

  lemma LastCut(received: Bytes, hint: nat, start: nat)
    requires hint <= start <= |received| && IsPreamble(received[hint..start])
    ensures CutUp(received, hint, [received[hint..start]], [received[start..]])
  {
    var gap, body := received[hint..start], received[start..];
    hide IsPreamble;
    InterleavedMore(gap, body, [], []);
    assert [gap] + [] == [gap] && [body] + [] == [body] && Interleaved([], []) == "";
    hide Interleaved;
    assert received[hint..] == gap + body + "";
  }

  lemma MoreCuts(early: Bytes, received: Bytes, hint: nat, start: nat, end: nat, gaps: seq<Bytes>, bodies: seq<Bytes>)
    requires hint <= start <= end <= |early| && early <= received
    requires IsPreamble(early[hint..start]) && CutUp(received, end, gaps, bodies)
    ensures CutUp(received, hint, [early[hint..start]] + gaps, [early[start..end]] + bodies)
  {
    var gap, body := early[hint..start], early[start..end];
    PreambleFirst(gap, gaps);
    InterleavedMore(gap, body, gaps, bodies);
    hide IsPreamble, AllPreambles, Interleaved;
    assert received[hint..] == received[hint..start] + received[start..end] + received[end..];
  }

  lemma InterleavedMore(gap: Bytes, body: Bytes, gaps: seq<Bytes>, bodies: seq<Bytes>)
    requires |gaps| == |bodies|
    ensures Interleaved([gap] + gaps, [body] + bodies) == gap + body + Interleaved(gaps, bodies)
  {
    assert ([gap] + gaps)[1..] == gaps && ([body] + bodies)[1..] == bodies;
  }

  lemma ReturnsAfterACut(chunks: seq<Bytes>, from: nat, next: nat, hint: nat)
    requires from <= next <= |chunks|
    ensures var cut := NextCut(chunks, from, next, hint);
            ReadAll(chunks, from, next, hint).outcome.Returned? ==>
            && cut.Cut?
            && next <= cut.to && hint < cut.start <= cut.end <= |Received(chunks, from, cut.to)|
  {}

  /** Whatever bytes arrive: when the reader returns, everything received since `hint` is preambles and
      bodies in turn, and the bodies are what it delivers. No byte is delivered twice, none is left over. */
  lemma {:induction false} AnyStreamIsCutUp(chunks: seq<Bytes>, from: nat, next: nat, hint: nat)
      returns (gaps: seq<Bytes>)
    requires from <= next <= |chunks|
    ensures var r := ReadAll(chunks, from, next, hint);
            r.outcome.Returned? ==> CutUp(Received(chunks, from, r.to), hint, gaps, r.messages)
    decreases |chunks| - next, |Received(chunks, from, next)| - hint
  {
    hide *;
    gaps := [];
    var r := ReadAll(chunks, from, next, hint);
    var cut := NextCut(chunks, from, next, hint);
    ReturnsAfterACut(chunks, from, next, hint);
    if r.outcome.Returned? {
      ReadAllStep(chunks, from, next, hint);
      GapIsPreamble(chunks, from, next, hint);
      var buffer := Received(chunks, from, cut.to);
      gaps := [buffer[hint..cut.start]];
      if cut.end == |buffer| {
        assert buffer[cut.start..] == buffer[cut.start..cut.end];
        LastCut(buffer, hint, cut.start);
      } else {
        var later := AnyStreamIsCutUp(chunks, from, cut.to, cut.end);
        gaps := gaps + later;
        ReceivedGrows(chunks, from, cut.to, r.to);
        MoreCuts(buffer, Received(chunks, from, r.to), hint, cut.start, cut.end, later,
                 ReadAll(chunks, from, cut.to, cut.end).messages);
      }
    }
  }

  /** The measure of the next search. */
  lemma ReadAllShorter(chunks: seq<Bytes>, from: nat, next: nat, hint: nat)
    requires from <= next <= |chunks| && NextCut(chunks, from, next, hint).Cut?
    ensures var cut := NextCut(chunks, from, next, hint);
            && next <= cut.to && hint < cut.end <= |Received(chunks, from, cut.to)|
  {}
}
