/** Selecting one message out of a queue that is fed in batches: what waiting for a message does to
    the queue, and when it loses nothing. */
module Selection {
  import opened Basics

  /** The position of the first element that satisfies `p`. */
  function FirstMatch<T>(p: T -> bool, s: seq<T>): (r: Option<nat>)
    ensures r.Some? ==> r.value < |s| && p(s[r.value]) && forall i :: 0 <= i < r.value ==> !p(s[i])
    ensures r.None? ==> forall x :: x in s ==> !p(x)
  {
    if s == [] then None
    else if p(s[0]) then Some(0)
    else match FirstMatch(p, s[1..])
      case None => None
      case Some(i) => Some(i + 1)
  }

  /** The last element that satisfies `p`. */
  function LastMatch<T>(p: T -> bool, s: seq<T>): (r: Option<T>)
    ensures r.Some? ==> r.value in s && p(r.value)
    ensures r.None? <==> forall x :: x in s ==> !p(x)
  {
    if s == [] then None
    else if p(s[|s| - 1]) then Some(s[|s| - 1])
    else LastMatch(p, s[..|s| - 1])
  }

  function Without<T>(s: seq<T>, i: nat): seq<T>
    requires i < |s|
  {
    s[..i] + s[i + 1..]
  }

  /** `s` without the first element that satisfies `p`. */
  function RemoveFirst<T>(p: T -> bool, s: seq<T>): seq<T> {
    if s == [] then [] else if p(s[0]) then s[1..] else [s[0]] + RemoveFirst(p, s[1..])
  }

  function Not<T>(p: T -> bool): T -> bool { x => !p(x) }

  /** The end of a wait: the message found with what is left in the queue and on the wire, or a
      wire that dries up before a message is found. */
  datatype Waited<T> =
    | Found(message: T, queue: seq<T>, incoming: seq<seq<T>>)
    | Starved(queue: seq<T>)

  /** Reads batches until one of them contains a match. The last match of that batch is the answer;
      only what does not match is kept. */
  function Collect<T>(p: T -> bool, queue: seq<T>, incoming: seq<seq<T>>): Waited<T>
    decreases |incoming|
  {
    if incoming == [] then Starved(queue)
    else
      var kept := queue + Filter(Not(p), incoming[0]);
      match LastMatch(p, incoming[0])
      case Some(message) => Found(message, kept, incoming[1..])
      case None => Collect(p, kept, incoming[1..])
  }

  /** Takes the first match out of the queue; reads from the wire only if there is none. */
  function Wait<T>(p: T -> bool, queue: seq<T>, incoming: seq<seq<T>>): Waited<T> {
    match FirstMatch(p, queue)
    case Some(i) => Found(queue[i], Without(queue, i), incoming)
    case None => Collect(p, queue, incoming)
  }

  // ---------------------------------------------------------------- facts about the vocabulary

  lemma {:induction false} RemoveFirstAt<T>(p: T -> bool, s: seq<T>, i: nat)
    requires FirstMatch(p, s) == Some(i)
    ensures RemoveFirst(p, s) == Without(s, i)
  {
    if !p(s[0]) {
      RemoveFirstAt(p, s[1..], i - 1);
      assert Without(s, i) == [s[0]] + Without(s[1..], i - 1);
    } else {
      assert Without(s, 0) == s[1..];
    }
  }

  lemma {:induction false} RemoveFirstHit<T>(p: T -> bool, s: seq<T>, t: seq<T>, x: T)
    requires x in s && p(x)
    ensures RemoveFirst(p, s + t) == RemoveFirst(p, s) + t
  {
    assert (s + t)[1..] == s[1..] + t;
    if !p(s[0]) {
      RemoveFirstHit(p, s[1..], t, x);
      Associative([s[0]], RemoveFirst(p, s[1..]), t);
    }
  }

  lemma {:induction false} RemoveFirstMiss<T>(p: T -> bool, s: seq<T>, t: seq<T>)
    requires forall x :: x in s ==> !p(x)
    ensures RemoveFirst(p, s + t) == s + RemoveFirst(p, t)
  {
    if s == [] {
      assert s + t == t && s + RemoveFirst(p, t) == RemoveFirst(p, t);
    } else {
      assert (s + t)[1..] == s[1..] + t;
      RemoveFirstMiss(p, s[1..], t);
      assert s == [s[0]] + s[1..];
      Associative([s[0]], s[1..], RemoveFirst(p, t));
    }
  }

  lemma RemoveFirstAppend<T>(p: T -> bool, s: seq<T>, t: seq<T>)
    ensures RemoveFirst(p, s + t) ==
            if exists x :: x in s && p(x) then RemoveFirst(p, s) + t else s + RemoveFirst(p, t)
  {
    hide RemoveFirst;
    if x :| x in s && p(x) {
      RemoveFirstHit(p, s, t, x);
    } else {
      RemoveFirstMiss(p, s, t);
    }
  }

  lemma {:induction false} FilterNone<T>(p: T -> bool, s: seq<T>)
    requires forall x :: x in s ==> !p(x)
    ensures Filter(p, s) == []
  {
    if s != [] {
      FilterNone(p, s[1..]);
    }
  }

  // ---------------------------------------------------------------- what a wait does

  ghost predicate NoMatch<T>(p: T -> bool, s: seq<T>) { forall x :: x in s ==> !p(x) }

  /** The element at `j` satisfies `p`, and none behind it does. */
  ghost predicate LastAt<T>(p: T -> bool, s: seq<T>, j: nat)
    requires j < |s|
  {
    p(s[j]) && forall k :: j < k < |s| ==> !p(s[k])
  }

  lemma {:induction false} LastMatchIsLast<T>(p: T -> bool, s: seq<T>) returns (j: nat)
    requires LastMatch(p, s).Some?
    ensures j < |s| && LastAt(p, s, j) && s[j] == LastMatch(p, s).value
  {
    j := |s| - 1;
    if !p(s[j]) {
      j := LastMatchIsLast(p, s[..|s| - 1]);
    }
  }

  /** The wait was answered by batch `n`: no earlier batch has a match, the last match of batch `n`
      is returned, and everything else received joins the queue in arrival order. */
  ghost predicate AnsweredBy<T>(p: T -> bool, queue: seq<T>, incoming: seq<seq<T>>, w: Waited<T>, n: nat) {
    && w.Found? && n < |incoming|
    && NoMatch(p, Concat(incoming[..n]))
    && (exists j :: 0 <= j < |incoming[n]| && LastAt(p, incoming[n], j) && incoming[n][j] == w.message)
    && w.incoming == incoming[n + 1..]
    && w.queue == queue + Filter(Not(p), Concat(incoming[..n + 1]))
  }

  lemma AnsweredNow<T>(p: T -> bool, queue: seq<T>, b: seq<T>, rest: seq<seq<T>>)
    requires LastMatch(p, b).Some?
    ensures AnsweredBy(p, queue, [b] + rest, Collect(p, queue, [b] + rest), 0)
  {
    var incoming := [b] + rest;
    var j := LastMatchIsLast(p, b);
    assert incoming[0] == b && LastAt(p, incoming[0], j);
    assert incoming[..0] == [] && incoming[..1] == [b] && incoming[1..] == rest;
    assert Concat([b]) == b + Concat<T>([]) == b;
  }

  lemma AnsweredLater<T>(p: T -> bool, queue: seq<T>, b: seq<T>, rest: seq<seq<T>>, w: Waited<T>, n: nat)
    requires NoMatch(p, b)
    requires AnsweredBy(p, queue + b, rest, w, n)
    ensures AnsweredBy(p, queue, [b] + rest, w, n + 1)
  {
    var incoming := [b] + rest;
    assert incoming[n + 1] == rest[n];
    assert incoming[..n + 1] == [b] + rest[..n];
    assert incoming[..n + 2] == [b] + rest[..n + 1];
    assert Concat(incoming[..n + 2]) == b + Concat(rest[..n + 1]);
    FilterAppend(Not(p), b, Concat(rest[..n + 1]));
    FilterAll(Not(p), b);
    var later := Filter(Not(p), Concat(rest[..n + 1]));
    assert (queue + b) + later == queue + (b + later);
  }

  lemma {:induction false} CollectExact<T>(p: T -> bool, queue: seq<T>, incoming: seq<seq<T>>) returns (n: nat)
    ensures var w := Collect(p, queue, incoming);
            if w.Found? then AnsweredBy(p, queue, incoming, w, n)
            else NoMatch(p, Concat(incoming)) && w.queue == queue + Concat(incoming)
    decreases |incoming|
  {
    n := 0;
    if incoming == [] {
      assert queue + [] == queue;
    } else {
      var b, rest := incoming[0], incoming[1..];
      assert incoming == [b] + rest;
      if LastMatch(p, b).Some? {
        AnsweredNow(p, queue, b, rest);
      } else {
        FilterAll(Not(p), b);
        n := CollectExact(p, queue + b, rest);
        var w := Collect(p, queue + b, rest);
        if w.Found? {
          AnsweredLater(p, queue, b, rest, w, n);
          n := n + 1;
        } else {
          assert (queue + b) + Concat(rest) == queue + (b + Concat(rest));
        }
      }
    }
  }

  lemma {:induction false} FilterPartition<T>(p: T -> bool, s: seq<T>)
    ensures multiset(s) == multiset(Filter(p, s)) + multiset(Filter(Not(p), s))
  {
    if s != [] {
      FilterPartition(p, s[1..]);
      assert s == [s[0]] + s[1..];
    }
  }

  lemma {:induction false} FilterMember<T>(p: T -> bool, s: seq<T>, x: T)
    ensures x in Filter(p, s) <==> x in s && p(x)
  {
    if s != [] {
      FilterMember(p, s[1..], x);
    }
  }

  /** What was received is what joined the queue and the matches of the last batch. */
  lemma ReceivedPartition<T>(p: T -> bool, queue: seq<T>, incoming: seq<seq<T>>, w: Waited<T>, n: nat)
    requires AnsweredBy(p, queue, incoming, w, n)
    ensures multiset(queue + Concat(incoming[..n + 1])) == multiset(w.queue) + multiset(Filter(p, incoming[n]))
    ensures w.message in Filter(p, incoming[n])
  {
    var early, batch := Concat(incoming[..n]), incoming[n];
    ConcatTake(incoming, n);
    FilterAppend(p, early, batch);
    FilterNone(p, early);
    FilterPartition(p, early + batch);
    FilterMember(p, batch, w.message);
  }

  /** A wait loses a message exactly when the batch that answers it holds several matches. */
  lemma WaitConservesExactly<T>(p: T -> bool, queue: seq<T>, incoming: seq<seq<T>>, n: nat)
    requires AnsweredBy(p, queue, incoming, Collect(p, queue, incoming), n)
    ensures var w := Collect(p, queue, incoming);
            multiset(queue + Concat(incoming[..n + 1])) == multiset(w.queue) + multiset{w.message}
            <==> |Filter(p, incoming[n])| == 1
  {
    var w := Collect(p, queue, incoming);
    ReceivedPartition(p, queue, incoming, w, n);
    SingleElement(Filter(p, incoming[n]), w.message, multiset(w.queue));
  }

  lemma SingleElement<T>(s: seq<T>, x: T, m: multiset<T>)
    requires x in s
    ensures m + multiset(s) == m + multiset{x} <==> |s| == 1
  {
    if |s| == 1 {
      assert s == [x];
    }
    if m + multiset(s) == m + multiset{x} {
      assert |m + multiset(s)| == |m| + |s|;
    }
  }

  /** Taking a message that is already queued never loses anything, and reads nothing. */
  lemma WaitFromQueue<T>(p: T -> bool, queue: seq<T>, incoming: seq<seq<T>>)
    requires !NoMatch(p, queue)
    ensures var w := Wait(p, queue, incoming);
            && w.Found? && w.incoming == incoming && p(w.message)
            && w.queue == RemoveFirst(p, queue)
            && multiset(queue) == multiset(w.queue) + multiset{w.message}
  {
    var i := FirstMatch(p, queue).value;
    RemoveFirstAt(p, queue, i);
    WithoutConserves(queue, i);
    hide Without, RemoveFirst;
  }

  lemma WithoutConserves<T>(s: seq<T>, i: nat)
    requires i < |s|
    ensures multiset(s) == multiset(Without(s, i)) + multiset{s[i]}
  {
    assert s == s[..i] + [s[i]] + s[i + 1..];
  }

  // ---------------------------------------------------------------- waits on batches with at most one match

  ghost predicate SingleMatches<T>(p: T -> bool, incoming: seq<seq<T>>) {
    forall b :: b in incoming ==> |Filter(p, b)| <= 1
  }

  lemma {:induction false} LastOfSingle<T>(p: T -> bool, s: seq<T>)
    requires |Filter(p, s)| == 1
    ensures LastMatch(p, s) == Some(Filter(p, s)[0])
    ensures RemoveFirst(p, s) == Filter(Not(p), s)
  {
    var last := LastMatch(p, s);
    if last.None? {
      FilterNone(p, s);
    } else {
      FilterMember(p, s, last.value);
    }
    if p(s[0]) {
      assert Filter(p, s[1..]) == [];
      forall x | x in s[1..] ensures Not(p)(x) {
        FilterMember(p, s[1..], x);
      }
      FilterAll(Not(p), s[1..]);
    } else {
      LastOfSingle(p, s[1..]);
    }
  }

  /** The wait took the first match out of `arrivals` and left the rest in order. */
  ghost predicate TakesFirst<T>(p: T -> bool, arrivals: seq<T>, w: Waited<T>) {
    && (w.Starved? <==> NoMatch(p, arrivals))
    && (w.Found? ==>
        && w.message in arrivals && p(w.message)
        && w.queue + Concat(w.incoming) == RemoveFirst(p, arrivals))
  }

  lemma TakesFromBatch<T>(p: T -> bool, queue: seq<T>, b: seq<T>, rest: seq<seq<T>>, message: T)
    requires NoMatch(p, queue) && |Filter(p, b)| == 1 && LastMatch(p, b) == Some(message)
    ensures TakesFirst(p, queue + (b + Concat(rest)), Found(message, queue + Filter(Not(p), b), rest))
  {
    var later := Concat(rest);
    LastOfSingle(p, b);
    RemoveFirstAppend(p, queue, b + later);
    RemoveFirstAppend(p, b, later);
    assert queue + (RemoveFirst(p, b) + later) == (queue + RemoveFirst(p, b)) + later;
  }

  /** With at most one match per batch a wait takes exactly the first match out of everything that
      is queued or still to arrive; it starves only if there is none. */
  lemma {:induction false} CollectTakesFirst<T>(p: T -> bool, queue: seq<T>, incoming: seq<seq<T>>)
    requires NoMatch(p, queue) && SingleMatches(p, incoming)
    ensures TakesFirst(p, queue + Concat(incoming), Collect(p, queue, incoming))
    decreases |incoming|
  {
    if incoming == [] {
      assert queue + [] == queue;
    } else {
      var b, rest := incoming[0], incoming[1..];
      if LastMatch(p, b).None? {
        FilterAll(Not(p), b);
        CollectTakesFirst(p, queue + b, rest);
        assert (queue + b) + Concat(rest) == queue + (b + Concat(rest));
      } else {
        FilterMember(p, b, LastMatch(p, b).value);
        assert b in incoming;
        TakesFromBatch(p, queue, b, rest, LastMatch(p, b).value);
      }
    }
  }

  lemma WaitTakesFirst<T>(p: T -> bool, queue: seq<T>, incoming: seq<seq<T>>)
    requires SingleMatches(p, incoming)
    ensures TakesFirst(p, queue + Concat(incoming), Wait(p, queue, incoming))
  {
    if NoMatch(p, queue) {
      assert FirstMatch(p, queue).None?;
      CollectTakesFirst(p, queue, incoming);
    } else {
      WaitFromQueue(p, queue, incoming);
      RemoveFirstAppend(p, queue, Concat(incoming));
    }
  }

  /** A wait never returns anything but a match. */
  lemma {:induction false} WaitFinds<T>(p: T -> bool, queue: seq<T>, incoming: seq<seq<T>>)
    ensures Wait(p, queue, incoming).Found? ==> p(Wait(p, queue, incoming).message)
  {
    if FirstMatch(p, queue).None? {
      var n := CollectExact(p, queue, incoming);
    }
  }

  // ---------------------------------------------------------------- progress

  lemma {:induction false} FilterShorter<T>(p: T -> bool, s: seq<T>)
    ensures |Filter(p, s)| <= |s|
    ensures (exists x :: x in s && !p(x)) ==> |Filter(p, s)| < |s|
  {
    if s != [] {
      FilterShorter(p, s[1..]);
    }
  }

  /** A successful wait uses up at least one message and reads a prefix of the batches. */
  lemma {:induction false} CollectShrinks<T>(p: T -> bool, queue: seq<T>, incoming: seq<seq<T>>) returns (n: nat)
    ensures n <= |incoming|
    ensures var w := Collect(p, queue, incoming);
            w.Found? ==> w.incoming == incoming[n..] && |w.queue| + |Concat(w.incoming)| < |queue| + |Concat(incoming)|
    decreases |incoming|
  {
    n := 0;
    if incoming != [] {
      FilterShorter(Not(p), incoming[0]);
      match LastMatch(p, incoming[0]) {
        case Some(x) =>
          assert x in incoming[0] && !Not(p)(x);
          n := 1;
        case None =>
          n := CollectShrinks(p, queue + Filter(Not(p), incoming[0]), incoming[1..]);
          n := n + 1;
      }
    }
  }

  lemma WaitShrinks<T>(p: T -> bool, queue: seq<T>, incoming: seq<seq<T>>)
    ensures var w := Wait(p, queue, incoming);
            w.Found? ==>
            && |w.queue| + |Concat(w.incoming)| < |queue| + |Concat(incoming)|
            && exists n: nat :: n <= |incoming| && w.incoming == incoming[n..]
  {
    if FirstMatch(p, queue).None? {
      var n := CollectShrinks(p, queue, incoming);
    } else {
      assert incoming[0..] == incoming;
    }
  }
}
