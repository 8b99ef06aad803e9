/** Vocabulary shared by the other modules. */
module Basics {

  datatype Option<+T> = None | Some(value: T)

  /** A byte string; every character stands for one byte. */
  type Bytes = string

  lemma Associative<T>(a: seq<T>, b: seq<T>, c: seq<T>)
    ensures a + (b + c) == (a + b) + c
  {}

  /** The concatenation of a sequence of sequences. */
  function Concat<T>(parts: seq<seq<T>>): seq<T> {
    if parts == [] then [] else parts[0] + Concat(parts[1..])
  }

  lemma {:induction false} ConcatAppend<T>(front: seq<seq<T>>, back: seq<seq<T>>)
    ensures Concat(front + back) == Concat(front) + Concat(back)
  {
    if front == [] {
      assert front + back == back;
    } else {
      assert (front + back)[1..] == front[1..] + back;
      ConcatAppend(front[1..], back);
    }
  }

  lemma ConcatSnoc<T>(front: seq<seq<T>>, last: seq<T>)
    ensures Concat(front + [last]) == Concat(front) + last
  {
    ConcatAppend(front, [last]);
    assert Concat([last]) == last + Concat<T>([]);
  }

  lemma ConcatSplit<T>(parts: seq<seq<T>>, m: nat)
    requires m <= |parts|
    ensures Concat(parts) == Concat(parts[..m]) + Concat(parts[m..])
  {
    ConcatAppend(parts[..m], parts[m..]);
    assert parts[..m] + parts[m..] == parts;
  }

  lemma ConcatTake<T>(parts: seq<seq<T>>, m: nat)
    requires m < |parts|
    ensures Concat(parts[..m + 1]) == Concat(parts[..m]) + parts[m]
  {
    ConcatSnoc(parts[..m], parts[m]);
    assert parts[..m] + [parts[m]] == parts[..m + 1];
  }

  /** The elements of `s` that satisfy `p`, in order. */
  function Filter<T>(p: T -> bool, s: seq<T>): seq<T> {
    if s == [] then [] else (if p(s[0]) then [s[0]] else []) + Filter(p, s[1..])
  }

  lemma {:induction false} FilterAppend<T>(p: T -> bool, s: seq<T>, t: seq<T>)
    ensures Filter(p, s + t) == Filter(p, s) + Filter(p, t)
  {
    if s == [] {
      assert s + t == t;
    } else {
      FilterAppend(p, s[1..], t);
      assert (s + t)[1..] == s[1..] + t;
      var head := if p(s[0]) then [s[0]] else [];
      assert head + (Filter(p, s[1..]) + Filter(p, t)) == (head + Filter(p, s[1..])) + Filter(p, t);
    }
  }

  lemma {:induction false} FilterAll<T>(p: T -> bool, s: seq<T>)
    requires forall x :: x in s ==> p(x)
    ensures Filter(p, s) == s
  {
    if s != [] {
      FilterAll(p, s[1..]);
    }
  }

  /** `out` is, in order, what `f` makes of the elements that satisfy `p`. */
  predicate Picks<T, U(==)>(p: T -> bool, f: T -> U, s: seq<T>, out: seq<U>) {
    |out| == |Filter(p, s)| && forall k :: 0 <= k < |out| ==> out[k] == f(Filter(p, s)[k])
  }

  lemma PicksOneMore<T, U>(p: T -> bool, f: T -> U, s: seq<T>, out: seq<U>, x: T)
    requires Picks(p, f, s, out)
    ensures Picks(p, f, s + [x], out + if p(x) then [f(x)] else [])
  {
    FilterAppend(p, s, [x]);
    assert Filter(p, [x]) == (if p(x) then [x] else []) + Filter(p, []);
  }
}
