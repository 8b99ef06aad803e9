/** The debugger front end: request dispatch, breakpoint list and the set of stopped threads. */
module Debugger {
  import opened Basics
  import opened Framing
  import opened Selection
  import opened Variables

  type Breakpoint = Bytes
  type BreakpointList = map<string, seq<Breakpoint>>

  /** A request of the client, with the fields the front end looks at; `text` is its JSON text and
      `header` the text of the header it came with. A `code` or, for `source`, a `path` that is missing or no
      string counts as empty. */
  datatype Request = Request(
    header: Bytes, text: Bytes, command: string, requestSeq: int,
    path: string, breakpoints: seq<Breakpoint>, start: Option<int>, count: Option<int>, code: Bytes)

  datatype StackFrame = StackFrame(path: string, rest: Bytes)

  /** An answer of the adapter, with the two lists the front end edits. */
  datatype Answer = Answer(variables: seq<Bytes>, frames: seq<StackFrame>, rest: Bytes)

  datatype ThreadEvent =
    | Stopped(all: bool, threadList: seq<int>, threadId: int)
    | Continued(all: bool, threadId: int)
    | OtherEvent

  /** What the front end asks of the debugger backend and of the two middleware sockets. */
  datatype Call = Start | Stop | SendHeader(header: Bytes) | SendRequest(framed: Bytes)

  /** `NullVariables` is an answer whose variable list has been replaced by null, `Thrown` the exception of an
      element access out of range. */
  datatype Reply =
    | Nothing
    | StartFailed(requestSeq: int)
    | Info(requestSeq: int, started: bool, breakpoints: seq<(string, seq<Breakpoint>)>, stoppedThreads: set<int>)
    | FromAdapter(answer: Answer)
    | NullVariables(answer: Answer)
    | Thrown
    | Dumped(requestSeq: int, path: string)
    | Source(requestSeq: int, content: Option<Bytes>)

  /** The commands that are handled without the adapter once the debugger has started. */
  predicate IsLocal(command: string) { command == "dumpCell" || command == "source" }

  // ---------------------------------------------------------------- key order

  /** The order in which a `std::map` keeps its keys. */
  predicate KeyLess(a: string, b: string) {
    b != [] && (a == [] || a[0] < b[0] || (a[0] == b[0] && KeyLess(a[1..], b[1..])))
  }

  /** At `i` the two strings part: the first one ends there, or has the lesser character. */
  predicate PartAt(a: string, b: string, i: nat) {
    i <= |a| && i < |b| && a[..i] == b[..i] && (i == |a| || a[i] < b[i])
  }

  /** The order is the lexicographic one. */
  lemma {:induction false} KeyLessExactly(a: string, b: string)
    ensures KeyLess(a, b) <==> exists i: nat :: PartAt(a, b, i)
    decreases |a|
  {
    if a == [] || b == [] || a[0] != b[0] {
      assert PartAt(a, b, 0) <==> KeyLess(a, b);
      forall i: nat ensures PartAt(a, b, i) ==> i == 0 {
        if 0 < i <= |a| && i <= |b| {
          assert a[..i][0] != b[..i][0];
        }
      }
    } else {
      KeyLessExactly(a[1..], b[1..]);
      assert a == [a[0]] + a[1..] && b == [b[0]] + b[1..];
      if KeyLess(a, b) {
        var i: nat :| PartAt(a[1..], b[1..], i);
        PartLater(a, b, i);
      } else {
        forall i: nat ensures !PartAt(a, b, i) {
          if i > 0 {
            PartLater(a, b, i - 1);
          }
        }
      }
    }
  }

  lemma PartLater(a: string, b: string, i: nat)
    requires a != [] && b != [] && a[0] == b[0]
    ensures PartAt(a, b, i + 1) <==> PartAt(a[1..], b[1..], i)
  {
    if i + 1 <= |a| && i + 1 <= |b| {
      assert a[..i + 1] == [a[0]] + a[1..][..i] && b[..i + 1] == [b[0]] + b[1..][..i];
      assert a[..i + 1] == b[..i + 1] <==> a[1..][..i] == b[1..][..i] by {
        assert a[..i + 1][1..] == a[1..][..i] && b[..i + 1][1..] == b[1..][..i];
      }
    }
  }

  lemma {:induction false} KeyLessIsTotal(a: string, b: string)
    ensures a == b || KeyLess(a, b) || KeyLess(b, a)
    ensures !(KeyLess(a, b) && KeyLess(b, a))
    decreases |a|
  {
    if a != [] && b != [] && a[0] == b[0] {
      KeyLessIsTotal(a[1..], b[1..]);
      assert a == [a[0]] + a[1..] && b == [b[0]] + b[1..];
    }
  }

  lemma {:induction false} KeyLessIsTransitive(a: string, b: string, c: string)
    requires KeyLess(a, b) && KeyLess(b, c)
    ensures KeyLess(a, c)
    decreases |b|
  {
    if a != [] && a[0] == b[0] == c[0] {
      KeyLessIsTransitive(a[1..], b[1..], c[1..]);
    }
  }

  predicate InKeyOrder(entries: seq<(string, seq<Breakpoint>)>) {
    forall i, j :: 0 <= i < j < |entries| ==> KeyLess(entries[i].0, entries[j].0)
  }

  /** `entries` lists the whole map, each source once and in key order. */
  predicate Lists(entries: seq<(string, seq<Breakpoint>)>, m: BreakpointList) {
    && InKeyOrder(entries)
    && (forall e :: e in entries ==> e.0 in m && m[e.0] == e.1)
    && (forall k :: k in m ==> (k, m[k]) in entries)
  }

  /** The least key of a non-empty set. */
  lemma LeastKeyExists(keys: set<string>) returns (least: string)
    requires keys != {}
    ensures least in keys && forall k :: k in keys && k != least ==> KeyLess(least, k)
  {
    var k :| k in keys;
    if keys == {k} {
      least := k;
    } else {
      var rest := keys - {k};
      var m := LeastKeyExists(rest);
      KeyLessIsTotal(k, m);
      least := if KeyLess(k, m) then k else m;
      forall x | x in keys && x != least ensures KeyLess(least, x) {
        if least == k && x != m {
          KeyLessIsTransitive(k, m, x);
        }
      }
    }
  }

  // ---------------------------------------------------------------- the session on values

  datatype Session = Session(started: bool, breakpoints: BreakpointList, stopped: set<int>)

  function Fresh(): Session { Session(false, map[], {}) }

  /** `startOk` is what the backend answers if it is asked to start. */
  function AfterRequest(s: Session, r: Request, startOk: bool): Session {
    var s1 := if Starting(s, r) then s.(started := startOk) else s;
    var s2 := if r.command == "setBreakpoints" && s1.started
              then s1.(breakpoints := s1.breakpoints[r.path := r.breakpoints]) else s1;
    if r.command == "disconnect" then Fresh() else s2
  }

  function AfterEvent(s: Session, e: ThreadEvent): Session {
    match e
    case Stopped(all, threadList, threadId) =>
      s.(stopped := s.stopped + if all then set t | t in threadList else {threadId})
    case Continued(all, threadId) => s.(stopped := if all then {} else s.stopped - {threadId})
    case OtherEvent => s
  }

  /** The calls a request leads to, in order. */
  function CallsFor(s: Session, r: Request, startOk: bool): seq<Call> {
    var starting := Starting(s, r);
    var running := Running(s, r, startOk);
    (if starting then [Start] else [])
    + (if running && r.command != "debugInfo" then
         [SendHeader(r.header)] + (if IsLocal(r.command) then [] else [SendRequest(Frame(r.text))])
       else [])
    + (if r.command == "disconnect" then [Stop] else [])
  }

  type Files = map<string, Bytes>

  /** A cell is dumped to its temporary file unless that file is there already. */
  function FilesAfter(files: Files, r: Request, running: bool, tempFile: Bytes -> string): Files {
    if running && r.command == "dumpCell" && tempFile(r.code) !in files then files[tempFile(r.code) := r.code]
        else files
  }

  /** A frame of code that comes from no file. */
  function FromString(): StackFrame -> bool { (f: StackFrame) => f.path == "<string>" }

  /** The first frame of code from no file is taken out. */
  function StackReply(answer: Answer): Reply {
    FromAdapter(answer.(frames := RemoveFirst(FromString(), answer.frames)))
  }

  function VariablesReply(answer: Answer, start: Option<int>, count: Option<int>): Reply {
    match PageOf(answer.variables, start, count)
    case Whole => FromAdapter(answer)
    case Slice(variables) => FromAdapter(answer.(variables := variables))
    case Null => NullVariables(answer)
    case OutOfRange => Thrown
  }

  function SourceReply(files: Files, r: Request): Reply {
    Source(r.requestSeq, if r.path in files then Some(files[r.path]) else None)
  }

  /** What a request other than `debugInfo` gets from a session that is on. */
  function Handled(r: Request, answer: Answer, files: Files, tempFile: Bytes -> string): Reply {
    if r.command == "dumpCell" then Dumped(r.requestSeq, tempFile(r.code))
    else if r.command == "source" then SourceReply(files, r)
    else if r.command == "stackTrace" then StackReply(answer)
    else if r.command == "variables" then VariablesReply(answer, r.start, r.count)
    else FromAdapter(answer)
  }

  predicate Starting(s: Session, r: Request) { r.command == "initialize" && !s.started }

  predicate Running(s: Session, r: Request, startOk: bool) { if Starting(s, r) then startOk else s.started }

  /** What the client gets back for a request other than `debugInfo`. */
  function ReplyFor(s: Session, r: Request, startOk: bool, answer: Answer, files: Files,
                    tempFile: Bytes -> string): Reply
  {
    if Running(s, r, startOk) then Handled(r, answer, files, tempFile)
    else if Starting(s, r) then StartFailed(r.requestSeq)
    else Nothing
  }

  /** Taking out the first frame from no file leaves all others in order, and does nothing if there is none. */
  lemma {:induction false} StackReplyExactly(frames: seq<StackFrame>)
    ensures var left := RemoveFirst(FromString(), frames);
            if forall f :: f in frames ==> f.path != "<string>" then left == frames
            else exists i :: 0 <= i < |frames| && frames[i].path == "<string>" && left == Without(frames, i)
                             && forall k :: 0 <= k < i ==> frames[k].path != "<string>"
  {
    match FirstMatch(FromString(), frames)
    case Some(i) => RemoveFirstAt(FromString(), frames, i);
    case None => RemoveFirstNone(FromString(), frames);
  }

  /** The answer to `stackTrace`: at most the first frame from no file is missing. */
  predicate Untraced(answer: Answer, edited: Answer) {
    && edited == answer.(frames := edited.frames)
    && if forall f :: f in answer.frames ==> f.path != "<string>" then edited.frames == answer.frames
       else exists i :: 0 <= i < |answer.frames| && answer.frames[i].path == "<string>"
                        && edited.frames == answer.frames[..i] + answer.frames[i + 1..]
                        && forall k :: 0 <= k < i ==> answer.frames[k].path != "<string>"
  }

  /** What the client gets back, case by case: nothing from a session that is off, a refusal if it could not be started,
      and from a session that is on the adapter's answer, edited for `stackTrace` and `variables` only, or for a local
      command the name or the contents of a file. */
  lemma RepliesMean(s: Session, r: Request, startOk: bool, answer: Answer, files: Files, tempFile: Bytes -> string)
    ensures var reply := ReplyFor(s, r, startOk, answer, files, tempFile);
            var start := if r.start.Some? then r.start.value else 0;
            var count := if r.count.Some? then r.count.value else 0;
            if !s.started && r.command != "initialize" then reply == Nothing
            else if !s.started && !startOk then reply == StartFailed(r.requestSeq)
            else if r.command == "dumpCell" then reply == Dumped(r.requestSeq, tempFile(r.code))
            else if r.command == "source" then
              reply == Source(r.requestSeq, if r.path in files then Some(files[r.path]) else None)
            else if r.command == "stackTrace" then reply.FromAdapter? && Untraced(answer, reply.answer)
            else if r.command == "variables" then Paged(answer, start, count, reply)
            else reply == FromAdapter(answer)
  {
    StackReplyMeans(answer);
    VariablesReplyMeans(answer, r.start, r.count);
    hide Paged, VariablesReply, StackReply, Untraced;
  }

  /** The answer with its page of variables. */
  ghost predicate Paged(answer: Answer, start: int, count: int, reply: Reply) {
    exists page :: IsPage(answer.variables, start, count, page) && PagedReply(answer, page, reply)
  }

  lemma StackReplyMeans(answer: Answer)
    ensures StackReply(answer).FromAdapter? && Untraced(answer, StackReply(answer).answer)
  {
    StackReplyExactly(answer.frames);
    hide RemoveFirst;
  }

  lemma VariablesReplyMeans(answer: Answer, startField: Option<int>, countField: Option<int>)
    ensures var start := if startField.Some? then startField.value else 0;
            var count := if countField.Some? then countField.value else 0;
            Paged(answer, start, count, VariablesReply(answer, startField, countField))
  {
    PageExactly(answer.variables, startField, countField);
    assert PagedReply(answer, PageOf(answer.variables, startField, countField),
                      VariablesReply(answer, startField, countField));
    hide IsPage, PageOf;
  }

  predicate PagedReply(answer: Answer, page: Page<Bytes>, reply: Reply) {
    && (page.Whole? ==> reply == FromAdapter(answer))
    && (page.Null? ==> reply == NullVariables(answer))
    && (page.OutOfRange? ==> reply == Thrown)
    && (page.Slice? ==> reply.FromAdapter? && reply.answer == answer.(variables := page.variables))
  }

  lemma FirstMatchSettled<T>(p: T -> bool, s: seq<T>, i: nat)
    requires i < |s| && p(s[i]) && forall k :: 0 <= k < i ==> !p(s[k])
    ensures FirstMatch(p, s) == Some(i)
  {
    var first := FirstMatch(p, s);
    assert s[i] in s;
  }

  lemma RemoveFirstNone<T>(p: T -> bool, s: seq<T>)
    requires forall x :: x in s ==> !p(x)
    ensures RemoveFirst(p, s) == s
  {
    RemoveFirstMiss(p, s, []);
    assert s + [] == s;
  }

  class Debugger {
    var started: bool
    var breakpoints: BreakpointList
    var stoppedThreads: set<int>
    var calls: seq<Call>
    /** The part of the file system that holds the sources. */
    var files: Files
    /** The name of the temporary file of a cell. */
    const tempFile: Bytes -> string

    ghost function State(): Session
      reads this
    {
      Session(started, breakpoints, stoppedThreads)
    }

    constructor (files: Files, tempFile: Bytes -> string)
      ensures State() == Fresh() && calls == [] && this.files == files && this.tempFile == tempFile
    {
      started, breakpoints, stoppedThreads, calls := false, map[], {}, [];
      this.files, this.tempFile := files, tempFile;
    }

    method SendRecvHeader(header: Bytes)
      modifies this`calls
      ensures calls == old(calls) + [SendHeader(header)]
    {
      calls := calls + [SendHeader(header)];
    }

    /** `answer` is what comes back on the request socket. */
    method ForwardMessage(r: Request, answer: Answer) returns (reply: Reply)
      modifies this`calls
      ensures calls == old(calls) + [SendRequest(Frame(r.text))] && reply == FromAdapter(answer)
    {
      calls := calls + [SendRequest(HEADER + Digits(|r.text|) + SEPARATOR + r.text)];
      reply := FromAdapter(answer);
    }

    method SetBreakpointsRequest(r: Request, answer: Answer) returns (reply: Reply)
      modifies this`breakpoints, this`calls
      ensures breakpoints == old(breakpoints)[r.path := r.breakpoints]
      ensures calls == old(calls) + [SendRequest(Frame(r.text))] && reply == FromAdapter(answer)
    {
      breakpoints := breakpoints - {r.path};
      breakpoints := breakpoints + map[r.path := r.breakpoints];
      reply := ForwardMessage(r, answer);
    }

    /** Walks over the breakpoint map in key order. */
    method ListBreakpoints() returns (entries: seq<(string, seq<Breakpoint>)>)
      ensures Lists(entries, breakpoints)
    {
      entries := [];
      var todo := breakpoints.Keys;
      while todo != {}
        invariant todo <= breakpoints.Keys
        invariant InKeyOrder(entries)
        invariant forall e :: e in entries ==> e.0 in breakpoints && e.0 !in todo && breakpoints[e.0] == e.1
        invariant forall k :: k in breakpoints ==> k in todo || (k, breakpoints[k]) in entries
        invariant forall e, k :: e in entries && k in todo ==> KeyLess(e.0, k)
        decreases |todo|
      {
        ghost var first := LeastKeyExists(todo);
        LeastIsUnique(todo, first);
        var least :| least in todo && forall k :: k in todo && k != least ==> KeyLess(least, k);
        var entry := (least, breakpoints[least]);
        entries := entries + [entry];
        todo := todo - {least};
      }
    }

    method DumpCellRequest(r: Request) returns (reply: Reply)
      requires r.command == "dumpCell"
      modifies this`files
      ensures files == FilesAfter(old(files), r, true, tempFile) && reply == Dumped(r.requestSeq, tempFile(r.code))
    {
      var nextFileName := tempFile(r.code);
      if nextFileName !in files {
        files := files[nextFileName := r.code];
      }
      reply := Dumped(r.requestSeq, nextFileName);
    }

    method SourceRequest(r: Request) returns (reply: Reply)
      ensures reply == SourceReply(files, r)
    {
      if r.path !in files {
        return Source(r.requestSeq, None);
      }
      reply := Source(r.requestSeq, Some(files[r.path]));
    }

    method StackTraceRequest(r: Request, answer: Answer) returns (reply: Reply)
      modifies this`calls
      ensures calls == old(calls) + [SendRequest(Frame(r.text))] && reply == StackReply(answer)
    {
      reply := ForwardMessage(r, answer);
      var size, i := |answer.frames|, 0;
      while i < size
        invariant 0 <= i <= size == |answer.frames| && reply == FromAdapter(answer)
        invariant forall k :: 0 <= k < i ==> !FromString()(answer.frames[k])
      {
        if answer.frames[i].path == "<string>" {
          FirstMatchSettled(FromString(), answer.frames, i);
          RemoveFirstAt(FromString(), answer.frames, i);
          return FromAdapter(answer.(frames := answer.frames[..i] + answer.frames[i + 1..]));
        }
        i := i + 1;
      }
      RemoveFirstNone(FromString(), answer.frames);
    }

    method VariablesRequest(r: Request, answer: Answer) returns (reply: Reply)
      modifies this`calls
      ensures calls == old(calls) + [SendRequest(Frame(r.text))] && reply == VariablesReply(answer, r.start, r.count)
    {
      reply := ForwardMessage(r, answer);
      var page := SelectVariables(answer.variables, r.start, r.count);
      match page
      case Whole =>
      case Slice(variables) => reply := FromAdapter(answer.(variables := variables));
      case Null => reply := NullVariables(answer);
      case OutOfRange => reply := Thrown;
    }

    method DebugInfoRequest(r: Request) returns (reply: Reply)
      ensures reply.Info? && reply.requestSeq == r.requestSeq
      ensures reply.started == started && reply.stoppedThreads == stoppedThreads
      ensures if started then Lists(reply.breakpoints, breakpoints) else reply.breakpoints == []
    {
      var list := [];
      if started {
        list := ListBreakpoints();
      }
      reply := Info(r.requestSeq, started, list, stoppedThreads);
    }

    /** The handlers of a session that is on; a command without one is forwarded. */
    method HandleStarted(r: Request, answer: Answer) returns (reply: Reply)
      modifies this`breakpoints, this`calls, this`files
      ensures breakpoints == if r.command == "setBreakpoints" then old(breakpoints)[r.path := r.breakpoints]
              else old(breakpoints)
      ensures calls == old(calls) + if IsLocal(r.command) then [] else [SendRequest(Frame(r.text))]
      ensures files == FilesAfter(old(files), r, true, tempFile)
      ensures reply == Handled(r, answer, old(files), tempFile)
    {
      hide Frame, StackReply, VariablesReply;
      if r.command == "setBreakpoints" {
        reply := SetBreakpointsRequest(r, answer);
      } else if r.command == "dumpCell" {
        reply := DumpCellRequest(r);
      } else if r.command == "source" {
        reply := SourceRequest(r);
      } else if r.command == "stackTrace" {
        reply := StackTraceRequest(r, answer);
      } else if r.command == "variables" {
        reply := VariablesRequest(r, answer);
      } else {
        reply := ForwardMessage(r, answer);
      }
    }

    /** Handles one request. `startOk` and `answer` are what the backend and the adapter reply if
        they are asked. */
    method ProcessRequest(r: Request, startOk: bool, answer: Answer) returns (reply: Reply)
      modifies this
      ensures State() == AfterRequest(old(State()), r, startOk)
      ensures calls == old(calls) + CallsFor(old(State()), r, startOk)
      ensures r.command == "debugInfo" ==>
                reply.Info? && reply.requestSeq == r.requestSeq
                && reply.started == started && reply.stoppedThreads == stoppedThreads
                && (if started then Lists(reply.breakpoints, breakpoints) else reply.breakpoints == [])
      ensures r.command != "debugInfo" ==> reply == ReplyFor(old(State()), r, startOk, answer, old(files), tempFile)
      ensures files == FilesAfter(old(files), r, Running(old(State()), r, startOk), tempFile)
    {
      hide Frame, Handled, IsLocal;
      reply := Nothing;
      if r.command == "initialize" && !started {
        calls := calls + [Start];
        started := startOk;
        if !started {
          reply := StartFailed(r.requestSeq);
        }
      }
      if r.command == "debugInfo" {
        reply := DebugInfoRequest(r);
      } else if started {
        SendRecvHeader(r.header);
        reply := HandleStarted(r, answer);
      }
      if r.command == "disconnect" {
        calls := calls + [Stop];
        breakpoints, stoppedThreads, started := map[], {}, false;
      }
    }

    method HandleEvent(e: ThreadEvent)
      modifies this`stoppedThreads
      ensures State() == AfterEvent(old(State()), e)
    {
      match e
      case Stopped(all, threadList, threadId) =>
        if all {
          for i := 0 to |threadList|
            invariant stoppedThreads == old(stoppedThreads) + set t | t in threadList[..i]
          {
            assert threadList[..i + 1] == threadList[..i] + [threadList[i]];
            stoppedThreads := stoppedThreads + {threadList[i]};
          }
          assert threadList[..|threadList|] == threadList;
        } else {
          stoppedThreads := stoppedThreads + {threadId};
        }
      case Continued(all, threadId) =>
        stoppedThreads := if all then {} else stoppedThreads - {threadId};
      case OtherEvent =>
    }
  }

  lemma LeastIsUnique(keys: set<string>, least: string)
    requires least in keys && forall k :: k in keys && k != least ==> KeyLess(least, k)
    ensures forall x :: x in keys && (forall k :: k in keys && k != x ==> KeyLess(x, k)) ==> x == least
  {
    forall x | x in keys && (forall k :: k in keys && k != x ==> KeyLess(x, k)) ensures x == least {
      KeyLessIsTotal(x, least);
    }
  }
}
