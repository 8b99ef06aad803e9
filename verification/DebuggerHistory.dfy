/** What the debugger's fields mean in terms of everything that has happened so far. */
module DebuggerHistory {
  import opened Basics
  import opened Framing
  import opened Debugger

  /** A request, with the backend's answer should it be asked to start, or an event. */
  datatype Happening = Asked(r: Request, startOk: bool) | Saw(e: ThreadEvent)

  function After(s: Session, h: Happening): Session {
    match h
    case Asked(r, startOk) => AfterRequest(s, r, startOk)
    case Saw(e) => AfterEvent(s, e)
  }

  /** The session after a history. */
  function Outcome(history: seq<Happening>): Session {
    if history == [] then Fresh()
    else After(Outcome(history[..|history| - 1]), history[|history| - 1])
  }

  // ---------------------------------------------------------------- reading a history

  predicate Disconnects(h: Happening) { h.Asked? && h.r.command == "disconnect" }

  predicate Initializes(h: Happening) { h.Asked? && h.r.command == "initialize" && h.startOk }

  predicate SetsBreakpoints(h: Happening, path: string) {
    h.Asked? && h.r.command == "setBreakpoints" && h.r.path == path
  }

  predicate Stops(h: Happening, t: int) {
    h.Saw? && h.e.Stopped? && (if h.e.all then t in h.e.threadList else t == h.e.threadId)
  }

  predicate Resumes(h: Happening, t: int) {
    h.Saw? && h.e.Continued? && (h.e.all || t == h.e.threadId)
  }

  /** Something like `p` has happened since the last happening like `q`. */
  ghost predicate Since(history: seq<Happening>, p: Happening -> bool, q: Happening -> bool) {
    exists i: nat :: i < |history| && p(history[i]) && forall j :: i <= j < |history| ==> !q(history[j])
  }

  function Disconnecting(): Happening -> bool { (h: Happening) => Disconnects(h) }

  function Initializing(): Happening -> bool { (h: Happening) => Initializes(h) }

  function Stopping(t: int): Happening -> bool { (h: Happening) => Stops(h, t) }

  function Releasing(t: int): Happening -> bool { (h: Happening) => Disconnects(h) || Resumes(h, t) }

  lemma SinceSnoc(front: seq<Happening>, last: Happening, p: Happening -> bool, q: Happening -> bool)
    ensures Since(front + [last], p, q) <==> !q(last) && (p(last) || Since(front, p, q))
  {
    var history := front + [last];
    if Since(history, p, q) {
      var i: nat :| i < |history| && p(history[i]) && forall j :: i <= j < |history| ==> !q(history[j]);
      assert history[|front|] == last;
      if i < |front| {
        assert front[i] == history[i];
        forall j | i <= j < |front| ensures !q(front[j]) {
          assert front[j] == history[j];
        }
        assert Since(front, p, q);
      }
    }
    if !q(last) && p(last) {
      assert history[|front|] == last;
    } else if !q(last) && Since(front, p, q) {
      var i: nat :| i < |front| && p(front[i]) && forall j :: i <= j < |front| ==> !q(front[j]);
      assert history[i] == front[i];
    }
  }

  /** The debugger has started iff it has been asked to, with success, since the last disconnect. */
  lemma {:induction false} StartedMeans(history: seq<Happening>)
    ensures Outcome(history).started <==> Since(history, Initializing(), Disconnecting())
    decreases |history|
  {
    if history != [] {
      var front, last := history[..|history| - 1], history[|history| - 1];
      assert history == front + [last];
      StartedMeans(front);
      SinceSnoc(front, last, Initializing(), Disconnecting());
    }
  }

  /** A thread is in the stopped set iff an event that covers it has stopped it, and since then neither
      an event that covers it has resumed it nor a disconnect has happened. */
  lemma {:induction false} StoppedMeans(history: seq<Happening>, t: int)
    ensures t in Outcome(history).stopped <==> Since(history, Stopping(t), Releasing(t))
    decreases |history|
  {
    if history != [] {
      var front, last := history[..|history| - 1], history[|history| - 1];
      assert history == front + [last];
      StoppedMeans(front, t);
      SinceSnoc(front, last, Stopping(t), Releasing(t));
    }
  }

  /** The request at `i` sets the breakpoints of `path` in a started session that is still on, and no
      later request does. */
  ghost predicate LastSetting(history: seq<Happening>, path: string, i: nat) {
    && i < |history| && SetsBreakpoints(history[i], path)
    && Since(history[..i], Initializing(), Disconnecting())
    && forall j :: i < j < |history| ==> !Disconnects(history[j]) && !SetsBreakpoints(history[j], path)
  }

  lemma LastSettingSnoc(front: seq<Happening>, last: Happening, path: string, i: nat)
    ensures i < |front| ==>
              (LastSetting(front + [last], path, i) <==>
               LastSetting(front, path, i) && !Disconnects(last) && !SetsBreakpoints(last, path))
    ensures LastSetting(front + [last], path, |front|) <==>
              SetsBreakpoints(last, path) && Since(front, Initializing(), Disconnecting())
  {
    var history := front + [last];
    assert history[|front|] == last && history[..|front|] == front;
    if i < |front| {
      assert history[..i] == front[..i] && history[i] == front[i];
      if LastSetting(history, path, i) {
        forall j | i < j < |front| ensures !Disconnects(front[j]) && !SetsBreakpoints(front[j], path) {
          assert front[j] == history[j];
        }
      }
    }
  }

  /** The breakpoint list holds, for each source, exactly what the last `setBreakpoints` request of
      the current session says, and nothing for other sources. */
  lemma {:induction false} BreakpointsMean(history: seq<Happening>, path: string)
    ensures path in Outcome(history).breakpoints <==> exists i: nat :: LastSetting(history, path, i)
    ensures forall i: nat :: LastSetting(history, path, i) ==>
              path in Outcome(history).breakpoints && Outcome(history).breakpoints[path] == history[i].r.breakpoints
    decreases |history|
  {
    if history != [] {
      var front, last := history[..|history| - 1], history[|history| - 1];
      assert history == front + [last];
      BreakpointsMean(front, path);
      StartedMeans(front);
      var before, now := Outcome(front).breakpoints, Outcome(history).breakpoints;
      forall i: nat | LastSetting(history, path, i)
        ensures path in now && now[path] == history[i].r.breakpoints
      {
        LastSettingSnoc(front, last, path, i);
        if i < |front| {
          assert LastSetting(front, path, i) && history[i] == front[i];
        } else {
          assert i == |front| && history[i] == last;
        }
      }
      if path in now {
        if SetsBreakpoints(last, path) && Outcome(front).started {
          LastSettingSnoc(front, last, path, 0);
          assert LastSetting(history, path, |front|);
        } else {
          assert path in before;
          var i: nat :| LastSetting(front, path, i);
          StillStarted(front, path, i);
          LastSettingSnoc(front, last, path, i);
          assert LastSetting(history, path, i);
        }
      }
    }
  }

  /** While a setting is in force the session is on. */
  lemma StillStarted(history: seq<Happening>, path: string, i: nat)
    requires LastSetting(history, path, i)
    ensures Outcome(history).started
  {
    var k: nat :| k < i && Initializes(history[k]) && forall j :: k <= j < i ==> !Disconnects(history[j]);
    assert Initializing()(history[k]);
    assert forall j :: k <= j < |history| ==> !Disconnecting()(history[j]);
    StartedMeans(history);
  }

  /** A session that is off has no breakpoints. */
  lemma {:induction false} NoSessionNoBreakpoints(history: seq<Happening>)
    requires !Outcome(history).started
    ensures Outcome(history).breakpoints == map[]
  {
    forall path | path in Outcome(history).breakpoints ensures false {
      BreakpointsMean(history, path);
      var i: nat :| LastSetting(history, path, i);
      StillStarted(history, path, i);
    }
  }

  /** The backend is asked to start exactly by an `initialize` request that finds the session off. */
  lemma {:induction false} StartsExactlyWhenOff(history: seq<Happening>, r: Request, startOk: bool)
    ensures Start in CallsFor(Outcome(history), r, startOk) <==>
              r.command == "initialize" && !Since(history, Initializing(), Disconnecting())
  {
    StartedMeans(history);
  }

  // ---------------------------------------------------------------- dumped cells

  /** The files after a history that began with `files`. */
  function FilesThen(files: Files, history: seq<Happening>, tempFile: Bytes -> string): Files {
    if history == [] then files
    else
      var front, last := history[..|history| - 1], history[|history| - 1];
      var before := FilesThen(files, front, tempFile);
      if last.Asked? then FilesAfter(before, last.r, Running(Outcome(front), last.r, last.startOk), tempFile)
      else before
  }

  /** The request at `i` dumps a cell under `path` in a session that is on. */
  ghost predicate Dumps(history: seq<Happening>, tempFile: Bytes -> string, path: string, i: nat) {
    && i < |history| && history[i].Asked?
    && history[i].r.command == "dumpCell" && tempFile(history[i].r.code) == path
    && Since(history[..i], Initializing(), Disconnecting())
  }

  lemma DumpsSnoc(front: seq<Happening>, last: Happening, tempFile: Bytes -> string, path: string, i: nat)
    ensures i < |front| ==> (Dumps(front + [last], tempFile, path, i) <==> Dumps(front, tempFile, path, i))
    ensures Dumps(front + [last], tempFile, path, |front|) <==>
              last.Asked? && last.r.command == "dumpCell" && tempFile(last.r.code) == path && Outcome(front).started
  {
    StartedMeans(front);
    var history := front + [last];
    assert history[|front|] == last && history[..|front|] == front;
    if i < |front| {
      assert history[..i] == front[..i] && history[i] == front[i];
    }
  }

  /** Whether a file is there, and what it contains: the older file of that name if there is one, and
      else the first cell dumped under that name. No later dump changes it. */
  lemma {:induction false} DumpedCellsMean(files: Files, history: seq<Happening>, tempFile: Bytes -> string,
                                           path: string)
    ensures var now := FilesThen(files, history, tempFile);
            && (path in now <==> path in files || exists i: nat :: Dumps(history, tempFile, path, i))
            && (path in files ==> now[path] == files[path])
            && forall i: nat ::
                 path !in files && Dumps(history, tempFile, path, i)
                 && (forall j: nat :: j < i ==> !Dumps(history, tempFile, path, j)) ==>
                   now[path] == history[i].r.code
    decreases |history|
  {
    if history != [] {
      var front, last := history[..|history| - 1], history[|history| - 1];
      assert history == front + [last];
      DumpedCellsMean(files, front, tempFile, path);
      hide Dumps, Outcome;
      forall i: nat
        ensures i < |front| ==> (Dumps(history, tempFile, path, i) <==> Dumps(front, tempFile, path, i))
      {
        DumpsSnoc(front, last, tempFile, path, i);
      }
      DumpsSnoc(front, last, tempFile, path, 0);
      DumpsWithin(history, tempFile, path);
      DumpsWithin(front, tempFile, path);
    }
  }

  lemma DumpsWithin(history: seq<Happening>, tempFile: Bytes -> string, path: string)
    ensures forall i: nat :: Dumps(history, tempFile, path, i) ==> i < |history|
  {}

  /** A dumped cell is read back, however much later, exactly unless an older file or an earlier dump of that name
      has other contents. */
  lemma DumpedCellIsRead(files: Files, history: seq<Happening>, tempFile: Bytes -> string, i: nat, first: nat,
                         source: Request)
    requires Dumps(history, tempFile, source.path, i) && Dumps(history, tempFile, source.path, first)
    requires forall j: nat :: j < first ==> !Dumps(history, tempFile, source.path, j)
    ensures var code := history[i].r.code;
            SourceReply(FilesThen(files, history, tempFile), source) == Source(source.requestSeq, Some(code)) <==>
            if source.path in files then files[source.path] == code else history[first].r.code == code
  {
    DumpedCellsMean(files, history, tempFile, source.path);
    hide FilesThen, Dumps;
  }

  // ---------------------------------------------------------------- calls

  /** All calls made in the course of a history. */
  function Calls(history: seq<Happening>): seq<Call> {
    if history == [] then []
    else
      var front, last := history[..|history| - 1], history[|history| - 1];
      Calls(front) + if last.Asked? then CallsFor(Outcome(front), last.r, last.startOk) else []
  }

  /** The two calls belong to one request of the history. */
  ghost predicate Exchange(history: seq<Happening>, first: Call, second: Call) {
    exists i: nat :: i < |history| && history[i].Asked? &&
      first == SendHeader(history[i].r.header) && second == SendRequest(Frame(history[i].r.text))
  }

  ghost predicate HeaderFirst(history: seq<Happening>, calls: seq<Call>) {
    forall k :: 0 <= k < |calls| && calls[k].SendRequest? ==> 0 < k && Exchange(history, calls[k - 1], calls[k])
  }

  lemma ExchangeGrows(front: seq<Happening>, last: Happening, first: Call, second: Call)
    requires Exchange(front, first, second)
    ensures Exchange(front + [last], first, second)
  {
    var i: nat :| i < |front| && front[i].Asked? &&
      first == SendHeader(front[i].r.header) && second == SendRequest(Frame(front[i].r.text));
    assert (front + [last])[i] == front[i];
  }

  lemma CallsOfOne(front: seq<Happening>, last: Happening, s: Session)
    requires last.Asked?
    ensures HeaderFirst(front + [last], CallsFor(s, last.r, last.startOk))
  {
    hide Frame;
    var history := front + [last];
    assert history[|front|] == last;
    assert Exchange(history, SendHeader(last.r.header), SendRequest(Frame(last.r.text)));
  }

  /** Every request sent to the adapter directly follows the header it came with. */
  lemma {:induction false} RequestsFollowTheirHeaders(history: seq<Happening>)
    ensures HeaderFirst(history, Calls(history))
    decreases |history|
  {
    if history != [] {
      var front, last := history[..|history| - 1], history[|history| - 1];
      assert history == front + [last];
      RequestsFollowTheirHeaders(front);
      var earlier := Calls(front);
      var more: seq<Call> := if last.Asked? then CallsFor(Outcome(front), last.r, last.startOk) else [];
      if last.Asked? {
        CallsOfOne(front, last, Outcome(front));
      }
      hide Calls, Outcome, CallsFor;
      forall k | 0 <= k < |earlier + more| && (earlier + more)[k].SendRequest?
        ensures 0 < k && Exchange(history, (earlier + more)[k - 1], (earlier + more)[k])
      {
        if k < |earlier| {
          ExchangeGrows(front, last, earlier[k - 1], earlier[k]);
        } else {
          assert more[k - |earlier|].SendRequest?;
        }
      }
    }
  }

  // ---------------------------------------------------------------- exactly these calls

  datatype CallKind = StartCalls | HeaderCalls | RequestCalls | StopCalls

  function OfKind(kind: CallKind): Call -> bool {
    (call: Call) =>
      match kind
      case StartCalls => call.Start?
      case HeaderCalls => call.SendHeader?
      case RequestCalls => call.SendRequest?
      case StopCalls => call.Stop?
  }

  /** After `front` the session is on, or `last` turns it on. */
  ghost predicate FindsItOn(front: seq<Happening>, last: Happening) {
    Since(front, Initializing(), Disconnecting()) || Initializes(last)
  }

  /** Whether the request that comes after `front` must lead to a call of this kind. */
  ghost predicate IsDue(kind: CallKind, front: seq<Happening>, last: Happening) {
    last.Asked? &&
    match kind
    case StartCalls => last.r.command == "initialize" && !Since(front, Initializing(), Disconnecting())
    case HeaderCalls => FindsItOn(front, last) && last.r.command != "debugInfo"
    case RequestCalls =>
      && FindsItOn(front, last)
      && last.r.command != "debugInfo" && last.r.command != "dumpCell" && last.r.command != "source"
    case StopCalls => last.r.command == "disconnect"
  }

  function CallFor(kind: CallKind, r: Request): Call {
    match kind
    case StartCalls => Start
    case HeaderCalls => SendHeader(r.header)
    case RequestCalls => SendRequest(Frame(r.text))
    case StopCalls => Stop
  }

  ghost function CallsDue(kind: CallKind, history: seq<Happening>): seq<Call> {
    if history == [] then []
    else
      var front, last := history[..|history| - 1], history[|history| - 1];
      CallsDue(kind, front) + if IsDue(kind, front, last) then [CallFor(kind, last.r)] else []
  }

  /** What the front end looks at before it makes a call is what makes the call due. */
  lemma DueAsLookedAt(front: seq<Happening>, last: Happening)
    requires last.Asked?
    ensures var s, r := Outcome(front), last.r;
            && (IsDue(StartCalls, front, last) <==> Starting(s, r))
            && (FindsItOn(front, last) <==> Running(s, r, last.startOk))
            && (IsDue(RequestCalls, front, last) <==>
                Running(s, r, last.startOk) && r.command != "debugInfo" && !IsLocal(r.command))
  {
    StartedMeans(front);
    hide Outcome, Since;
  }

  lemma CallsInParts(s: Session, r: Request, startOk: bool)
    returns (start: seq<Call>, header: seq<Call>, request: seq<Call>, stop: seq<Call>)
    ensures CallsFor(s, r, startOk) == ((start + header) + request) + stop
    ensures start == if Starting(s, r) then [Start] else []
    ensures header == if Running(s, r, startOk) && r.command != "debugInfo" then [SendHeader(r.header)] else []
    ensures request == if Running(s, r, startOk) && r.command != "debugInfo" && !IsLocal(r.command)
            then [SendRequest(Frame(r.text))] else []
    ensures stop == if r.command == "disconnect" then [Stop] else []
  {
    hide Running, Starting, Frame, IsLocal;
    start := if Starting(s, r) then [Start] else [];
    header := if Running(s, r, startOk) && r.command != "debugInfo" then [SendHeader(r.header)] else [];
    request := if header != [] && !IsLocal(r.command) then [SendRequest(Frame(r.text))] else [];
    stop := if r.command == "disconnect" then [Stop] else [];
  }

  lemma CallsOfKind(kind: CallKind, front: seq<Happening>, last: Happening)
    requires last.Asked?
    ensures Filter(OfKind(kind), CallsFor(Outcome(front), last.r, last.startOk)) ==
            if IsDue(kind, front, last) then [CallFor(kind, last.r)] else []
  {
    DueAsLookedAt(front, last);
    hide Outcome, FindsItOn, Running, Starting, Frame, Filter, IsLocal, Since, CallsFor, OfKind;
    var start, header, request, stop := CallsInParts(Outcome(front), last.r, last.startOk);
    PartOfKind(kind, start, header, request, stop);
    if kind == RequestCalls {
      hide IsDue;
    }
  }

  lemma PartOfKind(kind: CallKind, start: seq<Call>, header: seq<Call>, request: seq<Call>, stop: seq<Call>)
    requires |start| <= 1 && |header| <= 1 && |request| <= 1 && |stop| <= 1
    requires start != [] ==> start[0].Start?
    requires header != [] ==> header[0].SendHeader?
    requires request != [] ==> request[0].SendRequest?
    requires stop != [] ==> stop[0].Stop?
    ensures Filter(OfKind(kind), ((start + header) + request) + stop) ==
            match kind case StartCalls => start case HeaderCalls => header case RequestCalls => request
            case StopCalls => stop
  {
    FilterFour(kind, start, header, request, stop);
    OnlyOf(kind, StartCalls, start);
    OnlyOf(kind, HeaderCalls, header);
    OnlyOf(kind, RequestCalls, request);
    OnlyOf(kind, StopCalls, stop);
    hide Filter, Only, OfKind;
  }

  lemma OnlyOf(kind: CallKind, same: CallKind, calls: seq<Call>)
    requires |calls| <= 1 && (calls != [] ==> OfKind(same)(calls[0]))
    ensures Only(kind, calls) == if kind == same then calls else []
  {}

  lemma FilterFour(kind: CallKind, a: seq<Call>, b: seq<Call>, c: seq<Call>, d: seq<Call>)
    requires |a| <= 1 && |b| <= 1 && |c| <= 1 && |d| <= 1
    ensures Filter(OfKind(kind), ((a + b) + c) + d) == ((Only(kind, a) + Only(kind, b)) + Only(kind, c)) + Only(kind, d)
  {
    FilterAppend(OfKind(kind), (a + b) + c, d);
    FilterAppend(OfKind(kind), a + b, c);
    FilterAppend(OfKind(kind), a, b);
    FilterOne(kind, a);
    FilterOne(kind, b);
    FilterOne(kind, c);
    FilterOne(kind, d);
    hide Filter, OfKind, Only;
  }

  function Only(kind: CallKind, calls: seq<Call>): seq<Call>
    requires |calls| <= 1
  {
    if calls != [] && OfKind(kind)(calls[0]) then calls else []
  }

  lemma FilterOne(kind: CallKind, calls: seq<Call>)
    requires |calls| <= 1
    ensures Filter(OfKind(kind), calls) == Only(kind, calls)
  {
    if calls != [] {
      assert calls[1..] == [];
    }
  }

  /** Over every history the calls of each kind are exactly those due, one for each request that needs one, with its
      own header or text, in the order of the requests. */
  lemma {:induction false} CallsExactly(kind: CallKind, history: seq<Happening>)
    ensures Filter(OfKind(kind), Calls(history)) == CallsDue(kind, history)
    decreases |history|
  {
    if history != [] {
      var front, last := history[..|history| - 1], history[|history| - 1];
      CallsExactly(kind, front);
      var more: seq<Call> := if last.Asked? then CallsFor(Outcome(front), last.r, last.startOk) else [];
      if last.Asked? {
        CallsOfKind(kind, front, last);
      }
      FilterAppend(OfKind(kind), Calls(front), more);
      hide CallsFor, Outcome, OfKind;
    }
  }

  /** A disconnect request stops the backend last of all. */
  lemma StopComesLast(history: seq<Happening>)
    requires history != [] && Disconnects(history[|history| - 1])
    ensures var n := |Calls(history)|; n > 0 && Calls(history)[n - 1] == Stop
    ensures Calls(history[..|history| - 1]) <= Calls(history)
  {
    hide Outcome, Frame;
  }
}
