/**
 The accept loop, the per-connection goroutines and `Close` of a server, as interleaved atomic
 steps. Each critical section under `mutexConns` is one step.
 */
module TcpServer {
  import opened Common

  type ConnId = nat

  /** Where the accept loop is. */
  datatype Loop =
    | NotStarted
    | Listening
    | GotConn(c: ConnId)
    | Tracked(c: ConnId)
    | Counted(c: ConnId)
    | Exited

  /** Where a connection's goroutine is. */
  datatype Handler = Running | Cleaning | Untracked

  /** Where a caller of `Close` is. */
  datatype Closer = WaitLoop | DropConns | WaitConns | Returned

  /**
   `conns` is none once it has been set to nil; `started` is the history of agents run, `closed` that of the
   connections the server has closed.
   */
  datatype Server = Server(
    maxConnNum: nat, conns: Option<set<ConnId>>, lnClosed: bool, loop: Loop, tempDelay: nat,
    handlers: map<ConnId, Handler>, wgLn: int, wgConns: int, closers: map<nat, Closer>,
    panicked: bool, started: set<ConnId>, closed: set<ConnId>)

  function Init(maxConnNum: nat): Server {
    Server(maxConnNum, Some({}), false, NotStarted, 0, map[], 0, 0, map[], false, {}, {})
  }

  datatype Step =
    | Begin
    | Accept(c: ConnId)
    | AcceptRetry
    | AcceptFail
    | LoopStep
    | AgentReturn(c: ConnId)
    | Untrack(c: ConnId)
    | HandlerDone(c: ConnId)
    | CallClose(id: nat)
    | CloserStep(id: nat)

  /** Connections are new on acceptance, and a closed listener accepts none and fails for good. */
  predicate Enabled(s: Server, step: Step) {
    && !s.panicked
    && match step
       case Begin => s.loop.NotStarted?
       case Accept(c) =>
         && s.loop.Listening? && !s.lnClosed && c !in s.started && c !in s.handlers
         && (s.conns.Some? ==> c !in s.conns.value)
       case AcceptRetry => s.loop.Listening? && !s.lnClosed
       case AcceptFail => s.loop.Listening?
       case LoopStep => s.loop.GotConn? || s.loop.Tracked? || s.loop.Counted?
       case AgentReturn(c) => c in s.handlers && s.handlers[c].Running?
       case Untrack(c) => c in s.handlers && s.handlers[c].Cleaning?
       case HandlerDone(c) => c in s.handlers && s.handlers[c].Untracked?
       case CallClose(id) => id !in s.closers
       case CloserStep(id) => id in s.closers && match s.closers[id]
         case WaitLoop => s.wgLn == 0
         case DropConns => true
         case WaitConns => s.wgConns == 0
         case Returned => false
  }

  function NextDelay(tempDelay: nat): nat {
    var d := if tempDelay == 0 then 5 else 2 * tempDelay;
    if d > 1000 then 1000 else d
  }

  function Next(s: Server, step: Step): Server
    requires Enabled(s, step)
  {
    match step
    case Begin => s.(loop := Listening, wgLn := s.wgLn + 1)
    case Accept(c) => s.(loop := GotConn(c), tempDelay := 0)
    case AcceptRetry => s.(tempDelay := NextDelay(s.tempDelay))
    case AcceptFail => s.(loop := Exited, wgLn := s.wgLn - 1, panicked := s.wgLn < 1)
    case LoopStep => (match s.loop
      case GotConn(c) =>
        var count := if s.conns.Some? then |s.conns.value| else 0;
        if count >= s.maxConnNum then s.(loop := Listening, closed := s.closed + {c})
        else if s.conns.None? then s.(panicked := true)
        else s.(conns := Some(s.conns.value + {c}), loop := Tracked(c))
      case Tracked(c) => s.(wgConns := s.wgConns + 1, loop := Counted(c))
      case Counted(c) => s.(handlers := s.handlers[c := Running], started := s.started + {c}, loop := Listening))
    case AgentReturn(c) => s.(handlers := s.handlers[c := Cleaning])
    case Untrack(c) =>
      s.(handlers := s.handlers[c := Untracked], closed := s.closed + {c},
         conns := if s.conns.Some? then Some(s.conns.value - {c}) else None)
    case HandlerDone(c) => s.(handlers := s.handlers - {c}, wgConns := s.wgConns - 1, panicked := s.wgConns < 1)
    case CallClose(id) => s.(lnClosed := true, closers := s.closers[id := WaitLoop])
    case CloserStep(id) => match s.closers[id]
      case WaitLoop => s.(closers := s.closers[id := DropConns])
      case DropConns =>
        s.(conns := None, closers := s.closers[id := WaitConns],
           closed := if s.conns.Some? then s.closed + s.conns.value else s.closed)
      case WaitConns => s.(closers := s.closers[id := Returned])
  }

  function After(maxConnNum: nat, run: seq<Step>): Option<Server> {
    if run == [] then Some(Init(maxConnNum))
    else
      var last := run[|run| - 1];
      match After(maxConnNum, run[..|run| - 1])
      case None => None
      case Some(s) => if Enabled(s, last) then Some(Next(s, last)) else None
  }

  // ---------------------------------------------------------------- the invariant

  /** The loop holds no connection and, the listener being closed, will get none. */
  predicate LoopShut(s: Server) {
    s.lnClosed && (s.loop.NotStarted? || s.loop.Listening? || s.loop.Exited?)
  }

  /** How many connection goroutines have not finished. */
  function Live(handlers: map<ConnId, Handler>): nat {
    |handlers.Keys|
  }

  predicate Counts(s: Server) {
    && s.wgLn == (if s.loop.NotStarted? || s.loop.Exited? then 0 else 1)
    && s.wgConns == Live(s.handlers) + (if s.loop.Counted? then 1 else 0)
    && (s.tempDelay == 0 || 5 <= s.tempDelay <= 1000)
  }

  /** Connections accepted and not yet taken out of the set by their goroutine. */
  function Busy(s: Server): set<ConnId> {
    BusyIn(s.handlers, s.loop)
  }

  function BusyIn(handlers: map<ConnId, Handler>, loop: Loop): set<ConnId> {
    (set c | c in handlers && !handlers[c].Untracked?)
    + (if loop.Tracked? || loop.Counted? then {loop.c} else {})
  }

  /** The tracked set is exactly the busy connections, and there are never too many of those. */
  predicate Exactness(s: Server) {
    (s.conns.Some? ==> s.conns.value == Busy(s)) && |Busy(s)| <= s.maxConnNum
  }

  predicate Tracking(s: Server) {
    && (s.conns.None? ==> LoopShut(s))
    && (s.loop.GotConn? || s.loop.Tracked? || s.loop.Counted? ==> s.loop.c !in s.handlers)
    && s.handlers.Keys <= s.started
  }

  predicate Closing(s: Server) {
    forall id :: id in s.closers ==>
      && s.lnClosed
      && (!s.closers[id].WaitLoop? ==> LoopShut(s))
      && (s.closers[id].WaitConns? || s.closers[id].Returned? ==> s.conns.None?)
      && (s.closers[id].Returned? ==> s.handlers == map[])
  }

  /** What is no longer tracked has been closed. */
  predicate Closed(s: Server) {
    && (s.conns.None? ==> Busy(s) <= s.closed)
    && forall c :: c in s.handlers && s.handlers[c].Untracked? ==> c in s.closed
  }

  predicate Inv(s: Server) {
    !s.panicked && Counts(s) && Exactness(s) && Tracking(s) && Closing(s) && Closed(s)
  }

  lemma LiveStep(m: map<ConnId, Handler>, c: ConnId, h: Handler)
    ensures Live(m[c := h]) == Live(m) + (if c in m then 0 else 1)
    ensures c in m ==> Live(m - {c}) == Live(m) - 1
  {
    assert m[c := h].Keys == m.Keys + {c};
    assert (m - {c}).Keys == m.Keys - {c};
  }

  lemma CountsLoop(s: Server)
    requires Inv(s) && Enabled(s, LoopStep)
    ensures !Next(s, LoopStep).panicked && Counts(Next(s, LoopStep))
  {
    hide Closing, Exactness, Live;
    if s.loop.Counted? {
      LiveStep(s.handlers, s.loop.c, Running);
    }
  }

  lemma CountsStep(s: Server, step: Step)
    requires Inv(s) && Enabled(s, step)
    ensures !Next(s, step).panicked && Next(s, step).maxConnNum == s.maxConnNum && Counts(Next(s, step))
  {
    hide Closing, Exactness, Tracking, Live;
    match step
    case LoopStep => CountsLoop(s);
    case AgentReturn(c) => LiveStep(s.handlers, c, Cleaning);
    case Untrack(c) => LiveStep(s.handlers, c, Untracked);
    case HandlerDone(c) =>
      LiveStep(s.handlers, c, Untracked);
      assert c in s.handlers.Keys;
    case _ =>
  }

  lemma TrackingStep(s: Server, step: Step)
    requires Inv(s) && Enabled(s, step)
    ensures Tracking(Next(s, step))
  {
    hide Counts, Exactness;
  }

  lemma SubsetSize(a: set<ConnId>, b: set<ConnId>)
    requires a <= b
    ensures |a| <= |b|
  {
    assert b == a + (b - a);
  }

  lemma BusyHandler(m: map<ConnId, Handler>, loop: Loop, c: ConnId)
    requires c in m && (loop.Tracked? || loop.Counted? ==> loop.c != c)
    ensures m[c].Running? ==> BusyIn(m[c := Cleaning], loop) == BusyIn(m, loop)
    ensures BusyIn(m[c := Untracked], loop) == BusyIn(m, loop) - {c}
    ensures m[c].Untracked? ==> BusyIn(m - {c}, loop) == BusyIn(m, loop)
  {
  }

  lemma BusyLoop(m: map<ConnId, Handler>, c: ConnId)
    ensures BusyIn(m, Tracked(c)) == BusyIn(m, GotConn(c)) + {c}
    ensures BusyIn(m, Counted(c)) == BusyIn(m, Tracked(c))
    ensures BusyIn(m[c := Running], Listening) == BusyIn(m, Counted(c))
    ensures BusyIn(m, Listening) == BusyIn(m, GotConn(c)) == BusyIn(m, NotStarted) == BusyIn(m, Exited)
  {
  }

  lemma ExactnessLoop(s: Server)
    requires Exactness(s) && Enabled(s, LoopStep)
    ensures Exactness(Next(s, LoopStep))
  {
    hide BusyIn;
    BusyLoop(s.handlers, s.loop.c);
  }

  lemma ExactnessHandler(s: Server, step: Step)
    requires Exactness(s) && Tracking(s) && Enabled(s, step)
    requires step.AgentReturn? || step.Untrack? || step.HandlerDone?
    ensures Exactness(Next(s, step))
  {
    hide BusyIn;
    BusyHandler(s.handlers, s.loop, step.c);
    SubsetSize(Busy(s) - {step.c}, Busy(s));
  }

  lemma ExactnessStep(s: Server, step: Step)
    requires Inv(s) && Enabled(s, step)
    ensures Exactness(Next(s, step))
  {
    hide Counts, Closing, Tracking, BusyIn;
    match step
    case Begin => BusyLoop(s.handlers, 0);
    case Accept(c) => BusyLoop(s.handlers, c);
    case AcceptFail => BusyLoop(s.handlers, 0);
    case LoopStep => ExactnessLoop(s);
    case AgentReturn(_) => ExactnessHandler(s, step);
    case Untrack(_) => ExactnessHandler(s, step);
    case HandlerDone(_) => ExactnessHandler(s, step);
    case _ =>
  }

  lemma ClosingStep(s: Server, step: Step)
    requires Inv(s) && Enabled(s, step)
    ensures Closing(Next(s, step))
  {
    hide Tracking, Exactness, Closed;
    if step.CloserStep? && s.closers[step.id].WaitConns? {
      assert s.handlers.Keys == {};
    }
    hide Live;
  }

  lemma ClosedLoop(s: Server)
    requires Closed(s) && Tracking(s) && Enabled(s, LoopStep) && !Next(s, LoopStep).panicked
    ensures Closed(Next(s, LoopStep))
  {
    hide BusyIn;
    BusyLoop(s.handlers, s.loop.c);
  }

  lemma ClosedHandler(s: Server, step: Step)
    requires Closed(s) && Tracking(s) && Enabled(s, step)
    requires step.AgentReturn? || step.Untrack? || step.HandlerDone?
    ensures Closed(Next(s, step))
  {
    hide BusyIn;
    BusyHandler(s.handlers, s.loop, step.c);
  }

  lemma ClosedStep(s: Server, step: Step)
    requires Inv(s) && Enabled(s, step) && !Next(s, step).panicked
    ensures Closed(Next(s, step))
  {
    hide Counts, Closing, Tracking, BusyIn;
    match step
    case Begin => BusyLoop(s.handlers, 0);
    case Accept(c) => BusyLoop(s.handlers, c);
    case AcceptFail => BusyLoop(s.handlers, 0);
    case LoopStep => ClosedLoop(s);
    case AgentReturn(_) => ClosedHandler(s, step);
    case Untrack(_) => ClosedHandler(s, step);
    case HandlerDone(_) => ClosedHandler(s, step);
    case _ =>
  }

  lemma InvStep(s: Server, step: Step)
    requires Inv(s) && Enabled(s, step)
    ensures Inv(Next(s, step)) && Next(s, step).maxConnNum == s.maxConnNum
  {
    CountsStep(s, step);
    TrackingStep(s, step);
    ClosingStep(s, step);
    ExactnessStep(s, step);
    ClosedStep(s, step);
    hide Exactness, Counts, Tracking, Closing, Closed, Next;
  }

  lemma {:induction false} RunInv(maxConnNum: nat, run: seq<Step>)
    ensures After(maxConnNum, run).Some? ==>
      Inv(After(maxConnNum, run).value) && After(maxConnNum, run).value.maxConnNum == maxConnNum
  {
    if run != [] {
      RunInv(maxConnNum, run[..|run| - 1]);
      hide Inv, Enabled, Next;
      if After(maxConnNum, run).Some? {
        InvStep(After(maxConnNum, run[..|run| - 1]).value, run[|run| - 1]);
      }
    }
  }

  // ---------------------------------------------------------------- what every run guarantees

  /**
   In every interleaving no more connections than the limit are busy, before and after `Close`, and the
   tracked set is exactly those; the nil set is never written, no wait group is driven below zero, and
   the retry delay stays between 5 ms and 1 s.
   */
  lemma Admission(maxConnNum: nat, run: seq<Step>)
    requires After(maxConnNum, run).Some?
    ensures var s := After(maxConnNum, run).value;
      && !s.panicked
      && |Busy(s)| <= maxConnNum && (s.conns.Some? ==> s.conns.value == Busy(s))
      && (s.tempDelay != 0 ==> 5 <= s.tempDelay <= 1000)
  {
    RunInv(maxConnNum, run);
  }

  // ---------------------------------------------------------------- what each operation does

  /** A new server tracks nothing, its listener is open and nothing runs. */
  lemma NewServer(maxConnNum: nat)
    ensures var s := After(maxConnNum, []).value;
      && After(maxConnNum, []).Some? && s.maxConnNum == maxConnNum && s.conns == Some({}) && !s.lnClosed
      && s.loop.NotStarted? && s.tempDelay == 0 && s.handlers == map[] && s.closers == map[]
      && s.started == {} && s.closed == {} && s.wgLn == 0 && s.wgConns == 0
  {
  }

  lemma Extend(maxConnNum: nat, run: seq<Step>, step: Step)
    requires After(maxConnNum, run).Some? && Enabled(After(maxConnNum, run).value, step)
    ensures After(maxConnNum, run + [step]) == Some(Next(After(maxConnNum, run).value, step))
  {
    assert (run + [step])[..|run|] == run;
  }

  /** Writing to the nil set and taking a wait group below zero are what panics. */
  lemma PanicMeans(s: Server, step: Step)
    requires Enabled(s, step) && !s.panicked
    ensures Next(s, step).panicked <==>
      || (step.LoopStep? && s.loop.GotConn? && s.conns.None? && s.maxConnNum > 0)
      || (step.AcceptFail? && s.wgLn < 1)
      || (step.HandlerDone? && s.wgConns < 1)
  {
  }

  /** The listener is open, the loop is waiting for it, and the connection is a new one. */
  predicate Ready(s: Server, c: ConnId) {
    && s.loop.Listening? && !s.lnClosed
    && c !in s.started && c !in s.handlers && (s.conns.Some? ==> c !in s.conns.value)
  }

  /** Below the limit a new connection is tracked, counted and given its goroutine, in this order. */
  lemma Admits(maxConnNum: nat, run: seq<Step>, c: ConnId)
    requires After(maxConnNum, run).Some? && Ready(After(maxConnNum, run).value, c)
    requires |Busy(After(maxConnNum, run).value)| < maxConnNum
    ensures var s := After(maxConnNum, run).value;
      && s.conns.Some?
      && After(maxConnNum, run + [Accept(c)] + [LoopStep] + [LoopStep] + [LoopStep]) ==
        Some(s.(tempDelay := 0, conns := Some(s.conns.value + {c}), wgConns := s.wgConns + 1,
                handlers := s.handlers[c := Running], started := s.started + {c}))
  {
    RunInv(maxConnNum, run);
    hide After, Counts, Closing, Closed, Busy;
    Extend(maxConnNum, run, Accept(c));
    Extend(maxConnNum, run + [Accept(c)], LoopStep);
    Extend(maxConnNum, run + [Accept(c)] + [LoopStep], LoopStep);
    Extend(maxConnNum, run + [Accept(c)] + [LoopStep] + [LoopStep], LoopStep);
  }

  /** At the limit it is closed, and nothing else changes. */
  lemma Refuses(maxConnNum: nat, run: seq<Step>, c: ConnId)
    requires After(maxConnNum, run).Some? && Ready(After(maxConnNum, run).value, c)
    requires |Busy(After(maxConnNum, run).value)| >= maxConnNum
    ensures var s := After(maxConnNum, run).value;
      After(maxConnNum, run + [Accept(c)] + [LoopStep]) == Some(s.(tempDelay := 0, closed := s.closed + {c}))
  {
    RunInv(maxConnNum, run);
    hide After, Counts, Closing, Closed, Busy;
    Extend(maxConnNum, run, Accept(c));
    Extend(maxConnNum, run + [Accept(c)], LoopStep);
  }

  /** When its agent returns, a connection is closed, leaves the set and is no longer waited for. */
  lemma Departs(maxConnNum: nat, run: seq<Step>, c: ConnId)
    requires After(maxConnNum, run).Some?
    requires var s := After(maxConnNum, run).value; c in s.handlers && s.handlers[c].Running?
    ensures var s := After(maxConnNum, run).value;
      After(maxConnNum, run + [AgentReturn(c)] + [Untrack(c)] + [HandlerDone(c)]) ==
        Some(s.(handlers := s.handlers - {c}, closed := s.closed + {c}, wgConns := s.wgConns - 1,
                conns := if s.conns.Some? then Some(s.conns.value - {c}) else None))
  {
    RunInv(maxConnNum, run);
    hide After, Exactness, Closing, Closed;
    var s := After(maxConnNum, run).value;
    LiveStep(s.handlers, c, Cleaning);
    Extend(maxConnNum, run, AgentReturn(c));
    Extend(maxConnNum, run + [AgentReturn(c)], Untrack(c));
    Extend(maxConnNum, run + [AgentReturn(c)] + [Untrack(c)], HandlerDone(c));
    assert s.handlers[c := Cleaning][c := Untracked] - {c} == s.handlers - {c};
  }

  /** After a temporary failure the loop waits 5 ms, then twice as long each time, up to a second. */
  lemma Retries(maxConnNum: nat, run: seq<Step>)
    requires After(maxConnNum, run).Some?
    requires var s := After(maxConnNum, run).value; s.loop.Listening? && !s.lnClosed
    ensures var s := After(maxConnNum, run).value;
      After(maxConnNum, run + [AcceptRetry]) ==
        Some(s.(tempDelay := if s.tempDelay == 0 then 5 else if s.tempDelay >= 500 then 1000 else 2 * s.tempDelay))
  {
    RunInv(maxConnNum, run);
    hide After, Exactness, Closing, Closed;
    Extend(maxConnNum, run, AcceptRetry);
  }

  /** On a closed listener the loop can only end, and the first call of `run` only begin it. */
  lemma LoopEnds(maxConnNum: nat, run: seq<Step>)
    requires After(maxConnNum, run).Some?
    ensures var s := After(maxConnNum, run).value;
      && (s.loop.Listening? ==> After(maxConnNum, run + [AcceptFail]) == Some(s.(loop := Exited, wgLn := 0)))
      && (s.loop.NotStarted? ==> After(maxConnNum, run + [Begin]) == Some(s.(loop := Listening, wgLn := 1)))
      && (s.lnClosed ==> !Enabled(s, AcceptRetry) && forall c :: !Enabled(s, Accept(c)))
      && (!s.loop.Listening? ==>
          !Enabled(s, AcceptRetry) && !Enabled(s, AcceptFail) && forall c :: !Enabled(s, Accept(c)))
  {
    RunInv(maxConnNum, run);
    hide After, Exactness, Closing, Closed;
    var s := After(maxConnNum, run).value;
    if s.loop.Listening? {
      Extend(maxConnNum, run, AcceptFail);
    } else if s.loop.NotStarted? {
      Extend(maxConnNum, run, Begin);
    }
  }

  /**
   `Close` closes the listener; then it waits until the loop has ended, closes every connection still tracked and
   drops the set; then it waits until no connection goroutine is left.
   */
  lemma CloseStages(maxConnNum: nat, run: seq<Step>, id: nat)
    requires After(maxConnNum, run).Some?
    ensures var s := After(maxConnNum, run).value;
      && (id !in s.closers ==>
          After(maxConnNum, run + [CallClose(id)]) == Some(s.(lnClosed := true, closers := s.closers[id := WaitLoop])))
      && (id in s.closers ==> match s.closers[id]
          case WaitLoop => Enabled(s, CloserStep(id)) <==> s.loop.NotStarted? || s.loop.Exited?
          case DropConns =>
            After(maxConnNum, run + [CloserStep(id)]) ==
              Some(s.(conns := None, closers := s.closers[id := WaitConns],
                      closed := if s.conns.Some? then s.closed + s.conns.value else s.closed))
          case WaitConns => Enabled(s, CloserStep(id)) <==> s.handlers == map[]
          case Returned => !Enabled(s, CloserStep(id)))
  {
    RunInv(maxConnNum, run);
    hide After, Exactness, Closed;
    var s := After(maxConnNum, run).value;
    if id !in s.closers {
      Extend(maxConnNum, run, CallClose(id));
    } else if s.closers[id].DropConns? {
      Extend(maxConnNum, run, CloserStep(id));
    }
    assert |s.handlers.Keys| == 0 <==> s.handlers == map[];
  }

  /** The stages follow one another. */
  lemma NextStage(maxConnNum: nat, run: seq<Step>, id: nat)
    requires After(maxConnNum, run).Some? && Enabled(After(maxConnNum, run).value, CloserStep(id))
    ensures var s := After(maxConnNum, run).value;
      && id in s.closers && After(maxConnNum, run + [CloserStep(id)]).Some?
      && var t := After(maxConnNum, run + [CloserStep(id)]).value;
      && id in t.closers
      && (s.closers[id].WaitLoop? ==> t.closers[id].DropConns?)
      && (s.closers[id].DropConns? ==> t.closers[id].WaitConns?)
      && (s.closers[id].WaitConns? ==> t.closers[id].Returned?)
  {
    hide After;
    Extend(maxConnNum, run, CloserStep(id));
  }

  /** Once the set is dropped, every connection still busy has been closed by the server. */
  lemma NoneLeftOpen(maxConnNum: nat, run: seq<Step>)
    requires After(maxConnNum, run).Some? && After(maxConnNum, run).value.conns.None?
    ensures var s := After(maxConnNum, run).value; forall c :: c in s.handlers ==> c in s.closed
  {
    RunInv(maxConnNum, run);
    hide After, Counts, Tracking, Closing, Exactness;
  }

  lemma ShutStays(s: Server, step: Step, id: nat)
    requires Inv(s) && Enabled(s, step) && id in s.closers && s.closers[id].Returned?
    ensures var t := Next(s, step); id in t.closers && t.closers[id].Returned? && t.started == s.started
  {
  }

  lemma ReturnedShut(s: Server, id: nat)
    requires Inv(s) && id in s.closers && s.closers[id].Returned?
    ensures s.handlers == map[] && s.conns == None
  {
  }

  /** Once a `Close` has returned no agent is running, and in no continuation does one ever start. */
  lemma {:induction false} Shutdown(maxConnNum: nat, run: seq<Step>, more: seq<Step>, id: nat)
    requires After(maxConnNum, run).Some? && After(maxConnNum, run + more).Some?
    requires var s := After(maxConnNum, run).value; id in s.closers && s.closers[id].Returned?
    ensures var s, t := After(maxConnNum, run).value, After(maxConnNum, run + more).value;
      && id in t.closers && t.closers[id].Returned?
      && t.handlers == map[] && t.conns == None && t.started == s.started
    decreases |more|
  {
    hide Inv, Next, Enabled;
    RunInv(maxConnNum, run + more);
    if more == [] {
      assert run + more == run;
    } else {
      var init, last := more[..|more| - 1], more[|more| - 1];
      assert (run + more)[..|run + more| - 1] == run + init && (run + more)[|run + more| - 1] == last;
      Shutdown(maxConnNum, run, init, id);
      RunInv(maxConnNum, run + init);
      ShutStays(After(maxConnNum, run + init).value, last, id);
    }
    ReturnedShut(After(maxConnNum, run + more).value, id);
  }
}
