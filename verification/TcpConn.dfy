/**
 A connection's write queue as interleaved atomic steps: callers of `Write`, `Close` and `Destroy`
 under the mutex, and the goroutine that drains the channel into the socket.
 */
module TcpConn {
  import opened Common
  import opened MsgFraming

  /** A channel element; `Sentinel` is the nil slice that asks for a graceful close. */
  datatype Item = Data(bytes: seq<byte>) | Sentinel

  datatype Request = DoWrite(b: Item) | DoClose | DoDestroy

  /** Where the holder of the mutex is; `closing` remembers that `doWrite` was called by `Close`. */
  datatype Holder =
    | Free
    | WriteCheck(b: Item)
    | CloseCheck
    | FullCheck(b: Item, closing: bool)
    | Send(b: Item, closing: bool)
    | CloseSocket(closing: bool)
    | CloseChannel(closing: bool)
    | DestroyFlag(closing: bool)
    | CloseFlag
    | Unlock
    | DrainHolds

  datatype Reason = BySentinel | ByClosedChannel | ByError

  /** Where the drain goroutine is. */
  datatype Drain =
    | Receiving
    | Writing(b: seq<byte>, k: nat)
    | ClosingSocket(why: Reason)
    | WantsLock(why: Reason)
    | Finishing(why: Reason)
    | Finished(why: Reason)

  /**
   The connection. `accepted` and `written` are histories: the messages that entered the channel
   and those handed to the socket completely; `wire` is every byte the socket took.
   */
  datatype Conn = Conn(
    cap: nat, queue: seq<Item>, queueClosed: bool, closeFlag: bool, lock: Holder, drain: Drain,
    socketClosed: bool, wire: seq<byte>, panicked: bool,
    accepted: seq<seq<byte>>, written: seq<seq<byte>>, sentinelSent: bool)

  function Init(cap: nat): Conn {
    Conn(cap, [], false, false, Free, Receiving, false, [], false, [], [], false)
  }

  datatype Step =
    | Acquire(req: Request)
    | HolderStep
    | Receive
    | WriteSome(n: nat)
    | WriteDone
    | WriteFail
    | DrainStep

  predicate Enabled(s: Conn, step: Step) {
    && !s.panicked
    && match step
       case Acquire(_) => s.lock.Free?
       case HolderStep =>
         !s.lock.Free? && !s.lock.DrainHolds? && (s.lock.Send? ==> s.queueClosed || |s.queue| < s.cap)
       case Receive => s.drain.Receiving? && (s.queue != [] || s.queueClosed)
       case WriteSome(n) => s.drain.Writing? && s.drain.k + n <= |s.drain.b|
       case WriteDone => s.drain.Writing? && s.drain.k == |s.drain.b|
       case WriteFail => s.drain.Writing?
       case DrainStep =>
         s.drain.ClosingSocket? || (s.drain.WantsLock? && s.lock.Free?) || s.drain.Finishing?
  }

  /** What follows `doWrite` or `doDestroy`. */
  function Return(closing: bool): Holder {
    if closing then CloseFlag else Unlock
  }

  function Hold(s: Conn): Conn
    requires Enabled(s, HolderStep)
  {
    match s.lock
    case WriteCheck(b) => s.(lock := if s.closeFlag || b.Sentinel? then Unlock else FullCheck(b, false))
    case CloseCheck => s.(lock := if s.closeFlag then Unlock else FullCheck(Sentinel, true))
    case FullCheck(b, c) => s.(lock := if |s.queue| == s.cap then CloseSocket(c) else Send(b, c))
    case Send(b, c) =>
      if s.queueClosed then s.(panicked := true)
      else s.(queue := s.queue + [b], lock := Return(c),
              accepted := if b.Data? then s.accepted + [b.bytes] else s.accepted,
              sentinelSent := s.sentinelSent || b.Sentinel?)
    case CloseSocket(c) => s.(socketClosed := true, lock := CloseChannel(c))
    case CloseChannel(c) =>
      if s.closeFlag then s.(lock := Return(c))
      else if s.queueClosed then s.(panicked := true)
      else s.(queueClosed := true, lock := DestroyFlag(c))
    case DestroyFlag(c) => s.(closeFlag := true, lock := Return(c))
    case CloseFlag => s.(closeFlag := true, lock := Unlock)
    case Unlock => s.(lock := Free)
  }

  function Next(s: Conn, step: Step): Conn
    requires Enabled(s, step)
  {
    match step
    case Acquire(req) =>
      s.(lock := match req
         case DoWrite(b) => WriteCheck(b)
         case DoClose => CloseCheck
         case DoDestroy => CloseSocket(false))
    case HolderStep => Hold(s)
    case Receive =>
      if s.queue == [] then s.(drain := ClosingSocket(ByClosedChannel))
      else s.(queue := s.queue[1..],
              drain := match s.queue[0] case Sentinel => ClosingSocket(BySentinel) case Data(b) => Writing(b, 0))
    case WriteSome(n) =>
      var Writing(b, k) := s.drain;
      s.(wire := s.wire + b[k..k + n], drain := Writing(b, k + n))
    case WriteDone => s.(written := s.written + [s.drain.b], drain := Receiving)
    case WriteFail => s.(drain := ClosingSocket(ByError))
    case DrainStep =>
      match s.drain
      case ClosingSocket(why) => s.(socketClosed := true, drain := WantsLock(why))
      case WantsLock(why) => s.(lock := DrainHolds, drain := Finishing(why))
      case Finishing(why) => s.(closeFlag := true, lock := Free, drain := Finished(why))
  }

  /** The state after a run, if every step of it was possible. */
  function After(cap: nat, run: seq<Step>): Option<Conn> {
    if run == [] then Some(Init(cap))
    else
      var last := run[|run| - 1];
      match After(cap, run[..|run| - 1])
      case None => None
      case Some(s) => if Enabled(s, last) then Some(Next(s, last)) else None
  }

  // ---------------------------------------------------------------- the invariant

  /** Who may be where: the close flag shuts out senders, and a closed channel comes with the flag. */
  predicate FlagInv(s: Conn) {
    && !s.panicked
    && (s.queueClosed ==> s.closeFlag || s.lock.DestroyFlag?)
    && (s.sentinelSent ==> s.closeFlag || s.lock.CloseFlag?)
    && (s.lock.FullCheck? || s.lock.Send? ==> !s.closeFlag)
    && (s.lock.DestroyFlag? ==> !s.closeFlag && s.queueClosed)
    && (s.lock.Send? ==> |s.queue| < s.cap)
    && (s.lock.DrainHolds? <==> s.drain.Finishing?)
    && |s.queue| <= s.cap
  }

  /** The sentinel comes only from `Close` and ends the queue. */
  predicate SentinelInv(s: Conn) {
    && (s.lock.FullCheck? ==> (s.lock.closing <==> s.lock.b.Sentinel?))
    && (s.lock.Send? ==> (s.lock.closing <==> s.lock.b.Sentinel?))
    && (!s.sentinelSent ==> Sentinel !in s.queue && !ExitedBy(s.drain, BySentinel))
    && (forall i :: 0 <= i < |s.queue| && s.queue[i].Sentinel? ==> i == |s.queue| - 1)
    && (ExitedBy(s.drain, BySentinel) ==> s.sentinelSent && s.queue == [])
    && (ExitedBy(s.drain, ByClosedChannel) ==> s.queueClosed && s.queue == [])
  }

  predicate ExitedBy(d: Drain, why: Reason) {
    (d.ClosingSocket? || d.WantsLock? || d.Finishing? || d.Finished?) && d.why == why
  }

  function Payloads(queue: seq<Item>): seq<seq<byte>> {
    if queue == [] then []
    else Payloads(queue[..|queue| - 1]) + match queue[|queue| - 1] case Data(b) => [b] case Sentinel => []
  }

  /** Every accepted message is written, being written or queued, in order; the wire carries them so far. */
  ghost predicate FlowInv(s: Conn) {
    match s.drain
    case Receiving => s.accepted == s.written + Payloads(s.queue) && s.wire == Concat(s.written)
    case Writing(b, k) =>
      && s.accepted == s.written + [b] + Payloads(s.queue)
      && k <= |b| && s.wire == Concat(s.written) + b[..k]
    case _ =>
      if ExitedBy(s.drain, ByError) then s.wire <= Concat(s.accepted)
      else s.accepted == s.written && s.wire == Concat(s.written)
  }

  ghost predicate Inv(s: Conn) {
    FlagInv(s) && SentinelInv(s) && FlowInv(s)
  }

  lemma FlagStep(s: Conn, step: Step)
    requires FlagInv(s) && SentinelInv(s) && Enabled(s, step)
    ensures FlagInv(Next(s, step))
  {
    if step.HolderStep? {
      FlagHold(s);
    }
  }

  lemma FlagHold(s: Conn)
    requires FlagInv(s) && SentinelInv(s) && Enabled(s, HolderStep)
    ensures FlagInv(Hold(s))
  {
  }

  lemma SentinelSend(s: Conn)
    requires FlagInv(s) && SentinelInv(s) && s.lock.Send?
    ensures SentinelInv(Hold(s))
  {
    assert !s.sentinelSent && !s.queueClosed;
  }

  lemma SentinelStep(s: Conn, step: Step)
    requires FlagInv(s) && SentinelInv(s) && Enabled(s, step)
    ensures SentinelInv(Next(s, step))
  {
    hide FlagInv, SentinelInv;
    if step.HolderStep? {
      SentinelHold(s);
    } else {
      SentinelRest(s, step);
    }
  }

  lemma SentinelRest(s: Conn, step: Step)
    requires FlagInv(s) && SentinelInv(s) && Enabled(s, step) && !step.HolderStep?
    ensures SentinelInv(Next(s, step))
  {
  }

  lemma SentinelHold(s: Conn)
    requires FlagInv(s) && SentinelInv(s) && Enabled(s, HolderStep)
    ensures SentinelInv(Hold(s))
  {
    if s.lock.Send? {
      SentinelSend(s);
      hide SentinelInv;
    }
  }

  lemma {:induction false} PayloadsHead(queue: seq<Item>)
    requires queue != [] && queue[0].Data?
    ensures Payloads(queue) == [queue[0].bytes] + Payloads(queue[1..])
  {
    var n := |queue| - 1;
    if n > 0 {
      PayloadsHead(queue[..n]);
      assert queue[..n][1..] == queue[1..][..n - 1];
    }
  }

  lemma FlowReceive(s: Conn)
    requires Inv(s) && Enabled(s, Receive)
    ensures FlowInv(Next(s, Receive))
  {
    if s.queue != [] && s.queue[0].Data? {
      PayloadsHead(s.queue);
      var first, rest := [s.queue[0].bytes], Payloads(s.queue[1..]);
      assert s.written + (first + rest) == s.written + first + rest;
    }
  }

  lemma FlowWriteSome(s: Conn, n: nat)
    requires Inv(s) && Enabled(s, WriteSome(n))
    ensures FlowInv(Next(s, WriteSome(n)))
  {
    hide Payloads, Concat;
    var Writing(b, k) := s.drain;
    GrowPiece(Concat(s.written), b, k, n);
  }

  lemma GrowPiece(a: seq<byte>, b: seq<byte>, k: nat, n: nat)
    requires k + n <= |b|
    ensures a + b[..k] + b[k..k + n] == a + b[..k + n]
  {
  }

  lemma FlowWriteDone(s: Conn)
    requires Inv(s) && Enabled(s, WriteDone)
    ensures FlowInv(Next(s, WriteDone))
  {
    hide Payloads, Concat;
    var Writing(b, k) := s.drain;
    assert b[..k] == b;
    ConcatSnoc(s.written, b);
  }

  lemma FlowWriteFail(s: Conn)
    requires Inv(s) && Enabled(s, WriteFail)
    ensures FlowInv(Next(s, WriteFail))
  {
    WireIsPrefix(s);
    hide Payloads, Concat;
  }

  /** What the socket took is always an initial part of what was accepted. */
  lemma WireIsPrefix(s: Conn)
    requires FlowInv(s)
    ensures s.wire <= Concat(s.accepted)
  {
    hide Payloads, Concat;
    match s.drain
    case Receiving =>
      ConcatAppend(s.written, Payloads(s.queue));
    case Writing(b, k) =>
      ConcatAppend(s.written + [b], Payloads(s.queue));
      ConcatSnoc(s.written, b);
      PrefixOfPiece(Concat(s.written), b, k, Concat(Payloads(s.queue)));
    case _ =>
  }

  lemma PrefixOfPiece(a: seq<byte>, b: seq<byte>, k: nat, c: seq<byte>)
    requires k <= |b|
    ensures a + b[..k] <= a + b + c
  {
  }

  lemma PayloadsTail(queue: seq<Item>, item: Item)
    ensures Payloads(queue + [item]) == Payloads(queue) + match item case Data(b) => [b] case Sentinel => []
  {
    assert (queue + [item])[..|queue|] == queue;
  }

  lemma FlowSend(s: Conn)
    requires Inv(s) && s.lock.Send?
    ensures FlowInv(Hold(s))
  {
    hide Payloads, Concat;
    PayloadsTail(s.queue, s.lock.b);
    assert !s.sentinelSent && !s.queueClosed;
    if s.lock.b.Data? {
      ConcatSnoc(s.accepted, s.lock.b.bytes);
      Reassociate(s.written, Payloads(s.queue), s.lock.b.bytes);
    }
  }

  lemma Reassociate(a: seq<seq<byte>>, b: seq<seq<byte>>, x: seq<byte>)
    ensures a + b + [x] == a + (b + [x])
    ensures forall y :: a + [y] + b + [x] == a + [y] + (b + [x])
  {
  }

  lemma FlowHold(s: Conn)
    requires Inv(s) && Enabled(s, HolderStep)
    ensures FlowInv(Next(s, HolderStep))
  {
    if s.lock.Send? {
      FlowSend(s);
    } else {
      hide Payloads, Concat;
    }
  }

  lemma InvStep(s: Conn, step: Step)
    requires Inv(s) && Enabled(s, step)
    ensures Inv(Next(s, step))
  {
    FlagStep(s, step);
    SentinelStep(s, step);
    match step
    case HolderStep => FlowHold(s);
    case Receive => FlowReceive(s);
    case WriteSome(n) => FlowWriteSome(s, n);
    case WriteDone => FlowWriteDone(s);
    case WriteFail => FlowWriteFail(s);
    case Acquire(_) =>
    case DrainStep =>
  }

  /** Every state of every interleaving satisfies the invariant. */
  lemma {:induction false} RunInv(cap: nat, run: seq<Step>)
    ensures After(cap, run).Some? ==> Inv(After(cap, run).value)
  {
    if run != [] {
      RunInv(cap, run[..|run| - 1]);
      hide Inv, Enabled, Next;
      if After(cap, run).Some? {
        InvStep(After(cap, run[..|run| - 1]).value, run[|run| - 1]);
      }
    }
  }

  // ---------------------------------------------------------------- what every run guarantees

  /** How many of its own steps the mutex holder still has to take. */
  function HolderRank(h: Holder): nat {
    match h
    case Free => 0 case DrainHolds => 0
    case Unlock => 1
    case CloseFlag => 2
    case DestroyFlag(_) => 3
    case CloseChannel(_) => 4
    case CloseSocket(_) => 5
    case Send(_, _) => 5
    case FullCheck(_, _) => 6
    case WriteCheck(_) => 7 case CloseCheck => 7
  }

  /**
   The mutex is never held up: in every reachable state its holder can take a step, whatever became
   of the drain goroutine, nobody else moves it, and each step brings the release closer.
   */
  lemma HolderNeverBlocks(cap: nat, run: seq<Step>, step: Step)
    requires After(cap, run).Some?
    ensures var s := After(cap, run).value;
      && (!s.lock.Free? ==> Enabled(s, if s.lock.DrainHolds? then DrainStep else HolderStep))
      && (Enabled(s, HolderStep) ==> HolderRank(Next(s, HolderStep).lock) < HolderRank(s.lock))
      && (!s.lock.Free? && Enabled(s, step) && !step.HolderStep? && !step.DrainStep? ==> Next(s, step).lock == s.lock)
  {
    RunInv(cap, run);
    hide FlowInv, SentinelInv, After;
  }

  /** No run panics: the channel is closed at most once and nothing is sent to it afterwards. */
  lemma NoPanic(cap: nat, run: seq<Step>)
    requires After(cap, run).Some?
    ensures var s := After(cap, run).value;
      && !s.panicked && |s.queue| <= s.cap
      && (s.queueClosed && s.lock.Free? ==> s.closeFlag)
  {
    RunInv(cap, run);
  }

  lemma StaysShut(s: Conn, step: Step)
    requires Inv(s) && Enabled(s, step) && (s.closeFlag || s.queueClosed || s.sentinelSent)
    ensures var t := Next(s, step);
      t.accepted == s.accepted && (t.closeFlag || t.queueClosed || t.sentinelSent)
  {
    hide FlowInv;
  }

  lemma RunSplit(run: seq<Step>, more: seq<Step>)
    requires more != []
    ensures (run + more)[..|run + more| - 1] == run + more[..|more| - 1]
    ensures (run + more)[|run + more| - 1] == more[|more| - 1]
  {
  }

  /** Once the connection is closed, destroyed or asked to close, no run accepts another message. */
  lemma {:induction false} NothingAfterClose(cap: nat, run: seq<Step>, more: seq<Step>)
    requires After(cap, run).Some? && After(cap, run + more).Some?
    requires var s := After(cap, run).value; s.closeFlag || s.queueClosed || s.sentinelSent
    ensures var s, t := After(cap, run).value, After(cap, run + more).value;
      t.accepted == s.accepted && (t.closeFlag || t.queueClosed || t.sentinelSent)
    decreases |more|
  {
    if more == [] {
      assert run + more == run;
    } else {
      RunSplit(run, more);
      var init := more[..|more| - 1];
      NothingAfterClose(cap, run, init);
      RunInv(cap, run + init);
      hide Inv, Enabled, Next;
      StaysShut(After(cap, run + init).value, more[|more| - 1]);
    }
  }

  /** Graceful close loses nothing: a drain that ends at the sentinel has written every accepted message. */
  lemma GracefulClose(cap: nat, run: seq<Step>)
    requires After(cap, run).Some? && ExitedBy(After(cap, run).value.drain, BySentinel)
    ensures var s := After(cap, run).value;
      s.sentinelSent && s.queue == [] && s.written == s.accepted && s.wire == Concat(s.accepted)
  {
    RunInv(cap, run);
  }

  // ---------------------------------------------------------------- what each operation does

  /** A new connection is open in every respect, with nothing in its channel and nobody holding the mutex. */
  lemma NewConnection(cap: nat)
    ensures var s := After(cap, []).value;
      && After(cap, []).Some? && s.cap == cap && s.queue == [] && s.accepted == [] && s.written == [] && s.wire == []
      && !s.queueClosed && !s.closeFlag && !s.socketClosed && !s.sentinelSent && s.lock.Free? && s.drain.Receiving?
  {
  }

  /** The mutex can be taken whenever it is free, and the socket may take any part of a write or fail. */
  lemma StepsPossible(cap: nat, run: seq<Step>)
    requires After(cap, run).Some?
    ensures var s := After(cap, run).value;
      && (s.lock.Free? ==> forall req :: Enabled(s, Acquire(req)))
      && (s.drain.Receiving? ==> (Enabled(s, Receive) <==> s.queue != [] || s.queueClosed))
      && (s.drain.Writing? ==> Enabled(s, WriteFail) && (Enabled(s, WriteDone) <==> s.drain.k == |s.drain.b|))
      && (s.drain.Writing? ==> forall n :: Enabled(s, WriteSome(n)) <==> s.drain.k + n <= |s.drain.b|)
      && (s.drain.ClosingSocket? || s.drain.Finishing? ==> Enabled(s, DrainStep))
      && (s.drain.WantsLock? ==> (Enabled(s, DrainStep) <==> s.lock.Free?))
  {
    RunInv(cap, run);
    hide After, SentinelInv, FlowInv;
  }

  /** Nothing of what a caller decides on has changed since `s`; the drain may have taken from the queue. */
  predicate Undecided(s: Conn, t: Conn) {
    && t.accepted == s.accepted && t.sentinelSent == s.sentinelSent
    && t.closeFlag == s.closeFlag && t.queueClosed == s.queueClosed
    && |t.queue| <= |s.queue|
  }

  /** The channel was full at the time of the call, and the connection is destroyed. */
  predicate Overflowed(s: Conn, t: Conn) {
    && !s.closeFlag && |s.queue| == s.cap && t.accepted == s.accepted
    && t.closeFlag && t.queueClosed && t.socketClosed
  }

  predicate WriteDecided(s: Conn, b: Item, t: Conn) {
    || ((s.closeFlag || b.Sentinel?) && Undecided(s, t))
    || (!s.closeFlag && b.Data? && t.accepted == s.accepted + [b.bytes] && !t.closeFlag
        && t.queueClosed == s.queueClosed && t.sentinelSent == s.sentinelSent)
    || (b.Data? && Overflowed(s, t))
  }

  predicate CloseDecided(s: Conn, t: Conn) {
    || (s.closeFlag && Undecided(s, t))
    || (!s.closeFlag && t.closeFlag && t.sentinelSent && t.accepted == s.accepted && t.queueClosed == s.queueClosed)
    || Overflowed(s, t)
  }

  predicate DestroyDecided(s: Conn, t: Conn) {
    t.closeFlag && t.socketClosed && t.accepted == s.accepted && t.queueClosed == (s.queueClosed || !s.closeFlag)
  }

  /** On the way to destroying the connection, which was full at the time of the call if it is not asked for. */
  predicate Destroying(s: Conn, asked: bool, t: Conn) {
    && (asked || (!s.closeFlag && |s.queue| == s.cap))
    && match t.lock
       case CloseSocket(_) => Undecided(s, t)
       case CloseChannel(_) => Undecided(s, t) && t.socketClosed
       case DestroyFlag(_) => !s.closeFlag && t.queueClosed && t.socketClosed && t.accepted == s.accepted
       case _ => false
  }

  predicate DuringWrite(s: Conn, b: Item, t: Conn) {
    match t.lock
    case WriteCheck(c) => c == b && Undecided(s, t)
    case FullCheck(c, closing) => c == b && b.Data? && !closing && !s.closeFlag && Undecided(s, t)
    case Send(c, closing) => c == b && b.Data? && !closing && !s.closeFlag && Undecided(s, t)
    case CloseSocket(closing) => b.Data? && !closing && Destroying(s, false, t)
    case CloseChannel(closing) => b.Data? && !closing && Destroying(s, false, t)
    case DestroyFlag(closing) => b.Data? && !closing && Destroying(s, false, t)
    case Unlock => WriteDecided(s, b, t)
    case Free => WriteDecided(s, b, t)
    case _ => false
  }

  predicate DuringClose(s: Conn, t: Conn) {
    match t.lock
    case CloseCheck => Undecided(s, t)
    case FullCheck(c, closing) => c.Sentinel? && closing && !s.closeFlag && Undecided(s, t)
    case Send(c, closing) => c.Sentinel? && closing && !s.closeFlag && Undecided(s, t)
    case CloseSocket(closing) => closing && Destroying(s, false, t)
    case CloseChannel(closing) => closing && Destroying(s, false, t)
    case DestroyFlag(closing) => closing && Destroying(s, false, t)
    case CloseFlag => CloseDecided(s, t.(closeFlag := true))
    case Unlock => CloseDecided(s, t)
    case Free => CloseDecided(s, t)
    case _ => false
  }

  predicate DuringDestroy(s: Conn, t: Conn) {
    match t.lock
    case CloseSocket(closing) => !closing && Destroying(s, true, t)
    case CloseChannel(closing) => !closing && Destroying(s, true, t)
    case DestroyFlag(closing) => !closing && Destroying(s, true, t)
    case Unlock => DestroyDecided(s, t)
    case Free => DestroyDecided(s, t)
    case _ => false
  }

  /** What holds while a call made in state `s` is under way. */
  predicate During(s: Conn, req: Request, t: Conn) {
    && t.cap == s.cap
    && match req
       case DoWrite(b) => DuringWrite(s, b, t)
       case DoClose => DuringClose(s, t)
       case DoDestroy => DuringDestroy(s, t)
  }

  lemma WriteHolds(s: Conn, b: Item, t: Conn)
    requires FlagInv(s) && FlagInv(t) && t.cap == s.cap && DuringWrite(s, b, t) && Enabled(t, HolderStep)
    ensures DuringWrite(s, b, Hold(t))
  {
  }

  lemma CloseHolds(s: Conn, t: Conn)
    requires FlagInv(s) && FlagInv(t) && t.cap == s.cap && DuringClose(s, t) && Enabled(t, HolderStep)
    ensures DuringClose(s, Hold(t))
  {
  }

  lemma DestroyHolds(s: Conn, t: Conn)
    requires FlagInv(s) && FlagInv(t) && DuringDestroy(s, t) && Enabled(t, HolderStep)
    ensures DuringDestroy(s, Hold(t))
  {
  }

  /** While the caller has the mutex, the drain changes nothing that the caller decides on. */
  lemma DrainAside(s: Conn, req: Request, t: Conn, step: Step)
    requires FlagInv(t) && During(s, req, t) && !t.lock.Free? && Enabled(t, step) && !step.HolderStep?
    ensures During(s, req, Next(t, step))
  {
    var u := Next(t, step);
    OnlyDrain(t, step);
    hide Next, Enabled, FlagInv;
  }

  lemma OnlyDrain(t: Conn, step: Step)
    requires FlagInv(t) && !t.lock.Free? && !t.lock.DrainHolds? && Enabled(t, step) && !step.HolderStep?
    ensures var u := Next(t, step);
      && u.cap == t.cap && u.lock == t.lock && u.accepted == t.accepted && u.sentinelSent == t.sentinelSent
      && u.closeFlag == t.closeFlag && u.queueClosed == t.queueClosed && |u.queue| <= |t.queue|
      && (t.socketClosed ==> u.socketClosed)
  {
  }

  lemma DuringStep(s: Conn, req: Request, t: Conn, step: Step)
    requires FlagInv(s) && FlagInv(t) && During(s, req, t) && !t.lock.Free? && Enabled(t, step)
    ensures During(s, req, Next(t, step))
  {
    hide FlagInv, DuringWrite, DuringClose, DuringDestroy, Enabled;
    if step.HolderStep? {
      HoldKeepsCap(t);
      match req
      case DoWrite(b) => WriteHolds(s, b, t);
      case DoClose => CloseHolds(s, t);
      case DoDestroy => DestroyHolds(s, t);
    } else {
      DrainAside(s, req, t, step);
    }
  }

  lemma HoldKeepsCap(t: Conn)
    requires Enabled(t, HolderStep)
    ensures Hold(t).cap == t.cap
  {
  }

  /** The call made after `run` is under way in all of `mid`, and over at its end. */
  ghost predicate Returned(cap: nat, run: seq<Step>, req: Request, mid: seq<Step>) {
    && After(cap, run).Some? && After(cap, run).value.lock.Free?
    && After(cap, run + [Acquire(req)] + mid).Some? && After(cap, run + [Acquire(req)] + mid).value.lock.Free?
    && UnderWay(cap, run + [Acquire(req)], mid)
  }

  ghost predicate UnderWay(cap: nat, begun: seq<Step>, mid: seq<Step>) {
    forall i :: 0 <= i < |mid| ==> After(cap, begun + mid[..i]).Some? && !After(cap, begun + mid[..i]).value.lock.Free?
  }

  lemma {:induction false} CallInv(cap: nat, run: seq<Step>, req: Request, mid: seq<Step>)
    requires After(cap, run).Some? && After(cap, run).value.lock.Free?
    requires After(cap, run + [Acquire(req)] + mid).Some? && UnderWay(cap, run + [Acquire(req)], mid)
    ensures During(After(cap, run).value, req, After(cap, run + [Acquire(req)] + mid).value)
    decreases |mid|
  {
    hide After, Enabled, Next, During, Inv, UnderWay;
    var s, begun := After(cap, run).value, run + [Acquire(req)];
    if mid == [] {
      assert begun + mid == begun && begun[..|begun| - 1] == run;
      LastStep(cap, begun);
      CallBegins(s, req);
    } else {
      var init, last := mid[..|mid| - 1], mid[|mid| - 1];
      RunSplit(begun, mid);
      LastStep(cap, begun + mid);
      UnderWayInit(cap, begun, mid);
      CallInv(cap, run, req, init);
      RunInv(cap, run);
      RunInv(cap, begun + init);
      InvFlags(s);
      InvFlags(After(cap, begun + init).value);
      DuringStep(s, req, After(cap, begun + init).value, last);
    }
  }

  lemma StepKeepsCap(s: Conn, step: Step)
    requires Enabled(s, step)
    ensures Next(s, step).cap == s.cap
  {
  }

  lemma LastStep(cap: nat, run: seq<Step>)
    requires run != [] && After(cap, run).Some?
    ensures var init, last := run[..|run| - 1], run[|run| - 1];
      && After(cap, init).Some? && Enabled(After(cap, init).value, last)
      && After(cap, run).value == Next(After(cap, init).value, last)
  {
  }

  lemma UnderWayInit(cap: nat, begun: seq<Step>, mid: seq<Step>)
    requires mid != [] && UnderWay(cap, begun, mid)
    ensures var init := mid[..|mid| - 1];
      && UnderWay(cap, begun, init)
      && After(cap, begun + init).Some? && !After(cap, begun + init).value.lock.Free?
  {
    hide After;
    var init := mid[..|mid| - 1];
    forall i | 0 <= i < |init|
      ensures After(cap, begun + init[..i]).Some? && !After(cap, begun + init[..i]).value.lock.Free?
    {
      assert init[..i] == mid[..i];
    }
  }

  lemma InvFlags(s: Conn)
    requires Inv(s)
    ensures FlagInv(s)
  {
  }

  lemma CallBegins(s: Conn, req: Request)
    requires Enabled(s, Acquire(req))
    ensures During(s, req, Next(s, Acquire(req)))
  {
  }

  /**
   Every `Write` of bytes, in every interleaving: on a connection whose flag is not set it appends them and leaves
   the connection open, or it found the channel full and destroys the connection; if the flag is set it does nothing.
   With room in the channel at the time of the call it appends.
   */
  lemma WriteOutcome(cap: nat, run: seq<Step>, b: seq<byte>, mid: seq<Step>)
    requires Returned(cap, run, DoWrite(Data(b)), mid)
    ensures var s, t := After(cap, run).value, After(cap, run + [Acquire(DoWrite(Data(b)))] + mid).value;
      && (s.closeFlag ==> t.accepted == s.accepted && t.closeFlag && t.queueClosed == s.queueClosed)
      && (!s.closeFlag && |s.queue| < cap ==> t.accepted == s.accepted + [b] && !t.closeFlag && !t.queueClosed)
      && (!s.closeFlag && |s.queue| >= cap ==>
          || (t.accepted == s.accepted + [b] && !t.closeFlag && !t.queueClosed)
          || (t.accepted == s.accepted && t.closeFlag && t.queueClosed && t.socketClosed))
  {
    hide After, FlowInv, SentinelInv, UnderWay;
    CallInv(cap, run, DoWrite(Data(b)), mid);
    RunInv(cap, run);
    CapKept(cap, run);
  }

  /** A nil slice is ignored. */
  lemma WriteNil(cap: nat, run: seq<Step>, mid: seq<Step>)
    requires Returned(cap, run, DoWrite(Sentinel), mid)
    ensures var s, t := After(cap, run).value, After(cap, run + [Acquire(DoWrite(Sentinel))] + mid).value;
      && t.accepted == s.accepted && t.closeFlag == s.closeFlag && t.queueClosed == s.queueClosed
      && t.sentinelSent == s.sentinelSent
  {
    hide After, FlowInv, SentinelInv, UnderWay;
    CallInv(cap, run, DoWrite(Sentinel), mid);
  }

  /**
   After every `Close` the flag is set and nothing was accepted. Unless it was set before, the sentinel is in the
   channel, or the channel was full and the connection is destroyed.
   */
  lemma CloseOutcome(cap: nat, run: seq<Step>, mid: seq<Step>)
    requires Returned(cap, run, DoClose, mid)
    ensures var s, t := After(cap, run).value, After(cap, run + [Acquire(DoClose)] + mid).value;
      && t.closeFlag && t.accepted == s.accepted
      && (s.closeFlag ==> t.sentinelSent == s.sentinelSent && t.queueClosed == s.queueClosed)
      && (!s.closeFlag && |s.queue| < cap ==> t.sentinelSent && t.queueClosed == s.queueClosed)
      && (!s.closeFlag && |s.queue| >= cap ==>
          || (t.sentinelSent && t.queueClosed == s.queueClosed) || (t.queueClosed && t.socketClosed))
  {
    hide After, FlowInv, SentinelInv, UnderWay;
    CallInv(cap, run, DoClose, mid);
    RunInv(cap, run);
    CapKept(cap, run);
  }

  /** After every `Destroy` the socket is closed, the flag set and, unless it was set before, the channel closed. */
  lemma DestroyOutcome(cap: nat, run: seq<Step>, mid: seq<Step>)
    requires Returned(cap, run, DoDestroy, mid)
    ensures var s, t := After(cap, run).value, After(cap, run + [Acquire(DoDestroy)] + mid).value;
      && t.closeFlag && t.socketClosed && t.accepted == s.accepted && (!s.closeFlag ==> t.queueClosed)
      && (s.closeFlag ==> t.queueClosed == s.queueClosed)
  {
    hide After, FlowInv, SentinelInv, UnderWay;
    CallInv(cap, run, DoDestroy, mid);
    RunInv(cap, run);
  }

  lemma {:induction false} CapKept(cap: nat, run: seq<Step>)
    requires After(cap, run).Some?
    ensures After(cap, run).value.cap == cap
  {
    if run != [] {
      LastStep(cap, run);
      StepKeepsCap(After(cap, run[..|run| - 1]).value, run[|run| - 1]);
      hide After, Next, Enabled;
      CapKept(cap, run[..|run| - 1]);
    }
  }

  /** Every call comes to its end, even if nothing else moves. */
  lemma {:induction false} CallReturns(cap: nat, run: seq<Step>, req: Request) returns (mid: seq<Step>)
    requires After(cap, run).Some? && After(cap, run).value.lock.Free?
    ensures Returned(cap, run, req, mid) && forall i :: 0 <= i < |mid| ==> mid[i] == HolderStep
  {
    var begun := run + [Acquire(req)];
    AcquireTakes(After(cap, run).value, req, cap, run);
    hide After, Next, Enabled;
    Extend(cap, run, Acquire(req));
    assert begun + [] == begun;
    mid := Finish(cap, begun, []);
  }

  lemma AcquireTakes(s: Conn, req: Request, cap: nat, run: seq<Step>)
    requires After(cap, run) == Some(s) && s.lock.Free?
    ensures Enabled(s, Acquire(req))
    ensures var t := Next(s, Acquire(req)); !t.lock.DrainHolds? && !t.lock.Free?
  {
    RunInv(cap, run);
    hide After, SentinelInv, FlowInv;
  }

  lemma Extend(cap: nat, run: seq<Step>, step: Step)
    requires After(cap, run).Some? && Enabled(After(cap, run).value, step)
    ensures After(cap, run + [step]) == Some(Next(After(cap, run).value, step))
  {
    assert (run + [step])[..|run|] == run;
  }

  lemma {:induction false} Finish(cap: nat, begun: seq<Step>, done: seq<Step>) returns (mid: seq<Step>)
    requires After(cap, begun + done).Some? && UnderWay(cap, begun, done)
    requires !After(cap, begun + done).value.lock.DrainHolds?
    requires forall i :: 0 <= i < |done| ==> done[i] == HolderStep
    ensures After(cap, begun + mid).Some? && After(cap, begun + mid).value.lock.Free? && UnderWay(cap, begun, mid)
    ensures forall i :: 0 <= i < |mid| ==> mid[i] == HolderStep
    decreases HolderRank(After(cap, begun + done).value.lock)
  {
    hide After, Enabled, Next, HolderRank, UnderWay;
    var t := After(cap, begun + done).value;
    mid := done;
    if !t.lock.Free? {
      HolderNeverBlocks(cap, begun + done, HolderStep);
      HeldByCaller(t);
      Extend(cap, begun + done, HolderStep);
      UnderWayMore(cap, begun, done, HolderStep);
      assert begun + done + [HolderStep] == begun + (done + [HolderStep]);
      mid := Finish(cap, begun, done + [HolderStep]);
    }
  }

  lemma HeldByCaller(t: Conn)
    requires Enabled(t, HolderStep)
    ensures !Next(t, HolderStep).lock.DrainHolds?
  {
  }

  lemma UnderWayMore(cap: nat, begun: seq<Step>, done: seq<Step>, step: Step)
    requires UnderWay(cap, begun, done)
    requires After(cap, begun + done).Some? && !After(cap, begun + done).value.lock.Free?
    ensures UnderWay(cap, begun, done + [step])
  {
    hide After;
    var more := done + [step];
    forall i | 0 <= i < |more|
      ensures After(cap, begun + more[..i]).Some? && !After(cap, begun + more[..i]).value.lock.Free?
    {
      assert more[..i] == done[..i];
      assert i == |done| ==> done[..i] == done;
    }
  }

  /**
   Whenever the drain is receiving and a message is first in the channel, the drain can hand it to the socket as a
   whole, whatever else is going on.
   */
  lemma DrainDelivers(cap: nat, run: seq<Step>)
    requires After(cap, run).Some?
    requires var s := After(cap, run).value; s.drain.Receiving? && s.queue != [] && s.queue[0].Data?
    ensures var s := After(cap, run).value;
      var b := s.queue[0].bytes;
      After(cap, run + [Receive] + [WriteSome(|b|)] + [WriteDone])
        == Some(s.(queue := s.queue[1..], wire := s.wire + b, written := s.written + [b]))
  {
    RunInv(cap, run);
    var b := After(cap, run).value.queue[0].bytes;
    assert b[0..|b|] == b;
    hide After, SentinelInv, FlowInv;
    Extend(cap, run, Receive);
    Extend(cap, run + [Receive], WriteSome(|b|));
    Extend(cap, run + [Receive] + [WriteSome(|b|)], WriteDone);
  }

  /**
   The sentinel, a closed channel or a failed write make the drain leave its loop; whoever has the mutex later, the
   drain has then closed the socket and, at its end, set the flag.
   */
  lemma DrainLeaves(cap: nat, run: seq<Step>)
    requires After(cap, run).Some?
    ensures var s := After(cap, run).value;
      && (s.drain.Receiving? && s.queue != [] && s.queue[0].Sentinel? ==>
          After(cap, run + [Receive]) == Some(s.(queue := s.queue[1..], drain := ClosingSocket(BySentinel))))
      && (s.drain.Receiving? && s.queue == [] && s.queueClosed ==>
          After(cap, run + [Receive]) == Some(s.(drain := ClosingSocket(ByClosedChannel))))
      && (s.drain.Writing? ==> After(cap, run + [WriteFail]) == Some(s.(drain := ClosingSocket(ByError))))
      && (s.drain.WantsLock? || s.drain.Finishing? || s.drain.Finished? ==> s.socketClosed)
      && (s.drain.Finished? ==> s.closeFlag)
  {
    StepsPossible(cap, run);
    ExitInv(cap, run);
    hide After, Enabled;
    var s := After(cap, run).value;
    if s.drain.Writing? {
      Extend(cap, run, WriteFail);
    } else if s.drain.Receiving? && (s.queue != [] || s.queueClosed) {
      Extend(cap, run, Receive);
    }
  }

  /** Once out of its loop, and with the mutex free, the drain closes the socket, sets the flag and ends. */
  lemma DrainFinishes(cap: nat, run: seq<Step>)
    requires After(cap, run).Some?
    requires var s := After(cap, run).value; s.drain.ClosingSocket? && s.lock.Free?
    ensures var s := After(cap, run).value;
      After(cap, run + [DrainStep] + [DrainStep] + [DrainStep])
        == Some(s.(socketClosed := true, closeFlag := true, drain := Finished(s.drain.why)))
  {
    RunInv(cap, run);
    hide After, SentinelInv, FlowInv;
    Extend(cap, run, DrainStep);
    Extend(cap, run + [DrainStep], DrainStep);
    Extend(cap, run + [DrainStep] + [DrainStep], DrainStep);
  }

  /** Sending to a closed channel and closing it again are what panics. */
  lemma PanicMeans(s: Conn)
    requires Enabled(s, HolderStep)
    ensures Hold(s).panicked <==>
      s.queueClosed && (s.lock.Send? || (s.lock.CloseChannel? && !s.closeFlag))
  {
  }

  predicate ExitedProperly(s: Conn) {
    && (s.drain.WantsLock? || s.drain.Finishing? || s.drain.Finished? ==> s.socketClosed)
    && (s.drain.Finished? ==> s.closeFlag)
  }

  lemma {:induction false} ExitInv(cap: nat, run: seq<Step>)
    requires After(cap, run).Some?
    ensures ExitedProperly(After(cap, run).value)
  {
    if run != [] {
      LastStep(cap, run);
      hide After, Next, Enabled, ExitedProperly;
      ExitInv(cap, run[..|run| - 1]);
      ExitStep(After(cap, run[..|run| - 1]).value, run[|run| - 1]);
    }
  }

  lemma ExitStep(s: Conn, step: Step)
    requires Enabled(s, step) && ExitedProperly(s)
    ensures ExitedProperly(Next(s, step))
  {
    if step.HolderStep? {
      HoldKeepsExit(s);
      hide ExitedProperly;
    }
  }

  lemma HoldKeepsExit(s: Conn)
    requires Enabled(s, HolderStep) && ExitedProperly(s)
    ensures ExitedProperly(Hold(s))
  {
  }

  // ---------------------------------------------------------------- end to end

  function Unframe(p: Settings, b: seq<byte>): Message {
    if 0 <= p.lenMsgLen <= |b| then b[p.lenMsgLen..] else []
  }

  predicate IsFrame(p: Settings, b: seq<byte>)
    requires p.lenMsgLen in {1, 2, 4}
  {
    Fits(p, Unframe(p, b)) && b == Frame(p, Unframe(p, b))
  }

  /** Whatever `WriteMsg` hands to `Write` is a frame, and an exact length means the whole message is in it. */
  lemma SentIsFrame(p: Settings, args: seq<seq<byte>>)
    requires Reachable(p) && Written(p, args).Sent?
    ensures var b := Written(p, args).frame;
      && IsFrame(p, b) && Unframe(p, b) <= Concat(args)
      && (Exact(p, |Concat(args)|) ==> Unframe(p, b) == Concat(args))
  {
    WrittenIsFrame(p, args);
    WrittenAsIntended(p, args);
    hide Header, HeaderMax, Concat, BeforeLast, Written;
    var m := Concat(args)[..|Concat(args)| % WRAP];
    assert Frame(p, m)[p.lenMsgLen..] == m;
    if Exact(p, |Concat(args)|) {
      assert Frame(p, Concat(args))[p.lenMsgLen..] == Concat(args);
    }
  }

  /** The bytes come from a call of `WriteMsg` with some pieces. */
  ghost predicate ByWriteMsg(p: Settings, b: seq<byte>)
    requires p.lenMsgLen in {1, 2, 4}
  {
    exists args :: Written(p, args) == Sent(b)
  }

  /** All writes of the run go through `WriteMsg`. */
  ghost predicate Framed(p: Settings, run: seq<Step>)
    requires p.lenMsgLen in {1, 2, 4}
  {
    forall i :: 0 <= i < |run| && run[i].Acquire? && run[i].req.DoWrite? && run[i].req.b.Data?
      ==> ByWriteMsg(p, run[i].req.b.bytes)
  }

  predicate FramedState(p: Settings, s: Conn)
    requires p.lenMsgLen in {1, 2, 4}
  {
    && (forall i :: 0 <= i < |s.accepted| ==> IsFrame(p, s.accepted[i]))
    && (s.lock.WriteCheck? && s.lock.b.Data? ==> IsFrame(p, s.lock.b.bytes))
    && (s.lock.FullCheck? && s.lock.b.Data? ==> IsFrame(p, s.lock.b.bytes))
    && (s.lock.Send? && s.lock.b.Data? ==> IsFrame(p, s.lock.b.bytes))
  }

  lemma {:induction false} FramedRun(p: Settings, cap: nat, run: seq<Step>)
    requires Reachable(p) && Framed(p, run)
    ensures After(cap, run).Some? ==> FramedState(p, After(cap, run).value)
  {
    if run != [] {
      FramedRun(p, cap, run[..|run| - 1]);
      if run[|run| - 1].Acquire? && run[|run| - 1].req.DoWrite? && run[|run| - 1].req.b.Data? {
        var b := run[|run| - 1].req.b.bytes;
        assert ByWriteMsg(p, b);
        var args :| Written(p, args) == Sent(b);
        SentIsFrame(p, args);
      }
      hide IsFrame, Enabled, Next, FramedState;
      if After(cap, run).Some? {
        FramedStep(p, After(cap, run[..|run| - 1]).value, run[|run| - 1]);
      }
    }
  }

  lemma FramedStep(p: Settings, s: Conn, step: Step)
    requires p.lenMsgLen in {1, 2, 4} && FramedState(p, s) && Enabled(s, step)
    requires step.Acquire? && step.req.DoWrite? && step.req.b.Data? ==> IsFrame(p, step.req.b.bytes)
    ensures FramedState(p, Next(s, step))
  {
    hide IsFrame, FramedState;
    if step.HolderStep? {
      FramedHold(p, s);
    } else {
      FramedRest(p, s, step);
    }
  }

  lemma FramedRest(p: Settings, s: Conn, step: Step)
    requires p.lenMsgLen in {1, 2, 4} && FramedState(p, s) && Enabled(s, step) && !step.HolderStep?
    requires step.Acquire? && step.req.DoWrite? && step.req.b.Data? ==> IsFrame(p, step.req.b.bytes)
    ensures FramedState(p, Next(s, step))
  {
    hide IsFrame;
  }

  lemma FramedHold(p: Settings, s: Conn)
    requires p.lenMsgLen in {1, 2, 4} && FramedState(p, s) && Enabled(s, HolderStep)
    ensures FramedState(p, Hold(s))
  {
    hide IsFrame;
    if s.lock.Send? {
      FramedSend(p, s);
      hide FramedState;
    }
  }

  lemma FramedSend(p: Settings, s: Conn)
    requires p.lenMsgLen in {1, 2, 4} && FramedState(p, s) && Enabled(s, HolderStep) && s.lock.Send?
    ensures FramedState(p, Hold(s))
  {
    hide IsFrame;
  }

  /** The messages inside a list of frames. */
  function Messages(p: Settings, frames: seq<seq<byte>>): (msgs: seq<Message>)
    ensures |msgs| == |frames| && forall i :: 0 <= i < |frames| ==> msgs[i] == Unframe(p, frames[i])
  {
    seq(|frames|, i requires 0 <= i < |frames| => Unframe(p, frames[i]))
  }

  lemma {:induction false} StreamAppend(p: Settings, msgs: seq<Message>, m: Message)
    requires p.lenMsgLen in {1, 2, 4}
    ensures Stream(p, msgs + [m]) == Stream(p, msgs) + Frame(p, m)
  {
    hide Frame;
    if msgs == [] {
      assert [m][1..] == [];
    } else {
      assert (msgs + [m])[1..] == msgs[1..] + [m];
      StreamAppend(p, msgs[1..], m);
    }
  }

  lemma {:induction false} ConcatIsStream(p: Settings, frames: seq<seq<byte>>, msgs: seq<Message>)
    requires p.lenMsgLen in {1, 2, 4} && |frames| == |msgs|
    requires forall i :: 0 <= i < |frames| ==> frames[i] == Frame(p, msgs[i])
    ensures Concat(frames) == Stream(p, msgs)
  {
    hide Frame;
    if frames != [] {
      var n := |frames| - 1;
      ConcatIsStream(p, frames[..n], msgs[..n]);
      StreamAppend(p, msgs[..n], msgs[n]);
      assert msgs == msgs[..n] + [msgs[n]];
    }
  }

  lemma FrameOf(p: Settings, b: seq<byte>)
    requires p.lenMsgLen in {1, 2, 4} && IsFrame(p, b)
    ensures Fits(p, Unframe(p, b)) && b == Frame(p, Unframe(p, b))
  {
  }

  /**
   End to end: whatever part of the wire a peer has received in any interleaving, reading it with
   the same settings returns, byte for byte and in order, a prefix of the accepted messages, and
   then end of input.
   */
  lemma EndToEnd(p: Settings, cap: nat, run: seq<Step>, k: nat)
    requires Reachable(p) && Framed(p, run) && After(cap, run).Some?
    requires k <= |After(cap, run).value.wire|
    ensures var s := After(cap, run).value;
      && (forall i :: 0 <= i < |s.accepted| ==> IsFrame(p, s.accepted[i]))
      && var msgs := Messages(p, s.accepted);
      DecodeAll(p, s.wire[..k]) == (msgs[..Complete(p, msgs, k)], EndOfInput)
  {
    hide IsFrame, After, FlagInv, SentinelInv, FlowInv, Framed, Complete, DecodeAll, Stream, Frame, Fits, Unframe,
      Messages, Concat;
    var s := After(cap, run).value;
    RunInv(cap, run);
    FramedRun(p, cap, run);
    WireIsPrefix(s);
    var msgs := Messages(p, s.accepted);
    forall i | 0 <= i < |msgs| ensures Fits(p, msgs[i]) && s.accepted[i] == Frame(p, msgs[i]) {
      FrameOf(p, s.accepted[i]);
    }
    ConcatIsStream(p, s.accepted, msgs);
    assert s.wire[..k] == Stream(p, msgs)[..k];
    DecodePrefix(p, msgs, k);
  }
}
