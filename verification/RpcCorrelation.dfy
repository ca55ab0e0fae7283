/**
 Asynchronous calls between two nodes: sequence numbers and the pending table on the client, the
 request handler with its reply closure on the server, and messages that may be delayed, reordered
 or lost in between.
 */
module RpcCorrelation {
  import opened Arith
  import opened Common

  const SEQS := 0x1_0000_0000_0000_0000

  /** What the reply closure is called with. */
  datatype Reply = NoSuchMethod | BadParameter | Result(failed: bool)

  /** What the handler meets: the method table, the encoded parameter and the method itself. */
  datatype Branch = Branch(found: bool, paramOk: bool, methodFails: bool)

  /**
   The handler's calls of the reply closure. After a parameter that cannot be decoded it replies and
   then runs the method and replies again, with the decoding error still set.
   */
  method HandlerRpcRequest(b: Branch, hasHandle: bool) returns (out: seq<Reply>)
    ensures out == if hasHandle then Replies(b) else []
    ensures Result(false) in out <==> hasHandle && b.found && b.paramOk && !b.methodFails
    ensures NoSuchMethod in out <==> hasHandle && !b.found
    ensures BadParameter in out <==> hasHandle && b.found && !b.paramOk
    ensures BadParameter in out ==> out == [BadParameter, Result(true)]
    ensures BadParameter !in out ==> |out| == if hasHandle then 1 else 0
  {
    out := [];
    if !b.found {
      if hasHandle {
        out := out + [NoSuchMethod];
      }
      return;
    }
    var err := false;
    if !b.paramOk {
      err := true;
      if hasHandle {
        out := out + [BadParameter];
      }
    }
    if b.methodFails {
      err := true;
    }
    if hasHandle {
      out := out + [Result(err)];
    }
  }

  /** One reply, except that an undecodable parameter of a known method draws two, both failures. */
  function Replies(b: Branch): (out: seq<Reply>)
    ensures |out| == if b.found && !b.paramOk then 2 else 1
    ensures forall i :: 0 <= i < |out| && out[i] == Result(false) ==> b.found && b.paramOk && !b.methodFails
  {
    if !b.found then [NoSuchMethod]
    else (if b.paramOk then [] else [BadParameter]) + [Result(!b.paramOk || b.methodFails)]
  }

  /** A call is identified by the order of its issue; its sequence number is a 64-bit counter. */
  type CallId = nat

  function SeqOf(c: CallId): nat {
    c % SEQS
  }

  /** `origin` records which request a response answers; the client sees only `number`. */
  datatype Response = Response(number: nat, origin: CallId)

  /** A callback handed to its service, with the response that caused it. */
  datatype Completion = Completion(call: CallId, cause: Response)

  /**
   How a call is made: with a callback, with a caller that waits for the answer, or asking for no
   reply. All three take their number from the same counter and enter the same table.
   */
  datatype Kind = Callback | Waiting | NoReply

  datatype Receiver = Reading | Decoding(call: CallId, cause: Response)

  /**
   `crash` is what the receive loop was at when it dereferenced the callback of a call that has none.
   */
  datatype State = State(
    issued: nat, kinds: map<CallId, Kind>, pending: map<nat, CallId>, unsent: set<CallId>, toServer: set<CallId>,
    handlers: map<CallId, seq<Reply>>, answered: seq<CallId>, toClient: multiset<Response>,
    receiver: Receiver, queued: seq<Completion>, crash: Option<Completion>)

  const Init := State(0, map[], map[], {}, {}, map[], [], multiset{}, Reading, [], None)

  function KindOf(s: State, c: CallId): Kind {
    if c in s.kinds then s.kinds[c] else Callback
  }

  datatype Step =
    | Issue(kind: Kind)
    | Send(c: CallId)
    | LoseRequest(c: CallId)
    | Receive(c: CallId, b: Branch)
    | Answer(c: CallId, encoded: bool)
    | LoseResponse(r: Response)
    | Deliver(r: Response)
    | Decode(ok: bool)

  predicate Enabled(s: State, step: Step) {
    match step
    case Issue(_) => s.crash.None?
    case Send(c) => s.crash.None? && c in s.unsent
    case LoseRequest(c) => c in s.toServer
    case Receive(c, _) => c in s.toServer
    case Answer(c, _) => c in s.handlers && s.handlers[c] != []
    case LoseResponse(r) => r in s.toClient
    case Deliver(r) => s.crash.None? && r in s.toClient && s.receiver.Reading?
    case Decode(_) => s.crash.None? && s.receiver.Decoding?
  }

  function Next(s: State, step: Step): State
    requires Enabled(s, step)
  {
    match step
    case Issue(kind) =>
      var c := s.issued + 1;
      s.(issued := c, kinds := s.kinds[c := kind], pending := s.pending[SeqOf(c) := c], unsent := s.unsent + {c})
    case Send(c) => s.(unsent := s.unsent - {c}, toServer := s.toServer + {c})
    case LoseRequest(c) => s.(toServer := s.toServer - {c})
    case Receive(c, b) =>
      s.(toServer := s.toServer - {c}, handlers := s.handlers[c := if KindOf(s, c).NoReply? then [] else Replies(b)])
    case Answer(c, encoded) =>
      s.(handlers := s.handlers[c := s.handlers[c][1..]], answered := s.answered + [c],
         toClient := if encoded then s.toClient + multiset{Response(SeqOf(c), c)} else s.toClient)
    case LoseResponse(r) => s.(toClient := s.toClient - multiset{r})
    case Deliver(r) =>
      var t := s.(toClient := s.toClient - multiset{r});
      if r.number in s.pending
      then t.(pending := s.pending - {r.number}, receiver := Decoding(s.pending[r.number], r))
      else t
    case Decode(ok) =>
      var done := Completion(s.receiver.call, s.receiver.cause);
      if !ok then s.(receiver := Reading)
      else if KindOf(s, done.call).Callback? then s.(receiver := Reading, queued := s.queued + [done])
      else s.(receiver := Reading, crash := Some(done))
  }

  function After(run: seq<Step>): Option<State> {
    if run == [] then Some(Init)
    else
      var last := run[|run| - 1];
      match After(run[..|run| - 1])
      case None => None
      case Some(s) => if Enabled(s, last) then Some(Next(s, last)) else None
  }

  // ---------------------------------------------------------------- the invariant

  function Count(calls: seq<CallId>, c: CallId): nat {
    if calls == [] then 0
    else Count(calls[..|calls| - 1], c) + if calls[|calls| - 1] == c then 1 else 0
  }

  predicate Known(s: State, c: CallId) {
    1 <= c <= s.issued
  }

  /** A request exists at most once: still to be sent, on its way, or with its handler. */
  ghost predicate RequestsInv(s: State) {
    && (forall c :: c in s.unsent ==> Known(s, c) && c !in s.toServer && c !in s.handlers)
    && (forall c :: c in s.toServer ==> Known(s, c) && c !in s.handlers)
    && (forall c :: c in s.handlers ==> Known(s, c) && (s.handlers[c] != [] ==> !KindOf(s, c).NoReply?))
    && (forall c :: Count(s.answered, c) + (if c in s.handlers then |s.handlers[c]| else 0) <= 2)
    && (forall c :: c !in s.handlers ==> Count(s.answered, c) == 0)
  }

  predicate Genuine(s: State, r: Response) {
    Known(s, r.origin) && r.number == SeqOf(r.origin) && !KindOf(s, r.origin).NoReply?
  }

  /** The call's callback has been taken out of the table, to be queued or dropped. */
  predicate Taken(s: State, c: CallId) {
    (s.receiver.Decoding? && s.receiver.call == c) || exists i :: 0 <= i < |s.queued| && s.queued[i].call == c
  }

  /** The call was issued, and the response that completed it answers a request and carries the call's number. */
  predicate Caused(s: State, q: Completion) {
    Known(s, q.call) && Genuine(s, q.cause) && q.cause.number == SeqOf(q.call)
  }

  ghost predicate CallsInv(s: State) {
    && (forall k :: k in s.pending ==>
        Known(s, s.pending[k]) && k == SeqOf(s.pending[k]) && !Taken(s, s.pending[k]))
    && (forall r :: r in s.toClient ==> Genuine(s, r))
    && (s.receiver.Decoding? ==> Caused(s, Completion(s.receiver.call, s.receiver.cause)))
    && (s.receiver.Decoding? ==> forall i :: 0 <= i < |s.queued| ==> s.queued[i].call != s.receiver.call)
    && (forall i :: 0 <= i < |s.queued| ==> Caused(s, s.queued[i]) && KindOf(s, s.queued[i].call).Callback?)
    && (forall i, j :: 0 <= i < j < |s.queued| ==> s.queued[i].call != s.queued[j].call)
    && (s.crash.Some? ==> Caused(s, s.crash.value) && !KindOf(s, s.crash.value.call).Callback?)
  }

  lemma AnswerStep(s: State, c: CallId, encoded: bool)
    requires RequestsInv(s) && Enabled(s, Answer(c, encoded))
    ensures RequestsInv(Next(s, Answer(c, encoded)))
  {
    assert (s.answered + [c])[..|s.answered|] == s.answered;
  }

  lemma RequestIssued(s: State, kind: Kind)
    requires RequestsInv(s) && Enabled(s, Issue(kind))
    ensures RequestsInv(Next(s, Issue(kind)))
  {
    hide Count;
    var t := Next(s, Issue(kind));
    assert forall c :: Known(s, c) ==> Known(t, c) && KindOf(t, c) == KindOf(s, c);
  }

  lemma RequestReceived(s: State, c: CallId, b: Branch)
    requires RequestsInv(s) && Enabled(s, Receive(c, b))
    ensures RequestsInv(Next(s, Receive(c, b)))
  {
    hide Count, Replies;
    assert |Replies(b)| <= 2 && Count(s.answered, c) == 0;
  }

  lemma RequestsStep(s: State, step: Step)
    requires RequestsInv(s) && Enabled(s, step)
    ensures RequestsInv(Next(s, step))
  {
    hide RequestsInv;
    match step
    case Issue(kind) => RequestIssued(s, kind);
    case Send(_) => RequestMoved(s, step);
    case LoseRequest(_) => RequestMoved(s, step);
    case Receive(c, b) => RequestReceived(s, c, b);
    case Answer(c, encoded) => AnswerStep(s, c, encoded);
    case _ => RequestsUnmoved(s, Next(s, step));
  }

  lemma RequestMoved(s: State, step: Step)
    requires RequestsInv(s) && Enabled(s, step) && (step.Send? || step.LoseRequest?)
    ensures RequestsInv(Next(s, step))
  {
    hide Count, Known, KindOf;
    SameCauses(s, Next(s, step));
  }

  /** The requests' side does not depend on the responses and the client's receive loop. */
  lemma RequestsUnmoved(s: State, t: State)
    requires RequestsInv(s) && t.issued == s.issued && t.kinds == s.kinds && t.unsent == s.unsent
    requires t.toServer == s.toServer && t.handlers == s.handlers && t.answered == s.answered
    ensures RequestsInv(t)
  {
    hide Count, Known, KindOf;
    SameCauses(s, t);
  }

  /** What was issued and how decides which responses can have caused what. */
  lemma SameCauses(s: State, t: State)
    requires t.issued == s.issued && t.kinds == s.kinds
    ensures forall c :: Known(t, c) == Known(s, c) && KindOf(t, c) == KindOf(s, c)
    ensures forall r :: Genuine(t, r) == Genuine(s, r)
    ensures forall q :: Caused(t, q) == Caused(s, q)
  {
  }

  /** A new call takes nothing away from what was issued before. */
  lemma IssueCauses(s: State, kind: Kind)
    requires Enabled(s, Issue(kind))
    ensures var t := Next(s, Issue(kind));
      && (forall c :: Known(s, c) ==> Known(t, c) && KindOf(t, c) == KindOf(s, c))
      && (forall r :: Genuine(s, r) ==> Genuine(t, r)) && (forall q :: Caused(s, q) ==> Caused(t, q))
      && Known(t, t.issued) && !Known(s, t.issued)
  {
  }

  lemma IssueStep(s: State, kind: Kind)
    requires CallsInv(s) && Enabled(s, Issue(kind))
    ensures CallsInv(Next(s, Issue(kind)))
  {
    var t := Next(s, Issue(kind));
    IssueCauses(s, kind);
    assert forall c :: Taken(t, c) <==> Taken(s, c);
    assert forall c :: Taken(s, c) ==> Known(s, c);
    hide SeqOf, Known, KindOf, Genuine, Caused, Taken;
  }

  lemma DeliverStep(s: State, r: Response)
    requires CallsInv(s) && Enabled(s, Deliver(r))
    ensures CallsInv(Next(s, Deliver(r)))
  {
    hide SeqOf, Known, KindOf, Genuine;
    var t := Next(s, Deliver(r));
    SameCauses(s, t);
    if r.number in s.pending {
      assert !Taken(s, s.pending[r.number]);
      assert forall c :: Taken(t, c) ==> Taken(s, c) || c == s.pending[r.number];
    }
  }

  lemma DecodeStep(s: State, ok: bool)
    requires CallsInv(s) && Enabled(s, Decode(ok))
    ensures CallsInv(Next(s, Decode(ok)))
  {
    hide SeqOf, Known, KindOf, Genuine, Caused;
    var t := Next(s, Decode(ok));
    SameCauses(s, t);
    forall c | Taken(t, c) ensures Taken(s, c) {
      var i :| 0 <= i < |t.queued| && t.queued[i].call == c;
      assert i < |s.queued| ==> s.queued[i].call == c;
    }
  }

  /** The client's side depends on the network only through the responses in it. */
  lemma ClientUnmoved(s: State, t: State)
    requires CallsInv(s) && forall r :: r in t.toClient ==> Genuine(t, r)
    requires t.issued == s.issued && t.kinds == s.kinds && t.pending == s.pending
    requires t.receiver == s.receiver && t.queued == s.queued && t.crash == s.crash
    ensures CallsInv(t)
  {
    hide SeqOf;
    assert forall c :: Taken(t, c) <==> Taken(s, c);
  }

  lemma TransportStep(s: State, step: Step)
    requires RequestsInv(s) && CallsInv(s) && Enabled(s, step)
    requires !step.Issue? && !step.Deliver? && !step.Decode?
    ensures CallsInv(Next(s, step))
  {
    hide SeqOf, RequestsInv, CallsInv, Genuine, Known, KindOf;
    var t := Next(s, step);
    SameCauses(s, t);
    if step.Answer? {
      AnswerIsGenuine(s, step.c);
    }
    forall r | r in t.toClient ensures Genuine(t, r) {
      if r in s.toClient {
        InTransitIsGenuine(s, r);
      }
    }
    ClientUnmoved(s, t);
  }

  lemma AnswerIsGenuine(s: State, c: CallId)
    requires RequestsInv(s) && c in s.handlers && s.handlers[c] != []
    ensures Genuine(s, Response(SeqOf(c), c))
  {
  }

  lemma InTransitIsGenuine(s: State, r: Response)
    requires CallsInv(s) && r in s.toClient
    ensures Genuine(s, r)
  {
  }

  lemma CallsStep(s: State, step: Step)
    requires RequestsInv(s) && CallsInv(s) && Enabled(s, step)
    ensures CallsInv(Next(s, step))
  {
    hide RequestsInv, CallsInv, Next;
    match step
    case Issue(kind) => IssueStep(s, kind);
    case Deliver(r) => DeliverStep(s, r);
    case Decode(ok) => DecodeStep(s, ok);
    case _ => TransportStep(s, step);
  }

  /** Both invariants hold in every state of every interleaving. */
  lemma {:induction false} RunInv(run: seq<Step>)
    ensures After(run).Some? ==> RequestsInv(After(run).value) && CallsInv(After(run).value)
  {
    if run != [] {
      RunInv(run[..|run| - 1]);
      hide RequestsInv, CallsInv, Enabled, Next;
      if After(run).Some? {
        RequestsStep(After(run[..|run| - 1]).value, run[|run| - 1]);
        CallsStep(After(run[..|run| - 1]).value, run[|run| - 1]);
      }
    }
  }

  // ---------------------------------------------------------------- what every run guarantees

  /**
   Each callback is queued at most once, and only by a response carrying its call's own sequence
   number, whatever the order, loss or repetition of replies.
   */
  lemma QueuedOnce(run: seq<Step>)
    requires After(run).Some?
    ensures var s := After(run).value;
      && (forall i, j :: 0 <= i < j < |s.queued| ==> s.queued[i].call != s.queued[j].call)
      && (forall i :: 0 <= i < |s.queued| ==>
          s.queued[i].cause.number == SeqOf(s.queued[i].call) && KindOf(s, s.queued[i].call).Callback?)
  {
    RunInv(run);
    hide SeqOf, After;
  }

  /** Every pending entry is an issued call under its own number whose callback has not been taken. */
  lemma PendingIsOpen(run: seq<Step>)
    requires After(run).Some?
    ensures var s := After(run).value;
      forall k :: k in s.pending ==>
        Known(s, s.pending[k]) && k == SeqOf(s.pending[k])
        && forall i :: 0 <= i < |s.queued| ==> s.queued[i].call != s.pending[k]
  {
    RunInv(run);
    hide SeqOf, After;
    var s := After(run).value;
    forall k, i | k in s.pending && 0 <= i < |s.queued| ensures s.queued[i].call != s.pending[k] {
      assert !Taken(s, s.pending[k]);
    }
  }

  /** A request is answered at most twice. */
  lemma AnsweredAtMostTwice(run: seq<Step>, c: CallId)
    requires After(run).Some?
    ensures Count(After(run).value.answered, c) <= 2 && multiset(After(run).value.answered)[c] <= 2
  {
    RunInv(run);
    CountIsMultiplicity(After(run).value.answered, c);
    hide After;
  }

  /**
   Until the counter wraps around, a callback is queued only by an answer to that very request;
   afterwards, only by an answer to a request a whole number of wrap-arounds away.
   */
  lemma OwnAnswer(run: seq<Step>, i: nat)
    requires After(run).Some? && i < |After(run).value.queued|
    ensures var q := After(run).value.queued[i];
      && (q.cause.origin - q.call) % SEQS == 0
      && (After(run).value.issued <= SEQS ==> q.cause.origin == q.call)
  {
    RunInv(run);
    var s := After(run).value;
    var q := s.queued[i];
    assert Caused(s, q);
    hide After, RequestsInv, CallsInv;
    SameSeq(q.cause.origin, q.call);
  }

  // ---------------------------------------------------------------- what one call does

  /**
   The network may lose anything that is under way, and hand over what it does not lose in any order; the client
   acts as long as its receive loop lives.
   */
  lemma AnyOrder(s: State)
    ensures forall c :: Enabled(s, LoseRequest(c)) <==> c in s.toServer
    ensures forall c, b :: Enabled(s, Receive(c, b)) <==> c in s.toServer
    ensures forall r :: Enabled(s, LoseResponse(r)) <==> r in s.toClient
    ensures forall r :: Enabled(s, Deliver(r)) <==> r in s.toClient && s.crash.None? && s.receiver.Reading?
    ensures forall c, encoded :: Enabled(s, Answer(c, encoded)) <==> c in s.handlers && |s.handlers[c]| > 0
    ensures forall kind :: Enabled(s, Issue(kind)) <==> s.crash.None?
    ensures forall c :: Enabled(s, Send(c)) <==> s.crash.None? && c in s.unsent
    ensures forall ok :: Enabled(s, Decode(ok)) <==> s.crash.None? && s.receiver.Decoding?
  {
  }

  /** What is lost is gone, and nothing else changes. */
  lemma Lost(s: State, c: CallId, r: Response)
    ensures c in s.toServer ==> Next(s, LoseRequest(c)) == s.(toServer := s.toServer - {c})
    ensures r in s.toClient ==> Next(s, LoseResponse(r)) == s.(toClient := s.toClient - multiset{r})
  {
  }

  lemma {:induction false} CountIsMultiplicity(calls: seq<CallId>, c: CallId)
    ensures Count(calls, c) == multiset(calls)[c]
  {
    if calls != [] {
      var init, last := calls[..|calls| - 1], calls[|calls| - 1];
      CountIsMultiplicity(init, c);
      assert calls == init + [last];
    }
  }

  /** A call that is issued and sent reaches the handler, which has the replies of its branch to give. */
  lemma CallReaches(run: seq<Step>, kind: Kind, b: Branch) returns (longer: seq<Step>)
    requires After(run).Some? && After(run).value.crash.None?
    ensures longer == run + [Issue(kind), Send(After(run).value.issued + 1), Receive(After(run).value.issued + 1, b)]
    ensures After(longer).Some?
    ensures var s, t, c := After(run).value, After(longer).value, After(run).value.issued + 1;
      && t.issued == c && KindOf(t, c) == kind && t.pending == s.pending[SeqOf(c) := c]
      && c in t.handlers && t.handlers[c] == (if kind.NoReply? then [] else Replies(b))
      && t.toClient == s.toClient && t.answered == s.answered && t.queued == s.queued
      && t.receiver == s.receiver && t.crash == s.crash
  {
    hide After, SeqOf, Replies;
    var c := After(run).value.issued + 1;
    AfterStep(run, Issue(kind));
    AfterStep(run + [Issue(kind)], Send(c));
    AfterStep(run + [Issue(kind)] + [Send(c)], Receive(c, b));
    longer := run + [Issue(kind)] + [Send(c)] + [Receive(c, b)];
  }

  /**
   From every reachable state in which the client lives and its receive loop is reading, a call can be made and
   answered, whatever else is pending or under way. The answer frees its number and completes it: the callback is
   queued, unless the answer cannot be decoded.
   */
  lemma CallCompletes(run: seq<Step>, b: Branch, ok: bool) returns (longer: seq<Step>)
    requires After(run).Some? && After(run).value.crash.None? && After(run).value.receiver.Reading?
    ensures var c := After(run).value.issued + 1;
      longer == run + [Issue(Callback), Send(c), Receive(c, b)]
                + [Answer(c, true), Deliver(Response(SeqOf(c), c)), Decode(ok)]
    ensures After(longer).Some?
    ensures var s, t, c := After(run).value, After(longer).value, After(run).value.issued + 1;
      && t.issued == c && t.receiver == Reading && t.crash == None
      && t.queued == (if ok then s.queued + [Completion(c, Response(SeqOf(c), c))] else s.queued)
      && t.pending == s.pending - {SeqOf(c)} && t.toClient == s.toClient && t.answered == s.answered + [c]
  {
    hide After, SeqOf, Replies;
    var s := After(run).value;
    var c := s.issued + 1;
    var r := Response(SeqOf(c), c);
    var reached := CallReaches(run, Callback, b);
    AfterStep(reached, Answer(c, true));
    AfterStep(reached + [Answer(c, true)], Deliver(r));
    AfterStep(reached + [Answer(c, true)] + [Deliver(r)], Decode(ok));
    longer := reached + [Answer(c, true)] + [Deliver(r)] + [Decode(ok)];
    assert s.pending[SeqOf(c) := c] - {SeqOf(c)} == s.pending - {SeqOf(c)};
  }

  /** A response whose number is not pending changes nothing but that it is gone. */
  lemma UnknownNumber(s: State, r: Response)
    requires Enabled(s, Deliver(r)) && r.number !in s.pending
    ensures Next(s, Deliver(r)) == s.(toClient := s.toClient - multiset{r})
  {
  }

  /** A reply that cannot be encoded is used up without a response. */
  lemma NotEncoded(s: State, c: CallId)
    requires Enabled(s, Answer(c, false))
    ensures var t := Next(s, Answer(c, false));
      t.toClient == s.toClient && t.handlers == s.handlers[c := s.handlers[c][1..]] && t.answered == s.answered + [c]
  {
  }

  // ---------------------------------------------------------------- when the counter wraps around

  function Issues(n: nat): seq<Step> {
    seq(n, _ => Issue(Callback))
  }

  /** Every call issued in the run is of one of the kinds. */
  predicate Uses(run: seq<Step>, kinds: set<Kind>) {
    forall i :: 0 <= i < |run| && run[i].Issue? ==> run[i].kind in kinds
  }

  lemma AfterStep(run: seq<Step>, step: Step)
    requires After(run).Some? && Enabled(After(run).value, step)
    ensures After(run + [step]) == Some(Next(After(run).value, step))
  {
    assert (run + [step])[..|run|] == run;
  }

  /** Any number of calls can be issued; the last one sits in the table under its number. */
  lemma {:induction false} IssueMany(run: seq<Step>, n: nat)
    requires After(run).Some? && After(run).value.crash.None?
    ensures After(run + Issues(n)).Some?
    ensures var s, t := After(run).value, After(run + Issues(n)).value;
      && t.issued == s.issued + n && t.crash == s.crash && (n > 0 ==> KindOf(t, t.issued).Callback?)
      && t.toClient == s.toClient && t.receiver == s.receiver && t.queued == s.queued
      && (n > 0 ==> SeqOf(t.issued) in t.pending && t.pending[SeqOf(t.issued)] == t.issued)
  {
    hide After, SeqOf;
    if n == 0 {
      assert run + Issues(0) == run;
    } else {
      IssueMany(run, n - 1);
      AfterStep(run + Issues(n - 1), Issue(Callback));
      assert run + Issues(n) == run + Issues(n - 1) + [Issue(Callback)];
    }
  }

  /** The first call is answered, but its answer arrives only after the counter has gone round once. */
  lemma LateAnswer() returns (run: seq<Step>)
    ensures After(run).Some?
    ensures var s := After(run).value;
      s.issued == SEQS + 1 && s.queued == [Completion(SEQS + 1, Response(1, 1))]
  {
    hide After, Next, Enabled, Issues;
    run := FirstAnswered(Callback);
    IssueMany(run, SEQS);
    run := run + Issues(SEQS);
    run := Completes(run, Response(1, 1));
  }

  lemma Completes(run: seq<Step>, r: Response) returns (longer: seq<Step>)
    requires After(run).Some?
    requires var s := After(run).value;
      s.crash.None? && r in s.toClient && s.receiver.Reading? && r.number in s.pending
    ensures After(longer).Some? && forall kinds :: Uses(run, kinds) ==> Uses(longer, kinds)
    ensures var s, t := After(run).value, After(longer).value;
      var done := Completion(s.pending[r.number], r);
      && t.issued == s.issued
      && if KindOf(s, done.call).Callback? then t.queued == s.queued + [done] else t.crash == Some(done)
  {
    hide After;
    AfterStep(run, Deliver(r));
    AfterStep(run + [Deliver(r)], Decode(true));
    longer := run + [Deliver(r)] + [Decode(true)];
  }

  lemma FirstAnswered(kind: Kind) returns (run: seq<Step>)
    requires !kind.NoReply?
    ensures After(run).Some? && Uses(run, {kind})
    ensures var s := After(run).value;
      && s.issued == 1 && s.kinds == map[1 := kind] && s.pending == map[1 := 1] && s.crash == None
      && s.toClient == multiset{Response(1, 1)} && s.receiver == Reading && s.queued == []
  {
    var b := Branch(true, true, false);
    run := [];
    assert After(run) == Some(Init);
    hide After;
    AfterStep(run, Issue(kind));
    run := run + [Issue(kind)];
    AfterStep(run, Send(1));
    run := run + [Send(1)];
    AfterStep(run, Receive(1, b));
    run := run + [Receive(1, b)];
    AfterStep(run, Answer(1, true));
    run := run + [Answer(1, true)];
  }

  /** Every callback queued in the run was caused by an answer to its own request. */
  ghost predicate AllOwn(run: seq<Step>)
    requires After(run).Some?
  {
    var q := After(run).value.queued;
    forall i :: 0 <= i < |q| ==> q[i].cause.origin == q[i].call
  }

  /** Callbacks can be trusted to get their own answers exactly as long as no more than 2^64 calls are issued. */
  lemma OwnAnswerExactly(n: nat)
    ensures (forall run :: After(run).Some? && After(run).value.issued <= n ==> AllOwn(run)) <==> n <= SEQS
  {
    hide After;
    if n <= SEQS {
      forall run, i: nat | After(run).Some? && After(run).value.issued <= n && i < |After(run).value.queued|
        ensures After(run).value.queued[i].cause.origin == After(run).value.queued[i].call
      {
        OwnAnswer(run, i);
      }
    } else {
      var run := LateAnswer();
      assert After(run).value.queued[0].cause.origin != After(run).value.queued[0].call;
      assert !AllOwn(run);
    }
  }

  // ---------------------------------------------------------------- calls without a callback

  /**
   The receive loop dies only over an answer to a call without a callback and, until the counter
   wraps around, only over one that waits: a call that asks for no reply gets none.
   */
  lemma CrashCause(run: seq<Step>)
    requires After(run).Some? && After(run).value.crash.Some?
    ensures var s := After(run).value; var q := s.crash.value;
      && Known(s, q.call) && Known(s, q.cause.origin) && q.cause.number == SeqOf(q.call)
      && !KindOf(s, q.call).Callback? && !KindOf(s, q.cause.origin).NoReply? && s.issued >= 1
      && (s.issued <= SEQS ==> q.cause.origin == q.call && KindOf(s, q.call).Waiting?)
  {
    RunInv(run);
    var s := After(run).value;
    var q := s.crash.value;
    assert Caused(s, q);
    hide After, RequestsInv, CallsInv;
    SameSeq(q.cause.origin, q.call);
  }

  /** One waiting call and its answer are enough. */
  lemma WaitingCallCrashes() returns (run: seq<Step>)
    ensures After(run).Some? && Uses(run, {Waiting})
    ensures var s := After(run).value; s.issued == 1 && s.crash == Some(Completion(1, Response(1, 1)))
  {
    hide After, Next, Enabled;
    run := FirstAnswered(Waiting);
    run := Completes(run, Response(1, 1));
  }

  /** So is a late answer to a call with a callback, when a call without a reply has taken its place. */
  lemma LateAnswerCrashes() returns (run: seq<Step>)
    ensures After(run).Some? && Uses(run, {Callback, NoReply})
    ensures var s := After(run).value; s.issued == SEQS + 1 && s.crash == Some(Completion(SEQS + 1, Response(1, 1)))
  {
    hide After, Next, Enabled, Issues;
    run := FirstAnswered(Callback);
    IssueMany(run, SEQS - 1);
    IssuesUse(run, SEQS - 1);
    run := IssueLast(run + Issues(SEQS - 1));
    run := Completes(run, Response(1, 1));
  }

  lemma IssuesUse(run: seq<Step>, n: nat)
    requires Uses(run, {Callback})
    ensures Uses(run + Issues(n), {Callback})
  {
  }

  /** Call 2^64 + 1 asks for no reply and takes number 1 over. */
  lemma IssueLast(run: seq<Step>) returns (longer: seq<Step>)
    requires After(run).Some? && After(run).value.issued == SEQS && After(run).value.crash.None?
    requires Uses(run, {Callback})
    ensures After(longer).Some? && Uses(longer, {Callback, NoReply})
    ensures var s, t := After(run).value, After(longer).value;
      && t.issued == SEQS + 1 && KindOf(t, SEQS + 1).NoReply? && 1 in t.pending && t.pending[1] == SEQS + 1
      && t.crash == None && t.toClient == s.toClient && t.receiver == s.receiver && t.queued == s.queued
  {
    hide After;
    AfterStep(run, Issue(NoReply));
    longer := run + [Issue(NoReply)];
  }

  lemma KindsStep(s: State, step: Step, c: CallId)
    requires Enabled(s, step)
    ensures Known(s, c) ==> KindOf(Next(s, step), c) == KindOf(s, c)
    ensures Known(Next(s, step), c) && !Known(s, c) ==> step.Issue? && KindOf(Next(s, step), c) == step.kind
  {
  }

  /** Every issued call is of one of the kinds the run uses. */
  lemma {:induction false} KindsUsed(run: seq<Step>, kinds: set<Kind>, c: CallId)
    requires After(run).Some? && Uses(run, kinds) && Known(After(run).value, c)
    ensures KindOf(After(run).value, c) in kinds
  {
    if run != [] {
      var init, last := run[..|run| - 1], run[|run| - 1];
      assert last.Issue? ==> last.kind in kinds;
      KindsStep(After(init).value, last, c);
      if Known(After(init).value, c) {
        hide Next, Enabled;
        KindsUsed(init, kinds, c);
      }
    }
  }

  /**
   Kinds of calls of which `n` may be issued without harm: none that waits and, once numbers are used
   again, not both calls that are answered and calls that are not.
   */
  predicate Harmless(kinds: set<Kind>, n: nat) {
    n == 0 || (Waiting !in kinds && (n <= SEQS || !({Callback, NoReply} <= kinds)))
  }

  /** The receive loop outlives every run of at most `n` calls of the given kinds if and only if they are harmless. */
  lemma SurvivesExactly(kinds: set<Kind>, n: nat)
    ensures (forall run :: After(run).Some? && Uses(run, kinds) && After(run).value.issued <= n ==>
               After(run).value.crash.None?)
       <==> Harmless(kinds, n)
  {
    hide After, Uses;
    if Harmless(kinds, n) {
      forall run | After(run).Some? && Uses(run, kinds) && After(run).value.issued <= n
        ensures After(run).value.crash.None?
      {
        if After(run).value.crash.Some? {
          CrashIsHarmful(run, kinds, n);
        }
      }
    } else {
      var run := HarmfulCrashes(kinds, n);
    }
  }

  lemma CrashIsHarmful(run: seq<Step>, kinds: set<Kind>, n: nat)
    requires After(run).Some? && Uses(run, kinds) && After(run).value.issued <= n && After(run).value.crash.Some?
    ensures !Harmless(kinds, n)
  {
    hide After, Uses, KindOf, SeqOf, Known, Harmless;
    CrashCause(run);
    var s := After(run).value;
    var q := s.crash.value;
    KindsUsed(run, kinds, q.call);
    KindsUsed(run, kinds, q.cause.origin);
    KindsClash(kinds, n, s.issued, KindOf(s, q.call), KindOf(s, q.cause.origin));
  }

  lemma KindsClash(kinds: set<Kind>, n: nat, issued: nat, call: Kind, origin: Kind)
    requires call in kinds && origin in kinds && !call.Callback? && !origin.NoReply? && 1 <= issued <= n
    requires issued <= SEQS ==> call.Waiting?
    ensures !Harmless(kinds, n)
  {
  }

  lemma HarmfulCrashes(kinds: set<Kind>, n: nat) returns (run: seq<Step>)
    requires !Harmless(kinds, n)
    ensures After(run).Some? && Uses(run, kinds) && After(run).value.issued <= n && After(run).value.crash.Some?
  {
    hide After;
    if Waiting in kinds {
      run := WaitingCallCrashes();
    } else {
      run := LateAnswerCrashes();
    }
  }

  lemma SameSeq(a: CallId, b: CallId)
    requires SeqOf(a) == SeqOf(b)
    ensures (a - b) % SEQS == 0
    ensures 1 <= a <= SEQS && 1 <= b <= SEQS ==> a == b
  {
    var turns := a / SEQS - b / SEQS;
    assert a - b == turns * SEQS;
    QuotientUnique(a - b, SEQS, turns, 0);
  }
}
