/** The life of a server-accepted connection: every interleaving of `Stop`, `StopAsync`, `SendAsync`, the writer and
    the close callbacks. What runs under the client's lock is one step; what runs outside it is one step a statement. */
module Lifecycle {
  /** A queued message: which `SendAsync` call it is from and whether that call brought a callback. */
  datatype Message = Message(call: nat, hasCallback: bool)

  datatype StopKind = Sync | Async

  /** Where a `Stop` or `StopAsync` call is. The stages behind the lock are those of the call that found the client
      running; `done` holds the keys whose callbacks it has run. */
  datatype Stage = CloseConn | CloseChan | ClearChan | RunCallbacks(done: set<nat>) | Notify

  datatype StopPc = Called | Stopping(stage: Stage) | Returned

  datatype Stopper = Stopper(kind: StopKind, pc: StopPc)

  datatype WriterPc = NotStarted | Receiving | Sending(msg: Message) | Calling(msg: Message) | Exited | NeverRan

  datatype Client = Client(
    running: bool,
    chSend: bool,               // the field is not nil
    queue: seq<Message>, closed: bool, capacity: nat,
    closeCB: map<nat, nat>,     // key to the number of the registration
    stoppers: seq<Stopper>, winner: int,
    writer: WriterPc,
    nextCall: nat, nextCallback: nat,
    // what has happened so far
    enqueued: seq<nat>, owed: set<nat>,  // owed: those that brought a callback
    sent: seq<nat>, called: seq<nat>, refused: set<nat>,
    closes: nat, panics: nat, ran: seq<nat>, disconnects: nat)

  function NewClient(capacity: nat): Client {
    Client(true, true, [], false, capacity, map[], [], -1, NotStarted, 0, 0, [], {}, [], [], {}, 0, 0, [], 0)
  }

  datatype Event =
    | AddCloseCB(key: nat)
    | RemoveCloseCB(key: nat)
    | CallStop(kind: StopKind)
    | StopStep(i: nat, key: nat)   // key: the next one the range over the callbacks yields
    | SendAsync(hasCallback: bool)
    | WriterStep

  /** `SendAsync`, all under the lock. */
  function SendStep(c: Client, hasCallback: bool): Client {
    var call := c.nextCall;
    var d := c.(nextCall := call + 1);
    if !c.running then (if hasCallback then d.(called := c.called + [call]) else d)
    else if !c.chSend then d
    else if c.closed then d.(panics := c.panics + 1)
    else if |c.queue| >= c.capacity then d.(refused := c.refused + {call})
    else d.(queue := c.queue + [Message(call, hasCallback)], enqueued := c.enqueued + [call],
            owed := if hasCallback then c.owed + {call} else c.owed)
  }

  function WriterMoves(c: Client): Client {
    match c.writer
    case NotStarted => c.(writer := if c.chSend then Receiving else NeverRan)
    case Receiving =>
      if c.queue != [] then c.(writer := Sending(c.queue[0]), queue := c.queue[1..])
      else if c.closed then c.(writer := Exited) else c
    case Sending(m) =>
      c.(sent := c.sent + [m.call], writer := if m.hasCallback then Calling(m) else Receiving)
    case Calling(m) => c.(called := c.called + [m.call], writer := Receiving)
    case Exited => c
    case NeverRan => c
  }

  function AtStage(c: Client, i: nat, pc: StopPc): Client
    requires i < |c.stoppers|
  {
    c.(stoppers := c.stoppers[i := c.stoppers[i].(pc := pc)])
  }

  function StopMoves(c: Client, i: nat, key: nat): Client
    requires i < |c.stoppers|
  {
    match c.stoppers[i].pc
    case Called =>
      if c.running then AtStage(c.(running := false, winner := i), i, Stopping(CloseConn)) else AtStage(c, i, Returned)
    case Stopping(CloseConn) =>
      AtStage(c, i, Stopping(if c.chSend then CloseChan else RunCallbacks({})))
    case Stopping(CloseChan) =>
      AtStage(if c.closed then c.(panics := c.panics + 1) else c.(closed := true, closes := c.closes + 1),
              i, Stopping(ClearChan))
    case Stopping(ClearChan) => AtStage(c.(chSend := false), i, Stopping(RunCallbacks({})))
    case Stopping(RunCallbacks(done)) =>
      if key in c.closeCB && key !in done
      then AtStage(c.(ran := c.ran + [c.closeCB[key]]), i, Stopping(RunCallbacks(done + {key})))
      else if c.closeCB.Keys <= done
      then AtStage(c, i, if c.stoppers[i].kind == Sync then Stopping(Notify) else Returned)
      else c
    case Stopping(Notify) => AtStage(c.(disconnects := c.disconnects + 1), i, Returned)
    case Returned => c
  }

  function Step(c: Client, e: Event): Client {
    match e
    case AddCloseCB(key) =>
      if c.running then c.(closeCB := c.closeCB[key := c.nextCallback], nextCallback := c.nextCallback + 1) else c
    case RemoveCloseCB(key) => c.(closeCB := c.closeCB - {key})
    case CallStop(kind) => c.(stoppers := c.stoppers + [Stopper(kind, Called)])
    case StopStep(i, key) => if i < |c.stoppers| then StopMoves(c, i, key) else c
    case SendAsync(hasCallback) => SendStep(c, hasCallback)
    case WriterStep => WriterMoves(c)
  }

  function Run(capacity: nat, events: seq<Event>): Client {
    if events == [] then NewClient(capacity)
    else Step(Run(capacity, events[..|events| - 1]), events[|events| - 1])
  }

  // ---------- stopping ----------

  ghost predicate Distinct(s: seq<nat>) {
    forall i, j | 0 <= i < j < |s| :: s[i] != s[j]
  }

  /** The stage of the one call that stops the client. */
  function WinnerPc(c: Client): StopPc {
    if 0 <= c.winner < |c.stoppers| then c.stoppers[c.winner].pc else Called
  }

  ghost predicate ChanClosedBy(pc: StopPc) {
    !(pc == Called || pc == Stopping(CloseConn) || pc == Stopping(CloseChan))
  }

  ghost predicate ChanClearedBy(pc: StopPc) {
    ChanClosedBy(pc) && pc != Stopping(ClearChan)
  }

  /** One call at most is past the lock with work to do, and the channel is where that call has brought it. */
  ghost predicate StopInvariant(c: Client) {
    && (forall i | 0 <= i < |c.stoppers| && c.stoppers[i].pc.Stopping? :: c.winner == i)
    && (c.running ==> c.winner == -1)
    && (!c.running ==> 0 <= c.winner < |c.stoppers| && WinnerPc(c) != Called)
    && c.closed == ChanClosedBy(WinnerPc(c)) && c.closes == (if c.closed then 1 else 0)
    && c.chSend == !ChanClearedBy(WinnerPc(c))
    && (WinnerPc(c) == Stopping(Notify) ==> c.stoppers[c.winner].kind == Sync)
    && c.disconnects == (if WinnerPc(c) == Returned && c.stoppers[c.winner].kind == Sync then 1 else 0)
    && c.panics == 0
  }

  lemma StopMovesKeep(c: Client, i: nat, key: nat)
    requires StopInvariant(c) && i < |c.stoppers|
    ensures StopInvariant(StopMoves(c, i, key))
  {
  }

  lemma StopStepKeeps(c: Client, e: Event)
    requires StopInvariant(c)
    ensures StopInvariant(Step(c, e))
  {
    match e
    case StopStep(i, key) =>
      if i < |c.stoppers| {
        StopMovesKeep(c, i, key);
      }
    case _ =>
  }

  // ---------- close callbacks ----------

  function DoneKeys(pc: StopPc): set<nat> {
    match pc
    case Stopping(RunCallbacks(done)) => done
    case _ => {}
  }

  /** The stopping call is past the callback of key k. */
  predicate HasRun(pc: StopPc, k: nat) {
    pc == Stopping(Notify) || pc == Returned || k in DoneKeys(pc)
  }

  /** Registrations have numbers of their own, and those that have run are the ones the stopping call is past. */
  ghost predicate CallbackInvariant(c: Client) {
    && (forall k <- c.closeCB :: c.closeCB[k] < c.nextCallback)
    && (forall k, l | k in c.closeCB && l in c.closeCB && k != l :: c.closeCB[k] != c.closeCB[l])
    && Distinct(c.ran) && (forall i | 0 <= i < |c.ran| :: c.ran[i] < c.nextCallback)
    && (forall k <- c.closeCB :: HasRun(WinnerPc(c), k) <==> c.closeCB[k] in c.ran)
    && (!c.closed ==> c.ran == [])
  }

  /** Neither sending nor the writer touches what the callbacks depend on. */
  lemma MessagesLeaveCallbacks(c: Client, d: Client)
    requires CallbackInvariant(c)
    requires d.closeCB == c.closeCB && d.nextCallback == c.nextCallback && d.ran == c.ran && d.closed == c.closed
    requires WinnerPc(d) == WinnerPc(c)
    ensures CallbackInvariant(d)
  {
  }

  lemma NewStopper(c: Client, kind: StopKind)
    requires StopInvariant(c)
    ensures WinnerPc(Step(c, CallStop(kind))) == WinnerPc(c)
  {
  }

  lemma SendLeavesStopping(c: Client, hasCallback: bool)
    ensures var d := SendStep(c, hasCallback);
            && WinnerPc(d) == WinnerPc(c) && d.closed == c.closed && d.ran == c.ran
            && d.closeCB == c.closeCB && d.nextCallback == c.nextCallback
  {
  }

  lemma WriterLeavesStopping(c: Client)
    ensures var d := WriterMoves(c);
            && WinnerPc(d) == WinnerPc(c) && d.closed == c.closed && d.ran == c.ran
            && d.closeCB == c.closeCB && d.nextCallback == c.nextCallback
  {
  }

  lemma RemoveKeeps(c: Client, key: nat)
    requires CallbackInvariant(c)
    ensures CallbackInvariant(Step(c, RemoveCloseCB(key)))
  {
    var d := Step(c, RemoveCloseCB(key));
    assert WinnerPc(d) == WinnerPc(c);
    assert forall k <- d.closeCB :: k in c.closeCB && d.closeCB[k] == c.closeCB[k];
  }

  lemma RegisterKeeps(c: Client, key: nat)
    requires StopInvariant(c) && CallbackInvariant(c)
    ensures CallbackInvariant(Step(c, AddCloseCB(key)))
  {
  }

  /** A move of the stopping call that runs no callback. */
  lemma PlainMoveKeeps(c: Client, d: Client)
    requires CallbackInvariant(c)
    requires d.closeCB == c.closeCB && d.nextCallback == c.nextCallback && d.ran == c.ran && (c.closed ==> d.closed)
    requires forall k <- c.closeCB :: HasRun(WinnerPc(d), k) <==> HasRun(WinnerPc(c), k)
    ensures CallbackInvariant(d)
  {
    hide WinnerPc, HasRun;
  }

  lemma DistinctSnoc(s: seq<nat>, x: nat)
    requires Distinct(s) && x !in s
    ensures Distinct(s + [x])
  {
  }

  lemma RunningOneKeeps(c: Client, d: Client, key: nat)
    requires CallbackInvariant(c) && key in c.closeCB && !HasRun(WinnerPc(c), key)
    requires d.closeCB == c.closeCB && d.nextCallback == c.nextCallback && d.ran == c.ran + [c.closeCB[key]]
    requires c.closed && d.closed
    requires forall k <- c.closeCB :: HasRun(WinnerPc(d), k) <==> HasRun(WinnerPc(c), k) || k == key
    ensures CallbackInvariant(d)
  {
    hide WinnerPc, HasRun;
    DistinctSnoc(c.ran, c.closeCB[key]);
  }

  /** What one statement of a stopping call does to the callbacks. */
  lemma StopMoved(c: Client, i: nat, key: nat)
    requires StopInvariant(c) && i < |c.stoppers|
    ensures var d := StopMoves(c, i, key);
            && d.closeCB == c.closeCB && d.nextCallback == c.nextCallback && (c.closed ==> d.closed)
            && (|| (d.ran == c.ran && forall k <- c.closeCB :: HasRun(WinnerPc(d), k) <==> HasRun(WinnerPc(c), k))
                || (&& key in c.closeCB && !HasRun(WinnerPc(c), key) && d.ran == c.ran + [c.closeCB[key]] && c.closed
                    && forall k <- c.closeCB :: HasRun(WinnerPc(d), k) <==> HasRun(WinnerPc(c), k) || k == key))
  {
    hide Distinct;
    if c.stoppers[i].pc.Stopping? {
      assert c.winner == i;
    }
  }

  lemma CallbackMoveKeeps(c: Client, i: nat, key: nat)
    requires StopInvariant(c) && CallbackInvariant(c) && i < |c.stoppers|
    ensures CallbackInvariant(StopMoves(c, i, key))
  {
    hide CallbackInvariant, StopInvariant, StopMoves, WinnerPc, HasRun;
    var d := StopMoves(c, i, key);
    StopMoved(c, i, key);
    if d.ran == c.ran {
      PlainMoveKeeps(c, d);
    } else {
      RunningOneKeeps(c, d, key);
    }
  }

  lemma CallbackStepKeeps(c: Client, e: Event)
    requires StopInvariant(c) && CallbackInvariant(c)
    ensures CallbackInvariant(Step(c, e))
  {
    hide CallbackInvariant, StopMoves, SendStep, WriterMoves, WinnerPc;
    match e
    case AddCloseCB(key) => RegisterKeeps(c, key);
    case RemoveCloseCB(key) => RemoveKeeps(c, key);
    case StopStep(i, key) =>
      if i < |c.stoppers| {
        CallbackMoveKeeps(c, i, key);
      }
    case CallStop(kind) =>
      NewStopper(c, kind);
      MessagesLeaveCallbacks(c, Step(c, e));
    case SendAsync(hasCallback) =>
      SendLeavesStopping(c, hasCallback);
      MessagesLeaveCallbacks(c, Step(c, e));
    case WriterStep =>
      WriterLeavesStopping(c);
      MessagesLeaveCallbacks(c, Step(c, e));
  }

  // ---------- messages ----------

  function Calls(q: seq<Message>): (r: seq<nat>)
    ensures |r| == |q|
  {
    seq(|q|, i requires 0 <= i < |q| => q[i].call)
  }

  /** The message the writer holds and has not sent. */
  function InHand(w: WriterPc): seq<nat> {
    if w.Sending? then [w.msg.call] else []
  }

  /** A call whose callback may still run is in the queue or with the writer. */
  ghost predicate Pending(c: Client, call: nat) {
    call in Calls(c.queue) || ((c.writer.Sending? || c.writer.Calling?) && c.writer.msg.call == call)
  }

  ghost predicate MessageInvariant(c: Client) {
    && c.enqueued == c.sent + InHand(c.writer) + Calls(c.queue)
    && |c.queue| <= c.capacity
    && Distinct(c.enqueued) && (forall x <- c.enqueued :: x < c.nextCall && x !in c.refused)
    && (forall x <- c.refused :: x < c.nextCall)
    && Distinct(c.called) && (forall x <- c.called :: x < c.nextCall && x !in c.refused && !Pending(c, x))
    && (c.writer.Calling? ==> c.writer.msg.call in c.sent)
    && (c.writer == Exited ==> c.closed && c.queue == [])
  }

  /** The callback of an enqueued call has run, or its message is in the queue or with the writer. */
  ghost predicate OwedInvariant(c: Client) {
    forall x <- c.owed ::
      || x in c.called
      || Message(x, true) in c.queue
      || ((c.writer.Sending? || c.writer.Calling?) && c.writer.msg == Message(x, true))
  }

  lemma StopLeavesOwed(c: Client, i: nat, key: nat)
    requires i < |c.stoppers|
    ensures var d := StopMoves(c, i, key);
            (d.owed, d.called, d.queue, d.writer) == (c.owed, c.called, c.queue, c.writer)
  {
    match c.stoppers[i].pc
    case Called =>
    case Stopping(CloseConn) =>
    case Stopping(CloseChan) =>
    case Stopping(ClearChan) =>
    case Stopping(RunCallbacks(done)) =>
    case Stopping(Notify) =>
    case Returned =>
  }

  lemma OwedStepKeeps(c: Client, e: Event)
    requires StopInvariant(c) && OwedInvariant(c)
    ensures OwedInvariant(Step(c, e))
  {
    match e
    case SendAsync(hasCallback) =>
      hide StopMoves, WriterMoves;
    case WriterStep =>
      hide StopMoves, SendStep;
      if c.writer == Receiving && c.queue != [] {
        assert c.queue == [c.queue[0]] + c.queue[1..];
      }
    case StopStep(i, key) =>
      if i < |c.stoppers| {
        StopLeavesOwed(c, i, key);
      }
    case _ =>
      hide StopMoves, WriterMoves, SendStep;
  }

  lemma CallsSnoc(q: seq<Message>, m: Message)
    ensures Calls(q + [m]) == Calls(q) + [m.call]
  {
  }

  lemma CallsTail(q: seq<Message>)
    requires q != []
    ensures Calls(q) == [q[0].call] + Calls(q[1..])
  {
  }

  lemma PendingIsEnqueued(c: Client, call: nat)
    requires MessageInvariant(c) && Pending(c, call)
    ensures call in c.enqueued
  {
    hide Distinct;
  }

  lemma SendKeeps(c: Client, hasCallback: bool)
    requires StopInvariant(c) && MessageInvariant(c)
    ensures MessageInvariant(SendStep(c, hasCallback))
  {
    var call := c.nextCall;
    var d := SendStep(c, hasCallback);
    if !c.running {
      if hasCallback {
        DistinctSnoc(c.called, call);
        if Pending(c, call) {
          PendingIsEnqueued(c, call);
        }
        assert forall x :: Pending(d, x) <==> Pending(c, x);
      }
    } else if |c.queue| < c.capacity {
      CallsSnoc(c.queue, Message(call, hasCallback));
      DistinctSnoc(c.enqueued, call);
    }
  }

  lemma WriterTakes(c: Client)
    requires MessageInvariant(c) && c.writer == Receiving && c.queue != []
    ensures MessageInvariant(WriterMoves(c))
  {
    var d := WriterMoves(c);
    CallsTail(c.queue);
    assert forall x :: Pending(d, x) <==> Pending(c, x);
  }

  lemma WriterSends(c: Client)
    requires MessageInvariant(c) && c.writer.Sending?
    ensures MessageInvariant(WriterMoves(c))
  {
    var d := WriterMoves(c);
    assert d.sent + InHand(d.writer) + Calls(d.queue) == c.enqueued;
    assert forall x :: Pending(d, x) ==> Pending(c, x);
  }

  lemma ApartInDistinct(a: seq<nat>, b: seq<nat>, x: nat)
    requires Distinct(a + [] + b) && x in a
    ensures x !in b
  {
    var s := a + [] + b;
    var i :| 0 <= i < |a| && a[i] == x;
    assert s[i] == x;
    forall j | 0 <= j < |b|
      ensures b[j] != x
    {
      assert s[|a| + j] == b[j];
    }
  }

  lemma WriterCalls(c: Client)
    requires MessageInvariant(c) && c.writer.Calling?
    ensures MessageInvariant(WriterMoves(c))
  {
    var d := WriterMoves(c);
    var call := c.writer.msg.call;
    assert call in c.enqueued;
    DistinctSnoc(c.called, call);
    ApartInDistinct(c.sent, Calls(c.queue), call);
    assert forall x :: Pending(d, x) <==> x in Calls(c.queue);
    assert d.sent + InHand(d.writer) + Calls(d.queue) == c.enqueued;
  }

  lemma WriterKeeps(c: Client)
    requires MessageInvariant(c)
    ensures MessageInvariant(WriterMoves(c))
  {
    if c.writer == Receiving && c.queue != [] {
      WriterTakes(c);
    } else if c.writer.Sending? {
      WriterSends(c);
    } else if c.writer.Calling? {
      WriterCalls(c);
    } else {
      var d := WriterMoves(c);
      assert forall x :: Pending(d, x) <==> Pending(c, x);
    }
  }

  /** Stopping and registering touch no message. */
  lemma StopLeavesMessages(c: Client, d: Client)
    requires MessageInvariant(c)
    requires d.queue == c.queue && d.capacity == c.capacity && d.enqueued == c.enqueued && d.sent == c.sent
    requires c.closed ==> d.closed
    requires d.called == c.called && d.refused == c.refused && d.writer == c.writer && d.nextCall == c.nextCall
    ensures MessageInvariant(d)
  {
    assert forall x :: Pending(d, x) <==> Pending(c, x);
  }

  lemma MessageStepKeeps(c: Client, e: Event)
    requires StopInvariant(c) && MessageInvariant(c)
    ensures MessageInvariant(Step(c, e))
  {
    hide MessageInvariant, SendStep, WriterMoves;
    match e
    case SendAsync(hasCallback) => SendKeeps(c, hasCallback);
    case WriterStep => WriterKeeps(c);
    case _ =>
      hide StopInvariant;
      StopLeavesMessages(c, Step(c, e));
  }

  // ---------- all runs ----------

  lemma StartKeeps(capacity: nat)
    ensures var c := NewClient(capacity);
            StopInvariant(c) && CallbackInvariant(c) && MessageInvariant(c) && OwedInvariant(c)
  {
  }

  lemma {:induction false} InvariantsHold(capacity: nat, events: seq<Event>)
    ensures var c := Run(capacity, events);
            StopInvariant(c) && CallbackInvariant(c) && MessageInvariant(c) && OwedInvariant(c)
  {
    hide StopInvariant, CallbackInvariant, MessageInvariant, OwedInvariant, Step, NewClient;
    if events == [] {
      StartKeeps(capacity);
    } else {
      var n := |events| - 1;
      var c := Run(capacity, events[..n]);
      InvariantsHold(capacity, events[..n]);
      StopStepKeeps(c, events[n]);
      CallbackStepKeeps(c, events[n]);
      MessageStepKeeps(c, events[n]);
      OwedStepKeeps(c, events[n]);
    }
  }

  /** Under every interleaving: the send channel is closed at most once and never used after; no close callback runs
      twice or before the channel is closed, and when the call that stops the client returns, every callback still
      registered has run; messages are sent in the order in which they were queued, all of them before the writer
      exits; and a `SendAsync` callback runs at most once, never for a call that was refused, and for every enqueued
      call that brought one by the time the writer exits. */
  lemma ConnectionLife(capacity: nat, events: seq<Event>)
    ensures var c := Run(capacity, events);
            && c.closes <= 1 && c.panics == 0 && c.disconnects <= 1
            && Distinct(c.ran) && (c.ran != [] ==> c.closed && !c.running)
            && (0 <= c.winner < |c.stoppers| && c.stoppers[c.winner].pc == Returned ==>
                  forall k <- c.closeCB :: c.closeCB[k] in c.ran)
            && c.sent <= c.enqueued && Distinct(c.enqueued) && (c.writer == Exited ==> c.sent == c.enqueued)
            && Distinct(c.called) && (forall x <- c.called :: x !in c.refused)
            && (forall x <- c.enqueued :: x !in c.refused)
            && (c.writer == Exited ==> forall x <- c.owed :: x in c.called)
  {
    hide Run;
    InvariantsHold(capacity, events);
  }

  // ---------- what each step achieves ----------

  /** The same messages and registrations. */
  predicate SameTraffic(c: Client, d: Client) {
    && d.queue == c.queue && d.capacity == c.capacity && d.writer == c.writer && d.nextCall == c.nextCall
    && d.enqueued == c.enqueued && d.owed == c.owed && d.sent == c.sent && d.called == c.called
    && d.refused == c.refused && d.closeCB == c.closeCB && d.nextCallback == c.nextCallback
  }

  lemma StopTouches(c: Client, i: nat, key: nat)
    requires i < |c.stoppers|
    ensures SameTraffic(c, StopMoves(c, i, key))
  {
    match c.stoppers[i].pc
    case Called =>
    case Stopping(CloseConn) =>
    case Stopping(CloseChan) =>
    case Stopping(ClearChan) =>
    case Stopping(RunCallbacks(done)) =>
    case Stopping(Notify) =>
    case Returned =>
  }

  lemma StepKeepsCapacity(c: Client, e: Event)
    ensures Step(c, e).capacity == c.capacity
  {
    match e
    case StopStep(i, key) =>
      hide StopMoves;
      if i < |c.stoppers| {
        StopTouches(c, i, key);
      }
    case _ =>
      hide StopMoves;
  }

  lemma {:induction false} CapacityStays(capacity: nat, events: seq<Event>)
    ensures Run(capacity, events).capacity == capacity
  {
    if events == [] {
    } else {
      var n := |events| - 1;
      CapacityStays(capacity, events[..n]);
      StepKeepsCapacity(Run(capacity, events[..n]), events[n]);
    }
  }

  lemma RunSnoc(capacity: nat, events: seq<Event>, e: Event)
    ensures Run(capacity, events + [e]) == Step(Run(capacity, events), e)
  {
    hide Step;
    assert (events + [e])[..|events|] == events;
  }

  /** In every reachable state a `SendAsync` has one of three outcomes: while the client runs its message is queued
      behind the others if there is room and refused if there is not, and once the client has stopped its callback is
      called at once. */
  lemma SendOutcome(capacity: nat, events: seq<Event>, hasCallback: bool)
    ensures var c, d := Run(capacity, events), Run(capacity, events + [SendAsync(hasCallback)]);
            var call := c.nextCall;
            && d.nextCall == call + 1 && d.panics == c.panics && d.writer == c.writer && d.sent == c.sent
            && d.running == c.running && d.chSend == c.chSend && d.closed == c.closed && d.stoppers == c.stoppers
            && d.closeCB == c.closeCB && d.ran == c.ran
            && d.enqueued == (if c.running && |c.queue| < capacity then c.enqueued + [call] else c.enqueued)
            && d.queue == (if c.running && |c.queue| < capacity then c.queue + [Message(call, hasCallback)]
                           else c.queue)
            && d.owed == (if c.running && |c.queue| < capacity && hasCallback then c.owed + {call} else c.owed)
            && d.refused == (if c.running && |c.queue| >= capacity then c.refused + {call} else c.refused)
            && d.called == (if !c.running && hasCallback then c.called + [call] else c.called)
            && call !in c.enqueued && call !in c.refused && call !in c.called
  {
    hide Run, CallbackInvariant, OwedInvariant, Distinct, Pending, Calls;
    InvariantsHold(capacity, events);
    CapacityStays(capacity, events);
    RunSnoc(capacity, events, SendAsync(hasCallback));
  }

  function Sends(callbacks: seq<bool>): seq<Event> {
    seq(|callbacks|, i requires 0 <= i < |callbacks| => SendAsync(callbacks[i]))
  }

  function Least(a: nat, b: nat): nat {
    if a <= b then a else b
  }

  lemma RunStarts(capacity: nat)
    ensures Run(capacity, Sends([])) == NewClient(capacity)
  {
  }

  /** Of n calls on a new connection whose writer has not come to run, the first `capacity` are queued in order and the
      others refused. */
  lemma {:induction false} FirstSends(capacity: nat, callbacks: seq<bool>)
    ensures var c := Run(capacity, Sends(callbacks));
            var n := |callbacks|;
            && c.running && c.chSend && c.writer == NotStarted && c.nextCall == n && c.called == [] && c.sent == []
            && c.enqueued == seq(Least(n, capacity), i => i)
            && c.queue == seq(Least(n, capacity), i requires 0 <= i < n => Message(i, callbacks[i]))
            && forall i :: i in c.refused <==> capacity <= i < n
  {
    hide Run;
    var n := |callbacks|;
    if n == 0 {
      RunStarts(capacity);
    } else {
      FirstSends(capacity, callbacks[..n - 1]);
      SendOutcome(capacity, Sends(callbacks[..n - 1]), callbacks[n - 1]);
      assert Sends(callbacks) == Sends(callbacks[..n - 1]) + [SendAsync(callbacks[n - 1])];
      RunSnoc(capacity, Sends(callbacks[..n - 1]), SendAsync(callbacks[n - 1]));
    }
  }

  /** The writer alone, for n of its steps. */
  function WriterTurns(c: Client, n: nat): Client
    decreases n
  {
    if n == 0 then c else WriterTurns(Step(c, WriterStep), n - 1)
  }

  /** The writer has found its channel, or will. */
  predicate Alive(c: Client) {
    match c.writer
    case NotStarted => c.chSend
    case Exited => false
    case NeverRan => false
    case _ => true
  }

  /** The steps to send the messages of q: take, send, and call back. */
  function QueueWork(q: seq<Message>): nat {
    if q == [] then 0 else (if q[0].hasCallback then 3 else 2) + QueueWork(q[1..])
  }

  function HandWork(w: WriterPc): nat {
    match w
    case NotStarted => 1
    case Sending(m) => if m.hasCallback then 2 else 1
    case Calling(_) => 1
    case _ => 0
  }

  /** The callbacks still to run, in order. */
  function QueueCallbacks(q: seq<Message>): seq<nat> {
    if q == [] then [] else (if q[0].hasCallback then [q[0].call] else []) + QueueCallbacks(q[1..])
  }

  function HandCallbacks(w: WriterPc): seq<nat> {
    if (w.Sending? && w.msg.hasCallback) || w.Calling? then [w.msg.call] else []
  }

  lemma CallbacksTail(q: seq<Message>)
    requires q != []
    ensures QueueCallbacks(q) == (if q[0].hasCallback then [q[0].call] else []) + QueueCallbacks(q[1..])
    ensures QueueWork(q) == (if q[0].hasCallback then 3 else 2) + QueueWork(q[1..])
  {
  }

  lemma NoWork(c: Client)
    ensures QueueWork(c.queue) == 0 <==> c.queue == []
    ensures Calls([]) == [] && QueueCallbacks([]) == []
  {
  }

  lemma WriterTurn(c: Client)
    requires Alive(c) && HandWork(c.writer) + QueueWork(c.queue) > 0
    ensures var e := Step(c, WriterStep);
            && Alive(e)
            && HandWork(e.writer) + QueueWork(e.queue) == HandWork(c.writer) + QueueWork(c.queue) - 1
            && e.sent + InHand(e.writer) + Calls(e.queue) == c.sent + InHand(c.writer) + Calls(c.queue)
            && e.called + HandCallbacks(e.writer) + QueueCallbacks(e.queue)
               == c.called + HandCallbacks(c.writer) + QueueCallbacks(c.queue)
            && e == c.(writer := e.writer, queue := e.queue, sent := e.sent, called := e.called)
  {
    hide Calls, QueueWork, QueueCallbacks;
    if c.writer == Receiving {
      NoWork(c);
      CallsTail(c.queue);
      CallbacksTail(c.queue);
    }
  }

  lemma WriterWaits(c: Client)
    requires c.writer == Receiving && c.queue == []
    ensures Step(c, WriterStep) == if c.closed then c.(writer := Exited) else c
  {
  }

  /** Left alone, a writer sends what it holds and then the whole queue in order, runs the callback of
      each message that brought one, changes nothing else, and exits if the channel is closed. */
  lemma {:induction false} WriterDrains(c: Client, n: nat)
    requires Alive(c) && n == HandWork(c.writer) + QueueWork(c.queue)
    ensures var d := c.(
              writer := Receiving, queue := [], sent := c.sent + InHand(c.writer) + Calls(c.queue),
              called := c.called + HandCallbacks(c.writer) + QueueCallbacks(c.queue));
            && WriterTurns(c, n) == d
            && Step(d, WriterStep) == if c.closed then d.(writer := Exited) else d
    decreases n
  {
    hide Calls, QueueWork, QueueCallbacks, Step;
    if n > 0 {
      WriterTurn(c);
      WriterDrains(Step(c, WriterStep), n - 1);
    } else {
      NoWork(c);
      WriterWaits(c);
      assert c.sent + [] + [] == c.sent && c.called + [] + [] == c.called;
    }
  }

  lemma {:induction false} QueuedCallback(q: seq<Message>, call: nat)
    requires Message(call, true) in q
    ensures call in QueueCallbacks(q)
  {
    if q[0] != Message(call, true) {
      assert q == [q[0]] + q[1..];
      QueuedCallback(q[1..], call);
    }
  }

  /** So in every reachable state a writer that has its channel needs only its own steps to send everything queued so
      far and to run every callback owed. */
  lemma WriterSendsAll(capacity: nat, events: seq<Event>)
    requires Alive(Run(capacity, events))
    ensures var c := Run(capacity, events);
            var d := WriterTurns(c, HandWork(c.writer) + QueueWork(c.queue));
            && d.sent == d.enqueued == c.enqueued && d.queue == [] && d.writer == Receiving
            && forall x <- c.owed :: x in d.called
  {
    hide Run, StopInvariant, CallbackInvariant, Calls, Distinct, Step, WriterTurns, QueueCallbacks, QueueWork;
    var c := Run(capacity, events);
    InvariantsHold(capacity, events);
    WriterDrains(c, HandWork(c.writer) + QueueWork(c.queue));
    forall x <- c.owed | Message(x, true) in c.queue
      ensures x in QueueCallbacks(c.queue)
    {
      QueuedCallback(c.queue, x);
    }
  }

  // ---------- a stop that runs to its end ----------

  /** A key that the range over the callbacks may yield next. */
  ghost function NextKey(closeCB: map<nat, nat>, pc: StopPc): (key: nat)
    ensures closeCB.Keys <= DoneKeys(pc) || (key in closeCB && key !in DoneKeys(pc))
  {
    if k :| k in closeCB && k !in DoneKeys(pc) then k else 0
  }

  /** The statements that a stopping call has still to do. */
  function StopWork(closeCB: map<nat, nat>, pc: StopPc): nat {
    match pc
    case Called => |closeCB| + 7
    case Stopping(CloseConn) => |closeCB| + 6
    case Stopping(CloseChan) => |closeCB| + 5
    case Stopping(ClearChan) => |closeCB| + 4
    case Stopping(RunCallbacks(done)) => |closeCB.Keys - done| + 2
    case Stopping(Notify) => 1
    case Returned => 0
  }

  /** One statement of the call i while nothing else moves. */
  ghost function StopAlone(c: Client, i: nat): Client
    requires i < |c.stoppers|
  {
    Step(c, StopStep(i, NextKey(c.closeCB, c.stoppers[i].pc)))
  }

  lemma RunsNext(closeCB: map<nat, nat>, done: set<nat>, key: nat)
    requires key in closeCB && key !in done
    ensures |closeCB.Keys - (done + {key})| < |closeCB.Keys - done|
  {
    assert closeCB.Keys - (done + {key}) == closeCB.Keys - done - {key};
  }

  /** Where the statement at pc leads, when the range over the callbacks yields key. */
  predicate LeadsTo(closeCB: map<nat, nat>, pc: StopPc, key: nat, next: StopPc) {
    match pc
    case Called => next == Stopping(CloseConn) || next == Returned
    case Stopping(CloseConn) => next == Stopping(CloseChan) || next == Stopping(RunCallbacks({}))
    case Stopping(CloseChan) => next == Stopping(ClearChan)
    case Stopping(ClearChan) => next == Stopping(RunCallbacks({}))
    case Stopping(RunCallbacks(done)) =>
      if key in closeCB && key !in done then next == Stopping(RunCallbacks(done + {key}))
      else closeCB.Keys <= done ==> next == Stopping(Notify) || next == Returned
    case _ => next == Returned
  }

  lemma StopLeads(c: Client, i: nat, key: nat)
    requires i < |c.stoppers|
    ensures var d := StopMoves(c, i, key);
            |d.stoppers| == |c.stoppers| && d.closeCB == c.closeCB
            && LeadsTo(c.closeCB, c.stoppers[i].pc, key, d.stoppers[i].pc)
  {
    match c.stoppers[i].pc
    case Called =>
    case Stopping(CloseConn) =>
    case Stopping(CloseChan) =>
    case Stopping(ClearChan) =>
    case Stopping(RunCallbacks(done)) =>
    case Stopping(Notify) =>
    case Returned =>
  }

  lemma WorkShrinks(closeCB: map<nat, nat>, pc: StopPc, key: nat, next: StopPc)
    requires pc != Returned && LeadsTo(closeCB, pc, key, next)
    requires closeCB.Keys <= DoneKeys(pc) || (key in closeCB && key !in DoneKeys(pc))
    ensures StopWork(closeCB, next) < StopWork(closeCB, pc)
  {
    if pc.Stopping? && pc.stage.RunCallbacks? {
      if key in closeCB && key !in pc.stage.done {
        RunsNext(closeCB, pc.stage.done, key);
      }
    } else {
      assert closeCB.Keys - {} == closeCB.Keys && |closeCB.Keys| == |closeCB|;
    }
  }

  lemma StopWorks(c: Client, i: nat)
    requires i < |c.stoppers| && c.stoppers[i].pc != Returned
    ensures var d := StopAlone(c, i);
            && |d.stoppers| == |c.stoppers| && d.closeCB == c.closeCB
            && StopWork(d.closeCB, d.stoppers[i].pc) < StopWork(c.closeCB, c.stoppers[i].pc)
  {
    hide StopMoves, NextKey, StopWork, LeadsTo;
    var pc := c.stoppers[i].pc;
    var key := NextKey(c.closeCB, pc);
    StopLeads(c, i, key);
    WorkShrinks(c.closeCB, pc, key, StopAlone(c, i).stoppers[i].pc);
  }

  /** The run of one `Stop` or `StopAsync` while nothing else moves. */
  ghost function ToEnd(c: Client, i: nat): Client
    requires i < |c.stoppers|
    decreases StopWork(c.closeCB, c.stoppers[i].pc)
  {
    if c.stoppers[i].pc == Returned then c else
    StopWorks(c, i);
    ToEnd(StopAlone(c, i), i)
  }

  lemma StopTouchesOne(c: Client, i: nat, key: nat)
    requires i < |c.stoppers|
    ensures var d := StopMoves(c, i, key);
            && |d.stoppers| == |c.stoppers|
            && d.stoppers == c.stoppers[i := c.stoppers[i].(pc := d.stoppers[i].pc)]
            && (c.stoppers[i].pc != Called ==> d.running == c.running && d.winner == c.winner)
            && (forall x <- d.ran :: x in c.ran || x in c.closeCB.Values)
  {
    match c.stoppers[i].pc
    case Called =>
    case Stopping(CloseConn) =>
    case Stopping(CloseChan) =>
    case Stopping(ClearChan) =>
    case Stopping(RunCallbacks(done)) =>
    case Stopping(Notify) =>
    case Returned =>
  }

  /** What the call that stops the client has brought about when it returns. */
  ghost predicate Ended(c: Client, i: nat, d: Client) {
    && i < |c.stoppers|
    && SameTraffic(c, d)
    && d.stoppers == c.stoppers[i := c.stoppers[i].(pc := Returned)]
    && d.running == c.running && d.winner == c.winner
    && (forall x <- d.ran :: x in c.ran || x in c.closeCB.Values)
  }

  lemma {:induction false} StoppingEnds(c: Client, i: nat)
    requires i < |c.stoppers| && StopInvariant(c) && CallbackInvariant(c) && c.stoppers[i].pc != Called
    ensures var d := ToEnd(c, i);
            Ended(c, i, d) && StopInvariant(d) && CallbackInvariant(d)
    decreases StopWork(c.closeCB, c.stoppers[i].pc)
  {
    hide StopInvariant, CallbackInvariant, StopMoves, StopWork;
    if c.stoppers[i].pc == Returned {
      assert c.stoppers[i].(pc := Returned) == c.stoppers[i];
    } else {
      var key := NextKey(c.closeCB, c.stoppers[i].pc);
      var e := StopAlone(c, i);
      StopWorks(c, i);
      StopTouches(c, i, key);
      StopTouchesOne(c, i, key);
      StopStepKeeps(c, StopStep(i, key));
      CallbackStepKeeps(c, StopStep(i, key));
      StopLeads(c, i, key);
      StoppingEnds(e, i);
    }
  }

  lemma FirstStatement(c: Client, i: nat)
    requires i < |c.stoppers| && c.stoppers[i].pc == Called
    ensures ToEnd(c, i) ==
              if c.running then ToEnd(AtStage(c.(running := false, winner := i), i, Stopping(CloseConn)), i)
              else AtStage(c, i, Returned)
  {
    StopWorks(c, i);
  }

  lemma NothingRanYet(c: Client)
    requires StopInvariant(c) && CallbackInvariant(c) && c.running
    ensures c.ran == [] && c.chSend && !c.closed
  {
  }

  lemma TakesFlag(c: Client, i: nat)
    requires i < |c.stoppers| && c.stoppers[i].pc == Called && c.running
    requires StopInvariant(c) && CallbackInvariant(c)
    ensures var d := AtStage(c.(running := false, winner := i), i, Stopping(CloseConn));
            StopInvariant(d) && CallbackInvariant(d) && c.ran == []
  {
    hide StopInvariant, CallbackInvariant;
    StopStepKeeps(c, StopStep(i, 0));
    CallbackStepKeeps(c, StopStep(i, 0));
    NothingRanYet(c);
  }

  lemma EndedIs(c: Client, i: nat, d: Client)
    requires StopInvariant(d) && CallbackInvariant(d) && c.winner == i && Ended(c, i, d) && c.ran == []
    ensures && d.closed && d.closes == 1 && !d.chSend && d.panics == 0 && !d.running
            && d.disconnects == (if c.stoppers[i].kind == Sync then 1 else 0)
            && Distinct(d.ran) && (forall x :: x in d.ran <==> x in c.closeCB.Values)
  {
    hide Distinct;
    assert WinnerPc(d) == Returned;
    assert forall k <- d.closeCB :: HasRun(Returned, k);
  }

  /** From every reachable state a `Stop` or `StopAsync` that runs to its end leaves the client stopped. If the client
      was running, this call closes the channel, takes it away, runs each registered callback once and no other, and
      reports the end of the connection when it is `Stop`; if it was not, the call does nothing. */
  lemma StopStops(capacity: nat, events: seq<Event>, kind: StopKind)
    ensures var c := Run(capacity, events);
            var i := |c.stoppers|;
            var d := ToEnd(Step(c, CallStop(kind)), i);
            && |d.stoppers| == i + 1 && d.stoppers == c.stoppers + [Stopper(kind, Returned)] && !d.running
            && if !c.running then d == c.(stoppers := d.stoppers) else
               && d.closed && d.closes == 1 && !d.chSend && d.panics == 0
               && d.disconnects == (if kind == Sync then 1 else 0)
               && Distinct(d.ran) && (forall x :: x in d.ran <==> x in c.closeCB.Values)
               && d == c.(running := false, winner := i, stoppers := d.stoppers, closed := true, closes := 1,
                          chSend := false, ran := d.ran, disconnects := d.disconnects)
  {
    hide Run, ToEnd, StopWork, StopMoves, StopInvariant, CallbackInvariant, MessageInvariant, OwedInvariant, Distinct;
    InvariantsHold(capacity, events);
    var c := Run(capacity, events);
    var e := Step(c, CallStop(kind));
    var i := |c.stoppers|;
    StopStepKeeps(c, CallStop(kind));
    CallbackStepKeeps(c, CallStop(kind));
    FirstStatement(e, i);
    if c.running {
      TakesFlag(e, i);
      var f := AtStage(e.(running := false, winner := i), i, Stopping(CloseConn));
      StoppingEnds(f, i);
      EndedIs(f, i, ToEnd(f, i));
    }
  }

  /** A callback added while the client runs is run by the stop, and the one it replaces is not; after the client has
      stopped nothing is added. */
  lemma AddedIsRun(capacity: nat, events: seq<Event>, key: nat, kind: StopKind)
    ensures var c, e := Run(capacity, events), Run(capacity, events + [AddCloseCB(key)]);
            var d := ToEnd(Step(e, CallStop(kind)), |e.stoppers|);
            if !c.running then e == c else
            && (forall x :: x in d.ran <==>
                  x == c.nextCallback || exists k <- c.closeCB :: k != key && c.closeCB[k] == x)
            && (key in c.closeCB ==> c.closeCB[key] !in d.ran)
  {
    hide Run, ToEnd, StopInvariant, MessageInvariant, OwedInvariant, Distinct;
    var c := Run(capacity, events);
    InvariantsHold(capacity, events);
    RunSnoc(capacity, events, AddCloseCB(key));
    StopStops(capacity, events + [AddCloseCB(key)], kind);
    if c.running {
      var e := Run(capacity, events + [AddCloseCB(key)]);
      assert e.closeCB == c.closeCB[key := c.nextCallback];
      assert e.closeCB[key] == c.nextCallback;
      assert forall k <- c.closeCB :: k != key ==> e.closeCB[k] == c.closeCB[k];
    }
  }

  /** A callback that is removed is not run; the others are. */
  lemma RemovedIsNotRun(capacity: nat, events: seq<Event>, key: nat, kind: StopKind)
    requires Run(capacity, events).running
    ensures var c, e := Run(capacity, events), Run(capacity, events + [RemoveCloseCB(key)]);
            var d := ToEnd(Step(e, CallStop(kind)), |e.stoppers|);
            && (forall x :: x in d.ran <==> exists k <- c.closeCB :: k != key && c.closeCB[k] == x)
            && (key in c.closeCB ==> c.closeCB[key] !in d.ran)
  {
    hide Run, ToEnd, StopInvariant, MessageInvariant, OwedInvariant, Distinct;
    InvariantsHold(capacity, events);
    RunSnoc(capacity, events, RemoveCloseCB(key));
    StopStops(capacity, events + [RemoveCloseCB(key)], kind);
    var c, e := Run(capacity, events), Run(capacity, events + [RemoveCloseCB(key)]);
    assert forall k <- c.closeCB :: k != key ==> k in e.closeCB && e.closeCB[k] == c.closeCB[k];
  }
}
