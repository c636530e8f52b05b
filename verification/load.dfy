/** Load accounting of the server: one accept loop, and any number of connections that stop when they like. */
module Load {
  /** `atomic.AddInt32` wraps. */
  function Int32(n: int): int {
    (n + 0x8000_0000) % 0x1_0000_0000 - 0x8000_0000
  }

  /** A connection: its Running flag, whether `deleClient` is among its close callbacks, whether its stop has yet to
      run it, and how often it has run. */
  datatype Conn = Conn(running: bool, registered: bool, due: bool, runs: nat)

  /** The accept loop: between two connections, past the load check, past `Start`, past `addClient`. */
  datatype Accepting = Idle | Checked | Started(id: nat) | Added(id: nat)

  datatype Server = Server(
    clients: set<nat>, currLoad: int, maxLoad: int, accepting: Accepting, conns: map<nat, Conn>, nextId: nat)

  datatype Event =
    | Accept                 // a connection arrives and the load is checked
    | Start(ok: bool)        // the client is made and started
    | AddClient
    | AddCloseCB
    | Stops(id: nat)         // the call that finds the client running takes the flag
    | RunCallback(id: nat)   // and later runs `deleClient`

  function Step(s: Server, e: Event): Server {
    match e
    case Accept =>
      if s.accepting == Idle && (s.maxLoad <= 0 || s.currLoad < s.maxLoad) then s.(accepting := Checked) else s
    case Start(ok) =>
      if s.accepting != Checked then s
      else if !ok then s.(accepting := Idle)
      else s.(accepting := Started(s.nextId), nextId := s.nextId + 1,
              conns := s.conns[s.nextId := Conn(true, false, false, 0)])
    case AddClient =>
      if !s.accepting.Started? then s else
      s.(accepting := Added(s.accepting.id), clients := s.clients + {s.accepting.id}, currLoad := Int32(s.currLoad + 1))
    case AddCloseCB =>
      if !s.accepting.Added? || s.accepting.id !in s.conns then s else
      var conn := s.conns[s.accepting.id];
      s.(accepting := Idle, conns := s.conns[s.accepting.id := conn.(registered := conn.registered || conn.running)])
    case Stops(id) =>
      if id !in s.conns || !s.conns[id].running then s else
      s.(conns := s.conns[id := s.conns[id].(running := false, due := s.conns[id].registered)])
    case RunCallback(id) =>
      if id !in s.conns || !s.conns[id].due then s else
      s.(conns := s.conns[id := s.conns[id].(due := false, runs := s.conns[id].runs + 1)],
         clients := s.clients - {id}, currLoad := Int32(s.currLoad - 1))
  }

  function Run(maxLoad: int, events: seq<Event>): Server {
    if events == [] then Server({}, 0, maxLoad, Idle, map[], 0)
    else Step(Run(maxLoad, events[..|events| - 1]), events[|events| - 1])
  }

  /** `deleClient` is still to run, now or when the connection stops. */
  predicate WillLeave(conn: Conn) {
    conn.registered && (conn.running || conn.due)
  }

  ghost predicate Invariant(s: Server) {
    && s.currLoad == Int32(|s.clients|)
    && (forall id <- s.conns :: id < s.nextId)
    && (forall id <- s.clients :: id in s.conns)
    && (forall id <- s.conns :: WillLeave(s.conns[id]) ==> id in s.clients && s.conns[id].runs == 0)
    && (forall id <- s.conns :: s.conns[id].due ==> WillLeave(s.conns[id]) && !s.conns[id].running)
    && (forall id <- s.conns ::
          s.conns[id].runs <= 1 && (s.conns[id].runs == 1 ==> s.conns[id].registered && id !in s.clients))
    && (forall id <- s.conns :: !s.conns[id].registered ==> s.conns[id].runs == 0)
    && (s.accepting.Started? ==> s.accepting.id in s.conns && s.accepting.id !in s.clients
                                 && !s.conns[s.accepting.id].registered)
    && (s.accepting.Added? ==> s.accepting.id in s.clients && !s.conns[s.accepting.id].registered)
    && (0 < s.maxLoad ==> |s.clients| <= s.maxLoad)
    && (0 < s.maxLoad && (s.accepting == Checked || s.accepting.Started?) ==> |s.clients| < s.maxLoad)
  }

  lemma Int32Is(n: int)
    ensures -0x8000_0000 <= Int32(n) < 0x8000_0000 && (n - Int32(n)) % 0x1_0000_0000 == 0
  {
    var m := n + 0x8000_0000;
    assert n - Int32(n) == m - m % 0x1_0000_0000 == 0x1_0000_0000 * (m / 0x1_0000_0000);
  }

  lemma Int32Small(n: nat)
    requires n < 0x8000_0000
    ensures Int32(n) == n
  {
  }

  lemma Int32Next(n: int)
    ensures Int32(Int32(n) + 1) == Int32(n + 1) && Int32(Int32(n) - 1) == Int32(n - 1)
  {
  }

  lemma AcceptKeeps(s: Server)
    requires Invariant(s) && s.maxLoad < 0x8000_0000
    ensures Invariant(Step(s, Accept))
  {
    if 0 < s.maxLoad {
      Int32Small(|s.clients|);
    }
    hide Int32;
  }

  lemma StartKeeps(s: Server, ok: bool)
    requires Invariant(s)
    ensures Invariant(Step(s, Start(ok)))
  {
    hide Int32;
  }

  lemma AddClientKeeps(s: Server)
    requires Invariant(s)
    ensures Invariant(Step(s, AddClient))
  {
    hide Int32;
    Int32Next(|s.clients|);
  }

  lemma AddCloseCBKeeps(s: Server)
    requires Invariant(s)
    ensures Invariant(Step(s, AddCloseCB))
  {
    hide Int32;
  }

  lemma StopsKeeps(s: Server, id: nat)
    requires Invariant(s)
    ensures Invariant(Step(s, Stops(id)))
  {
    hide Int32;
  }

  lemma RunCallbackKeeps(s: Server, id: nat)
    requires Invariant(s)
    ensures Invariant(Step(s, RunCallback(id)))
  {
    hide Int32;
    Int32Next(|s.clients|);
    if id in s.conns && s.conns[id].due {
      assert |s.clients - {id}| == |s.clients| - 1;
    }
  }

  lemma StepKeeps(s: Server, e: Event)
    requires Invariant(s) && s.maxLoad < 0x8000_0000
    ensures Invariant(Step(s, e))
  {
    hide Invariant, Step;
    match e
    case Accept => AcceptKeeps(s);
    case Start(ok) => StartKeeps(s, ok);
    case AddClient => AddClientKeeps(s);
    case AddCloseCB => AddCloseCBKeeps(s);
    case Stops(id) => StopsKeeps(s, id);
    case RunCallback(id) => RunCallbackKeeps(s, id);
  }

  lemma NothingAccepted(maxLoad: int)
    ensures Invariant(Server({}, 0, maxLoad, Idle, map[], 0))
  {
  }

  lemma {:induction false} InvariantHolds(maxLoad: int, events: seq<Event>)
    requires maxLoad < 0x8000_0000
    ensures Invariant(Run(maxLoad, events)) && Run(maxLoad, events).maxLoad == maxLoad
  {
    hide Invariant;
    if events == [] {
      NothingAccepted(maxLoad);
    } else {
      var n := |events| - 1;
      InvariantHolds(maxLoad, events[..n]);
      StepKeeps(Run(maxLoad, events[..n]), events[n]);
    }
  }

  /** In every reachable state the counter is the number of listed clients, in 32 bits; with a positive limit it is
      exact and never above the limit; `deleClient` runs at most once for a connection. */
  lemma LoadIsAccounted(maxLoad: int, events: seq<Event>)
    requires maxLoad < 0x8000_0000
    ensures var s := Run(maxLoad, events);
            && s.currLoad == Int32(|s.clients|)
            && (0 < maxLoad ==> s.currLoad == |s.clients| <= maxLoad)
            && forall id <- s.conns :: s.conns[id].runs <= 1
  {
    hide Run;
    InvariantHolds(maxLoad, events);
    if 0 < maxLoad {
      Int32Small(|Run(maxLoad, events).clients|);
    }
  }

  // ---------- admission ----------

  /** A connection that arrives and is left alone until the loop waits for the next one. */
  function Arrival(ok: bool): seq<Event> {
    [Accept, Start(ok), AddClient, AddCloseCB]
  }

  function RunFrom(s: Server, events: seq<Event>): Server
    decreases |events|
  {
    if events == [] then s else RunFrom(Step(s, events[0]), events[1..])
  }

  lemma {:induction false} RunSplits(maxLoad: int, events: seq<Event>, more: seq<Event>)
    ensures Run(maxLoad, events + more) == RunFrom(Run(maxLoad, events), more)
    decreases |more|
  {
    hide Step;
    if more == [] {
      assert events + more == events;
    } else {
      assert (events + [more[0]])[..|events|] == events;
      assert events + more == events + [more[0]] + more[1..];
      RunSplits(maxLoad, events + [more[0]], more[1..]);
    }
  }

  lemma OneEvent(s: Server, e: Event, more: seq<Event>)
    ensures RunFrom(s, [e] + more) == RunFrom(Step(s, e), more)
  {
    hide Step;
    assert ([e] + more)[1..] == more;
  }

  lemma NoEvent(s: Server)
    ensures RunFrom(s, []) == s
  {
  }

  lemma FourEvents(s: Server, a: Event, b: Event, c: Event, d: Event)
    ensures RunFrom(s, [a, b, c, d]) == Step(Step(Step(Step(s, a), b), c), d)
  {
    hide Step, RunFrom;
    assert [a, b, c, d] == [a] + ([b] + ([c] + ([d] + [])));
    OneEvent(s, a, [b] + ([c] + ([d] + [])));
    OneEvent(Step(s, a), b, [c] + ([d] + []));
    OneEvent(Step(Step(s, a), b), c, [d] + []);
    OneEvent(Step(Step(Step(s, a), b), c), d, []);
    NoEvent(Step(Step(Step(Step(s, a), b), c), d));
  }

  lemma TwoEvents(s: Server, a: Event, b: Event)
    ensures RunFrom(s, [a, b]) == Step(Step(s, a), b)
  {
    hide Step, RunFrom;
    assert [a, b] == [a] + ([b] + []);
    OneEvent(s, a, [b] + []);
    OneEvent(Step(s, a), b, []);
    NoEvent(Step(Step(s, a), b));
  }

  lemma Admitted(s: Server)
    requires s.accepting == Idle && (s.maxLoad <= 0 || s.currLoad < s.maxLoad)
    ensures Step(Step(Step(Step(s, Accept), Start(true)), AddClient), AddCloseCB) ==
              Server(s.clients + {s.nextId}, Int32(s.currLoad + 1), s.maxLoad, Idle,
                     s.conns[s.nextId := Conn(true, true, false, 0)], s.nextId + 1)
  {
    hide Int32;
    var id := s.nextId;
    var started := Step(Step(s, Accept), Start(true));
    assert started == s.(accepting := Started(id), nextId := id + 1,
                         conns := s.conns[id := Conn(true, false, false, 0)]);
    var added := Step(started, AddClient);
    assert added.conns[id] == Conn(true, false, false, 0);
    assert added.conns[id := Conn(true, true, false, 0)] == s.conns[id := Conn(true, true, false, 0)];
  }

  /** A waiting loop lists a connection that starts, with `deleClient` among its callbacks, exactly when there is no
      limit or the counter is below it; a connection that is over the limit or does not start leaves no trace. */
  lemma ArrivalIs(s: Server, ok: bool)
    requires s.accepting == Idle
    ensures RunFrom(s, Arrival(ok)) ==
              if ok && (s.maxLoad <= 0 || s.currLoad < s.maxLoad) then
                Server(s.clients + {s.nextId}, Int32(s.currLoad + 1), s.maxLoad, Idle,
                       s.conns[s.nextId := Conn(true, true, false, 0)], s.nextId + 1)
              else s
  {
    hide Int32;
    FourEvents(s, Accept, Start(ok), AddClient, AddCloseCB);
    hide RunFrom;
    if ok && (s.maxLoad <= 0 || s.currLoad < s.maxLoad) {
      Admitted(s);
    }
  }

  lemma RunStarts(maxLoad: int)
    ensures Run(maxLoad, []) == Server({}, 0, maxLoad, Idle, map[], 0)
  {
  }

  function Arrivals(n: nat): seq<Event> {
    if n == 0 then [] else Arrivals(n - 1) + Arrival(true)
  }

  /** Of n connections that arrive one after the other and stay, all are listed when there is no limit, and otherwise
      the first maxLoad. */
  lemma {:induction false} ArrivalsAreListed(maxLoad: int, n: nat)
    requires maxLoad < 0x8000_0000
    ensures var s := Run(maxLoad, Arrivals(n));
            var listed := if 0 < maxLoad < n then maxLoad else n;
            && s.accepting == Idle && s.nextId == listed
            && forall id: nat :: id in s.clients <==> id < listed
    ensures |Run(maxLoad, Arrivals(n)).clients| == if 0 < maxLoad < n then maxLoad else n
  {
    hide Step, Run, Invariant, Arrival;
    if n == 0 {
      RunStarts(maxLoad);
    } else {
      ArrivalsAreListed(maxLoad, n - 1);
      var s := Run(maxLoad, Arrivals(n - 1));
      RunSplits(maxLoad, Arrivals(n - 1), Arrival(true));
      ArrivalIs(s, true);
      InvariantHolds(maxLoad, Arrivals(n - 1));
      LoadIsAccounted(maxLoad, Arrivals(n - 1));
    }
  }

  // ---------- leaving ----------

  /** Listed, stopped, and without `deleClient` among its callbacks. */
  predicate Stranded(s: Server, id: nat) {
    id in s.clients && id in s.conns && !s.conns[id].running && !s.conns[id].registered
  }

  /** Only the connection the loop is busy with runs unregistered, and a registered one that is stopped and done has
      had its one run. */
  ghost predicate LeavingInvariant(s: Server) {
    && (forall id <- s.conns :: s.conns[id].running && !s.conns[id].registered ==>
          s.accepting == Started(id) || s.accepting == Added(id))
    && (forall id <- s.conns :: s.conns[id].registered && !WillLeave(s.conns[id]) ==> s.conns[id].runs == 1)
  }

  lemma LeavingStep(s: Server, e: Event)
    requires Invariant(s) && LeavingInvariant(s)
    ensures LeavingInvariant(Step(s, e))
  {
    hide Int32;
  }

  lemma NothingLeaves(maxLoad: int)
    ensures LeavingInvariant(Server({}, 0, maxLoad, Idle, map[], 0))
  {
  }

  lemma {:induction false} LeavingHolds(maxLoad: int, events: seq<Event>)
    requires maxLoad < 0x8000_0000
    ensures LeavingInvariant(Run(maxLoad, events))
  {
    hide Invariant, LeavingInvariant, Step;
    if events == [] {
      assert LeavingInvariant(Server({}, 0, maxLoad, Idle, map[], 0)) by {
        NothingLeaves(maxLoad);
      }
    } else {
      var n := |events| - 1;
      InvariantHolds(maxLoad, events[..n]);
      LeavingHolds(maxLoad, events[..n]);
      LeavingStep(Run(maxLoad, events[..n]), events[n]);
    }
  }

  lemma StrandedStep(s: Server, e: Event, id: nat)
    requires Invariant(s) && Stranded(s, id)
    ensures Stranded(Step(s, e), id)
  {
    hide Int32;
  }

  lemma MaxLoadStays(s: Server, e: Event)
    ensures Step(s, e).maxLoad == s.maxLoad
  {
    hide Int32;
  }

  lemma {:induction false} StrandedStays(s: Server, more: seq<Event>, id: nat)
    requires Invariant(s) && Stranded(s, id) && s.maxLoad < 0x8000_0000
    ensures Stranded(RunFrom(s, more), id)
    decreases |more|
  {
    hide Invariant, Stranded;
    if more != [] {
      StepKeeps(s, more[0]);
      StrandedStep(s, more[0], id);
      MaxLoadStays(s, more[0]);
      StrandedStays(Step(s, more[0]), more[1..], id);
    }
  }

  /** A connection that is going to leave does, when it stops and its callback runs, and takes itself off the list and
      the counter. */
  lemma Leaves(s: Server, id: nat)
    requires Invariant(s) && id in s.conns && WillLeave(s.conns[id])
    ensures var t := RunFrom(s, [Stops(id), RunCallback(id)]);
            && t.clients == s.clients - {id} && t.currLoad == Int32(s.currLoad - 1) && id in s.clients
            && t.conns == s.conns[id := Conn(false, true, false, 1)] && t.accepting == s.accepting
  {
    hide Int32;
    TwoEvents(s, Stops(id), RunCallback(id));
  }

  /** In every reachable state in which the loop waits, a listed connection can still get off the list exactly when it
      was running as `AddCloseCB` was called. One that stopped before, between its `Start` and that call, stays listed
      and counted whatever happens. */
  lemma ListedLeavesIff(maxLoad: int, events: seq<Event>, id: nat)
    requires maxLoad < 0x8000_0000 && Run(maxLoad, events).accepting == Idle && id in Run(maxLoad, events).clients
    ensures var s := Run(maxLoad, events);
            && id in s.conns
            && (s.conns[id].registered <==> WillLeave(s.conns[id]))
            && (s.conns[id].registered <==> !Stranded(s, id))
            && (s.conns[id].registered <==> exists more :: id !in Run(maxLoad, events + more).clients)
  {
    hide Run, RunFrom;
    var s := Run(maxLoad, events);
    InvariantHolds(maxLoad, events);
    LeavingHolds(maxLoad, events);
    if s.conns[id].registered {
      RunSplits(maxLoad, events, [Stops(id), RunCallback(id)]);
      Leaves(s, id);
    } else {
      forall more
        ensures id in Run(maxLoad, events + more).clients
      {
        RunSplits(maxLoad, events, more);
        StrandedStays(s, more, id);
      }
    }
  }

  /** And that happens: the connection stops before the loop has added its callback. */
  lemma StopsTooSoon(maxLoad: int, events: seq<Event>, more: seq<Event>)
    requires maxLoad < 0x8000_0000 && Run(maxLoad, events).accepting.Added?
    ensures var id := Run(maxLoad, events).accepting.id;
            id in Run(maxLoad, events + [Stops(id), AddCloseCB] + more).clients
  {
    hide Run, RunFrom, Int32;
    var s := Run(maxLoad, events);
    var id := s.accepting.id;
    InvariantHolds(maxLoad, events);
    InvariantHolds(maxLoad, events + [Stops(id)]);
    RunSplits(maxLoad, events, [Stops(id)]);
    assert [Stops(id)] == [Stops(id)] + [];
    OneEvent(s, Stops(id), []);
    NoEvent(Step(s, Stops(id)));
    assert events + [Stops(id), AddCloseCB] + more == events + [Stops(id)] + ([AddCloseCB] + more);
    RunSplits(maxLoad, events + [Stops(id)], [AddCloseCB] + more);
    StrandedStays(Run(maxLoad, events + [Stops(id)]), [AddCloseCB] + more, id);
  }
}
