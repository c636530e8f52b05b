/** Whole runs of a timer: any interleaving of its operations with the firing of its signal. */
module TimerRuns {
  import opened HeapOrder
  import opened TimerHeap

  /** One step of a run. Handles are named by the order in which they were made; a step that is not due changes
      nothing. `DoTick` is the signal going off with nothing between that and the pop. */
  datatype Op =
    | DoOnce(timeout: int)
    | DoSchedule(delay: int, interval: int)
    | DoDelete(handle: nat)
    | DoReset(handle: nat, delay: int)
    | DoGoOff
    | DoTake
    | DoFire
    | DoTick
    | DoCall
    | DoFinish

  /** A timer from outside: what is queued and when it expires, the signal, its channel, and the goroutine. */
  datatype View = View(queued: map<TimeItem, int>, signal: Signal, channel: Channel, phase: Phase)

  ghost function ViewOf(timer: Timer): View
    reads timer, timer.timers
  {
    View(map t | t in timer.Items() :: t.expire, timer.signal, timer.channel, timer.phase)
  }

  ghost predicate Least(queued: map<TimeItem, int>, item: TimeItem) {
    item in queued && forall t <- queued :: queued[item] <= queued[t]
  }

  /** Adding an item sets the signal for it if it is now the only least one, and not if it is not a least one. */
  ghost predicate MakesItem(v: View, w: View, item: TimeItem, expire: int) {
    && item !in v.queued && w.queued == v.queued[item := expire]
    && w.channel == v.channel && w.phase == v.phase
    && (w.signal == v.signal || (w.signal == At(expire) && Least(w.queued, item)))
    && ((forall t <- v.queued :: expire < v.queued[t]) ==> w.signal == At(expire))
  }

  /** A pop takes out a least item; the signal is set for a least one of the others. */
  ghost predicate Pops(v: View, w: View) {
    if v.queued == map[] then w.queued == map[] && w.phase == Waiting && w.signal == Forever
    else
      && w.phase.Popped? && Least(v.queued, w.phase.item) && w.queued == v.queued - {w.phase.item}
      && (w.queued != map[] ==> exists t <- w.queued :: Least(w.queued, t) && w.signal == At(w.queued[t]))
  }

  /** What each step does when it is due; otherwise it changes nothing. */
  ghost predicate Does(op: Op, now: int, v: View, w: View, handles: seq<TimeItem>, handles': seq<TimeItem>) {
    match op
    case DoOnce(timeout) =>
      && |handles'| == |handles| + 1 && handles == handles'[..|handles|]
      && var item := handles'[|handles|];
         item.repeat == Never && MakesItem(v, w, item, now + timeout)
    case DoSchedule(delay, interval) =>
      && |handles'| == |handles| + 1 && handles == handles'[..|handles|]
      && var item := handles'[|handles|];
         item.repeat == Every(interval) && MakesItem(v, w, item, now + delay)
    case DoDelete(handle) =>
      && handles' == handles && w.channel == v.channel && w.phase == v.phase
      && w.queued == (if handle < |handles| then v.queued - {handles[handle]} else v.queued)
      && (w.signal == v.signal || exists t <- w.queued :: Least(w.queued, t) && w.signal == At(w.queued[t]))
    case DoReset(handle, delay) =>
      handles' == handles &&
      w == if handle < |handles| && handles[handle] in v.queued then
             v.(queued := v.queued[handles[handle] := now + delay])
           else v
    case DoGoOff =>
      handles' == handles &&
      w == if v.signal.At? && v.signal.time <= now then
             v.(signal := Spent, channel := if v.channel.Full? then v.channel else Full(now))
           else v
    case DoTake =>
      handles' == handles &&
      w == if v.phase == Waiting && v.channel.Full? then v.(phase := Ticked(v.channel.at), channel := Empty) else v
    case DoFire =>
      handles' == handles && if v.phase.Ticked? then w.channel == v.channel && Pops(v, w) else w == v
    case DoTick =>
      handles' == handles &&
      if v.phase == Waiting && v.channel == Empty && v.signal.At? && v.signal.time <= now then
        w.channel == Empty && Pops(v, w)
      else w == v
    case DoCall =>
      handles' == handles &&
      w == if !v.phase.Popped? then v
           else (match v.phase.item.repeat
                 case Never => v.(phase := Waiting)
                 case Every(interval) =>
                   v.(queued := v.queued[v.phase.item := now + interval], phase := Requeued(v.phase.item, now)))
    case DoFinish =>
      handles' == handles &&
      if v.phase.Requeued? then
        var item := v.phase.item;
        && w.queued == v.queued && w.channel == v.channel && w.phase == Waiting
        && (w.signal == v.signal ||
            (Least(v.queued, item) && w.signal == At(now + v.queued[item] - v.phase.since)))
        && (item in v.queued && (forall t <- v.queued | t != item :: v.queued[item] < v.queued[t]) ==>
              w.signal == At(now + v.queued[item] - v.phase.since))
      else w == v
  }

  /** What was queued expires when it did. */
  ghost predicate Steady(queued: map<TimeItem, int>)
    reads queued.Keys
  {
    forall t <- queued :: t.expire == queued[t]
  }

  lemma ViewQueue(timer: Timer, queued: map<TimeItem, int>)
    requires timer.Items() == queued.Keys && Steady(queued)
    ensures ViewOf(timer).queued == queued
  {
  }

  lemma HeadIsLeast(timer: Timer, queued: map<TimeItem, int>)
    requires timer.Kept() && timer.timers != [] && timer.Items() == queued.Keys && Steady(queued)
    ensures Least(queued, timer.timers[0])
  {
    timer.HeadIsFirst();
    assert timer.timers[0] in timer.Items();
    assert forall t <- queued :: t in timer.Items();
  }

  lemma NotLeast(queued: map<TimeItem, int>, item: TimeItem, expire: int, head: TimeItem)
    requires item !in queued && Least(queued[item := expire], head)
    ensures (forall t <- queued :: expire < queued[t]) ==> head == item
  {
    var more := queued[item := expire];
    assert item in more && more[head] <= more[item] == expire;
  }

  lemma SeeMade(timer: Timer, v: View, item: TimeItem, expire: int)
    requires timer.Kept() && timer.timers != [] && timer.Items() == v.queued.Keys + {item} && item !in v.queued
    requires Steady(v.queued) && item.expire == expire
    requires timer.channel == v.channel && timer.phase == v.phase
    requires timer.signal == if timer.timers[0] == item then At(expire) else v.signal
    ensures MakesItem(v, ViewOf(timer), item, expire)
  {
    hide Timer.Kept, Least;
    var queued := v.queued[item := expire];
    ViewQueue(timer, queued);
    HeadIsLeast(timer, queued);
    NotLeast(v.queued, item, expire, timer.timers[0]);
  }

  lemma SeeRemoved(timer: Timer, v: View, item: TimeItem)
    requires timer.Kept() && timer.Items() == v.queued.Keys - {item} && Steady(v.queued)
    requires timer.signal == v.signal || (timer.timers != [] && timer.signal == At(timer.timers[0].expire))
    ensures var w := ViewOf(timer);
            && w.queued == v.queued - {item}
            && (w.signal == v.signal || exists t <- w.queued :: Least(w.queued, t) && w.signal == At(w.queued[t]))
  {
    hide Timer.Kept, Least;
    var queued := v.queued - {item};
    ViewQueue(timer, queued);
    if timer.timers != [] {
      HeadIsLeast(timer, queued);
    }
  }

  lemma PoppedFromSome(queued: map<TimeItem, int>, item: TimeItem)
    requires Least(queued, item)
    ensures item in queued && queued != map[]
  {
  }

  lemma SeePopped(timer: Timer, v: View, item: TimeItem?)
    requires timer.Kept() && Steady(v.queued)
    requires item == null ==>
               v.queued == map[] && timer.timers == [] && timer.phase == Waiting && timer.signal == Forever
    requires item != null ==>
               && Least(v.queued, item) && timer.phase == Popped(item) && timer.Items() == v.queued.Keys - {item}
               && (timer.timers != [] ==> timer.signal == At(timer.timers[0].expire))
    ensures Pops(v, ViewOf(timer))
  {
    hide Timer.Kept, Least;
    if item == null {
      ViewQueue(timer, map[]);
    } else {
      var queued := v.queued - {item};
      ViewQueue(timer, queued);
      if timer.timers != [] {
        HeadIsLeast(timer, queued);
      } else {
        assert timer.Items() == {};
      }
      PoppedFromSome(v.queued, item);
    }
  }

  lemma SeeHead(timer: Timer)
    requires timer.Kept()
    ensures var v := ViewOf(timer);
            if timer.timers == [] then v.queued == map[] else Least(v.queued, timer.timers[0])
  {
    hide Timer.Kept, Least;
    var v := ViewOf(timer);
    if timer.timers != [] {
      HeadIsLeast(timer, v.queued);
    }
  }

  lemma SeeFinished(timer: Timer, v: View, now: int)
    requires timer.Kept() && timer.Items() == v.queued.Keys && Steady(v.queued) && v.phase.Requeued?
    requires timer.channel == v.channel && timer.phase == Waiting
    requires timer.signal == if timer.timers != [] && timer.timers[0] == v.phase.item
                             then At(now + (v.phase.item.expire - v.phase.since)) else v.signal
    ensures Does(DoFinish, now, v, ViewOf(timer), [], [])
  {
    hide Timer.Kept, Least;
    ViewQueue(timer, v.queued);
    if timer.timers != [] {
      HeadIsLeast(timer, v.queued);
      var item := v.phase.item;
      if item in v.queued {
        NotLeast(v.queued - {item}, item, v.queued[item], timer.timers[0]) by {
          assert (v.queued - {item})[item := v.queued[item]] == v.queued;
        }
      }
    } else {
      assert v.queued == map[];
    }
  }

  /** What a run does to items: one was popped, with its expiry then and the time; one was deleted while queued. */
  datatype Happening = Fired(item: TimeItem, expire: int, at: int) | Removed(item: TimeItem)

  /** Nothing was popped before its time. */
  predicate NoneEarly(log: seq<Happening>) {
    forall h <- log :: h.Fired? ==> h.expire <= h.at
  }

  /** A deletion, or the firing of a `Once` item. */
  predicate Final(h: Happening) {
    h.Removed? || h.item.repeat == Never
  }

  /** After that nothing more happens to the item. */
  ghost predicate LastOfItem(log: seq<Happening>) {
    forall i, j | 0 <= i < j < |log| && Final(log[i]) :: log[j].item != log[i].item
  }

  /** The handles are different items, and everything the timer holds is among them. */
  ghost predicate Covered(timer: Timer, handles: seq<TimeItem>)
    reads timer
  {
    && (forall i, j | 0 <= i < j < |handles| :: handles[i] != handles[j])
    && (forall t <- timer.Items() :: t in handles)
    && (timer.phase.Popped? || timer.phase.Requeued? ==> timer.phase.item in handles)
  }

  /** The item is not queued and will not be: it was deleted, or it was a `Once` item and has fired. */
  ghost predicate Gone(timer: Timer, item: TimeItem)
    reads timer
  {
    item !in timer.Items() && !(timer.phase.Popped? && timer.phase.item == item && item.repeat.Every?)
  }

  ghost predicate FinalIn(log: seq<Happening>, item: TimeItem) {
    exists h <- log :: Final(h) && h.item == item
  }

  lemma FinalInMore(log: seq<Happening>, more: seq<Happening>, item: TimeItem)
    ensures FinalIn(log + more, item) <==> FinalIn(log, item) || FinalIn(more, item)
  {
    assert forall h :: h in log + more <==> h in log || h in more;
  }

  /** Exactly the items with something final in the log are gone. */
  ghost predicate Recorded(timer: Timer, handles: seq<TimeItem>, log: seq<Happening>)
    reads timer
  {
    && (forall h <- log :: h.item in handles)
    && (forall t <- handles :: Gone(timer, t) <==> FinalIn(log, t))
  }

  /** What was read of the clock is not ahead of it. */
  ghost predicate Read(timer: Timer, now: int)
    reads timer
  {
    && (timer.channel.Full? ==> timer.channel.at <= now)
    && (timer.phase.Ticked? ==> timer.phase.at <= now)
    && (timer.phase.Requeued? ==> timer.phase.since <= now)
  }

  predicate SignalDue(timer: Timer, now: int)
    reads timer
  {
    timer.signal.At? && timer.signal.time <= now
  }

  /** The step leaves every tick honest. */
  predicate Careful(timer: Timer, op: Op, now: int, handles: seq<TimeItem>)
    reads timer, timer.timers, if timer.phase.Popped? then {timer.phase.item} else {}
  {
    match op
    case DoOnce(timeout) => timer.MayAdd(now + timeout)
    case DoSchedule(delay, _) => timer.MayAdd(now + delay)
    case DoDelete(handle) => handle < |handles| ==> timer.MayTake(handles[handle])
    case DoReset(handle, delay) => handle < |handles| ==> timer.MayReset(handles[handle], now + delay)
    case DoGoOff => SignalDue(timer, now) ==> timer.MayGoOff(now)
    case DoFire => timer.phase.Ticked? ==> timer.MayFire()
    case DoCall => timer.phase.Popped? && timer.phase.item.repeat.Every? ==>
                     timer.MayAdd(now + timer.phase.item.repeat.interval)
    case _ => true
  }

  /** The steps of a run in which nothing comes between the signal going off and the pop. */
  predicate Plain(op: Op) {
    op.DoOnce? || op.DoSchedule? || op.DoDelete? || op.DoTick? || op.DoCall? || op.DoFinish?
  }

  lemma PlainIsCareful(timer: Timer, op: Op, now: int, handles: seq<TimeItem>)
    requires timer.Settled() && Plain(op)
    ensures Careful(timer, op, now, handles)
  {
  }

  /** The signal goes off and its tick is taken and answered at once. */
  method Tick(timer: Timer, now: int) returns (item: TimeItem?)
    requires timer.Kept() && timer.Settled() && timer.phase == Waiting && SignalDue(timer, now)
    modifies timer, timer.Items()`index
    ensures timer.Kept() && timer.Settled() && timer.Watched() && timer.slack == old(timer.slack)
    ensures if item == null then timer.phase == Waiting else timer.phase == Popped(item)
    ensures item == null <==> old(timer.timers) == []
    ensures item != null ==> item == old(timer.timers[0]) && item in old(timer.Items())
    ensures item != null && old(timer.Honest()) ==> item.expire <= now
    ensures timer.Items() == old(timer.Items()) - (if item == null then {} else {item})
    ensures item == null ==> timer.signal == Forever && timer.timers == []
    ensures item != null && timer.timers != [] ==> timer.signal == At(timer.timers[0].expire)
    ensures old(timer.Honest()) ==> timer.Honest()
  {
    hide Timer.Valid, Timer.QuietWithout;
    timer.GoOff(now);
    timer.Take();
    item := timer.Fire(now);
  }

  predicate TickDue(timer: Timer, now: int)
    reads timer
  {
    timer.phase == Waiting && timer.channel == Empty && SignalDue(timer, now)
  }

  /** What the step pops or deletes. */
  function Happens(timer: Timer, op: Op, now: int, handles: seq<TimeItem>): seq<Happening>
    reads timer, timer.timers
  {
    if op.DoDelete? && op.handle < |handles| && handles[op.handle] in timer.timers then [Removed(handles[op.handle])]
    else if timer.timers != [] && ((op.DoFire? && timer.phase.Ticked?) || (op.DoTick? && TickDue(timer, now)))
    then [Fired(timer.timers[0], timer.timers[0].expire, now)]
    else []
  }

  /** The slack grows only where a callback ends, to the time that it took; the time at which it read the clock stays
      while it lasts. */
  ghost predicate Waits(slack: nat, phase: Phase, slack0: nat, phase0: Phase, now: int) {
    && (slack == slack0 || (phase0.Requeued? && slack <= now - phase0.since))
    && (phase.Requeued? ==> phase.since == if phase0.Requeued? then phase0.since else now)
  }

  /** The signal goes off, or its tick is taken. */
  method SignalStep(timer: Timer, op: Op, now: int, handles: seq<TimeItem>)
    requires timer.Kept() && Covered(timer, handles) && Read(timer, now)
    requires op.DoGoOff? || op.DoTake?
    modifies timer, set t | t in handles
    ensures timer.Kept() && Covered(timer, handles) && Read(timer, now)
    ensures Does(op, now, old(ViewOf(timer)), ViewOf(timer), handles, handles)
    ensures forall t <- handles :: Gone(timer, t) <==> old(Gone(timer, t))
    ensures old(timer.Honest()) && old(Careful(timer, op, now, handles)) ==> timer.Honest()
    ensures old(timer.Watched()) ==> timer.Watched()
    ensures Plain(op) && old(timer.Settled()) ==> timer.Settled()
    ensures Waits(timer.slack, timer.phase, old(timer.slack), old(timer.phase), now)
  {
    hide Timer.Valid, Timer.Honest, Timer.Watched, Timer.QuietWithout;
    ghost var v := ViewOf(timer);
    if op.DoGoOff? {
      if SignalDue(timer, now) {
        timer.GoOff(now);
        ViewQueue(timer, v.queued);
      }
    } else if timer.phase == Waiting && timer.channel.Full? {
      timer.Take();
      ViewQueue(timer, v.queued);
    }
  }

  /** A pop, for a tick in hand or for one that is taken at once. */
  method PopStep(timer: Timer, op: Op, now: int, handles: seq<TimeItem>) returns (log: seq<Happening>)
    requires timer.Kept() && Covered(timer, handles) && Read(timer, now)
    requires op.DoFire? || op.DoTick?
    modifies timer, set t | t in handles
    ensures timer.Kept() && Covered(timer, handles) && Read(timer, now)
    ensures Does(op, now, old(ViewOf(timer)), ViewOf(timer), handles, handles)
    ensures log == old(Happens(timer, op, now, handles))
    ensures forall t <- handles :: Gone(timer, t) <==> old(Gone(timer, t)) || FinalIn(log, t)
    ensures old(timer.Honest()) && old(Careful(timer, op, now, handles)) ==> timer.Honest()
    ensures old(timer.Honest()) ==> NoneEarly(log)
    ensures old(timer.Watched()) ==> timer.Watched()
    ensures Plain(op) && old(timer.Settled()) ==> timer.Settled()
    ensures Waits(timer.slack, timer.phase, old(timer.slack), old(timer.phase), now)
  {
    hide Timer.Valid, Timer.Honest, Timer.Watched, Timer.QuietWithout, Least, Pops;
    log := [];
    ghost var v := ViewOf(timer);
    SeeHead(timer);
    var item: TimeItem? := null;
    if op.DoFire? && timer.phase.Ticked? {
      item := timer.Fire(now);
      SeePopped(timer, v, item);
    } else if op.DoTick? && TickDue(timer, now) {
      item := Tick(timer, now);
      SeePopped(timer, v, item);
    }
    if item != null {
      log := [Fired(item, item.expire, now)];
    }
  }

  /** A callback, or the end of one. */
  method CallbackStep(timer: Timer, op: Op, now: int, handles: seq<TimeItem>)
    requires timer.Kept() && Covered(timer, handles) && Read(timer, now)
    requires op.DoCall? || op.DoFinish?
    modifies timer, set t | t in handles
    ensures timer.Kept() && Covered(timer, handles) && Read(timer, now)
    ensures Does(op, now, old(ViewOf(timer)), ViewOf(timer), handles, handles)
    ensures forall t <- handles :: Gone(timer, t) <==> old(Gone(timer, t))
    ensures old(timer.Honest()) && old(Careful(timer, op, now, handles)) ==> timer.Honest()
    ensures old(timer.Watched()) ==> timer.Watched()
    ensures Plain(op) && old(timer.Settled()) ==> timer.Settled()
    ensures Waits(timer.slack, timer.phase, old(timer.slack), old(timer.phase), now)
  {
    hide Timer.Valid, Timer.Honest, Timer.Watched, Timer.QuietWithout, Least;
    ghost var v := ViewOf(timer);
    if op.DoCall? && timer.phase.Popped? {
      timer.Call(now);
      ViewQueue(timer, if v.phase.item.repeat == Never then v.queued
                       else v.queued[v.phase.item := v.phase.item.expire]);
    } else if op.DoFinish? && timer.phase.Requeued? {
      timer.Finish(now);
      SeeFinished(timer, v, now);
    }
  }

  lemma QueuedIndex(timer: Timer, item: TimeItem)
    requires timer.Kept() && item in timer.timers
    ensures item.index >= 0
  {
  }

  /** `Once` or `Schedule`: one more handle. */
  method MakeStep(timer: Timer, op: Op, now: int, handles: seq<TimeItem>) returns (handles': seq<TimeItem>)
    requires timer.Kept() && Covered(timer, handles) && (op.DoOnce? || op.DoSchedule?)
    modifies timer`timers, timer`signal, (set t | t in handles)`index
    ensures timer.Kept() && Covered(timer, handles')
    ensures Does(op, now, old(ViewOf(timer)), ViewOf(timer), handles, handles')
    ensures handles <= handles' && forall t <- handles' :: t in handles || fresh(t)
    ensures forall t <- handles' :: Gone(timer, t) <==> t in handles && old(Gone(timer, t))
    ensures old(timer.Honest()) && old(Careful(timer, op, now, handles)) ==> timer.Honest()
    ensures old(timer.Watched()) ==> timer.Watched()
  {
    hide Timer.Valid, Timer.Honest, Timer.Watched, MakesItem, Least;
    ghost var v := ViewOf(timer);
    var item;
    if op.DoOnce? {
      item := timer.Once(now, op.timeout);
    } else {
      item := timer.Schedule(now, op.delay, op.interval);
    }
    SeeMade(timer, v, item, item.expire);
    handles' := handles + [item];
  }

  /** `Delete` of a handle. */
  method DeleteStep(timer: Timer, op: Op, now: int, handles: seq<TimeItem>) returns (log: seq<Happening>)
    requires timer.Kept() && Covered(timer, handles) && op.DoDelete?
    modifies timer`timers, timer`signal, set t | t in handles
    ensures timer.Kept() && Covered(timer, handles)
    ensures Does(op, now, old(ViewOf(timer)), ViewOf(timer), handles, handles)
    ensures log == old(Happens(timer, op, now, handles))
    ensures forall t <- handles :: Gone(timer, t) <==> old(Gone(timer, t)) || FinalIn(log, t)
    ensures old(timer.Honest()) && old(Careful(timer, op, now, handles)) ==> timer.Honest()
    ensures old(timer.Watched()) ==> timer.Watched()
  {
    hide Timer.Valid, Timer.Honest, Timer.Watched, Timer.QuietWithout, Timer.Armed, Least;
    log := [];
    ghost var v := ViewOf(timer);
    if op.handle < |handles| {
      var item := handles[op.handle];
      if item in timer.timers {
        log := [Removed(item)];
      }
      timer.Delete(item);
      SeeRemoved(timer, v, item);
    }
  }

  /** `Reset` of a handle. */
  method ResetStep(timer: Timer, op: Op, now: int, handles: seq<TimeItem>)
    requires timer.Kept() && Covered(timer, handles) && op.DoReset?
    modifies timer`timers, timer`signal, set t | t in handles
    ensures timer.Kept() && Covered(timer, handles)
    ensures Does(op, now, old(ViewOf(timer)), ViewOf(timer), handles, handles)
    ensures forall t <- handles :: Gone(timer, t) <==> old(Gone(timer, t))
    ensures old(timer.Honest()) && old(Careful(timer, op, now, handles)) ==> timer.Honest()
  {
    hide Timer.Valid, Timer.Honest, Timer.Watched, Timer.QuietWithout, Timer.Armed, Least;
    ghost var v := ViewOf(timer);
    if op.handle < |handles| && handles[op.handle] in timer.timers {
      var item := handles[op.handle];
      QueuedIndex(timer, item);
      timer.Reset(item, now, op.delay);
      ViewQueue(timer, v.queued[item := now + op.delay]);
    }
  }

  /** A step of a caller of the timer, or of the timer. */
  method RunStep(timer: Timer, op: Op, now: int, handles: seq<TimeItem>)
    returns (handles': seq<TimeItem>, log: seq<Happening>)
    requires timer.Kept() && Covered(timer, handles) && Read(timer, now)
    modifies timer, set t | t in handles
    ensures timer.Kept() && Covered(timer, handles') && Read(timer, now)
    ensures handles <= handles' && forall t <- handles' :: t in handles || fresh(t)
    ensures Does(op, now, old(ViewOf(timer)), ViewOf(timer), handles, handles')
    ensures log == old(Happens(timer, op, now, handles))
    ensures forall t <- handles' :: Gone(timer, t) <==> (t in handles && old(Gone(timer, t))) || FinalIn(log, t)
    ensures old(timer.Honest()) && old(Careful(timer, op, now, handles)) ==> timer.Honest()
    ensures old(timer.Honest()) ==> NoneEarly(log)
    ensures !op.DoReset? && old(timer.Watched()) ==> timer.Watched()
    ensures Plain(op) && old(timer.Settled()) ==> timer.Settled()
    ensures Waits(timer.slack, timer.phase, old(timer.slack), old(timer.phase), now)
  {
    hide Timer.Kept, Timer.Honest, Timer.Watched, Timer.Items, Gone, Careful, Covered, Does, ViewOf;
    handles', log := handles, [];
    if op.DoOnce? || op.DoSchedule? {
      handles' := MakeStep(timer, op, now, handles);
    } else if op.DoDelete? {
      log := DeleteStep(timer, op, now, handles);
    } else if op.DoReset? {
      ResetStep(timer, op, now, handles);
    } else if op.DoGoOff? || op.DoTake? {
      SignalStep(timer, op, now, handles);
    } else if op.DoFire? || op.DoTick? {
      log := PopStep(timer, op, now, handles);
    } else {
      CallbackStep(timer, op, now, handles);
    }
  }

  lemma NotYet(handles: seq<TimeItem>, log: seq<Happening>, item: TimeItem)
    requires forall h <- log :: h.item in handles
    ensures FinalIn(log, item) ==> item in handles
  {
  }

  lemma LastOfItemMore(timer: Timer, handles: seq<TimeItem>, log: seq<Happening>, more: seq<Happening>)
    requires LastOfItem(log) && Recorded(timer, handles, log) && |more| <= 1
    requires forall h <- more :: h.item in timer.Items() && h.item in handles
    ensures LastOfItem(log + more)
  {
    forall i | 0 <= i < |log| && Final(log[i])
      ensures Gone(timer, log[i].item)
    {
      assert log[i] in log && FinalIn(log, log[i].item);
    }
  }

  /** In a watched, honest heap without a tick under way or a callback about to set the signal, it is set for the
      head. */
  lemma SettledIsArmed(timer: Timer)
    requires timer.Honest() && timer.Watched() && timer.Settled() && !timer.phase.Requeued?
    ensures timer.Armed(timer.slack)
  {
  }

  lemma HappensToQueued(timer: Timer, op: Op, now: int, handles: seq<TimeItem>)
    requires Covered(timer, handles)
    ensures var more := Happens(timer, op, now, handles);
            |more| <= 1 && forall h <- more :: h.item in timer.Items() && h.item in handles
  {
    assert timer.timers != [] ==> timer.timers[0] in timer.timers;
  }

  lemma NothingCovered(timer: Timer)
    requires timer.timers == [] && timer.phase == Waiting
    ensures Covered(timer, [])
  {
  }

  /** A step with the log of the run. */
  method RecordedStep(timer: Timer, op: Op, now: int, handles: seq<TimeItem>, log: seq<Happening>)
    returns (handles': seq<TimeItem>, log': seq<Happening>)
    requires timer.Kept() && Covered(timer, handles) && Read(timer, now)
    requires Recorded(timer, handles, log) && LastOfItem(log)
    modifies timer, set t | t in handles
    ensures timer.Kept() && Covered(timer, handles') && Read(timer, now)
    ensures handles <= handles' && forall t <- handles' :: t in handles || fresh(t)
    ensures Does(op, now, old(ViewOf(timer)), ViewOf(timer), handles, handles')
    ensures Recorded(timer, handles', log') && LastOfItem(log') && log' == log + old(Happens(timer, op, now, handles))
    ensures old(timer.Honest()) && old(Careful(timer, op, now, handles)) ==> timer.Honest()
    ensures old(timer.Honest()) && NoneEarly(log) ==> NoneEarly(log')
    ensures !op.DoReset? && old(timer.Watched()) ==> timer.Watched()
    ensures Plain(op) && old(timer.Settled()) ==> timer.Settled()
    ensures Waits(timer.slack, timer.phase, old(timer.slack), old(timer.phase), now)
  {
    hide Timer.Kept, Timer.Honest, Timer.Watched, Timer.Items, Careful, Final, Gone, FinalIn, Happens, Covered, Does;
    HappensToQueued(timer, op, now, handles);
    LastOfItemMore(timer, handles, log, Happens(timer, op, now, handles));
    var more;
    handles', more := RunStep(timer, op, now, handles);
    forall t <- handles'
      ensures Gone(timer, t) <==> FinalIn(log + more, t)
    {
      FinalInMore(log, more, t);
      NotYet(handles, log, t);
    }
    assert forall h <- log + more :: h.item in handles && h.item in handles';
    log' := log + more;
  }

  /** A run at one time: what the timer looks like and the handles made so far. */
  datatype Moment = Moment(now: int, view: View, handles: seq<TimeItem>)

  const BEGINNING := Moment(0, View(map[], Forever, Empty, Waiting), [])

  /** The time of the next step: a callback that has put its item back takes no longer than `longest`. */
  function Later(phase: Phase, now: int, delay: nat, longest: nat): int {
    if phase.Requeued? && phase.since + longest < now + delay then phase.since + longest else now + delay
  }

  /** From one moment to the next the step is done, or, in a guarded run, may be left out. */
  ghost predicate Follows(op: Op, delay: nat, longest: nat, guarded: bool, a: Moment, b: Moment) {
    && b.now == Later(a.view.phase, a.now, delay, longest)
    && (|| Does(op, b.now, a.view, b.view, a.handles, b.handles)
        || (guarded && b.view == a.view && b.handles == a.handles))
  }

  /** The moments of a run, one more than its steps. */
  ghost predicate Traces(ops: seq<Op>, delays: seq<nat>, longest: nat, guarded: bool, trace: seq<Moment>)
    requires |ops| == |delays|
  {
    && 0 < |trace| <= |ops| + 1 && trace[0] == BEGINNING
    && forall i | 0 <= i < |trace| - 1 :: Follows(ops[i], delays[i], longest, guarded, trace[i], trace[i + 1])
  }

  lemma RunBegins(timer: Timer, ops: seq<Op>, delays: seq<nat>, longest: nat, guarded: bool)
    requires |ops| == |delays| && timer.timers == [] && timer.phase == Waiting
    requires timer.signal == Forever && timer.channel == Empty
    ensures Covered(timer, []) && Recorded(timer, [], []) && LastOfItem([]) && NoneEarly([]) && timer.Settled()
    ensures Traces(ops, delays, longest, guarded, [BEGINNING]) && BEGINNING == Moment(0, ViewOf(timer), [])
  {
    NothingCovered(timer);
    assert timer.Items() == {};
  }

  lemma TracesMore(ops: seq<Op>, delays: seq<nat>, longest: nat, guarded: bool, trace: seq<Moment>, next: Moment)
    requires |ops| == |delays| && Traces(ops, delays, longest, guarded, trace) && |trace| <= |ops|
    requires var n := |trace| - 1; Follows(ops[n], delays[n], longest, guarded, trace[n], next)
    ensures Traces(ops, delays, longest, guarded, trace + [next])
  {
    hide Follows;
  }

  /** Every run, with any time between its steps but for callbacks of at most `longest`, does its steps one after the
      other and keeps heap order and indices; nothing happens to an item after it was deleted or, for a `Once` item,
      fired. Without `Reset`, what is queued is always watched, with a delay of at most `longest`. Nothing is popped
      early if each step leaves the ticks honest (a guarded run leaves out the others), and in particular if nothing
      comes between the signal going off and the pop; then, between callbacks, the signal is set for the head. */
  method AnyRun(ops: seq<Op>, delays: seq<nat>, guarded: bool, longest: nat)
    returns (timer: Timer, handles: seq<TimeItem>, log: seq<Happening>, ghost trace: seq<Moment>)
    requires |ops| == |delays|
    ensures timer.Kept() && timer.slack <= longest
    ensures Traces(ops, delays, longest, guarded, trace) && |trace| == |ops| + 1
    ensures trace[|ops|].view == ViewOf(timer) && trace[|ops|].handles == handles
    ensures Covered(timer, handles) && Recorded(timer, handles, log) && LastOfItem(log)
    ensures (forall op <- ops :: !op.DoReset?) ==> timer.Watched()
    ensures guarded || (forall op <- ops :: Plain(op)) ==> timer.Honest() && NoneEarly(log)
    ensures guarded && (forall op <- ops :: !op.DoReset?) && timer.Settled() && !timer.phase.Requeued? ==>
              timer.Armed(longest)
    ensures (forall op <- ops :: Plain(op)) && !timer.phase.Requeued? ==> timer.Settled() && timer.Armed(longest)
  {
    hide Timer.Kept, Timer.Honest, Timer.Watched, Timer.Items, Careful, Final, Gone, FinalIn, Happens, Covered;
    hide Does, Traces, Recorded, LastOfItem, NoneEarly, Timer.Settled;
    timer := new Timer();
    log, handles, trace := [], [], [BEGINNING];
    ghost var plain := forall op <- ops :: Plain(op);
    var now := 0;
    RunBegins(timer, ops, delays, longest, guarded);
    for i := 0 to |ops|
      invariant fresh(timer) && timer.Kept() && Covered(timer, handles) && Read(timer, now)
      invariant forall t <- handles :: fresh(t)
      invariant Traces(ops, delays, longest, guarded, trace) && |trace| == i + 1
      invariant trace[i] == Moment(now, ViewOf(timer), handles)
      invariant LastOfItem(log) && Recorded(timer, handles, log)
      invariant timer.slack <= longest && (timer.phase.Requeued? ==> now <= timer.phase.since + longest)
      invariant (forall op <- ops :: !op.DoReset?) ==> timer.Watched()
      invariant plain ==> timer.Settled()
      invariant guarded || plain ==> timer.Honest() && NoneEarly(log)
    {
      now := Later(timer.phase, now, delays[i], longest);
      if plain {
        PlainIsCareful(timer, ops[i], now, handles);
      }
      if !guarded || Careful(timer, ops[i], now, handles) {
        handles, log := RecordedStep(timer, ops[i], now, handles, log);
      }
      TracesMore(ops, delays, longest, guarded, trace, Moment(now, ViewOf(timer), handles));
      trace := trace + [Moment(now, ViewOf(timer), handles)];
    }
    if timer.Honest() && timer.Watched() && timer.Settled() && !timer.phase.Requeued? {
      SettledIsArmed(timer);
    }
  }

  // ---------- why steps must be careful ----------

  /** In a watched heap the signal is set for no later than any item. */
  lemma SignalIsSet(timer: Timer, item: TimeItem)
    requires timer.Kept() && timer.Watched() && timer.Settled() && timer.phase == Waiting && timer.slack == 0
    requires item in timer.Items()
    ensures timer.signal.At? && timer.signal.time <= item.expire
  {
    timer.HeadIsFirst();
  }

  /** A tick is in hand and no item but the one deleted has expired: what is popped is early. */
  method EarlyAfterDelete(timer: Timer, item: TimeItem, now: int) returns (popped: TimeItem?)
    requires timer.Kept() && timer.Honest() && timer.phase == Ticked(now) && timer.channel == Empty
    requires item in timer.timers && !timer.MayTake(item)
    modifies timer, timer.Items()`index
    ensures popped != null && popped in old(timer.Items()) && popped != item && now < popped.expire
    ensures timer.Kept() && timer.phase == Popped(popped)
  {
    hide Timer.Valid, Timer.Watched;
    timer.Delete(item);
    popped := timer.Fire(now);
  }

  /** A tick is in hand, the heap is empty, and an item is added that has not expired: it is popped early. */
  method EarlyAfterOnce(timer: Timer, timeout: int, now: int) returns (popped: TimeItem?)
    requires timer.Kept() && timer.Honest() && timer.phase == Ticked(now) && timer.channel == Empty
    requires !timer.MayAdd(now + timeout)
    modifies timer, timer.Items()`index
    ensures popped != null && fresh(popped) && now < popped.expire == now + timeout
    ensures timer.Kept() && timer.phase == Popped(popped)
  {
    hide Timer.Valid, Timer.Watched;
    var item := timer.Once(now, timeout);
    assert timer.timers[0] in timer.Items();
    popped := timer.Fire(now);
  }

  /** A tick is in hand, and the only item that has expired is put off: what is popped is early. */
  method EarlyAfterReset(timer: Timer, item: TimeItem, delay: int, now: int) returns (popped: TimeItem?)
    requires timer.Kept() && timer.Honest() && timer.phase == Ticked(now) && timer.channel == Empty
    requires item in timer.timers && !timer.MayReset(item, now + delay)
    requires timer.signal.At? ==> now + delay <= timer.signal.time || timer.OtherBy(item, timer.signal.time)
    modifies timer, timer.Items()
    ensures popped != null && popped in old(timer.Items()) && now < popped.expire
    ensures timer.Kept() && timer.phase == Popped(popped)
  {
    hide Timer.Valid, Timer.Watched;
    QueuedIndex(timer, item);
    timer.Reset(item, now, delay);
    popped := timer.Fire(now);
  }

  /** The signal is set, and the only item that will have expired by then is put off: what is popped when the signal
      goes off is early. */
  method EarlyAtSignal(timer: Timer, item: TimeItem, delay: int, now: int) returns (popped: TimeItem?)
    requires timer.Kept() && timer.Honest() && timer.phase == Waiting && timer.channel == Empty && timer.signal.At?
    requires item in timer.timers && !timer.MayReset(item, now + delay)
    modifies timer, timer.Items()
    ensures popped != null && popped in old(timer.Items()) && old(timer.signal.time) < popped.expire
    ensures timer.Kept() && timer.phase == Popped(popped)
  {
    hide Timer.Valid, Timer.Watched;
    var at := timer.signal.time;
    QueuedIndex(timer, item);
    timer.Reset(item, now, delay);
    timer.GoOff(at);
    timer.Take();
    popped := timer.Fire(at);
  }

  /** A tick is in hand, a second one waits in the channel, and only the head has expired: the second pop is early. */
  method EarlyAfterFire(timer: Timer, now: int) returns (popped: TimeItem?)
    requires timer.Kept() && timer.Honest() && timer.phase == Ticked(now) && timer.channel == Full(now)
    requires !timer.MayFire() && timer.timers[0].repeat == Never
    modifies timer, timer.Items()
    ensures popped != null && popped in old(timer.Items()) && now < popped.expire
    ensures timer.Kept() && timer.phase == Popped(popped)
  {
    hide Timer.Valid, Timer.Watched;
    var first := timer.Fire(now);
    timer.Call(now);
    timer.Take();
    popped := timer.Fire(now);
  }

  // ---------- the same as runs from the start ----------

  lemma OnlyItem(timer: Timer, item: TimeItem, time: int)
    requires timer.Items() == {item}
    ensures item in timer.timers && !timer.OtherBy(item, time)
  {
    assert item in timer.Items();
    assert forall t <- timer.timers :: t in timer.Items();
  }

  lemma TwoItems(timer: Timer, item: TimeItem, other: TimeItem, time: int)
    requires timer.Items() == {item, other} && item != other && time < other.expire
    ensures item in timer.timers && !timer.QuietWithout(item, time)
  {
    assert item in timer.Items() && other in timer.Items();
    assert item in timer.timers && other in timer.timers;
    assert forall t <- timer.timers :: t in timer.Items();
  }

  /** `Reset` does not set the signal, so an item put off is popped at its old time. */
  method EarlyByReset() returns (timer: Timer, item: TimeItem?, at: int)
    ensures timer.Kept() && item != null && timer.phase == Popped(item) && at < item.expire
  {
    hide Timer.Kept, Timer.Valid, Timer.Watched, Timer.Armed;
    timer := new Timer();
    var only := timer.Once(0, 10);
    SignalIsSet(timer, only);
    at := timer.signal.time;
    OnlyItem(timer, only, at);
    item := EarlyAtSignal(timer, only, 20, 0);
  }

  /** Two items, and the tick for the first taken out of the channel. */
  method TickInHand() returns (timer: Timer, first: TimeItem, second: TimeItem)
    ensures fresh(timer) && timer.Kept() && timer.Honest() && timer.phase == Ticked(10) && timer.channel == Empty
    ensures timer.Items() == {first, second} && first != second && first.expire == 10 && second.expire == 100
    ensures fresh(first) && fresh(second)
  {
    hide Timer.Kept, Timer.Valid, Timer.Watched, Timer.Armed;
    timer := new Timer();
    first := timer.Once(0, 10);
    second := timer.Once(0, 100);
    SignalIsSet(timer, first);
    timer.GoOff(10);
    timer.Take();
  }

  /** Before the lock is taken the first item is deleted, and the second is popped instead. */
  method EarlyByDelete() returns (timer: Timer, item: TimeItem?, at: int)
    ensures timer.Kept() && item != null && timer.phase == Popped(item) && at < item.expire
  {
    hide Timer.Kept, Timer.Valid, Timer.Honest, Timer.Watched, Timer.QuietWithout;
    var first, second;
    timer, first, second := TickInHand();
    at := 10;
    TwoItems(timer, first, second, at);
    item := EarlyAfterDelete(timer, first, at);
  }

  /** An item is queued for `at` and deleted, and the signal goes off all the same. */
  method TickInVain(timer: Timer, at: nat)
    requires timer.Kept() && timer.Honest() && timer.Watched() && timer.Settled() && timer.phase == Waiting
    requires timer.timers == [] && timer.slack == 0
    modifies timer
    ensures timer.Kept() && timer.Honest() && timer.phase == Ticked(at) && timer.channel == Empty && timer.timers == []
  {
    hide Timer.Kept, Timer.Valid, Timer.Watched, Timer.Armed;
    var only := timer.Once(0, at);
    SignalIsSet(timer, only);
    timer.Delete(only);
    assert multiset(timer.timers) == multiset{} && |multiset(timer.timers)| == |timer.timers|;
    timer.GoOff(at);
    timer.Take();
  }

  /** Deleting the only item leaves the signal set; a new item comes before its tick is answered. */
  method EarlyByAdd() returns (timer: Timer, item: TimeItem?, at: int)
    ensures timer.Kept() && item != null && timer.phase == Popped(item) && at < item.expire
  {
    hide Timer.Kept, Timer.Valid, Timer.Watched, Timer.Armed;
    timer := new Timer();
    at := 10;
    TickInVain(timer, at);
    item := EarlyAfterOnce(timer, 100, at);
  }

  /** The items are those popped and those still queued. */
  ghost predicate Split(popped: seq<TimeItem>, queued: seq<TimeItem>, all: multiset<TimeItem>) {
    multiset(popped) + multiset(queued) == all
  }

  lemma NothingPopped(queued: seq<TimeItem>)
    ensures Split([], queued, multiset(queued))
  {
  }

  lemma AllPopped(popped: seq<TimeItem>, all: multiset<TimeItem>)
    requires Split(popped, [], all)
    ensures multiset(popped) == all
  {
  }

  lemma MoveOne(
      popped: seq<TimeItem>, before: seq<TimeItem>, after: seq<TimeItem>, item: TimeItem, all: multiset<TimeItem>)
    requires Split(popped, before, all)
    requires before != [] && item == before[0] && multiset(after) == multiset(before) - multiset{item}
    ensures Split(popped + [item], after, all) && |after| < |before| && item in (set t | t in before)
  {
    assert item in multiset(before);
    assert |multiset(before)| == |before| && |multiset(after)| == |after|;
    assert multiset(before) == multiset(after) + multiset{item};
    assert multiset(popped + [item]) == multiset(popped) + multiset{item};
  }

  /** Popping until nothing is left takes out every item once, in the order of their expiry. */
  method Drain(timer: Timer) returns (popped: seq<TimeItem>)
    requires timer.Valid()
    modifies timer`timers, timer.Items()`index
    ensures timer.timers == []
    ensures multiset(popped) == multiset(old(timer.timers))
    ensures forall i, j | 0 <= i < j < |popped| :: popped[i].expire <= popped[j].expire
  {
    hide Timer.Valid, Split;
    ghost var all := multiset(timer.timers);
    popped := [];
    NothingPopped(timer.timers);
    while true
      invariant timer.Valid() && timer.Items() <= old(timer.Items())
      invariant Split(popped, timer.timers, all)
      invariant forall i, j | 0 <= i < j < |popped| :: popped[i].expire <= popped[j].expire
      invariant popped != [] ==> forall t <- timer.Items() :: popped[|popped| - 1].expire <= t.expire
      decreases |timer.timers|
    {
      ghost var before := timer.timers;
      var item := timer.Pop();
      if item == null {
        break;
      }
      MoveOne(popped, before, timer.timers, item, all);
      popped := popped + [item];
    }
    AllPopped(popped, all);
  }
}
