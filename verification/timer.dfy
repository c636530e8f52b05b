/** The indexed timer heap: items that know their position, the sifting of `container/heap`, and the one wake-up
    signal that is re-armed for the head. */
module TimerHeap {
  import opened HeapOrder

  /** What an item's callback does with the item: nothing, or put it back after an interval (`Schedule`). */
  datatype Repeat = Never | Every(interval: int)

  class TimeItem {
    var index: int
    var expire: int
    const repeat: Repeat

    constructor (index: int, expire: int, repeat: Repeat)
      ensures this.index == index && this.expire == expire && this.repeat == repeat
    {
      this.index, this.expire, this.repeat := index, expire, repeat;
    }
  }

  ghost function Keys(items: seq<TimeItem>): (k: seq<int>)
    reads items
    ensures |k| == |items|
  {
    seq(|items|, i requires 0 <= i < |items| reads items => items[i].expire)
  }

  ghost predicate Indexed(items: seq<TimeItem>)
    reads items
  {
    forall i | 0 <= i < |items| :: items[i].index == i
  }

  lemma CutLast(items: seq<TimeItem>)
    requires items != []
    ensures var n := |items| - 1;
            multiset(items[..n]) == multiset(items) - multiset{items[n]}
  {
    var n := |items| - 1;
    assert items == items[..n] + [items[n]];
  }

  /** Items that know their position are all different. */
  lemma IndexedDistinct(items: seq<TimeItem>)
    requires Indexed(items) && items != []
    ensures var n := |items| - 1;
            items[n] !in items[..n] && (set t | t in items[..n]) == (set t | t in items) - {items[n]}
  {
    var n := |items| - 1;
    assert items == items[..n] + [items[n]];
    forall i | 0 <= i < n
      ensures items[i] != items[n]
    {
      assert items[i].index == i && items[n].index == n;
    }
  }

  lemma CutKeepsLeastHead(k: seq<int>, i: nat)
    requires LeastHead(k) && 0 < i < |k| - 1
    ensures LeastHead(SwapAt(k, i, |k| - 1)[..|k| - 1])
  {
  }

  lemma LeastOfItems(items: seq<TimeItem>, first: TimeItem)
    requires items != [] && items[0] == first && LeastHead(Keys(items))
    ensures forall t | t in items :: first.expire <= t.expire
  {
    forall t | t in items
      ensures first.expire <= t.expire
    {
      var i :| 0 <= i < |items| && items[i] == t;
      assert Keys(items)[0] <= Keys(items)[i];
    }
  }

  lemma HeadIsItem(items: seq<TimeItem>)
    requires Indexed(items)
    ensures items != [] ==> items[0] in (set t | t in items) && items[0].index == 0
  {
  }

  /** `*time.Timer`: when it will go off, if ever. */
  datatype Signal = At(time: int) | Forever | Spent

  /** `signal.C`, which holds one value; a second is dropped, and setting the signal anew takes none out. */
  datatype Channel = Empty | Full(at: int)

  /** Where the goroutine of `NewTimer` is: waiting for the channel, with a tick in hand and the lock not yet taken,
      about to run the callback of the item it popped, or in a callback that read the clock, has put its item back and
      not yet looked at the head. */
  datatype Phase = Waiting | Ticked(at: int) | Popped(item: TimeItem) | Requeued(item: TimeItem, since: int)

  class Timer {
    var timers: seq<TimeItem>
    var signal: Signal
    var channel: Channel
    var phase: Phase
    ghost var slack: nat  // the longest that a repeating callback has taken so far

    ghost function Items(): set<TimeItem>
      reads this
    {
      set t | t in timers
    }

    ghost predicate Valid()
      reads this, timers
    {
      Indexed(timers) && Heap(Keys(timers))
    }

    /** What every run keeps: indices and heap order, and an item whose callback is due is not in the heap. */
    ghost predicate Kept()
      reads this, timers
    {
      Valid() && (phase.Popped? ==> phase.item !in Items())
    }

    /** No tick is under way. */
    predicate Settled()
      reads this
    {
      channel == Empty && !phase.Ticked?
    }

    /** A pop at that time would not be early. */
    predicate Quiet(time: int)
      reads this, timers
    {
      timers == [] || timers[0].expire <= time
    }

    /** A callback has put its item at the head and is about to set the signal for it. */
    predicate AboutToSet()
      reads this
    {
      phase.Requeued? && timers != [] && timers[0] == phase.item
    }

    /** Every tick under way finds something that has expired, or nothing at all; and the signal will not go off
        before the head expires, unless a callback is about to set it. */
    ghost predicate Honest()
      reads this, timers
    {
      && (channel.Full? ==> Quiet(channel.at))
      && (phase.Ticked? ==> Quiet(phase.at))
      && (signal.At? ==> Quiet(signal.time) || AboutToSet())
    }

    /** The head will be popped, no later after its expiry than a callback has taken: the signal is set, or a tick is
        under way, or a callback is about to set the signal. */
    ghost predicate Watched()
      reads this, timers
    {
      timers != [] ==>
        (signal.At? && signal.time <= timers[0].expire + slack) || channel.Full? || phase.Ticked? || AboutToSet()
    }

    constructor ()
      ensures Kept() && Honest() && Watched() && Settled()
      ensures timers == [] && signal == Forever && phase == Waiting && slack == 0
    {
      timers, signal, channel, phase, slack := [], Forever, Empty, Waiting, 0;
    }

    method Swap(i: nat, j: nat)
      requires i < |timers| && j < |timers| && Indexed(timers)
      modifies this`timers, Items()`index
      ensures timers == SwapAt(old(timers), i, j) && Indexed(timers)
      ensures Keys(timers) == SwapAt(old(Keys(timers)), i, j)
      ensures multiset(timers) == old(multiset(timers)) && Items() == old(Items())
    {
      SwapKeepsItems(timers, i, j);
      SameItems(timers, SwapAt(timers, i, j));
      timers := timers[i := timers[j]][j := timers[i]];
      timers[i].index := i;
      timers[j].index := j;
    }

    predicate Less(i: nat, j: nat)
      requires i < |timers| && j < |timers|
      reads this, timers
    {
      timers[i].expire < timers[j].expire
    }

    method SmallerChild(i: nat) returns (j: nat)
      requires 2 * i + 1 < |timers|
      ensures j == SmallChild(Keys(timers), i)
    {
      j := 2 * i + 1;
      if j + 1 < |timers| && Less(j + 1, j) {
        j := j + 1;
      }
    }

    /** `down` of container/heap. */
    method Down(i0: nat) returns (moved: bool)
      requires Indexed(timers) && i0 < |timers| && HeapBut(Keys(timers), i0)
      modifies this`timers, Items()`index
      ensures Indexed(timers) && multiset(timers) == old(multiset(timers))
      ensures |timers| == old(|timers|) && Items() == old(Items())
      ensures 0 < i0 ==> timers[0] == old(timers[0])
      ensures if moved then Heap(Keys(timers)) else timers == old(timers) && HeapUp(Keys(timers), i0)
    {
      hide HeapBut, HeapUp, Heap, SmallChild;
      var n := |timers|;
      var i := i0;
      while 2 * i + 1 < n
        invariant i0 <= i < n == |timers| && Indexed(timers)
        invariant multiset(timers) == old(multiset(timers)) && Items() == old(Items())
        invariant HeapBut(Keys(timers), i)
        invariant if i == i0 then timers == old(timers) else Keys(timers)[Parent(i)] <= Keys(timers)[i]
        invariant 0 < i0 ==> timers[0] == old(timers[0])
        decreases n - i
      {
        var j := SmallerChild(i);
        if !Less(j, i) {
          break;
        }
        DownSwap(Keys(timers), i);
        Swap(i, j);
        i := j;
      }
      DownDone(Keys(timers), i);
      moved := i > i0;
    }

    /** `up` of container/heap. A head that is the least stays the head. */
    method Up(j0: nat)
      requires Indexed(timers) && j0 < |timers| && HeapUp(Keys(timers), j0)
      modifies this`timers, Items()`index
      ensures Valid() && multiset(timers) == old(multiset(timers))
      ensures |timers| == old(|timers|) && Items() == old(Items())
      ensures 0 < j0 ==> timers[0] == old(timers[0]) || timers[0] == old(timers[j0])
      ensures 0 < j0 && old(LeastHead(Keys(timers))) ==> timers[0] == old(timers[0])
    {
      hide HeapUp, LeastHead;
      var j := j0;
      ghost var least := 0 < j0 && LeastHead(Keys(timers));
      while true
        invariant 0 <= j <= j0 < |timers| == old(|timers|) && Indexed(timers)
        invariant multiset(timers) == old(multiset(timers)) && Items() == old(Items())
        invariant HeapUp(Keys(timers), j)
        invariant timers[j] == old(timers[j0]) && (0 < j ==> timers[0] == old(timers[0]))
        invariant least ==> 0 < j && timers[0] == old(timers[0]) && LeastHead(Keys(timers))
        decreases j
      {
        var i := if j == 0 then 0 else (j - 1) / 2;
        if i == j || !Less(j, i) {
          break;
        }
        UpSwap(Keys(timers), j);
        if least {
          HeadIsNotLess(Keys(timers), j);
          SwapKeepsLeastHead(Keys(timers), i, j);
        }
        Swap(i, j);
        j := i;
      }
      UpDone(Keys(timers), j);
    }

    /** `heap.Fix`. */
    method Fix(i: nat)
      requires Indexed(timers) && (i < |timers| || i == 0) && HeapBut(Keys(timers), i)
      modifies this`timers, Items()`index
      ensures Valid() && multiset(timers) == old(multiset(timers))
      ensures |timers| == old(|timers|) && Items() == old(Items())
      ensures 0 < i ==> timers[0] == old(timers[0]) || timers[0] == old(timers[i])
      ensures 0 < i && old(LeastHead(Keys(timers))) ==> timers[0] == old(timers[0])
    {
      hide HeapBut, HeapUp, LeastHead;
      if i < |timers| {
        var moved := Down(i);
        if !moved {
          Up(i);
        }
      }
    }

    /** The append and sift of `Once`, `Schedule` and its callback. */
    method Add(item: TimeItem)
      requires Valid() && item !in timers && item.index == |timers|
      modifies this`timers, Items()`index, item`index
      ensures Valid() && multiset(timers) == old(multiset(timers)) + multiset{item}
      ensures Items() == old(Items()) + {item}
      ensures timers[0] == item || (old(timers) != [] && timers[0] == old(timers[0]))
    {
      ghost var before := timers;
      AppendBut(Keys(timers), item.expire);
      timers := timers + [item];
      assert Keys(timers) == Keys(before) + [item.expire];
      assert multiset(timers) == multiset(before) + multiset{item};
      Fix(item.index);
    }

    /** `*tm = (*tm)[:n]`. */
    method CutTail() returns (item: TimeItem)
      requires Indexed(timers) && timers != []
      modifies this`timers
      ensures var n := old(|timers|) - 1;
              && timers == old(timers)[..n] && item == old(timers)[n] && item !in timers
              && Keys(timers) == old(Keys(timers))[..n]
      ensures Indexed(timers) && Items() == old(Items()) - {item}
      ensures multiset(timers) == old(multiset(timers)) - multiset{item}
    {
      var n := |timers| - 1;
      CutLast(timers);
      IndexedDistinct(timers);
      item := timers[n];
      timers := timers[..n];
    }

    /** Swapping an item to the end and cutting it off: only the place it left can be out of order. */
    method SwapOut(i: nat) returns (item: TimeItem)
      requires Valid() && i < |timers|
      modifies this`timers, Items()`index
      ensures Indexed(timers) && HeapBut(Keys(timers), i)
      ensures item == old(timers[i]) && item.index == |timers| && item !in timers
      ensures Items() == old(Items()) - {item} && |timers| == old(|timers|) - 1
      ensures multiset(timers) == old(multiset(timers)) - multiset{item}
      ensures 0 < i < |timers| ==> timers[0] == old(timers[0]) && LeastHead(Keys(timers))
    {
      hide Heap, HeapBut, LeastHead, SwapAt, Keys;
      var n := |timers| - 1;
      ghost var keys := Keys(timers);
      RemoveBut(keys, i);
      if 0 < i < n {
        HeapHasLeastHead(keys);
        CutKeepsLeastHead(keys, i);
      }
      SwapAtEnds(timers, i, n);
      Swap(i, n);
      item := CutTail();
    }

    /** `Timers.Remove`. The removed item keeps an index that is no longer its own. */
    method Remove(i: nat)
      requires Valid() && i < |timers|
      modifies this`timers, Items()`index
      ensures Valid() && multiset(timers) == old(multiset(timers)) - multiset{old(timers[i])}
      ensures Items() == old(Items()) - {old(timers[i])} && |timers| == old(|timers|) - 1
      ensures old(timers[i]).index == |timers|
      ensures 0 < i ==> timers != [] && timers[0] == old(timers[0])
    {
      hide Heap, HeapBut, LeastHead;
      var n := |timers| - 1;
      if n != i {
        var item := SwapOut(i);
        Fix(i);
      } else {
        HeapCut(Keys(timers), n);
        var item := CutTail();
      }
    }

    /** `Timers.Pop`: the item that expires first, marked with index -1, or null. */
    method Pop() returns (item: TimeItem?)
      requires Valid()
      modifies this`timers, Items()`index
      ensures Valid()
      ensures item == null <==> old(timers) == []
      ensures item == null ==> timers == []
      ensures item != null ==>
                && item == old(timers[0]) && item.index == -1
                && multiset(timers) == old(multiset(timers)) - multiset{item}
                && Items() == old(Items()) - {item} && |timers| == old(|timers|) - 1
                && forall t <- old(Items()) :: item.expire <= t.expire
    {
      hide Heap, HeapBut, LeastHead;
      if |timers| == 0 {
        return null;
      }
      HeapHasLeastHead(Keys(timers));
      LeastOfItems(timers, timers[0]);
      item := SwapOut(0);
      item.index := -1;
      Fix(0);
    }

    method Head() returns (head: TimeItem?)
      ensures head == if timers == [] then null else timers[0]
    {
      head := if |timers| > 0 then timers[0] else null;
    }

    // ---------- what is due ----------

    /** Some other item has expired by then. */
    predicate OtherBy(item: TimeItem, time: int)
      reads this, timers
    {
      exists t <- timers :: t != item && t.expire <= time
    }

    /** A pop at that time would not be early without the item, which is queued. */
    predicate QuietWithout(item: TimeItem, time: int)
      reads this, timers
    {
      OtherBy(item, time) || |timers| == 1
    }

    /** Nothing expires before the head. */
    ghost predicate HeadFirst()
      reads this, timers
    {
      timers != [] ==> forall t <- timers :: timers[0].expire <= t.expire
    }

    lemma HeadIsFirst()
      requires Valid()
      ensures HeadFirst()
    {
      if timers != [] {
        HeapHasLeastHead(Keys(timers));
        LeastOfItems(timers, timers[0]);
      }
    }

    lemma QuietIs(time: int)
      requires Valid()
      ensures Quiet(time) <==> timers == [] || exists t <- timers :: t.expire <= time
    {
      HeadIsFirst();
      assert timers != [] ==> timers[0] in timers;
    }

    /** What is due after adding an item. */
    twostate lemma AddedIs(new item: TimeItem, time: int)
      requires old(HeadFirst()) && Valid() && Items() == old(Items()) + {item}
      requires forall t <- old(timers) :: t.expire == old(t.expire)
      ensures Quiet(time) <==> item.expire <= time || old(timers != [] && Quiet(time))
    {
      QuietIs(time);
      assert forall t <- timers :: t in Items();
      assert forall t <- old(timers) :: t in old(Items()) && t in Items();
      assert item in Items();
      assert old(timers != []) ==> old(timers[0]) in old(timers);
    }

    /** What is due after taking out an item. */
    twostate lemma WithoutIs(new item: TimeItem, time: int)
      requires Valid() && old(item in timers) && Items() == old(Items()) - {item} && |timers| == old(|timers|) - 1
      requires forall t <- old(timers) :: t.expire == old(t.expire)
      ensures Quiet(time) <==> old(QuietWithout(item, time))
    {
      QuietIs(time);
      assert forall t <- timers :: t in Items();
      assert forall t <- old(timers) :: t in old(Items());
      if old(OtherBy(item, time)) {
        var t :| t in old(timers) && t != item && old(t.expire) <= time;
        assert t in Items();
      }
      assert timers != [] ==> timers[0] in Items();
    }

    twostate predicate OthersStay(new item: TimeItem)
      reads this, timers
    {
      forall t <- timers | t in old(timers) && t != item :: t.expire == old(t.expire)
    }

    /** What is due after moving an item. */
    twostate lemma MovedIs(new item: TimeItem, time: int)
      requires Valid() && old(item in timers) && Items() == old(Items())
      requires OthersStay(item)
      ensures Quiet(time) <==> item.expire <= time || old(OtherBy(item, time))
    {
      QuietIs(time);
      assert forall t <- timers :: t in Items();
      assert forall t <- old(timers) :: t in old(Items());
      assert item in Items();
      if old(OtherBy(item, time)) {
        var t :| t in old(timers) && t != item && old(t.expire) <= time;
        assert t in Items();
      }
    }

    // ---------- the signal and its ticks ----------

    /** The signal is set for the head, or for at most `late` after it; never for before it. */
    ghost predicate Armed(late: nat)
      reads this, timers
    {
      timers != [] ==> signal.At? && timers[0].expire <= signal.time <= timers[0].expire + late
    }

    // ---------- when a step leaves the ticks honest ----------

    /** Adding an item that expires then: into an empty heap only if no tick under way was sent before that. */
    predicate MayAdd(expire: int)
      reads this, timers
    {
      timers != [] || ((channel.Full? ==> expire <= channel.at) && (phase.Ticked? ==> expire <= phase.at))
    }

    /** Taking out a queued item: each tick under way must find another one that has expired, or nothing. */
    predicate MayTake(item: TimeItem)
      reads this, timers
    {
      item in timers ==>
        && (channel.Full? ==> QuietWithout(item, channel.at))
        && (phase.Ticked? ==> QuietWithout(item, phase.at))
    }

    /** Moving a queued item: the signal and each tick under way must find it, or another one, expired. */
    predicate MayReset(item: TimeItem, expire: int)
      reads this, timers
    {
      item in timers ==>
        && (channel.Full? ==> expire <= channel.at || OtherBy(item, channel.at))
        && (phase.Ticked? ==> expire <= phase.at || OtherBy(item, phase.at))
        && (signal.At? ==> expire <= signal.time || OtherBy(item, signal.time))
    }

    /** A tick that is lost in a full channel does no harm. */
    predicate MayGoOff(now: int)
      reads this, timers
    {
      channel.Full? || Quiet(now)
    }

    /** Popping: a tick that is already waiting in the channel must find another item expired, or nothing. */
    predicate MayFire()
      reads this, timers
    {
      timers != [] && channel.Full? ==> QuietWithout(timers[0], channel.at)
    }

    twostate lemma AddedHonest(new item: TimeItem, expire: int)
      requires old(HeadFirst()) && Valid() && item in timers
      requires Items() == old(Items()) + {item} && item.expire == expire
      requires forall t <- old(timers) :: t.expire == old(t.expire)
      requires channel == old(channel) && !phase.Ticked? == old(!phase.Ticked?)
      requires phase.Ticked? ==> phase == old(phase)
      requires timers[0] != item ==>
                 old(timers) != [] && timers[0] == old(timers[0]) && AboutToSet() == old(AboutToSet())
      requires if timers[0] == item then signal == At(expire) || AboutToSet() else signal == old(signal)
      ensures old(Honest()) ==> (Honest() <==> old(MayAdd(expire)))
    {
      hide Valid, HeadFirst, AboutToSet;
      if channel.Full? {
        AddedIs(item, channel.at);
      }
      if phase.Ticked? {
        AddedIs(item, phase.at);
      }
      if signal.At? {
        AddedIs(item, signal.time);
      }
    }

    twostate lemma TakenHonest(new item: TimeItem)
      requires Valid() && old(item in timers) && Items() == old(Items()) - {item} && |timers| == old(|timers|) - 1
      requires forall t <- old(timers) :: t.expire == old(t.expire)
      requires channel == old(channel) && (phase == old(phase) || !phase.Ticked?)
      requires signal.At? ==> Quiet(signal.time) || AboutToSet()
      ensures Honest() <==> && (channel.Full? ==> old(QuietWithout(item, channel.at)))
                            && (phase.Ticked? ==> old(QuietWithout(item, phase.at)))
    {
      hide Valid;
      if channel.Full? {
        WithoutIs(item, channel.at);
      }
      if phase.Ticked? {
        WithoutIs(item, phase.at);
      }
    }

    twostate lemma MovedHonest(new item: TimeItem, expire: int)
      requires old(Valid() && HeadFirst() && item in timers)
      requires Valid() && Items() == old(Items()) && item.expire == expire
      requires OthersStay(item)
      requires signal == old(signal) && channel == old(channel) && phase == old(phase)
      ensures timers != []
      ensures old(Honest() && MayReset(item, expire)) ==> Honest()
      ensures old(Honest()) && Honest() && !phase.Requeued? ==> old(MayReset(item, expire))
    {
      hide Heap, Keys;
      assert item in Items();
      if channel.Full? {
        MovedIs(item, channel.at);
      }
      if phase.Ticked? {
        MovedIs(item, phase.at);
      }
      if signal.At? {
        MovedIs(item, signal.time);
      }
    }

    twostate lemma MovedArmed(new item: TimeItem, expire: int)
      requires old(Valid() && HeadFirst() && item in timers)
      requires Valid() && Items() == old(Items()) && item.expire == expire
      requires OthersStay(item)
      requires signal == old(signal) && old(Armed(0))
      ensures timers != []
      ensures timers[0].expire <= signal.time <==>
                old(timers[0]) != item || expire <= signal.time || old(OtherBy(item, signal.time))
      ensures signal.time <= timers[0].expire <==> signal.time <= expire
    {
      hide Heap, Keys;
      assert item in old(Items()) && item in Items();
      MovedIs(item, signal.time);
      MovedIs(item, signal.time - 1);
      assert old(timers[0]) in old(timers);
    }

    // ---------- the operations ----------

    method ArmFor(item: TimeItem)
      modifies this`signal
      ensures signal == if timers != [] && timers[0] == item then At(item.expire) else old(signal)
    {
      var head := Head();
      if head == item {
        signal := At(head.expire);
      }
    }

    /** Exactly the new item has been added. */
    twostate predicate Added(new item: TimeItem, expire: int, repeat: Repeat)
      reads this, timers, item
    {
      && Kept() && item.expire == expire && item.repeat == repeat
      && multiset(timers) == old(multiset(timers)) + multiset{item} && Items() == old(Items()) + {item}
      && timers != [] && signal == (if timers[0] == item then At(item.expire) else old(signal))
      && (old(Honest()) ==> (Honest() <==> old(MayAdd(expire))))
      && (old(Watched()) ==> Watched())
    }

    /** `Once` and `Schedule` at time now; they differ in what the callback will do. */
    method Start(now: int, timeout: int, repeat: Repeat) returns (item: TimeItem)
      requires Kept()
      modifies this`timers, this`signal, Items()`index
      ensures fresh(item) && Added(item, now + timeout, repeat)
    {
      hide Heap, Keys, Honest, MayAdd;
      HeadIsFirst();
      item := new TimeItem(|timers|, now + timeout, repeat);
      Add(item);
      ArmFor(item);
      AddedHonest(item, now + timeout);
    }

    method Once(now: int, timeout: int) returns (item: TimeItem)
      requires Kept()
      modifies this`timers, this`signal, Items()`index
      ensures fresh(item) && Added(item, now + timeout, Never)
    {
      item := Start(now, timeout, Never);
    }

    method Schedule(now: int, delay: int, interval: int) returns (item: TimeItem)
      requires Kept()
      modifies this`timers, this`signal, Items()`index
      ensures fresh(item) && Added(item, now + delay, Every(interval))
    {
      item := Start(now, delay, Every(interval));
    }

    /** `Delete`: exactly the queued items are removed; any other item, fired or deleted before, whatever index it
        still carries, changes nothing. */
    method Delete(item: TimeItem)
      requires Kept()
      modifies this`timers, this`signal, Items()`index
      ensures Kept()
      ensures item in old(timers) ==>
                && multiset(timers) == old(multiset(timers)) - multiset{item} && Items() == old(Items()) - {item}
                && item.index == |timers|
                && (old(item.index) > 0 ==> timers != [] && timers[0] == old(timers[0]))
                && signal == if old(item.index) == 0 && timers != [] then At(timers[0].expire) else old(signal)
      ensures item !in old(timers) ==> timers == old(timers) && signal == old(signal) && item.index == old(item.index)
      ensures old(Honest()) ==> (Honest() <==> old(MayTake(item)))
      ensures old(Watched()) ==> Watched()
    {
      hide Heap, Keys, OtherBy, QuietWithout;
      var n := |timers|;
      if n == 0 {
        return;
      }
      if item.index > 0 && item.index < n {
        if item != timers[item.index] {
          return;
        }
        Remove(item.index);
        if old(Honest()) {
          TakenHonest(item);
        }
      } else if item.index == 0 {
        if item != timers[item.index] {
          return;
        }
        Remove(item.index);
        var head := Head();
        if head != null && head != item {
          signal := At(head.expire);
        }
        TakenHonest(item);
      }
    }

    /** The part of `Reset` that changes the heap. */
    method Move(item: TimeItem, expire: int)
      requires Valid() && item in timers
      modifies this`timers, Items()`index, item`expire
      ensures Valid() && multiset(timers) == old(multiset(timers)) && Items() == old(Items()) && item.expire == expire
    {
      hide Heap, HeapBut, LeastHead;
      ghost var keys := Keys(timers);
      ChangeBut(keys, item.index, expire);
      item.expire := expire;
      assert Keys(timers) == keys[item.index := expire];
      Fix(item.index);
    }

    /** `Reset` moves a queued item and does not touch the signal. An index of -1 on a non-empty heap is out of range
        in the source too. */
    method Reset(item: TimeItem, now: int, delay: int)
      requires Kept() && (timers != [] ==> item.index >= 0)
      modifies this`timers, Items()`index, item`expire
      ensures Kept() && multiset(timers) == old(multiset(timers)) && Items() == old(Items())
      ensures if item in old(timers) then item.expire == now + delay
              else timers == old(timers) && item.expire == old(item.expire)
      // a signal that was set for the head is now early just when no item is due by it, and late just when this one is
      // due before it
      ensures item in old(timers) && old(Armed(0)) ==>
                && (timers[0].expire <= signal.time <==>
                      old(item.index > 0) || now + delay <= signal.time || old(OtherBy(item, signal.time)))
                && (signal.time <= timers[0].expire <==> signal.time <= now + delay)
      ensures old(Honest() && MayReset(item, now + delay)) ==> Honest()
      ensures old(Honest()) && Honest() && !phase.Requeued? ==> old(MayReset(item, now + delay))
    {
      hide Heap, Keys, Honest, Armed, OtherBy;
      var n := |timers|;
      if n == 0 {
        return;
      }
      if item.index < n {
        if item != timers[item.index] {
          return;
        }
        HeadIsFirst();
        Move(item, now + delay);
        MovedHonest(item, now + delay);
        if old(Armed(0)) {
          MovedArmed(item, now + delay);
        }
      }
    }

    /** The signal goes off; the tick is lost when one is in the channel already. */
    method GoOff(now: int)
      requires Kept() && signal.At? && signal.time <= now
      modifies this`signal, this`channel
      ensures Kept() && channel == (if old(channel).Full? then old(channel) else Full(now)) && signal == Spent
      ensures old(Honest()) ==> (Honest() <==> old(MayGoOff(now)))
      ensures Watched()
    {
      signal := Spent;
      if channel == Empty {
        channel := Full(now);
      }
    }

    /** The goroutine takes the tick out of the channel. */
    method Take()
      requires Kept() && phase == Waiting && channel.Full?
      modifies this`channel, this`phase
      ensures Kept() && channel == Empty && phase == Ticked(old(channel.at))
      ensures Honest() <==> old(Honest())
      ensures Watched()
    {
      phase, channel := Ticked(channel.at), Empty;
    }

    /** `once` up to the unlock. What it pops expires no later than anything else, and had expired when the tick was
        sent exactly when the tick was still honest. */
    method Fire(now: int) returns (item: TimeItem?)
      requires Kept() && phase.Ticked? && phase.at <= now
      modifies this`timers, this`signal, this`phase, Items()`index
      ensures Kept()
      ensures item == null <==> old(timers) == []
      ensures if item == null then phase == Waiting && timers == [] else phase == Popped(item)
      ensures item != null ==>
                && item == old(timers[0]) && item.index == -1 && (forall t <- old(Items()) :: item.expire <= t.expire)
                && multiset(timers) == old(multiset(timers)) - multiset{item} && Items() == old(Items()) - {item}
                && (item.expire <= old(phase.at) <==> old(Quiet(phase.at)))
                && (old(Honest()) ==> item.expire <= now)
      ensures signal == if item == null then Forever else if timers != [] then At(timers[0].expire) else old(signal)
      ensures old(Honest()) ==> (Honest() <==> old(MayFire()))
      ensures Watched()
    {
      hide Heap, Keys, Indexed;
      HeadIsItem(timers);
      item := Pop();
      if item != null {
        var head := Head();
        if head != null {
          signal := At(head.expire);
        }
        phase := Popped(item);
        TakenHonest(item);
      } else {
        signal := Forever;
        phase := Waiting;
      }
    }

    /** The callback of the popped item: of a `Once` item all of it, of a `Schedule` item up to the unlock. */
    method Call(now: int)
      requires Kept() && phase.Popped?
      modifies this`timers, this`phase, Items()`index, phase.item`index, phase.item`expire
      ensures Kept()
      ensures var item := old(phase.item);
              match item.repeat
              case Never => phase == Waiting && timers == old(timers)
              case Every(interval) =>
                && phase == Requeued(item, now) && item.expire == now + interval
                && multiset(timers) == old(multiset(timers)) + multiset{item} && Items() == old(Items()) + {item}
      ensures old(Honest()) ==>
                (Honest() <==> old(phase.item.repeat.Every? ==> MayAdd(now + phase.item.repeat.interval)))
      ensures old(Watched()) ==> Watched()
    {
      hide Heap, Keys;
      var item := phase.item;
      match item.repeat {
        case Never =>
          phase := Waiting;
        case Every(interval) =>
          HeadIsFirst();
          item.index := |timers|;
          item.expire := now + interval;
          Add(item);
          phase := Requeued(item, now);
          AddedHonest(item, now + interval);
      }
    }

    /** The rest of a `Schedule` callback: set the signal if the item is the head. The time left is reckoned from the
        clock as it was read before, so the signal is late by the time the callback has taken. */
    method Finish(now: int)
      requires Kept() && phase.Requeued? && phase.since <= now
      modifies this`signal, this`phase, this`slack
      ensures var late := now - old(phase.since);
              && slack == (if late > old(slack) then late else old(slack))
              && signal == if timers != [] && timers[0] == old(phase.item) then At(timers[0].expire + late)
                           else old(signal)
      ensures Kept() && phase == Waiting
      ensures old(Honest()) ==> Honest()
      ensures old(Watched()) ==> Watched()
      ensures old(Honest() && Watched() && Settled()) ==> Armed(slack)
    {
      var head := Head();
      if head == phase.item {
        signal := At(now + (head.expire - phase.since));
      }
      slack := if now - phase.since > slack then now - phase.since else slack;
      phase := Waiting;
    }
  }
}
