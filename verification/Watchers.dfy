/** The watcher table of an event loop, src/unix/core.c: uv__io_start, uv__io_stop and the growth
    of the table, with the lists as sequences. */
module Watchers {
  import opened Common
  import opened PowerOfTwo

  const UV_ENOMEM: int := -12
  const INT_MAX := 0x7FFF_FFFF

  // ---------- the table ----------

  class Watcher {
    var fd: int                // -1 for none
    var events: bv16
    var pevents: bv16

    // uv__io_init
    constructor (fd: int)
      ensures this.fd == fd && events == 0 && pevents == 0
    {
      this.fd, events, pevents := fd, 0, 0;
    }
  }

  function Used(s: seq<Watcher?>): nat {
    if s == [] then 0 else Used(s[1..]) + if s[0] != null then 1 else 0
  }

  lemma {:induction false} UsedSet(s: seq<Watcher?>, i: nat, w: Watcher?)
    requires i < |s|
    ensures Used(s[i := w]) == Used(s) + (if w != null then 1 else 0) - (if s[i] != null then 1 else 0)
    ensures s[i] != null ==> Used(s) > 0
  {
    if i == 0 {
      assert s[0 := w][1..] == s[1..];
    } else {
      UsedSet(s[1..], i - 1, w);
      assert s[i := w][1..] == s[1..][i - 1 := w];
    }
  }

  lemma {:induction false} UsedMore(s: seq<Watcher?>, n: nat)
    ensures Used(s + seq(n, i => null)) == Used(s)
  {
    var z := seq(n, i => null);
    if s != [] {
      assert (s + z)[1..] == s[1..] + z;
      UsedMore(s[1..], n);
    } else if n > 0 {
      assert s + z == z && z[1..] == [] + seq(n - 1, i => null);
      UsedMore([], n - 1);
    }
  }

  class Loop {
    var watchers: array<Watcher?>       // two more slots than nwatchers, or none at first
    var nwatchers: nat
    var nfds: nat
    var queue: seq<Watcher>             // loop->watcher_queue
    ghost var all: set<Watcher>         // the watchers that were started
    ghost var freed: bool               // the memory of the table was given up

    // nfds counts the slots in use; a watcher is in the slot of its descriptor; a queued watcher
    // has events that it wants and a slot in the table; and a watcher whose wanted events are not
    // those that the kernel was told of is queued.
    ghost predicate Valid()
      reads this, watchers, all
    {
      && Table() && Slots(watchers[..nwatchers], all)
      && NoDup(queue) && Queued(queue, all, nwatchers) && Told(queue, all, nwatchers)
    }

    ghost predicate Table()
      reads this, watchers
    {
      && !freed
      && (if watchers.Length == 0 then nwatchers == 0
          else watchers.Length == nwatchers + 2 <= MAX_POWER && IsPower(nwatchers + 2))
      && nfds == Used(watchers[..nwatchers])
    }

    constructor ()
      ensures Valid() && queue == [] && all == {} && fresh(watchers)
    {
      watchers := new Watcher?[0];
      nwatchers, nfds, queue, all, freed := 0, 0, [], {}, false;
    }

    // maybe_resize: the slots that there were stay as they are, the new ones are free, and with the two
    // extra slots the table gets the least power of two that is enough.  From 2^31 - 1 slots on the
    // size wraps to 0, the table is given up and the error is that for no memory.
    method MaybeResize(len: nat) returns (err: int)
      requires Table() && len + 2 < 2 * MAX_POWER
      modifies this`watchers, this`nwatchers, this`freed
      ensures err == if len + 2 > MAX_POWER then UV_ENOMEM else 0
      ensures err == 0 ==> Table() && len <= nwatchers && old(nwatchers) <= nwatchers
      ensures err == 0 ==>
        watchers[..nwatchers] == old(watchers[..nwatchers]) + seq(nwatchers - old(nwatchers), i => null)
      ensures err == 0 ==> nwatchers == old(nwatchers) || (nwatchers + 2) / 2 < len + 2
      ensures err == 0 ==> watchers == old(watchers) || fresh(watchers)
      ensures err != 0 ==> freed && watchers == old(watchers) && nwatchers == old(nwatchers)
    {
      hide NextPower, Used, IsPower;
      if len <= nwatchers {
        assert watchers[..nwatchers] == old(watchers[..nwatchers]) + seq(nwatchers - old(nwatchers), i => null);
        return 0;
      }
      NextPowerIs(len + 2);
      var n := (NextPower(len + 2) - 2) % 0x1_0000_0000;
      if (n + 2) % 0x1_0000_0000 == 0 {
        freed := true;
        return UV_ENOMEM;
      }
      var w := Grown(n);
      ghost var slots := watchers[..nwatchers];
      UsedMore(slots, n - nwatchers);
      watchers, nwatchers := w, n;
      return 0;
    }

    // The reallocation in lines 889-898.
    method Grown(n: nat) returns (w: array<Watcher?>)
      requires Table() && n > nwatchers
      ensures fresh(w) && w.Length == n + 2
      ensures w[..n] == watchers[..nwatchers] + seq(n - nwatchers, i => null)
    {
      w := new Watcher?[n + 2](i => null);
      var i := 0;
      while i < nwatchers
        invariant 0 <= i <= nwatchers && w[..i] == watchers[..i]
        invariant forall k :: i <= k < n ==> w[k] == null
        modifies w
      {
        w[i] := watchers[i];
        i := i + 1;
      }
      if watchers.Length > 0 {
        w[n], w[n + 1] := watchers[nwatchers], watchers[nwatchers + 1];
      }
      assert w[..n] == watchers[..nwatchers] + seq(n - nwatchers, k => null);
    }

    // Line 925: the wanted events grow; what depends on those of the others stays.
    method Want(w: Watcher, events: bv16)
      requires Valid() && events != 0 && (w !in all ==> w.events == 0 && w.pevents == 0)
      modifies this`all, w`pevents
      ensures all == old(all) + {w} && w.pevents == With(old(w.pevents), events) && w.pevents != 0
      ensures Slots(watchers[..nwatchers], all) && Queued(queue, all, nwatchers) && ToldBut(queue, all, nwatchers, w)
    {
      hide Used, NoDup, With, IsPower;
      all := all + {w};
      w.pevents := With(w.pevents, events);
    }

    // Lines 939-940 and 994-995.
    method Enqueue(w: Watcher)
      requires NoDup(queue) && Queued(queue, all, nwatchers) && ToldBut(queue, all, nwatchers, w)
      requires w in all && w.pevents != 0 && 0 <= w.fd < nwatchers
      modifies this`queue
      ensures NoDup(queue) && Queued(queue, all, nwatchers) && Told(queue, all, nwatchers) && w in queue
      ensures queue == if w in old(queue) then old(queue) else old(queue) + [w]
    {
      if w !in queue {
        NoDupPush(queue, w);
        queue := queue + [w];
      }
    }

    // Lines 942-945.
    method Occupy(w: Watcher)
      requires Table() && 0 <= w.fd < nwatchers && w in all && w.pevents != 0 && Slots(watchers[..nwatchers], all)
      modifies this`nfds, watchers
      ensures Table() && Slots(watchers[..nwatchers], all)
      ensures watchers[..nwatchers] ==
        old(if watchers[w.fd] == null then watchers[..nwatchers][w.fd := w] else watchers[..nwatchers])
    {
      hide Used, IsPower;
      if watchers[w.fd] == null {
        ghost var slots := watchers[..nwatchers];
        UsedSet(slots, w.fd, w);
        watchers[w.fd] := w;
        assert watchers[..nwatchers] == slots[w.fd := w];
        nfds := nfds + 1;
      }
    }

    // The slots of the table after a start that the kernel has to be told of, or not.
    ghost predicate Entered(was: seq<Watcher?>, fd: int, w: Watcher, news: bool)
      reads this, watchers
    {
      nwatchers <= watchers.Length && forall i :: 0 <= i < nwatchers ==>
        watchers[i] ==
          if i < |was| && was[i] != null then was[i]
          else if i == fd && news then w
          else null
    }

    // Lines 925-928.
    method Prepare(w: Watcher, events: bv16) returns (err: int)
      requires Valid() && events != 0 && 0 <= w.fd < INT_MAX
      requires w !in all ==> w.events == 0 && w.pevents == 0
      modifies this`watchers, this`nwatchers, this`freed, this`all, w`pevents
      ensures err == if w.fd + 1 == INT_MAX then UV_ENOMEM else 0
      ensures w.pevents == With(old(w.pevents), events) && w.pevents != 0 && all == old(all) + {w}
      ensures err == 0 ==> Table() && w.fd < nwatchers && old(nwatchers) <= nwatchers
      ensures err == 0 ==>
        watchers[..nwatchers] == old(watchers[..nwatchers]) + seq(nwatchers - old(nwatchers), i => null)
      ensures err == 0 ==>
        Slots(watchers[..nwatchers], all) && Queued(queue, all, nwatchers) && ToldBut(queue, all, nwatchers, w)
      ensures watchers == old(watchers) || (err == 0 && fresh(watchers))
      ensures err != 0 ==> freed && nwatchers == old(nwatchers)
    {
      hide Used, NoDup, Slots, Queued, ToldBut, Told, IsPower, With;
      ghost var slots, n0 := watchers[..nwatchers], nwatchers;
      Want(w, events);
      assert watchers[..nwatchers] == slots;
      err := MaybeResize(w.fd + 1);
      if err == 0 {
        SlotsMore(slots, nwatchers - n0, all);
        QueuedMore(queue, all, n0, nwatchers, w);
      }
    }

    // Lines 925-947.
    method Enter(w: Watcher, events: bv16) returns (err: int)
      requires Valid() && events != 0 && 0 <= w.fd < INT_MAX
      requires w !in all ==> w.events == 0 && w.pevents == 0
      modifies this, watchers, w`pevents
      ensures err == if w.fd + 1 == INT_MAX then UV_ENOMEM else 0
      ensures w.pevents == With(old(w.pevents), events) && all == old(all) + {w}
      ensures err == 0 ==> Valid() && w.fd < nwatchers && old(nwatchers) <= nwatchers
      ensures err == 0 ==> Entered(old(watchers[..nwatchers]), w.fd, w, w.pevents != w.events)
      ensures queue == old(queue) + if err == 0 && w.pevents != w.events && w !in old(queue) then [w] else []
      ensures watchers == old(watchers) || (err == 0 && fresh(watchers))
      ensures err != 0 ==> freed && nwatchers == old(nwatchers) && nfds == old(nfds)
    {
      hide Used, NoDup, Slots, Queued, ToldBut, Told, IsPower, With, Entered;
      ghost var slots := watchers[..nwatchers];
      err := Prepare(w, events);
      if err != 0 {
        return;
      }
      if w.events == w.pevents {
        ToldSame(queue, all, nwatchers, w);
        EnteredNone(slots, nwatchers - |slots|, w);
        return;
      }
      ghost var more := nwatchers - |slots|;
      Enqueue(w);
      Occupy(w);
      EnteredSlot(slots, more, w);
    }

    lemma EnteredNone(was: seq<Watcher?>, more: nat, w: Watcher)
      requires nwatchers <= watchers.Length && watchers[..nwatchers] == was + seq(more, i => null)
      ensures Entered(was, w.fd, w, false)
    {
      ghost var all := was + seq(more, i => null);
      assert forall i :: 0 <= i < nwatchers ==> watchers[i] == all[i];
    }

    lemma EnteredSlot(was: seq<Watcher?>, more: nat, w: Watcher)
      requires nwatchers <= watchers.Length && nwatchers == |was| + more && 0 <= w.fd < nwatchers
      requires
        var grown := was + seq(more, i => null);
        watchers[..nwatchers] == if grown[w.fd] == null then grown[w.fd := w] else grown
      ensures Entered(was, w.fd, w, true)
    {
      ghost var grown := was + seq(more, i => null);
      ghost var now := watchers[..nwatchers];
      assert forall i :: 0 <= i < nwatchers ==> watchers[i] == now[i];
      assert forall i :: 0 <= i < nwatchers ==> grown[i] == if i < |was| then was[i] else null;
    }

    // uv__io_start: the wanted events are the old ones and the new.  A watcher whose wanted events are
    // not those that the kernel knows is queued behind the others and takes the slot of its
    // descriptor if that is free; nothing else in the table changes.
    method Start(w: Watcher, events: bv16) returns (err: int)
      requires Valid() && events != 0 && 0 <= w.fd < INT_MAX
      requires w !in all ==> w.events == 0 && w.pevents == 0
      modifies this, watchers, w`pevents
      ensures err == if w.fd + 1 == INT_MAX then UV_ENOMEM else 0
      ensures w.pevents == old(w.pevents) | events
      ensures Includes(w.pevents, events) && Includes(w.pevents, old(w.pevents))
      ensures all == old(all) + {w} && old(nwatchers) <= nwatchers
      ensures err == 0 ==>
        Valid() && w.fd < nwatchers && Entered(old(watchers[..nwatchers]), w.fd, w, w.pevents != w.events)
      ensures queue == old(queue) + if err == 0 && w.pevents != w.events && w !in old(queue) then [w] else []
      ensures watchers == old(watchers) || (err == 0 && fresh(watchers))
      ensures err != 0 ==> freed && nwatchers == old(nwatchers) && nfds == old(nfds)
    {
      hide *;
      WithHas(w.pevents, events);
      err := Enter(w, events);
    }

    // Lines 988-992.
    method Vacate(w: Watcher)
      requires Table() && 0 <= w.fd < nwatchers && SlotsBut(watchers[..nwatchers], all, w)
      modifies this`nfds, watchers
      ensures Table() && watchers[w.fd] != w && SlotsBut(watchers[..nwatchers], all, w)
      ensures watchers[..nwatchers] ==
        old(if watchers[w.fd] == w then watchers[..nwatchers][w.fd := null] else watchers[..nwatchers])
    {
      hide Used, IsPower;
      if w == watchers[w.fd] {
        ghost var slots := watchers[..nwatchers];
        UsedSet(slots, w.fd, null);
        assert slots[w.fd] == w;
        watchers[w.fd] := null;
        assert watchers[..nwatchers] == slots[w.fd := null];
        nfds := nfds - 1;
      }
    }

    // Line 981: the wanted events shrink.
    method Unwant(w: Watcher, events: bv16)
      requires Valid() && (w !in all ==> w.events == 0 && w.pevents == 0)
      modifies w`pevents
      ensures w.pevents == old(w.pevents) & !events && (old(w.pevents) == 0 ==> w.pevents == 0)
      ensures SlotsBut(watchers[..nwatchers], all, w) && QueuedBut(queue, all, nwatchers, w)
        && ToldBut(queue, all, nwatchers, w)
    {
      w.pevents := w.pevents & !events;
    }

    // Lines 984-986.
    method Forget(w: Watcher)
      requires NoDup(queue) && QueuedBut(queue, all, nwatchers, w) && ToldBut(queue, all, nwatchers, w)
        && w.pevents == 0
      modifies this`queue, w`events
      ensures NoDup(queue) && Queued(queue, all, nwatchers) && Told(queue, all, nwatchers) && w !in queue
        && w.events == 0 && queue == Without(old(queue), w)
    {
      WithoutIs(queue, w);
      queue := Without(queue, w);
      w.events := 0;
    }

    // uv__io_stop
    method Stop(w: Watcher, events: bv16)
      requires Valid() && events != 0 && w.fd >= -1 && (w !in all ==> w.events == 0 && w.pevents == 0)
      modifies this`queue, this`nfds, watchers, w`pevents, w`events
      ensures Valid()
      ensures
        if w.fd == -1 || w.fd >= nwatchers then w.pevents == old(w.pevents) && w.events == old(w.events)
        else
          && w.pevents == old(w.pevents) & !events
          && w.events == if w.pevents == 0 then 0 else old(w.events)
      ensures
        if w.fd == -1 || w.fd >= nwatchers then queue == old(queue)
        else if w.pevents == 0 then queue == Without(old(queue), w)
        else queue == old(queue) + if w in old(queue) then [] else [w]
      ensures forall i :: 0 <= i < nwatchers ==>
        watchers[i] ==
          if i == w.fd && w.pevents == 0 && old(watchers[..])[i] == w then null else old(watchers[..])[i]
    {
      hide Used, NoDup, Slots, Queued, ToldBut, Told, SlotsBut, QueuedBut, IsPower;
      if w.fd == -1 {
        return;
      }
      if w.fd >= nwatchers {
        return;
      }
      Unwant(w, events);
      if w.pevents == 0 {
        Forget(w);
        Vacate(w);
        SlotsAgain(watchers[..nwatchers], all, w);
      } else {
        StillWanted(watchers[..nwatchers], queue, all, nwatchers, w);
        Enqueue(w);
      }
    }

    // The loop of uv__io_poll that tells the kernel of the queued watchers, src/unix/linux.c.
    method Flush() returns (told: seq<Change>)
      requires Valid()
      modifies this`queue, set w | w in all :: w`events
      ensures Valid() && queue == [] && forall w :: w in all ==> w.events == w.pevents
      ensures |told| == |old(queue)| && forall i :: 0 <= i < |told| ==> var w := old(queue)[i];
        told[i] == Change(old(w.events) == 0, w.fd, w.pevents)
    {
      hide Used, NoDup, Slots, IsPower, Table;
      ghost var all0, k := queue, 0;
      told := [];
      while queue != []
        invariant Valid() && k == |told| <= |all0| && queue == all0[k..]
        invariant forall w :: w in queue ==> w.events == old(w.events)
        invariant forall i :: 0 <= i < k ==>
          told[i] == Change(old(all0[i].events) == 0, all0[i].fd, all0[i].pevents)
        decreases |queue|
      {
        assert queue[0] == all0[k] && queue[1..] == all0[k + 1..];
        var change := Tell(queue[0]);
        told := told + [change];
        k := k + 1;
      }
    }

    // One turn of that loop.
    method Tell(w: Watcher) returns (change: Change)
      requires Valid() && queue != [] && w == queue[0]
      modifies this`queue, w`events
      ensures Valid() && queue == old(queue[1..]) && w !in queue
      ensures change == Change(old(w.events) == 0, w.fd, w.pevents)
    {
      hide Used, NoDup, Slots, IsPower;
      NoDupPop(queue);
      queue := queue[1..];
      change := Change(w.events == 0, w.fd, w.pevents);
      w.events := w.pevents;
    }
  }

  // A call of epoll_ctl, to add the descriptor or to modify its events.
  datatype Change = Change(add: bool, fd: int, events: bv16)

  // The predicates for all watchers but w.
  ghost predicate SlotsBut(slots: seq<Watcher?>, all: set<Watcher>, w: Watcher)
    reads (set x | x in all)`fd, (set x | x in all)`pevents
  {
    forall i :: 0 <= i < |slots| && slots[i] != null ==>
      slots[i] in all && slots[i].fd == i && (slots[i] != w ==> slots[i].pevents != 0)
  }

  ghost predicate QueuedBut(queue: seq<Watcher>, all: set<Watcher>, n: nat, w: Watcher)
    reads (set x | x in all)`fd, (set x | x in all)`pevents
  {
    forall x :: x in queue ==> x in all && (x != w ==> x.pevents != 0) && 0 <= x.fd < n
  }

  ghost predicate ToldBut(queue: seq<Watcher>, all: set<Watcher>, n: nat, w: Watcher)
    reads all
  {
    forall x :: x in all && x != w ==> (x.pevents != x.events ==> x in queue) && (x.pevents != 0 ==> 0 <= x.fd < n)
  }

  lemma QueuedMore(queue: seq<Watcher>, all: set<Watcher>, n: nat, m: nat, w: Watcher)
    requires Queued(queue, all, n) && ToldBut(queue, all, n, w) && n <= m
    ensures Queued(queue, all, m) && ToldBut(queue, all, m, w)
  {
  }

  lemma ToldSame(queue: seq<Watcher>, all: set<Watcher>, n: nat, w: Watcher)
    requires ToldBut(queue, all, n, w) && w.events == w.pevents && 0 <= w.fd < n
    ensures Told(queue, all, n)
  {
  }

  lemma SlotsAgain(slots: seq<Watcher?>, all: set<Watcher>, w: Watcher)
    requires SlotsBut(slots, all, w) && 0 <= w.fd < |slots| && slots[w.fd] != w
    ensures Slots(slots, all)
  {
  }

  lemma StillWanted(slots: seq<Watcher?>, queue: seq<Watcher>, all: set<Watcher>, n: nat, w: Watcher)
    requires SlotsBut(slots, all, w) && QueuedBut(queue, all, n, w) && w.pevents != 0
    ensures Slots(slots, all) && Queued(queue, all, n)
  {
  }

  lemma SlotsMore(slots: seq<Watcher?>, n: nat, all: set<Watcher>)
    requires Slots(slots, all)
    ensures Slots(slots + seq(n, i => null), all)
  {
  }

  // The events of both masks.
  function With(mask: bv16, events: bv16): (r: bv16)
    ensures events != 0 ==> r != 0
  {
    mask | events
  }

  predicate Includes(mask: bv16, events: bv16) {
    mask & events == events
  }

  predicate Disjoint(mask: bv16, events: bv16) {
    mask & events == 0
  }

  lemma HasNew(mask: bv16, events: bv16)
    ensures Includes(mask | events, events)
  {
  }

  lemma HasOld(mask: bv16, events: bv16)
    ensures Includes(mask | events, mask)
  {
  }

  lemma WithHas(mask: bv16, events: bv16)
    ensures var r := With(mask, events); r == mask | events && Includes(r, events) && Includes(r, mask)
  {
    HasNew(mask, events);
    HasOld(mask, events);
  }

  // A start and then a stop for other events leave the events of the start.
  lemma StartStop(was: bv16, mask: bv16, now: bv16, first: bv16, second: bv16)
    requires Disjoint(first, second) && mask == was | first && now == mask & !second
    ensures Includes(now, first) && (was == 0 ==> now == first)
  {
  }

  // The watchers in the slots.
  ghost predicate Slots(slots: seq<Watcher?>, all: set<Watcher>)
    reads (set x | x in all)`fd, (set x | x in all)`pevents
  {
    forall i :: 0 <= i < |slots| && slots[i] != null ==> slots[i] in all && slots[i].fd == i && slots[i].pevents != 0
  }

  ghost predicate Queued(queue: seq<Watcher>, all: set<Watcher>, n: nat)
    reads (set x | x in all)`fd, (set x | x in all)`pevents
  {
    forall w :: w in queue ==> w in all && w.pevents != 0 && 0 <= w.fd < n
  }

  ghost predicate Told(queue: seq<Watcher>, all: set<Watcher>, n: nat)
    reads all
  {
    forall w :: w in all ==> (w.pevents != w.events ==> w in queue) && (w.pevents != 0 ==> 0 <= w.fd < n)
  }
}
