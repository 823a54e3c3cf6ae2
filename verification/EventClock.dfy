/** Walking a red-black tree in order, and the simulated clock that takes its events from one, least run time first. */
module EventClock {
  import opened Words
  import opened Shapes
  import opened Deletion
  import opened IntervalTrees
  import opened Agendas

  // The outermost node on side s of the subtree t at the hole of c: its first or its last node.
  method Outermost(tree: Tree, start: Ptr, s: Side, ghost at: Path, ghost below: Shape) returns (n: Ptr)
    requires Whole(tree.mem, tree.root, at, below, tree.items) && below.N? && start == below.p
    ensures |Before(at)| + |Items(below)| <= |tree.items| && 0 < |Items(below)|
    ensures n == tree.items[if s.L? then |Before(at)| else |Before(at)| + |Items(below)| - 1].p && n in tree.mem
  {
    hide Whole, Before, Items, Down;
    var m := tree.mem;
    n := start;
    ghost var c, t := at, below;
    FocusFacts(m, tree.root, c, t, tree.items);
    OuterKid(m, tree.root, c, t, tree.items, s);
    while m[n].Kid(s) != NULL
      invariant Whole(m, tree.root, c, t, tree.items) && t.N? && t.p == n && n in m
      invariant if s.L? then |Before(c)| == |Before(at)| else |Before(c)| + |Items(t)| == |Before(at)| + |Items(below)|
      decreases t
    {
      FocusFacts(m, tree.root, c, t, tree.items);
      n := m[n].Kid(s);
      OuterKid(m, tree.root, c, t, tree.items, s);
      c, t := Down(s, c, t), t.Kid(s);
      FocusFacts(m, tree.root, c, t, tree.items);
    }
    FocusFacts(m, tree.root, c, t, tree.items);
    OuterKid(m, tree.root, c, t, tree.items, s);
  }

  // On side s the listing of the focus ends where that of its child on that side does, or with its root if it has none.
  lemma OuterKid(m: Mem, root: Ptr, c: Path, t: Shape, items: seq<Item>, s: Side)
    requires Whole(m, root, c, t, items) && t.N?
    ensures Whole(m, root, Down(s, c, t), t.Kid(s), items) && |Before(c)| + |Items(t)| <= |items| && 0 < |Items(t)|
    ensures if s.L? then |Before(Down(s, c, t))| == |Before(c)|
            else |Before(Down(s, c, t))| + |Items(t.Kid(s))| == |Before(c)| + |Items(t)|
    ensures t.Kid(s).E? ==>
      items[if s.L? then |Before(c)| else |Before(c)| + |Items(t)| - 1].p == t.p
  {
    hide Whole;
    FocusPlace(m, root, c, t, items);
    ZoomIn(m, root, c, t, items, s);
  }

  // rb_first and rb_last
  method End(tree: Tree, s: Side) returns (n: Ptr)
    requires tree.Valid()
    ensures n == NULL <==> tree.items == []
    ensures n != NULL ==> n in tree.mem && n == tree.items[if s.L? then 0 else |tree.items| - 1].p
  {
    hide Whole;
    FocusFacts(tree.mem, tree.root, tree.path, tree.cur, tree.items);
    BesideFocus(tree.mem, tree.root, tree.path, tree.cur, tree.items);
    n := tree.root;
    if n != NULL {
      n := Outermost(tree, n, s, tree.path, tree.cur);
    }
  }

  // Climbs from the root of t while it is the child on side s: the first other parent is beside the subtree.
  method ClimbPast(tree: Tree, start: Ptr, s: Side, ghost at: Path, ghost below: Shape) returns (parent: Ptr)
    requires Whole(tree.mem, tree.root, at, below, tree.items) && below.N? && start == below.p
    ensures |Before(at)| + |Items(below)| <= |tree.items|
    ensures var k := |Before(at)| + |Items(below)|;
      s.R? ==> parent == if k < |tree.items| then tree.items[k].p else NULL
    ensures s.L? ==> parent == if |Before(at)| > 0 then tree.items[|Before(at)| - 1].p else NULL
  {
    hide Whole;
    var m, node := tree.mem, start;
    ghost var c, t := at, below;
    FocusFacts(m, tree.root, c, t, tree.items);
    FocusPlace(m, tree.root, c, t, tree.items);
    parent := m[node].parent;
    while parent != NULL && m[parent].Kid(s) == node
      invariant Whole(m, tree.root, c, t, tree.items) && t.N? && t.p == node && parent == c.Parent() && NULL !in m
      invariant c.Step? ==> parent in m && parent != NULL
      invariant if s.R? then |Before(c)| + |Items(t)| == |Before(at)| + |Items(below)| else |Before(c)| == |Before(at)|
      decreases c
    {
      FocusFacts(m, tree.root, c, t, tree.items);
      ZoomOut(m, tree.root, c, t, tree.items);
      c, t := c.up, Plug(c, t);
      node := parent;
      FocusFacts(m, tree.root, c, t, tree.items);
      parent := m[node].parent;
    }
    FocusFacts(m, tree.root, c, t, tree.items);
    BesideFocus(m, tree.root, c, t, tree.items);
  }

  // In the listing, node is beside start on side s, NULL standing for none.
  ghost predicate NextTo(items: seq<Item>, start: Ptr, s: Side, node: Ptr) {
    exists k: nat :: k < |items| && items[k].p == start && node == PtrAt(items, if s.L? then k - 1 else k + 1)
  }

  ghost function PtrAt(items: seq<Item>, k: int): Ptr { if 0 <= k < |items| then items[k].p else NULL }

  lemma NextAt(items: seq<Item>, k: nat, start: Ptr, s: Side, node: Ptr)
    requires k < |items| && items[k].p == start && node == PtrAt(items, if s.L? then k - 1 else k + 1)
    ensures NextTo(items, start, s, node)
  {
  }

  /** rb_next (s == R) and rb_prev (s == L): the node beside the given one in the listing, NULL at its end. */
  method Neighbour(tree: Tree, start: Ptr, s: Side) returns (node: Ptr)
    requires tree.Valid() && start in tree.mem
    ensures NextTo(tree.items, start, s, node)
  {
    hide Whole, NextTo, Before, Items, Down;
    var m := tree.mem;
    WholePtrs(m, tree.root, tree.path, tree.cur, tree.items);
    ghost var c, t := FocusWithin(m, tree.root, tree.path, tree.cur, tree.items, start);
    FocusFacts(m, tree.root, c, t, tree.items);
    KidPlace(m, tree.root, c, t, tree.items, s);
    if m[start].Kid(s) != NULL {
      node := Outermost(tree, m[start].Kid(s), s.Other(), Down(s, c, t), t.Kid(s));
    } else {
      node := ClimbPast(tree, start, s, c, t);
    }
    NextAt(tree.items, |Before(c)| + |Items(t.l)|, start, s, node);
  }

  // Where the root of the focus stands in the listing, and its child on side s beside it.
  lemma KidPlace(m: Mem, root: Ptr, c: Path, t: Shape, items: seq<Item>, s: Side)
    requires Whole(m, root, c, t, items) && t.N?
    ensures Whole(m, root, Down(s, c, t), t.Kid(s), items)
    ensures |Before(c)| + |Items(t.l)| < |items| && items[|Before(c)| + |Items(t.l)|].p == t.p
    ensures var k, kid := |Before(c)| + |Items(t.l)|, t.Kid(s);
      && (s.R? ==> |Before(Down(s, c, t))| == k + 1) && (s.L? ==> |Before(Down(s, c, t))| + |Items(kid)| == k)
      && (kid.E? ==> k == if s.L? then |Before(c)| else |Before(c)| + |Items(t)| - 1)
  {
    hide Whole;
    FocusPlace(m, root, c, t, items);
    ZoomIn(m, root, c, t, items, s);
  }

  // What the parent of the focus is in the listing.
  lemma BesideFocus(m: Mem, root: Ptr, c: Path, t: Shape, items: seq<Item>)
    requires Whole(m, root, c, t, items)
    ensures c.Step? && c.side.L? ==>
      |Before(c)| + |Items(t)| < |items| && items[|Before(c)| + |Items(t)|].p == c.p
    ensures c.Step? && c.side.R? ==> 0 < |Before(c)| <= |items| && items[|Before(c)| - 1].p == c.p
    ensures c.Top? ==> Before(c) == [] && |Items(t)| == |items|
  {
  }

  // ---------- The run queue ----------

  function RunTimeCompare(a: u64, b: u64): int { if a > b then 1 else -1 }

  ghost predicate InTimeOrder(items: seq<Item>) {
    forall i, j :: 0 <= i < j < |items| ==> items[i].ext.start <= items[j].ext.start
  }

  class Clock {
    const runQ: Tree
    var now: u64
    var runTime: map<Ptr, u64>
    // The events that are in the run queue.
    var running: set<Ptr>

    ghost predicate Valid()
      reads this, runQ
    {
      && runQ.Valid() && InTimeOrder(runQ.items) && running == runQ.mem.Keys && NULL !in running
      && (forall i :: 0 <= i < |runQ.items| ==> Keeps(runQ.items[i], runTime))
      && forall i :: 0 <= i < |runQ.items| ==> runQ.items[i].ext.start >= now
    }

    constructor ()
      ensures Valid() && fresh(runQ) && now == 0 && running == {}
    {
      runQ := new Tree();
      now, runTime, running := 0, map[], {};
      new;
      EmptyQueue(runQ.mem, runQ.root, runQ.path, runQ.cur, runQ.items);
    }

    // The event is queued ahead of those that are due at the same time.
    method InsertRunQ(e: Ptr, time: u64)
      requires Valid() && e != NULL && e !in running && time >= now
      modifies this, runQ
      ensures Valid() && now == old(now) && running == old(running) + {e}
      ensures QueuedFirst(old(runQ.items), runQ.items, e, time)
      ensures runTime == old(runTime)[e := time]
      ensures Plan().queue == Enqueued(old(Plan()).queue, Due(e, time))
    {
      hide Whole, Splits, PlacedAt, Dues, Enqueued;
      var goesLeft := (x: Extent) => RunTimeCompare(time, x.start) < 0;
      TimesSplit(runQ.items, time, goesLeft);
      ghost var was := runQ.items;
      KeysAreItems(runQ.mem, runQ.root, runQ.path, runQ.cur, runQ.items);
      ghost var at := runQ.InsertBy(e, At(time), goesLeft);
      runTime := runTime[e := time];
      running := running + {e};
      QueuedInOrder(was, at, e, time, goesLeft);
      DuesInserted(was, at, e, time);
      QueuedKeeps(was, at, e, time, now, old(runTime));
    }

    // Takes an event out of the run queue.
    method RemoveFromRunQ(e: Ptr) returns (ghost at: nat)
      requires Valid() && e in running
      modifies this, runQ
      ensures Valid() && now == old(now) && running == old(running) - {e} && runTime == old(runTime)
      ensures at < |old(runQ.items)| && old(runQ.items)[at].p == e && runQ.items == RemoveAt(old(runQ.items), at)
      ensures Plan().queue == Dropped(old(Plan()).queue, e)
      ensures old(runQ.items)[0].p == e ==> at == 0
    {
      hide Whole, Dues, Dropped;
      ghost var was := runQ.items;
      DistinctListing(runQ.mem, runQ.root, runQ.path, runQ.cur, was);
      at := runQ.Erase(e);
      running := running - {e};
      RemovedKeeps(was, at);
      DuesRemoved(was, at);
    }

    // RunAfter: in `ticks` of time from now.
    method RunAfter(e: Ptr, ticks: nat)
      requires Valid() && e != NULL && e !in running && now + ticks <= MAX_U64
      modifies this, runQ
      ensures Valid() && now == old(now) && running == old(running) + {e} && runTime == old(runTime)[e := now + ticks]
      ensures Plan().queue == Enqueued(old(Plan()).queue, Due(e, now + ticks))
    {
      InsertRunQ(e, now + ticks);
    }

    // RunAt: at a time strictly in the future.
    method RunAt(e: Ptr, time: u64)
      requires Valid() && e != NULL && e !in running && time > now
      modifies this, runQ
      ensures Valid() && now == old(now) && running == old(running) + {e} && runTime == old(runTime)[e := time]
      ensures Plan().queue == Enqueued(old(Plan()).queue, Due(e, time))
    {
      InsertRunQ(e, time);
    }

    /** The next event, which is due no later than any other. */
    method NextRunEvent() returns (e: Ptr)
      requires Valid()
      modifies this, runQ
      ensures Valid() && now == old(now) && runTime == old(runTime) && (e == NULL <==> old(running) == {})
      ensures e == NULL ==> running == old(running)
      ensures e != NULL ==> e in old(running) && running == old(running) - {e} && e in runTime && runTime[e] >= now
      ensures e != NULL ==> forall x :: x in running ==> x in runTime && runTime[x] >= runTime[e]
      ensures e == NULL ==> Plan() == old(Plan()) && Plan().queue == []
      ensures e != NULL ==> e in runTime && old(Plan()).queue != [] && old(Plan()).queue[0] == Due(e, runTime[e])
      ensures e != NULL ==> Plan() == old(Plan()).(queue := old(Plan()).queue[1..])
    {
      hide Whole, Dropped;
      KeysAreItems(runQ.mem, runQ.root, runQ.path, runQ.cur, runQ.items);
      e := End(runQ, L);
      if e != NULL {
        LeastFirst(runQ.items, runTime);
        ghost var was := runQ.items;
        DistinctListing(runQ.mem, runQ.root, runQ.path, runQ.cur, was);
        ghost var at := RemoveFromRunQ(e);
        DuesRemoved(was, at);
      }
    }

    // What a callback may do: schedule, reschedule and cancel events.
    method Act(a: Action)
      requires Valid()
      modifies this, runQ
      ensures Valid() && now == old(now) && Plan() == Acted(old(Plan()), a)
    {
      hide Whole, Dues, Enqueued, Dropped;
      KeysAreItems(runQ.mem, runQ.root, runQ.path, runQ.cur, runQ.items);
      QueuedIn(runQ.items, a.e);
      match a
      case After(e, ticks) =>
        if e != NULL && e !in running && now + ticks <= MAX_U64 {
          RunAfter(e, ticks);
        }
      case Alarm(e, time) =>
        if e != NULL && e !in running && time > now {
          RunAt(e, time);
        }
      case Cancel(e) =>
        if e in running {
          ghost var at := RemoveFromRunQ(e);
        } else {
          DroppedNone(Plan().queue, e);
        }
    }

    /** The scheduling loop over as many events as callbacks are given: each event run is the first of the plan, which
      * is due no later than any other and was queued last of those due with it; the clock stands at its run time and
      * never moves backwards; and what the callbacks do to the plan is all that happens to it, until the clock passes
      * maxRunTicks and the rest is thrown away.
      */
    method Schedule(callbacks: seq<seq<Action>>, maxRunTicks: u64) returns (times: seq<u64>, ghost plans: seq<Agenda>)
      requires Valid()
      modifies this, runQ
      ensures Valid() && |times| <= |callbacks| && |plans| == |times| + 1
      ensures plans[0] == old(Plan()).(now := 0)
      ensures Plan() ==
        if times != [] && now > maxRunTicks then plans[|times|].(queue := []) else plans[|times|]
      ensures forall i :: 0 <= i < |times| ==> Ran(plans[i], callbacks[i], times[i], plans[i + 1])
      ensures forall i, j :: 0 <= i <= j < |times| ==> times[i] <= times[j] <= now
      ensures |times| < |callbacks| ==> Plan().queue == []
      ensures forall i :: 0 <= i < |times| - 1 ==> times[i] <= maxRunTicks
    {
      hide Valid, Ran;
      StartClock();
      times, plans := [], [Plan()];
      while |times| < |callbacks|
        invariant Valid() && |times| <= |callbacks| && |plans| == |times| + 1
        invariant plans[0] == old(Plan()).(now := 0) && plans[|times|] == Plan()
        invariant forall i :: 0 <= i < |times| ==> Ran(plans[i], callbacks[i], times[i], plans[i + 1])
        invariant forall i, j :: 0 <= i <= j < |times| ==> times[i] <= times[j] <= now
        invariant times != [] ==> now <= maxRunTicks
      {
        var e := RunNext(callbacks[|times|]);
        if e == NULL {
          return;
        }
        times, plans := times + [now], plans + [Plan()];
        if now > maxRunTicks {
          ThrowAway();
          return;
        }
      }
    }

    method StartClock()
      requires Valid()
      modifies `now
      ensures Valid() && Plan() == old(Plan()).(now := 0)
    {
      now := 0;
    }

    // One round of the loop: the clock moves to the next event, which is run.
    method RunNext(actions: seq<Action>) returns (e: Ptr)
      requires Valid()
      modifies this, runQ
      ensures Valid() && now >= old(now)
      ensures e == NULL ==> Plan() == old(Plan()) && Plan().queue == []
      ensures e != NULL ==> Ran(old(Plan()), actions, now, Plan())
    {
      hide Whole, InTimeOrder, Dues, ActedAll;
      ghost var plan := Plan();
      DuesOrdered(runQ.items);
      e := NextRunEvent();
      if e != NULL {
        Begin(e);
        RunCallback(actions);
      }
    }

    // The clock moves to the run time of the event that has been taken out.
    method Begin(e: Ptr)
      requires Valid() && e in runTime && now <= runTime[e] && e !in running
      requires forall x :: x in running ==> x in runTime && runTime[x] >= runTime[e]
      modifies `now
      ensures Valid() && e in runTime && Plan() == old(Plan()).(now := runTime[e])
    {
      hide Whole, InTimeOrder;
      KeysAreItems(runQ.mem, runQ.root, runQ.path, runQ.cur, runQ.items);
      Advance(runQ.items, running, runTime, runTime[e]);
      now := runTime[e];
    }

    // The events that are left are taken out without being run.
    method ThrowAway()
      requires Valid()
      modifies this, runQ
      ensures Valid() && Plan() == old(Plan()).(queue := [])
    {
      hide Whole, InTimeOrder;
      var e := NextRunEvent();
      while e != NULL
        invariant Valid() && now == old(now) && runTime == old(runTime) && (e == NULL ==> Plan().queue == [])
        decreases if e == NULL then 0 else |running| + 1
      {
        e := NextRunEvent();
      }
    }

    method RunCallback(actions: seq<Action>)
      requires Valid()
      modifies this, runQ
      ensures Valid() && now == old(now) && Plan() == ActedAll(old(Plan()), actions)
    {
      hide Whole, InTimeOrder, Acted;
      var n := 0;
      while n < |actions|
        invariant 0 <= n <= |actions| && Valid() && now == old(now)
        invariant Plan() == ActedAll(old(Plan()), actions[..n])
      {
        assert actions[..n + 1][..n] == actions[..n];
        Act(actions[n]);
        n := n + 1;
      }
      assert actions[..|actions|] == actions;
    }

    // What is to happen, for a reader who knows nothing of trees.
    ghost function Plan(): Agenda
      reads this, runQ
    {
      Agenda(Dues(runQ.items), now)
    }
  }

  // No node is listed twice.
  lemma DistinctListing(m: Mem, root: Ptr, c: Path, t: Shape, items: seq<Item>)
    requires Whole(m, root, c, t, items) && c.Top?
    ensures forall i, j :: 0 <= i < j < |items| ==> items[i].p != items[j].p
  {
    assert items == Items(t);
    DistinctItems(t);
  }

  // The first event is due no later than any other.
  lemma DuesOrdered(items: seq<Item>)
    requires InTimeOrder(items)
    ensures forall i :: 0 <= i < |items| ==> Dues(items)[i].time >= Dues(items)[0].time
  {
  }

  // e is queued behind what is due earlier, ahead of all else.
  ghost predicate QueuedFirst(before: seq<Item>, after: seq<Item>, e: Ptr, time: u64) {
    exists at :: 0 <= at <= |before| && after == before[..at] + [Item(e, At(time))] + before[at..]
      && (forall i :: 0 <= i < at ==> before[i].ext.start < time)
      && (forall i :: at <= i < |before| ==> before[i].ext.start >= time)
  }

  // The run time of a queued event has not changed since.
  ghost predicate Keeps(it: Item, runTime: map<Ptr, u64>) {
    it.p in runTime && it.ext == At(runTime[it.p])
  }

  lemma EmptyQueue(m: Mem, root: Ptr, c: Path, t: Shape, items: seq<Item>)
    requires Whole(m, root, c, t, items) && items == []
    ensures m.Keys == {}
  {
    KeysAreItems(m, root, c, t, items);
  }

  lemma TimesSplit(items: seq<Item>, time: u64, goesLeft: Extent -> bool)
    requires InTimeOrder(items) && forall e :: goesLeft(e) == (RunTimeCompare(time, e.start) < 0)
    ensures Splits(items, PlaceBy(goesLeft))
  {
  }

  lemma QueuedInOrder(items: seq<Item>, at: nat, e: Ptr, time: u64, goesLeft: Extent -> bool)
    requires InTimeOrder(items) && PlacedAt(items, at, PlaceBy(goesLeft))
    requires forall e :: goesLeft(e) == (RunTimeCompare(time, e.start) < 0)
    ensures InTimeOrder(items[..at] + [Item(e, At(time))] + items[at..])
    ensures forall i :: 0 <= i < at ==> items[i].ext.start < time
    ensures forall i :: at <= i < |items| ==> items[i].ext.start >= time
  {
  }

  lemma QueuedKeeps(items: seq<Item>, at: nat, e: Ptr, time: u64, now: u64, runTime: map<Ptr, u64>)
    requires at <= |items| && e !in ItemPtrs(items) && time >= now
    requires forall i :: 0 <= i < |items| ==> Keeps(items[i], runTime) && items[i].ext.start >= now
    ensures var items' := items[..at] + [Item(e, At(time))] + items[at..];
      forall i :: 0 <= i < |items'| ==> Keeps(items'[i], runTime[e := time]) && items'[i].ext.start >= now
  {
    assert forall i :: 0 <= i < |items| ==> items[i].p in ItemPtrs(items);
  }

  lemma RemovedKeeps(items: seq<Item>, at: nat)
    requires at < |items| && InTimeOrder(items)
    ensures InTimeOrder(RemoveAt(items, at))
    ensures forall i :: 0 <= i < |items| - 1 ==> RemoveAt(items, at)[i] == items[if i < at then i else i + 1]
  {
  }

  lemma LeastFirst(items: seq<Item>, runTime: map<Ptr, u64>)
    requires items != [] && InTimeOrder(items) && forall i :: 0 <= i < |items| ==> Keeps(items[i], runTime)
    ensures items[0].p in runTime
    ensures forall x :: x in ItemPtrs(items) ==> x in runTime && runTime[x] >= runTime[items[0].p]
  {
    assert Keeps(items[0], runTime);
    forall x | x in ItemPtrs(items) ensures x in runTime && runTime[x] >= runTime[items[0].p] {
      var i :| 0 <= i < |items| && items[i].p == x;
      assert Keeps(items[i], runTime);
    }
  }

  lemma Advance(items: seq<Item>, running: set<Ptr>, runTime: map<Ptr, u64>, time: u64)
    requires running == ItemPtrs(items) && forall i :: 0 <= i < |items| ==> Keeps(items[i], runTime)
    requires forall x :: x in running ==> x in runTime && runTime[x] >= time
    ensures forall i :: 0 <= i < |items| ==> items[i].ext.start >= time
  {
    forall i | 0 <= i < |items| ensures items[i].ext.start >= time {
      assert items[i].p in running;
    }
  }
}
