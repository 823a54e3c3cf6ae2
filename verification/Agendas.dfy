/** What is to happen and when: the run queue for a reader who knows nothing of trees. */
module Agendas {
  import opened Words
  import opened Shapes
  import opened Deletion

  datatype Due = Due(e: Ptr, time: u64)

  // The events that are queued, in the order in which they will run, and the time.
  datatype Agenda = Agenda(queue: seq<Due>, now: u64)

  datatype Action = After(e: Ptr, ticks: nat) | Alarm(e: Ptr, time: u64) | Cancel(e: Ptr)

  ghost predicate IsQueued(queue: seq<Due>, e: Ptr) { exists i :: 0 <= i < |queue| && queue[i].e == e }

  // An event goes ahead of those that are due at the same time.
  ghost function Enqueued(queue: seq<Due>, d: Due): seq<Due> {
    if queue == [] || d.time <= queue[0].time then [d] + queue else [queue[0]] + Enqueued(queue[1..], d)
  }

  ghost function Dropped(queue: seq<Due>, e: Ptr): seq<Due> {
    if queue == [] then [] else if queue[0].e == e then queue[1..] else [queue[0]] + Dropped(queue[1..], e)
  }

  // What an action of a callback does to the plan.  One that the source asserts not to happen changes nothing.
  ghost function Acted(g: Agenda, a: Action): Agenda {
    match a
    case After(e, ticks) =>
      if e != NULL && !IsQueued(g.queue, e) && g.now + ticks <= MAX_U64
      then g.(queue := Enqueued(g.queue, Due(e, g.now + ticks))) else g
    case Alarm(e, time) =>
      if e != NULL && !IsQueued(g.queue, e) && time > g.now then g.(queue := Enqueued(g.queue, Due(e, time))) else g
    case Cancel(e) => g.(queue := Dropped(g.queue, e))
  }

  ghost function ActedAll(g: Agenda, actions: seq<Action>): Agenda {
    if actions == [] then g else Acted(ActedAll(g, actions[..|actions| - 1]), actions[|actions| - 1])
  }

  /** From plan g its first event was run at the time it was due, no later than any other and not in the past, and its
    * callback did the actions.
    */
  ghost predicate Ran(g: Agenda, actions: seq<Action>, time: u64, g': Agenda) {
    && g.queue != [] && g.queue[0].time == time && time >= g.now
    && (forall i :: 0 <= i < |g.queue| ==> g.queue[i].time >= time)
    && g' == ActedAll(Agenda(g.queue[1..], time), actions)
  }

  // ---------- The queue as a listing of a tree ----------

  // Times as keys of the tree.
  function At(time: u64): Extent { Extent(time, time) }

  ghost function Dues(items: seq<Item>): (queue: seq<Due>)
    ensures |queue| == |items|
  {
    seq(|items|, i requires 0 <= i < |items| => Due(items[i].p, items[i].ext.start))
  }

  lemma {:induction false} EnqueuedAt(queue: seq<Due>, d: Due, at: nat)
    requires at <= |queue| && (forall i :: 0 <= i < at ==> queue[i].time < d.time)
    requires forall i :: at <= i < |queue| ==> queue[i].time >= d.time
    ensures Enqueued(queue, d) == queue[..at] + [d] + queue[at..]
  {
    if at > 0 {
      EnqueuedAt(queue[1..], d, at - 1);
      assert queue[..at] == [queue[0]] + queue[1..][..at - 1];
    }
  }

  lemma {:induction false} DroppedAt(queue: seq<Due>, e: Ptr, at: nat)
    requires at < |queue| && queue[at].e == e && forall i :: 0 <= i < at ==> queue[i].e != e
    ensures Dropped(queue, e) == queue[..at] + queue[at + 1..]
  {
    if at > 0 {
      DroppedAt(queue[1..], e, at - 1);
      assert queue[..at] == [queue[0]] + queue[1..][..at - 1];
    }
  }

  lemma {:induction false} DroppedNone(queue: seq<Due>, e: Ptr)
    requires !IsQueued(queue, e)
    ensures Dropped(queue, e) == queue
  {
    if queue != [] {
      assert queue[0].e != e;
      assert forall i :: 0 <= i < |queue| - 1 ==> queue[1..][i] == queue[i + 1];
      DroppedNone(queue[1..], e);
    }
  }

  lemma DuesInserted(items: seq<Item>, at: nat, e: Ptr, time: u64)
    requires at <= |items| && (forall i :: 0 <= i < at ==> items[i].ext.start < time)
    requires forall i :: at <= i < |items| ==> items[i].ext.start >= time
    ensures Dues(items[..at] + [Item(e, At(time))] + items[at..]) == Enqueued(Dues(items), Due(e, time))
  {
    hide Enqueued;
    EnqueuedAt(Dues(items), Due(e, time), at);
  }

  lemma DuesRemoved(items: seq<Item>, at: nat)
    requires at < |items| && forall i, j :: 0 <= i < j < |items| ==> items[i].p != items[j].p
    ensures Dues(RemoveAt(items, at)) == Dropped(Dues(items), items[at].p)
    ensures at == 0 ==> Dues(RemoveAt(items, at)) == Dues(items)[1..]
  {
    hide Dropped;
    DroppedAt(Dues(items), items[at].p, at);
  }

  lemma QueuedIn(items: seq<Item>, e: Ptr)
    ensures IsQueued(Dues(items), e) <==> e in ItemPtrs(items)
  {
    if e in ItemPtrs(items) {
      var i :| 0 <= i < |items| && items[i].p == e;
      assert Dues(items)[i].e == e;
    }
    if IsQueued(Dues(items), e) {
      var i :| 0 <= i < |items| && Dues(items)[i].e == e;
      assert items[i].p == e;
    }
  }
}
