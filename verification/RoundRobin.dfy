/** Round robin over the objects of a server: each object's requests leave in the order of their offsets. */
module RoundRobin {
  import opened Lists
  import opened Options

  type Obj = nat

  const QUANTUM: nat := 8

  datatype Req = Req(off: nat, id: nat)

  // nr is the number of requests; queued is the IO_QUEUE_QUEUED flag.
  datatype IoQueue = IoQueue(reqs: seq<Req>, nr: nat, queued: bool, quantum: nat)

  // ---------- The requests of one object, by offset ----------

  ghost predicate ByOffset(reqs: seq<Req>) {
    forall i, j :: 0 <= i < j < |reqs| ==> reqs[i].off < reqs[j].off
  }

  predicate NewOffset(reqs: seq<Req>, r: Req) { forall i :: 0 <= i < |reqs| ==> reqs[i].off != r.off }

  function InsertReq(reqs: seq<Req>, r: Req): seq<Req> {
    if reqs == [] then [r] else if r.off < reqs[0].off then [r] + reqs else [reqs[0]] + InsertReq(reqs[1..], r)
  }

  lemma {:induction false} InsertReqBag(reqs: seq<Req>, r: Req)
    ensures multiset(InsertReq(reqs, r)) == multiset(reqs) + multiset{r}
  {
    if reqs != [] {
      assert reqs == [reqs[0]] + reqs[1..];
      InsertReqBag(reqs[1..], r);
    }
  }

  lemma {:induction false} InsertReqFacts(reqs: seq<Req>, r: Req)
    requires ByOffset(reqs) && NewOffset(reqs, r)
    ensures ByOffset(InsertReq(reqs, r)) && |InsertReq(reqs, r)| == |reqs| + 1
  {
    if reqs != [] && r.off >= reqs[0].off {
      InsertReqFacts(reqs[1..], r);
      InsertReqBag(reqs[1..], r);
      HeadFirst(reqs[0], reqs[1..], r);
    }
  }

  lemma HeadFirst(head: Req, reqs: seq<Req>, r: Req)
    requires ByOffset(InsertReq(reqs, r)) && multiset(InsertReq(reqs, r)) == multiset(reqs) + multiset{r}
    requires head.off < r.off && forall i :: 0 <= i < |reqs| ==> head.off < reqs[i].off
    ensures ByOffset([head] + InsertReq(reqs, r))
  {
    hide InsertReq;
    var rest := InsertReq(reqs, r);
    forall i | 0 <= i < |rest| ensures head.off < rest[i].off {
      assert rest[i] in multiset(rest);
      assert rest[i] == r || rest[i] in multiset(reqs);
    }
  }

  class Frr {
    var queues: map<Obj, IoQueue>
    // The queues that wait for their turn, and the one that is being worked on.
    var list: seq<Obj>
    var wq: Option<Obj>

    // Every queue with requests is either the work queue or in the list, there exactly once.
    ghost predicate Valid()
      reads this
    {
      && NoRepeat(list)
      && (forall q :: q in list ==> q in queues && queues[q].reqs != [])
      && (wq.Some? ==> wq.value in queues && wq.value !in list && queues[wq.value].reqs != []
                       && 0 < queues[wq.value].quantum <= QUANTUM)
      && forall q :: q in queues ==> Kept(queues[q], q in list, wq == Some(q))
    }

    // How many more requests of other queues may go before one of q, which is in the list.
    ghost function Wait(q: Obj): (n: nat)
      requires Valid() && q in list
      reads this
      ensures n <= QUANTUM * (Place(list, q) + if wq.Some? then 1 else 0)
    {
      (if wq.Some? then queues[wq.value].quantum else 0) + QUANTUM * Place(list, q)
    }

    constructor ()
      ensures Valid() && queues == map[] && list == [] && wq == None
    {
      queues, list, wq := map[], [], None;
    }

    method GetWorkQueue() returns (ok: bool)
      requires Valid()
      modifies this
      ensures Valid() && (ok <==> wq.Some?) && (ok <==> old(wq).Some? || old(list) != [])
      ensures old(wq).Some? ==> wq == old(wq) && list == old(list) && queues == old(queues)
      ensures old(wq).None? && ok ==> wq == Some(old(list)[0]) && list == old(list)[1..] && wq.value in old(queues)
      ensures old(wq).None? && ok ==>
        queues == old(queues)[wq.value := old(queues)[wq.value].(queued := false, quantum := 8)]
      ensures !ok ==> list == old(list) && queues == old(queues)
      ensures forall x :: x in list ==> x in old(list) && Wait(x) == old(Wait(x))
    {
      if wq.Some? {
        return true;
      }
      if list == [] {
        return false;
      }
      var q := list[0];
      HeadFacts(list);
      FirstIn(list);
      list := list[1..];
      wq := Some(q);
      queues := queues[q := queues[q].(queued := false, quantum := QUANTUM)];
      ok := true;
    }

    /** A request goes to the queue of its object, which joins the list if it is neither there nor worked on. */
    method Enqueue(q: Obj, r: Req)
      requires Valid() && (q in queues ==> NewOffset(queues[q].reqs, r))
      modifies this
      ensures Valid() && q in queues
      ensures queues[q].reqs == InsertReq(if q in old(queues) then old(queues)[q].reqs else [], r)
      ensures q in old(queues) ==> queues[q].quantum == old(queues)[q].quantum
      ensures forall x :: x in old(queues) && x != q ==> x in queues && queues[x] == old(queues)[x]
      ensures wq == old(wq) && list == if q in old(list) || old(wq) == Some(q) then old(list) else old(list) + [q]
      ensures forall x :: x in old(list) ==> x in list && Wait(x) == old(Wait(x))
    {
      hide InsertReq, ByOffset, NewOffset, NoRepeat;
      var k := if q in queues then queues[q] else IoQueue([], 0, false, 0);
      InsertReqFacts(k.reqs, r);
      k := k.(reqs := InsertReq(k.reqs, r), nr := k.nr + 1);
      if !k.queued && wq != Some(q) {
        AppendFacts(list, q);
        AppendPlaces(list, q);
        list := list + [q];
        k := k.(queued := true);
      }
      queues := queues[q := k];
    }

    // One request of the work queue is served, which may end its turn.
    method ServeWork() returns (r: Req, from: Obj)
      requires Valid() && wq.Some?
      modifies this
      ensures Valid() && Some(from) == old(wq) && from in old(queues) && from in queues
      ensures old(queues)[from].reqs == [r] + queues[from].reqs
      ensures forall x :: x in old(queues) && x != from ==> x in queues && queues[x] == old(queues)[x]
      ensures TurnTaken(from, queues[from], old(queues)[from].quantum, old(list), list, wq)
      ensures forall x :: x in old(list) ==> x in list && Wait(x) < old(Wait(x))
    {
      from := wq.value;
      var k := queues[from];
      r := k.reqs[0];
      k := k.(reqs := k.reqs[1..], nr := k.nr - 1, quantum := k.quantum - 1);
      if k.nr == 0 {
        wq := None;
      } else if k.quantum == 0 {
        AppendFacts(list, from);
        AppendPlaces(list, from);
        list := list + [from];
        k := k.(queued := true);
        wq := None;
      }
      queues := queues[from := k];
    }

    /** Serves the lowest offset of the work queue.  A queue that waits comes nearer to its turn with every request
      * served, or is the one served.
      */
    method Dequeue() returns (served: Option<Req>, from: Obj)
      requires Valid()
      modifies this
      ensures Valid() && (served.None? <==> old(wq).None? && old(list) == [])
      ensures served.None? ==> queues == old(queues)
      ensures served.Some? ==>
        from in old(queues) && from in queues && old(queues)[from].reqs == [served.value] + queues[from].reqs
      ensures served.Some? ==>
        forall x :: x in old(queues) && x != from ==> x in queues && queues[x] == old(queues)[x]
      ensures served.None? ==> wq == old(wq) && list == old(list)
      ensures served.Some? ==> ByOffset([served.value] + queues[from].reqs)
      ensures served.Some? && old(wq).Some? ==>
        Some(from) == old(wq) && TurnTaken(from, queues[from], old(queues)[from].quantum, old(list), list, wq)
      ensures served.Some? && old(wq).None? ==>
        from == old(list)[0] && TurnTaken(from, queues[from], 8, old(list)[1..], list, wq)
      ensures forall x :: x in old(list) && served.Some? && from != x ==> x in list && Wait(x) < old(Wait(x))
    {
      served, from := None, 0;
      var ok := GetWorkQueue();
      if ok {
        var r;
        r, from := ServeWork();
        served := Some(r);
      }
    }

    ghost function Now(): Sight
      reads this
    {
      Sight(queues, list, wq)
    }

    /** Bounded waiting: a queue with p others ahead of it in the list is served within 8 (p + 1) + 1 requests, whatever
      * arrives meanwhile.  The steps are as specified, each serving the lowest offset of an object.
      */
    method Run(ops: seq<Op>, ghost q: Obj) returns (outs: seq<Option<Service>>, ghost trace: seq<Sight>)
      requires Valid() && q in list
      modifies this
      ensures Valid() && Follows(ops, outs, trace) && trace[0] == old(Now()) && trace[|ops|] == Now()
      ensures Dequeues(ops, 0, |ops|) > 8 * (Place(old(list), q) + 1) ==>
        exists i :: 0 <= i < |outs| && IsOf(outs[i], q)
    {
      hide Moved, IsOf, NoRepeat;
      outs, trace := [], [Now()];
      ghost var served := false;
      for n := 0 to |ops|
        invariant Valid() && |outs| == n && |trace| == n + 1 && trace[0] == old(Now()) && trace[n] == Now()
        invariant forall i :: 0 <= i < n ==> Moved(ops[i], trace[i], trace[i + 1], outs[i])
        invariant served ==> exists i :: 0 <= i < |outs| && IsOf(outs[i], q)
        invariant !served ==> q in list && Wait(q) + Dequeues(ops, 0, n) <= old(Wait(q))
      {
        ghost var was := outs;
        var out := Take(ops[n], q);
        outs, trace := outs + [out], trace + [Now()];
        assert forall i :: 0 <= i < n ==> outs[i] == was[i];
        assert outs[n] == out;
        served := served || IsOf(out, q);
      }
    }

    // One step; a queue q in the list comes nearer to its turn with every dequeue that is not its own.
    method Take(op: Op, ghost q: Obj) returns (out: Option<Service>)
      requires Valid()
      modifies this
      ensures Valid() && Moved(op, old(Now()), Now(), out)
      ensures q in old(list) && !IsOf(out, q) ==> q in list && Wait(q) + (if op.Next? then 1 else 0) <= old(Wait(q))
    {
      hide NoRepeat, InsertReq;
      out := None;
      match op
      case Arrive(x, r) =>
        if x in queues ==> NewOffset(queues[x].reqs, r) {
          Enqueue(x, r);
        }
      case Next =>
        var done, from := Dequeue();
        if done.Some? {
          LowestFirst(done.value, queues[from].reqs);
          out := Some(Service(done.value, from));
        }
    }
  }

  datatype Service = Service(r: Req, from: Obj)

  datatype Sight = Sight(queues: map<Obj, IoQueue>, list: seq<Obj>, wq: Option<Obj>)

  ghost predicate IsOf(out: Option<Service>, q: Obj) { out.Some? && out.value.from == q }

  // What a step does.
  ghost predicate Moved(op: Op, s: Sight, s': Sight, out: Option<Service>) {
    match op
    case Arrive(q, r) =>
      out.None? && if q in s.queues ==> NewOffset(s.queues[q].reqs, r) then
        && q in s'.queues && s'.queues[q].reqs == InsertReq(if q in s.queues then s.queues[q].reqs else [], r)
        && (q in s.queues ==> s'.queues[q].quantum == s.queues[q].quantum)
        && (forall x :: x in s.queues && x != q ==> x in s'.queues && s'.queues[x] == s.queues[x])
        && s'.wq == s.wq && s'.list == (if q in s.list || s.wq == Some(q) then s.list else s.list + [q])
      else s' == s
    case Next =>
      match out
      case None => s' == s && s.wq.None? && s.list == []
      case Some(Service(r, from)) =>
        && from in s.queues && from in s'.queues && s.queues[from].reqs == [r] + s'.queues[from].reqs
        && (forall i :: 0 <= i < |s'.queues[from].reqs| ==> r.off < s'.queues[from].reqs[i].off)
        && (forall x :: x in s.queues && x != from ==> x in s'.queues && s'.queues[x] == s.queues[x])
        && if s.wq.Some? then
             Some(from) == s.wq && TurnTaken(from, s'.queues[from], s.queues[from].quantum, s.list, s'.list, s'.wq)
           else s.list != [] && from == s.list[0] && TurnTaken(from, s'.queues[from], 8, s.list[1..], s'.list, s'.wq)
  }

  ghost predicate Follows(ops: seq<Op>, outs: seq<Option<Service>>, trace: seq<Sight>) {
    && |outs| == |ops| && |trace| == |ops| + 1
    && forall i :: 0 <= i < |ops| ==> Moved(ops[i], trace[i], trace[i + 1], outs[i])
  }

  // Step i begins the turn of q, which has requests in all the states after it and before state j.
  ghost predicate Turn(ops: seq<Op>, trace: seq<Sight>, q: Obj, i: nat, j: nat) {
    && i < j < |trace| && j <= |ops| && ops[i].Next? && trace[i].wq.None?
    && trace[i].list != [] && trace[i].list[0] == q
    && forall l :: i < l < j ==> q in trace[l].queues && trace[l].queues[q].reqs != []
  }

  /** A queue is served eight times in a row, or until its requests are gone, before another queue is. */
  lemma {:induction false} EightInARow(ops: seq<Op>, outs: seq<Option<Service>>, trace: seq<Sight>, q: Obj,
                                       i: nat, j: nat)
    requires Follows(ops, outs, trace) && Turn(ops, trace, q, i, j) && Dequeues(ops, i, j) <= 8
    ensures forall l :: i <= l < j && ops[l].Next? ==> IsOf(outs[l], q)
    ensures 0 < Dequeues(ops, i, j) && q in trace[j].queues
    ensures if Dequeues(ops, i, j) < 8 && trace[j].queues[q].reqs != []
            then trace[j].wq == Some(q) && trace[j].queues[q].quantum + Dequeues(ops, i, j) == 8
            else ops[j - 1].Next? ==> trace[j].wq.None?
  {
    hide Moved, IsOf;
    assert Moved(ops[j - 1], trace[j - 1], trace[j - 1 + 1], outs[j - 1]);
    if j == i + 1 {
      assert Dequeues(ops, i, i) == 0;
      TurnBegins(trace[i], trace[j], outs[i], q);
    } else {
      EightInARow(ops, outs, trace, q, i, j - 1);
      if Dequeues(ops, i, j - 1) < 8 {
        TurnGoesOn(ops[j - 1], trace[j - 1], trace[j], outs[j - 1], q);
      } else {
        StillThere(ops[j - 1], trace[j - 1], trace[j], outs[j - 1], q);
      }
    }
  }

  lemma TurnBegins(s: Sight, s': Sight, out: Option<Service>, q: Obj)
    requires Moved(Next, s, s', out) && s.wq.None? && s.list != [] && s.list[0] == q
    ensures IsOf(out, q) && q in s'.queues && s'.queues[q].quantum == 7
    ensures s'.wq == if s'.queues[q].reqs != [] then Some(q) else None
  {
  }

  lemma TurnGoesOn(op: Op, s: Sight, s': Sight, out: Option<Service>, q: Obj)
    requires Moved(op, s, s', out) && s.wq == Some(q) && q in s.queues && s.queues[q].reqs != []
    requires s.queues[q].quantum > 0
    ensures q in s'.queues
    ensures op.Next? ==>
      && IsOf(out, q) && s'.queues[q].quantum + 1 == s.queues[q].quantum
      && s'.wq == if s'.queues[q].reqs != [] && s'.queues[q].quantum > 0 then Some(q) else None
    ensures op.Arrive? ==> s'.wq == s.wq && s'.queues[q].quantum == s.queues[q].quantum && s'.queues[q].reqs != []
  {
    if op.Arrive? && op.q == q && NewOffset(s.queues[q].reqs, op.r) {
      InsertReqBag(s.queues[q].reqs, op.r);
      assert multiset(s'.queues[q].reqs) != multiset([]);
    }
  }

  lemma StillThere(op: Op, s: Sight, s': Sight, out: Option<Service>, q: Obj)
    requires Moved(op, s, s', out) && op.Arrive? && q in s.queues
    ensures q in s'.queues
  {
  }

  lemma LowestFirst(r: Req, reqs: seq<Req>)
    requires ByOffset([r] + reqs)
    ensures forall i :: 0 <= i < |reqs| ==> r.off < reqs[i].off
  {
    forall i | 0 <= i < |reqs| ensures r.off < reqs[i].off {
      assert ([r] + reqs)[0] == r && ([r] + reqs)[i + 1] == reqs[i];
    }
  }

  // One request of q, now k, has been served in its turn: the turn ends with the requests or with the quantum, and then
  // q goes to the tail of the list if it has requests left.
  ghost predicate TurnTaken(q: Obj, k: IoQueue, quantum: nat, before: seq<Obj>, after: seq<Obj>, wq: Option<Obj>) {
    && k.quantum + 1 == quantum
    && wq == (if k.reqs != [] && k.quantum > 0 then Some(q) else None)
    && after == (if k.reqs != [] && k.quantum == 0 then before + [q] else before)
  }

  datatype Op = Arrive(q: Obj, r: Req) | Next

  // How many of the steps from i on, up to j, are dequeues.
  ghost function Dequeues(ops: seq<Op>, i: nat, j: nat): nat
    requires j <= |ops|
  {
    if j <= i then 0 else Dequeues(ops, i, j - 1) + if ops[j - 1].Next? then 1 else 0
  }

  // A queue's counters and flags: its requests are in order, and it is queued or worked on if it has any.
  ghost predicate Kept(k: IoQueue, listed: bool, working: bool) {
    ByOffset(k.reqs) && k.nr == |k.reqs| && (k.queued <==> listed) && (k.reqs != [] ==> listed || working)
  }

  lemma HeadFacts(list: seq<Obj>)
    requires list != [] && NoRepeat(list)
    ensures NoRepeat(list[1..]) && list[0] !in list[1..]
    ensures forall x :: x in list <==> x == list[0] || x in list[1..]
  {
  }
}
