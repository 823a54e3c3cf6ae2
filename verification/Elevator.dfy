/** The deadline elevator: ioreqs are merged into requests, which are drained by kind and ascending offset. */
module Elevator {
  import opened Lists
  import opened Requests
  import opened MergeHash
  import opened ElvSteps
  import opened Powers
  import opened Options

  class ElvDeadline {
    const maxsize: nat
    var reqs: map<Id, Request>
    // The sorted trees of the write and of the read requests, in order.
    var writers: seq<Id>
    var readers: seq<Id>
    // The request merged into last, which is tried first.
    var last: Option<Id>
    // The dispatch queue.
    var queue: seq<Request>
    var nextId: Id
    // Which requests end where: chains by a hash of the end offset.
    const hashFn: nat -> nat
    var hash: Chains
    // The requests of either kind in the order of their arrival.
    var fifo: Fifos

    function View(): Pending
      reads this
    {
      Pending(reqs, writers, readers)
    }

    // All but the hash and the fifo lists.
    ghost predicate Sound()
      reads this
    {
      Inv(View(), maxsize) && (last.Some? ==> last.value in reqs) && forall x :: x in reqs ==> x < nextId
    }

    ghost predicate Valid()
      reads this
    {
      Sound() && Hashed(hash, reqs, hashFn, {}) && Filed(fifo, reqs)
    }

    constructor (maxsize: nat, hashShift: nat, hashFn: nat -> nat)
      ensures Valid() && reqs == map[] && queue == [] && this.maxsize == maxsize && this.hashFn == hashFn
    {
      this.maxsize, this.hashFn := maxsize, hashFn;
      reqs, writers, readers, last, queue, nextId := map[], [], [], None, [], 0;
      hash, fifo := Chains(seq(Pow2(hashShift), i => []), map[]), Fifos([], []);
    }

    method SetView(ghost v: Pending, reqs': map<Id, Request>, write: bool, list: seq<Id>)
      requires v == View().(reqs := reqs').With(write, list)
      modifies `reqs, `writers, `readers
      ensures View() == v
    {
      reqs := reqs';
      if write {
        writers := list;
      } else {
        readers := list;
      }
    }

    // deadline_add_rq_rb, after elv_rb_del when the request is in the tree already.
    method Place(x: Id, r: Request)
      requires Sound() && Full(r, maxsize) && Fits(View(), x, r) && (x in reqs ==> reqs[x].write == r.write)
      requires x < nextId
      modifies `reqs, `writers, `readers
      ensures Sound() && reqs == old(reqs)[x := r]
    {
      hide Inv, Full, Fits, InsertId, Without;
      ListsKnown(View(), maxsize);
      PlacedInv(View(), x, r, maxsize);
      var list := if r.write then writers else readers;
      WithoutIn(list, x);
      SetView(Placed(View(), x, r), reqs[x := r], r.write, InsertId(Without(list, x), reqs[x := r], x));
    }

    // deadline_remove_request: the request leaves its fifo list and its tree.
    method Remove(x: Id)
      requires Sound() && Filed(fifo, reqs) && x in reqs
      modifies `reqs, `writers, `readers, `last, `fifo
      ensures Sound() && Filed(fifo, reqs) && reqs == old(reqs) - {x} && View() == Removed(old(View()), x)
      ensures last == if old(last) == Some(x) then None else old(last)
    {
      hide Inv, Without, Filed;
      RemovedInv(View(), x, maxsize);
      FiledWithout(fifo, reqs, x);
      var w := reqs[x].write;
      fifo := fifo.With(w, Without(fifo.Of(w), x));
      SetView(Removed(View(), x), reqs - {x}, w, Without(if w then writers else readers, x));
      if last == Some(x) {
        last := None;
      }
    }

    // ---------- The hash ----------

    // elv_rqhash_find: a request that ends at off, by a walk of one chain.
    method HashFind(off: nat) returns (found: Option<Id>)
      requires Hashed(hash, reqs, hashFn, {})
      ensures found.Some? ==> found.value in reqs && End(reqs[found.value]) == off
      ensures found.None? ==> forall x :: x in reqs ==> End(reqs[x]) != off
    {
      hide Hashed;
      ChainOf(hash, reqs, hashFn, off);
      var chain := hash.chains[hashFn(off) % |hash.chains|];
      var i := 0;
      while i < |chain|
        invariant 0 <= i <= |chain| && forall j :: 0 <= j < i ==> chain[j] in reqs && End(reqs[chain[j]]) != off
      {
        if End(reqs[chain[i]]) == off {
          return Some(chain[i]);
        }
        i := i + 1;
      }
      found := None;
    }

    // elv_rqhash_add
    method HashAdd(x: Id, off: nat)
      requires |hash.chains| > 0
      modifies `hash
      ensures |old(hash).chains| > 0 && hash == Pushed(old(hash), x, SlotOf(old(hash), hashFn, off))
    {
      var i := hashFn(off) % |hash.chains|;
      hash := Chains(hash.chains[i := [x] + hash.chains[i]], hash.on[x := i]);
    }

    // elv_rqhash_del
    method HashDel(x: Id)
      modifies `hash
      ensures hash == Dropped(old(hash), x)
    {
      if x in hash.on && hash.on[x] < |hash.chains| {
        var i := hash.on[x];
        hash := Chains(hash.chains[i := Without(hash.chains[i], x)], hash.on - {x});
      }
    }

    // elv_rqhash_reposition, which takes the end that the request has now.
    method HashReposition(x: Id)
      requires Sound() && x in reqs && Hashed(hash, reqs, hashFn, {x})
      modifies `hash
      ensures Hashed(hash, reqs, hashFn, {}) && |old(hash).chains| > 0
      ensures hash == Repositioned(old(hash), hashFn, x, End(reqs[x]))
    {
      hide Inv, Hashed, SlotOf;
      HashedAgain(hash, reqs, hashFn, x, reqs[x]);
      assert reqs[x := reqs[x]] == reqs;
      HashDel(x);
      HashAdd(x, End(reqs[x]));
    }

    // ---------- Merging ----------

    // Which request io can be merged into, and at which end.  The kind is not looked at for the last one merged into.
    method ElvMerge(io: Ioreq) returns (m: Merge)
      requires Valid()
      ensures m.BackMerge? ==> m.rq in reqs && End(reqs[m.rq]) == io.off
      ensures m.FrontMerge? ==> m.rq in reqs && reqs[m.rq].off == io.off + io.count
      ensures Found(last, reqs, io, m)
    {
      hide Hashed, Filed;
      if last.Some? {
        if End(reqs[last.value]) == io.off {
          return BackMerge(last.value);
        } else if reqs[last.value].off == io.off + io.count {
          return FrontMerge(last.value);
        }
      }
      var found := HashFind(io.off);
      if found.Some? {
        OneEnd(View(), found.value, maxsize);
        if reqs[found.value].write == io.write {
          return BackMerge(found.value);
        }
      }
      m := NoMerge;
    }

    // A request grows in place; it need not move in its tree.
    method Grow(x: Id, r: Request)
      requires Sound() && x in reqs && Full(r, maxsize) && Fits(View(), x, r) && r.write == reqs[x].write
      requires r.off <= reqs[x].off && End(reqs[x]) <= End(r)
      modifies `reqs
      ensures Sound() && x in old(reqs) && reqs == old(reqs)[x := r]
    {
      hide Inv, Full, Fits;
      GrownInv(View(), x, r, maxsize);
      reqs := reqs[x := r];
    }

    // The request beside x in its tree, if any; no other of its kind can adjoin x on that side.
    method Beside(x: Id, after: bool) returns (y: Option<Id>)
      requires Sound() && x in reqs
      ensures y.Some? ==> y.value in reqs && y.value != x && reqs[y.value].write == reqs[x].write
      ensures forall z: Id :: y != Some(z) ==>
        if after then !Mergeable(reqs, x, z, maxsize) else !Mergeable(reqs, z, x, maxsize)
    {
      hide Good, Apart;
      var list := if reqs[x].write then writers else readers;
      var i := Lists.Place(list, x);
      DistinctIds(list, reqs);
      y := None;
      if after && i + 1 < |list| {
        assert list[i + 1] in list;
        y := Some(list[i + 1]);
      } else if !after && i > 0 {
        assert list[i - 1] in list;
        y := Some(list[i - 1]);
      }
      forall z | z in list && y != Some(z)
        ensures if after then !Mergeable(reqs, x, z, maxsize) else !Mergeable(reqs, z, x, maxsize)
      {
        OnlyNeighbours(View(), list, reqs[x].write, i, z, maxsize);
      }
    }

    /** AttemptMerge: next is appended to rq when it adjoins it, is of its kind, and the whole is not too large.  The
      * end of rq may have moved since it was hashed.
      */
    method AttemptMerge(rq: Id, next: Id) returns (merged: bool)
      requires Sound() && Filed(fifo, reqs) && Hashed(hash, reqs, hashFn, {rq})
      requires rq in reqs && next in reqs && rq != next
      modifies `reqs, `writers, `readers, `last, `hash, `fifo
      ensures Sound() && Held(reqs) == old(Held(reqs)) && (merged <==> Mergeable(old(reqs), rq, next, maxsize))
      ensures merged ==> Valid() && MergedPair(old(reqs), reqs, rq, next, maxsize) && last == Some(rq)
      ensures !merged ==> View() == old(View()) && last == old(last) && hash == old(hash) && fifo == old(fifo)
    {
      hide Inv, Full, Fits, Removed, Hashed, Filed;
      if End(reqs[rq]) != reqs[next].off || reqs[rq].write != reqs[next].write
         || reqs[rq].count + reqs[next].count > maxsize {
        return false;
      }
      var r := Joined(reqs[rq], reqs[next]);
      GoodFacts(View(), rq, maxsize);
      GoodFacts(View(), next, maxsize);
      JoinedFull(reqs[rq], reqs[next], maxsize);
      JoinedFits(View(), rq, next, maxsize);
      HeldJoined(reqs, rq, next, r);
      HashedAgain(hash, reqs, hashFn, rq, r);
      HashedWithout(Repositioned(hash, hashFn, rq, End(r)), reqs[rq := r], hashFn, next);
      assert reqs[rq := r] - {next} == (reqs - {next})[rq := r];
      Remove(next);
      FiledGrown(fifo, reqs, rq, r);
      Grow(rq, r);
      HashDel(rq);
      HashAdd(rq, End(r));
      HashDel(next);
      last := Some(rq);
      merged := true;
    }

    // io goes to the end of request x.
    method MergeBack(x: Id, io: Ioreq)
      requires Valid() && x in reqs && End(reqs[x]) == io.off && reqs[x].count + io.count <= maxsize && io.count > 0
      requires Free(View(), io) && x < nextId
      modifies `reqs, `writers, `readers, `last, `hash, `fifo
      ensures Valid() && Held(reqs) == old(Held(reqs)) + {io} && x in old(reqs)
      ensures ClosedBehind(old(reqs)[x := Appended(old(reqs)[x], io)], reqs, x, maxsize) && last == Some(x)
    {
      hide Inv, Full, Fits, Mergeable, Hashed, Filed;
      GoodFacts(View(), x, maxsize);
      AppendedFull(reqs[x], io, maxsize);
      WiderFits(View(), x, Appended(reqs[x], io), io, maxsize);
      HeldPlaced(reqs, x, Appended(reqs[x], io), {io});
      HashedGrown(hash, reqs, hashFn, x, Appended(reqs[x], io));
      FiledGrown(fifo, reqs, x, Appended(reqs[x], io));
      Grow(x, Appended(reqs[x], io));
      var next := Beside(x, true);
      var merged := false;
      if next.Some? {
        merged := AttemptMerge(x, next.value);
      }
      if !merged {
        HashReposition(x);
        last := Some(x);
      }
    }

    // io goes to the front of request x, whose offset changes with it; its end, and so its chain, stays.
    method MergeFront(x: Id, io: Ioreq)
      requires Valid() && x in reqs && reqs[x].off == io.off + io.count && reqs[x].count + io.count <= maxsize
      requires io.count > 0
      requires Free(View(), io) && x < nextId
      modifies `reqs, `writers, `readers, `last, `hash, `fifo
      ensures Valid() && Held(reqs) == old(Held(reqs)) + {io} && x in old(reqs)
      ensures ClosedAhead(old(reqs)[x := Prepended(old(reqs)[x], io)], reqs, x, maxsize, last)
    {
      hide Inv, Full, Fits, Mergeable, Hashed, Filed;
      GoodFacts(View(), x, maxsize);
      PrependedFull(reqs[x], io, maxsize);
      var r := Prepended(reqs[x], io);
      WiderFits(View(), x, r, io, maxsize);
      HeldPlaced(reqs, x, r, {io});
      HashedGrown(hash, reqs, hashFn, x, r);
      FiledGrown(fifo, reqs, x, r);
      Grow(x, r);
      var prev := Beside(x, false);
      var merged := false;
      if prev.Some? {
        HashedMoved(hash, reqs, hashFn, prev.value);
        merged := AttemptMerge(prev.value, x);
      }
      if !merged {
        FitsStill(View(), x, maxsize);
        assert reqs[x := r] == reqs;
        Place(x, r);
        last := Some(x);
      }
    }

    /** An ioreq is merged into a request that it adjoins, or becomes a request of its own; nothing is lost. */
    method Enqueue(io: Ioreq) returns (ghost m: Merge)
      requires Valid() && io.count > 0 && Free(View(), io)
      modifies `reqs, `writers, `readers, `last, `nextId, `hash, `fifo
      ensures Valid() && Held(reqs) == old(Held(reqs)) + {io} && queue == old(queue)
      ensures Chosen(old(last), old(reqs), io, maxsize, m)
      ensures m.BackMerge? ==>
        m.rq in old(reqs) && ClosedBehind(old(reqs)[m.rq := Appended(old(reqs)[m.rq], io)], reqs, m.rq, maxsize)
      ensures m.FrontMerge? ==>
        m.rq in old(reqs) && ClosedAhead(old(reqs)[m.rq := Prepended(old(reqs)[m.rq], io)], reqs, m.rq, maxsize, last)
      ensures m.NoMerge? ==> old(nextId) !in old(reqs) && reqs == old(reqs)[old(nextId) := Single(io)]
      ensures m.BackMerge? ==> last == Some(m.rq)
      ensures m.NoMerge? ==> last == LastAlone(old(Now()), io, old(nextId))
      ensures Entered(maxsize, old(Now()), Now(), io)
    {
      hide Inv, Full, Fits, Free, ClosedBehind, ClosedAhead, Hashed, Filed, SlotOf;
      var found := ElvMerge(io);
      m := NoMerge;
      ghost var s := Now();
      if found != NoMerge {
        if reqs[found.rq].count + io.count > maxsize {
          if last == Some(found.rq) {
            last := None;
          }
        } else if found.BackMerge? {
          m := found;
          MergeBack(found.rq, io);
          assert EnteredBy(maxsize, s, Now(), io, m);
          return;
        } else {
          m := found;
          MergeFront(found.rq, io);
          assert EnteredBy(maxsize, s, Now(), io, m);
          return;
        }
      }
      AddRequest(io);
      assert EnteredBy(maxsize, s, Now(), io, m);
    }

    // ElvAddRequest: a new request for io alone, which is filed everywhere.
    method AddRequest(io: Ioreq)
      requires Valid() && io.count > 0 && Free(View(), io)
      modifies `reqs, `writers, `readers, `last, `nextId, `hash, `fifo
      ensures Valid() && Held(reqs) == old(Held(reqs)) + {io} && reqs == old(reqs)[old(nextId) := Single(io)]
      ensures old(nextId) !in old(reqs) && last == if old(last).None? then Some(old(nextId)) else old(last)
    {
      hide Inv, Full, Fits, Free, Hashed, Filed, SlotOf;
      SingleFull(io, maxsize);
      SingleFits(View(), nextId, io, maxsize);
      HeldPlaced(reqs, nextId, Single(io), {io});
      var x := nextId;
      nextId := nextId + 1;
      HashedNew(hash, reqs, hashFn, x, Single(io));
      HashAdd(x, End(Single(io)));
      FiledNew(fifo, reqs, x, Single(io));
      Place(x, Single(io));
      fifo := fifo.With(io.write, fifo.Of(io.write) + [x]);
      if last.None? {
        last := Some(x);
      }
    }

    // The live path of Dispatch, which asks the fifo lists what kinds are pending: the write request of lowest offset,
    // then the read request of lowest offset.
    method Dispatch() returns (some: bool)
      requires Valid()
      modifies `reqs, `writers, `readers, `last, `queue, `hash, `fifo
      ensures Valid() && (some <==> old(writers + readers) != [])
      ensures !some ==> View() == old(View()) && queue == old(queue)
      ensures some ==> var x := old(writers + readers)[0];
        x in old(reqs) && reqs == old(reqs) - {x} && queue == old(queue) + [old(reqs)[x]]
      ensures some ==> writers + readers == old(writers + readers)[1..]
      ensures last == if some && old(last) == Some(old(writers + readers)[0]) then None else old(last)
    {
      hide Inv, Without, Hashed, Filed;
      KindsFiled(fifo, View(), maxsize);
      var w;
      if fifo.writers != [] {
        w := true;
      } else if fifo.readers != [] {
        w := false;
      } else {
        return false;
      }
      var x := if w then writers[0] else readers[0];
      ListsKnown(View(), maxsize);
      FirstIn(if w then writers else readers);
      var r := reqs[x];
      WithoutFirst(if w then writers else readers);
      HashedWithout(hash, reqs, hashFn, x);
      Remove(x);
      HashDel(x);
      queue := queue + [r];
      some := true;
    }

    // ElvNextRequest
    method Dequeue() returns (rq: Option<Request>)
      requires Valid()
      modifies `reqs, `writers, `readers, `last, `queue, `hash, `fifo
      ensures Valid() && (rq.None? <==> old(queue) == [] && old(writers + readers) == [])
      ensures rq.None? ==> queue == [] && View() == old(View())
      ensures old(queue) != [] ==> rq == Some(old(queue)[0]) && queue == old(queue)[1..] && View() == old(View())
      ensures old(queue) == [] && rq.Some? ==> queue == [] && var x := old(writers + readers)[0];
        x in old(reqs) && rq.value == old(reqs)[x] && reqs == old(reqs) - {x}
      ensures old(queue) == [] && rq.Some? ==> writers + readers == old(writers + readers)[1..]
      ensures old(queue) == [] ==>
        last == if rq.Some? && old(last) == Some(old(writers + readers)[0]) then None else old(last)
    {
      hide Inv, Hashed, Filed;
      if queue == [] {
        var some := Dispatch();
        if !some {
          return None;
        }
      }
      rq := Some(queue[0]);
      queue := queue[1..];
    }

    ghost function Now(): Sight
      reads this
    {
      Sight(reqs, last)
    }

    // One step of a run: an ioreq that overlaps nothing that is pending arrives, or a request leaves with its ioreqs.
    method Take(op: Op) returns (out: Option<Request>)
      requires Valid() && queue == []
      modifies `reqs, `writers, `readers, `last, `queue, `nextId, `hash, `fifo
      ensures Valid() && queue == [] && (out.Some? ==> Full(out.value, maxsize))
      ensures Moved(maxsize, op, old(Now()), Now(), out)
    {
      hide Inv, Held, Full, Parts, Hashed, Filed, Free, ClosedBehind, ClosedAhead, Chosen, Found, Entered, Leads;
      ghost var p := View();
      out := None;
      match op
      case Arrive(io) =>
        FreeIffApart(p, io, maxsize);
        if io.count > 0 && Free(View(), io) {
          ghost var m := Enqueue(io);
        }
      case Next =>
        out := Dequeue();
        if out.None? {
          NothingPending(p, maxsize);
        } else {
          ghost var x := (p.writers + p.readers)[0];
          GoodFacts(p, x, maxsize);
          HeldRemoved(p, x, maxsize);
          FirstLeads(p, maxsize);
        }
    }

    /** Whatever the order in which ioreqs arrive and requests leave: every ioreq that was accepted is either pending or
      * in exactly one of the requests that have left, each of which covers a contiguous range within maxsize.
      */
    method Run(ops: seq<Op>) returns (outs: seq<Option<Request>>, ghost trace: seq<Sight>)
      requires Valid() && queue == [] && reqs == map[] && Distinct(ops)
      modifies `reqs, `writers, `readers, `last, `queue, `nextId, `hash, `fifo
      ensures Valid() && Follows(maxsize, ops, outs, trace) && trace[0] == old(Now()) && trace[|ops|] == Now()
      ensures Accepted(ops, trace, |ops|) == Held(reqs) + Emitted(outs) && Held(reqs) !! Emitted(outs)
      ensures forall i :: 0 <= i < |outs| && outs[i].Some? ==> Full(outs[i].value, maxsize)
      ensures forall i, j :: 0 <= i < j < |outs| ==> Parts(outs[i]) !! Parts(outs[j])
    {
      hide Valid, Held, Full, Moved, Emitted, Parts, Distinct, Accepted;
      outs, trace := [], [Now()];
      NothingYet(ops, trace);
      for n := 0 to |ops|
        invariant Valid() && queue == [] && |outs| == n && |trace| == n + 1
        invariant trace[0] == old(Now()) && trace[n] == Now()
        invariant forall i :: 0 <= i < n ==> Moved(maxsize, ops[i], trace[i], trace[i + 1], outs[i])
        invariant Accepted(ops, trace, n) == Held(reqs) + Emitted(outs) && Held(reqs) !! Emitted(outs)
        invariant forall i :: 0 <= i < n && outs[i].Some? ==> Full(outs[i].value, maxsize)
        invariant forall i, j :: 0 <= i < j < n ==> Parts(outs[i]) !! Parts(outs[j])
      {
        var out := Take(ops[n]);
        Conserved(maxsize, ops, trace, n, outs, Now(), out);
        outs, trace := outs + [out], trace + [Now()];
      }
    }

    /** Draining emits all pending write requests by ascending offset, then all read requests by ascending offset. */
    method Drain() returns (out: seq<Request>)
      requires Valid() && queue == []
      modifies `reqs, `writers, `readers, `last, `queue, `hash, `fifo
      ensures Valid() && reqs == map[] && writers == readers == [] && queue == []
      ensures var order := old(writers + readers);
        |out| == |order| && forall i :: 0 <= i < |out| ==> order[i] in old(reqs) && out[i] == old(reqs)[order[i]]
      ensures var k := |old(writers)|; k <= |out| && OneWay(out[..k], true) && OneWay(out[k..], false)
    {
      hide Inv, Hashed, Filed;
      ghost var p, order := View(), writers + readers;
      out := [];
      while true
        invariant Valid() && queue == [] && |out| <= |order| && writers + readers == order[|out|..]
        invariant forall i :: 0 <= i < |out| ==> order[i] in p.reqs && out[i] == p.reqs[order[i]]
        invariant forall x :: x in reqs ==> x in p.reqs && reqs[x] == p.reqs[x]
        decreases |order| - |out|
      {
        var rq := Dequeue();
        if rq.None? {
          break;
        }
        out := out + [rq.value];
      }
      NothingPending(View(), maxsize);
      OrderOfDrain(p, maxsize, out);
    }
  }

  lemma OneEnd(p: Pending, x: Id, maxsize: nat)
    requires Inv(p, maxsize) && x in p.reqs
    ensures forall y :: y in p.reqs && End(p.reqs[y]) == End(p.reqs[x]) ==> y == x
  {
    hide Full, Sorted;
    forall y | y in p.reqs && y != x ensures End(p.reqs[y]) != End(p.reqs[x]) {
      Nonempty(p.reqs[x], maxsize);
      Nonempty(p.reqs[y], maxsize);
    }
  }

  lemma DistinctIds(list: seq<Id>, reqs: map<Id, Request>)
    requires Ascending(list, reqs)
    ensures NoRepeat(list)
  {
  }

  lemma KindsFiled(f: Fifos, p: Pending, maxsize: nat)
    requires Inv(p, maxsize) && Filed(f, p.reqs)
    ensures (f.writers == [] <==> p.writers == []) && (f.readers == [] <==> p.readers == [])
  {
    hide Filed, Sorted;
    FiledEmpty(f, p, true);
    FiledEmpty(f, p, false);
  }

  lemma GoodFacts(p: Pending, x: Id, maxsize: nat)
    requires Inv(p, maxsize) && x in p.reqs
    ensures Full(p.reqs[x], maxsize)
  {
  }

  // io lies apart from all pending requests.
  predicate Free(p: Pending, io: Ioreq) {
    forall x :: x in p.reqs ==> Clear(io.off, io.off + io.count, p.reqs[x].off, End(p.reqs[x]))
  }

  // Request x with io beside it lies apart from the others, as both did.
  lemma WiderFits(p: Pending, x: Id, r: Request, io: Ioreq, maxsize: nat)
    requires Inv(p, maxsize) && x in p.reqs && Free(p, io)
    requires (r.off == p.reqs[x].off && End(r) == io.off + io.count && End(p.reqs[x]) == io.off)
          || (r.off == io.off && End(r) == End(p.reqs[x]) && io.off + io.count == p.reqs[x].off)
    ensures Fits(p, x, r)
  {
    hide Full, Sorted;
    forall y | y in p.reqs && y != x ensures Clear(r.off, End(r), p.reqs[y].off, End(p.reqs[y])) {
      Nonempty(p.reqs[y], maxsize);
    }
  }

  lemma FitsStill(p: Pending, x: Id, maxsize: nat)
    requires Inv(p, maxsize) && x in p.reqs
    ensures Fits(p, x, p.reqs[x]) && Full(p.reqs[x], maxsize)
  {
    hide Full;
  }

  lemma SingleFits(p: Pending, x: Id, io: Ioreq, maxsize: nat)
    requires Free(p, io)
    ensures Fits(p, x, Single(io))
  {
  }

  // All of one kind, by ascending offset.
  ghost predicate OneWay(out: seq<Request>, write: bool) {
    && (forall i :: 0 <= i < |out| ==> out[i].write == write)
    && forall i, j :: 0 <= i < j < |out| ==> out[i].off < out[j].off
  }

  // Pending requests part with one of them, and with nothing else.
  lemma HeldRemoved(p: Pending, x: Id, maxsize: nat)
    requires Inv(p, maxsize) && x in p.reqs
    ensures var parts := Parts(Some(p.reqs[x]));
      Held(p.reqs) == Held(p.reqs - {x}) + parts && Held(p.reqs - {x}) !! parts
  {
    forall io | io in Held(p.reqs) ensures io in Held(p.reqs - {x}) || io in Parts(Some(p.reqs[x])) {
      var y :| y in p.reqs && io in p.reqs[y].batch;
      assert y != x ==> y in p.reqs - {x} && io in (p.reqs - {x})[y].batch;
    }
    forall io | io in Parts(Some(p.reqs[x])) ensures io in Held(p.reqs) {
      assert io in p.reqs[x].batch;
    }
    forall io | io in Held(p.reqs - {x}) ensures io in Held(p.reqs) && io !in Parts(Some(p.reqs[x])) {
      var y :| y in p.reqs - {x} && io in (p.reqs - {x})[y].batch;
      PartInside(p, y, io, maxsize);
      assert io in p.reqs[y].batch;
      if io in p.reqs[x].batch {
        PartInside(p, x, io, maxsize);
      }
    }
  }

  lemma PartInside(p: Pending, x: Id, io: Ioreq, maxsize: nat)
    requires Inv(p, maxsize) && x in p.reqs && io in p.reqs[x].batch
    ensures p.reqs[x].off <= io.off < io.off + io.count <= End(p.reqs[x])
  {
    hide Contiguous;
    BatchRange(p.reqs[x].batch, p.reqs[x].off, End(p.reqs[x]));
  }

  // What keeps clear of every part of a contiguous batch keeps clear of the batch: it does not fit between the parts.
  lemma {:induction false} ClearOfParts(batch: seq<Ioreq>, off: nat, end: nat, io: Ioreq)
    requires Contiguous(batch, off, end) && io.count > 0
    requires forall i :: 0 <= i < |batch| ==> ApartFrom(io, batch[i])
    ensures off < end ==> Clear(io.off, io.off + io.count, off, end)
  {
    if batch != [] {
      BatchRange(batch[1..], off + batch[0].count, end);
      ClearOfParts(batch[1..], off + batch[0].count, end, io);
      assert ApartFrom(io, batch[0]);
    }
  }

  /** io overlaps no pending request if and only if it overlaps none of their ioreqs. */
  lemma FreeIffApart(p: Pending, io: Ioreq, maxsize: nat)
    requires Inv(p, maxsize)
    ensures io.count > 0 ==> (Free(p, io) <==> forall b :: b in Held(p.reqs) ==> ApartFrom(io, b))
  {
    hide Contiguous;
    if io.count > 0 {
      forall x | x in p.reqs && (forall b :: b in Held(p.reqs) ==> ApartFrom(io, b))
        ensures Clear(io.off, io.off + io.count, p.reqs[x].off, End(p.reqs[x]))
      {
        var r := p.reqs[x];
        forall i | 0 <= i < |r.batch| ensures ApartFrom(io, r.batch[i]) {
          assert r.batch[i] in p.reqs[x].batch;
          assert r.batch[i] in Held(p.reqs);
        }
        ClearOfParts(r.batch, r.off, End(r), io);
        BatchRange(r.batch, r.off, End(r));
      }
      forall b | b in Held(p.reqs) && Free(p, io) ensures ApartFrom(io, b) {
        var x :| x in p.reqs && b in p.reqs[x].batch;
        PartInside(p, x, b, maxsize);
      }
    }
  }

  // The head of the sorted trees, writes first.
  lemma FirstLeads(p: Pending, maxsize: nat)
    requires Inv(p, maxsize) && p.writers + p.readers != []
    ensures Leads(p.reqs, (p.writers + p.readers)[0])
  {
    hide Good, Apart;
    var x := (p.writers + p.readers)[0];
    FirstIn(p.writers);
    FirstIn(p.readers);
    forall y | y in p.reqs && y != x
      ensures if p.reqs[y].write == p.reqs[x].write then p.reqs[x].off < p.reqs[y].off else p.reqs[x].write
    {
      var list := p.Of(p.reqs[y].write);
      var i :| 0 <= i < |list| && list[i] == y;
    }
  }

  lemma NothingPending(p: Pending, maxsize: nat)
    requires Inv(p, maxsize) && p.writers + p.readers == []
    ensures p.reqs == map[] && p.writers == p.readers == []
  {
    assert p.writers == [] && p.readers == [];
    assert forall x :: x in p.reqs ==> x in p.writers || x in p.readers;
  }

  lemma OrderOfDrain(p: Pending, maxsize: nat, out: seq<Request>)
    requires Inv(p, maxsize) && |out| == |p.writers| + |p.readers|
    requires forall i :: 0 <= i < |out| ==>
      (p.writers + p.readers)[i] in p.reqs && out[i] == p.reqs[(p.writers + p.readers)[i]]
    ensures OneWay(out[..|p.writers|], true) && OneWay(out[|p.writers|..], false)
  {
    hide Good, Apart, Sorted, OneWay;
    var k, order := |p.writers|, p.writers + p.readers;
    assert forall i :: 0 <= i < k ==> order[i] == p.writers[i];
    assert forall i :: 0 <= i < |p.readers| ==> order[k + i] == p.readers[i] && out[k..][i] == out[k + i];
    KindInOrder(p.reqs, p.writers, true, out[..k]);
    KindInOrder(p.reqs, p.readers, false, out[k..]);
  }

  lemma KindInOrder(reqs: map<Id, Request>, list: seq<Id>, write: bool, out: seq<Request>)
    requires Sorted(reqs, list, write) && |out| == |list|
    requires forall i :: 0 <= i < |out| ==> list[i] in reqs && out[i] == reqs[list[i]]
    ensures OneWay(out, write)
  {
    assert forall i :: 0 <= i < |list| ==> list[i] in list;
  }
}
