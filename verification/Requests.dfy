/** The pending disk requests of the elevator: what each covers, and how they are merged. */
module Requests {
  import opened Lists
  import opened Options

  type Id = nat

  datatype Ioreq = Ioreq(id: nat, write: bool, off: nat, count: nat)

  datatype Request = Request(write: bool, off: nat, count: nat, batch: seq<Ioreq>)

  // The batch covers [off, end) in order and without gaps.
  ghost predicate Contiguous(batch: seq<Ioreq>, off: nat, end: nat) {
    if batch == [] then off == end
    else batch[0].off == off && batch[0].count > 0 && Contiguous(batch[1..], off + batch[0].count, end)
  }

  function End(r: Request): nat { r.off + r.count }

  ghost predicate Full(r: Request, maxsize: nat) {
    r.batch != [] && Contiguous(r.batch, r.off, End(r)) && (|r.batch| > 1 ==> r.count <= maxsize)
  }

  predicate Clear(off1: nat, end1: nat, off2: nat, end2: nat) { end1 <= off2 || end2 <= off1 }

  lemma {:induction false} ContiguousConcat(a: seq<Ioreq>, b: seq<Ioreq>, off: nat, mid: nat, end: nat)
    requires Contiguous(a, off, mid) && Contiguous(b, mid, end)
    ensures Contiguous(a + b, off, end)
  {
    if a == [] {
      assert a + b == b;
    } else {
      ContiguousConcat(a[1..], b, off + a[0].count, mid, end);
      assert (a + b)[1..] == a[1..] + b;
    }
  }

  // Every part of a batch lies in the range of the batch, and later parts further on.
  lemma {:induction false} BatchRange(batch: seq<Ioreq>, off: nat, end: nat)
    requires Contiguous(batch, off, end)
    ensures off <= end && (batch != [] ==> off < end)
    ensures forall i :: 0 <= i < |batch| ==>
      off <= batch[i].off && batch[i].count > 0 && batch[i].off + batch[i].count <= end
    ensures forall i, j :: 0 <= i < j < |batch| ==> batch[i].off + batch[i].count <= batch[j].off
  {
    if batch != [] {
      BatchRange(batch[1..], off + batch[0].count, end);
    }
  }

  // ---------- The pending requests ----------

  // The requests, and those of either kind in the order of the sorted tree.
  datatype Pending = Pending(reqs: map<Id, Request>, writers: seq<Id>, readers: seq<Id>) {
    ghost function Of(write: bool): seq<Id> { if write then writers else readers }
    ghost function With(write: bool, list: seq<Id>): Pending {
      if write then this.(writers := list) else this.(readers := list)
    }
  }

  ghost predicate Good(reqs: map<Id, Request>, maxsize: nat) {
    forall x :: x in reqs ==> Full(reqs[x], maxsize)
  }

  ghost predicate Apart(reqs: map<Id, Request>) {
    forall x, y :: x in reqs && y in reqs && x != y ==> Clear(reqs[x].off, End(reqs[x]), reqs[y].off, End(reqs[y]))
  }

  // Ascending offsets, no two alike.
  ghost predicate Ascending(list: seq<Id>, reqs: map<Id, Request>) {
    && (forall i :: 0 <= i < |list| ==> list[i] in reqs)
    && forall i, j :: 0 <= i < j < |list| ==> reqs[list[i]].off < reqs[list[j]].off
  }

  // The list holds the requests of its kind by ascending offset.
  ghost predicate Sorted(reqs: map<Id, Request>, list: seq<Id>, write: bool) {
    Ascending(list, reqs) && forall x :: x in list <==> x in reqs && reqs[x].write == write
  }

  ghost predicate Inv(p: Pending, maxsize: nat) {
    Good(p.reqs, maxsize) && Apart(p.reqs) && Sorted(p.reqs, p.writers, true) && Sorted(p.reqs, p.readers, false)
  }

  ghost function Held(reqs: map<Id, Request>): set<Ioreq> {
    set x, io | x in reqs && io in reqs[x].batch :: io
  }

  /** Every queued ioreq is in exactly one batch, once. */
  lemma ExactlyOnce(p: Pending, maxsize: nat, x: Id, i: nat, y: Id, j: nat)
    requires Inv(p, maxsize) && x in p.reqs && y in p.reqs && i < |p.reqs[x].batch| && j < |p.reqs[y].batch|
    ensures p.reqs[x].batch[i] == p.reqs[y].batch[j] ==> x == y && i == j
  {
    BatchRange(p.reqs[x].batch, p.reqs[x].off, End(p.reqs[x]));
    BatchRange(p.reqs[y].batch, p.reqs[y].off, End(p.reqs[y]));
  }

  // ---------- The sorted lists ----------

  function InsertId(list: seq<Id>, reqs: map<Id, Request>, x: Id): seq<Id>
    requires x in reqs && forall y :: y in list ==> y in reqs
  {
    if list == [] then [x]
    else if reqs[x].off < reqs[list[0]].off then [x] + list
    else [list[0]] + InsertId(list[1..], reqs, x)
  }

  lemma {:induction false} InsertIdMembers(list: seq<Id>, reqs: map<Id, Request>, x: Id)
    requires x in reqs && forall y :: y in list ==> y in reqs
    ensures forall y :: y in InsertId(list, reqs, x) <==> y == x || y in list
  {
    if list != [] {
      assert list == [list[0]] + list[1..];
      InsertIdMembers(list[1..], reqs, x);
    }
  }

  lemma {:induction false} InsertIdAscending(list: seq<Id>, reqs: map<Id, Request>, x: Id)
    requires x in reqs && Ascending(list, reqs)
    requires forall y :: y in list ==> y in reqs && reqs[y].off != reqs[x].off
    ensures Ascending(InsertId(list, reqs, x), reqs)
  {
    if list != [] && reqs[x].off >= reqs[list[0]].off {
      assert list == [list[0]] + list[1..];
      InsertIdAscending(list[1..], reqs, x);
      InsertIdMembers(list[1..], reqs, x);
      HeadLowest(list[0], InsertId(list[1..], reqs, x), reqs);
    }
  }

  lemma HeadLowest(head: Id, list: seq<Id>, reqs: map<Id, Request>)
    requires Ascending(list, reqs) && head in reqs
    requires forall y :: y in list ==> y in reqs && reqs[head].off < reqs[y].off
    ensures Ascending([head] + list, reqs)
  {
    assert forall i :: 0 <= i < |list| ==> list[i] in list;
  }

  lemma {:induction false} WithoutAscending(list: seq<Id>, reqs: map<Id, Request>, x: Id)
    requires Ascending(list, reqs) && forall y :: y in list ==> y in reqs
    ensures Ascending(Without(list, x), reqs) && forall y :: y in Without(list, x) <==> y in list && y != x
  {
    if list != [] {
      assert list == [list[0]] + list[1..];
      assert forall y :: y in list[1..] ==> reqs[list[0]].off < reqs[y].off;
      if list[0] != x {
        WithoutAscending(list[1..], reqs, x);
        HeadLowest(list[0], Without(list[1..], x), reqs);
      }
    }
  }

  // Offsets of listed requests that are as before keep the list in order.
  lemma AscendingSame(list: seq<Id>, reqs: map<Id, Request>, reqs': map<Id, Request>)
    requires Ascending(list, reqs)
    requires forall y :: y in list ==> y in reqs' && (y in reqs ==> reqs'[y].off == reqs[y].off)
    ensures Ascending(list, reqs')
  {
    assert forall i :: 0 <= i < |list| ==> list[i] in list;
  }

  // ---------- Steps ----------

  // A new request for io alone.
  function Single(io: Ioreq): Request { Request(io.write, io.off, io.count, [io]) }

  function Appended(r: Request, io: Ioreq): Request { r.(count := r.count + io.count, batch := r.batch + [io]) }

  function Prepended(r: Request, io: Ioreq): Request {
    r.(off := io.off, count := r.count + io.count, batch := [io] + r.batch)
  }

  function Joined(r: Request, next: Request): Request {
    r.(count := r.count + next.count, batch := r.batch + next.batch)
  }

  lemma SingleFull(io: Ioreq, maxsize: nat)
    requires io.count > 0
    ensures Full(Single(io), maxsize)
  {
    assert Contiguous([], io.off + io.count, io.off + io.count);
    assert [io][1..] == [];
  }

  lemma AppendedFull(r: Request, io: Ioreq, maxsize: nat)
    requires Full(r, maxsize) && io.count > 0 && io.off == End(r) && r.count + io.count <= maxsize
    ensures Full(Appended(r, io), maxsize)
  {
    SingleFull(io, maxsize);
    ContiguousConcat(r.batch, [io], r.off, End(r), End(r) + io.count);
  }

  lemma PrependedFull(r: Request, io: Ioreq, maxsize: nat)
    requires Full(r, maxsize) && io.count > 0 && io.off + io.count == r.off && r.count + io.count <= maxsize
    ensures Full(Prepended(r, io), maxsize)
  {
    SingleFull(io, maxsize);
    ContiguousConcat([io], r.batch, io.off, r.off, End(r));
  }

  lemma JoinedFull(r: Request, next: Request, maxsize: nat)
    requires Full(r, maxsize) && Full(next, maxsize) && End(r) == next.off && r.count + next.count <= maxsize
    ensures Full(Joined(r, next), maxsize)
  {
    ContiguousConcat(r.batch, next.batch, r.off, End(r), End(next));
  }

  lemma Nonempty(r: Request, maxsize: nat)
    requires Full(r, maxsize)
    ensures r.count > 0
  {
    BatchRange(r.batch, r.off, End(r));
  }

  // r lies apart from all requests but x.
  ghost predicate Fits(p: Pending, x: Id, r: Request) {
    forall y :: y in p.reqs && y != x ==> Clear(r.off, End(r), p.reqs[y].off, End(p.reqs[y]))
  }

  // Request x is new, or is taken out of its place and put back by its new offset.
  ghost function Placed(p: Pending, x: Id, r: Request): Pending
    requires forall y :: y in p.Of(r.write) ==> y in p.reqs
  {
    var p' := p.(reqs := p.reqs[x := r]);
    WithoutIn(p.Of(r.write), x);
    p'.With(r.write, InsertId(Without(p.Of(r.write), x), p'.reqs, x))
  }

  lemma {:induction false} WithoutIn(list: seq<Id>, x: Id)
    ensures forall y :: y in Without(list, x) ==> y in list
  {
    if list != [] {
      assert forall y :: y in list <==> y == list[0] || y in list[1..];
      WithoutIn(list[1..], x);
    }
  }

  ghost function Removed(p: Pending, x: Id): Pending
    requires x in p.reqs
  {
    var w := p.reqs[x].write;
    p.(reqs := p.reqs - {x}).With(w, Without(p.Of(w), x))
  }

  lemma ListsKnown(p: Pending, maxsize: nat)
    requires Inv(p, maxsize)
    ensures (forall y :: y in p.writers ==> y in p.reqs && p.reqs[y].write)
    ensures (forall y :: y in p.readers ==> y in p.reqs && !p.reqs[y].write)
  {
  }

  lemma PlacedApart(p: Pending, x: Id, r: Request, maxsize: nat)
    requires Good(p.reqs, maxsize) && Apart(p.reqs) && Full(r, maxsize) && Fits(p, x, r)
    ensures Good(p.reqs[x := r], maxsize) && Apart(p.reqs[x := r])
    ensures forall y :: y in p.reqs && y != x ==> p.reqs[y].off != r.off
  {
    hide Full;
    Nonempty(r, maxsize);
    forall y | y in p.reqs && y != x ensures p.reqs[y].off != r.off {
      Nonempty(p.reqs[y], maxsize);
    }
  }

  lemma PlacedSorted(reqs: map<Id, Request>, list: seq<Id>, x: Id, r: Request)
    requires Sorted(reqs, list, r.write) && (forall y :: y in list ==> y in reqs)
    requires forall y :: y in reqs && y != x ==> reqs[y].off != r.off
    requires x in reqs ==> reqs[x].write == r.write
    ensures forall y :: y in Without(list, x) ==> y in reqs
    ensures Sorted(reqs[x := r], InsertId(Without(list, x), reqs[x := r], x), r.write)
  {
    hide InsertId, Without, Ascending;
    WithoutAscending(list, reqs, x);
    AscendingSame(Without(list, x), reqs, reqs[x := r]);
    InsertIdMembers(Without(list, x), reqs[x := r], x);
    InsertIdAscending(Without(list, x), reqs[x := r], x);
  }

  lemma PlacedInv(p: Pending, x: Id, r: Request, maxsize: nat)
    requires Inv(p, maxsize) && Full(r, maxsize) && Fits(p, x, r) && (x in p.reqs ==> p.reqs[x].write == r.write)
    requires forall y :: y in p.Of(r.write) ==> y in p.reqs
    ensures Inv(Placed(p, x, r), maxsize)
  {
    hide InsertId, Without, Good, Apart, Full, Fits, Ascending;
    ListsKnown(p, maxsize);
    PlacedApart(p, x, r, maxsize);
    PlacedSorted(p.reqs, p.Of(r.write), x, r);
    AscendingSame(p.Of(!r.write), p.reqs, p.reqs[x := r]);
  }

  // A request that grows within the gap around it keeps its place in the order.
  lemma GrownAscending(p: Pending, list: seq<Id>, x: Id, r: Request, maxsize: nat)
    requires Good(p.reqs, maxsize) && Apart(p.reqs) && Ascending(list, p.reqs) && x in p.reqs && Fits(p, x, r)
    requires r.off <= p.reqs[x].off && End(p.reqs[x]) <= End(r)
    ensures Ascending(list, p.reqs[x := r])
  {
    hide Full;
    var reqs' := p.reqs[x := r];
    forall i, j | 0 <= i < j < |list| ensures reqs'[list[i]].off < reqs'[list[j]].off {
      GrownPair(p, list[i], list[j], x, r, maxsize);
    }
  }

  lemma GrownPair(p: Pending, y: Id, z: Id, x: Id, r: Request, maxsize: nat)
    requires Good(p.reqs, maxsize) && Apart(p.reqs) && x in p.reqs && y in p.reqs && z in p.reqs && Fits(p, x, r)
    requires r.off <= p.reqs[x].off && End(p.reqs[x]) <= End(r) && p.reqs[y].off < p.reqs[z].off
    ensures p.reqs[x := r][y].off < p.reqs[x := r][z].off
  {
    hide Full;
    Nonempty(p.reqs[x], maxsize);
    Nonempty(p.reqs[y], maxsize);
  }

  lemma GrownInv(p: Pending, x: Id, r: Request, maxsize: nat)
    requires Inv(p, maxsize) && x in p.reqs && Full(r, maxsize) && Fits(p, x, r) && r.write == p.reqs[x].write
    requires r.off <= p.reqs[x].off && End(p.reqs[x]) <= End(r)
    ensures Inv(p.(reqs := p.reqs[x := r]), maxsize)
  {
    hide Full, Fits, Ascending, Good, Apart;
    PlacedApart(p, x, r, maxsize);
    GrownAscending(p, p.writers, x, r, maxsize);
    GrownAscending(p, p.readers, x, r, maxsize);
  }

  lemma RemovedInv(p: Pending, x: Id, maxsize: nat)
    requires Inv(p, maxsize) && x in p.reqs
    ensures Inv(Removed(p, x), maxsize)
  {
    hide Without, Ascending;
    var w := p.reqs[x].write;
    ListsKnown(p, maxsize);
    WithoutAscending(p.Of(w), p.reqs, x);
    AscendingSame(Without(p.Of(w), x), p.reqs, p.reqs - {x});
    AscendingSame(p.Of(!w), p.reqs, p.reqs - {x});
  }

  // What is apart from two adjoining requests is apart from both together.
  lemma JoinedFits(p: Pending, x: Id, y: Id, maxsize: nat)
    requires Inv(p, maxsize) && x in p.reqs && y in p.reqs && x != y && End(p.reqs[x]) == p.reqs[y].off
    ensures Fits(Removed(p, y), x, Joined(p.reqs[x], p.reqs[y]))
  {
    hide Full, Ascending, Without;
    forall z | z in p.reqs && z != x && z != y
      ensures Clear(p.reqs[x].off, End(p.reqs[y]), p.reqs[z].off, End(p.reqs[z]))
    {
      Nonempty(p.reqs[z], maxsize);
    }
  }

  // ---------- What is held ----------

  lemma HeldPlaced(reqs: map<Id, Request>, x: Id, r: Request, more: set<Ioreq>)
    requires forall io :: io in r.batch <==> io in more || (x in reqs && io in reqs[x].batch)
    ensures Held(reqs[x := r]) == Held(reqs) + more
  {
    forall io | io in Held(reqs) + more ensures io in Held(reqs[x := r]) {
      if io in r.batch {
        assert x in reqs[x := r];
      } else {
        var y :| y in reqs && io in reqs[y].batch;
        assert y in reqs[x := r] && reqs[x := r][y] == reqs[y];
      }
    }
  }

  lemma HeldJoined(reqs: map<Id, Request>, x: Id, y: Id, r: Request)
    requires x in reqs && y in reqs && x != y && r.batch == reqs[x].batch + reqs[y].batch
    ensures Held((reqs - {y})[x := r]) == Held(reqs)
  {
    var reqs' := (reqs - {y})[x := r];
    forall io | io in Held(reqs) ensures io in Held(reqs') {
      var z :| z in reqs && io in reqs[z].batch;
      if z == x || z == y {
        assert x in reqs' && io in reqs'[x].batch;
      } else {
        assert z in reqs' && reqs'[z] == reqs[z];
      }
    }
  }

  // ---------- Which merges happen ----------

  // Request y may be appended to x.
  ghost predicate Mergeable(reqs: map<Id, Request>, x: Id, y: Id, maxsize: nat) {
    && x in reqs && y in reqs && x != y && End(reqs[x]) == reqs[y].off && reqs[x].write == reqs[y].write
    && reqs[x].count + reqs[y].count <= maxsize
  }

  ghost predicate MergedPair(before: map<Id, Request>, after: map<Id, Request>, x: Id, y: Id, maxsize: nat) {
    Mergeable(before, x, y, maxsize) && after == (before - {y})[x := Joined(before[x], before[y])]
  }

  // What follows x is merged with it, if it may.
  ghost predicate ClosedBehind(before: map<Id, Request>, after: map<Id, Request>, x: Id, maxsize: nat) {
    || (exists y :: MergedPair(before, after, x, y, maxsize))
    || (after == before && forall y :: !Mergeable(before, x, y, maxsize))
  }

  // What precedes x is merged with it, if it may; z is the request that x is in then.
  ghost predicate ClosedAhead(before: map<Id, Request>, after: map<Id, Request>, x: Id, maxsize: nat, z: Option<Id>) {
    || (exists y: Id :: MergedPair(before, after, y, x, maxsize) && z == Some(y))
    || (after == before && z == Some(x) && forall y :: !Mergeable(before, y, x, maxsize))
  }

  // Only the next request of its kind can adjoin x, and only the one before it can be adjoined by x.
  lemma OnlyNeighbours(p: Pending, list: seq<Id>, write: bool, i: nat, z: Id, maxsize: nat)
    requires Good(p.reqs, maxsize) && Apart(p.reqs) && Sorted(p.reqs, list, write) && i < |list| && z in list
    requires list[i] in p.reqs && z in p.reqs
    ensures p.reqs[z].off == End(p.reqs[list[i]]) ==> i + 1 < |list| && list[i + 1] == z
    ensures End(p.reqs[z]) == p.reqs[list[i]].off ==> i > 0 && list[i - 1] == z
  {
    hide Full;
    var x := list[i];
    var k :| 0 <= k < |list| && list[k] == z;
    Nonempty(p.reqs[x], maxsize);
    Nonempty(p.reqs[z], maxsize);
    if k > i + 1 {
      Nonempty(p.reqs[list[i + 1]], maxsize);
      BetweenThem(p, x, list[i + 1], z);
    }
    if k + 1 < i {
      Nonempty(p.reqs[list[i - 1]], maxsize);
      BetweenThem(p, z, list[i - 1], x);
    }
  }

  lemma BetweenThem(p: Pending, x: Id, y: Id, z: Id)
    requires Apart(p.reqs) && x in p.reqs && y in p.reqs && z in p.reqs && p.reqs[y].count > 0 && p.reqs[x].count > 0
    requires p.reqs[x].off < p.reqs[y].off < p.reqs[z].off
    ensures End(p.reqs[x]) != p.reqs[z].off
  {
    assert Clear(p.reqs[x].off, End(p.reqs[x]), p.reqs[y].off, End(p.reqs[y]));
  }
}
