/** The hash of the pending requests by the offset where they end, and their fifo lists. */
module MergeHash {
  import opened Lists
  import opened Requests

  // The chains, and for each request that is on the hash the chain that its links are on.
  datatype Chains = Chains(chains: seq<seq<Id>>, on: map<Id, nat>)

  ghost predicate Linked(h: Chains) {
    && |h.chains| > 0 && (forall i :: 0 <= i < |h.chains| ==> NoRepeat(h.chains[i]))
    && (forall x :: x in h.on ==> h.on[x] < |h.chains|)
    && forall i, x :: 0 <= i < |h.chains| ==> (x in h.chains[i] <==> x in h.on && h.on[x] == i)
  }

  // ELV_HASH_FN
  ghost function SlotOf(h: Chains, hashFn: nat -> nat, off: nat): (i: nat)
    requires |h.chains| > 0
    ensures i < |h.chains|
  {
    hashFn(off) % |h.chains|
  }

  // hlist_add_head
  ghost function Pushed(h: Chains, x: Id, i: nat): Chains
    requires i < |h.chains|
  {
    Chains(h.chains[i := [x] + h.chains[i]], h.on[x := i])
  }

  // hlist_del_init: the links lead to the chain, whatever the key of the request is by now.
  ghost function Dropped(h: Chains, x: Id): Chains {
    if x in h.on && h.on[x] < |h.chains|
    then Chains(h.chains[h.on[x] := Without(h.chains[h.on[x]], x)], h.on - {x})
    else h
  }

  lemma PushedLinked(h: Chains, x: Id, i: nat)
    requires Linked(h) && x !in h.on && i < |h.chains|
    ensures Linked(Pushed(h, x, i))
  {
    assert x !in h.chains[i];
    var chain := [x] + h.chains[i];
    assert forall y :: y in chain <==> y == x || y in h.chains[i];
    assert forall j :: 1 <= j < |chain| ==> chain[j] == h.chains[i][j - 1];
  }

  lemma DroppedLinked(h: Chains, x: Id)
    requires Linked(h)
    ensures Linked(Dropped(h, x)) && |Dropped(h, x).chains| == |h.chains|
    ensures Dropped(h, x).on == h.on - {x}
  {
    if x in h.on {
      WithoutFacts(h.chains[h.on[x]], x);
    }
  }

  /** Every pending request is on exactly one chain, the one of its end; those of `moved` may be on another. */
  ghost predicate Hashed(h: Chains, reqs: map<Id, Request>, hashFn: nat -> nat, moved: set<Id>) {
    && Linked(h) && h.on.Keys == reqs.Keys
    && forall x :: x in reqs && x in h.on && x !in moved ==> h.on[x] == SlotOf(h, hashFn, End(reqs[x]))
  }

  lemma HashedLinked(h: Chains, reqs: map<Id, Request>, hashFn: nat -> nat, moved: set<Id>)
    requires Hashed(h, reqs, hashFn, moved)
    ensures Linked(h) && |h.chains| > 0 && h.on.Keys == reqs.Keys
  {
  }

  // What a walk of the chain for an offset meets: pending requests, with all of those that end there.
  lemma ChainOf(h: Chains, reqs: map<Id, Request>, hashFn: nat -> nat, off: nat)
    requires Hashed(h, reqs, hashFn, {})
    ensures |h.chains| > 0 && forall x :: x in h.chains[SlotOf(h, hashFn, off)] ==> x in reqs
    ensures forall x :: x in reqs && End(reqs[x]) == off ==> x in h.chains[SlotOf(h, hashFn, off)]
  {
  }

  lemma HashedNew(h: Chains, reqs: map<Id, Request>, hashFn: nat -> nat, x: Id, r: Request)
    requires Hashed(h, reqs, hashFn, {}) && x !in reqs
    ensures |h.chains| > 0 && Hashed(Pushed(h, x, SlotOf(h, hashFn, End(r))), reqs[x := r], hashFn, {})
  {
    hide Linked;
    HashedLinked(h, reqs, hashFn, {});
    PushedLinked(h, x, SlotOf(h, hashFn, End(r)));
  }

  // A request has grown; it is still on the right chain if its end is what it was.
  lemma HashedGrown(h: Chains, reqs: map<Id, Request>, hashFn: nat -> nat, x: Id, r: Request)
    requires Hashed(h, reqs, hashFn, {}) && x in reqs
    ensures Hashed(h, reqs[x := r], hashFn, {x})
    ensures End(r) == End(reqs[x]) ==> Hashed(h, reqs[x := r], hashFn, {})
  {
    hide Linked;
  }

  lemma HashedMoved(h: Chains, reqs: map<Id, Request>, hashFn: nat -> nat, x: Id)
    requires Hashed(h, reqs, hashFn, {})
    ensures Hashed(h, reqs, hashFn, {x})
  {
    hide Linked;
  }

  // elv_rqhash_reposition
  ghost function Repositioned(h: Chains, hashFn: nat -> nat, x: Id, off: nat): Chains
    requires |h.chains| > 0
  {
    var dropped := Dropped(h, x);
    Pushed(dropped, x, SlotOf(dropped, hashFn, off))
  }

  lemma HashedAgain(h: Chains, reqs: map<Id, Request>, hashFn: nat -> nat, x: Id, r: Request)
    requires Hashed(h, reqs, hashFn, {x}) && x in reqs
    ensures |h.chains| > 0 && Hashed(Repositioned(h, hashFn, x, End(r)), reqs[x := r], hashFn, {})
  {
    hide Linked, Dropped;
    HashedLinked(h, reqs, hashFn, {x});
    DroppedLinked(h, x);
    PushedLinked(Dropped(h, x), x, SlotOf(Dropped(h, x), hashFn, End(r)));
  }

  lemma HashedWithout(h: Chains, reqs: map<Id, Request>, hashFn: nat -> nat, x: Id)
    requires Hashed(h, reqs, hashFn, {})
    ensures Hashed(Dropped(h, x), reqs - {x}, hashFn, {})
  {
    hide Linked, Dropped;
    DroppedLinked(h, x);
  }

  // ---------- The fifo lists ----------

  datatype Fifos = Fifos(writers: seq<Id>, readers: seq<Id>) {
    function Of(write: bool): seq<Id> { if write then writers else readers }
    function With(write: bool, list: seq<Id>): Fifos {
      if write then this.(writers := list) else this.(readers := list)
    }
  }

  // Every pending request is on the fifo list of its kind, once.
  ghost predicate Filed(f: Fifos, reqs: map<Id, Request>) {
    && NoRepeat(f.readers) && NoRepeat(f.writers)
    && (forall x :: x in f.writers <==> x in reqs && reqs[x].write)
    && (forall x :: x in f.readers <==> x in reqs && !reqs[x].write)
  }

  lemma FiledNew(f: Fifos, reqs: map<Id, Request>, x: Id, r: Request)
    requires Filed(f, reqs) && x !in reqs
    ensures Filed(f.With(r.write, f.Of(r.write) + [x]), reqs[x := r])
  {
    hide NoRepeat;
    AppendFacts(f.Of(r.write), x);
  }

  lemma FiledGrown(f: Fifos, reqs: map<Id, Request>, x: Id, r: Request)
    requires Filed(f, reqs) && x in reqs && r.write == reqs[x].write
    ensures Filed(f, reqs[x := r])
  {
    hide NoRepeat;
  }

  lemma FiledWithout(f: Fifos, reqs: map<Id, Request>, x: Id)
    requires Filed(f, reqs) && x in reqs
    ensures var w := reqs[x].write; Filed(f.With(w, Without(f.Of(w), x)), reqs - {x})
  {
    hide NoRepeat, Without;
    var w := reqs[x].write;
    WithoutFacts(f.Of(w), x);
  }

  // The fifo list of a kind is empty exactly when its sorted tree is.
  lemma FiledEmpty(f: Fifos, p: Pending, write: bool)
    requires Filed(f, p.reqs) && Sorted(p.reqs, p.Of(write), write)
    ensures f.Of(write) == [] <==> p.Of(write) == []
  {
    FirstIn(f.Of(write));
    FirstIn(p.Of(write));
  }
}
