/** The bucket objects of a resizable hash table, and where every entry sits in them. */
module HashStore {
  import opened Lists

  type Ptr = nat
  type Key = nat

  // A linked node of the table together with its key.
  datatype Entry = Entry(node: nat, key: Key)

  // A chain: the list at offset off of the bucket object at bkt.
  datatype Spot = Spot(bkt: Ptr, off: nat)

  datatype Bucket = Bucket(index: nat, count: nat, chains: seq<seq<Entry>>)

  // home tells where each entry of the table is.
  datatype Store = Store(bkts: map<Ptr, Bucket>, home: map<Entry, Spot>)

  ghost predicate HasSpot(s: Store, at: Spot) { at.bkt in s.bkts && at.off < |s.bkts[at.bkt].chains| }

  ghost function Chain(s: Store, at: Spot): seq<Entry>
    requires HasSpot(s, at)
  {
    s.bkts[at.bkt].chains[at.off]
  }

  ghost function Inside(s: Store, p: Ptr): set<Entry> {
    set e | e in s.home && s.home[e].bkt == p
  }

  ghost predicate Homed(s: Store) {
    forall e :: e in s.home ==> HasSpot(s, s.home[e]) && e in Chain(s, s.home[e])
  }

  ghost predicate Chained(s: Store) {
    forall at :: HasSpot(s, at) ==>
      NoRepeat(Chain(s, at)) && forall e :: e in Chain(s, at) ==> e in s.home && s.home[e] == at
  }

  ghost predicate Counted(s: Store) {
    forall p :: p in s.bkts ==> s.bkts[p].count == |Inside(s, p)|
  }

  // Bucket objects are told apart by their index.
  ghost predicate Indexed(s: Store) {
    forall p, q :: p in s.bkts && q in s.bkts && s.bkts[p].index == s.bkts[q].index ==> p == q
  }

  /** Every entry is on exactly one chain, once, and every bucket counts its entries. */
  ghost predicate Sound(s: Store) { Homed(s) && Chained(s) && Counted(s) && Indexed(s) }

  // ---------- Linking and unlinking an entry ----------

  function WithChain(b: Bucket, off: nat, chain: seq<Entry>, count: nat): Bucket
    requires off < |b.chains|
  {
    Bucket(b.index, count, b.chains[off := chain])
  }

  function Linked(chain: seq<Entry>, e: Entry, tail: bool): seq<Entry> {
    if tail then chain + [e] else [e] + chain
  }

  ghost function Put(s: Store, e: Entry, at: Spot, tail: bool): Store
    requires HasSpot(s, at)
  {
    var b := s.bkts[at.bkt];
    Store(s.bkts[at.bkt := WithChain(b, at.off, Linked(b.chains[at.off], e, tail), b.count + 1)], s.home[e := at])
  }

  ghost function Remove(s: Store, e: Entry): Store
    requires e in s.home && HasSpot(s, s.home[e]) && s.bkts[s.home[e].bkt].count > 0
  {
    var at := s.home[e];
    var b := s.bkts[at.bkt];
    Store(s.bkts[at.bkt := WithChain(b, at.off, Without(b.chains[at.off], e), b.count - 1)], s.home - {e})
  }

  lemma LinkedFacts(chain: seq<Entry>, e: Entry, tail: bool)
    requires NoRepeat(chain) && e !in chain
    ensures NoRepeat(Linked(chain, e, tail)) && forall x :: x in Linked(chain, e, tail) <==> x in chain || x == e
  {
  }

  // What a change at one chain did: the other chains are as before.
  ghost predicate OnlyAt(s: Store, s': Store, at: Spot, chain: seq<Entry>) {
    && s'.bkts.Keys == s.bkts.Keys
    && (forall p :: p in s.bkts && p in s'.bkts ==>
      s'.bkts[p].index == s.bkts[p].index && |s'.bkts[p].chains| == |s.bkts[p].chains|
      && (p != at.bkt ==> s'.bkts[p].count == s.bkts[p].count))
    && forall to :: HasSpot(s, to) ==> HasSpot(s', to) && Chain(s', to) == if to == at then chain else Chain(s, to)
  }

  lemma ChangedChain(s: Store, s': Store, at: Spot, chain: seq<Entry>, count: nat)
    requires HasSpot(s, at) && s'.bkts == s.bkts[at.bkt := WithChain(s.bkts[at.bkt], at.off, chain, count)]
    ensures OnlyAt(s, s', at, chain)
  {
  }

  lemma OnlyAtIndexed(s: Store, s': Store, at: Spot, chain: seq<Entry>)
    requires OnlyAt(s, s', at, chain) && Indexed(s)
    ensures Indexed(s')
  {
  }

  lemma OnlyAtSpots(s: Store, s': Store, at: Spot, chain: seq<Entry>, to: Spot)
    requires OnlyAt(s, s', at, chain)
    ensures HasSpot(s', to) == HasSpot(s, to)
    ensures HasSpot(s, to) ==> Chain(s', to) == if to == at then chain else Chain(s, to)
  {
  }

  lemma OnlyAtCounts(s: Store, s': Store, at: Spot, chain: seq<Entry>)
    requires OnlyAt(s, s', at, chain)
    ensures s'.bkts.Keys == s.bkts.Keys
    ensures forall p :: p in s.bkts && p in s'.bkts && p != at.bkt ==> s'.bkts[p].count == s.bkts[p].count
  {
  }

  lemma PutHomed(s: Store, s': Store, e: Entry, at: Spot, chain: seq<Entry>)
    requires Homed(s) && Chained(s) && HasSpot(s, at) && e !in s.home && OnlyAt(s, s', at, chain)
    requires s'.home == s.home[e := at] && NoRepeat(chain)
    requires forall x :: x in chain <==> x in Chain(s, at) || x == e
    ensures Homed(s') && Chained(s')
  {
    hide OnlyAt, HasSpot, NoRepeat, Chain;
    forall x | x in s'.home ensures HasSpot(s', s'.home[x]) && x in Chain(s', s'.home[x]) {
      OnlyAtSpots(s, s', at, chain, s'.home[x]);
    }
    forall to | HasSpot(s', to)
      ensures NoRepeat(Chain(s', to)) && forall x :: x in Chain(s', to) ==> x in s'.home && s'.home[x] == to
    {
      OnlyAtSpots(s, s', at, chain, to);
    }
  }

  lemma RemoveHomed(s: Store, s': Store, e: Entry, at: Spot, chain: seq<Entry>)
    requires Homed(s) && Chained(s) && HasSpot(s, at) && e in s.home && s.home[e] == at && OnlyAt(s, s', at, chain)
    requires s'.home == s.home - {e} && NoRepeat(chain)
    requires forall x :: x in chain <==> x in Chain(s, at) && x != e
    ensures Homed(s') && Chained(s')
  {
    hide OnlyAt, HasSpot, NoRepeat, Chain;
    forall x | x in s'.home ensures HasSpot(s', s'.home[x]) && x in Chain(s', s'.home[x]) {
      OnlyAtSpots(s, s', at, chain, s'.home[x]);
    }
    forall to | HasSpot(s', to)
      ensures NoRepeat(Chain(s', to)) && forall x :: x in Chain(s', to) ==> x in s'.home && s'.home[x] == to
    {
      OnlyAtSpots(s, s', at, chain, to);
    }
  }

  lemma ChangedCount(s: Store, s': Store, e: Entry, at: Spot, chain: seq<Entry>)
    requires Counted(s) && OnlyAt(s, s', at, chain) && at.bkt in s.bkts
    requires if e in s.home then s.home[e] == at && s'.home == s.home - {e} else s'.home == s.home[e := at]
    requires s'.bkts[at.bkt].count == if e in s.home then s.bkts[at.bkt].count - 1 else s.bkts[at.bkt].count + 1
    ensures Counted(s')
  {
    OnlyAtCounts(s, s', at, chain);
    hide OnlyAt, HasSpot, Inside;
    forall p | p in s'.bkts ensures s'.bkts[p].count == |Inside(s', p)| {
      if e in s.home {
        InsideWithout(s, s', e, p);
      } else {
        InsideWith(s, s', e, at, p);
      }
    }
  }

  lemma InsideWith(s: Store, s': Store, e: Entry, at: Spot, p: Ptr)
    requires e !in s.home && s'.home == s.home[e := at]
    ensures |Inside(s', p)| == |Inside(s, p)| + if p == at.bkt then 1 else 0
  {
    assert Inside(s', p) == Inside(s, p) + (if p == at.bkt then {e} else {});
  }

  lemma InsideWithout(s: Store, s': Store, e: Entry, p: Ptr)
    requires e in s.home && s'.home == s.home - {e}
    ensures |Inside(s', p)| == |Inside(s, p)| - if p == s.home[e].bkt then 1 else 0
  {
    assert Inside(s', p) == Inside(s, p) - (if p == s.home[e].bkt then {e} else {});
    assert p == s.home[e].bkt <==> e in Inside(s, p);
  }

  lemma PutSound(s: Store, e: Entry, at: Spot, tail: bool)
    requires Sound(s) && HasSpot(s, at) && e !in s.home
    ensures Sound(Put(s, e, at, tail))
  {
    hide OnlyAt, NoRepeat, Linked, Homed, Counted, Indexed;
    var s' := Put(s, e, at, tail);
    var chain := Linked(Chain(s, at), e, tail);
    LinkedFacts(Chain(s, at), e, tail);
    ChangedChain(s, s', at, chain, s.bkts[at.bkt].count + 1);
    OnlyAtIndexed(s, s', at, chain);
    PutHomed(s, s', e, at, chain);
    ChangedCount(s, s', e, at, chain);
  }

  lemma Present(s: Store, e: Entry)
    requires Sound(s) && e in s.home
    ensures HasSpot(s, s.home[e]) && s.bkts[s.home[e].bkt].count > 0 && e in Chain(s, s.home[e])
  {
    assert e in Inside(s, s.home[e].bkt);
  }

  lemma RemoveSound(s: Store, e: Entry)
    requires Sound(s) && e in s.home && HasSpot(s, s.home[e]) && s.bkts[s.home[e].bkt].count > 0
    ensures Sound(Remove(s, e))
  {
    hide OnlyAt, NoRepeat, Without, Homed, Counted, Indexed;
    var s', at := Remove(s, e), s.home[e];
    var chain := Without(Chain(s, at), e);
    WithoutFacts(Chain(s, at), e);
    ChangedChain(s, s', at, chain, s.bkts[at.bkt].count - 1);
    OnlyAtIndexed(s, s', at, chain);
    RemoveHomed(s, s', e, at, chain);
    ChangedCount(s, s', e, at, chain);
  }
}
