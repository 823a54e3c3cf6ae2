/** A hash table that resizes itself while it is used: old and new bucket tables share bucket objects. */
module CfsHash {
  import opened Lists
  import opened Powers
  import opened HashStore
  import opened HashGeometry
  import opened HashSteps
  import opened Options

  const THETA_BITS: nat := 10

  predicate Matches(x: Entry, key: Key, match': Option<Entry>) {
    x.key == key && (match'.None? || match'.value == x)
  }

  // x is the first entry of the chain that matches.
  ghost predicate FirstMatch(chain: seq<Entry>, x: Entry, key: Key, match': Option<Entry>) {
    exists i {:trigger chain[i]} ::
      && 0 <= i < |chain| && chain[i] == x && Matches(x, key, match')
      && forall j :: 0 <= j < i ==> !Matches(chain[j], key, match')
  }

  // The first bucket table, with nothing in it.
  method MakeBuckets(size: nat, chains: nat) returns (bkts: map<Ptr, Bucket>, table: seq<Ptr>)
    ensures |table| == size && Sound(Store(bkts, map[])) && bkts.Keys == (set p | p in table)
    ensures forall i :: 0 <= i < size ==>
      table[i] == i && i in bkts && bkts[i].index == i && |bkts[i].chains| == chains
  {
    hide Sound;
    bkts, table := map[], [];
    NothingSound();
    while |table| < size
      invariant |table| <= size && Sound(Store(bkts, map[])) && bkts.Keys == (set p | p in table)
      invariant forall i :: 0 <= i < |table| ==>
        table[i] == i && i in bkts && bkts[i].index == i && |bkts[i].chains| == chains
    {
      var i := |table|;
      assert forall p :: p in table ==> p < i;
      AllocSound(Store(bkts, map[]), i, i, chains);
      bkts, table := bkts[i := EmptyBucket(i, chains)], table + [i];
    }
  }

  lemma NothingSound()
    ensures Sound(Store(map[], map[]))
  {
  }

  lemma CreatedInv(v: State)
    requires Sound(v.s) && v.s.home == map[] && !v.rehashing && TableOk(v.s, v.cur)
    requires v.s.bkts.Keys == (set p | p in v.cur.bkts)
    ensures Inv(v)
  {
  }

  class HashTable {
    const hash: Key -> nat
    const bktBits: nat
    const minBits: nat
    const maxBits: nat
    const minTheta: nat
    const maxTheta: nat
    const shrink: bool
    const addTail: bool
    var bkts: map<Ptr, Bucket>
    var buckets: seq<Ptr>
    var rehashBuckets: seq<Ptr>
    var curBits: nat
    var rehashBits: nat
    var count: nat
    // Entries whose list links are in use, the next bucket object to hand out, and how far the worker has come.
    var hashed: set<Entry>
    var nextPtr: Ptr
    var cursor: nat
    ghost var home: map<Entry, Spot>

    constructor (hash: Key -> nat, bktBits: nat, curBits: nat, maxBits: nat, minTheta: nat, maxTheta: nat, shrink: bool,
                 addTail: bool)
      requires bktBits <= curBits <= maxBits && 0 < curBits
      ensures Valid() && Contents() == {} && rehashBits == 0 && this.curBits == curBits == minBits
    {
      hide Sound;
      var size := Pow2(curBits - bktBits);
      var bkts, table := MakeBuckets(size, Pow2(bktBits));
      this.hash, this.bktBits, this.minBits, this.maxBits := hash, bktBits, curBits, maxBits;
      this.minTheta, this.maxTheta, this.shrink, this.addTail := minTheta, maxTheta, shrink, addTail;
      this.bkts, this.buckets, this.rehashBuckets, this.curBits, this.rehashBits := bkts, table, [], curBits, 0;
      this.count, this.hashed, this.nextPtr, this.cursor, this.home := 0, {}, size, 0, map[];
      new;
      CreatedInv(View());
      hide Inv;
    }

    ghost function View(): State
      reads this
    {
      State(Store(bkts, home), Table(buckets, curBits, bktBits), Table(rehashBuckets, rehashBits, bktBits),
            rehashBuckets != [], cursor, hash)
    }

    ghost predicate Valid()
      reads this
    {
      && Inv(View()) && hashed == home.Keys && count == |home| && (forall p :: p in bkts ==> p < nextPtr)
      && bktBits <= minBits <= curBits <= maxBits && 0 < minBits
      && (rehashBits != 0 ==> minBits <= rehashBits <= maxBits)
      && (rehashBuckets != [] ==> rehashBits != 0) && (rehashBuckets == [] ==> cursor == 0)
    }

    // What the table holds, for a client that knows nothing of buckets.
    ghost function Contents(): set<Entry>
      reads this
    {
      home.Keys
    }

    // ---------- Linking, unlinking and moving entries ----------

    method HnodeAdd(at: Spot, e: Entry)
      requires HasSpot(Store(bkts, home), at)
      modifies `bkts, `home
      ensures HasSpot(Store(old(bkts), old(home)), at)
      ensures Store(bkts, home) == Put(Store(old(bkts), old(home)), e, at, addTail)
      ensures HasSpot(Store(bkts, home), at)
      ensures var chain := Chain(Store(old(bkts), old(home)), at);
        Chain(Store(bkts, home), at) == if addTail then chain + [e] else [e] + chain
    {
      var b := bkts[at.bkt];
      bkts := bkts[at.bkt := WithChain(b, at.off, Linked(b.chains[at.off], e, addTail), b.count + 1)];
      home := home[e := at];
    }

    method HnodeDel(at: Spot, e: Entry)
      requires e in home && home[e] == at && HasSpot(Store(bkts, home), at) && bkts[at.bkt].count > 0
      modifies `bkts, `home
      ensures e in old(home) && HasSpot(Store(old(bkts), old(home)), at)
      ensures old(home)[e] == at && old(bkts)[at.bkt].count > 0
      ensures Store(bkts, home) == Remove(Store(old(bkts), old(home)), e)
    {
      var b := bkts[at.bkt];
      bkts := bkts[at.bkt := WithChain(b, at.off, Without(b.chains[at.off], e), b.count - 1)];
      home := home - {e};
    }

    // On to the chain where additions go.
    method BdLink(at: Spot, e: Entry)
      requires Inv(View()) && e !in home && at == NewSpot(View(), e.key)
      modifies `bkts, `home
      ensures Inv(View()) && home == old(home)[e := at] && bkts.Keys == old(bkts.Keys)
      ensures SameShape(old(View()).s, View().s)
    {
      hide Inv, NewSpot, HasSpot, Put, TablesOk, TableOk, SpotOf, SameShape;
      ghost var v := View();
      AddInv(v, e, addTail);
      HnodeAdd(at, e);
      PutHome(v.s, e, at, addTail);
      PutShape(v.s, e, at, addTail);
      assert View() == v.(s := Put(v.s, e, at, addTail));
    }

    // Off its chain.
    method BdUnlink(at: Spot, e: Entry)
      requires Inv(View()) && e in home && at == home[e]
      modifies `bkts, `home
      ensures Inv(View()) && home == old(home) - {e} && bkts.Keys == old(bkts.Keys)
      ensures SameShape(old(View()).s, View().s)
    {
      hide Inv, HasSpot, Remove, SameShape;
      ghost var v := View();
      RemoveInv(v, e);
      RemoveShape(v.s, e);
      HnodeDel(at, e);
      RemoveHome(v.s, e);
      assert View() == v.(s := Remove(v.s, e));
    }

    // cfs_hash_bd_add_locked at the place where additions go
    method BdAdd(at: Spot, e: Entry)
      requires Valid() && e !in home && at == NewSpot(View(), e.key)
      modifies `bkts, `home, `hashed, `count
      ensures Valid() && Contents() == old(Contents()) + {e} && home == old(home)[e := at]
    {
      hide Inv, NewSpot, TablesOk;
      BdLink(at, e);
      hashed := hashed + {e};
      count := count + 1;
    }

    // cfs_hash_bd_del_locked
    method BdDel(at: Spot, e: Entry)
      requires Valid() && e in home && at == home[e]
      modifies `bkts, `home, `hashed, `count
      ensures Valid() && Contents() == old(Contents()) - {e} && home == old(home) - {e}
    {
      hide Inv;
      BdUnlink(at, e);
      hashed := hashed - {e};
      count := count - 1;
    }

    // cfs_hash_bd_move_locked: an entry that is already at its new place stays.
    method BdMove(from: Spot, to: Spot, e: Entry)
      requires Valid() && rehashBuckets != [] && e in home && from == home[e] && to == NewSpot(View(), e.key)
      modifies `bkts, `home
      ensures Valid() && home == old(home)[e := to] && SameShape(old(View()).s, View().s)
      ensures from == to ==> bkts == old(bkts)
    {
      hide Inv, NewSpot, HasSpot, TablesOk, TableOk, SpotOf, SameShape;
      ghost var v := View();
      TableFacts(v);
      MovePlaces(v, e);
      ShapeTrans(v.s, v.s, v.s);
      if bkts[from.bkt].index == bkts[to.bkt].index && from.off == to.off {
        SameIndex(v, from.bkt, to.bkt);
        return;
      }
      BdUnlink(from, e);
      ghost var w := View();
      TableFacts(w);
      SamePlace(v, w, e.key);
      BdLink(to, e);
      ShapeTrans(v.s, w.s, View().s);
      assert home == old(home)[e := to];
    }

    // ---------- Looking entries up ----------

    // cfs_hash_bd_get: where additions go.
    method BdGet(key: Key) returns (at: Spot)
      requires Valid()
      ensures TablesOk(View()) && at == NewSpot(View(), key)
    {
      hide SpotOf, TableOk, TablesOk, Inv, Pow2, HasSpot, NewSpot;
      if rehashBuckets == [] {
        NewSpotIs(View(), Table(buckets, curBits, bktBits), key);
        return SpotOf(Table(buckets, curBits, bktBits), hash(key));
      }
      NewSpotIs(View(), Table(rehashBuckets, rehashBits, bktBits), key);
      return SpotOf(Table(rehashBuckets, rehashBits, bktBits), hash(key));
    }

    // cfs_hash_dual_bd_get: the one or two places of a key, in the order in which buckets are to be locked.
    method DualGet(key: Key) returns (bds: seq<Spot>)
      requires Valid()
      ensures 1 <= |bds| <= 2 && (forall at :: at in bds ==> HasSpot(View().s, at))
      ensures TablesOk(View()) && NewSpot(View(), key) in bds && OldSpot(View(), key) in bds
      ensures |bds| == 1 ==> bds[0] == NewSpot(View(), key)
      ensures |bds| == 2 ==> LockedBefore(View().s, bds[0], bds[1])
    {
      hide SpotOf, TableOk, TablesOk, Inv, Pow2, HasSpot, NewSpot, OldSpot;
      PlacesInStore(View(), key);
      OldSpotIs(View(), Table(buckets, curBits, bktBits), key);
      var first := SpotOf(Table(buckets, curBits, bktBits), hash(key));
      if rehashBuckets == [] {
        NewSpotIs(View(), Table(buckets, curBits, bktBits), key);
        return [first];
      }
      NewSpotIs(View(), Table(rehashBuckets, rehashBits, bktBits), key);
      var second := SpotOf(Table(rehashBuckets, rehashBits, bktBits), hash(key));
      var i, j := bkts[first.bkt].index, bkts[second.bkt].index;
      if i == j && first.off == second.off {
        SameIndex(View(), first.bkt, second.bkt);
        return [first];
      }
      bds := if i > j || (i == j && first.off > second.off) then [second, first] else [first, second];
    }

    // cfs_hash_bd_lookup_intent without its side effects: the first match on one chain.
    method FindIn(at: Spot, key: Key, match': Option<Entry>) returns (found: Option<Entry>)
      requires HasSpot(Store(bkts, home), at)
      ensures found.Some? ==> FirstMatch(Chain(Store(bkts, home), at), found.value, key, match')
      ensures found.None? ==> forall x :: x in Chain(Store(bkts, home), at) ==> !Matches(x, key, match')
    {
      var chain := bkts[at.bkt].chains[at.off];
      var i := 0;
      while i < |chain|
        invariant 0 <= i <= |chain| && forall j :: 0 <= j < i ==> !Matches(chain[j], key, match')
      {
        if Matches(chain[i], key, match') {
          return Some(chain[i]);
        }
        i := i + 1;
      }
      found := None;
    }

    // The dual lookup is complete: what it does not find is not in the table.
    method FindAt(bds: seq<Spot>, key: Key, match': Option<Entry>) returns (found: Option<Entry>, at: Spot)
      requires Valid() && |bds| > 0 && (forall at :: at in bds ==> HasSpot(View().s, at))
      requires TablesOk(View()) && NewSpot(View(), key) in bds && OldSpot(View(), key) in bds
      ensures found.Some? ==> found.value in home && Matches(found.value, key, match') && home[found.value] == at
      ensures found.Some? ==> FirstMatch(Chain(View().s, at), found.value, key, match')
      ensures found.Some? ==> exists k {:trigger bds[k]} ::
        && 0 <= k < |bds| && bds[k] == at
        && forall j :: 0 <= j < k ==> NoMatch(View().s, bds[j], key, match')
      ensures found.None? ==> forall x :: x in home ==> !Matches(x, key, match')
    {
      hide Inv, HasSpot, TablesOk, OldSpot, NewSpot;
      at := bds[0];
      var i := 0;
      while i < |bds|
        invariant 0 <= i <= |bds|
        invariant forall j :: 0 <= j < i ==> NoMatch(View().s, bds[j], key, match')
      {
        at := bds[i];
        found := FindIn(at, key, match');
        if found.Some? {
          OnChain(View(), at, found.value);
          return;
        }
        i := i + 1;
      }
      found := None;
      NotAnywhere(View(), bds, key, match');
    }

    /** An entry with the key, if and only if there is one, whatever the state of a resize. */
    method Lookup(key: Key) returns (found: Option<Entry>)
      requires Valid()
      ensures found.Some? ==> found.value in Contents() && found.value.key == key
      ensures found.None? ==> forall x :: x in Contents() ==> x.key != key
    {
      hide Inv, HasSpot, TablesOk, OldSpot, NewSpot;
      var bds := DualGet(key);
      var at;
      found, at := FindAt(bds, key, None);
      assert found.None? ==> forall x :: x in home ==> !Matches(x, key, None);
    }

    /** Adds an entry; while rehashing only to the new table. */
    method Add(e: Entry)
      requires Valid() && e !in hashed
      modifies `bkts, `home, `hashed, `count
      ensures Valid() && Contents() == old(Contents()) + {e}
    {
      hide Inv, HasSpot, TablesOk, OldSpot, NewSpot;
      var at := BdGet(e.key);
      BdAdd(at, e);
    }

    /** cfs_hash_find_or_add: an entry that has the key already, or e once it is added. */
    method FindOrAdd(e: Entry) returns (found: Entry)
      requires Valid() && e !in hashed
      modifies `bkts, `home, `hashed, `count
      ensures Valid() && found.key == e.key && found in Contents()
      ensures found != e ==> Contents() == old(Contents())
      ensures found == e ==> Contents() == old(Contents()) + {e} && forall x :: x in old(Contents()) ==> x.key != e.key
    {
      hide Inv, HasSpot, TablesOk, OldSpot, NewSpot;
      var bds := DualGet(e.key);
      var old', at := FindAt(bds, e.key, None);
      if old'.Some? {
        return old'.value;
      }
      assert forall x :: x in home ==> !Matches(x, e.key, None);
      if |bds| == 1 {
        BdAdd(bds[0], e);
      } else {
        var mybd := BdGet(e.key);
        BdAdd(mybd, e);
      }
      found := e;
    }

    /** cfs_hash_del: takes the given entry out, or any entry that has the key when none is given. */
    method Del(key: Key, hnode: Option<Entry>) returns (gone: Option<Entry>)
      requires Valid() && (hnode.Some? ==> hnode.value.key == key)
      modifies `bkts, `home, `hashed, `count
      ensures Valid()
      ensures hnode.Some? ==> gone == hnode && Contents() == old(Contents()) - {hnode.value}
      ensures hnode.None? && gone.Some? ==>
        gone.value in old(Contents()) && gone.value.key == key && Contents() == old(Contents()) - {gone.value}
      ensures gone.None? ==> Contents() == old(Contents()) && forall x :: x in Contents() ==> x.key != key
    {
      hide Inv, HasSpot, TablesOk, OldSpot, NewSpot;
      var bds := DualGet(key);
      gone := hnode;
      if hnode.None? || hnode.value in hashed {
        if |bds| == 1 && hnode.Some? {
          OnlyPlace(View(), bds, hnode.value);
          BdDel(bds[0], hnode.value);
        } else {
          var at;
          gone, at := FindAt(bds, key, hnode);
          assert gone.None? ==> forall x :: x in home ==> !Matches(x, key, hnode);
          if gone.Some? {
            BdDel(at, gone.value);
          }
        }
      }
    }

    // ---------- Resizing ----------

    function Theta(): nat
      reads `count, `curBits
    {
      (count * Pow2(THETA_BITS)) / Pow2(curBits)
    }

    // The load without a quotient: t is reached when there are t entries for every 1024 chains.
    lemma ThetaReaches(t: nat)
      ensures Theta() >= t <==> count * 1024 >= t * Pow2(curBits)
    {
      Pow2Is256();
      Pow2Sum(2, 8);
      hide Pow2;
      QuotientReaches(count * 1024, Pow2(curBits), t);
    }

    // cfs_hash_rehash_bits: the size to resize to, 0 for none.
    function RehashBits(): (bits: nat)
      requires minBits <= curBits <= maxBits
      reads this
      ensures bits != 0 ==> minBits <= bits <= maxBits && rehashBits == 0
      ensures bits != 0 ==> bits == curBits + 1 || bits == curBits - 1
    {
      if rehashBits != 0 then 0
      else if curBits < maxBits && Theta() > maxTheta then curBits + 1
      else if !shrink then 0
      else if curBits > minBits && Theta() < minTheta then curBits - 1
      else 0
    }

    method RequestRehash()
      requires Valid()
      modifies `rehashBits
      ensures Valid() && Contents() == old(Contents())
      ensures old(rehashBits) != 0 ==> rehashBits == old(rehashBits)
      ensures old(rehashBits) == 0 ==> rehashBits == Wanted(Rules(), count, curBits)
    {
      hide Inv, TablesOk, Pow2, Theta;
      ThetaReaches(maxTheta + 1);
      ThetaReaches(minTheta);
      var bits := RehashBits();
      if bits > 0 {
        RequestInv(View(), bits);
        rehashBits := bits;
      }
    }

    // cfs_hash_buckets_realloc: the common prefix is shared, what lies beyond it is new and empty.
    method BucketsRealloc(newSize: nat) returns (newBkts: seq<Ptr>)
      requires Valid() && rehashBuckets == []
      modifies `bkts, `nextPtr
      ensures |newBkts| == newSize && Sound(View().s) && (forall p :: p in bkts ==> p < nextPtr)
      ensures Growing(old(View()), View().s, newBkts) && nextPtr >= old(nextPtr)
    {
      hide Inv, Sound, Growing, Pow2;
      ghost var v := View();
      var oldSize := |buckets|;
      newBkts := if oldSize < newSize then buckets else buckets[..newSize];
      SharedPrefix(v, newBkts);
      var i := oldSize;
      while i < newSize
        invariant |newBkts| == (if newSize < oldSize then newSize else i) && (i > oldSize ==> i <= newSize)
        invariant Sound(View().s) && Growing(v, View().s, newBkts) && (forall p :: p in bkts ==> p < nextPtr)
        invariant i >= oldSize && nextPtr >= old(nextPtr) && home == v.s.home && buckets == v.cur.bkts
        invariant bktBits == v.cur.bktBits
      {
        GrowByOne(v, View().s, newBkts, nextPtr);
        bkts := bkts[nextPtr := EmptyBucket(i, Pow2(bktBits))];
        newBkts := newBkts + [nextPtr];
        nextPtr := nextPtr + 1;
        i := i + 1;
      }
    }

    // cfs_hash_buckets_free: the bucket objects of a table from prevSize to size, none of which holds an entry.
    method BucketsFree(table: seq<Ptr>, prevSize: nat, size: nat)
      requires size <= |table| && Sound(View().s)
      requires forall i :: prevSize <= i < size ==> Unused(View().s, table[i])
      requires forall i, j :: prevSize <= i < j < size ==> table[i] != table[j]
      modifies `bkts
      ensures Sound(View().s) && bkts == old(bkts) - Range(table, prevSize, size)
    {
      hide Sound, Unused;
      ghost var s := View().s;
      var i := prevSize;
      EmptyRange(table, prevSize, size);
      while i < size
        invariant (prevSize < size ==> i <= size) && prevSize <= i && (i > prevSize ==> i <= size)
        invariant Sound(View().s) && bkts == old(bkts) - Range(table, prevSize, if i <= size then i else size)
        invariant forall j :: i <= j < size ==> Unused(View().s, table[j])
      {
        FreeOne(View().s, table, i, size);
        RangeStep(table, prevSize, i);
        bkts := bkts - {table[i]};
        i := i + 1;
      }
    }

    // The new table is freed again.
    method Abandon(newBkts: seq<Ptr>, ghost v: State)
      requires Inv(v) && !v.rehashing && Growing(v, View().s, newBkts) && Sound(View().s) && buckets == v.cur.bkts
      modifies `bkts
      ensures bkts == v.s.bkts
    {
      hide Inv, Sound, Growing, Unused, Range;
      ghost var s := View().s;
      NewAreUnused(v, s, newBkts);
      BucketsFree(newBkts, |buckets|, |newBkts|);
      Abandoned(v, s, bkts, newBkts);
    }

    /** The worker begins: a table of the new size is set up, unless the load has become right in the meantime. */
    method WorkerStart()
      requires Valid() && rehashBits != 0 && rehashBuckets == []
      modifies `bkts, `nextPtr, `rehashBuckets, `rehashBits, `cursor
      ensures Valid() && home == old(home) && (rehashBits == 0 ==> bkts == old(bkts) && rehashBuckets == [])
      ensures rehashBits != 0 ==> rehashBits == old(rehashBits) && rehashBuckets != []
      ensures cursor == 0
      ensures rehashBits == 0 <==> !TooFull(Rules(), count, curBits) && !TooEmpty(Rules(), count, curBits)
    {
      hide Inv, Sound, Growing, Pow2, TablesOk, Theta;
      ThetaReaches(minTheta);
      ThetaReaches(maxTheta + 1);
      ghost var v := View();
      var newSize := Pow2(rehashBits - bktBits);
      var newBkts := BucketsRealloc(newSize);
      if minTheta <= Theta() <= maxTheta {
        Abandon(newBkts, v);
        rehashBits := 0;
        RequestInv(v, 0);
      } else {
        StartInv(v, View().s, Table(newBkts, rehashBits, bktBits));
        rehashBuckets, cursor := newBkts, 0;
      }
    }

    // One chain of cfs_hash_rehash_bd.
    method RehashChain(p: Ptr, off: nat, ghost v: State)
      requires Valid() && rehashBuckets != [] && HasSpot(View().s, Spot(p, off)) && TablesOk(v)
      requires View() == v.(s := View().s) && NoneStale(v, home, p, off)
      modifies `bkts, `home
      ensures Valid() && home.Keys == old(home.Keys) && SameShape(old(View()).s, View().s)
      ensures NoneStale(v, home, p, off + 1)
    {
      hide Inv, NewSpot, TablesOk, HasSpot, SameShape, NoneStale;
      SpotFacts(View().s, Spot(p, off));
      var rest := bkts[p].chains[off];
      ChainFacts(View(), Spot(p, off));
      ChainStale(v, home, p, off, rest);
      ShapeTrans(View().s, View().s, View().s);
      while rest != []
        invariant Valid() && home.Keys == old(home.Keys) && NoRepeat(rest) && SameShape(old(View()).s, View().s)
        invariant forall e :: e in rest ==> e in home && home[e] == Spot(p, off)
        invariant StaleLeft(v, home, p, off, rest)
      {
        var e := rest[0];
        ghost var was := home;
        ghost var s := View().s;
        RestFacts(rest);
        var to := BdGet(e.key);
        TableFacts(View());
        SamePlace(v, View(), e.key);
        BdMove(Spot(p, off), to, e);
        ShapeTrans(old(View()).s, s, View().s);
        MovedStale(v, was, p, off, rest);
        rest := rest[1..];
      }
      NothingLeft(v, home, p, off);
    }

    /** The worker handles one bucket: afterwards all its entries are at their new places. */
    method WorkerBucket()
      requires Valid() && rehashBuckets != [] && cursor < |buckets|
      modifies `bkts, `home, `cursor
      ensures Valid() && Contents() == old(Contents()) && cursor == old(cursor) + 1
    {
      hide Inv, NewSpot, TablesOk, HasSpot, SameShape, NoneStale, Pow2;
      var p := buckets[cursor];
      ghost var v := View();
      TableFacts(v);
      BucketShape(v, cursor);
      ShapeTrans(v.s, v.s, v.s);
      NoneStaleYet(v, home, p);
      var off := 0;
      while off < Pow2(bktBits)
        invariant 0 <= off <= Pow2(bktBits) && Valid() && home.Keys == v.s.home.Keys
        invariant View() == v.(s := View().s) && SameShape(v.s, View().s) && NoneStale(v, home, p, off)
      {
        ShapeSpot(v.s, View().s, p, off);
        ghost var s := View().s;
        RehashChain(p, off, v);
        ShapeTrans(v.s, s, View().s);
        off := off + 1;
      }
      BucketSettled(v, View(), cursor);
      cursor := cursor + 1;
    }

    /** The switch to the new table: every entry is at its new place, and the buckets that are freed are empty. */
    method WorkerFinish()
      requires Valid() && rehashBuckets != [] && cursor == |buckets|
      modifies `bkts, `buckets, `rehashBuckets, `curBits, `rehashBits, `cursor
      ensures Valid() && home == old(home) && buckets == old(rehashBuckets) && curBits == old(rehashBits)
      ensures rehashBuckets == [] && rehashBits == 0 && cursor == 0
      ensures TablesOk(View()) && forall e :: e in home ==> home[e] == OldSpot(View(), e.key)
    {
      hide Inv, Sound, NewSpot, OldSpot, TablesOk, TableOk, Unused, Range, Pow2, SpotOf;
      ghost var v := View();
      var table := buckets;
      FreedAreUnused(v);
      buckets := rehashBuckets;
      rehashBuckets := [];
      curBits := rehashBits;
      rehashBits, cursor := 0, 0;
      BucketsFree(table, |buckets|, |table|);
      assert forall p :: p in bkts ==> p in v.s.bkts;
      RestIsNext(v, bkts);
      FinishInv(v, View().s);
      assert View() == State(View().s, v.next, Table([], 0, bktBits), false, 0, hash);
      SettledNow(View());
    }

    ghost function Rules(): Limits { Limits(bktBits, minBits, maxBits, minTheta, maxTheta, shrink) }

    ghost function Now(): Sight
      reads this
    {
      Sight(Contents(), Gear(curBits, rehashBits, rehashBuckets != [], cursor))
    }

    lemma GearFacts()
      requires Valid()
      ensures count == |Contents()| && |buckets| == Buckets(Rules(), curBits)
      ensures if rehashBuckets == [] then cursor == 0 else cursor <= |buckets| && rehashBits != 0
    {
      hide Inv;
      assert hashed == home.Keys && |home| == |home.Keys|;
      TableFacts(View());
      if rehashBuckets != [] {
        CursorInRange(View());
      }
    }

    // A request for a resize.
    method Request()
      requires Valid()
      modifies this
      ensures Valid() && Contents() == old(Contents()) && Geared(Rules(), Resize, old(Now()), Now())
    {
      hide Valid, TooFull, TooEmpty, Wanted;
      GearFacts();
      RequestRehash();
    }

    // The worker's task is taken up, when there is one.
    method BeginResize()
      requires Valid()
      modifies this
      ensures Valid() && Contents() == old(Contents()) && Geared(Rules(), Begin, old(Now()), Now())
    {
      hide Valid, TooFull, TooEmpty, Wanted;
      GearFacts();
      if rehashBits != 0 && rehashBuckets == [] {
        WorkerStart();
      }
    }

    // One more bucket, or the end.
    method GoOn()
      requires Valid()
      modifies this
      ensures Valid() && Contents() == old(Contents()) && Geared(Rules(), Migrate, old(Now()), Now())
    {
      hide Valid, TooFull, TooEmpty, Wanted, TablesOk, OldSpot, Buckets;
      GearFacts();
      if rehashBuckets != [] && cursor < |buckets| {
        WorkerBucket();
      } else if rehashBuckets != [] {
        WorkerFinish();
      }
    }

    // A step of the worker, or a request for it, when its conditions hold.
    method Work(step: Step)
      requires Valid() && (step.Resize? || step.Begin? || step.Migrate?)
      modifies this
      ensures Valid() && Contents() == old(Contents()) && Geared(Rules(), step, old(Now()), Now())
    {
      hide Valid, Geared;
      match step
      case Resize => Request();
      case Begin => BeginResize();
      case Migrate => GoOn();
    }

    lemma HashedIsHere()
      requires Valid()
      ensures hashed == Contents()
    {
    }

    /** One step of a run: an operation of a client, or of the worker, when its conditions hold. */
    method Take(step: Step) returns (out: Option<Entry>)
      requires Valid()
      modifies this
      ensures Valid() && Follows(step, old(Contents()), Contents(), out) && Geared(Rules(), step, old(Now()), Now())
    {
      hide Inv, TablesOk, TableOk, SpotOf, NewSpot, OldSpot, HasSpot, Sound, Pow2, Theta, Valid;
      HashedIsHere();
      out := None;
      match step
      case Find(key) =>
        out := Lookup(key);
      case Insert(e) =>
        if e !in hashed {
          Add(e);
        }
      case Claim(e) =>
        if e !in hashed {
          var found := FindOrAdd(e);
          out := Some(found);
        }
      case Erase(key) =>
        out := Del(key, None);
      case Unlink(e) =>
        out := Del(e.key, Some(e));
      case _ =>
        Work(step);
    }

    /** Whatever the order of client operations and worker steps, the table behaves as a plain multimap: the trace of
      * its contents and of what its operations hand back is one that a multimap could have, and no step of the worker
      * shows in it.  The worker's own trace is that of resizes that are begun, or dropped, and go on bucket by bucket.
      */
    method Run(steps: seq<Step>) returns (outs: seq<Option<Entry>>, ghost trace: seq<Sight>)
      requires Valid()
      modifies this
      ensures Valid() && trace != [] && trace[0] == old(Now()) && trace[|trace| - 1] == Now()
      ensures Traced(Rules(), steps, outs, trace)
    {
      hide Valid, Follows, Geared;
      outs, trace := [], [Now()];
      for n := 0 to |steps|
        invariant Valid() && |trace| == n + 1 && trace[0] == old(Now()) && trace[n] == Now()
        invariant Traced(Rules(), steps[..n], outs, trace)
      {
        var out := Take(steps[n]);
        TracedOn(Rules(), steps[..n], outs, trace, steps[n], out, Now());
        assert steps[..n + 1] == steps[..n] + [steps[n]];
        outs, trace := outs + [out], trace + [Now()];
      }
      assert steps[..|steps|] == steps;
    }
  }

  // The order of cfs_hash_bd_compare.
  ghost predicate LockedBefore(s: Store, a: Spot, b: Spot) {
    && a.bkt in s.bkts && b.bkt in s.bkts
    && var i, j := s.bkts[a.bkt].index, s.bkts[b.bkt].index; i < j || (i == j && a.off < b.off)
  }

  lemma CursorInRange(v: State)
    requires Inv(v) && v.rehashing
    ensures v.done <= |v.cur.bkts|
  {
  }

  lemma PutHome(s: Store, e: Entry, at: Spot, tail: bool)
    requires HasSpot(s, at)
    ensures Put(s, e, at, tail).home == s.home[e := at] && Put(s, e, at, tail).bkts.Keys == s.bkts.Keys
  {
  }

  lemma RemoveHome(s: Store, e: Entry)
    requires e in s.home && HasSpot(s, s.home[e]) && s.bkts[s.home[e].bkt].count > 0
    ensures Remove(s, e).home == s.home - {e} && Remove(s, e).bkts.Keys == s.bkts.Keys
  {
  }

  lemma TableFacts(v: State)
    requires Inv(v)
    ensures TablesOk(v) && v.cur.bktBits <= v.cur.bits && |v.cur.bkts| == Pow2(v.cur.bits - v.cur.bktBits)
    ensures v.rehashing ==> v.next.bktBits <= v.next.bits && |v.next.bkts| == Pow2(v.next.bits - v.next.bktBits)
  {
  }

  lemma OldSpotIs(v: State, t: Table, k: Key)
    requires Inv(v) && t == v.cur
    ensures TablesOk(v) && t.bktBits <= t.bits && |t.bkts| == Pow2(t.bits - t.bktBits)
    ensures OldSpot(v, k) == SpotOf(t, v.hash(k))
  {
    hide SpotOf, Pow2;
    TableFacts(v);
  }

  // Additions go to the next table while there is one.
  lemma NewSpotIs(v: State, t: Table, k: Key)
    requires Inv(v) && t == if v.rehashing then v.next else v.cur
    ensures TablesOk(v) && t.bktBits <= t.bits && |t.bkts| == Pow2(t.bits - t.bktBits)
    ensures NewSpot(v, k) == SpotOf(t, v.hash(k))
  {
    hide SpotOf, Pow2;
    TableFacts(v);
  }

  lemma ShapeTrans(s: Store, t: Store, u: Store)
    ensures SameShape(s, s)
    ensures SameShape(s, t) && SameShape(t, u) ==> SameShape(s, u)
  {
  }

  lemma PlacesInStore(v: State, key: Key)
    requires Inv(v)
    ensures TablesOk(v) && HasSpot(v.s, OldSpot(v, key)) && HasSpot(v.s, NewSpot(v, key))
    ensures OldSpot(v, key).bkt in v.s.bkts && NewSpot(v, key).bkt in v.s.bkts
  {
    hide TablesOk, SpotOf;
    PlacesExist(v, key);
  }

  lemma MovePlaces(v: State, e: Entry)
    requires Inv(v) && TablesOk(v) && e in v.s.home
    ensures HasSpot(v.s, v.s.home[e]) && HasSpot(v.s, NewSpot(v, e.key))
    ensures v.s.home[e].bkt in v.s.bkts && NewSpot(v, e.key).bkt in v.s.bkts && v.s.bkts[v.s.home[e].bkt].count > 0
  {
    hide SpotOf, TablesOk, TableOk;
    PlacesExist(v, e.key);
    Present(v.s, e);
  }

  // Bucket objects with the same index are the same object.
  lemma SameIndex(v: State, p: Ptr, q: Ptr)
    requires Inv(v) && p in v.s.bkts && q in v.s.bkts && v.s.bkts[p].index == v.s.bkts[q].index
    ensures p == q
  {
  }

  lemma SamePlace(v: State, w: State, key: Key)
    requires TablesOk(v) && TablesOk(w) && w == v.(s := w.s)
    ensures NewSpot(w, key) == NewSpot(v, key)
  {
  }

  ghost predicate NoMatch(s: Store, at: Spot, key: Key, match': Option<Entry>) {
    HasSpot(s, at) && forall x :: x in Chain(s, at) ==> !Matches(x, key, match')
  }

  lemma OnChain(v: State, at: Spot, e: Entry)
    requires Inv(v) && HasSpot(v.s, at) && e in Chain(v.s, at)
    ensures e in v.s.home && v.s.home[e] == at
  {
  }

  lemma NotAnywhere(v: State, bds: seq<Spot>, key: Key, match': Option<Entry>)
    requires Inv(v) && TablesOk(v) && NewSpot(v, key) in bds && OldSpot(v, key) in bds
    requires forall j :: 0 <= j < |bds| ==> NoMatch(v.s, bds[j], key, match')
    ensures forall x :: x in v.s.home ==> !Matches(x, key, match')
  {
    hide TablesOk, TableOk, SpotOf, OldSpot, NewSpot;
    forall x | x in v.s.home && x.key == key ensures !Matches(x, key, match') {
      Present(v.s, x);
      assert v.s.home[x] in bds;
    }
  }

  lemma OnlyPlace(v: State, bds: seq<Spot>, e: Entry)
    requires Inv(v) && TablesOk(v) && e in v.s.home && |bds| == 1
    requires NewSpot(v, e.key) in bds && OldSpot(v, e.key) in bds
    ensures v.s.home[e] == bds[0]
  {
    hide TablesOk, TableOk, SpotOf, OldSpot, NewSpot;
  }

  lemma RequestInv(v: State, bits: nat)
    requires Inv(v) && !v.rehashing
    ensures Inv(v.(next := v.next.(bits := bits)))
  {
    hide TableOk, SpotOf, Sound;
  }

  lemma SharedPrefix(v: State, shared: seq<Ptr>)
    requires Inv(v) && !v.rehashing && shared <= v.cur.bkts
    ensures Growing(v, v.s, shared) && Sound(v.s)
  {
    hide Sound;
  }

  lemma GrowByOne(v: State, s: Store, shared: seq<Ptr>, p: Ptr)
    requires Inv(v) && !v.rehashing && Sound(s) && Growing(v, s, shared) && p !in s.bkts && |v.cur.bkts| <= |shared|
    ensures var s' := s.(bkts := s.bkts[p := EmptyBucket(|shared|, Pow2(v.cur.bktBits))]);
      Sound(s') && Growing(v, s', shared + [p])
  {
    hide Sound;
    forall q | q in s.bkts ensures s.bkts[q].index != |shared| {
    }
    AllocSound(s, p, |shared|, Pow2(v.cur.bktBits));
  }

  // No entry sits in the bucket object.
  ghost predicate Unused(s: Store, p: Ptr) {
    p in s.bkts && forall e :: e in s.home ==> s.home[e].bkt != p
  }

  ghost function Range(table: seq<Ptr>, from: nat, to: nat): set<Ptr>
    requires to <= |table|
  {
    set i | from <= i < to && i < |table| :: table[i]
  }

  lemma EmptyRange(table: seq<Ptr>, from: nat, size: nat)
    requires size <= |table|
    ensures Range(table, from, if from <= size then from else size) == {}
  {
  }

  lemma RangeStep(table: seq<Ptr>, from: nat, i: nat)
    requires from <= i < |table|
    ensures Range(table, from, i + 1) == Range(table, from, i) + {table[i]}
  {
  }

  lemma FreeOne(s: Store, table: seq<Ptr>, i: nat, size: nat)
    requires Sound(s) && i < size <= |table| && (forall j :: i <= j < size ==> Unused(s, table[j]))
    requires forall j :: i < j < size ==> table[j] != table[i]
    ensures Sound(s.(bkts := s.bkts - {table[i]}))
    ensures forall j :: i < j < size ==> Unused(s.(bkts := s.bkts - {table[i]}), table[j])
  {
    hide Sound;
    assert Unused(s, table[i]);
    FreeSound(s, table[i]);
  }

  lemma NewAreUnused(v: State, s: Store, newBkts: seq<Ptr>)
    requires Inv(v) && !v.rehashing && Growing(v, s, newBkts)
    ensures forall i :: |v.cur.bkts| <= i < |newBkts| ==> Unused(s, newBkts[i])
    ensures forall i, j :: |v.cur.bkts| <= i < j < |newBkts| ==> newBkts[i] != newBkts[j]
  {
    hide TableOk, SpotOf;
    forall i | |v.cur.bkts| <= i < |newBkts| ensures Unused(s, newBkts[i]) {
      NewIsNotOld(v, s, newBkts, i);
      forall e | e in s.home ensures s.home[e].bkt != newBkts[i] {
        Present(v.s, e);
      }
    }
  }

  lemma NewIsNotOld(v: State, s: Store, newBkts: seq<Ptr>, i: nat)
    requires Inv(v) && !v.rehashing && Growing(v, s, newBkts) && |v.cur.bkts| <= i < |newBkts|
    ensures newBkts[i] in s.bkts && newBkts[i] !in v.s.bkts
  {
    hide Sound, SpotOf;
    forall p | p in v.s.bkts ensures p != newBkts[i] {
      var j :| 0 <= j < |v.cur.bkts| && v.cur.bkts[j] == p;
      assert s.bkts[p].index == j;
    }
  }

  lemma Abandoned(v: State, s: Store, bkts: map<Ptr, Bucket>, newBkts: seq<Ptr>)
    requires Inv(v) && !v.rehashing && Growing(v, s, newBkts)
    requires bkts == s.bkts - Range(newBkts, |v.cur.bkts|, |newBkts|)
    ensures bkts == v.s.bkts
  {
    hide Sound, SpotOf, TableOk, Located, Settled;
    forall p | p in s.bkts ensures p in v.s.bkts <==> p !in Range(newBkts, |v.cur.bkts|, |newBkts|) {
      if p in newBkts {
        var i :| 0 <= i < |newBkts| && newBkts[i] == p;
        if i >= |v.cur.bkts| {
          NewIsNotOld(v, s, newBkts, i);
        } else {
          assert v.cur.bkts[i] in v.s.bkts;
        }
      }
      if p in Range(newBkts, |v.cur.bkts|, |newBkts|) {
        var i :| |v.cur.bkts| <= i < |newBkts| && newBkts[i] == p;
        NewIsNotOld(v, s, newBkts, i);
      }
    }
  }

  lemma ChainFacts(v: State, at: Spot)
    requires Inv(v) && HasSpot(v.s, at)
    ensures NoRepeat(Chain(v.s, at)) && forall e :: e in Chain(v.s, at) <==> e in v.s.home && v.s.home[e] == at
  {
    forall e | e in v.s.home && v.s.home[e] == at ensures e in Chain(v.s, at) {
      Present(v.s, e);
    }
  }

  // The entries of bucket object p that are not at their new place are on its chains from off on.
  ghost predicate NoneStale(v: State, home: map<Entry, Spot>, p: Ptr, off: nat)
    requires TablesOk(v)
  {
    forall e :: e in home && home[e].bkt == p && home[e] != NewSpot(v, e.key) ==> home[e].off >= off
  }

  // Of the chain at off only the entries of `rest` may be stale.
  ghost predicate StaleLeft(v: State, home: map<Entry, Spot>, p: Ptr, off: nat, rest: seq<Entry>)
    requires TablesOk(v)
  {
    forall e :: e in home && home[e].bkt == p && home[e] != NewSpot(v, e.key) ==> home[e].off > off || e in rest
  }

  lemma SpotFacts(s: Store, at: Spot)
    requires HasSpot(s, at)
    ensures at.bkt in s.bkts && at.off < |s.bkts[at.bkt].chains|
  {
  }

  lemma RestFacts(rest: seq<Entry>)
    requires rest != [] && NoRepeat(rest)
    ensures rest[0] in rest && rest[0] !in rest[1..] && NoRepeat(rest[1..])
    ensures forall x :: x in rest <==> x == rest[0] || x in rest[1..]
  {
  }

  lemma ChainStale(v: State, home: map<Entry, Spot>, p: Ptr, off: nat, rest: seq<Entry>)
    requires TablesOk(v) && NoneStale(v, home, p, off)
    requires forall e :: e in home && home[e] == Spot(p, off) ==> e in rest
    ensures StaleLeft(v, home, p, off, rest)
  {
    hide NewSpot, TablesOk;
    assert forall at: Spot :: at.bkt == p && at.off == off ==> at == Spot(p, off);
  }

  lemma MovedStale(v: State, home: map<Entry, Spot>, p: Ptr, off: nat, rest: seq<Entry>)
    requires TablesOk(v) && rest != [] && rest[0] in home && StaleLeft(v, home, p, off, rest)
    requires forall x :: x in rest <==> x == rest[0] || x in rest[1..]
    ensures StaleLeft(v, home[rest[0] := NewSpot(v, rest[0].key)], p, off, rest[1..])
  {
    hide NewSpot, TablesOk;
  }

  lemma NothingLeft(v: State, home: map<Entry, Spot>, p: Ptr, off: nat)
    requires TablesOk(v) && StaleLeft(v, home, p, off, [])
    ensures NoneStale(v, home, p, off + 1)
  {
    hide NewSpot, TablesOk;
  }

  lemma BucketShape(v: State, i: nat)
    requires Inv(v) && i < |v.cur.bkts|
    ensures v.cur.bkts[i] in v.s.bkts && |v.s.bkts[v.cur.bkts[i]].chains| == Pow2(v.cur.bktBits)
  {
  }

  lemma ShapeSpot(s: Store, t: Store, p: Ptr, off: nat)
    requires SameShape(s, t) && p in s.bkts && off < |s.bkts[p].chains|
    ensures HasSpot(t, Spot(p, off))
  {
  }

  lemma NoneStaleYet(v: State, home: map<Entry, Spot>, p: Ptr)
    requires TablesOk(v)
    ensures NoneStale(v, home, p, 0)
  {
  }

  // With no stale entry on any of its chains, the bucket is done.
  lemma BucketSettled(v: State, w: State, i: nat)
    requires Inv(v) && Inv(w) && w == v.(s := w.s) && v.rehashing && i == v.done < |v.cur.bkts| && TablesOk(v)
    requires SameShape(v.s, w.s) && NoneStale(v, w.s.home, v.cur.bkts[i], Pow2(v.cur.bktBits))
    ensures Inv(w.(done := w.done + 1))
  {
    hide SpotOf, Sound, Pow2;
    var p := v.cur.bkts[i];
    BucketShape(v, i);
    forall e | e in w.s.home && w.s.home[e].bkt == p ensures w.s.home[e] == NewSpot(w, e.key) {
      Present(w.s, e);
      SamePlace(v, w, e.key);
    }
    BucketDone(w);
  }

  lemma NextIsShared(v: State, i: nat)
    requires Inv(v) && v.rehashing && i < |v.cur.bkts|
    ensures v.cur.bkts[i] in v.next.bkts <==> i < |v.next.bkts|
    ensures forall j :: i < j < |v.cur.bkts| ==> v.cur.bkts[i] != v.cur.bkts[j]
  {
    hide SpotOf, Located, Settled, Pow2;
    var p := v.cur.bkts[i];
    assert v.s.bkts[p].index == i;
    if i < |v.next.bkts| {
      assert v.s.bkts[v.next.bkts[i]].index == i;
    }
  }

  lemma FreedAreUnused(v: State)
    requires Inv(v) && v.rehashing && v.done == |v.cur.bkts|
    ensures forall i :: |v.next.bkts| <= i < |v.cur.bkts| ==> Unused(v.s, v.cur.bkts[i])
    ensures forall i, j :: |v.next.bkts| <= i < j < |v.cur.bkts| ==> v.cur.bkts[i] != v.cur.bkts[j]
    ensures Sound(v.s)
  {
    forall i | |v.next.bkts| <= i < |v.cur.bkts|
      ensures Unused(v.s, v.cur.bkts[i]) && forall j :: i < j < |v.cur.bkts| ==> v.cur.bkts[i] != v.cur.bkts[j]
    {
      hide SpotOf, Located, Settled, Pow2, Sound;
      NextIsShared(v, i);
      FreedAreEmpty(v, v.cur.bkts[i]);
      BucketShape(v, i);
    }
  }

  lemma RestIsNext(v: State, bkts: map<Ptr, Bucket>)
    requires Inv(v) && v.rehashing
    requires bkts == v.s.bkts - Range(v.cur.bkts, |v.next.bkts|, |v.cur.bkts|)
    ensures bkts == (map p | p in v.s.bkts && p in v.next.bkts :: v.s.bkts[p])
  {
    hide SpotOf, Located, Settled, Pow2, Sound, TableOk;
    forall p | p in v.s.bkts ensures p in v.next.bkts <==> p !in Range(v.cur.bkts, |v.next.bkts|, |v.cur.bkts|) {
      if p in v.cur.bkts {
        var i :| 0 <= i < |v.cur.bkts| && v.cur.bkts[i] == p;
        NextIsShared(v, i);
      }
      if p in Range(v.cur.bkts, |v.next.bkts|, |v.cur.bkts|) {
        var i :| |v.next.bkts| <= i < |v.cur.bkts| && v.cur.bkts[i] == p;
        NextIsShared(v, i);
      }
    }
  }

  lemma SettledNow(v: State)
    requires Inv(v) && !v.rehashing
    ensures TablesOk(v) && forall e :: e in v.s.home ==> v.s.home[e] == OldSpot(v, e.key)
  {
    hide SpotOf, Sound, TableOk;
  }
}
