/** The geometry of a hash table that may be in the middle of a resize: which chain a key belongs to. */
module HashGeometry {
  import opened Lists
  import opened HashStore
  import opened Powers

  // A bucket table of 2^(bits - bktBits) buckets with 2^bktBits chains each.
  datatype Table = Table(bkts: seq<Ptr>, bits: nat, bktBits: nat)

  ghost predicate TableOk(s: Store, t: Table) {
    && t.bktBits <= t.bits && |t.bkts| == Pow2(t.bits - t.bktBits)
    && forall i {:trigger t.bkts[i]} :: 0 <= i < |t.bkts| ==>
      t.bkts[i] in s.bkts && |s.bkts[t.bkts[i]].chains| == Pow2(t.bktBits) && s.bkts[t.bkts[i]].index == i
  }

  // cfs_hash_bd_from_key: masks are remainders and shifts are quotients of powers of two.
  function SpotOf(t: Table, hash: nat): Spot
    requires t.bktBits <= t.bits && |t.bkts| == Pow2(t.bits - t.bktBits)
  {
    var index := LowBits(hash, t.bits);
    Spot(t.bkts[LowBits(index, t.bits - t.bktBits)], ShiftRight(index, t.bits - t.bktBits))
  }

  lemma SpotExists(s: Store, t: Table, hash: nat)
    requires TableOk(s, t)
    ensures HasSpot(s, SpotOf(t, hash)) && SpotOf(t, hash).bkt in t.bkts
  {
    ShiftBelow(LowBits(hash, t.bits), t.bits, t.bits - t.bktBits);
  }

  /** The low bits of a hash name the bucket, the next ones the chain in it. */
  lemma SpotMeans(s: Store, t: Table, hash: nat)
    requires TableOk(s, t)
    ensures var at, k := SpotOf(t, hash), t.bits - t.bktBits;
      at.bkt in s.bkts && s.bkts[at.bkt].index == hash % Pow2(k) && at.off == (hash % Pow2(t.bits)) / Pow2(k)
  {
    hide ShiftRight, Pow2;
    LowOfLow(hash, t.bits, t.bits - t.bktBits);
    ShiftDivides(LowBits(hash, t.bits), t.bits - t.bktBits);
  }

  /** Two hashes belong to the same chain if and only if they agree in as many bits as the table has. */
  lemma SameChain(s: Store, t: Table, h1: nat, h2: nat)
    requires TableOk(s, t)
    ensures SpotOf(t, h1) == SpotOf(t, h2) <==> h1 % Pow2(t.bits) == h2 % Pow2(t.bits)
  {
    hide ShiftRight, Pow2;
    var k := t.bits - t.bktBits;
    SpotMeans(s, t, h1);
    SpotMeans(s, t, h2);
    LowOfLow(h1, t.bits, k);
    LowOfLow(h2, t.bits, k);
    if SpotOf(t, h1) == SpotOf(t, h2) {
      SameNumber(h1 % Pow2(t.bits), h2 % Pow2(t.bits), Pow2(k));
    } else {
      hide TableOk;
    }
  }

  lemma SameNumber(x: nat, y: nat, m: nat)
    requires m > 0 && x / m == y / m && x % m == y % m
    ensures x == y
  {
    assert x == x / m * m + x % m;
    assert y == y / m * m + y % m;
  }

  // When a table grows by one bit, an entry stays in its bucket or moves to the one as far on as the table was long.
  lemma GrownSpot(s: Store, t: Table, s': Store, t': Table, hash: nat)
    requires TableOk(s, t) && TableOk(s', t') && t'.bktBits == t.bktBits && t'.bits == t.bits + 1
    ensures SpotOf(t, hash).bkt in s.bkts && SpotOf(t', hash).bkt in s'.bkts
    ensures var i, j := s.bkts[SpotOf(t, hash).bkt].index, s'.bkts[SpotOf(t', hash).bkt].index;
      j == i || j == i + |t.bkts|
  {
    hide ShiftRight;
    var m := Pow2(t.bits - t.bktBits);
    SpotMeans(s, t, hash);
    SpotMeans(s', t', hash);
    assert Pow2(t'.bits - t'.bktBits) == 2 * m;
    hide Pow2;
    RemainderOf(hash, m, 2);
    HalfOf(hash % (2 * m), m);
  }

  lemma HalfOf(x: nat, m: nat)
    requires m > 0 && x < 2 * m
    ensures x == x % m || x == x % m + m
  {
    if x < m {
      RemainderOnce(x, 0, x, m);
    } else {
      RemainderOnce(x, 1, x - m, m);
    }
  }

  // ---------- A table that may be in the middle of a resize ----------

  // While rehashing, the first `done` buckets of the current table have been emptied into the next one.
  datatype State = State(s: Store, cur: Table, next: Table, rehashing: bool, done: nat, hash: Key -> nat)

  ghost predicate TablesOk(v: State) {
    && TableOk(v.s, v.cur) && (v.rehashing ==> TableOk(v.s, v.next) && v.done <= |v.cur.bkts|)
    && v.s.bkts.Keys == (set p | p in v.cur.bkts) + (if v.rehashing then set p | p in v.next.bkts else {})
  }

  ghost function OldSpot(v: State, k: Key): Spot
    requires TablesOk(v)
  {
    SpotOf(v.cur, v.hash(k))
  }

  // Where an addition goes: the next table while rehashing.
  ghost function NewSpot(v: State, k: Key): Spot
    requires TablesOk(v)
  {
    if v.rehashing then SpotOf(v.next, v.hash(k)) else SpotOf(v.cur, v.hash(k))
  }

  /** Every entry sits at the old or at the new place of its key. */
  ghost predicate Located(v: State)
    requires TablesOk(v)
  {
    forall e :: e in v.s.home ==> v.s.home[e] == OldSpot(v, e.key) || v.s.home[e] == NewSpot(v, e.key)
  }

  // An entry of a bucket that is done is at its new place.
  ghost predicate Settled(v: State)
    requires TablesOk(v)
  {
    v.rehashing ==> forall e, i :: e in v.s.home && 0 <= i < v.done && v.s.home[e].bkt == v.cur.bkts[i] ==>
      v.s.home[e] == NewSpot(v, e.key)
  }

  ghost predicate Inv(v: State) { Sound(v.s) && TablesOk(v) && Located(v) && Settled(v) }

  // The two places of a key, as dual_bd_get finds them.
  lemma PlacesExist(v: State, k: Key)
    requires TablesOk(v)
    ensures HasSpot(v.s, OldSpot(v, k)) && HasSpot(v.s, NewSpot(v, k))
  {
    SpotExists(v.s, v.cur, v.hash(k));
    if v.rehashing {
      SpotExists(v.s, v.next, v.hash(k));
    }
  }

  // The store changed, the bucket objects kept their shape.
  ghost predicate SameShape(s: Store, s': Store) {
    && s'.bkts.Keys == s.bkts.Keys
    && forall p :: p in s.bkts && p in s'.bkts ==>
      s'.bkts[p].index == s.bkts[p].index && |s'.bkts[p].chains| == |s.bkts[p].chains|
  }

  lemma SameShapeTables(v: State, s': Store)
    requires TablesOk(v) && SameShape(v.s, s')
    ensures TablesOk(v.(s := s'))
  {
  }

  lemma PutShape(s: Store, e: Entry, at: Spot, tail: bool)
    requires HasSpot(s, at)
    ensures SameShape(s, Put(s, e, at, tail))
  {
  }

  lemma RemoveShape(s: Store, e: Entry)
    requires e in s.home && HasSpot(s, s.home[e]) && s.bkts[s.home[e].bkt].count > 0
    ensures SameShape(s, Remove(s, e))
  {
  }

  lemma AddInv(v: State, e: Entry, tail: bool)
    requires Inv(v) && e !in v.s.home
    ensures TablesOk(v) && HasSpot(v.s, NewSpot(v, e.key)) && Inv(v.(s := Put(v.s, e, NewSpot(v, e.key), tail)))
  {
    hide Sound, SpotOf, TableOk, TablesOk, HasSpot, SameShape;
    PlacesExist(v, e.key);
    var s' := Put(v.s, e, NewSpot(v, e.key), tail);
    PutSound(v.s, e, NewSpot(v, e.key), tail);
    PutShape(v.s, e, NewSpot(v, e.key), tail);
    SameShapeTables(v, s');
    hide Put;
  }

  lemma RemoveInv(v: State, e: Entry)
    requires Inv(v) && e in v.s.home
    ensures HasSpot(v.s, v.s.home[e]) && v.s.bkts[v.s.home[e].bkt].count > 0 && Inv(v.(s := Remove(v.s, e)))
  {
    hide Sound, SpotOf, TableOk, TablesOk, HasSpot, SameShape;
    Present(v.s, e);
    RemoveSound(v.s, e);
    RemoveShape(v.s, e);
    SameShapeTables(v, Remove(v.s, e));
  }

  lemma SamePlaces(v: State, done: nat)
    requires TablesOk(v) && (v.rehashing ==> done <= |v.cur.bkts|)
    ensures TablesOk(v.(done := done))
    ensures forall k :: NewSpot(v.(done := done), k) == NewSpot(v, k) && OldSpot(v.(done := done), k) == OldSpot(v, k)
  {
    hide SpotOf, TableOk;
  }

  // When every entry of the next bucket is at its new place, that bucket is done.
  lemma BucketDone(v: State)
    requires Inv(v) && v.rehashing && v.done < |v.cur.bkts| && TablesOk(v)
    requires forall e :: e in v.s.home && v.s.home[e].bkt == v.cur.bkts[v.done] ==> v.s.home[e] == NewSpot(v, e.key)
    ensures Inv(v.(done := v.done + 1))
  {
    hide Sound, SpotOf, TableOk, TablesOk, NewSpot, OldSpot, HasSpot;
    SamePlaces(v, v.done + 1);
  }

  // Once all buckets are done, every entry is at its new place.
  lemma AllSettled(v: State)
    requires Inv(v) && v.rehashing && v.done == |v.cur.bkts| && TablesOk(v)
    ensures forall e :: e in v.s.home ==> v.s.home[e] == NewSpot(v, e.key)
  {
    hide Sound, SpotOf, TableOk, NewSpot;
    forall e | e in v.s.home ensures v.s.home[e] == NewSpot(v, e.key) {
      if v.s.home[e] == OldSpot(v, e.key) {
        SpotExists(v.s, v.cur, v.hash(e.key));
        var i :| 0 <= i < |v.cur.bkts| && v.cur.bkts[i] == v.s.home[e].bkt;
      }
    }
  }

  // ---------- Bucket objects come and go ----------

  function EmptyBucket(index: nat, chains: nat): Bucket { Bucket(index, 0, seq(chains, i => [])) }

  lemma AllocSound(s: Store, p: Ptr, index: nat, chains: nat)
    requires Sound(s) && p !in s.bkts && forall q :: q in s.bkts ==> s.bkts[q].index != index
    ensures Sound(s.(bkts := s.bkts[p := EmptyBucket(index, chains)]))
  {
    hide Homed, Chained, Counted;
    AllocLinked(s, p, index, chains);
    AllocCounted(s, p, index, chains);
  }

  lemma AllocLinked(s: Store, p: Ptr, index: nat, chains: nat)
    requires Homed(s) && Chained(s) && p !in s.bkts
    ensures var s' := s.(bkts := s.bkts[p := EmptyBucket(index, chains)]); Homed(s') && Chained(s')
  {
    var s' := s.(bkts := s.bkts[p := EmptyBucket(index, chains)]);
    forall at | HasSpot(s', at)
      ensures NoRepeat(Chain(s', at)) && forall e :: e in Chain(s', at) ==> e in s'.home && s'.home[e] == at
    {
      assert at.bkt != p ==> HasSpot(s, at) && Chain(s', at) == Chain(s, at);
    }
  }

  lemma AllocCounted(s: Store, p: Ptr, index: nat, chains: nat)
    requires Homed(s) && Counted(s) && p !in s.bkts
    ensures Counted(s.(bkts := s.bkts[p := EmptyBucket(index, chains)]))
  {
    var s' := s.(bkts := s.bkts[p := EmptyBucket(index, chains)]);
    forall q | q in s'.bkts ensures s'.bkts[q].count == |Inside(s', q)| {
      assert Inside(s', q) == Inside(s, q);
      assert q == p ==> Inside(s', q) == {};
    }
  }

  lemma FreeSound(s: Store, p: Ptr)
    requires Sound(s) && p in s.bkts && forall e :: e in s.home ==> s.home[e].bkt != p
    ensures Sound(s.(bkts := s.bkts - {p}))
  {
    hide Homed, Chained, Counted;
    FreeLinked(s, p);
    FreeCounted(s, p);
  }

  lemma FreeLinked(s: Store, p: Ptr)
    requires Homed(s) && Chained(s) && p in s.bkts && forall e :: e in s.home ==> s.home[e].bkt != p
    ensures Homed(s.(bkts := s.bkts - {p})) && Chained(s.(bkts := s.bkts - {p}))
  {
    hide NoRepeat;
    var s' := s.(bkts := s.bkts - {p});
    forall at | HasSpot(s', at)
      ensures NoRepeat(Chain(s', at)) && forall e :: e in Chain(s', at) ==> e in s'.home && s'.home[e] == at
    {
      assert HasSpot(s, at) && Chain(s', at) == Chain(s, at);
    }
  }

  lemma FreeCounted(s: Store, p: Ptr)
    requires Counted(s) && p in s.bkts
    ensures Counted(s.(bkts := s.bkts - {p}))
  {
    var s' := s.(bkts := s.bkts - {p});
    forall q | q in s'.bkts ensures s'.bkts[q].count == |Inside(s', q)| {
      assert Inside(s', q) == Inside(s, q);
    }
  }

  // Of the table that is to replace cur, the first n buckets are there: shared with cur as far as cur goes.
  ghost predicate Growing(v: State, s: Store, bkts: seq<Ptr>) {
    && (forall i :: 0 <= i < |bkts| && i < |v.cur.bkts| ==> bkts[i] == v.cur.bkts[i])
    && (forall p :: p in v.s.bkts ==> p in s.bkts && s.bkts[p] == v.s.bkts[p])
    && (forall i :: 0 <= i < |bkts| ==>
      bkts[i] in s.bkts && s.bkts[bkts[i]].index == i && |s.bkts[bkts[i]].chains| == Pow2(v.cur.bktBits))
    && s.bkts.Keys == (set p | p in v.cur.bkts) + (set p | p in bkts) && s.home == v.s.home
  }

  lemma StartInv(v: State, s: Store, next: Table)
    requires Inv(v) && !v.rehashing && Sound(s) && Growing(v, s, next.bkts)
    requires next.bktBits == v.cur.bktBits <= next.bits && |next.bkts| == Pow2(next.bits - next.bktBits)
    ensures Inv(State(s, v.cur, next, true, 0, v.hash))
  {
    hide Sound, SpotOf;
    var v' := State(s, v.cur, next, true, 0, v.hash);
    assert TableOk(s, v.cur);
    assert TablesOk(v');
    hide TablesOk, TableOk, Growing;
  }

  // No entry is left in a bucket that the next table does not have.
  lemma FreedAreEmpty(v: State, p: Ptr)
    requires Inv(v) && v.rehashing && v.done == |v.cur.bkts| && p !in v.next.bkts
    ensures forall e :: e in v.s.home ==> v.s.home[e].bkt != p
  {
    hide Sound, SpotOf, TableOk;
    AllSettled(v);
    forall e | e in v.s.home ensures v.s.home[e].bkt in v.next.bkts {
      SpotExists(v.s, v.next, v.hash(e.key));
    }
  }

  /** The switch: the next table takes over with every entry in place, without the buckets that it does not use. */
  lemma FinishInv(v: State, s: Store)
    requires Inv(v) && v.rehashing && v.done == |v.cur.bkts| && Sound(s) && s.home == v.s.home
    requires s.bkts == (map p | p in v.s.bkts && p in v.next.bkts :: v.s.bkts[p])
    ensures Inv(State(s, v.next, Table([], 0, v.cur.bktBits), false, 0, v.hash))
  {
    hide Sound, SpotOf;
    AllSettled(v);
    var v' := State(s, v.next, Table([], 0, v.cur.bktBits), false, 0, v.hash);
    assert TableOk(v.s, v.next);
    assert TableOk(s, v.next);
    assert TablesOk(v');
    hide TableOk;
    forall e | e in s.home ensures s.home[e] == NewSpot(v', e.key) {
      assert NewSpot(v, e.key) == NewSpot(v', e.key);
    }
  }
}
