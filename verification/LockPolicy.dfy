/** How far a requested extent may grow: up to granted locks, and keeping off waiting ones. */
module LockPolicy {
  import opened Words
  import opened Shapes
  import opened IntervalTrees
  import opened LockModes
  import opened Alignment
  import opened LockBook
  import opened LockTrees

  // ---------- The policies ----------

  // No node of the first n trees is in the way of a lock of this mode on extent e.
  ghost predicate FreeBelow(items: seq<set<Item>>, mode: Mode, e: Extent, n: nat) {
    n <= |items| <= LCK_MODE_NUM
    && forall i, it :: 0 <= i < n && it in items[i] && Overlap(it.ext, e) ==> Compat(TreeMode(i), mode)
  }

  // An incompatible granted lock starts there.
  ghost predicate ConflictStartsAt(items: seq<set<Item>>, mode: Mode, start: int) {
    |items| <= LCK_MODE_NUM
    && exists i, it :: 0 <= i < |items| && it in items[i] && !Compat(TreeMode(i), mode) && it.ext.start == start
  }

  // No incompatible lock is granted in the first n trees.
  ghost predicate NoneBelow(items: seq<set<Item>>, mode: Mode, n: nat) {
    n <= |items| <= LCK_MODE_NUM && forall i :: 0 <= i < n && !Compat(TreeMode(i), mode) ==> items[i] == {}
  }

  lemma NoneStep(items: seq<set<Item>>, mode: Mode, n: nat)
    requires NoneBelow(items, mode, n) && n < |items| && (Compat(TreeMode(n), mode) || items[n] == {})
    ensures NoneBelow(items, mode, n + 1)
  {
  }

  // Trees without nodes are counted as such.
  lemma NoneHere(b: Book, mode: Mode, n: nat)
    requires Inv(b) && Sized(b) && n < LCK_MODE_NUM && !Compat(TreeMode(n), mode)
    ensures NoneBelow(b.items, mode, LCK_MODE_NUM) ==> b.items[n] == {} && b.sizes[n] == 0
  {
    if b.items[n] == {} {
      forall l ensures l !in Holders(b, n) {
        if l in Holders(b, n) {
          GrantedItem(b, l);
        }
      }
      assert Holders(b, n) == {};
    }
  }

  lemma GrantedItem(b: Book, l: Id)
    requires Inv(b) && l in b.granted && l in b.locks
    ensures Sized(b) && Item(b.locks[l].node, b.locks[l].ext) in b.items[Index(b.locks[l].mode)]
  {
  }

  lemma FreeIsBelow(b: Book, mode: Mode, e: Extent)
    requires Sized(b)
    ensures Free(b, mode, e) <==> FreeBelow(b.items, mode, e, LCK_MODE_NUM)
  {
  }

  lemma ProperRequest(req: Extent)
    requires PageAligned(req)
    ensures req.start <= req.end
  {
  }

  lemma StartLimiter(items: seq<set<Item>>, mode: Mode, wide: Extent)
    requires |items| <= LCK_MODE_NUM
    ensures FreeBelow(items, mode, wide, 0) && NoneBelow(items, mode, 0)
  {
  }

  lemma FreeHere(items: seq<set<Item>>, mode: Mode, e: Extent, n: nat)
    requires FreeBelow(items, mode, e, LCK_MODE_NUM) && n < |items| && !Compat(TreeMode(n), mode)
    ensures forall it :: it in items[n] ==> !Overlap(it.ext, e)
  {
  }

  lemma FreeWithin(items: seq<set<Item>>, mode: Mode, e: Extent, e': Extent, n: nat)
    requires FreeBelow(items, mode, e, n) && Within(e', e)
    ensures FreeBelow(items, mode, e', n)
  {
  }

  // One round of the granted policy: the limiter shrinks so that it stays clear of the tree of an incompatible mode.
  method LimitBy(tree: Tree, idx: nat, mode: Mode, req: Extent, limiter: Extent, ghost items: seq<set<Item>>)
    returns (limited: Extent)
    requires FreeBelow(items, mode, req, LCK_MODE_NUM) && FreeBelow(items, mode, limiter, idx) && idx < |items|
    requires Usable(tree, items[idx]) && !Compat(TreeMode(idx), mode) && req.start <= req.end && Within(req, limiter)
    ensures Within(req, limited) && Within(limited, limiter) && FreeBelow(items, mode, limited, idx + 1)
    ensures limited.end == limiter.end || ConflictStartsAt(items, mode, limited.end + 1)
    ensures limited.start == if items[idx] == {} then limiter.start else req.start
  {
    hide Usable, Compat, FreeBelow;
    FreeHere(items, mode, req, idx);
    var ext := Grow(tree, req, limiter, items[idx]);
    limited := Extent(Max(limiter.start, ext.start), Min(limiter.end, ext.end));
    FreeStep(items, mode, limiter, limited, idx);
    if limited.end != limiter.end {
      StartsInTree(items, mode, idx, limited.end + 1);
    }
  }

  lemma StartsInTree(items: seq<set<Item>>, mode: Mode, idx: nat, start: int)
    requires idx < |items| <= LCK_MODE_NUM && !Compat(TreeMode(idx), mode)
    requires exists it :: it in items[idx] && it.ext.start == start
    ensures ConflictStartsAt(items, mode, start)
  {
  }

  lemma FreeStep(items: seq<set<Item>>, mode: Mode, e: Extent, e': Extent, n: nat)
    requires FreeBelow(items, mode, e, n) && n < |items| && Within(e', e)
    requires Compat(TreeMode(n), mode) || (forall it :: it in items[n] ==> !Overlap(it.ext, e'))
    ensures FreeBelow(items, mode, e', n + 1)
  {
  }

  lemma FreeInside(b: Book, mode: Mode, e: Extent, e': Extent)
    requires Sized(b) && Free(b, mode, e) && Within(e', e)
    ensures Free(b, mode, e')
  {
  }

  // The extent e chosen for r stays off the waiting lock k, unless what the two asked for overlaps.
  ghost predicate KeepsOff(k: Lock, r: Lock, e: Extent) {
    (!Compat(k.mode, r.mode) || k.client == r.client) && Overlap(k.ext, e) ==> Overlap(k.req, r.req)
  }

  lemma KeepsOffWithin(k: Lock, r: Lock, e: Extent, e': Extent)
    requires KeepsOff(k, r, e) && Within(e', e)
    ensures KeepsOff(k, r, e')
  {
  }

  lemma NoConflict(k: Lock, r: Lock, e: Extent)
    requires Compat(k.mode, r.mode) && k.client != r.client
    ensures KeepsOff(k, r, e)
  {
  }

  lemma WaitingFacts(b: Book)
    requires Inv(b)
    ensures forall l :: l in b.waiting ==>
      && l in b.locks && Pending(b.locks[l])
      && b.locks[l].ext == b.locks[l].req && b.locks[l].req.start <= b.locks[l].req.end
  {
    forall l | l in b.waiting
      ensures l in b.locks && Pending(b.locks[l]) && b.locks[l].ext == b.locks[l].req
      ensures b.locks[l].req.start <= b.locks[l].req.end
    {
      PendingFacts(b, l);
    }
  }

  lemma AllKeepOff(b: Book, x: Id)
    requires Inv(b) && x in b.locks
    ensures forall l :: l in b.waiting && l in b.locks && l != x ==> KeepsOff(b.locks[l], b.locks[x], b.locks[x].req)
  {
    WaitingFacts(b);
  }

  // What one waiting lock k leaves of the extent e for request r.
  function KeptClear(k: Lock, r: Lock, e: Extent): Extent {
    if !Overlap(k.ext, e) || Overlap(k.req, r.req) then e
    else
      var start :=
        if k.ext.start < r.req.start && e.start != r.req.start then
          (if k.ext.end >= r.req.start then r.req.start else Min(k.ext.end + 1, r.req.start))
        else e.start;
      var end :=
        if k.ext.end > r.req.end then
          (if k.ext.start <= r.req.end then Max(Wrap(k.req.start - 1), r.req.end)
           else Max(Wrap(k.ext.start - 1), r.req.end))
        else e.end;
      Extent(start, end)
  }

  // While the waiting lock holds what it requested, it can only take away, and what is left stays off it.
  lemma KeptClearShrinks(k: Lock, r: Lock, e: Extent)
    requires Within(r.req, e) && r.req.start <= r.req.end && k.ext == k.req && k.req.start <= k.req.end
    ensures Within(r.req, KeptClear(k, r, e)) && Within(KeptClear(k, r, e), e) && KeepsOff(k, r, KeptClear(k, r, e))
  {
    if k.ext.start > r.req.end {
      WrapFacts(k.ext.start - 1);
    }
  }

  // The waiting lock k matters to the extent of r.
  ghost predicate Matters(k: Lock, r: Lock) { !Compat(k.mode, r.mode) || k.client == r.client }

  // How many of the first n waiting locks, x aside, matter to r.
  ghost function MatterCount(locks: map<Id, Lock>, waiting: seq<Id>, n: nat, x: Id, r: Lock): nat
    requires n <= |waiting| && forall l :: l in waiting ==> l in locks
  {
    if n == 0 then 0
    else
      MatterCount(locks, waiting, n - 1, x, r)
        + if waiting[n - 1] != x && Matters(locks[waiting[n - 1]], r) then 1 else 0
  }

  // e stays off the first n waiting locks that matter, x aside, unless what they and r asked for overlaps.
  ghost predicate StaysOff(locks: map<Id, Lock>, waiting: seq<Id>, n: nat, x: Id, r: Lock, e: Extent)
    requires n <= |waiting| && forall l :: l in waiting ==> l in locks
  {
    forall i :: 0 <= i < n && waiting[i] != x ==> KeepsOff(locks[waiting[i]], r, e)
  }

  /** Of the extents within `given` that contain the request and stay off the first n waiting locks, e reaches as high
    * as any, and as low as any; after more than four such locks it starts where the request does.
    */
  ghost predicate Widest(locks: map<Id, Lock>, waiting: seq<Id>, n: nat, x: Id, r: Lock, given: Extent, e: Extent)
    requires n <= |waiting| && forall l :: l in waiting ==> l in locks
  {
    && (MatterCount(locks, waiting, n, x, r) > 4 ==> e.start == r.req.start)
    && forall f: Extent :: Within(f, given) && Within(r.req, f) && StaysOff(locks, waiting, n, x, r, f) ==>
      f.end <= e.end && (MatterCount(locks, waiting, n, x, r) <= 4 ==> e.start <= f.start)
  }

  lemma WidestAtFirst(locks: map<Id, Lock>, waiting: seq<Id>, x: Id, r: Lock, given: Extent)
    requires forall l :: l in waiting ==> l in locks
    ensures Widest(locks, waiting, 0, x, r, given, given)
  {
  }

  // One waiting lock more: k takes away no more than it must.
  lemma KeptClearIsWidest(k: Lock, r: Lock, e: Extent, f: Extent)
    requires Within(r.req, e) && r.req.start <= r.req.end && k.ext == k.req && k.req.start <= k.req.end
    requires Within(r.req, f) && Matters(k, r) && KeepsOff(k, r, f)
    ensures f.end <= e.end ==> f.end <= KeptClear(k, r, e).end
    ensures e.start <= f.start ==> KeptClear(k, r, e).start <= f.start
    ensures e.start == r.req.start ==> KeptClear(k, r, e).start == r.req.start
  {
    hide Compat, Wrap;
    WrapFacts(k.ext.start - 1);
  }

  lemma WidestStep(locks: map<Id, Lock>, waiting: seq<Id>, n: nat, x: Id, r: Lock, given: Extent, e: Extent)
    requires n < |waiting| && (forall l :: l in waiting ==> l in locks) && Widest(locks, waiting, n, x, r, given, e)
    requires Within(r.req, e) && r.req.start <= r.req.end
    requires var k := locks[waiting[n]]; k.ext == k.req && k.req.start <= k.req.end
    ensures waiting[n] == x || !Matters(locks[waiting[n]], r) ==> Widest(locks, waiting, n + 1, x, r, given, e)
    ensures waiting[n] != x && Matters(locks[waiting[n]], r) ==>
      var more := MatterCount(locks, waiting, n, x, r) + 1;
      var narrowed := if more > 4 then Extent(r.req.start, e.end) else e;
      Widest(locks, waiting, n + 1, x, r, given, KeptClear(locks[waiting[n]], r, narrowed))
  {
    hide KeepsOff, KeptClear, Compat, Matters, Within;
    var k, more := locks[waiting[n]], MatterCount(locks, waiting, n, x, r) + 1;
    var narrowed := if more > 4 then Extent(r.req.start, e.end) else e;
    NarrowedWithin(r, e);
    forall f: Extent | Within(f, given) && Within(r.req, f) && StaysOff(locks, waiting, n + 1, x, r, f)
      ensures StaysOff(locks, waiting, n, x, r, f)
      ensures waiting[n] != x && Matters(k, r) ==>
        && f.end <= KeptClear(k, r, narrowed).end
        && (more <= 4 ==> KeptClear(k, r, narrowed).start <= f.start)
    {
      if waiting[n] != x && Matters(k, r) {
        KeptClearIsWidest(k, r, narrowed, f);
      }
    }
    if waiting[n] != x && Matters(k, r) && more > 4 {
      RequestKeepsOff(k, r);
      RequestWithin(r);
      KeptClearIsWidest(k, r, narrowed, r.req);
    }
  }

  lemma NarrowedWithin(r: Lock, e: Extent)
    requires Within(r.req, e)
    ensures Within(r.req, Extent(r.req.start, e.end))
  {
  }

  lemma RequestWithin(r: Lock)
    ensures Within(r.req, r.req)
  {
  }

  lemma RequestKeepsOff(k: Lock, r: Lock)
    requires k.ext == k.req
    ensures KeepsOff(k, r, r.req)
  {
  }

  // The request cannot be narrowed any more.
  lemma RequestIsWidest(locks: map<Id, Lock>, waiting: seq<Id>, n: nat, x: Id, r: Lock, given: Extent)
    requires n <= |waiting| && (forall l :: l in waiting ==> l in locks)
    requires Widest(locks, waiting, n, x, r, given, r.req)
    ensures Widest(locks, waiting, |waiting|, x, r, given, r.req)
  {
    hide KeepsOff, Compat, Matters;
    MatterMonotonic(locks, waiting, n, |waiting|, x, r);
    forall f: Extent | Within(f, given) && Within(r.req, f) && StaysOff(locks, waiting, |waiting|, x, r, f)
      ensures StaysOff(locks, waiting, n, x, r, f)
    {
    }
  }

  lemma {:induction false} MatterMonotonic(locks: map<Id, Lock>, waiting: seq<Id>, n: nat, m: nat, x: Id, r: Lock)
    requires n <= m <= |waiting| && forall l :: l in waiting ==> l in locks
    ensures MatterCount(locks, waiting, n, x, r) <= MatterCount(locks, waiting, m, x, r)
  {
    hide Matters;
    if n < m {
      MatterMonotonic(locks, waiting, n, m - 1, x, r);
    }
  }

  // How many granted locks the first n trees hold whose modes are not compatible with this one.
  ghost function ConflictCount(sizes: seq<nat>, mode: Mode, n: nat): nat
    requires n <= |sizes| <= LCK_MODE_NUM
  {
    if n == 0 then 0
    else ConflictCount(sizes, mode, n - 1) + if Compat(TreeMode(n - 1), mode) then 0 else sizes[n - 1]
  }

  // ---------- The extent that the policies choose ----------

  /** The request of lock x grows, within `wide`, to an extent that no granted lock of an incompatible mode overlaps:
    * up to the next that does, and down to the limit if and only if there is none at all.
    */
  ghost predicate Grows(b: Book, x: Id, wide: Extent, grown: Extent, count: nat)
    requires Sized(b) && x in b.locks
  {
    var mode, req := b.locks[x].mode, b.locks[x].req;
    && Within(req, grown) && Within(grown, wide) && Free(b, mode, grown)
    && (grown.end == wide.end || ConflictStartsAt(b.items, mode, grown.end + 1))
    && grown.start == (if NoneBelow(b.items, mode, LCK_MODE_NUM) then wide.start else req.start)
    && (grown == req || count == ConflictCount(b.sizes, mode, LCK_MODE_NUM))
  }

  /** The widest extent within `given` that stays off the waiting locks; low only while at most four of them matter. */
  ghost predicate Shrinks(b: Book, x: Id, given: Extent, shrunk: Extent, count: nat)
    requires x in b.locks && forall l :: l in b.waiting ==> l in b.locks
  {
    var r := b.locks[x];
    && Within(r.req, shrunk) && Within(shrunk, given) && StaysOff(b.locks, b.waiting, |b.waiting|, x, r, shrunk)
    && Widest(b.locks, b.waiting, |b.waiting|, x, r, given, shrunk)
    && (shrunk == r.req || count == MatterCount(b.locks, b.waiting, |b.waiting|, x, r))
  }

  // Clipping and alignment of what either policy found.
  ghost predicate Settles(mode: Mode, req: Extent, e: Extent, count: nat, fixed: Extent) {
    Within(req, fixed) && Within(fixed, e) && exists p :: FixedUp(mode, req, e, count, fixed, p)
  }

  lemma SettlesWithin(mode: Mode, req: Extent, e: Extent, count: nat, fixed: Extent)
    requires Settles(mode, req, e, count, fixed)
    ensures Within(req, fixed) && Within(fixed, e)
  {
  }

  /** The extent on which lock x is granted: its request if the lock is local or covers the whole object, otherwise what
    * the two policies make of it.
    */
  ghost predicate ExtentFor(b: Book, x: Id, e: Extent)
    requires Sized(b) && x in b.locks && forall l :: l in b.waiting ==> l in b.locks
  {
    var mode, req, whole := b.locks[x].mode, b.locks[x].req, Extent(0, OBJECT_EOF);
    if b.locks[x].client == 0 || req == whole then e == req
    else exists grown, n, given, shrunk, m ::
      && Grows(b, x, whole, grown, n) && Settles(mode, req, grown, n, given)
      && Shrinks(b, x, given, shrunk, m) && (e == shrunk == req || Settles(mode, req, shrunk, m, e))
  }

  // Nodes of the trees have an extent with a byte in it.
  lemma ProperItem(b: Book, i: nat, it: Item)
    requires Inv(b) && i < |b.items| && it in b.items[i]
    ensures it.ext.start <= it.ext.end
  {
    hide Inv;
    GroupedFact(b, i, it);
    GrantedFacts(b, b.groups[it.p][0]);
    GrantedExtent(b, b.groups[it.p][0]);
  }

  lemma GrowsOnce(b: Book, x: Id, wide: Extent, g: Extent, n: nat, h: Extent, m: nat)
    requires Inv(b) && Sized(b) && x in b.locks && b.locks[x].req.start <= b.locks[x].req.end
    requires Grows(b, x, wide, g, n) && Grows(b, x, wide, h, m)
    ensures g == h && (g == b.locks[x].req || n == m)
  {
    hide Inv, NoneBelow, Compat, ConflictCount;
    GrowsNoFurther(b, x, wide, g, n, h, m);
    GrowsNoFurther(b, x, wide, h, m, g, n);
  }

  lemma GrowsNoFurther(b: Book, x: Id, wide: Extent, g: Extent, n: nat, h: Extent, m: nat)
    requires Inv(b) && Sized(b) && x in b.locks && b.locks[x].req.start <= b.locks[x].req.end
    requires Grows(b, x, wide, g, n) && Grows(b, x, wide, h, m)
    ensures h.end <= g.end
  {
    hide Inv, NoneBelow, Compat, ConflictCount;
    if g.end < h.end {
      var mode := b.locks[x].mode;
      var i, it :| 0 <= i < |b.items| && it in b.items[i] && !Compat(TreeMode(i), mode) && it.ext.start == g.end + 1;
      ProperItem(b, i, it);
      FreeIsBelow(b, mode, h);
    }
  }

  lemma ShrinksOnce(b: Book, x: Id, given: Extent, e: Extent, n: nat, f: Extent, m: nat)
    requires x in b.locks && (forall l :: l in b.waiting ==> l in b.locks)
    requires Shrinks(b, x, given, e, n) && Shrinks(b, x, given, f, m)
    ensures e == f && (e == b.locks[x].req || n == m)
  {
    hide StaysOff, MatterCount;
  }

  lemma SettlesOnce(mode: Mode, req: Extent, e: Extent, n: nat, m: nat, a: Extent, b: Extent)
    requires Settles(mode, req, e, n, a) && Settles(mode, req, e, m, b) && (e == req || n == m)
    ensures a == b
  {
    hide FixedUp;
    if e != req {
      var p :| FixedUp(mode, req, e, n, a, p);
      var q :| FixedUp(mode, req, e, m, b, q);
      FixedOnce(mode, req, e, n, a, p, b, q);
    }
  }

  /** The policies leave no choice: there is one extent on which a lock may be granted. */
  lemma OneExtent(b: Book, x: Id, e: Extent, f: Extent)
    requires Inv(b) && Sized(b) && x in b.locks && (forall l :: l in b.waiting ==> l in b.locks)
    requires b.locks[x].req.start <= b.locks[x].req.end && ExtentFor(b, x, e) && ExtentFor(b, x, f)
    ensures e == f
  {
    hide Inv, Grows, Shrinks, Settles;
    var mode, req, whole := b.locks[x].mode, b.locks[x].req, Extent(0, OBJECT_EOF);
    if b.locks[x].client != 0 && req != whole {
      var g, n, given, s, m :| Grows(b, x, whole, g, n) && Settles(mode, req, g, n, given)
        && Shrinks(b, x, given, s, m) && (e == s == req || Settles(mode, req, s, m, e));
      var g', n', given', s', m' :| Grows(b, x, whole, g', n') && Settles(mode, req, g', n', given')
        && Shrinks(b, x, given', s', m') && (f == s' == req || Settles(mode, req, s', m', f));
      GrowsOnce(b, x, whole, g, n, g', n');
      SettlesOnce(mode, req, g, n, n', given, given');
      ShrinksOnce(b, x, given, s, m, s', m');
      OneEnd(mode, req, s, m, m', e, f);
    }
  }

  lemma OneEnd(mode: Mode, req: Extent, s: Extent, m: nat, m': nat, e: Extent, f: Extent)
    requires e == s == req || Settles(mode, req, s, m, e)
    requires (f == s == req || Settles(mode, req, s, m', f)) && (s == req || m == m')
    ensures e == f
  {
    if s != req {
      SettlesOnce(mode, req, s, m, m', e, f);
    }
  }

  lemma ChoseExtent(b: Book, x: Id, grown: Extent, n: nat, given: Extent, shrunk: Extent, m: nat, e: Extent)
    requires Sized(b) && x in b.locks && (forall l :: l in b.waiting ==> l in b.locks)
    requires b.locks[x].client != 0 && b.locks[x].req != Extent(0, OBJECT_EOF)
    requires Grows(b, x, Extent(0, OBJECT_EOF), grown, n) && Settles(b.locks[x].mode, b.locks[x].req, grown, n, given)
    requires Shrinks(b, x, given, shrunk, m)
    requires e == shrunk == b.locks[x].req || Settles(b.locks[x].mode, b.locks[x].req, shrunk, m, e)
    ensures ExtentFor(b, x, e)
  {
  }

  /** The extent grows back if and only if a waiting lock across the end of the request overlaps it in its extent, not
    * in its request, and requested a range that starts beyond it, or at the very first byte.
    */
  lemma KeptClearGrowsIff(k: Lock, r: Lock, e: Extent)
    requires Within(r.req, e) && r.req.start <= r.req.end
    ensures !Within(KeptClear(k, r, e), e) <==>
      && Overlap(k.ext, e) && !Overlap(k.req, r.req) && k.ext.start <= r.req.end < k.ext.end
      && Wrap(k.req.start - 1) > e.end
  {
    hide Wrap;
    WrapFacts(k.ext.start - 1);
  }

  // Such a waiting lock, which holds more than it requested.
  lemma KeptClearMayGrow(k: Lock, r: Lock, e: Extent)
    requires e == Extent(0, 0x3fff) && r.req == Extent(0, 0xfff)
    requires k.ext == Extent(0, 0x8fff) && k.req == Extent(0x8000, 0x8fff)
    ensures KeptClear(k, r, e).end == 0x7fff > e.end
  {
    hide Wrap;
    WrapFacts(k.req.start - 1);
    KeptClearGrowsIff(k, r, e);
  }
}
