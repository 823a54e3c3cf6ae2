/** The bookkeeping of one resource as a value: its locks, its two queues, and the interval tree of each mode.
  *
  * Everything that a step of the lock manager keeps is stated here, and so is that granting and unlinking keep it.
  */
module LockBook {
  import opened Words
  import opened Shapes
  import opened LockModes
  import opened Alignment
  import opened Lists

  type Id = nat

  // granted says that l_granted_mode equals l_req_mode; client stands for l_export, 0 being the null export of a local
  // lock.
  datatype Lock = Lock(mode: Mode, granted: bool, req: Extent, ext: Extent, node: Ptr, client: nat, blocking: bool,
                       astSent: bool, destroyed: bool)

  // items[i] lists the nodes of tree i, groups the locks attached to each interval node, sizes is lit_size.
  datatype Book = Book(locks: map<Id, Lock>, granted: seq<Id>, waiting: seq<Id>, groups: map<Ptr, seq<Id>>,
                       sizes: seq<nat>, items: seq<set<Item>>)

  // ---------- What every step keeps ----------

  ghost predicate Listed(b: Book) {
    && NoRepeat(b.granted) && NoRepeat(b.waiting)
    && (forall l :: l in b.granted ==> l in b.locks && b.locks[l].granted && !b.locks[l].destroyed)
    && (forall l :: l in b.waiting ==> l in b.locks && !b.locks[l].granted && !b.locks[l].destroyed)
    && (forall l :: l in b.locks && b.locks[l].granted && !b.locks[l].destroyed ==> l in b.granted)
  }

  predicate Pending(k: Lock) { !k.granted && !k.destroyed }

  // A lock that is still to be granted holds its requested extent, and an interval node of its own.
  ghost predicate Attached(b: Book) {
    forall l {:trigger b.locks[l]} :: l in b.locks && Pending(b.locks[l]) ==>
      && b.locks[l].ext == b.locks[l].req && PageAligned(b.locks[l].req)
      && b.locks[l].node != NULL && b.locks[l].node in b.groups && b.groups[b.locks[l].node] == [l]
  }

  ghost predicate Sized(b: Book) { |b.items| == |b.sizes| == LCK_MODE_NUM }

  // Every granted lock covers its request and is in the tree of its mode, in the group of its extent.
  ghost predicate Placed(b: Book)
    requires Sized(b)
  {
    forall l {:trigger b.locks[l]} :: l in b.granted && l in b.locks ==>
      && Within(b.locks[l].req, b.locks[l].ext) && b.locks[l].ext.start <= b.locks[l].ext.end
      && Item(b.locks[l].node, b.locks[l].ext) in b.items[Index(b.locks[l].mode)]
      && b.locks[l].node in b.groups && l in b.groups[b.locks[l].node]
  }

  // The group of a tree node is not empty and holds only granted locks of that mode with exactly that extent.
  ghost predicate GroupOf(b: Book, i: nat, it: Item) {
    && it.p != NULL && it.p in b.groups && b.groups[it.p] != [] && NoRepeat(b.groups[it.p])
    && forall l :: l in b.groups[it.p] ==>
      && l in b.granted && l in b.locks && Index(b.locks[l].mode) == i
      && b.locks[l].node == it.p && b.locks[l].ext == it.ext
  }

  ghost predicate Grouped(b: Book) {
    forall i, it :: 0 <= i < |b.items| && it in b.items[i] ==> GroupOf(b, i, it)
  }

  ghost function Holders(b: Book, i: nat): set<Id> {
    set l | l in b.granted && l in b.locks && Index(b.locks[l].mode) == i
  }

  ghost predicate Counted(b: Book) {
    forall i :: 0 <= i < |b.sizes| ==> b.sizes[i] == |Holders(b, i)|
  }

  ghost predicate Clash(a: Lock, k: Lock) { !Compat(a.mode, k.mode) && Overlap(a.ext, k.ext) }

  /** No two granted locks have incompatible modes and overlapping extents. */
  ghost predicate Safe(b: Book) {
    forall l, k :: l in b.granted && k in b.granted && l != k && l in b.locks && k in b.locks ==>
      !Clash(b.locks[l], b.locks[k])
  }

  ghost predicate Covers(e: Extent, byte: u64) { e.start <= byte <= e.end }

  /** Whatever the holder of a granted lock may do to a byte of its extent, every other holder of that byte allows. */
  ghost predicate SafeBytes(b: Book) {
    forall l, k, byte: u64 :: l in b.granted && k in b.granted && l != k && l in b.locks && k in b.locks ==>
      Covers(b.locks[l].ext, byte) && Covers(b.locks[k].ext, byte) ==>
        Needs(b.locks[l].mode) <= Allows(b.locks[k].mode)
  }

  // Which is what the extents and the matrix of the modes say.
  lemma SafeIsSafeBytes(b: Book)
    requires forall l :: l in b.granted && l in b.locks ==> b.locks[l].ext.start <= b.locks[l].ext.end
    ensures Safe(b) <==> SafeBytes(b)
  {
    if SafeBytes(b) {
      forall l, k | l in b.granted && k in b.granted && l != k && l in b.locks && k in b.locks
        ensures !Clash(b.locks[l], b.locks[k])
      {
        var d, e := b.locks[l].ext, b.locks[k].ext;
        CompatMeans(b.locks[l].mode, b.locks[k].mode);
        assert Overlap(d, e) ==> Covers(d, Max(d.start, e.start)) && Covers(e, Max(d.start, e.start));
      }
    }
    if Safe(b) {
      forall l, k, byte: u64 | l in b.granted && k in b.granted && l != k && l in b.locks && k in b.locks
        && Covers(b.locks[l].ext, byte) && Covers(b.locks[k].ext, byte)
        ensures Needs(b.locks[l].mode) <= Allows(b.locks[k].mode)
      {
        CompatMeans(b.locks[l].mode, b.locks[k].mode);
      }
    }
  }

  ghost predicate Inv(b: Book) {
    Sized(b) && Listed(b) && Attached(b) && Placed(b) && Grouped(b) && Counted(b) && Safe(b)
  }

  // ---------- Granting ----------

  // No granted lock is in the way of a lock of this mode on extent e, as seen in the trees.
  ghost predicate Free(b: Book, mode: Mode, e: Extent)
    requires Sized(b)
  {
    forall i, it :: 0 <= i < |b.items| && it in b.items[i] && Overlap(it.ext, e) ==> Compat(TreeMode(i), mode)
  }

  // The book after lock x got extent e, node being the tree node that holds it.
  ghost function Grant(b: Book, x: Id, e: Extent, node: Ptr): Book
    requires x in b.locks && node in b.groups && Sized(b)
  {
    var k, i := b.locks[x], Index(b.locks[x].mode);
    Book(b.locks[x := k.(granted := true, ext := e, node := node)], b.granted + [x], Without(b.waiting, x),
         if node == k.node then b.groups else (b.groups - {k.node})[node := b.groups[node] + [x]],
         b.sizes[i := b.sizes[i] + 1], b.items[i := b.items[i] + {Item(node, e)}])
  }

  ghost predicate MayGrant(b: Book, x: Id, e: Extent, node: Ptr) {
    && Inv(b) && Sized(b) && x in b.locks && Pending(b.locks[x]) && Within(b.locks[x].req, e) && node in b.groups
    && (node == b.locks[x].node || Item(node, e) in b.items[Index(b.locks[x].mode)])
  }

  lemma PendingFacts(b: Book, x: Id)
    requires Inv(b) && x in b.locks && Pending(b.locks[x])
    ensures x !in b.granted && b.locks[x].node in b.groups && b.groups[b.locks[x].node] == [x]
    ensures forall i, it :: 0 <= i < |b.items| && it in b.items[i] ==> it.p != b.locks[x].node
    ensures b.locks[x].node != NULL && b.locks[x].ext == b.locks[x].req && PageAligned(b.locks[x].req)
  {
    forall i, it | 0 <= i < |b.items| && it in b.items[i] ensures it.p != b.locks[x].node {
      assert GroupOf(b, i, it);
    }
  }

  lemma TreeNodes(b: Book, i: nat)
    requires Inv(b) && i < |b.items|
    ensures forall it :: it in b.items[i] ==> it.p in b.groups
  {
    forall it | it in b.items[i] ensures it.p in b.groups {
      assert GroupOf(b, i, it);
    }
  }

  lemma GrantKeepsListed(b: Book, x: Id, e: Extent, node: Ptr)
    requires MayGrant(b, x, e, node)
    ensures Listed(Grant(b, x, e, node))
  {
    WithoutFacts(b.waiting, x);
    AppendFacts(b.granted, x);
  }

  lemma GrantKeepsAttached(b: Book, x: Id, e: Extent, node: Ptr)
    requires MayGrant(b, x, e, node)
    ensures Attached(Grant(b, x, e, node))
  {
    hide Listed, Placed, Grouped, GroupOf, Counted, Safe, PageAligned;
    var b' := Grant(b, x, e, node);
    PendingFacts(b, x);
    forall l | l in b'.locks && Pending(b'.locks[l])
      ensures b'.locks[l].node in b'.groups && b'.groups[b'.locks[l].node] == [l]
    {
      PendingFacts(b, l);
    }
  }

  lemma GrantKeepsPlaced(b: Book, x: Id, e: Extent, node: Ptr)
    requires MayGrant(b, x, e, node)
    ensures Sized(Grant(b, x, e, node)) && Placed(Grant(b, x, e, node))
  {
    hide Listed, Attached, Grouped, GroupOf, Counted, Safe, PageAligned;
    PendingFacts(b, x);
  }

  lemma GrantKeepsGrouped(b: Book, x: Id, e: Extent, node: Ptr)
    requires MayGrant(b, x, e, node)
    ensures Grouped(Grant(b, x, e, node))
  {
    hide Listed, Attached, Placed, Counted, Safe, PageAligned;
    var b' := Grant(b, x, e, node);
    PendingFacts(b, x);
    forall i, it | 0 <= i < |b'.items| && it in b'.items[i] ensures GroupOf(b', i, it) {
      if it in b.items[i] {
        assert GroupOf(b, i, it);
      }
      if it.p == node && node != b.locks[x].node {
        assert GroupOf(b, Index(b.locks[x].mode), Item(node, e));
        assert b.groups[node][0] in b.groups[node];
        AppendFacts(b.groups[node], x);
      }
    }
  }

  lemma HoldersAfterGrant(b: Book, x: Id, e: Extent, node: Ptr, i: nat)
    requires MayGrant(b, x, e, node) && x !in b.granted
    ensures Holders(Grant(b, x, e, node), i) == Holders(b, i) + (if i == Index(b.locks[x].mode) then {x} else {})
  {
    hide Attached, Placed, Grouped, Counted, Safe;
  }

  lemma GrantKeepsCounted(b: Book, x: Id, e: Extent, node: Ptr)
    requires MayGrant(b, x, e, node)
    ensures Counted(Grant(b, x, e, node))
  {
    hide Holders;
    PendingFacts(b, x);
    forall i: nat | i < LCK_MODE_NUM ensures Grant(b, x, e, node).sizes[i] == |Holders(Grant(b, x, e, node), i)| {
      HoldersAfterGrant(b, x, e, node, i);
      HoldersGranted(b, i);
    }
  }

  lemma HoldersGranted(b: Book, i: nat)
    ensures forall l :: l in Holders(b, i) ==> l in b.granted
  {
  }

  lemma GrantKeepsSafe(b: Book, x: Id, e: Extent, node: Ptr)
    requires MayGrant(b, x, e, node) && Free(b, b.locks[x].mode, e)
    ensures Safe(Grant(b, x, e, node))
  {
    hide Listed, Attached, Grouped, GroupOf, Counted, PageAligned, NoRepeat;
    var b' := Grant(b, x, e, node);
    PendingFacts(b, x);
    forall l | l in b.granted && l in b.locks
      ensures !Clash(b'.locks[l], b'.locks[x]) && !Clash(b'.locks[x], b'.locks[l])
    {
      var k := b.locks[l];
      assert Item(k.node, k.ext) in b.items[Index(k.mode)] && TreeMode(Index(k.mode)) == k.mode;
      CompatSymmetric(k.mode, b.locks[x].mode);
    }
  }

  /** Granting a lock on an extent that no tree of an incompatible mode overlaps keeps all of it. */
  lemma GrantKeepsInv(b: Book, x: Id, e: Extent, node: Ptr)
    requires MayGrant(b, x, e, node) && Free(b, b.locks[x].mode, e)
    ensures Inv(Grant(b, x, e, node))
  {
    hide MayGrant, Free, Listed, Attached, Placed, Grouped, Counted, Safe, Grant;
    GrantKeepsListed(b, x, e, node);
    GrantKeepsAttached(b, x, e, node);
    GrantKeepsPlaced(b, x, e, node);
    GrantKeepsGrouped(b, x, e, node);
    GrantKeepsCounted(b, x, e, node);
    GrantKeepsSafe(b, x, e, node);
  }

  // ---------- Taking a granted lock away ----------

  ghost function Cut(b: Book, x: Id): Book
    requires x in b.locks && b.locks[x].node in b.groups && Sized(b)
    requires b.sizes[Index(b.locks[x].mode)] > 0
  {
    var k, i := b.locks[x], Index(b.locks[x].mode);
    var rest := Without(b.groups[k.node], x);
    Book(b.locks[x := k.(node := NULL, destroyed := true)], Without(b.granted, x), b.waiting,
         if rest == [] then b.groups - {k.node} else b.groups[k.node := rest], b.sizes[i := b.sizes[i] - 1],
         if rest == [] then b.items[i := b.items[i] - {Item(k.node, k.ext)}] else b.items)
  }

  lemma GrantedFacts(b: Book, x: Id)
    requires Inv(b) && x in b.granted
    ensures x in b.locks && b.locks[x].node in b.groups && x in b.groups[b.locks[x].node]
    ensures NoRepeat(b.groups[b.locks[x].node]) && !Pending(b.locks[x])
    ensures Sized(b) && b.locks[x].node != NULL && b.sizes[Index(b.locks[x].mode)] > 0
    ensures Item(b.locks[x].node, b.locks[x].ext) in b.items[Index(b.locks[x].mode)]
    ensures GroupOf(b, Index(b.locks[x].mode), Item(b.locks[x].node, b.locks[x].ext))
    ensures forall l :: l in b.locks && Pending(b.locks[l]) ==> b.locks[l].node != b.locks[x].node
  {
    var k, i := b.locks[x], Index(b.locks[x].mode);
    assert Item(k.node, k.ext) in b.items[i];
    assert x in Holders(b, i);
    assert |Holders(b, i)| > 0;
    forall l | l in b.locks && Pending(b.locks[l]) ensures b.locks[l].node != k.node {
      PendingFacts(b, l);
    }
  }

  // An interval node is in one tree only, with one extent.
  lemma OnePlace(b: Book, i: nat, it: Item, j: nat, jt: Item)
    requires Inv(b) && i < |b.items| && j < |b.items| && it in b.items[i] && jt in b.items[j] && it.p == jt.p
    ensures i == j && it == jt
  {
    assert GroupOf(b, i, it) && GroupOf(b, j, jt);
    assert b.groups[it.p][0] in b.groups[it.p];
  }

  lemma CutKeepsListed(b: Book, x: Id)
    requires Inv(b) && x in b.granted && x in b.locks && b.locks[x].node in b.groups
    requires Sized(b) && b.sizes[Index(b.locks[x].mode)] > 0
    ensures Listed(Cut(b, x)) && Attached(Cut(b, x))
  {
    GrantedFacts(b, x);
    WithoutFacts(b.granted, x);
  }

  lemma CutKeepsPlaced(b: Book, x: Id)
    requires Inv(b) && x in b.granted && x in b.locks && b.locks[x].node in b.groups
    requires Sized(b) && b.sizes[Index(b.locks[x].mode)] > 0
    ensures Sized(Cut(b, x)) && Placed(Cut(b, x))
  {
    hide Inv, GroupOf, NoRepeat;
    var b', n := Cut(b, x), b.locks[x].node;
    GrantedFacts(b, x);
    GrantedExtent(b, x);
    WithoutFacts(b.granted, x);
    WithoutFacts(b.groups[n], x);
    forall l | l in b'.granted && l in b'.locks
      ensures Within(b'.locks[l].req, b'.locks[l].ext) && b'.locks[l].ext.start <= b'.locks[l].ext.end
      ensures Item(b'.locks[l].node, b'.locks[l].ext) in b'.items[Index(b'.locks[l].mode)]
      ensures b'.locks[l].node in b'.groups && l in b'.groups[b'.locks[l].node]
    {
      GrantedFacts(b, l);
      GrantedExtent(b, l);
    }
  }

  lemma GrantedExtent(b: Book, l: Id)
    requires Inv(b) && l in b.granted
    ensures l in b.locks && Within(b.locks[l].req, b.locks[l].ext) && b.locks[l].ext.start <= b.locks[l].ext.end
    ensures NoRepeat(b.granted)
  {
  }

  lemma CutKeepsGrouped(b: Book, x: Id)
    requires Inv(b) && x in b.granted && x in b.locks && b.locks[x].node in b.groups
    requires Sized(b) && b.sizes[Index(b.locks[x].mode)] > 0
    ensures Grouped(Cut(b, x))
  {
    hide Inv, NoRepeat;
    var b', k := Cut(b, x), b.locks[x];
    GrantedFacts(b, x);
    GrantedExtent(b, x);
    WithoutFacts(b.granted, x);
    WithoutFacts(b.groups[k.node], x);
    forall i, it | 0 <= i < |b'.items| && it in b'.items[i] ensures GroupOf(b', i, it) {
      GroupedFact(b, i, it);
      if it.p == k.node {
        OnePlace(b, i, it, Index(k.mode), Item(k.node, k.ext));
      }
    }
  }

  lemma GroupedFact(b: Book, i: nat, it: Item)
    requires Inv(b) && i < |b.items| && it in b.items[i]
    ensures GroupOf(b, i, it)
  {
  }

  lemma CutKeepsCounted(b: Book, x: Id)
    requires Inv(b) && x in b.granted && x in b.locks && b.locks[x].node in b.groups
    requires Sized(b) && b.sizes[Index(b.locks[x].mode)] > 0
    ensures Counted(Cut(b, x))
  {
    hide Attached, Grouped, GroupOf, Safe, PageAligned, NoRepeat;
    var b' := Cut(b, x);
    WithoutFacts(b.granted, x);
    forall i: nat | i < LCK_MODE_NUM ensures b'.sizes[i] == |Holders(b', i)| {
      if i == Index(b.locks[x].mode) {
        assert Holders(b', i) == Holders(b, i) - {x};
        assert x in Holders(b, i);
      } else {
        assert Holders(b', i) == Holders(b, i);
      }
    }
  }

  lemma CutKeepsSafe(b: Book, x: Id)
    requires Inv(b) && x in b.granted && x in b.locks && b.locks[x].node in b.groups
    requires Sized(b) && b.sizes[Index(b.locks[x].mode)] > 0
    ensures Safe(Cut(b, x))
  {
    hide Attached, Grouped, GroupOf, Counted, PageAligned, NoRepeat;
    WithoutFacts(b.granted, x);
  }

  lemma CutKeepsInv(b: Book, x: Id)
    requires Inv(b) && x in b.granted && x in b.locks && b.locks[x].node in b.groups
    requires Sized(b) && b.sizes[Index(b.locks[x].mode)] > 0
    ensures Inv(Cut(b, x))
  {
    hide Listed, Attached, Placed, Grouped, Counted, Safe, Cut;
    CutKeepsListed(b, x);
    CutKeepsPlaced(b, x);
    CutKeepsGrouped(b, x);
    CutKeepsCounted(b, x);
    CutKeepsSafe(b, x);
  }

  // ---------- Steps that leave the granted locks alone ----------

  // A pending lock leaves the waiting list for good.
  ghost function Drop(b: Book, x: Id): Book
    requires x in b.locks
  {
    b.(locks := b.locks[x := b.locks[x].(destroyed := true)], waiting := Without(b.waiting, x))
  }

  // A pending lock joins the tail of the waiting list.
  ghost function Enlist(b: Book, x: Id): Book {
    b.(waiting := b.waiting + [x])
  }

  // A new lock with an interval node of its own.
  ghost function Create(b: Book, x: Id, k: Lock): Book {
    b.(locks := b.locks[x := k], groups := b.groups[k.node := [x]])
  }

  lemma SameHolders(b: Book, b': Book)
    requires b'.granted == b.granted && (forall l :: l in b.granted ==> l in b.locks && l in b'.locks)
    requires forall l :: l in b.granted && l in b.locks && l in b'.locks ==> b'.locks[l].mode == b.locks[l].mode
    ensures forall i :: Holders(b', i) == Holders(b, i)
  {
  }

  // Locks change at most in their flags and groups and lists grow or shrink outside the granted locks.
  ghost predicate GrantedKept(b: Book, b': Book) {
    && b'.granted == b.granted && b'.items == b.items && b'.sizes == b.sizes
    && (forall l :: l in b.granted && l in b.locks ==>
      l in b'.locks && b'.locks[l] == b.locks[l].(astSent := b'.locks[l].astSent))
    && (forall l :: l in b.granted && l in b.locks && b.locks[l].node in b.groups ==>
      b.locks[l].node in b'.groups && b'.groups[b.locks[l].node] == b.groups[b.locks[l].node])
  }

  lemma KeptGrantedInv(b: Book, b': Book)
    requires Inv(b) && GrantedKept(b, b') && Listed(b') && Attached(b')
    ensures Inv(b')
  {
    hide PageAligned, NoRepeat, Attached;
    SameHolders(b, b');
    forall i, it | 0 <= i < |b'.items| && it in b'.items[i] ensures GroupOf(b', i, it) {
      assert GroupOf(b, i, it);
      assert b.groups[it.p][0] in b.groups[it.p];
    }
  }

  lemma DropKeepsInv(b: Book, x: Id)
    requires Inv(b) && x in b.locks && Pending(b.locks[x])
    ensures Inv(Drop(b, x))
  {
    hide PageAligned, NoRepeat, Placed, Grouped, GroupOf, Counted, Safe;
    WithoutFacts(b.waiting, x);
    KeptGrantedInv(b, Drop(b, x));
  }

  lemma EnlistKeepsInv(b: Book, x: Id)
    requires Inv(b) && x in b.locks && Pending(b.locks[x]) && x !in b.waiting
    ensures Inv(Enlist(b, x))
  {
    hide PageAligned, NoRepeat;
    AppendFacts(b.waiting, x);
    KeptGrantedInv(b, Enlist(b, x));
  }

  lemma CreateKeepsInv(b: Book, x: Id, k: Lock)
    requires Inv(b) && x !in b.locks && Pending(k) && k.ext == k.req && PageAligned(k.req)
    requires k.node != NULL && k.node !in b.groups
    ensures Inv(Create(b, x, k))
  {
    hide NoRepeat;
    KeptGrantedInv(b, Create(b, x, k));
  }

  // ---------- What follows from all this ----------

  lemma InvIsSafe(b: Book)
    requires Inv(b)
    ensures Safe(b) && SafeBytes(b)
  {
    hide Safe, SafeBytes;
    SafeIsSafeBytes(b);
  }

  lemma Sizes(b: Book)
    requires Inv(b)
    ensures Sized(b)
  {
  }

  lemma CancelFacts(b: Book, x: Id)
    requires Inv(b) && x in b.locks && !b.locks[x].destroyed
    ensures x in b.granted <==> b.locks[x].granted
    ensures x in b.granted ==> Without(b.waiting, x) == b.waiting
    ensures x !in b.granted ==> Without(b.granted, x) == b.granted
  {
    if x in b.granted {
      WithoutAbsent(b.waiting, x);
    } else {
      WithoutAbsent(b.granted, x);
    }
  }

  lemma CutFacts(b: Book, x: Id)
    requires Inv(b) && x in b.granted
    ensures x in b.locks && b.locks[x].node in b.groups && b.locks[x].node != NULL && Sized(b)
    ensures var k := b.locks[x]; var i := Index(k.mode);
      && b.sizes[i] > 0 && Item(k.node, k.ext) in b.items[i]
      && forall it :: it in b.items[i] && it.p == k.node ==> it.ext == k.ext
  {
    hide Inv;
    GrantedFacts(b, x);
    var k, i := b.locks[x], Index(b.locks[x].mode);
    forall it | it in b.items[i] && it.p == k.node ensures it.ext == k.ext {
      OnePlace(b, i, it, i, Item(k.node, k.ext));
    }
  }

  lemma EmptyInv(b: Book)
    requires b == Book(map[], [], [], map[], seq(LCK_MODE_NUM, i => 0), seq(LCK_MODE_NUM, i => {}))
    ensures Inv(b)
  {
    assert forall i :: Holders(b, i) == {};
  }

  ghost predicate OnlyChanged(b: Book, b': Book, x: Id) {
    b'.locks.Keys == b.locks.Keys && forall l :: l in b.locks && l != x ==> l in b'.locks && b'.locks[l] == b.locks[l]
  }

  // The book b' is b but for lock x, which is gone with its interval node.
  ghost predicate BackTo(b: Book, b': Book, x: Id)
    requires x in b.locks
  {
    && OnlyChanged(b, b', x) && b'.granted == b.granted && b'.waiting == Without(b.waiting, x)
    && b'.groups == b.groups - {b.locks[x].node} && b'.sizes == b.sizes && b'.items == b.items
  }

  lemma UndoOwnNode(b: Book, x: Id, e: Extent)
    requires Inv(b) && Sized(b) && x in b.locks && Pending(b.locks[x]) && b.locks[x].node in b.groups
    ensures Sized(Grant(b, x, e, b.locks[x].node)) && BackTo(b, Cut(Grant(b, x, e, b.locks[x].node), x), x)
  {
    hide Inv, Without;
    PendingFacts(b, x);
    WithoutLast(b.granted, x);
    var k, i := b.locks[x], Index(b.locks[x].mode);
    WithoutLast([], x);
    assert [] + [x] == [x];
    assert b.items[i] + {Item(k.node, e)} - {Item(k.node, e)} == b.items[i];
  }

  lemma UndoSharedNode(b: Book, x: Id, e: Extent, node: Ptr)
    requires Inv(b) && Sized(b) && x in b.locks && Pending(b.locks[x]) && node in b.groups
    requires node != b.locks[x].node && Item(node, e) in b.items[Index(b.locks[x].mode)]
    ensures Sized(Grant(b, x, e, node)) && BackTo(b, Cut(Grant(b, x, e, node), x), x)
  {
    hide Inv, Without;
    PendingFacts(b, x);
    WithoutLast(b.granted, x);
    var i := Index(b.locks[x].mode);
    GroupedFact(b, i, Item(node, e));
    WithoutLast(b.groups[node], x);
    assert b.items[i] + {Item(node, e)} == b.items[i];
    assert (b.groups - {b.locks[x].node})[node := b.groups[node] + [x]][node := b.groups[node]]
      == b.groups - {b.locks[x].node};
  }

  /** Cancelling a lock that was just granted leaves both lists, the trees, the sizes and the other groups as they were
    * before.
    */
  lemma CancelUndoesGrant(b: Book, x: Id, e: Extent, node: Ptr)
    requires MayGrant(b, x, e, node)
    ensures Sized(Grant(b, x, e, node)) && BackTo(b, Cut(Grant(b, x, e, node), x), x)
  {
    hide Inv, BackTo, Grant, Cut;
    if node == b.locks[x].node {
      UndoOwnNode(b, x, e);
    } else {
      UndoSharedNode(b, x, e, node);
    }
  }
}
