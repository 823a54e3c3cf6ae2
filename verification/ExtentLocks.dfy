/** The extent locks of one resource: granting, queueing, cancelling. */
module ExtentLocks {
  import opened Words
  import opened Shapes
  import opened IntervalTrees
  import opened LockModes
  import opened Alignment
  import opened Lists
  import opened LockBook
  import opened LockTrees
  import opened LockPolicy
  import opened LockConflicts
  import opened LockSteps

  class Resource {
    const trees: seq<Tree>
    var locks: map<Id, Lock>
    var granted: seq<Id>
    var waiting: seq<Id>
    // The locks attached to each interval node (li_group), and the number of locks in each tree (lit_size).
    var groups: map<Ptr, seq<Id>>
    var sizes: seq<nat>
    var contentionTime: int
    const limits: Limits
    ghost var items: seq<set<Item>>

    ghost function View(): Book
      reads this
    {
      Book(locks, granted, waiting, groups, sizes, items)
    }

    ghost function Standing(): Standing
      reads this
    {
      LockSteps.Standing(View(), contentionTime)
    }

    ghost predicate Valid()
      reads this, trees
    {
      TreesOk(trees, items) && Inv(View())
    }

    constructor (limits: Limits)
      ensures Valid() && fresh(trees) && locks == map[] && granted == waiting == [] && this.limits == limits
    {
      hide Usable, Inv, TreesOk;
      this.limits, contentionTime := limits, 0;
      var empty := EmptyTrees();
      trees := empty;
      locks, granted, waiting, groups, sizes := map[], [], [], map[], seq(LCK_MODE_NUM, i => 0);
      items := seq(LCK_MODE_NUM, i => {});
      new;
      EmptyInv(View());
    }

    // ---------- Trees and groups ----------

    method IntervalAttach(n: Ptr, l: Id)
      requires l in locks && n in groups
      modifies `locks, `groups
      ensures locks == old(locks)[l := old(locks)[l].(node := n)]
      ensures groups == old(groups)[n := old(groups)[n] + [l]]
    {
      groups := groups[n := groups[n] + [l]];
      locks := locks[l := locks[l].(node := n)];
    }

    // Returns the node when l was the last lock attached to it, NULL otherwise.
    method IntervalDetach(l: Id) returns (n: Ptr)
      requires l in locks && locks[l].node in groups
      modifies `locks, `groups
      ensures locks == old(locks)[l := old(locks)[l].(node := NULL)]
      ensures var node := old(locks)[l].node; var rest := Without(old(groups)[node], l);
        groups == old(groups)[node := rest] && n == if rest == [] then node else NULL
    {
      var node: Ptr := locks[l].node;
      groups := groups[node := Without(groups[node], l)];
      locks := locks[l := locks[l].(node := NULL)];
      n := if groups[node] == [] then node else NULL;
    }

    method PlantIn(idx: nat, node: Ptr, ext: Extent) returns (found: Ptr)
      requires TreesOk(trees, items) && idx < LCK_MODE_NUM && node != NULL && ext.start <= ext.end
      requires forall it :: it in items[idx] ==> it.p != node
      modifies `items, trees
      ensures TreesOk(trees, items) && |old(items)| == LCK_MODE_NUM
      ensures items == old(items)[idx := if found == NULL then old(items)[idx] + {Item(node, ext)} else old(items)[idx]]
      ensures found != NULL ==> Item(found, ext) in old(items)[idx]
    {
      hide Usable;
      ghost var s';
      found, s' := Plant(trees[idx], node, ext, items[idx]);
      items := items[idx := s'];
    }

    method UprootFrom(idx: nat, node: Ptr, ghost ext: Extent)
      requires TreesOk(trees, items) && idx < LCK_MODE_NUM && Item(node, ext) in items[idx]
      requires forall it :: it in items[idx] && it.p == node ==> it.ext == ext
      modifies `items, trees
      ensures TreesOk(trees, items) && |old(items)| == LCK_MODE_NUM
      ensures items == old(items)[idx := old(items)[idx] - {Item(node, ext)}]
    {
      hide Usable;
      Uproot(trees[idx], node, ext, items[idx]);
      items := items[idx := items[idx] - {Item(node, ext)}];
    }

    // The policy group of the extent was found: the lock gives up its own node for it.
    method JoinGroup(l: Id, found: Ptr)
      requires l in locks && locks[l].node in groups && groups[locks[l].node] == [l]
      requires found in groups && found != locks[l].node
      modifies `locks, `groups
      ensures l in old(locks) && found in old(groups)
      ensures locks == old(locks)[l := old(locks)[l].(node := found)]
      ensures groups == (old(groups) - {old(locks)[l].node})[found := old(groups)[found] + [l]]
    {
      var tmp := IntervalDetach(l);
      groups := groups - {tmp};
      IntervalAttach(found, l);
    }

    // ldlm_extent_add_lock: the lock joins the tree of its mode, or the group of its extent there.
    method AddLock(l: Id) returns (ghost node: Ptr)
      requires TreesOk(trees, items) && Sized(View()) && l in locks
      requires var k := locks[l];
        && k.node != NULL && k.node in groups && groups[k.node] == [l] && k.ext.start <= k.ext.end
        && (forall it :: it in items[Index(k.mode)] ==> it.p != k.node && it.p in groups)
      modifies this, trees
      ensures contentionTime == old(contentionTime)
      ensures TreesOk(trees, items) && l in old(locks) && old(locks)[l].node in old(groups) && node in old(groups)
      ensures var k := old(locks)[l]; var i := Index(k.mode);
        && (node == k.node || Item(node, k.ext) in old(items)[i])
        && locks == old(locks)[l := k.(node := node)]
        && granted == old(granted) + [l] && waiting == old(waiting)
        && groups == (if node == k.node then old(groups)
                      else (old(groups) - {k.node})[node := old(groups)[node] + [l]])
        && Sized(old(View()))
        && sizes == old(sizes)[i := old(sizes)[i] + 1] && items == old(items)[i := old(items)[i] + {Item(node, k.ext)}]
    {
      hide TreesOk, Usable;
      var own := locks[l].node;
      var idx := LockModeToIndex(locks[l].mode);
      var found := PlantIn(idx, own, locks[l].ext);
      node := own;
      if found != NULL {
        JoinGroup(l, found);
        node := found;
      }
      assert items[idx] == old(items)[idx] + {Item(node, old(locks)[l].ext)};
      assert locks == old(locks)[l := old(locks)[l].(node := node)];
      sizes := sizes[idx := sizes[idx] + 1];
      granted := granted + [l];
    }

    /** ldlm_grant_lock after the policy chose extent e: the lock leaves the waiting list, takes e, and is granted. */
    method GrantLock(x: Id, e: Extent)
      requires Valid() && Sized(View()) && x in locks && Pending(locks[x]) && Within(locks[x].req, e)
      requires Free(View(), locks[x].mode, e)
      modifies this, trees
      ensures Valid() && x in locks && locks.Keys == old(locks.Keys)
      ensures x in old(locks) && locks[x] == old(locks)[x].(granted := true, ext := e, node := locks[x].node)
      ensures forall l :: l in old(locks) && l != x ==> locks[l] == old(locks)[l]
      ensures granted == old(granted) + [x] && waiting == Without(old(waiting), x)
      ensures contentionTime == old(contentionTime)
    {
      hide Inv, TreesOk, GroupOf, Attached, Free;
      ghost var b := View();
      PendingFacts(b, x);
      Sizes(b);
      TreeNodes(b, Index(locks[x].mode));
      locks := locks[x := locks[x].(granted := true, ext := e)];
      waiting := Without(waiting, x);
      ghost var node := AddLock(x);
      assert View() == Grant(b, x, e, node);
      GrantKeepsInv(b, x, e, node);
    }

    // Undoes AddLock: the node leaves the tree with the last lock of its group.
    method UnlinkLock(x: Id)
      requires TreesOk(trees, items) && Sized(View()) && x in locks && locks[x].node in groups && locks[x].node != NULL
      requires var k := locks[x]; var i := Index(k.mode);
        && Item(k.node, k.ext) in items[i] && sizes[i] > 0
        && (forall it :: it in items[i] && it.p == k.node ==> it.ext == k.ext)
      modifies this, trees
      ensures TreesOk(trees, items) && x in old(locks) && old(locks)[x].node in old(groups)
      ensures Sized(old(View())) && old(sizes)[Index(old(locks)[x].mode)] > 0
      ensures contentionTime == old(contentionTime)
      ensures View() == Cut(old(View()), x).(locks := locks) && locks == old(locks)[x := old(locks)[x].(node := NULL)]
    {
      hide TreesOk;
      var k := locks[x];
      var idx := LockModeToIndex(k.mode);
      sizes := sizes[idx := sizes[idx] - 1];
      var node := IntervalDetach(x);
      if node != NULL {
        UprootFrom(idx, node, k.ext);
        groups := groups - {node};
        assert groups == old(groups) - {node};
      }
      granted := Without(granted, x);
    }

    /** Cancelling: a granted lock leaves its tree and the granted list, a pending one the waiting list. */
    method Cancel(x: Id)
      requires Valid() && x in locks && !locks[x].destroyed
      modifies this, trees
      ensures Valid() && CancelledFrom(old(View()), View(), x) && contentionTime == old(contentionTime)
    {
      hide Inv, TreesOk, Without;
      ghost var b := View();
      CancelFacts(b, x);
      if locks[x].granted {
        CutFacts(b, x);
        UnlinkLock(x);
        locks := locks[x := locks[x].(destroyed := true)];
        assert View() == Cut(b, x);
        CutKeepsInv(b, x);
      } else {
        waiting := Without(waiting, x);
        locks := locks[x := locks[x].(destroyed := true)];
        assert View() == Drop(b, x);
        DropKeepsInv(b, x);
      }
    }

    /** Grows the requested extent up to the next granted lock of an incompatible mode, and downwards only when no
      * such lock is granted at all; `grown` is the result before it is clipped and aligned.
      */
    method PolicyGranted(x: Id, wide: Extent)
      returns (newEx: Extent, ghost grown: Extent, ghost n: nat)
      requires Valid() && Sized(View()) && x in locks && Pending(locks[x]) && Within(locks[x].req, wide)
      requires wide.start == 0 && PageAligned(locks[x].req) && Free(View(), locks[x].mode, locks[x].req)
      ensures Sized(View()) && Grows(View(), x, wide, grown, n)
      ensures Settles(locks[x].mode, locks[x].req, grown, n, newEx)
    {
      hide Inv, Usable, Compat, ConflictStartsAt, PageAligned, FreeBelow, NoneBelow, Free, FixedUp;
      var mode, req := locks[x].mode, locks[x].req;
      ProperRequest(req);
      FreeIsBelow(View(), mode, req);
      StartLimiter(items, mode, wide);
      var limiter, conflicting, idx := wide, 0, 0;
      while idx < LCK_MODE_NUM
        invariant 0 <= idx <= LCK_MODE_NUM && Within(req, limiter) && Within(limiter, wide)
        invariant FreeBelow(items, mode, limiter, idx)
        invariant conflicting == ConflictCount(sizes, mode, idx)
        invariant limiter.start == req.start || (limiter.start == wide.start && NoneBelow(items, mode, idx))
        invariant NoneBelow(items, mode, LCK_MODE_NUM) ==> limiter.start == wide.start && conflicting == 0
        invariant limiter.end == wide.end || ConflictStartsAt(items, mode, limiter.end + 1)
      {
        if !Compat(TreeMode(idx), mode) {
          ghost var before := limiter;
          NoneHere(View(), mode, idx);
          conflicting := conflicting + sizes[idx];
          if conflicting > 4 {
            limiter := Extent(req.start, limiter.end);
          }
          FreeWithin(items, mode, before, limiter, idx);
          limiter := LimitBy(trees[idx], idx, mode, req, limiter, items);
          if limiter == req {
            break;
          }
        } else {
          FreeStep(items, mode, limiter, limiter, idx);
        }
        if limiter.start != req.start {
          NoneStep(items, mode, idx);
        }
        idx := idx + 1;
      }
      grown := limiter;
      FreeIsBelow(View(), mode, grown);
      n := conflicting;
      ghost var p;
      newEx, p := Fixup(mode, req, limiter, conflicting);
    }

    /** Shrinks a granted extent so that it keeps off every waiting lock that conflicts with it, or that comes from
      * the same client, unless the two requests themselves overlap.
      */
    method PolicyWaiting(x: Id, given: Extent)
      returns (newEx: Extent, ghost shrunk: Extent, ghost n: nat)
      requires Valid() && x in locks && Pending(locks[x]) && Within(locks[x].req, given)
      ensures x in locks && (forall l :: l in waiting ==> l in locks) && Shrinks(View(), x, given, shrunk, n)
      ensures Within(locks[x].req, newEx) && Within(newEx, given)
      ensures forall l :: l in waiting && l in locks && l != x ==> KeepsOff(locks[l], locks[x], newEx)
      ensures newEx == shrunk == locks[x].req || Settles(locks[x].mode, locks[x].req, shrunk, n, newEx)
    {
      hide Inv, TreesOk, Compat, PageAligned, KeepsOff, KeptClear, Widest, FixedUp;
      ghost var b := View();
      PendingFacts(b, x);
      WaitingFacts(b);
      var r := locks[x];
      ProperRequest(r.req);
      newEx, shrunk, n := given, given, 0;
      var conflicting, i := 0, 0;
      WidestAtFirst(locks, waiting, x, r, given);
      while i < |waiting|
        invariant 0 <= i <= |waiting| && conflicting == MatterCount(locks, waiting, i, x, r)
        invariant Widest(locks, waiting, i, x, r, given, newEx)
        invariant Within(r.req, newEx) && Within(newEx, given)
        invariant forall j :: 0 <= j < i && waiting[j] != x ==> KeepsOff(locks[waiting[j]], r, newEx)
      {
        if newEx == r.req {
          AllKeepOff(b, x);
          RequestIsWidest(locks, waiting, i, x, r, given);
          shrunk, n := newEx, conflicting;
          return;
        }
        var lock := waiting[i];
        WidestStep(locks, waiting, i, x, r, given, newEx);
        ghost var before := newEx;
        if lock != x && (!Compat(locks[lock].mode, r.mode) || locks[lock].client == r.client) {
          conflicting := conflicting + 1;
          if conflicting > 4 {
            newEx := Extent(r.req.start, newEx.end);
          }
          KeptClearShrinks(locks[lock], r, newEx);
          newEx := KeptClear(locks[lock], r, newEx);
        } else if lock != x {
          NoConflict(locks[lock], r, newEx);
        }
        forall j | 0 <= j < i && waiting[j] != x ensures KeepsOff(locks[waiting[j]], r, newEx) {
          KeepsOffWithin(locks[waiting[j]], r, before, newEx);
        }
        i := i + 1;
      }
      shrunk, n := newEx, conflicting;
      ghost var p;
      newEx, p := Fixup(r.mode, r.req, newEx, conflicting);
      forall l | l in waiting && l in locks && l != x ensures KeepsOff(locks[l], r, newEx) {
        KeepsOffWithin(locks[l], r, shrunk, newEx);
      }
    }

    // In order to determine the largest extent to grant, scans the granted and the waiting locks.
    method ExtentPolicy(x: Id) returns (e: Extent)
      requires Valid() && Sized(View()) && x in locks && Pending(locks[x]) && Free(View(), locks[x].mode, locks[x].req)
      ensures x in locks && Sized(View()) && Within(locks[x].req, e) && Free(View(), locks[x].mode, e)
      ensures forall l :: l in waiting && l in locks && l != x ==> KeepsOff(locks[l], locks[x], e)
      ensures (forall l :: l in waiting ==> l in locks) && ExtentFor(View(), x, e)
    {
      hide Inv, TreesOk, Free, PageAligned, KeepsOff, Shrinks, Settles;
      PendingFacts(View(), x);
      AllKeepOff(View(), x);
      WaitingFacts(View());
      if locks[x].client == 0 {
        return locks[x].ext;
      }
      if locks[x].ext == Extent(0, OBJECT_EOF) {
        return locks[x].ext;
      }
      ghost var grown, n, shrunk, m;
      e, grown, n := PolicyGranted(x, Extent(0, OBJECT_EOF));
      SettlesWithin(locks[x].mode, locks[x].req, grown, n, e);
      ghost var given := e;
      e, shrunk, m := PolicyWaiting(x, e);
      ChoseExtent(View(), x, grown, n, given, shrunk, m, e);
      FreeInside(View(), locks[x].mode, grown, e);
    }

    // ldlm_add_bl_work_item
    method AddBlockingWork(l: Id, rpc: seq<Id>, ghost before: map<Id, Lock>, ghost s: set<Id>) returns (rpc': seq<Id>)
      requires l in locks && locks[l].blocking && Notified(before, locks, s) && WorkListed(before, locks, rpc)
      modifies `locks
      ensures Notified(before, locks, s + {l}) && WorkListed(before, locks, rpc')
      ensures locks.Keys == old(locks.Keys) && forall k :: k in old(locks) && k != l ==> locks[k] == old(locks)[k]
    {
      rpc' := rpc;
      if !locks[l].astSent {
        locks := locks[l := locks[l].(astSent := true)];
        rpc' := [l] + rpc';
      }
    }

    // ldlm_extent_compat_cb: every lock of the group of an interval node is told.
    method CompatCallback(group: seq<Id>, rpc: seq<Id>, ghost before: map<Id, Lock>, ghost s: set<Id>)
      returns (rpc': seq<Id>, count: nat)
      requires Notified(before, locks, s) && WorkListed(before, locks, rpc)
      requires forall l :: l in group ==> l in locks
      modifies `locks
      ensures Notified(before, locks, s + Elements(group)) && WorkListed(before, locks, rpc')
      ensures count == |group|
    {
      hide Notified, WorkListed;
      rpc', count := rpc, 0;
      NotifiedKeys(before, locks, s);
      assert s + Elements(group[..0]) == s;
      while count < |group|
        invariant count <= |group| && locks.Keys == before.Keys
        invariant Notified(before, locks, s + Elements(group[..count])) && WorkListed(before, locks, rpc')
      {
        var l := group[count];
        ghost var told := s + Elements(group[..count]);
        ElementsStep(group, count);
        assert s + Elements(group[..count + 1]) == told + {l};
        count := count + 1;
        if locks[l].blocking {
          rpc' := AddBlockingWork(l, rpc', before, told);
        } else {
          NotTold(before, locks, told, l);
        }
        NotifiedKeys(before, locks, told + {l});
      }
      assert group[..count] == group;
    }

    // The conflicting locks of one tree are found and told.
    method NotifyTree(idx: nat, r: Lock, rpc: seq<Id>, contended: nat, ghost b: Book)
      returns (rpc': seq<Id>, contended': nat, any: bool)
      requires TreesOk(trees, items) && idx < LCK_MODE_NUM && groups == b.groups && items == b.items
      requires Inv(b) && Sized(b) && !Compat(r.mode, TreeMode(idx))
      requires Notified(b.locks, locks, Blockers(b, r, idx)) && WorkListed(b.locks, locks, rpc)
      requires contended == |Counting(b.locks, Blockers(b, r, idx))|
      modifies `locks
      ensures contended' == |Counting(b.locks, Blockers(b, r, idx + 1))|
      ensures any ==> Blockers(b, r, idx + 1) != {}
      ensures !any ==> Blockers(b, r, idx + 1) == Blockers(b, r, idx) && rpc' == rpc
      ensures Notified(b.locks, locks, Blockers(b, r, idx + 1)) && WorkListed(b.locks, locks, rpc')
    {
      hide Inv, Usable, ExactlyOverlapping, Notified, WorkListed, Compat;
      hide Blockers, GroupsOf, Counting, NoRepeat, Elements;
      rpc', contended' := rpc, contended;
      var nodes := Conflicts(trees[idx], r.req, items[idx]);
      any := nodes != [];
      BlockersStep(b, r, idx, nodes);
      var n := 0;
      ghost var s := Blockers(b, r, idx);
      NoGroups(groups);
      assert nodes[..0] == [] && s + {} == s;
      NotifiedKeys(b.locks, locks, s);
      while n < |nodes|
        invariant 0 <= n <= |nodes| && locks.Keys == b.locks.Keys && (n == 0 ==> rpc' == rpc)
        invariant Notified(b.locks, locks, s + GroupsOf(groups, nodes[..n])) && WorkListed(b.locks, locks, rpc')
        invariant contended' == |Counting(b.locks, s + GroupsOf(groups, nodes[..n]))|
      {
        NextGroup(b, r, idx, nodes, n);
        ghost var told := s + GroupsOf(groups, nodes[..n]);
        GroupsStep(groups, nodes, n);
        assert s + GroupsOf(groups, nodes[..n + 1]) == told + Elements(groups[nodes[n]]);
        var first := locks[groups[nodes[n]][0]].ext;
        NotifiedExt(b.locks, locks, told, groups[nodes[n]][0]);
        CountingMore(b.locks, told, groups[nodes[n]], TreeMode(idx).PR? && first == Extent(0, OBJECT_EOF));
        var count;
        rpc', count := CompatCallback(groups[nodes[n]], rpc', b.locks, told);
        if !(TreeMode(idx).PR? && first == Extent(0, OBJECT_EOF)) {
          contended' := contended' + count;
        }
        n := n + 1;
        NotifiedKeys(b.locks, locks, s + GroupsOf(groups, nodes[..n]));
      }
      assert nodes[..n] == nodes;
    }

    // One round over the interval trees.
    method CompatTree(idx: nat, r: Lock, notify: bool, compat: bool, rpc: seq<Id>, contended: nat, ghost b: Book)
      returns (compat': bool, rpc': seq<Id>, contended': nat)
      requires TreesOk(trees, items) && idx < LCK_MODE_NUM && groups == b.groups && items == b.items
      requires Inv(b) && Sized(b) && !Compat(r.mode, TreeMode(idx)) && (compat <==> Blockers(b, r, idx) == {})
      requires if notify then Notified(b.locks, locks, Blockers(b, r, idx)) else locks == b.locks && compat
      requires WorkListed(b.locks, locks, rpc) && (compat ==> rpc == [])
      requires notify ==> contended == |Counting(b.locks, Blockers(b, r, idx))|
      modifies `locks
      ensures notify ==> contended' == |Counting(b.locks, Blockers(b, r, idx + 1))|
      ensures compat' <==> Blockers(b, r, idx + 1) == {}
      ensures if notify then Notified(b.locks, locks, Blockers(b, r, idx + 1)) else locks == b.locks
      ensures WorkListed(b.locks, locks, rpc') && (compat' ==> rpc' == [])
    {
      hide Inv, Usable, ExactlyOverlapping, Notified, WorkListed, Compat, Blockers;
      compat', rpc', contended' := compat, rpc, contended;
      if trees[idx].root == NULL {
        EmptyTreeItems(trees[idx], items[idx]);
        NothingOverlaps(r.req);
        BlockersStep(b, r, idx, []);
        NoGroups(groups);
        assert Blockers(b, r, idx) + {} == Blockers(b, r, idx);
      } else if !notify {
        var has := Probe(trees[idx], r.req, items[idx]);
        BlockersProbe(b, r, idx, has);
        compat' := !has;
      } else {
        var any;
        rpc', contended', any := NotifyTree(idx, r, rpc, contended, b);
        BlockersGrow(b, r, idx);
        compat' := compat && !any;
      }
    }

    /** ldlm_extent_compat_queue on the granted list.  With `notify` (a work list) every lock in the way is told;
      * without it the first one found ends the search.
      */
    method CompatGranted(x: Id, notify: bool, ghost b: Book) returns (compat: bool, rpc: seq<Id>, contended: nat)
      requires TreesOk(trees, items) && Inv(b) && Sized(b) && x in locks && View() == b
      modifies `locks
      ensures x in b.locks && (compat <==> Free(b, b.locks[x].mode, b.locks[x].req))
      ensures if notify then Notified(b.locks, locks, Blockers(b, b.locks[x], LCK_MODE_NUM)) else locks == b.locks
      ensures WorkListed(b.locks, locks, rpc) && (compat ==> rpc == [])
      ensures notify ==> contended == |Counting(b.locks, Blockers(b, b.locks[x], LCK_MODE_NUM))|
    {
      hide Inv, TreesOk, Usable, ExactlyOverlapping, Notified, WorkListed, Compat, Blockers, Free, Counting;
      var r := locks[x];
      rpc, contended, compat := [], 0, true;
      NoBlockers(b, r);
      NobodyTold(locks);
      NobodyCounts(locks);
      var idx := 0;
      while idx < LCK_MODE_NUM
        invariant notify ==> contended == |Counting(b.locks, Blockers(b, r, idx))|
        invariant 0 <= idx <= LCK_MODE_NUM && (compat <==> Blockers(b, r, idx) == {})
        invariant if notify then Notified(b.locks, locks, Blockers(b, r, idx)) else locks == b.locks && compat
        invariant WorkListed(b.locks, locks, rpc) && (compat ==> rpc == [])
      {
        if Compat(r.mode, TreeMode(idx)) {
          BlockersSkip(b, r, idx);
        } else {
          compat, rpc, contended := CompatTree(idx, r, notify, compat, rpc, contended, b);
          if !notify && !compat {
            BlockersGrow(b, r, idx + 1);
            return;
          }
        }
        idx := idx + 1;
      }
    }

    // A waiting lock in the way of r is told; it counts as contention when it is no whole-file read lock and the two
    // requests really overlap.
    method TellWaiting(lock: Id, r: Lock, rpc: seq<Id>, contended: nat, ghost before: map<Id, Lock>,
                       ghost told: set<Id>)
      returns (rpc': seq<Id>, contended': nat)
      requires lock in locks && Notified(before, locks, told) && WorkListed(before, locks, rpc)
      modifies `locks
      ensures lock in old(locks) && contended' == contended + if Contends(old(locks)[lock], r) then 1 else 0
      ensures Notified(before, locks, told + {lock}) && WorkListed(before, locks, rpc')
      ensures locks.Keys == old(locks.Keys) && forall l :: l in old(locks) && l != lock ==> locks[l] == old(locks)[l]
    {
      hide Notified, WorkListed;
      var k := locks[lock];
      rpc', contended' := rpc, contended;
      var check := Overlap(k.req, r.req);
      if k.mode.PR? && k.ext == Extent(0, OBJECT_EOF) {
        check := false;
      }
      if check {
        contended' := contended' + 1;
      }
      if k.blocking {
        rpc' := AddBlockingWork(lock, rpc', before, told);
      } else {
        NotTold(before, locks, told, lock);
      }
    }

    /** ldlm_extent_compat_queue on the waiting list: x must not overtake a lock that is in its way.  `ended` says
      * that the scan came to its natural end, so that contention is to be checked.
      */
    method CompatWaiting(x: Id, notify: bool, rpc: seq<Id>, contended: nat, ghost before: map<Id, Lock>,
                         ghost s: set<Id>)
      returns (compat: bool, rpc': seq<Id>, contended': nat, ended: bool)
      requires x in locks && NoRepeat(waiting) && (forall l :: l in waiting ==> l in locks)
      requires Notified(before, locks, s) && WorkListed(before, locks, rpc)
      modifies `locks
      ensures x in old(locks) && forall l :: l in waiting ==> l in old(locks)
      ensures var stop := ScanStop(old(locks), waiting, x, 0); var ahead := Ahead(old(locks), waiting, x, stop);
        && (compat <==> ahead == {})
        && (if notify then Notified(before, locks, s + ahead) else locks == old(locks))
      ensures WorkListed(before, locks, rpc') && (compat ==> rpc' == rpc)
      ensures notify ==> var stop := ScanStop(old(locks), waiting, x, 0);
        contended' == contended + ContendCount(old(locks), waiting, x, stop) && (ended <==> ScansOn(waiting, x, stop))
    {
      hide Notified, WorkListed, Ahead, Compat, Contends;
      var r := locks[x];
      ghost var entry := locks;
      compat, rpc', contended', ended := true, rpc, contended, true;
      var i := 0;
      NothingAhead(entry, waiting, x);
      assert s + {} == s;
      while i < |waiting|
        invariant 0 <= i <= |waiting| && locks.Keys == entry.Keys
        invariant ScanStop(entry, waiting, x, 0) == ScanStop(entry, waiting, x, i)
        invariant forall j :: i <= j < |waiting| ==> locks[waiting[j]] == entry[waiting[j]]
        invariant compat <==> Ahead(entry, waiting, x, i) == {}
        invariant if notify then Notified(before, locks, s + Ahead(entry, waiting, x, i)) else locks == entry && compat
        invariant WorkListed(before, locks, rpc') && (compat ==> rpc' == rpc)
        invariant ended && (notify ==> contended' == contended + ContendCount(entry, waiting, x, i))
      {
        var lock := waiting[i];
        if lock == x {
          break;
        }
        AheadStep(entry, waiting, x, i);
        CompatSymmetric(locks[lock].mode, r.mode);
        if Compat(locks[lock].mode, r.mode) {
          if r.mode.PR? && Within(r.ext, locks[lock].ext) && !locks[lock].astSent {
            ended := false;
            return;
          }
        } else if Overlap(locks[lock].ext, r.req) {
          if !notify {
            compat, ended := false, false;
            AheadGrows(entry, waiting, x, i + 1, ScanStop(entry, waiting, x, 0));
            return;
          }
          compat := false;
          rpc', contended' := TellWaiting(lock, r, rpc', contended', before, s + Ahead(entry, waiting, x, i));
          assert s + Ahead(entry, waiting, x, i) + {lock} == s + Ahead(entry, waiting, x, i + 1);
        }
        i := i + 1;
      }
    }

    // discard_bl_list: the flags that this attempt has set are cleared again.
    method DiscardWork(rpc: seq<Id>, ghost before: map<Id, Lock>, ghost s: set<Id>)
      requires Notified(before, locks, s) && WorkListed(before, locks, rpc)
      modifies `locks
      ensures locks == before
    {
      var i := 0;
      while i < |rpc|
        invariant 0 <= i <= |rpc| && locks.Keys == before.Keys
        invariant forall l :: l in before ==>
          locks[l] == before[l]
          || (l in rpc[i..] && locks[l] == before[l].(astSent := locks[l].astSent) && !before[l].astSent)
      {
        assert forall l :: l in rpc[i..] <==> l == rpc[i] || l in rpc[i + 1..];
        locks := locks[rpc[i] := locks[rpc[i]].(astSent := false)];
        i := i + 1;
      }
    }

    // A resource on which many locks conflict is contended for a while; small requests that agreed to it are denied.
    method CheckDeny(x: Id, compat: bool, contended: nat, denyOnContention: bool, now: int) returns (deny: bool)
      requires x in locks
      modifies `contentionTime
      ensures contentionTime == if contended > limits.contendedLocks then now else old(contentionTime)
      ensures deny <==>
        !compat && Deniable(limits, locks[x], denyOnContention) && now < contentionTime + limits.contentionTime
    {
      if contended > limits.contendedLocks {
        contentionTime := now;
      }
      deny := now < contentionTime + limits.contentionTime && !compat && denyOnContention
        && locks[x].req.end - locks[x].req.start <= limits.maxNolockSize;
    }

    // The lock is taken off its list and destroyed, and the locks that were told on its behalf are as before.
    method Deny(x: Id, rpc: seq<Id>, ghost b: Book, ghost s: set<Id>)
      requires TreesOk(trees, items) && Inv(b) && x in b.locks && Pending(b.locks[x]) && View() == b.(locks := locks)
      requires Notified(b.locks, locks, s) && WorkListed(b.locks, locks, rpc)
      modifies this
      ensures Valid() && View() == Drop(b, x) && contentionTime == old(contentionTime)
    {
      hide Inv, TreesOk, Notified, WorkListed;
      DiscardWork(rpc, b.locks, s);
      waiting := Without(waiting, x);
      locks := locks[x := locks[x].(destroyed := true)];
      DropKeepsInv(b, x);
    }

    // The end of a successful attempt: the extent is chosen, and the lock is granted.
    method ChooseAndGrant(x: Id)
      requires Valid() && Sized(View()) && x in locks && Pending(locks[x]) && Free(View(), locks[x].mode, locks[x].req)
      modifies this, trees
      ensures Valid() && GrantedTo(old(View()), View(), x) && contentionTime == old(contentionTime)
    {
      hide Inv, TreesOk, Free, KeepsOff, ExtentFor;
      var e := ExtentPolicy(x);
      GrantLock(x, e);
    }

    // The granted locks are scanned for x, and all in its way are told.
    method ScanGranted(x: Id, denyOnContention: bool, now: int, ghost b: Book)
      returns (compat: bool, rpc: seq<Id>, contended: nat, deny: bool)
      requires Valid() && x in locks && Pending(locks[x]) && View() == b
      modifies `locks, `contentionTime
      ensures Sized(b) && TreesOk(trees, items) && x in b.locks
      ensures (compat <==> Blockers(b, b.locks[x], LCK_MODE_NUM) == {})
      ensures Notified(b.locks, locks, Blockers(b, b.locks[x], LCK_MODE_NUM)) && WorkListed(b.locks, locks, rpc)
      ensures compat ==> rpc == [] && Free(b, b.locks[x].mode, b.locks[x].req)
      ensures contended == |Counting(b.locks, Blockers(b, b.locks[x], LCK_MODE_NUM))|
      ensures contentionTime == GrantedClock(limits, b, x, old(contentionTime), now)
      ensures deny <==> DeniedFirst(limits, b, x, denyOnContention, old(contentionTime), now)
    {
      hide Inv, TreesOk, Notified, WorkListed, Free, Blockers, Counting;
      Sizes(b);
      NoBlockers(b, locks[x]);
      compat, rpc, contended := CompatGranted(x, true, b);
      StillPending(b.locks, locks, Blockers(b, b.locks[x], LCK_MODE_NUM), x);
      deny := CheckDeny(x, compat, contended, denyOnContention, now);
    }

    // Then the waiting locks ahead of x are.
    method ScanWaiting(x: Id, denyOnContention: bool, now: int, rpc: seq<Id>, contended: nat, ghost b: Book)
      returns (compat: bool, rpc': seq<Id>, deny: bool)
      requires Inv(b) && x in b.locks && Pending(b.locks[x]) && View() == b.(locks := locks)
      requires Notified(b.locks, locks, Blockers(b, b.locks[x], LCK_MODE_NUM)) && WorkListed(b.locks, locks, rpc)
      requires contended == |Counting(b.locks, Blockers(b, b.locks[x], LCK_MODE_NUM))|
      modifies `locks, `contentionTime
      ensures var stop := ScanStop(b.locks, b.waiting, x, 0);
        && (compat <==> Ahead(b.locks, b.waiting, x, stop) == {})
        && var total := contended + ContendCount(b.locks, b.waiting, x, stop);
        && contentionTime == (if ScansOn(b.waiting, x, stop) && total > limits.contendedLocks then now
                              else old(contentionTime))
        && (deny <==> !compat && Deniable(limits, b.locks[x], denyOnContention) && ScansOn(b.waiting, x, stop)
                      && now < contentionTime + limits.contentionTime)
      ensures Notified(b.locks, locks, Obstacles(b, x)) && WorkListed(b.locks, locks, rpc') && (compat ==> rpc' == rpc)
      ensures x in locks && Pending(locks[x])
    {
      hide Inv, Notified, WorkListed, Ahead, Blockers, ScanStop, Counting, ContendCount, ScansOn;
      ghost var told := Blockers(b, b.locks[x], LCK_MODE_NUM);
      ScanAfterTelling(b, locks, x, LCK_MODE_NUM);
      UntoldWaiting(b, locks, told);
      var total, ended;
      compat, rpc', total, ended := CompatWaiting(x, true, rpc, contended, b.locks, told);
      StillPending(b.locks, locks, Obstacles(b, x), x);
      deny := false;
      if ended {
        deny := CheckDeny(x, compat, total, denyOnContention, now);
      }
    }

    /** One attempt of ldlm_process_extent_lock to grant a lock that is being enqueued.  A lock that has to wait is on
      * the waiting list afterwards, and every lock in its way has been told; `rpc` are those told for the first time.
      */
    method Enqueue(x: Id, denyOnContention: bool, now: int) returns (outcome: Outcome, rpc: seq<Id>)
      requires Valid() && x in locks && Pending(locks[x])
      modifies this, trees
      ensures Valid()
      ensures contentionTime == ClockAfter(limits, old(View()), x, denyOnContention, old(contentionTime), now)
      ensures outcome.Granted? ==> GrantedTo(old(View()), View(), x) && Obstacles(old(View()), x) == {}
      ensures outcome.Blocked? ==> BlockedBy(old(View()), View(), x) && WorkListed(old(locks), locks, rpc)
      ensures outcome.Denied? ==> View() == Drop(old(View()), x) && Obstacles(old(View()), x) != {}
      ensures outcome.Denied? <==> MustDeny(limits, old(View()), x, denyOnContention, old(contentionTime), now)
    {
      hide Inv, TreesOk, Notified, WorkListed, Free, Ahead, Blockers, ScanStop, Drop, Counting, ContendCount, ScansOn;
      hide GrantedClock, Deniable;
      ghost var b := View();
      var compat, compat2, contended, deny;
      compat, rpc, contended, deny := ScanGranted(x, denyOnContention, now, b);
      if deny {
        Deny(x, rpc, b, Blockers(b, b.locks[x], LCK_MODE_NUM));
        return Denied, [];
      }
      compat2, rpc, deny := ScanWaiting(x, denyOnContention, now, rpc, contended, b);
      if deny {
        Deny(x, rpc, b, Obstacles(b, x));
        return Denied, [];
      }
      if compat && compat2 {
        NobodyNew(b.locks, locks, Obstacles(b, x));
        ChooseAndGrant(x);
        return Granted, [];
      }
      outcome := Blocked;
      NotifiedKeepsInv(b, View(), Obstacles(b, x));
      if x !in waiting {
        EnlistKeepsInv(View(), x);
        waiting := waiting + [x];
      }
    }

    /** ldlm_process_extent_lock for a lock that already waits: it is granted when nobody is in its way any more. */
    method Reprocess(x: Id) returns (granted': bool)
      requires Valid() && x in waiting
      modifies this, trees
      ensures Valid() && contentionTime == old(contentionTime) && x in old(locks)
      ensures granted' <==> Obstacles(old(View()), x) == {}
      ensures if granted' then GrantedTo(old(View()), View(), x) else View() == old(View())
    {
      hide Inv, TreesOk, Notified, WorkListed, Free, Ahead, Blockers, ScanStop;
      ghost var b := View();
      Sizes(b);
      WaitingFacts(b);
      NoBlockers(b, locks[x]);
      NobodyTold(b.locks);
      UntoldWaiting(b, b.locks, {});
      var rpc, contended, ended;
      granted', rpc, contended := CompatGranted(x, false, b);
      if granted' {
        granted', rpc, contended, ended := CompatWaiting(x, false, rpc, contended, b.locks, {});
      }
      if granted' {
        ChooseAndGrant(x);
      }
    }

    // What happens once the blocking callbacks have run with the resource unlocked: other steps may have come between.
    method AfterCallbacks(x: Id, restart: bool, denyOnContention: bool, now: int) returns (reply: Reply, rpc: seq<Id>)
      requires Valid() && x in locks
      modifies this, trees
      ensures Valid()
      ensures reply.Restarted? <==> restart && Pending(old(locks)[x])
      ensures !reply.Restarted? ==> Standing() == old(Standing())
      ensures !reply.Restarted? ==>
        reply == if !restart then Waits else if old(locks)[x].destroyed then Again else Held
      ensures reply.Restarted? ==> Attempted(limits, old(Standing()), Standing(), x, denyOnContention, now)
      ensures reply.Restarted? && reply.outcome.Blocked? ==>
        BlockedBy(old(View()), View(), x) && WorkListed(old(locks), locks, rpc)
      ensures reply.Restarted? ==>
        (reply.outcome.Denied? <==> MustDeny(limits, old(View()), x, denyOnContention, old(contentionTime), now))
    {
      rpc := [];
      if !restart {
        return Waits, [];
      }
      if locks[x].destroyed {
        return Again, [];
      }
      if locks[x].granted {
        return Held, [];
      }
      var outcome;
      outcome, rpc := Enqueue(x, denyOnContention, now);
      reply := Restarted(outcome);
    }

    // A new lock comes with an interval node of its own attached.
    method NewLock(x: Id, mode: Mode, req: Extent, client: nat, blocking: bool, node: Ptr)
      requires Valid() && x !in locks && PageAligned(req) && node != NULL && node !in groups
      modifies this
      ensures Valid() && contentionTime == old(contentionTime)
      ensures View() == Arriving(old(View()), x, mode, req, client, blocking, node)
    {
      hide Inv, TreesOk, PageAligned;
      var k := Lock(mode, false, req, req, node, client, blocking, false, false);
      CreateKeepsInv(View(), x, k);
      locks, groups := locks[x := k], groups[node := [x]];
    }

    // A step whose caller's conditions do not hold does not happen.
    method Take(step: Step)
      requires Valid()
      modifies this, trees
      ensures Valid() && Follows(limits, step, old(Standing()), Standing())
    {
      hide Inv, TreesOk, GrantedTo, CancelledFrom, Drop, Obstacles;
      hide PageAligned, Notified, WorkListed, MustDeny, ClockAfter;
      match step
      case Arrive(x, mode, req, client, blocking, node) =>
        if x !in locks && PageAligned(req) && node != NULL && node !in groups {
          NewLock(x, mode, req, client, blocking, node);
        }
      case Try(x, deny, now) =>
        if x in locks && Pending(locks[x]) {
          var outcome, rpc := Enqueue(x, deny, now);
        }
      case Resume(x, restart, deny, now) =>
        if x in locks {
          var reply, rpc := AfterCallbacks(x, restart, deny, now);
        }
      case Recheck(x) =>
        if x in waiting {
          var granted' := Reprocess(x);
        }
      case Release(x) =>
        if x in locks && !locks[x].destroyed {
          Cancel(x);
        }
    }

    /** Whatever the order in which locks arrive, are tried, retried, reprocessed and cancelled: every state of the run
      * comes from the one before by the step taken, and in no state does the holder of a granted lock need on some byte
      * what another holder of that byte does not allow.
      */
    method Run(steps: seq<Step>) returns (ghost trace: seq<Standing>)
      requires Valid()
      modifies this, trees
      ensures Valid() && |trace| == |steps| + 1 && trace[0] == old(Standing()) && trace[|steps|] == Standing()
      ensures forall i :: 0 <= i < |trace| ==> Inv(trace[i].book) && SafeBytes(trace[i].book)
      ensures forall i :: 0 <= i < |steps| ==> Follows(limits, steps[i], trace[i], trace[i + 1])
    {
      hide Inv, TreesOk, Follows, SafeBytes, Safe;
      trace := [Standing()];
      InvIsSafe(View());
      for n := 0 to |steps|
        invariant Valid() && |trace| == n + 1 && trace[0] == old(Standing()) && trace[n] == Standing()
        invariant forall i :: 0 <= i < |trace| ==> Inv(trace[i].book) && SafeBytes(trace[i].book)
        invariant forall i :: 0 <= i < n ==> Follows(limits, steps[i], trace[i], trace[i + 1])
      {
        Take(steps[n]);
        InvIsSafe(View());
        trace := trace + [Standing()];
      }
    }
  }
}
