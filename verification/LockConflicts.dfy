/** Who stands in the way of a requested lock, and who has been told so. */
module LockConflicts {
  import opened Words
  import opened Shapes
  import opened LockModes
  import opened Alignment
  import opened Lists
  import opened LockBook
  import opened LockTrees

  // ---------- Conflicts with granted and with waiting locks ----------

  // Granted lock k is in the way of request r.
  ghost predicate InTheWay(k: Lock, r: Lock) { !Compat(r.mode, k.mode) && Overlap(k.ext, r.req) }

  ghost function Elements(s: seq<Id>): set<Id> { set l | l in s }

  lemma ElementsStep(s: seq<Id>, n: nat)
    requires n < |s|
    ensures Elements(s[..n + 1]) == Elements(s[..n]) + {s[n]}
  {
  }

  // The granted locks of the first n modes that are in the way of r.
  ghost function Blockers(b: Book, r: Lock, n: nat): set<Id> {
    set l | l in b.granted && l in b.locks && Index(b.locks[l].mode) < n && InTheWay(b.locks[l], r)
  }

  // The locks attached to the given nodes.
  ghost function GroupsOf(groups: map<Ptr, seq<Id>>, nodes: seq<Ptr>): set<Id> {
    set q, l | q in nodes && q in groups && l in groups[q] :: l
  }

  lemma GroupsStep(groups: map<Ptr, seq<Id>>, nodes: seq<Ptr>, n: nat)
    requires n < |nodes| && nodes[n] in groups
    ensures GroupsOf(groups, nodes[..n + 1]) == GroupsOf(groups, nodes[..n]) + Elements(groups[nodes[n]])
  {
    assert nodes[..n + 1] == nodes[..n] + [nodes[n]];
  }

  // The groups of the nodes that a search of tree n finds hold the locks of that mode that are in the way.
  lemma BlockersStep(b: Book, r: Lock, n: nat, visited: seq<Ptr>)
    requires Inv(b) && n < |b.items| && Sized(b) && !Compat(r.mode, TreeMode(n))
    requires ExactlyOverlapping(visited, b.items[n], r.req)
    ensures Blockers(b, r, n + 1) == Blockers(b, r, n) + GroupsOf(b.groups, visited)
    ensures visited != [] ==> Blockers(b, r, n + 1) != {}
    ensures forall q :: q in visited ==> q in b.groups
  {
    hide Inv;
    forall q | q in visited ensures q in b.groups && b.groups[q] != [] {
      var it :| it in b.items[n] && it.p == q && Overlap(it.ext, r.req);
      GroupedFact(b, n, it);
    }
    forall l | l in b.granted && l in b.locks && Index(b.locks[l].mode) == n && Overlap(b.locks[l].ext, r.req)
      ensures l in GroupsOf(b.groups, visited)
    {
      GrantedFacts(b, l);
    }
    forall l | l in GroupsOf(b.groups, visited) ensures l in Blockers(b, r, n + 1) {
      var q :| q in visited && q in b.groups && l in b.groups[q];
      var it :| it in b.items[n] && it.p == q && Overlap(it.ext, r.req);
      GroupedFact(b, n, it);
    }
    if visited != [] {
      var q := visited[0];
      assert q in visited && b.groups[q][0] in b.groups[q];
      assert b.groups[q][0] in GroupsOf(b.groups, visited);
    }
  }

  // Whole-file read locks, as glimpses take them, do not count as contention.
  ghost predicate Glimpse(k: Lock) { k.mode.PR? && k.ext == Extent(0, OBJECT_EOF) }

  ghost function Counting(locks: map<Id, Lock>, s: set<Id>): set<Id> {
    set l | l in s && l in locks && !Glimpse(locks[l])
  }

  lemma CountingMore(locks: map<Id, Lock>, s: set<Id>, group: seq<Id>, glimpse: bool)
    requires NoRepeat(group) && (forall l :: l in group ==> l in locks && l !in s && Glimpse(locks[l]) == glimpse)
    ensures |Counting(locks, s + Elements(group))| == |Counting(locks, s)| + if glimpse then 0 else |group|
  {
    ElementsCount(group);
    assert Counting(locks, s + Elements(group)) == Counting(locks, s) + (if glimpse then {} else Elements(group));
    assert Counting(locks, s) !! Elements(group);
  }

  lemma NobodyCounts(locks: map<Id, Lock>)
    ensures |Counting(locks, {})| == 0
  {
    assert Counting(locks, {}) == {};
  }

  lemma {:induction false} ElementsCount(group: seq<Id>)
    requires NoRepeat(group)
    ensures |Elements(group)| == |group|
  {
    if group == [] {
      assert Elements(group) == {};
    } else {
      var n := |group| - 1;
      ElementsCount(group[..n]);
      ElementsStep(group, n);
      assert group[..n + 1] == group;
    }
  }

  // The group of the next node found is new to what was told so far, and is all of one extent.
  lemma NextGroup(b: Book, r: Lock, n: nat, nodes: seq<Ptr>, i: nat)
    requires Inv(b) && n < |b.items| && Sized(b) && ExactlyOverlapping(nodes, b.items[n], r.req) && NoRepeat(nodes)
    requires i < |nodes|
    ensures nodes[i] in b.groups && b.groups[nodes[i]] != [] && NoRepeat(b.groups[nodes[i]])
    ensures var group := b.groups[nodes[i]];
      && group[0] in b.locks
      && (forall l :: l in group ==>
            l in b.locks && b.locks[l].mode == TreeMode(n) && b.locks[l].ext == b.locks[group[0]].ext)
      && forall l :: l in group ==> l !in Blockers(b, r, n) + GroupsOf(b.groups, nodes[..i])
  {
    hide Inv, NoRepeat;
    var q := nodes[i];
    assert q in nodes;
    var it :| it in b.items[n] && it.p == q && Overlap(it.ext, r.req);
    GroupedFact(b, n, it);
    var group := b.groups[q];
    FirstIn(group);
    forall l | l in group ensures l !in GroupsOf(b.groups, nodes[..i]) {
      forall j | 0 <= j < i && nodes[j] in b.groups ensures l !in b.groups[nodes[j]] {
        assert nodes[j] in nodes;
        var jt :| jt in b.items[n] && jt.p == nodes[j] && Overlap(jt.ext, r.req);
        GroupedFact(b, n, jt);
        EarlierNode(nodes, j, i);
      }
    }
  }

  lemma EarlierNode(nodes: seq<Ptr>, j: nat, i: nat)
    requires NoRepeat(nodes) && j < i < |nodes|
    ensures nodes[j] != nodes[i]
  {
  }

  // Of the locks in s, those that want to be told are told; nothing else changes.
  ghost predicate Notified(before: map<Id, Lock>, after: map<Id, Lock>, s: set<Id>) {
    && after.Keys == before.Keys
    && forall l {:trigger after[l]} :: l in before && l in after ==>
      after[l] == before[l].(astSent := before[l].astSent || (l in s && before[l].blocking))
  }

  // The work list holds exactly the locks that were told for the first time, each once.
  ghost predicate WorkListed(before: map<Id, Lock>, after: map<Id, Lock>, rpc: seq<Id>) {
    && after.Keys == before.Keys && NoRepeat(rpc)
    && forall l :: l in rpc <==> l in before && l in after && !before[l].astSent && after[l].astSent
  }

  lemma NotifiedKeys(before: map<Id, Lock>, after: map<Id, Lock>, s: set<Id>)
    requires Notified(before, after, s)
    ensures after.Keys == before.Keys
  {
  }

  lemma NotifiedExt(before: map<Id, Lock>, after: map<Id, Lock>, s: set<Id>, l: Id)
    requires Notified(before, after, s) && l in before
    ensures l in after && after[l].ext == before[l].ext && after[l].mode == before[l].mode
    ensures after[l].req == before[l].req
  {
  }

  lemma NotTold(before: map<Id, Lock>, after: map<Id, Lock>, s: set<Id>, l: Id)
    requires Notified(before, after, s) && l in after && !after[l].blocking
    ensures Notified(before, after, s + {l})
  {
  }

  lemma BlockersSkip(b: Book, r: Lock, n: nat)
    requires n < LCK_MODE_NUM && Compat(r.mode, TreeMode(n))
    ensures Blockers(b, r, n + 1) == Blockers(b, r, n)
  {
    assert forall k: Lock :: Index(k.mode) == n ==> k.mode == TreeMode(n);
  }

  lemma NoBlockers(b: Book, r: Lock)
    requires Inv(b) && Sized(b)
    ensures Blockers(b, r, 0) == {}
    ensures Blockers(b, r, LCK_MODE_NUM) == {} <==> Free(b, r.mode, r.req)
  {
    hide Inv;
    if Free(b, r.mode, r.req) {
      forall l | l in b.granted && l in b.locks ensures !InTheWay(b.locks[l], r) {
        GrantedFacts(b, l);
        CompatSymmetric(b.locks[l].mode, r.mode);
      }
    } else {
      var i, it :| 0 <= i < |b.items| && it in b.items[i] && Overlap(it.ext, r.req) && !Compat(TreeMode(i), r.mode);
      GroupedFact(b, i, it);
      assert b.groups[it.p][0] in b.groups[it.p];
      CompatSymmetric(TreeMode(i), r.mode);
      assert b.groups[it.p][0] in Blockers(b, r, LCK_MODE_NUM);
    }
  }

  lemma BlockersGrow(b: Book, r: Lock, n: nat)
    ensures Blockers(b, r, n) <= Blockers(b, r, n + 1)
    ensures Blockers(b, r, n) != {} && n <= LCK_MODE_NUM ==> Blockers(b, r, LCK_MODE_NUM) != {}
  {
    if Blockers(b, r, n) != {} && n <= LCK_MODE_NUM {
      var l :| l in Blockers(b, r, n);
      assert l in Blockers(b, r, LCK_MODE_NUM);
    }
  }

  lemma BlockersProbe(b: Book, r: Lock, n: nat, has: bool)
    requires Inv(b) && n < |b.items| && Sized(b) && !Compat(r.mode, TreeMode(n)) && Blockers(b, r, n) == {}
    requires has <==> exists it :: it in b.items[n] && Overlap(it.ext, r.req)
    ensures has <==> Blockers(b, r, n + 1) != {}
  {
    hide Inv;
    if has {
      var it :| it in b.items[n] && Overlap(it.ext, r.req);
      GroupedFact(b, n, it);
      assert b.groups[it.p][0] in b.groups[it.p];
      assert b.groups[it.p][0] in Blockers(b, r, n + 1);
    } else {
      forall l | l in b.granted ensures l !in Blockers(b, r, n + 1) {
        GrantedFacts(b, l);
        assert l !in Blockers(b, r, n);
      }
    }
  }

  lemma NothingOverlaps(req: Extent)
    ensures ExactlyOverlapping([], {}, req)
  {
  }

  lemma NoGroups(groups: map<Ptr, seq<Id>>)
    ensures GroupsOf(groups, []) == {}
  {
  }

  lemma NobodyTold(locks: map<Id, Lock>)
    ensures Notified(locks, locks, {}) && WorkListed(locks, locks, [])
  {
  }

  // A compatible lock that covers a PR request and was not asked to give way ends the scan of the waiting list.
  ghost predicate Shortcut(k: Lock, r: Lock) {
    Compat(k.mode, r.mode) && r.mode.PR? && Within(r.ext, k.ext) && !k.astSent
  }

  // How far the scan of the waiting list for x goes: up to x itself or to a shortcut.
  ghost function ScanStop(locks: map<Id, Lock>, waiting: seq<Id>, x: Id, from: nat): (stop: nat)
    requires from <= |waiting| && x in locks && forall l :: l in waiting ==> l in locks
    ensures from <= stop <= |waiting|
    decreases |waiting| - from
  {
    if from == |waiting| || waiting[from] == x || Shortcut(locks[waiting[from]], locks[x]) then from
    else ScanStop(locks, waiting, x, from + 1)
  }

  // The waiting locks that are in the way of x and ahead of it, of the first n.
  ghost function Ahead(locks: map<Id, Lock>, waiting: seq<Id>, x: Id, n: nat): set<Id>
    requires n <= |waiting| && x in locks && forall l :: l in waiting ==> l in locks
  {
    set i | 0 <= i < n && InTheWay(locks[waiting[i]], locks[x]) :: waiting[i]
  }

  lemma AheadStep(locks: map<Id, Lock>, waiting: seq<Id>, x: Id, n: nat)
    requires n < |waiting| && x in locks && forall l :: l in waiting ==> l in locks
    ensures Ahead(locks, waiting, x, n + 1) ==
      if InTheWay(locks[waiting[n]], locks[x]) then Ahead(locks, waiting, x, n) + {waiting[n]}
      else Ahead(locks, waiting, x, n)
  {
  }

  lemma {:induction false} AheadGrows(locks: map<Id, Lock>, waiting: seq<Id>, x: Id, n: nat, n': nat)
    requires n <= n' <= |waiting| && x in locks && forall l :: l in waiting ==> l in locks
    ensures Ahead(locks, waiting, x, n) <= Ahead(locks, waiting, x, n')
  {
  }

  // A waiting lock in the way counts as contention when the requests themselves overlap.
  ghost predicate Contends(k: Lock, r: Lock) { Overlap(k.req, r.req) && !Glimpse(k) }

  ghost function ContendCount(locks: map<Id, Lock>, waiting: seq<Id>, x: Id, n: nat): nat
    requires n <= |waiting| && x in locks && forall l :: l in waiting ==> l in locks
  {
    if n == 0 then 0
    else
      var k := locks[waiting[n - 1]];
      ContendCount(locks, waiting, x, n - 1) + if InTheWay(k, locks[x]) && Contends(k, locks[x]) then 1 else 0
  }

  // The scan for x was not cut short by a lock that covers it.
  ghost predicate ScansOn(waiting: seq<Id>, x: Id, stop: nat)
    requires stop <= |waiting|
  {
    stop == |waiting| || waiting[stop] == x
  }

  lemma {:induction false} SameCount(before: map<Id, Lock>, after: map<Id, Lock>, waiting: seq<Id>, x: Id, n: nat)
    requires n <= |waiting| && x in before && x in after && after[x] == before[x]
    requires forall l :: l in waiting ==> l in before && l in after && after[l] == before[l]
    ensures ContendCount(after, waiting, x, n) == ContendCount(before, waiting, x, n)
  {
    if n > 0 {
      SameCount(before, after, waiting, x, n - 1);
    }
  }

  lemma NothingAhead(locks: map<Id, Lock>, waiting: seq<Id>, x: Id)
    requires x in locks && forall l :: l in waiting ==> l in locks
    ensures Ahead(locks, waiting, x, 0) == {}
  {
  }

  lemma NotifiedKeepsInv(b: Book, b': Book, s: set<Id>)
    requires Inv(b) && Notified(b.locks, b'.locks, s) && b' == b.(locks := b'.locks)
    ensures Inv(b')
  {
    KeptGrantedInv(b, b');
  }

  lemma StillPending(before: map<Id, Lock>, after: map<Id, Lock>, s: set<Id>, x: Id)
    requires x in before && Pending(before[x]) && Notified(before, after, s)
    ensures x in after && Pending(after[x]) && after[x].req == before[x].req
  {
  }

  lemma NobodyNew(before: map<Id, Lock>, after: map<Id, Lock>, s: set<Id>)
    requires Notified(before, after, s) && WorkListed(before, after, [])
    ensures after == before
  {
    assert forall l :: l in before && !before[l].astSent && after[l].astSent ==> l in [];
  }

  lemma UntoldWaiting(b: Book, locks: map<Id, Lock>, s: set<Id>)
    requires Inv(b) && Notified(b.locks, locks, s)
    ensures NoRepeat(b.waiting) && forall l :: l in b.waiting ==> l in locks && l in b.locks
  {
  }

  lemma {:induction false} SameScan(before: map<Id, Lock>, after: map<Id, Lock>, waiting: seq<Id>, x: Id, n: nat)
    requires n <= |waiting| && x in before && x in after && after[x] == before[x]
    requires forall l :: l in waiting ==> l in before && l in after && after[l] == before[l]
    ensures ScanStop(after, waiting, x, n) == ScanStop(before, waiting, x, n)
    decreases |waiting| - n
  {
    if n < |waiting| {
      SameScan(before, after, waiting, x, n + 1);
    }
  }

  lemma WaitingUntold(b: Book, locks: map<Id, Lock>, x: Id, n: nat)
    requires Inv(b) && x in b.locks && Pending(b.locks[x])
    requires Notified(b.locks, locks, Blockers(b, b.locks[x], n))
    ensures x in locks && locks[x] == b.locks[x]
    ensures forall l :: l in b.waiting ==> l in b.locks && l in locks && locks[l] == b.locks[l]
  {
    assert forall l :: l in b.waiting ==> l !in b.granted;
  }

  // Telling granted locks changes nothing for a scan of the waiting list.
  lemma ScanAfterTelling(b: Book, locks: map<Id, Lock>, x: Id, n: nat)
    requires Inv(b) && x in b.locks && Pending(b.locks[x])
    requires Notified(b.locks, locks, Blockers(b, b.locks[x], n))
    ensures x in locks && locks[x] == b.locks[x]
    ensures forall l :: l in b.waiting ==> l in b.locks && l in locks
    ensures ScanStop(locks, b.waiting, x, 0) == ScanStop(b.locks, b.waiting, x, 0)
    ensures var stop := ScanStop(b.locks, b.waiting, x, 0);
      && Ahead(locks, b.waiting, x, stop) == Ahead(b.locks, b.waiting, x, stop)
      && ContendCount(locks, b.waiting, x, stop) == ContendCount(b.locks, b.waiting, x, stop)
  {
    hide Inv, Notified, Blockers;
    WaitingUntold(b, locks, x, n);
    SameScan(b.locks, locks, b.waiting, x, 0);
    SameCount(b.locks, locks, b.waiting, x, ScanStop(b.locks, b.waiting, x, 0));
  }

  // All who stand between x and its grant: granted locks, and waiting locks ahead of it.
  ghost function Obstacles(b: Book, x: Id): set<Id>
    requires Inv(b) && x in b.locks
  {
    Blockers(b, b.locks[x], LCK_MODE_NUM) + Ahead(b.locks, b.waiting, x, ScanStop(b.locks, b.waiting, x, 0))
  }
}
