/** The multi-level token-bucket scheduler: one queue and one bucket a client, the clients in a heap by next token. */
module TbfScheduler {
  import opened Lists
  import opened HeapOrder
  import opened BinHeap
  import opened TokenBucket
  import opened TbfBook
  import opened TbfSteps
  import opened Options

  class Tbf {
    const heap: BinaryHeap<Rank>
    const bucketOf: Job -> nat
    const highWater: nat
    var clients: map<Node, Client>
    var cached: map<Job, Node>
    var lru: map<nat, seq<Node>>
    var owner: map<Req, Node>
    var nextNode: Node
    var throttling: bool
    // When the timer expires that ends the throttling.
    var deadline: nat

    ghost function View(): Book
      reads this, heap
    {
      Book(clients, cached, lru, owner, Members(heap.slots), heap.keys, bucketOf)
    }

    ghost predicate Valid()
      reads this, heap, heap.pages
    {
      && heap.Valid() && heap.leq == ((a, b) => CliCompare(a, b)) && Inv(View())
      && forall c :: c in clients ==> c < nextNode
    }

    constructor (bucketOf: Job -> nat, highWater: nat)
      ensures Valid() && fresh(heap) && fresh(heap.pages) && clients == map[] && !throttling
    {
      CliCompareIsPreorder();
      this.bucketOf, this.highWater := bucketOf, highWater;
      heap := new BinaryHeap((a, b) => CliCompare(a, b));
      clients, cached, lru, owner, nextNode, throttling, deadline := map[], map[], map[], map[], 0, false, 0;
    }

    // A client whose queue is empty enters the heap.
    method Admit(c: Node, k: Client) returns (queued: bool)
      requires heap.Valid() && (k.queue == [] <==> c !in heap.slots)
      requires c in heap.slots ==> c in heap.keys && heap.keys[c] == RankOf(k.bucket)
      modifies heap, heap.pages
      ensures heap.Valid() && (queued <==> c in heap.slots)
      ensures (!queued ==> k.queue == [] && |heap.slots| >= HeapPages.CAPACITY)
      ensures Members(heap.slots) == if queued then old(Members(heap.slots)) + {c} else old(Members(heap.slots))
      ensures forall x :: x in old(heap.slots) && x != c && x in old(heap.keys) ==>
        x in heap.keys && heap.keys[x] == old(heap.keys)[x]
      ensures queued ==> c in heap.keys && heap.keys[c] == RankOf(k.bucket)
    {
      hide Ordered, Keyed, Indexed;
      queued := true;
      if k.queue == [] {
        queued := heap.Insert(c, RankOf(k.bucket), true);
      }
    }

    // The client counts the request, and is idle no longer.
    method Refer(c: Node, k: Client, r: Req, queued: bool)
      modifies `clients, `cached, `lru, `owner
      ensures View() == Join(old(View()), c, k, r, queued).(heaped := View().heaped)
      ensures owner == old(owner)[r := c] && k.job in cached && cached[k.job] == c && c in clients
      ensures clients == old(clients)[c := clients[c]] && clients[c].bucket == k.bucket
      ensures clients[c].queue == if queued then k.queue + [r] else k.queue
      ensures clients[c].refs == k.refs + 1 && clients[c].job == k.job
      ensures lru == old(lru)[bucketOf(k.job) := Without(old(IdleAt(Now(), bucketOf(k.job))), c)]
    {
      var at := bucketOf(k.job);
      var idle := if at in lru then lru[at] else [];
      lru := lru[at := Without(idle, c)];
      clients := clients[c := if queued then k.(refs := k.refs + 1, queue := k.queue + [r], inHeap := true)
                              else k.(refs := k.refs + 1)];
      cached := cached[k.job := c];
      owner := owner[r := c];
    }

    // The client of the job, or a new one that is not in the cache yet.
    method FindClient(job: Job, now: nat, nsecs: nat, depth: nat) returns (c: Node, k: Client)
      requires Valid() && nsecs > 0 && depth > 0
      modifies `nextNode
      ensures Valid() && c < nextNode && k.job == job && (k.queue == [] <==> c !in heap.slots)
      ensures nextNode >= old(nextNode)
      ensures if job in cached then cached[job] == c && c in clients && k == clients[c]
              else && c !in clients && c >= old(nextNode)
                   && k == Client(job, Bucket(nsecs, depth, depth, now), [], false, 0)
      ensures c in heap.slots ==> c in heap.keys && heap.keys[c] == RankOf(k.bucket)
    {
      hide Inv, Ordered, Keyed, Indexed, CliCompare, Members;
      CachedFacts(View());
      if job in cached {
        c := cached[job];
        k := clients[c];
      } else {
        c := nextNode;
        nextNode := nextNode + 1;
        k := Client(job, Bucket(nsecs, depth, depth, now), [], false, 0);
      }
      HeapedFacts(View(), c);
      MembersFacts(heap.slots);
    }

    // Request r goes to the queue of client c, whose record was k.
    method JoinClient(c: Node, k: Client, r: Req) returns (queued: bool)
      requires Valid() && MayJoin(View(), c, k, r) && (k.queue == [] <==> c !in heap.slots) && c < nextNode
      requires c in heap.slots ==> c in heap.keys && heap.keys[c] == RankOf(k.bucket)
      modifies this, heap, heap.pages
      ensures Valid() && (!queued ==> k.queue == [] && |heap.slots| >= HeapPages.CAPACITY)
      ensures throttling == old(throttling) && deadline == old(deadline)
      ensures owner == old(owner)[r := c] && k.job in cached && cached[k.job] == c && c in clients
      ensures clients == old(clients)[c := clients[c]] && clients[c].bucket == k.bucket && nextNode == old(nextNode)
      ensures clients[c].queue == if queued then k.queue + [r] else k.queue
      ensures clients[c].refs == k.refs + 1 && clients[c].job == k.job
      ensures lru == old(lru)[bucketOf(k.job) := Without(old(IdleAt(Now(), bucketOf(k.job))), c)]
    {
      hide Inv, Join, Ordered, Keyed, Indexed, CliCompare, Members, MayJoin, Without;
      ghost var b := View();
      MembersFacts(heap.slots);
      queued := Admit(c, k);
      Refer(c, k, r, queued);
      MembersFacts(heap.slots);
      JoinView(b, View(), c, k, r, queued);
      JoinInv(b, View(), c, k, r, queued);
    }

    /** A request of a job is queued with the job's client, which is created when it is not cached. */
    method Enqueue(job: Job, r: Req, now: nat, nsecs: nat, depth: nat) returns (queued: bool)
      requires Valid() && r !in owner && nsecs > 0 && depth > 0
      modifies this, heap, heap.pages
      ensures Valid() && job in cached && cached[job] in clients && owner == old(owner)[r := cached[job]]
      ensures var was := if job in old(cached) && old(cached)[job] in old(clients) then
                           old(clients)[old(cached)[job]].queue else [];
        clients[cached[job]].queue == if queued then was + [r] else was
      ensures !queued ==> |heap.slots| >= HeapPages.CAPACITY
      ensures clients == old(clients)[cached[job] := clients[cached[job]]]
      ensures throttling == old(throttling) && deadline == old(deadline)
      ensures Joined(old(clients), clients, cached[job], job, r, Bucket(nsecs, depth, depth, now))
      ensures lru == old(lru)[bucketOf(job) := Without(old(IdleAt(Now(), bucketOf(job))), cached[job])]
      ensures forall x :: x in old(clients) ==> x in clients && clients[x].bucket == old(clients)[x].bucket
      ensures nextNode >= old(nextNode) && forall x :: x in clients && x !in old(clients) ==>
        x >= old(nextNode) && clients[x].bucket == Bucket(nsecs, depth, depth, now)
    {
      hide Inv, Join, Ordered, Keyed, Indexed, CliCompare, Members, Without;
      var c, k := FindClient(job, now, nsecs, depth);
      queued := JoinClient(c, k, r);
      CachedFacts(View());
      BusyHeaped();
    }

    // The clients in the heap are those with queued requests.
    lemma BusyHeaped()
      requires Valid()
      ensures |Busy(clients)| == |heap.slots| && Busy(clients) == Members(heap.slots)
      ensures Busy(clients) == {} <==> heap.slots == []
      ensures forall c :: c in Busy(clients) <==> c in heap.slots
    {
      hide Inv, Ordered, Indexed, CliCompare, TotalPreorder;
      MembersFacts(heap.slots);
      forall c ensures c in Busy(clients) <==> c in Members(heap.slots) {
        HeapedFacts(View(), c);
      }
      assert Busy(clients) == Members(heap.slots);
      MembersCount(heap.slots);
      FirstIn(heap.slots);
    }

    // The bucket of c changes, its first request is served if told so, and its place in the heap follows.
    method Update(c: Node, bucket: Bucket, served: bool)
      requires Valid() && c in heap.slots && c in clients && clients[c].queue != []
      requires bucket.nsecs > 0 && bucket.depth > 0
      modifies `clients, heap`slots, heap`index, heap`keys
      ensures Valid() && c in old(clients)
      ensures clients == old(clients)[c := clients[c]] && clients[c].bucket == bucket
      ensures clients[c].refs == old(clients)[c].refs && clients[c].job == old(clients)[c].job
      ensures !served ==> clients[c] == old(clients)[c].(bucket := bucket)
      ensures clients[c].queue == if served && old(clients)[c].queue != [] then old(clients)[c].queue[1..]
                                  else old(clients)[c].queue
    {
      hide Inv, Ordered, Keyed, Indexed, CliCompare, Members;
      ghost var b := View();
      var k := clients[c];
      var rest := if served then k.queue[1..] else k.queue;
      HeapedFacts(b, c);
      MembersFacts(heap.slots);
      clients := clients[c := k.(bucket := bucket, queue := rest, inHeap := rest != [])];
      if rest == [] {
        heap.Remove(c);
      } else {
        heap.Rekey(c, RankOf(bucket));
      }
      MembersFacts(heap.slots);
      assert View().heaped == Serve(b, c, bucket, served).heaped;
      ServeInv(b, View(), c, bucket, served);
    }

    /** Serves the client at the root if it has a token.  Otherwise every client has to wait, and the timer is set to
      * the time when the first of them gets its next token, which lies ahead.
      */
    method Dequeue(now: nat) returns (served: Option<Req>, ghost cli: Node)
      requires Valid() && forall c :: c in heap.slots && c in clients ==> clients[c].bucket.checkTime <= now
      modifies `clients, `throttling, `deadline, heap`slots, heap`index, heap`keys
      ensures Valid()
      ensures served.Some? ==> !throttling && Served(old(clients), clients, cli, served.value, now)
      ensures served.Some? ==>
        cli in old(clients) && AllWait(old(clients), old(Members(heap.slots)), old(clients)[cli].bucket)
      ensures served.Some? ==> cli in old(heap.slots) && served.value in owner && owner[served.value] == cli
      ensures served.None? ==> clients == old(clients)
      ensures served.None? && !old(throttling) && throttling ==>
        && cli in clients && AllWait(clients, Members(heap.slots), clients[cli].bucket)
      ensures served.None? && !throttling ==> heap.slots == []
      ensures old(throttling) ==> served.None? && throttling && deadline == old(deadline)
      ensures served.Some? || !throttling ==> deadline == old(deadline)
      ensures served.None? && !old(throttling) && throttling ==>
        && cli in heap.slots && cli in clients && clients[cli].bucket.nsecs > 0 && clients[cli].bucket.checkTime <= now
        && TokensAt(clients[cli].bucket, now) == 0 && FirstToken(clients[cli].bucket, now, deadline)
    {
      hide Inv, Ordered, Keyed, Indexed, CliCompare, Members;
      cli := 0;
      if throttling {
        return None, cli;
      }
      var found, c := heap.Root();
      if !found {
        return None, cli;
      }
      cli := c;
      MembersFacts(heap.slots);
      HeapedFacts(View(), c);
      FilledFacts(View(), c);
      var k := clients[c];
      var ntoken := TokensAt(k.bucket, now);
      WaitForRoot(View(), c);
      if ntoken > 0 {
        var r := k.queue[0];
        QueueOwned(View(), c);
        Update(c, Spend(k.bucket, now), true);
        return Some(r), cli;
      }
      throttling := true;
      deadline := Due(k.bucket);
      NoToken(k.bucket, now);
      served := None;
    }

    // The rule of a client changes the interval and the depth of its bucket, which keeps its tokens.
    method ChangeRate(c: Node, nsecs: nat, depth: nat)
      requires Valid() && c in clients && nsecs > 0 && depth > 0
      modifies `clients, heap`slots, heap`index, heap`keys
      ensures Valid() && c in old(clients)
      ensures clients ==
        old(clients)[c := old(clients)[c].(bucket := old(clients)[c].bucket.(nsecs := nsecs, depth := depth))]
    {
      hide Inv, Members;
      ghost var b := View();
      var k := clients[c];
      MembersFacts(heap.slots);
      HeapedFacts(b, c);
      var bucket := k.bucket.(nsecs := nsecs, depth := depth);
      if k.inHeap {
        Update(c, bucket, false);
      } else {
        clients := clients[c := k.(bucket := bucket)];
        ServeInv(b, View(), c, bucket, false);
      }
    }

    // How many clients the hash bucket holds.
    function Held(at: nat): (n: nat)
      reads this
      ensures n == HeldIn(Cache(bucketOf, highWater), clients, at)
    {
      var held := set c | c in clients && bucketOf(clients[c].job) == at;
      assert held == InBucket(Cache(bucketOf, highWater), clients, at);
      |held|
    }

    method EvictOldest(at: nat)
      requires Valid() && at in lru && lru[at] != []
      modifies `clients, `cached, `lru
      ensures Valid() && |clients| < |old(clients)| && Idle(View(), at) == old(Idle(View(), at))[1..]
      ensures clients == old(clients) - {old(Idle(View(), at))[0]} && Held(at) + 1 == old(Held(at))
      ensures forall to :: to != at ==> IdleAt(Now(), to) == old(IdleAt(Now(), to))
      ensures NoWork(old(clients), owner, old(Idle(View(), at))[0])
    {
      hide Inv, Ordered, Keyed, Indexed, CliCompare, Members, NoWork, Without, Held;
      ghost var b := View();
      var c := lru[at][0];
      OldestIdle(b, at, c);
      WithoutFirst(lru[at]);
      cached := cached - {clients[c].job};
      clients := clients - {c};
      lru := lru[at := Without(lru[at], c)];
      HeldLess(Cache(bucketOf, highWater), b.clients, c, at);
      assert View() == Evict(b, c);
    }

    // Forgets the clients that have been idle for longest, down to the limit of the hash bucket.
    method Purge(at: nat) returns (ghost n: nat)
      requires Valid()
      modifies `clients, `cached, `lru
      ensures Valid() && (Held(at) <= highWater || Idle(View(), at) == [])
      ensures n <= |old(Idle(View(), at))| && Idle(View(), at) == old(Idle(View(), at))[n..]
      ensures clients == old(clients) - Members(old(Idle(View(), at))[..n]) && (n > 0 ==> Held(at) >= highWater)
      ensures forall to :: to != at ==> IdleAt(Now(), to) == old(IdleAt(Now(), to))
      ensures forall x :: x in old(clients) && x !in clients ==> NoWork(old(clients), owner, x)
    {
      hide Valid, Inv, Members, Held, NoWork;
      n := 0;
      ghost var idle := Idle(View(), at);
      NoMembers(idle);
      MembersHaveNoWork(at);
      while Held(at) > highWater
        invariant Valid() && n <= |idle| && Idle(View(), at) == idle[n..]
        invariant clients == old(clients) - Members(idle[..n]) && (n > 0 ==> Held(at) >= highWater)
        invariant forall to :: to != at ==> IdleAt(Now(), to) == old(IdleAt(Now(), to))
        invariant Members(idle[..n]) <= Members(idle)
        decreases |clients|
      {
        if at !in lru || lru[at] == [] {
          break;
        }
        MembersStep(idle, n);
        EvictOldest(at);
        n := n + 1;
      }
    }

    lemma MembersHaveNoWork(at: nat)
      requires Valid()
      ensures forall x :: x in Members(Idle(View(), at)) ==> NoWork(clients, owner, x)
    {
      hide Inv;
      forall x | x in Idle(View(), at) ensures NoWork(clients, owner, x) {
        IdleHasNoWork(View(), at, x);
        assert forall r :: r in owner && owner[r] == x ==> r in Unfinished(View(), x);
      }
    }

    // The reference of a request is given up; a client without references joins its LRU list.
    method ReleaseRef(r: Req) returns (c: Node, refs: nat, at: nat)
      requires Valid() && r in owner && (owner[r] in clients ==> r !in clients[owner[r]].queue)
      modifies `clients, `lru, `owner
      ensures Valid() && owner == old(owner) - {r} && r in old(owner) && c == old(owner)[r] && c in old(clients)
      ensures refs == old(clients)[c].refs > 0 && at == bucketOf(old(clients)[c].job)
      ensures clients == old(clients)[c := old(clients)[c].(refs := refs - 1)]
      ensures lru == if refs == 1 then old(lru)[at := IdleAt(old(Now()), at) + [c]] else old(lru)
    {
      hide Inv, Ordered, Keyed, Indexed, CliCompare, Members;
      ghost var b := View();
      OwnedFacts(b, r);
      c := owner[r];
      var k := clients[c];
      refs, at := k.refs, bucketOf(k.job);
      clients := clients[c := k.(refs := refs - 1)];
      owner := owner - {r};
      if refs == 1 {
        lru := lru[at := (if at in lru then lru[at] else []) + [c]];
      }
      assert View() == Release(b, r);
      ReleaseInv(b, r);
    }

    /** A request is finished.  A client with nothing left to do becomes idle, and may be forgotten at once with others
      * that are idle; one with outstanding work never is.
      */
    method Finish(r: Req) returns (ghost n: nat)
      requires Valid() && r in owner && (owner[r] in clients ==> r !in clients[owner[r]].queue)
      modifies `clients, `cached, `lru, `owner
      ensures Valid() && owner == old(owner) - {r}
      ensures forall x :: x in clients && (r !in old(owner) || x != old(owner)[r]) ==>
        x in old(clients) && clients[x] == old(clients)[x]
      ensures forall x :: x in clients ==> x in old(clients) && clients[x].bucket == old(clients)[x].bucket
      ensures forall x :: x in clients && x in old(clients) ==>
        clients[x].queue == old(clients)[x].queue && clients[x].job == old(clients)[x].job
      ensures forall x :: x in old(clients) && x !in clients ==> NoWork(old(clients), owner, x)
      ensures r in old(owner) && old(owner)[r] in old(clients) && old(clients)[old(owner)[r]].refs > 0
      ensures Dropped(Cache(bucketOf, highWater), old(Now()), Now(), old(owner)[r], n)
    {
      hide Valid, Members, HeldIn, Held, Dropped;
      n := 0;
      ghost var s := Now();
      var c, refs, at := ReleaseRef(r);
      ghost var mid := Now();
      if refs == 1 {
        n := Purge(at);
      } else {
        NoMembers(IdleAt(mid, at));
        assert mid.clients - {} == mid.clients;
      }
      DroppedSo(Cache(bucketOf, highWater), s, mid, Now(), c, at, n);
    }

    method TimerExpired()
      requires Valid()
      modifies `throttling
      ensures Valid() && !throttling
    {
      throttling := false;
    }

    ghost function Now(): Sight
      reads this
    {
      Sight(clients, lru, owner, throttling, deadline)
    }

    // Dequeue, without the heap: the clients with queued requests are those that count.
    method Decide(now: nat) returns (out: Option<Req>)
      requires Valid() && Checked(clients, now)
      modifies `clients, `throttling, `deadline, heap`slots, heap`index, heap`keys
      ensures Valid() && Checked(clients, now) && clients.Keys == old(clients.Keys)
      ensures if old(throttling) || Busy(old(clients)) == {} then out.None? && Now() == old(Now())
              else exists c :: Decided(old(Now()), Now(), out, c, now)
    {
      hide Valid, Inv, Ordered, Keyed, Indexed, CliCompare, Members, Busy, TokensAt, Spend;
      BusyHeaped();
      ghost var cli;
      out, cli := Dequeue(now);
      BusyHeaped();
      if !old(throttling) && Busy(old(clients)) != {} {
        assert Decided(old(Now()), Now(), out, cli, now);
      }
    }

    // An arrival whose conditions hold.
    method Accept(job: Job, r: Req, now: nat, nsecs: nat, depth: nat)
      requires Valid() && Checked(clients, now)
      modifies this, heap, heap.pages
      ensures Valid() && Checked(clients, now)
      ensures Moved(Cache(bucketOf, highWater), Arrive(job, r, nsecs, depth), now, old(Now()), Now(), None)
      ensures nextNode >= old(nextNode) && forall x :: x in clients && x !in old(clients) ==> x >= old(nextNode)
    {
      hide Valid, Inv, NoWork, Without, Dropped;
      if r !in owner && nsecs > 0 && depth > 0 {
        var queued := Enqueue(job, r, now, nsecs, depth);
      }
    }

    method Complete(r: Req, now: nat)
      requires Valid() && Checked(clients, now)
      modifies `clients, `cached, `lru, `owner
      ensures Valid() && Checked(clients, now) && forall x :: x in clients ==> x in old(clients)
      ensures Moved(Cache(bucketOf, highWater), Done(r), now, old(Now()), Now(), None)
    {
      hide Valid, Inv, NoWork, Dropped;
      if r in owner && (owner[r] in clients ==> r !in clients[owner[r]].queue) {
        ghost var n := Finish(r);
        assert Dropped(Cache(bucketOf, highWater), old(Now()), Now(), old(owner)[r], n);
      }
    }

    /** One step at time now.  A client that is new has a number that none had before. */
    method Take(op: Op, now: nat) returns (out: Option<Req>)
      requires Valid() && Checked(clients, now)
      modifies this, heap, heap.pages
      ensures Valid() && Checked(clients, now)
      ensures Moved(Cache(bucketOf, highWater), op, now, old(Now()), Now(), out)
      ensures nextNode >= old(nextNode) && forall x :: x in clients && x !in old(clients) ==> x >= old(nextNode)
    {
      hide Valid, Inv, Held, NoWork, Joined, Dropped, Decided, Busy, Without;
      out := None;
      match op
      case Arrive(job, r, nsecs, depth) =>
        Accept(job, r, now, nsecs, depth);
      case Next =>
        out := Decide(now);
      case Done(r) =>
        Complete(r, now);
      case Rate(x, nsecs, depth) =>
        if x in clients && nsecs > 0 && depth > 0 {
          ChangeRate(x, nsecs, depth);
        }
      case Expire =>
        TimerExpired();
    }

    /** What the scheduler keeps over a run: its steps are as specified; and while client c stays cached, its interval
      * never drops below m and its depth never exceeds d, the requests of it that are served and its tokens left are at
      * most the tokens at first and one for every m of time between its check-points, and no more of them are served
      * between any two times than d and one for every m of the time between these.
      */
    method Run(ops: seq<Op>, times: seq<nat>, ghost c: Node, ghost m: nat, ghost d: nat)
      returns (outs: seq<Option<Req>>, ghost trace: seq<Sight>)
      requires Valid() && c in clients && clients[c].bucket.nsecs >= m > 0 && clients[c].bucket.depth <= d
      requires |times| == |ops| && (forall i, j :: 0 <= i <= j < |times| ==> times[i] <= times[j])
      requires times != [] ==> Checked(clients, times[0])
      requires forall i :: 0 <= i < |ops| && ops[i].Rate? && ops[i].c == c ==> ops[i].nsecs >= m && ops[i].depth <= d
      modifies this, heap, heap.pages
      ensures Valid() && Follows(Cache(bucketOf, highWater), ops, times, outs, trace)
      ensures trace[0] == old(Now()) && trace[|ops|] == Now()
      ensures c in clients ==>
        Bounded(old(clients)[c].bucket, clients[c].bucket, ServedTo(outs, trace, c, 0, |ops|), m)
      ensures c in clients ==> forall i, j :: 0 <= i < j <= |ops| ==>
        ServedTo(outs, trace, c, i, j) <= d + (times[j - 1] - times[i]) / m
    {
      hide Valid, Checked, Bounded, Moved, Serves, ServedTo;
      outs, trace := [], [Now()];
      StayFresh();
      for n := 0 to |ops|
        invariant Valid() && (n < |times| ==> Checked(clients, times[n])) && c < nextNode
        invariant |outs| == n && |trace| == n + 1 && trace[0] == old(Now()) && trace[n] == Now()
        invariant forall i :: 0 <= i < n ==>
          Moved(Cache(bucketOf, highWater), ops[i], times[i], trace[i], trace[i + 1], outs[i])
        invariant c in clients ==> Ruled(trace, c, m, d, 0, n)
      {
        var out := Take(ops[n], times[n]);
        if c in clients {
          StepBucket(Cache(bucketOf, highWater), ops[n], times[n], trace[n], Now(), out, c);
          SpendKeepsRule(trace[n].clients[c].bucket, times[n]);
        }
        outs, trace := outs + [out], trace + [Now()];
        if n + 1 < |times| {
          CheckedLater(clients, times[n], times[n + 1]);
        }
      }
      if c in clients {
        Rated(ops, times, outs, trace, c, m, d);
      }
    }

    // The numbers of the clients are used up.
    lemma StayFresh()
      requires Valid()
      ensures forall c :: c in clients ==> c < nextNode
    {
    }

    lemma Rated(ops: seq<Op>, times: seq<nat>, outs: seq<Option<Req>>, trace: seq<Sight>, c: Node, m: nat, d: nat)
      requires Follows(Cache(bucketOf, highWater), ops, times, outs, trace) && m > 0 && Ruled(trace, c, m, d, 0, |ops|)
      requires forall i, j :: 0 <= i <= j < |times| ==> times[i] <= times[j]
      ensures Bounded(trace[0].clients[c].bucket, trace[|ops|].clients[c].bucket, ServedTo(outs, trace, c, 0, |ops|), m)
      ensures forall i, j :: 0 <= i < j <= |ops| ==>
        ServedTo(outs, trace, c, i, j) <= d + (times[j - 1] - times[i]) / m
    {
      hide Moved, Bounded, ServedTo;
      RateBound(Cache(bucketOf, highWater), ops, times, outs, trace, c, m, d, |ops|);
      forall i: nat, j: nat | i < j <= |ops|
        ensures ServedTo(outs, trace, c, i, j) <= d + (times[j - 1] - times[i]) / m
      {
        BurstBound(Cache(bucketOf, highWater), ops, times, outs, trace, c, m, d, i, j);
      }
    }
  }

  lemma SpendKeepsRule(b: Bucket, now: nat)
    ensures b.nsecs > 0 && b.checkTime <= now ==> Spend(b, now).nsecs == b.nsecs && Spend(b, now).depth == b.depth
  {
  }

  lemma DroppedSo(cache: Cache, s: Sight, mid: Sight, s': Sight, c: Node, at: nat, n: nat)
    requires c in s.clients && s.clients[c].refs > 0
    requires at == cache.bucketOf(s.clients[c].job)
    requires mid.clients == s.clients[c := s.clients[c].(refs := s.clients[c].refs - 1)]
    requires mid.lru == if s.clients[c].refs == 1 then s.lru[at := IdleAt(s, at) + [c]] else s.lru
    requires n <= |IdleAt(mid, at)| && IdleAt(s', at) == IdleAt(mid, at)[n..]
    requires s'.clients == mid.clients - Members(IdleAt(mid, at)[..n])
    requires forall to :: to != at ==> IdleAt(s', to) == IdleAt(mid, to)
    requires s.clients[c].refs == 1 ==> HeldIn(cache, s'.clients, at) <= cache.highWater || IdleAt(s', at) == []
    requires if s.clients[c].refs == 1 then n > 0 ==> HeldIn(cache, s'.clients, at) >= cache.highWater else n == 0
    ensures Dropped(cache, s, s', c, n)
  {
    hide HeldIn, Members;
  }

  // A hash bucket holds one client less.
  lemma HeldLess(cache: Cache, clients: map<Node, Client>, c: Node, at: nat)
    requires c in clients && cache.bucketOf(clients[c].job) == at
    ensures HeldIn(cache, clients - {c}, at) + 1 == HeldIn(cache, clients, at)
  {
    assert InBucket(cache, clients - {c}, at) == InBucket(cache, clients, at) - {c};
  }

  lemma NoMembers(s: seq<Node>)
    ensures Members(s[..0]) == {} && s[0..] == s
  {
  }

  lemma MembersStep(s: seq<Node>, n: nat)
    requires n <= |s|
    ensures n < |s| ==> Members(s[..n + 1]) == Members(s[..n]) + {s[n]} && Members(s[..n + 1]) <= Members(s)
    ensures n < |s| ==> s[n..][0] == s[n] && s[n..][1..] == s[n + 1..]
  {
  }

  lemma MembersFacts(s: seq<Node>)
    ensures forall x :: x in Members(s) <==> x in s
  {
  }

  lemma {:induction false} MembersCount(s: seq<Node>)
    requires NoRepeat(s)
    ensures |Members(s)| == |s|
  {
    if s != [] {
      var rest := s[..|s| - 1];
      assert s == rest + [s[|s| - 1]];
      assert Members(s) == Members(rest) + {s[|s| - 1]};
      MembersCount(rest);
    }
  }

  lemma JoinView(b: Book, b': Book, c: Node, k: Client, r: Req, queued: bool)
    requires b'.heaped == if queued then b.heaped + {c} else b.heaped
    requires exists h, ks :: b' == Join(b.(heaped := h, ranks := ks), c, k, r, queued).(heaped := b'.heaped)
    ensures b' == Join(b, c, k, r, queued).(ranks := b'.ranks)
  {
  }

  lemma CachedFacts(b: Book)
    requires Inv(b)
    ensures forall j :: j in b.cached ==> b.cached[j] in b.clients && b.clients[b.cached[j]].job == j
    ensures forall c :: c in b.clients ==> b.clients[c].job in b.cached && b.cached[b.clients[c].job] == c
  {
  }

  lemma HeapedFacts(b: Book, c: Node)
    requires Inv(b)
    ensures c in b.heaped ==> c in b.clients && c in b.ranks && b.ranks[c] == RankOf(b.clients[c].bucket)
    ensures c in b.clients ==> (c in b.heaped <==> b.clients[c].queue != []) && (c in b.heaped <==> b.clients[c].inHeap)
  {
  }

  lemma OldestIdle(b: Book, at: nat, c: Node)
    requires Inv(b) && Idle(b, at) != [] && c == Idle(b, at)[0]
    ensures c in b.clients && b.bucketOf(b.clients[c].job) == at && Inv(Evict(b, c)) && NoWork(b.clients, b.owner, c)
    ensures |b.clients - {c}| < |b.clients|
  {
    hide Evict;
    IdleHasNoWork(b, at, c);
    IdleClient(b, at, c);
    EvictInv(b, c);
    forall r | r in b.owner ensures b.owner[r] != c {
      assert r !in Unfinished(b, c);
    }
    assert (b.clients - {c}).Keys == b.clients.Keys - {c};
    assert |(b.clients - {c}).Keys| < |b.clients.Keys|;
  }

  lemma IdleClient(b: Book, at: nat, c: Node)
    requires Inv(b) && c in Idle(b, at)
    ensures c in b.clients && b.bucketOf(b.clients[c].job) == at && b.clients[c].refs == 0
  {
  }

  // No client in the heap is due before the one with bucket b.
  ghost predicate AllWait(clients: map<Node, Client>, heaped: set<Node>, b: Bucket) {
    forall c :: c in heaped ==> c in clients && NoSooner(clients[c].bucket, b)
  }

  lemma QueueOwned(b: Book, c: Node)
    requires Inv(b) && c in b.clients
    ensures forall r :: r in b.clients[c].queue ==> r in b.owner && b.owner[r] == c
  {
  }

  lemma FilledFacts(b: Book, c: Node)
    requires Inv(b) && c in b.clients
    ensures b.clients[c].bucket.nsecs > 0 && b.clients[c].bucket.depth > 0
  {
  }

  // Without a token the next one is still to come.
  lemma NoToken(bucket: Bucket, now: nat)
    requires bucket.nsecs > 0 && bucket.depth > 0 && bucket.checkTime <= now && TokensAt(bucket, now) == 0
    ensures FirstToken(bucket, now, Due(bucket))
  {
    hide TokensAt;
    TokensAtMeans(bucket, now, 1);
    forall t: nat | t >= now ensures TokensAt(bucket, t) > 0 <==> t >= Due(bucket) {
      DueMeans(bucket, t);
    }
    DueMeans(bucket, now);
  }

  lemma WaitForRoot(b: Book, c: Node)
    requires Inv(b) && c in b.heaped && c in b.clients && c in b.ranks
    requires forall x :: x in b.heaped ==> x in b.ranks && CliCompare(b.ranks[c], b.ranks[x])
    ensures AllWait(b.clients, b.heaped, b.clients[c].bucket)
  {
    hide Inv;
    HeapedFacts(b, c);
    forall x | x in b.heaped ensures x in b.clients && NoSooner(b.clients[x].bucket, b.clients[c].bucket) {
      HeapedFacts(b, x);
    }
  }

  lemma CheckedLater(clients: map<Node, Client>, now: nat, later: nat)
    requires Checked(clients, now) && now <= later
    ensures Checked(clients, later)
  {
  }
}
