/** The bookkeeping of the token-bucket scheduler as a value: clients, their requests, the cache and its idle lists. */
module TbfBook {
  import opened Lists
  import opened HeapOrder
  import opened TokenBucket

  type Req = nat
  type Job = nat

  datatype Client = Client(job: Job, bucket: Bucket, queue: seq<Req>, inHeap: bool, refs: nat)

  // Clients in the heap are ranked by the time of their next token, then by check time.
  datatype Rank = Rank(deadline: nat, check: nat)

  function RankOf(b: Bucket): Rank { Rank(Due(b), b.checkTime) }

  predicate CliCompare(a: Rank, b: Rank) {
    if a.deadline < b.deadline then true
    else if a.deadline > b.deadline then false
    else if a.check < b.check then true
    else if a.check > b.check then false
    else true
  }

  lemma CliCompareIsPreorder()
    ensures TotalPreorder((a: Rank, b: Rank) => CliCompare(a, b))
  {
  }

  // cached is the hash of clients by job; lru the idle clients of each hash bucket, oldest first; owner the client that
  // an unfinished request counts against; heaped the nodes in the heap.
  datatype Book = Book(clients: map<Node, Client>, cached: map<Job, Node>, lru: map<nat, seq<Node>>,
                       owner: map<Req, Node>, heaped: set<Node>, ranks: map<Node, Rank>, bucketOf: Job -> nat)

  ghost function Idle(b: Book, at: nat): seq<Node> { if at in b.lru then b.lru[at] else [] }

  ghost function Owned(owner: map<Req, Node>, c: Node): set<Req> {
    set r | r in owner && owner[r] == c
  }

  ghost function Unfinished(b: Book, c: Node): set<Req> { Owned(b.owner, c) }

  lemma OwnedWith(owner: map<Req, Node>, r: Req, c: Node, x: Node)
    requires r !in owner
    ensures |Owned(owner[r := c], x)| == |Owned(owner, x)| + if x == c then 1 else 0
  {
    assert Owned(owner[r := c], x) == Owned(owner, x) + (if x == c then {r} else {});
  }

  lemma OwnedMore(owner: map<Req, Node>, r: Req, c: Node)
    requires r !in owner
    ensures forall x :: |Owned(owner[r := c], x)| == |Owned(owner, x)| + if x == c then 1 else 0
  {
    forall x ensures |Owned(owner[r := c], x)| == |Owned(owner, x)| + if x == c then 1 else 0 {
      OwnedWith(owner, r, c, x);
    }
  }

  lemma OwnedLess(owner: map<Req, Node>, r: Req)
    requires r in owner
    ensures forall x :: |Owned(owner - {r}, x)| == |Owned(owner, x)| - if x == owner[r] then 1 else 0
  {
    forall x ensures |Owned(owner - {r}, x)| == |Owned(owner, x)| - if x == owner[r] then 1 else 0 {
      assert Owned(owner - {r}, x) == Owned(owner, x) - (if x == owner[r] then {r} else {});
      assert r in Owned(owner, owner[r]);
    }
  }

  lemma OwnedNone(owner: map<Req, Node>, c: Node)
    ensures |Owned(owner, c)| == 0 <==> forall r :: r in owner ==> owner[r] != c
  {
    assert forall r :: r in Owned(owner, c) <==> r in owner && owner[r] == c;
    if |Owned(owner, c)| == 0 {
      assert Owned(owner, c) == {};
    } else {
      var r :| r in Owned(owner, c);
    }
  }

  ghost predicate Cached(b: Book) {
    && (forall j :: j in b.cached ==> b.cached[j] in b.clients && b.clients[b.cached[j]].job == j)
    && (forall c :: c in b.clients ==> b.clients[c].job in b.cached && b.cached[b.clients[c].job] == c)
  }

  // A client is in the heap exactly when it has queued requests, with the rank of its bucket.
  ghost predicate Heaped(b: Book) {
    && (forall c :: c in b.clients ==>
      (b.clients[c].inHeap <==> b.clients[c].queue != []) && (b.clients[c].inHeap <==> c in b.heaped))
    && (forall c :: c in b.heaped ==> c in b.clients && c in b.ranks && b.ranks[c] == RankOf(b.clients[c].bucket))
  }

  // The reference count is the number of unfinished requests, the queued ones among them.
  ghost predicate Referenced(b: Book) {
    && (forall r :: r in b.owner ==> b.owner[r] in b.clients)
    && (forall c :: c in b.clients ==>
      b.clients[c].refs == |Unfinished(b, c)| && NoRepeat(b.clients[c].queue)
      && forall r :: r in b.clients[c].queue ==> r in b.owner && b.owner[r] == c)
  }

  // A client is on the idle list of its hash bucket exactly when nobody refers to it.
  ghost predicate Listed(b: Book) {
    && (forall at :: NoRepeat(Idle(b, at)))
    && (forall at, c :: c in Idle(b, at) ==> c in b.clients && b.bucketOf(b.clients[c].job) == at)
    && (forall c :: c in b.clients ==> (c in Idle(b, b.bucketOf(b.clients[c].job)) <==> b.clients[c].refs == 0))
  }

  ghost predicate Filled(b: Book) {
    forall c :: c in b.clients ==> b.clients[c].bucket.nsecs > 0 && b.clients[c].bucket.depth > 0
  }

  ghost predicate Inv(b: Book) { Cached(b) && Heaped(b) && Referenced(b) && Listed(b) && Filled(b) }

  /** A client with outstanding work is never idle, so that no purge can take it. */
  lemma IdleHasNoWork(b: Book, at: nat, c: Node)
    requires Inv(b) && c in Idle(b, at)
    ensures c in b.clients && b.clients[c].queue == [] && c !in b.heaped && Unfinished(b, c) == {}
  {
    assert Unfinished(b, c) == {};
    forall r | r in b.clients[c].queue ensures r in Unfinished(b, c) {
    }
    FirstIn(b.clients[c].queue);
  }

  // ---------- Steps ----------

  // Request r is counted against client c, whose record is k so far, and queued unless the heap was full.
  ghost function Join(b: Book, c: Node, k: Client, r: Req, queued: bool): Book {
    var k' := if queued then k.(refs := k.refs + 1, queue := k.queue + [r], inHeap := true) else k.(refs := k.refs + 1);
    var at := b.bucketOf(k.job);
    b.(clients := b.clients[c := k'], cached := b.cached[k.job := c], lru := b.lru[at := Without(Idle(b, at), c)],
       owner := b.owner[r := c], heaped := if queued then b.heaped + {c} else b.heaped)
  }

  // A client of the book, or a new one for a job that is not cached.
  ghost predicate MayJoin(b: Book, c: Node, k: Client, r: Req) {
    && r !in b.owner
    && (if c in b.clients then k == b.clients[c]
        else && k.job !in b.cached && k == Client(k.job, k.bucket, [], false, 0)
             && k.bucket.nsecs > 0 && k.bucket.depth > 0)
  }

  // The ranks of the nodes that were in the heap are as before, c has the rank of its bucket.
  ghost predicate RankedFor(b: Book, b': Book, c: Node, bucket: Bucket) {
    && (forall x :: x in b.heaped && x != c && x in b.ranks ==> x in b'.ranks && b'.ranks[x] == b.ranks[x])
    && (c in b'.heaped ==> c in b'.ranks && b'.ranks[c] == RankOf(bucket))
  }

  lemma JoinReferenced(b: Book, b': Book, c: Node, k: Client, r: Req, queued: bool)
    requires Referenced(b) && MayJoin(b, c, k, r) && b' == Join(b, c, k, r, queued).(ranks := b'.ranks)
    ensures Referenced(b')
  {
    hide Owned, NoRepeat;
    OwnedMore(b.owner, r, c);
    OwnedNone(b.owner, c);
    NewQueue(k.queue, r);
  }

  lemma NewQueue(queue: seq<Req>, r: Req)
    ensures NoRepeat<Req>([])
    ensures NoRepeat(queue) && r !in queue ==> NoRepeat(queue + [r])
  {
  }

  // The idle lists but for the one at `at` are as before.
  ghost predicate Relisted(b: Book, b': Book, at: nat, idle: seq<Node>) {
    forall to :: Idle(b', to) == if to == at then idle else Idle(b, to)
  }

  lemma IdleUpdate(b: Book, b': Book, at: nat, idle: seq<Node>)
    requires b'.lru == b.lru[at := idle]
    ensures Relisted(b, b', at, idle)
  {
  }

  lemma JoinListed(b: Book, b': Book, c: Node, k: Client, r: Req, queued: bool)
    requires Listed(b) && MayJoin(b, c, k, r) && b' == Join(b, c, k, r, queued).(ranks := b'.ranks)
    ensures Listed(b')
  {
    hide NoRepeat, Idle, Without;
    var at := b.bucketOf(k.job);
    WithoutFacts(Idle(b, at), c);
    IdleUpdate(b, b', at, Without(Idle(b, at), c));
  }

  lemma JoinCached(b: Book, b': Book, c: Node, k: Client, r: Req, queued: bool)
    requires Cached(b) && Filled(b) && MayJoin(b, c, k, r) && b' == Join(b, c, k, r, queued).(ranks := b'.ranks)
    ensures Cached(b') && Filled(b')
  {
    hide Idle, Without;
  }

  lemma JoinHeaped(b: Book, b': Book, c: Node, k: Client, r: Req, queued: bool)
    requires Heaped(b) && MayJoin(b, c, k, r) && b' == Join(b, c, k, r, queued).(ranks := b'.ranks)
    requires RankedFor(b, b', c, k.bucket) && (!queued ==> k.queue == [])
    ensures Heaped(b')
  {
    hide Idle, Without;
  }

  lemma JoinInv(b: Book, b': Book, c: Node, k: Client, r: Req, queued: bool)
    requires Inv(b) && MayJoin(b, c, k, r) && b' == Join(b, c, k, r, queued).(ranks := b'.ranks)
    requires RankedFor(b, b', c, k.bucket) && (!queued ==> k.queue == [])
    ensures Inv(b')
  {
    hide Cached, Heaped, Referenced, Listed, Filled, MayJoin, Join, RankedFor;
    JoinReferenced(b, b', c, k, r, queued);
    JoinListed(b, b', c, k, r, queued);
    JoinCached(b, b', c, k, r, queued);
    JoinHeaped(b, b', c, k, r, queued);
  }

  // The bucket of c becomes `bucket`, and its first request is served if told so.
  ghost function Serve(b: Book, c: Node, bucket: Bucket, served: bool): Book
    requires c in b.clients && (served ==> b.clients[c].queue != [])
  {
    var k := b.clients[c];
    var rest := if served then k.queue[1..] else k.queue;
    b.(clients := b.clients[c := k.(bucket := bucket, queue := rest, inHeap := rest != [])],
       heaped := if rest != [] then b.heaped else b.heaped - {c})
  }

  lemma TailFacts(queue: seq<Req>)
    requires queue != [] && NoRepeat(queue)
    ensures NoRepeat(queue[1..]) && queue[0] !in queue[1..] && forall r :: r in queue[1..] ==> r in queue
  {
  }

  lemma ServeReferenced(b: Book, b': Book, c: Node, bucket: Bucket, served: bool)
    requires Referenced(b) && c in b.clients
    requires (served ==> b.clients[c].queue != []) && b' == Serve(b, c, bucket, served).(ranks := b'.ranks)
    ensures Referenced(b')
  {
    hide Owned, NoRepeat;
    if served {
      TailFacts(b.clients[c].queue);
    }
  }

  lemma ServeCached(b: Book, b': Book, c: Node, bucket: Bucket, served: bool)
    requires Cached(b) && Filled(b) && c in b.clients && bucket.nsecs > 0 && bucket.depth > 0
    requires (served ==> b.clients[c].queue != []) && b' == Serve(b, c, bucket, served).(ranks := b'.ranks)
    ensures Cached(b') && Filled(b')
  {
  }

  lemma ServeListed(b: Book, b': Book, c: Node, bucket: Bucket, served: bool)
    requires Listed(b) && c in b.clients
    requires (served ==> b.clients[c].queue != []) && b' == Serve(b, c, bucket, served).(ranks := b'.ranks)
    ensures Listed(b')
  {
    hide NoRepeat;
    assert forall to :: Idle(b', to) == Idle(b, to);
  }

  lemma ServeHeaped(b: Book, b': Book, c: Node, bucket: Bucket, served: bool)
    requires Heaped(b) && c in b.clients && RankedFor(b, b', c, bucket)
    requires (served ==> b.clients[c].queue != []) && b' == Serve(b, c, bucket, served).(ranks := b'.ranks)
    ensures Heaped(b')
  {
  }

  lemma ServeInv(b: Book, b': Book, c: Node, bucket: Bucket, served: bool)
    requires Inv(b) && c in b.clients && bucket.nsecs > 0 && bucket.depth > 0 && (served ==> b.clients[c].queue != [])
    requires b' == Serve(b, c, bucket, served).(ranks := b'.ranks) && RankedFor(b, b', c, bucket)
    ensures Inv(b')
  {
    hide Cached, Heaped, Referenced, Listed, Filled, Serve, RankedFor;
    ServeReferenced(b, b', c, bucket, served);
    ServeCached(b, b', c, bucket, served);
    ServeListed(b, b', c, bucket, served);
    ServeHeaped(b, b', c, bucket, served);
  }

  // Request r is finished; a client with nothing left becomes the newest idle one.
  ghost function Release(b: Book, r: Req): Book
    requires r in b.owner && b.owner[r] in b.clients && b.clients[b.owner[r]].refs > 0
  {
    var c := b.owner[r];
    var k := b.clients[c];
    var at := b.bucketOf(k.job);
    b.(clients := b.clients[c := k.(refs := k.refs - 1)], owner := b.owner - {r},
       lru := if k.refs == 1 then b.lru[at := Idle(b, at) + [c]] else b.lru)
  }

  lemma OwnedFacts(b: Book, r: Req)
    requires Inv(b) && r in b.owner
    ensures b.owner[r] in b.clients && b.clients[b.owner[r]].refs > 0
  {
    assert r in Unfinished(b, b.owner[r]);
  }

  lemma ReleaseReferenced(b: Book, r: Req)
    requires Referenced(b) && r in b.owner && b.owner[r] in b.clients && b.clients[b.owner[r]].refs > 0
    requires r !in b.clients[b.owner[r]].queue
    ensures Referenced(Release(b, r))
  {
    hide Owned, NoRepeat;
    OwnedLess(b.owner, r);
  }

  lemma ReleaseListed(b: Book, r: Req)
    requires Listed(b) && r in b.owner && b.owner[r] in b.clients && b.clients[b.owner[r]].refs > 0
    ensures Listed(Release(b, r))
  {
    hide NoRepeat, Idle;
    var b', c := Release(b, r), b.owner[r];
    var at := b.bucketOf(b.clients[c].job);
    if b.clients[c].refs == 1 {
      AppendFacts(Idle(b, at), c);
      IdleUpdate(b, b', at, Idle(b, at) + [c]);
    } else {
      SameIdle(b, b');
    }
  }

  lemma SameIdle(b: Book, b': Book)
    requires b'.lru == b.lru
    ensures forall to :: Idle(b', to) == Idle(b, to)
  {
  }

  lemma ReleaseCached(b: Book, r: Req)
    requires Cached(b) && Heaped(b) && Filled(b)
    requires r in b.owner && b.owner[r] in b.clients && b.clients[b.owner[r]].refs > 0
    ensures Cached(Release(b, r)) && Heaped(Release(b, r)) && Filled(Release(b, r))
  {
    hide Idle;
  }

  lemma ReleaseInv(b: Book, r: Req)
    requires Inv(b) && r in b.owner && b.owner[r] in b.clients && b.clients[b.owner[r]].refs > 0
    requires r !in b.clients[b.owner[r]].queue
    ensures Inv(Release(b, r))
  {
    hide Cached, Heaped, Referenced, Listed, Filled, Release;
    ReleaseReferenced(b, r);
    ReleaseListed(b, r);
    ReleaseCached(b, r);
  }

  // The idle client c is forgotten.
  ghost function Evict(b: Book, c: Node): Book
    requires c in b.clients
  {
    var at := b.bucketOf(b.clients[c].job);
    b.(clients := b.clients - {c}, cached := b.cached - {b.clients[c].job}, lru := b.lru[at := Without(Idle(b, at), c)])
  }

  lemma EvictReferenced(b: Book, c: Node)
    requires Referenced(b) && c in b.clients && b.clients[c].refs == 0
    ensures Referenced(Evict(b, c))
  {
    hide Idle, Without, NoRepeat, Owned;
    OwnedNone(b.owner, c);
  }

  lemma EvictListed(b: Book, c: Node)
    requires Listed(b) && c in b.clients
    ensures Listed(Evict(b, c))
  {
    hide NoRepeat, Idle, Without;
    var at := b.bucketOf(b.clients[c].job);
    WithoutFacts(Idle(b, at), c);
    IdleUpdate(b, Evict(b, c), at, Without(Idle(b, at), c));
  }

  lemma EvictCached(b: Book, c: Node)
    requires Cached(b) && Filled(b) && c in b.clients
    ensures Cached(Evict(b, c)) && Filled(Evict(b, c))
  {
    hide Idle, Without;
  }

  lemma EvictHeaped(b: Book, c: Node)
    requires Heaped(b) && c in b.clients && c !in b.heaped
    ensures Heaped(Evict(b, c))
  {
    hide Idle, Without;
  }

  lemma EvictInv(b: Book, c: Node)
    requires Inv(b) && c in b.clients && c in Idle(b, b.bucketOf(b.clients[c].job)) && b.clients[c].refs == 0
    ensures Inv(Evict(b, c)) && c !in b.heaped && b.clients[c].queue == []
  {
    IdleHasNoWork(b, b.bucketOf(b.clients[c].job), c);
    hide Cached, Heaped, Referenced, Listed, Filled, Evict;
    EvictReferenced(b, c);
    EvictListed(b, c);
    EvictCached(b, c);
    EvictHeaped(b, c);
  }
}
