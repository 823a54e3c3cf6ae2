/** What the operations of the token-bucket scheduler do to its clients, and the rates that follow over runs. */
module TbfSteps {
  import opened Lists
  import opened HeapOrder
  import HeapPages
  import opened TokenBucket
  import opened TbfBook
  import opened Options

  ghost function Members(s: seq<Node>): set<Node> { set x | x in s }

  datatype Op =
    | Arrive(job: Job, r: Req, nsecs: nat, depth: nat)
    | Next
    | Done(r: Req)
    | Rate(c: Node, nsecs: nat, depth: nat)
    | Expire

  // No client's check-point time is in the future.
  ghost predicate Checked(clients: map<Node, Client>, now: nat) {
    forall c :: c in clients ==> clients[c].bucket.checkTime <= now
  }

  ghost predicate NoWork(clients: map<Node, Client>, owner: map<Req, Node>, c: Node) {
    c in clients && clients[c].queue == [] && forall r :: r in owner ==> owner[r] != c
  }

  // Client c had a token at time now, spent it, and its oldest request r went.
  ghost predicate Served(before: map<Node, Client>, after: map<Node, Client>, c: Node, r: Req, now: nat) {
    && c in before && c in after && after == before[c := after[c]] && after[c].job == before[c].job
    && before[c].queue == [r] + after[c].queue
    && before[c].bucket.nsecs > 0 && before[c].bucket.checkTime <= now && TokensAt(before[c].bucket, now) > 0
    && after[c].bucket == before[c].bucket.(tokens := TokensAt(before[c].bucket, now) - 1, checkTime := now)
  }

  // The clients that are cached, the idle ones of each hash bucket, oldest first, whom each unfinished request counts
  // against, and the timer.
  datatype Sight = Sight(clients: map<Node, Client>, lru: map<nat, seq<Node>>, owner: map<Req, Node>, throttling: bool,
                         deadline: nat)

  // Which hash bucket a job belongs to, and how many clients a hash bucket may hold.
  datatype Cache = Cache(bucketOf: Job -> nat, highWater: nat)

  ghost function IdleAt(s: Sight, at: nat): seq<Node> { if at in s.lru then s.lru[at] else [] }

  // The clients that a hash bucket holds, and how many they are.
  ghost function InBucket(cache: Cache, clients: map<Node, Client>, at: nat): set<Node> {
    set c | c in clients && cache.bucketOf(clients[c].job) == at
  }

  ghost function HeldIn(cache: Cache, clients: map<Node, Client>, at: nat): nat { |InBucket(cache, clients, at)| }

  // ---------- What a step does ----------

  // No client with queued requests is due for a token before c is; of those due with it, none was looked at before it.
  ghost predicate Soonest(clients: map<Node, Client>, c: Node) {
    && c in Busy(clients) && c in clients
    && forall x :: x in Busy(clients) && x in clients ==> NoSooner(clients[x].bucket, clients[c].bucket)
  }

  ghost predicate NoSooner(a: Bucket, b: Bucket) {
    Due(a) > Due(b) || (Due(a) == Due(b) && a.checkTime >= b.checkTime)
  }

  // A soonest client is served if it has a token; otherwise the timer is set to when it gets one, which lies ahead.
  ghost predicate Decided(s: Sight, s': Sight, out: Option<Req>, c: Node, now: nat) {
    && Soonest(s.clients, c) && s.clients[c].bucket.nsecs > 0 && s.clients[c].bucket.checkTime <= now
    && if TokensAt(s.clients[c].bucket, now) > 0 then
         && Serves(s.owner, out, c) && Served(s.clients, s'.clients, c, out.value, now)
         && s' == s.(clients := s'.clients)
       else
         && out.None? && s' == s.(throttling := true, deadline := s'.deadline)
         && FirstToken(s.clients[c].bucket, now, s'.deadline)
  }

  // The bucket gets its next token at the deadline, which lies ahead.
  ghost predicate FirstToken(b: Bucket, now: nat, deadline: nat)
    requires b.nsecs > 0 && b.checkTime <= now
  {
    now < deadline && forall t: nat {:trigger TokensAt(b, t)} :: t >= now ==> (TokensAt(b, t) > 0 <==> t >= deadline)
  }

  // A request of c has been served.
  ghost predicate Serves(owner: map<Req, Node>, out: Option<Req>, c: Node) {
    out.Some? && out.value in owner && owner[out.value] == c
  }

  // The clients with queued requests.
  ghost function Busy(clients: map<Node, Client>): set<Node> { set c | c in clients && clients[c].queue != [] }

  // Request r joins the tail of the queue of the job's client c, which is new or keeps its bucket; only when the heap
  // has no room for a client that was not in it, r is not queued.
  ghost predicate Joined(before: map<Node, Client>, after: map<Node, Client>, c: Node, job: Job, r: Req, full: Bucket) {
    && c in after && after[c].job == job
    && after[c].bucket == (if c in before then before[c].bucket else full)
    && after[c].refs == (if c in before then before[c].refs else 0) + 1
    && (c in before ==> before[c].job == job)
    && var was := if c in before then before[c].queue else [];
    && (after[c].queue == was + [r] || (was == [] == after[c].queue && |Busy(after)| >= HeapPages.CAPACITY))
  }

  // Client c loses a reference.  With the last one it goes to the tail of its idle list, of which the oldest, n in all,
  // are forgotten while the hash bucket holds too many.
  ghost predicate Dropped(cache: Cache, s: Sight, s': Sight, c: Node, n: nat)
    requires c in s.clients && s.clients[c].refs > 0
  {
    var at := cache.bucketOf(s.clients[c].job);
    var last := s.clients[c].refs == 1;
    var idle := if last then IdleAt(s, at) + [c] else IdleAt(s, at);
    && n <= |idle| && (!last ==> n == 0) && IdleAt(s', at) == idle[n..]
    && s'.clients == s.clients[c := s.clients[c].(refs := s.clients[c].refs - 1)] - Members(idle[..n])
    && (last ==> HeldIn(cache, s'.clients, at) <= cache.highWater || n == |idle|)
    && (n > 0 ==> HeldIn(cache, s'.clients, at) >= cache.highWater)
    && forall to :: to != at ==> IdleAt(s', to) == IdleAt(s, to)
  }

  /** What a step does.  A client that is forgotten has no work; a step whose conditions do not hold does nothing. */
  ghost predicate Moved(cache: Cache, op: Op, now: nat, s: Sight, s': Sight, out: Option<Req>) {
    && (forall x :: x in s.clients && x !in s'.clients ==> NoWork(s.clients, s'.owner, x))
    && (!op.Next? && !op.Expire? ==> s'.throttling == s.throttling && s'.deadline == s.deadline)
    && match op
       case Arrive(job, r, nsecs, depth) =>
         if r !in s.owner && nsecs > 0 && depth > 0 then
           && out.None? && r in s'.owner && s'.owner == s.owner[r := s'.owner[r]] && s'.owner[r] in s'.clients
           && s'.clients == s.clients[s'.owner[r] := s'.clients[s'.owner[r]]]
           && Joined(s.clients, s'.clients, s'.owner[r], job, r, Bucket(nsecs, depth, depth, now))
           && forall at :: IdleAt(s', at) ==
                if at == cache.bucketOf(job) then Without(IdleAt(s, at), s'.owner[r]) else IdleAt(s, at)
         else out.None? && s' == s
       case Next =>
         if s.throttling || Busy(s.clients) == {} then out.None? && s' == s
         else exists c :: Decided(s, s', out, c, now)
       case Done(r) =>
         out.None? && if MayFinish(s, r) then
           && s'.owner == s.owner - {r} && s.owner[r] in s.clients && s.clients[s.owner[r]].refs > 0
           && exists n :: Dropped(cache, s, s', s.owner[r], n)
         else s' == s
       case Rate(x, nsecs, depth) =>
         out.None? && s'.owner == s.owner && s'.lru == s.lru && if x in s.clients && nsecs > 0 && depth > 0 then
           && x in s'.clients && s'.clients == s.clients[x := s'.clients[x]]
           && s'.clients[x] == s.clients[x].(bucket := s.clients[x].bucket.(nsecs := nsecs, depth := depth))
         else s' == s
       case Expire => out.None? && s' == s.(throttling := false)
  }

  // A request that has left its queue.
  ghost predicate MayFinish(s: Sight, r: Req) {
    r in s.owner && (s.owner[r] in s.clients ==> r !in s.clients[s.owner[r]].queue)
  }

  // ---------- Rates ----------

  lemma DoneKeeps(cache: Cache, op: Op, now: nat, s: Sight, s': Sight, out: Option<Req>, c: Node)
    requires Moved(cache, op, now, s, s', out) && op.Done? && c in s.clients && c in s'.clients
    ensures s'.clients[c].bucket == s.clients[c].bucket && out.None?
  {
    hide IdleAt, HeldIn;
    if MayFinish(s, op.r) {
      var n :| Dropped(cache, s, s', s.owner[op.r], n);
    }
  }

  // What becomes of the bucket of c in one step: its rule may change, and a request of c that is served spends a token.
  lemma StepBucket(cache: Cache, op: Op, now: nat, s: Sight, s': Sight, out: Option<Req>, c: Node)
    requires Moved(cache, op, now, s, s', out) && c in s.clients && c in s'.clients
    ensures var b, b' := s.clients[c].bucket, s'.clients[c].bucket;
      if Serves(s.owner, out, c) then
        b.nsecs > 0 && b.checkTime <= now && TokensAt(b, now) > 0 && b' == Spend(b, now)
      else if op.Rate? && op.c == c then b' == b || b' == b.(nsecs := op.nsecs, depth := op.depth)
      else b' == b
  {
    if op.Done? {
      DoneKeeps(cache, op, now, s, s', out, c);
    }
    if op.Next? && !s.throttling && Busy(s.clients) != {} {
      var x :| Decided(s, s', out, x, now);
    }
  }

  // How many of the requests served by the steps from i on, up to j, were of c.
  ghost function ServedTo(outs: seq<Option<Req>>, trace: seq<Sight>, c: Node, i: nat, j: nat): nat
    requires j <= |outs| < |trace|
  {
    if j <= i then 0
    else ServedTo(outs, trace, c, i, j - 1) + if Serves(trace[j - 1].owner, outs[j - 1], c) then 1 else 0
  }

  // A run whose steps are as specified.
  ghost predicate Follows(cache: Cache, ops: seq<Op>, times: seq<nat>, outs: seq<Option<Req>>, trace: seq<Sight>) {
    && |ops| == |times| == |outs| && |trace| == |ops| + 1
    && forall i :: 0 <= i < |ops| ==> Moved(cache, ops[i], times[i], trace[i], trace[i + 1], outs[i])
  }

  // From state i to state j client c is cached, its interval never drops below m, and its depth never exceeds d.
  ghost predicate Ruled(trace: seq<Sight>, c: Node, m: nat, d: nat, i: nat, j: nat) {
    j < |trace| && forall k :: i <= k <= j ==>
      c in trace[k].clients && trace[k].clients[c].bucket.nsecs >= m && trace[k].clients[c].bucket.depth <= d
  }

  /** The rate bound of any run, for a client that is cached all the while and whose interval never drops below m. */
  lemma {:induction false} RateBound(cache: Cache, ops: seq<Op>, times: seq<nat>, outs: seq<Option<Req>>,
                                     trace: seq<Sight>, c: Node, m: nat, d: nat, n: nat)
    requires Follows(cache, ops, times, outs, trace) && n <= |ops| && m > 0 && Ruled(trace, c, m, d, 0, n)
    ensures Bounded(trace[0].clients[c].bucket, trace[n].clients[c].bucket, ServedTo(outs, trace, c, 0, n), m)
  {
    hide Moved, Bounded, SpentOrSame, Serves;
    var b := trace[0].clients[c].bucket;
    if n == 0 {
      BoundedAtFirst(b, m);
    } else {
      RateBound(cache, ops, times, outs, trace, c, m, d, n - 1);
      var s, s', out := trace[n - 1], trace[n], outs[n - 1];
      var spent := Serves(s.owner, out, c);
      StepBucket(cache, ops[n - 1], times[n - 1], s, s', out, c);
      if spent {
        SpendBound(s.clients[c].bucket, times[n - 1], m);
      }
      UnspentSame(s.clients[c].bucket, s'.clients[c].bucket, times[n - 1], m, spent);
      var served := ServedTo(outs, trace, c, 0, n - 1);
      BoundedStep(b, s.clients[c].bucket, s'.clients[c].bucket, times[n - 1], served, m, spent);
    }
  }

  lemma UnspentSame(b: Bucket, b': Bucket, now: nat, m: nat, spent: bool)
    requires m > 0 && b'.nsecs >= m && (spent ==> SpentOrSame(b, b', now, m, true))
    requires !spent ==> b'.tokens == b.tokens && b'.checkTime == b.checkTime
    ensures SpentOrSame(b, b', now, m, spent)
  {
  }

  /** The burst that the depth allows: of a client whose depth never exceeds d, no more requests are served between two
    * times than d and one for every m of the time between them.
    */
  lemma BurstBound(cache: Cache, ops: seq<Op>, times: seq<nat>, outs: seq<Option<Req>>, trace: seq<Sight>, c: Node,
                   m: nat, d: nat, i: nat, j: nat)
    requires Follows(cache, ops, times, outs, trace) && i < j <= |ops| && m > 0 && Ruled(trace, c, m, d, i, j)
    requires forall k, l :: 0 <= k <= l < |times| ==> times[k] <= times[l]
    ensures ServedTo(outs, trace, c, i, j) <= d + (times[j - 1] - times[i]) / m
  {
    hide Moved, Burst, Serves;
    BurstSoFar(cache, ops, times, outs, trace, c, m, d, i, j);
    BurstLater(trace[j].clients[c].bucket, times[i], times[j - 1], ServedTo(outs, trace, c, i, j), d, m);
  }

  lemma {:induction false} BurstSoFar(cache: Cache, ops: seq<Op>, times: seq<nat>, outs: seq<Option<Req>>,
                                      trace: seq<Sight>, c: Node, m: nat, d: nat, i: nat, j: nat)
    requires Follows(cache, ops, times, outs, trace) && i <= j <= |ops| && i < |ops| && m > 0
    requires Ruled(trace, c, m, d, i, j) && forall k, l :: 0 <= k <= l < |times| ==> times[k] <= times[l]
    ensures Burst(trace[j].clients[c].bucket, times[i], ServedTo(outs, trace, c, i, j), d, m)
    ensures ServedTo(outs, trace, c, i, j) > 0 ==> i < j && trace[j].clients[c].bucket.checkTime <= times[j - 1]
  {
    hide Moved, Serves, TokensAt;
    if i < j {
      BurstSoFar(cache, ops, times, outs, trace, c, m, d, i, j - 1);
      var s, s', out := trace[j - 1], trace[j], outs[j - 1];
      StepBucket(cache, ops[j - 1], times[j - 1], s, s', out, c);
      if Serves(s.owner, out, c) {
        BurstStep(s.clients[c].bucket, s'.clients[c].bucket, times[i], times[j - 1],
                  ServedTo(outs, trace, c, i, j - 1), d, m);
        SpendsNow(s.clients[c].bucket, times[j - 1]);
      }
    }
  }

  lemma SpendsNow(b: Bucket, now: nat)
    requires b.nsecs > 0 && b.checkTime <= now && TokensAt(b, now) > 0
    ensures Spend(b, now).checkTime == now
  {
  }
}
