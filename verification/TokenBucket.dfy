/** A token bucket that is filled when it is looked at, and the rate that it keeps. */
module TokenBucket {
  import opened Powers

  // Tokens at hand at the check-point time; a new one comes every nsecs.
  datatype Bucket = Bucket(nsecs: nat, tokens: nat, depth: nat, checkTime: nat)

  // When the first token comes that is not at hand yet.
  function Due(b: Bucket): nat { b.checkTime + b.nsecs }

  // The tokens at time now: whole intervals that have passed, up to the depth of the bucket.
  function TokensAt(b: Bucket, now: nat): nat
    requires b.nsecs > 0 && b.checkTime <= now
  {
    var ntoken := (now - b.checkTime) / b.nsecs + b.tokens;
    if ntoken > b.depth then b.depth else ntoken
  }

  // What a dequeue at time now does to the bucket; without a token it changes nothing.
  function Spend(b: Bucket, now: nat): Bucket
    requires b.nsecs > 0 && b.checkTime <= now
  {
    var ntoken := TokensAt(b, now);
    if ntoken > 0 then b.(tokens := ntoken - 1, checkTime := now) else b
  }

  /** The tokens at time now, told without a division: n of them are there if the bucket holds n, and they were there at
    * the check-point or so many intervals have passed since.
    */
  lemma TokensAtMeans(b: Bucket, now: nat, n: nat)
    requires b.nsecs > 0 && b.checkTime <= now
    ensures n <= TokensAt(b, now) <==>
      n <= b.depth && (n <= b.tokens || (n - b.tokens) * b.nsecs <= now - b.checkTime)
  {
    if n > b.tokens {
      QuotientReaches(now - b.checkTime, b.nsecs, n - b.tokens);
    }
  }

  // An empty bucket gets its next token when it is due, and not before.
  lemma DueMeans(b: Bucket, now: nat)
    requires b.nsecs > 0 && b.depth > 0 && b.tokens == 0 && b.checkTime <= now
    ensures TokensAt(b, now) > 0 <==> now >= b.checkTime + b.nsecs
    ensures TokensAt(b, now) > 0 <==> now >= Due(b)
  {
    TokensAtMeans(b, now, 1);
  }

  lemma QuotientOrdered(a: nat, m: nat, n: nat)
    requires 0 < m <= n
    ensures a / n <= a / m
  {
    var q, p := a / n, a / m;
    assert q * m <= q * n <= a;
    assert a < (p + 1) * m;
    BelowProduct(q, p + 1, m);
  }

  lemma QuotientSum(a: nat, b: nat, m: nat)
    requires m > 0
    ensures a / m + b / m <= (a + b) / m
  {
    var q, p, r := a / m, b / m, (a + b) / m;
    assert q * m <= a && p * m <= b && a + b < (r + 1) * m;
    assert (q + p) * m == q * m + p * m;
    BelowProduct(q + p, r + 1, m);
  }

  // ---------- The rate ----------

  // The bucket lost nothing, or one token of those that it had and of those that came since, one for every m of time.
  ghost predicate SpentOrSame(before: Bucket, after: Bucket, now: nat, m: nat, spent: bool)
    requires m > 0
  {
    && after.nsecs >= m
    && if spent then
         && before.checkTime <= now == after.checkTime
         && after.tokens + 1 <= before.tokens + (now - before.checkTime) / m
       else after.tokens == before.tokens && after.checkTime == before.checkTime
  }

  lemma SpendBound(b: Bucket, now: nat, m: nat)
    requires m > 0 && b.nsecs > 0 && b.checkTime <= now
    ensures b.nsecs >= m ==> SpentOrSame(b, Spend(b, now), now, m, TokensAt(b, now) > 0)
  {
    if b.nsecs >= m {
      QuotientOrdered(now - b.checkTime, m, b.nsecs);
    }
  }

  // k requests served between the two states of a bucket are within its rate.
  ghost predicate Bounded(b: Bucket, c: Bucket, k: nat, m: nat)
    requires m > 0
  {
    b.checkTime <= c.checkTime && k + c.tokens <= b.tokens + (c.checkTime - b.checkTime) / m
  }

  lemma BoundedAtFirst(b: Bucket, m: nat)
    requires m > 0
    ensures Bounded(b, b, 0, m)
  {
    assert 0 / m == 0;
  }

  lemma BoundedStep(b: Bucket, c: Bucket, d: Bucket, now: nat, k: nat, m: nat, spent: bool)
    requires m > 0 && Bounded(b, c, k, m) && SpentOrSame(c, d, now, m, spent)
    ensures Bounded(b, d, if spent then k + 1 else k, m) && d.nsecs >= m
  {
    if spent {
      QuotientSum(c.checkTime - b.checkTime, now - c.checkTime, m);
    }
  }

  // What k requests served since time s, the last of them at the check-point, leave in a bucket of depth at most d.
  ghost predicate Burst(c: Bucket, s: nat, k: nat, d: nat, m: nat)
    requires m > 0
  {
    k == 0 || (s <= c.checkTime && k + c.tokens <= d + (c.checkTime - s) / m)
  }

  lemma BurstStep(c: Bucket, c': Bucket, s: nat, now: nat, k: nat, d: nat, m: nat)
    requires c.nsecs >= m > 0 && c.depth <= d && c.checkTime <= now && s <= now && Burst(c, s, k, d, m)
    requires TokensAt(c, now) > 0 && c' == Spend(c, now)
    ensures Burst(c', s, k + 1, d, m)
  {
    if k > 0 {
      QuotientOrdered(now - c.checkTime, m, c.nsecs);
      QuotientSum(c.checkTime - s, now - c.checkTime, m);
    }
  }

  lemma BurstLater(c: Bucket, s: nat, e: nat, k: nat, d: nat, m: nat)
    requires m > 0 && Burst(c, s, k, d, m) && s <= e && (k > 0 ==> c.checkTime <= e)
    ensures k <= d + (e - s) / m
  {
    if k > 0 {
      var more := e - c.checkTime;
      assert 0 <= more / m;
      QuotientSum(c.checkTime - s, more, m);
    }
  }
}
