/** Powers of two, in which the source counts with shifts and masks. */
module Powers {
  function Pow2(n: nat): (r: nat)
    ensures r > 0
  {
    if n == 0 then 1 else 2 * Pow2(n - 1)
  }

  lemma {:induction false} Pow2Sum(i: nat, j: nat)
    ensures Pow2(i + j) == Pow2(i) * Pow2(j)
  {
    if i > 0 {
      Pow2Sum(i - 1, j);
    }
  }

  lemma Pow2Is256()
    ensures Pow2(8) == 256
  {
    assert Pow2(4) == 16;
  }

  // The low bits of x, and what a right shift leaves of it.
  function LowBits(x: nat, bits: nat): (r: nat)
    ensures r < Pow2(bits)
  {
    x % Pow2(bits)
  }

  function ShiftRight(x: nat, bits: nat): nat
    decreases bits
  {
    if bits == 0 then x else ShiftRight(x / 2, bits - 1)
  }

  // A shift takes as many bits away as it says.
  lemma {:induction false} ShiftBelow(x: nat, bits: nat, n: nat)
    requires n <= bits && x < Pow2(bits)
    ensures ShiftRight(x, n) < Pow2(bits - n)
    decreases n
  {
    if n > 0 {
      ShiftBelow(x / 2, bits - 1, n - 1);
    }
  }

  // ---------- Quotients ----------

  lemma BelowProduct(q: int, p: int, m: nat)
    requires m > 0 && q * m < p * m
    ensures q < p
  {
  }

  lemma QuotientReaches(a: nat, m: nat, k: nat)
    requires m > 0
    ensures k <= a / m <==> k * m <= a
  {
    var q := a / m;
    assert q * m <= a < (q + 1) * m;
    if k * m <= a {
      BelowProduct(k, q + 1, m);
    }
    if k <= q {
      assert (q - k) * m == q * m - k * m;
    }
  }

  function Quotient(x: nat, m: nat): nat
    requires m > 0
  {
    x / m
  }

  lemma QuotientOf(x: nat, m: nat, n: nat)
    requires m > 0 && n > 0
    ensures m * n > 0 && (x / m) / n == x / (m * n)
  {
    var k := m * n;
    assert k > 0;
    QuotientInSteps(x, m, n, k);
  }

  lemma QuotientInSteps(x: nat, m: nat, n: nat, k: nat)
    requires m > 0 && n > 0 && k == m * n && k > 0
    ensures Quotient(Quotient(x, m), n) == Quotient(x, k)
  {
    hide Quotient;
    ReachesBoth(x, m, n, k, Quotient(Quotient(x, m), n));
    ReachesBoth(x, m, n, k, Quotient(x, k));
  }

  lemma ReachesBoth(x: nat, m: nat, n: nat, k: nat, i: nat)
    requires m > 0 && n > 0 && k == m * n && k > 0
    ensures i <= Quotient(Quotient(x, m), n) <==> i <= Quotient(x, k)
  {
    QuotientReaches(x / m, n, i);
    QuotientReaches(x, m, i * n);
    QuotientReaches(x, k, i);
    Regroup(i, n, m);
  }

  lemma Regroup(k: nat, n: nat, m: nat)
    ensures k * n * m == k * (m * n)
  {
  }

  /** A right shift is a division by a power of two. */
  lemma {:induction false} ShiftDivides(x: nat, n: nat)
    ensures ShiftRight(x, n) == x / Pow2(n)
    decreases n
  {
    if n > 0 {
      ShiftDivides(x / 2, n - 1);
      QuotientOf(x, 2, Pow2(n - 1));
    }
  }

  // The low bits of the low bits are low bits.
  lemma LowOfLow(x: nat, bits: nat, k: nat)
    requires k <= bits
    ensures LowBits(LowBits(x, bits), k) == LowBits(x, k)
  {
    Pow2Sum(k, bits - k);
    RemainderOf(x, Pow2(k), Pow2(bits - k));
  }

  lemma RemainderOf(x: nat, m: nat, n: nat)
    requires m > 0 && n > 0
    ensures m * n > 0 && (x % (m * n)) % m == x % m
  {
    assert m * n > 0;
    var q, r := x / (m * n), x % (m * n);
    assert x == q * (m * n) + r;
    Regroup(q, n, m);
    SameRemainder(r, q * n, m);
  }

  lemma SameRemainder(r: nat, k: nat, m: nat)
    requires m > 0
    ensures (k * m + r) % m == r % m
  {
    var q, s := r / m, r % m;
    assert r == q * m + s;
    assert k * m + r == (k + q) * m + s;
    RemainderOnce(k * m + r, k + q, s, m);
  }

  lemma RemainderOnce(x: nat, q: nat, r: nat, m: nat)
    requires m > 0 && r < m && x == q * m + r
    ensures x / m == q && x % m == r
  {
    var p := x / m;
    assert p * m <= x < (p + 1) * m && x == p * m + x % m;
    assert q * m <= x < (q + 1) * m;
    BelowProduct(q, p + 1, m);
    BelowProduct(p, q + 1, m);
  }
}
