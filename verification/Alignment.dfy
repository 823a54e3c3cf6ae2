/** Clipping and aligning a grown lock extent with 64-bit wraparound arithmetic. */
module Alignment {
  import opened Words
  import opened LockModes
  import opened Powers

  const WORD: int := 0x1_0000_0000_0000_0000
  const PAGE: u64 := 0x1000
  const MAX_GROWN_EXTENT: u64 := 32 * 1024 * 1024 - 1
  const OBJECT_EOF: u64 := MAX_U64

  function Wrap(x: int): u64 { x % WORD }

  predicate Within(a: Extent, b: Extent) { b.start <= a.start && a.end <= b.end }

  predicate PageAligned(e: Extent) { e.start % PAGE == 0 && Wrap(e.end + 1) % PAGE == 0 && e.start <= e.end }

  // Bitwise operations against a power of two p: x & p, x | (p - 1), x & ~(p - 1).
  predicate HasBit(x: u64, p: int)
    requires p > 0
  {
    (x / p) % 2 == 1
  }
  function OrMask(x: u64, p: u64): u64
    requires p > 0 && WORD % p == 0
  {
    OrMaskFits(x, p);
    x - x % p + (p - 1)
  }
  function AndNotMask(x: u64, p: u64): u64
    requires p > 0
  {
    x - x % p
  }

  lemma MultiplesOrdered(i: int, j: int, p: int)
    requires p > 0
    ensures i <= j <==> i * p <= j * p
  {
    assert (j - i) * p == j * p - i * p;
  }

  lemma OrMaskFits(x: u64, p: u64)
    requires p > 0 && WORD % p == 0
    ensures 0 <= x - x % p + (p - 1) < WORD
  {
    var q, n := x / p, WORD / p;
    assert x - x % p == q * p && n * p == WORD;
    MultiplesOrdered(n, q, p);
    MultiplesOrdered(q + 1, n, p);
  }

  ghost predicate PowerOfTwo(p: int) { p == 1 || (p > 0 && p % 2 == 0 && PowerOfTwo(p / 2)) }

  lemma {:induction false} Pow2IsPower(n: nat)
    ensures PowerOfTwo(Pow2(n))
  {
    if n > 0 {
      Pow2IsPower(n - 1);
    }
  }

  lemma {:induction false} PowerDividesWord(p: int, w: int)
    requires PowerOfTwo(p) && PowerOfTwo(w) && p <= w
    ensures w % p == 0
  {
    if p > 1 {
      PowerDividesWord(p / 2, w / 2);
      var k := (w / 2) / (p / 2);
      assert w == k * p;
      MultipleMod(k, p);
    }
  }

  lemma MultipleMod(k: int, p: int)
    requires p > 0
    ensures (k * p) % p == 0
  {
    var q, r := (k * p) / p, (k * p) % p;
    assert (k - q) * p == r;
    MultiplesOrdered(1, k - q, p);
    MultiplesOrdered(k - q, -1, p);
  }

  lemma DoubleDivides(x: int, p: int)
    requires p > 0 && x >= 0 && x % p == 0 && (x / p) % 2 == 0
    ensures x % (2 * p) == 0
  {
    var k := x / p;
    assert x == (k / 2) * (2 * p);
    MultipleMod(k / 2, 2 * p);
  }

  lemma DividesBelow(x: int, p: int)
    requires p > 0 && x > 0 && x % p == 0
    ensures p <= x
  {
  }

  lemma NotDoubled(x: int, p: int)
    requires p > 0 && x >= 0 && x % p == 0 && (x / p) % 2 == 1
    ensures x % (2 * p) != 0
  {
    var k, q := x / (2 * p), x / p;
    assert x - x % (2 * p) == (2 * k) * p && x == q * p;
    MultiplesOrdered(q, 2 * k, p);
    MultiplesOrdered(q, 2 * k + 2, p);
    MultiplesOrdered(2 * k, q, p);
    MultiplesOrdered(2 * k + 1, q, p);
  }

  /** The common alignment p of a page-aligned request: the lowest bit at or above the page size that is set in
    * (end + 1) | start, the page size itself when no bit is set.
    */
  ghost predicate CommonAlign(req: Extent, p: u64) {
    && PowerOfTwo(p) && PAGE <= p && req.start % p == 0 && Wrap(req.end + 1) % p == 0
    && LowestBit(req.start, Wrap(req.end + 1), p)
  }

  ghost predicate LowestBit(x: u64, y: u64, p: u64)
    requires p > 0
  {
    if x == 0 == y then p == PAGE else x % (2 * p) != 0 || y % (2 * p) != 0
  }

  // The loop that shifts the mask up to the lowest set bit.
  method FindAlign(req: Extent) returns (mask: u64)
    requires PageAligned(req)
    ensures CommonAlign(req, mask) && mask > 0
  {
    hide PowerOfTwo, HasBit, LowestBit;
    var next: u64 := Wrap(req.end + 1);
    mask := PAGE;
    PageIsPower();
    if next == 0 && req.start == 0 {
      NoBit(mask);
      return;
    }
    while !HasBit(next, mask) && !HasBit(req.start, mask)
      invariant PowerOfTwo(mask) && PAGE <= mask && req.start % mask == 0 && next % mask == 0
      decreases WORD - mask
    {
      DoubleMask(next, req.start, mask);
      mask := 2 * mask;
    }
    BitFound(req.start, next, mask);
  }

  // The mask after n rounds of the loop: it is shifted out of the word in the end.
  ghost function Shifted(n: nat): u64 { if n == 0 then PAGE else Wrap(2 * Shifted(n - 1)) }

  // (req_align & mask) != 0
  ghost predicate Meets(req: Extent, mask: u64) {
    mask > 0 && (HasBit(Wrap(req.end + 1), mask) || HasBit(req.start, mask))
  }

  // The search is not entered when no bit is set at all; otherwise some round of its loop must meet a set bit.
  ghost predicate SearchEnds(req: Extent) {
    (req.start == 0 && Wrap(req.end + 1) == 0) || exists n: nat :: Meets(req, Shifted(n))
  }

  lemma {:induction false} ShiftedIs(n: nat)
    ensures Shifted(n) == if n < 52 then Pow2(12 + n) else 0
  {
    WordPowers();
    if n > 0 {
      ShiftedIs(n - 1);
      if n <= 52 {
        PowersGrow(12 + n, 64);
        NextPower(11 + n);
        hide Pow2, Wrap;
        WrapFacts(Pow2(12 + n));
        LastPower(12 + n);
      }
    }
  }

  lemma NextPower(n: nat)
    ensures Pow2(n + 1) == 2 * Pow2(n)
  {
  }

  // Only 2^64 itself does not fit in the word.
  lemma LastPower(n: nat)
    requires n <= 64
    ensures Pow2(n) < WORD <==> n < 64
  {
    WordPowers();
    if n < 64 {
      PowersGrow(n + 1, 64);
      NextPower(n);
      hide Pow2;
    }
  }

  lemma {:induction false} PowersGrow(n: nat, k: nat)
    requires n <= k
    ensures Pow2(n) <= Pow2(k)
  {
    if n < k {
      PowersGrow(n, k - 1);
    }
  }

  lemma OnceInside(x: u64, p: int)
    requires 0 < p <= x < 2 * p
    ensures HasBit(x, p)
  {
    var q := x / p;
    assert x - x % p == q * p;
    MultiplesOrdered(q, 0, p);
    MultiplesOrdered(2, q, p);
  }

  lemma {:induction false} TopBit(x: u64, m: nat, n: nat) returns (k: nat)
    requires m < n && Pow2(m) <= x < Pow2(n)
    ensures m <= k < n && HasBit(x, Pow2(k))
    decreases n
  {
    hide HasBit;
    if x < Pow2(n - 1) {
      k := TopBit(x, m, n - 1);
    } else {
      k := n - 1;
      OnceInside(x, Pow2(k));
    }
  }

  lemma NeverInside(x: u64, p: int)
    requires x < p
    ensures !HasBit(x, p)
  {
    var q := x / p;
    assert x - x % p == q * p;
    MultiplesOrdered(q, -1, p);
    MultiplesOrdered(1, q, p);
  }

  lemma NoBitAbove(x: u64, n: nat, k: nat)
    requires n <= k && x < Pow2(n)
    ensures !HasBit(x, Pow2(k))
  {
    PowersGrow(n, k);
    hide Pow2, HasBit;
    NeverInside(x, Pow2(k));
  }

  /** For any request, page-aligned or not: the search ends if and only if neither edge has a bit set, or one of them,
    * the start or the byte after the end, lies beyond the first page.
    */
  lemma MaskSearchEnds(req: Extent)
    ensures var next := Wrap(req.end + 1);
      SearchEnds(req) <==> (req.start == 0 && next == 0) || req.start >= PAGE || next >= PAGE
  {
    WordPowers();
    hide Pow2, Wrap, HasBit;
    var next := Wrap(req.end + 1);
    if req.start >= PAGE || next >= PAGE {
      var k := TopBit(if req.start >= PAGE then req.start else next, 12, 64);
      ShiftedIs(k - 12);
      assert Meets(req, Shifted(k - 12));
    } else {
      forall n: nat ensures !Meets(req, Shifted(n)) {
        ShiftedIs(n);
        if n < 52 {
          NoBitAbove(req.start, 12, 12 + n);
          NoBitAbove(next, 12, 12 + n);
        }
      }
    }
  }

  // The first half of the first page: the loop would shift the mask out of the word and go on for ever.
  lemma HalfPageNeverEnds()
    ensures !SearchEnds(Extent(0, 0x7ff))
  {
    MaskSearchEnds(Extent(0, 0x7ff));
    WrapFacts(0x800);
  }

  lemma PageIsPower()
    ensures PowerOfTwo(PAGE)
  {
    Pow2IsPower(12);
  }

  lemma NoBit(p: u64)
    requires p == PAGE
    ensures LowestBit(0, 0, p)
  {
  }

  lemma DoubleMask(x: u64, y: u64, p: u64)
    requires PowerOfTwo(p) && PAGE <= p && x % p == 0 && y % p == 0 && !HasBit(x, p) && !HasBit(y, p)
    requires x != 0 || y != 0
    ensures PowerOfTwo(2 * p) && x % (2 * p) == 0 && y % (2 * p) == 0 && 2 * p < WORD
  {
    DoubleDivides(x, p);
    DoubleDivides(y, p);
    DividesBelow(if x != 0 then x else y, 2 * p);
  }

  lemma BitFound(x: u64, y: u64, p: u64)
    requires p > 0 && x % p == 0 && y % p == 0 && (HasBit(x, p) || HasBit(y, p))
    ensures LowestBit(x, y, p)
  {
    ZeroMod(p);
    if HasBit(x, p) {
      NotDoubled(x, p);
    } else {
      NotDoubled(y, p);
    }
  }

  // A highly contended write lock reaches no further than MAX_GROWN_EXTENT beyond the start of the request.
  ghost function ClippedEnd(mode: Mode, req: Extent, end: u64, conflicting: nat): u64 {
    var reach := Wrap(req.start + MAX_GROWN_EXTENT);
    if conflicting > 32 && (mode.PW? || mode.CW?) && req.end < reach then Min(reach, end) else end
  }

  function AlignedStart(start: u64, p: u64): u64
    requires p > 0 && WORD % p == 0
  {
    Wrap(OrMask(Wrap(start - 1), p) + 1)
  }

  function AlignedEnd(end: u64, p: u64): u64
    requires p > 0
  {
    Wrap(AndNotMask(Wrap(end + 1), p) - 1)
  }

  // fixed has both edges on multiples of p and lies less than p inside e at either edge.
  ghost predicate AlignedInside(fixed: Extent, e: Extent, p: u64)
    requires p > 0
  {
    && fixed.start % p == 0 && e.start <= fixed.start < e.start + p
    && Wrap(fixed.end + 1) % p == 0 && fixed.end <= e.end < fixed.end + p
  }

  lemma RoundUp(x: int, req: int, p: int)
    requires p > 0 && req % p == 0 && 0 <= x < req
    ensures var r := x - x % p + p; r % p == 0 && x < r <= x + p && r <= req
  {
    var q, k := x / p, req / p;
    assert x - x % p + p == (q + 1) * p && req == k * p;
    MultiplesOrdered(k, q, p);
    MultiplesOrdered(q + 1, k, p);
    MultipleMod(q + 1, p);
  }

  lemma RoundDown(x: int, req: int, p: int)
    requires p > 0 && req % p == 0 && 0 <= req <= x
    ensures var r := x - x % p; r % p == 0 && req <= r <= x < r + p
  {
    var q, k := x / p, req / p;
    assert x - x % p == q * p && req == k * p;
    MultiplesOrdered(q + 1, k, p);
    MultiplesOrdered(k, q, p);
    MultipleMod(q, p);
  }

  lemma BelowMultiple(n: int, p: int)
    requires p > 0 && n > 0 && n % p == 0
    ensures (n - 1) % p == p - 1
  {
    var k, q := n / p, (n - 1) / p;
    assert n == k * p && n - 1 - (n - 1) % p == q * p;
    MultiplesOrdered(k, q, p);
    MultiplesOrdered(k - 1, q, p);
  }

  lemma ZeroMod(p: int)
    requires p > 0
    ensures 0 % p == 0
  {
  }

  lemma WrapFacts(x: int)
    requires -1 <= x <= WORD
    ensures Wrap(x) == if x == -1 then MAX_U64 else if x == WORD then 0 else x
  {
  }

  lemma StartAligned(req: u64, start: u64, p: u64)
    requires p > 0 && WORD % p == 0 && req % p == 0 && start <= req
    ensures AlignedStart(start, p) <= req
    ensures AlignedStart(start, p) % p == 0 && start <= AlignedStart(start, p) < start + p
  {
    hide Wrap;
    ZeroMod(p);
    WrapFacts(start - 1);
    if start > 0 {
      RoundUp(start - 1, req, p);
      WrapFacts(OrMask(start - 1, p) + 1);
    } else {
      BelowMultiple(WORD, p);
      assert OrMask(MAX_U64, p) == MAX_U64;
      WrapFacts(WORD);
    }
  }

  lemma EndAligned(req: u64, end: u64, p: u64)
    requires p > 0 && Wrap(req + 1) % p == 0 && req <= end
    ensures req <= AlignedEnd(end, p)
    ensures Wrap(AlignedEnd(end, p) + 1) % p == 0 && AlignedEnd(end, p) <= end < AlignedEnd(end, p) + p
  {
    hide Wrap;
    ZeroMod(p);
    WrapFacts(end + 1);
    WrapFacts(req + 1);
    if end < MAX_U64 {
      RoundDown(end + 1, req + 1, p);
      var r := AndNotMask(end + 1, p);
      WrapFacts(r - 1);
      WrapFacts(r);
    } else {
      assert AndNotMask(0, p) == 0;
      WrapFacts(-1);
    }
  }

  lemma AlignDivides(req: Extent, p: u64)
    requires CommonAlign(req, p)
    ensures p > 0 && WORD % p == 0 && req.start % p == 0 && Wrap(req.end + 1) % p == 0
  {
    hide Wrap, LowestBit, PowerOfTwo;
    WordIsPower();
    PowerDividesWord(p, WORD);
  }

  lemma WordIsPower()
    ensures PowerOfTwo(WORD)
  {
    hide PowerOfTwo;
    Pow2IsPower(64);
    WordPowers();
  }

  lemma WordPowers()
    ensures Pow2(12) == PAGE && Pow2(64) == WORD
  {
    Pow2Is256();
    assert Pow2(4) == 16;
    hide Pow2;
    Pow2Sum(4, 8);
    Pow2Sum(8, 8);
    Pow2Sum(16, 16);
    Pow2Sum(32, 32);
  }

  lemma AlignsInside(req: Extent, e: Extent, p: u64)
    requires CommonAlign(req, p) && Within(req, e)
    ensures p > 0 && WORD % p == 0
    ensures var fixed := Extent(AlignedStart(e.start, p), AlignedEnd(e.end, p));
      Within(req, fixed) && Within(fixed, e) && AlignedInside(fixed, e, p)
  {
    hide Wrap, CommonAlign, AlignedStart, AlignedEnd;
    AlignDivides(req, p);
    StartAligned(req.start, e.start, p);
    EndAligned(req.end, e.end, p);
  }

  // fixed is e after clipping for n conflicting locks and after alignment to p, unless it is the whole object.
  ghost predicate FixedUp(mode: Mode, req: Extent, e: Extent, n: nat, fixed: Extent, p: u64) {
    var clipped := e.(end := ClippedEnd(mode, req, e.end, n));
    if clipped == Extent(0, OBJECT_EOF) then fixed == clipped
    else CommonAlign(req, p) && p > 0 && AlignedInside(fixed, clipped, p)
  }

  // A contended writer reaches at most to the last byte of the 32 MiB that begin with its request.
  lemma ContendedReach(mode: Mode, req: Extent, end: u64, n: nat)
    requires (mode.PW? || mode.CW?) && req.end < req.start + 0x1ff_ffff <= end
    ensures ClippedEnd(mode, req, end, n) == if n > 32 then req.start + 33554431 else end
  {
    WrapFacts(req.start + 0x1ff_ffff);
  }

  // ---------- Clipping and alignment leave no choice ----------

  lemma MultipleOnce(a: int, b: int, p: int)
    requires p > 0 && a % p == 0 && b % p == 0 && a < b + p && b < a + p
    ensures a == b
  {
    var i, j := a / p, b / p;
    assert a - a % p == i * p && b - b % p == j * p;
    MultiplesOrdered(j + 1, i, p);
    MultiplesOrdered(i + 1, j, p);
  }

  lemma DividesThrough(x: int, q: int, p: int)
    requires p > 0 && q > 0 && q % p == 0 && x % q == 0
    ensures x % p == 0
  {
    var i, j := x / q, q / p;
    assert x == i * q && q == j * p;
    assert i * (j * p) == (i * j) * p;
    MultipleMod(i * j, p);
  }

  lemma {:induction false} PowersApart(p: int, q: int)
    requires PowerOfTwo(p) && PowerOfTwo(q) && p < q
    ensures PowerOfTwo(2 * p) && 2 * p <= q && q % (2 * p) == 0
  {
    if p > 1 {
      PowersApart(p / 2, q / 2);
    }
    PowerDividesWord(2 * p, q);
  }

  lemma AlignOnce(req: Extent, p: u64, q: u64)
    requires CommonAlign(req, p) && CommonAlign(req, q)
    ensures p == q
  {
    hide Wrap, PowerOfTwo;
    NoLowerAlign(req, p, q);
    NoLowerAlign(req, q, p);
  }

  // A lower common alignment would not be that of the lowest bit.
  lemma NoLowerAlign(req: Extent, p: u64, q: u64)
    requires CommonAlign(req, p) && CommonAlign(req, q)
    ensures q <= p
  {
    hide Wrap, PowerOfTwo;
    if p < q {
      PowersApart(p, q);
      DividesThrough(req.start, q, 2 * p);
      DividesThrough(Wrap(req.end + 1), q, 2 * p);
    }
  }

  lemma InsideOnce(a: Extent, b: Extent, e: Extent, p: u64)
    requires p > 0 && WORD % p == 0 && AlignedInside(a, e, p) && AlignedInside(b, e, p)
    ensures a == b
  {
    hide Wrap;
    WrapFacts(a.end + 1);
    WrapFacts(b.end + 1);
    MultipleOnce(a.start, b.start, p);
    MultipleOnce(a.end + 1, b.end + 1, p);
  }

  lemma FixedOnce(mode: Mode, req: Extent, e: Extent, n: nat, a: Extent, p: u64, b: Extent, q: u64)
    requires FixedUp(mode, req, e, n, a, p) && FixedUp(mode, req, e, n, b, q)
    ensures a == b
  {
    hide CommonAlign, AlignedInside, ClippedEnd;
    var clipped := e.(end := ClippedEnd(mode, req, e.end, n));
    if clipped != Extent(0, OBJECT_EOF) {
      AlignOnce(req, p, q);
      AlignDivides(req, p);
      InsideOnce(a, b, clipped, p);
    }
  }

  /** Clips a grown extent and shrinks it to the alignment of the request, which it still contains. */
  method Fixup(mode: Mode, req: Extent, e: Extent, conflicting: nat) returns (fixed: Extent, ghost p: u64)
    requires PageAligned(req) && Within(req, e)
    ensures Within(req, fixed) && Within(fixed, e) && FixedUp(mode, req, e, conflicting, fixed, p)
  {
    hide Wrap, CommonAlign, AlignedInside, AlignedStart, AlignedEnd, PageAligned;
    var end := e.end;
    if conflicting > 32 && (mode.PW? || mode.CW?) {
      if req.end < Wrap(req.start + MAX_GROWN_EXTENT) {
        end := Min(Wrap(req.start + MAX_GROWN_EXTENT), end);
      }
    }
    if e.start == 0 && end == OBJECT_EOF {
      return e, 0;
    }
    var mask := FindAlign(req);
    p := mask;
    AlignsInside(req, Extent(e.start, end), mask);
    fixed := Extent(AlignedStart(e.start, mask), AlignedEnd(end, mask));
  }
}
