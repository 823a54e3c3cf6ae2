/** What the steps of clients and of the resize worker do to a hash table, for a reader who knows nothing of buckets
  * and chains. */
module HashSteps {
  import opened Options
  import opened Powers
  import opened HashStore

  datatype Step =
    | Find(key: Key)
    | Insert(e: Entry)
    | Claim(e: Entry)
    | Erase(key: Key)
    | Unlink(e: Entry)
    | Resize
    | Begin
    | Migrate

  // ---------- The contents ----------

  // out is an entry with the key, if there is any.
  ghost predicate AnyOf(entries: set<Entry>, key: Key, out: Option<Entry>) {
    if out.Some? then out.value in entries && out.value.key == key else forall x :: x in entries ==> x.key != key
  }

  // What a multimap that knows nothing of buckets would do, and hand back.
  ghost predicate Follows(step: Step, before: set<Entry>, after: set<Entry>, out: Option<Entry>) {
    match step
    case Find(key) => after == before && AnyOf(before, key, out)
    case Insert(e) => after == before + {e} && out.None?
    case Claim(e) =>
      if e in before then after == before && out.None?
      else if exists x :: x in before && x.key == e.key then after == before && out.Some? && AnyOf(before, e.key, out)
      else after == before + {e} && out == Some(e)
    case Erase(key) => AnyOf(before, key, out) && after == if out.Some? then before - {out.value} else before
    case Unlink(e) => after == before - {e} && out == Some(e)
    case Resize => after == before && out.None?
    case Begin => after == before && out.None?
    case Migrate => after == before && out.None?
  }

  // ---------- The resize ----------

  datatype Limits = Limits(bktBits: nat, minBits: nat, maxBits: nat, minTheta: nat, maxTheta: nat, shrink: bool)

  // The size, the size to resize to (0 for none), whether the worker is at it, and how many buckets it has done.
  datatype Gear = Gear(curBits: nat, rehashBits: nat, rehashing: bool, cursor: nat)

  datatype Sight = Sight(entries: set<Entry>, gear: Gear)

  // n entries on 2^bits chains; the load is counted in entries for every 1024 chains.
  ghost predicate TooFull(r: Limits, n: nat, bits: nat) { n * 1024 >= (r.maxTheta + 1) * Pow2(bits) }
  ghost predicate TooEmpty(r: Limits, n: nat, bits: nat) { n * 1024 < r.minTheta * Pow2(bits) }

  // The size that a request asks for.
  ghost function Wanted(r: Limits, n: nat, bits: nat): nat {
    if TooFull(r, n, bits) && bits < r.maxBits then bits + 1
    else if r.shrink && TooEmpty(r, n, bits) && bits > r.minBits then bits - 1
    else 0
  }

  // How many buckets a table has.
  ghost function Buckets(r: Limits, bits: nat): nat { if r.bktBits <= bits then Pow2(bits - r.bktBits) else 0 }

  // What a step does to the resize: nothing, if it is a client's.
  ghost predicate Geared(r: Limits, step: Step, s: Sight, s': Sight) {
    var g, n := s.gear, |s.entries|;
    match step
    case Resize => s'.gear == if g.rehashBits != 0 then g else g.(rehashBits := Wanted(r, n, g.curBits))
    case Begin =>
      s'.gear ==
        if g.rehashBits == 0 || g.rehashing then g
        else if TooFull(r, n, g.curBits) || TooEmpty(r, n, g.curBits) then g.(rehashing := true, cursor := 0)
        else g.(rehashBits := 0)
    case Migrate =>
      s'.gear ==
        if !g.rehashing then g
        else if g.cursor < Buckets(r, g.curBits) then g.(cursor := g.cursor + 1)
        else Gear(g.rehashBits, 0, false, 0)
    case _ => s'.gear == g
  }

  ghost predicate Traced(r: Limits, steps: seq<Step>, outs: seq<Option<Entry>>, trace: seq<Sight>) {
    && |outs| == |steps| && |trace| == |steps| + 1
    && forall i :: 0 <= i < |steps| ==>
      && Follows(steps[i], trace[i].entries, trace[i + 1].entries, outs[i])
      && Geared(r, steps[i], trace[i], trace[i + 1])
  }

  lemma TracedOn(r: Limits, steps: seq<Step>, outs: seq<Option<Entry>>, trace: seq<Sight>, step: Step,
                 out: Option<Entry>, s: Sight)
    requires Traced(r, steps, outs, trace) && Follows(step, trace[|steps|].entries, s.entries, out)
    requires Geared(r, step, trace[|steps|], s)
    ensures Traced(r, steps + [step], outs + [out], trace + [s])
  {
    hide Follows, Geared;
  }

  // The steps from i up to j in which the worker does something.
  ghost function Migrations(steps: seq<Step>, i: nat, j: nat): nat
    requires i <= j <= |steps|
  {
    if i == j then 0 else Migrations(steps, i, j - 1) + if steps[j - 1].Migrate? then 1 else 0
  }

  /** A resize comes to an end: as many steps of the worker as there are buckets left, and one more, whatever the
    * clients do in between.
    */
  lemma {:induction false} ResizeEnds(r: Limits, steps: seq<Step>, outs: seq<Option<Entry>>, trace: seq<Sight>,
                                      i: nat, j: nat)
    requires Traced(r, steps, outs, trace) && i <= j <= |steps|
    requires trace[i].gear.rehashing && trace[i].gear.rehashBits != 0
    requires trace[i].gear.cursor <= Buckets(r, trace[i].gear.curBits)
    ensures var g, left := trace[i].gear, Buckets(r, trace[i].gear.curBits) - trace[i].gear.cursor;
      if Migrations(steps, i, j) <= left
      then trace[j].gear == g.(cursor := g.cursor + Migrations(steps, i, j))
      else exists k :: i < k <= j && trace[k].gear == Gear(g.rehashBits, 0, false, 0)
    decreases j
  {
    hide Follows, Wanted, Buckets;
    if i < j {
      ResizeEnds(r, steps, outs, trace, i, j - 1);
      assert Geared(r, steps[j - 1], trace[j - 1], trace[j - 1 + 1]);
    }
  }
}
